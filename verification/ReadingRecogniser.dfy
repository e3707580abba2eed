/** regex_valid_reading: the goto automaton that re2c compiled, run as the source runs it, and
    the proof that it decides the two expressions of regex_34401a.re. Labels keep the source's
    numbers: label n stands for yy<n>, 0 for the entry switch. */
module ReadingRecogniser {
  import opened Basics
  import opened Regex

  const PREFIXES := {'u', 'U', 'k', 'K', 'm', 'M', 'g', 'G'}

  // ---- The expressions ----

  const DIGIT := Class(DIGITS)
  const UNITS: seq<string> := ["VDC", "VAC", "AAC", "ADC", "OHM", "HZ", "DB", "SEC"]
  const UNIT_TAIL := Cat(WordOf(UNITS), Star(SP))
  const SCALED := Cat(Opt(Class(PREFIXES)), UNIT_TAIL)
  const SPACED := Cat(Star(SP), SCALED)
  const FRACTION := Cat(Opt(Cat(Class({'.'}), Plus(DIGIT))), SPACED)
  const NUMBER := Cat(Plus(DIGIT), FRACTION)
  const READING := Cat(Opt(Class({'+', '-'})), Cat(Star(SP), NUMBER))
  const OVERLOAD := Cat(Exact("OVL.D"), Cat(Plus(SP), SCALED))
  const OPEN := Cat(Exact("OPEN"), Star(SP))
  const MISC := Cat(Star(SP), Alt(OVERLOAD, OPEN))
  const VALID := Alt(MISC, READING)

  // ---- The compiled automaton ----

  /** The unit switch that labels 9, 12, 13, 17 and 23 share (label 8 is its default). */
  function UnitLabel(c: char): nat {
    if c in {'A', 'V', 'a', 'v'} then 15
    else if c in {'D', 'd'} then 16
    else if c in {'H', 'h'} then 18
    else if c in {'O', 'o'} then 19
    else if c in {'S', 's'} then 20
    else 8
  }

  function ScaledLabel(c: char): nat {
    if c in {'G', 'K', 'M', 'U', 'g', 'k', 'm', 'u'} then 17 else UnitLabel(c)
  }

  /** The copy of the unit labels that serves OVL.D. */
  function Shift20(yy: nat): nat {
    if yy == 8 then 8 else yy + 20
  }

  function OneStep(c: char, expected: set<char>, target: nat): nat {
    if c in expected then target else 8
  }

  /** The switch at a label: the label it goes to on a character. */
  function Next(yy: nat, c: char): nat {
    match yy
    case 0 => if c == ' ' then 3 else if c in {'+', '-'} then 4 else if '0' <= c <= '9' then 5
              else if c == 'O' then 6 else 1
    case 3 => if c == ' ' then 7 else if '0' <= c <= '9' then 9 else if c == 'O' then 10 else 2
    case 4 => if c == ' ' then 11 else if '0' <= c <= '9' then 9 else 2
    case 5 => if c == ' ' || c in {'A', 'D', 'G', 'H', 'K', 'M', 'O', 'S', 'U', 'V'}
                 || c in {'a', 'd', 'g', 'h', 'k', 'm', 'o', 's', 'u', 'v'} then 13
              else if c == '.' then 14 else if '0' <= c <= '9' then 9 else 2
    case 6 => if c == 'P' then 21 else if c == 'V' then 22 else 2
    case 7 => if c == ' ' then 7 else if '0' <= c <= '9' then 9 else if c == 'O' then 10 else 8
    case 9 => if c == ' ' then 12 else if c == '.' then 14 else if '0' <= c <= '9' then 9 else ScaledLabel(c)
    case 10 => if c == 'P' then 21 else if c == 'V' then 22 else 8
    case 11 => if c == ' ' then 11 else if '0' <= c <= '9' then 9 else 8
    case 12 => if c == ' ' then 12 else ScaledLabel(c)
    case 13 => if c == ' ' then 12 else ScaledLabel(c)
    case 14 => if '0' <= c <= '9' then 23 else 8
    case 15 => OneStep(c, {'A', 'D', 'a', 'd'}, 24)
    case 16 => OneStep(c, {'B', 'b'}, 25)
    case 17 => UnitLabel(c)
    case 18 => OneStep(c, {'Z', 'z'}, 25)
    case 19 => OneStep(c, {'H', 'h'}, 27)
    case 20 => OneStep(c, {'E', 'e'}, 24)
    case 21 => OneStep(c, {'E'}, 28)
    case 22 => OneStep(c, {'L'}, 29)
    case 23 => if c == ' ' then 12 else if '0' <= c <= '9' then 23 else ScaledLabel(c)
    case 24 => OneStep(c, {'C', 'c'}, 25)
    case 25 => if c == ' ' then 25 else 26
    case 27 => OneStep(c, {'M', 'm'}, 25)
    case 28 => OneStep(c, {'N'}, 30)
    case 29 => OneStep(c, {'.'}, 32)
    case 30 => if c == ' ' then 30 else 31
    case 32 => OneStep(c, {'D'}, 33)
    case 33 => OneStep(c, {' '}, 34)
    case 34 => if c == ' ' then 34 else Shift20(ScaledLabel(c))
    case 35 => OneStep(c, {'A', 'D', 'a', 'd'}, 41)
    case 36 => OneStep(c, {'B', 'b'}, 30)
    case 37 => Shift20(UnitLabel(c))
    case 38 => OneStep(c, {'Z', 'z'}, 30)
    case 39 => OneStep(c, {'H', 'h'}, 42)
    case 40 => OneStep(c, {'E', 'e'}, 41)
    case 41 => OneStep(c, {'C', 'c'}, 30)
    case 42 => OneStep(c, {'M', 'm'}, 30)
    case _ => 8
  }

  predicate Rejecting(yy: nat) { yy == 1 || yy == 2 || yy == 8 }
  predicate Accepting(yy: nat) { yy == 26 || yy == 31 }

  /** Label 13 dispatches once more on the character label 5 has just read. */
  function Dispatch(yy: nat, c: char): nat {
    var n := Next(yy, c);
    if n == 13 then Next(13, c) else n
  }

  /** The answer of the automaton from a label whose switch looks at the first character of t;
      past the end of t it looks at the terminating NUL. */
  predicate Run(yy: nat, t: string)
    decreases |t|
  {
    var n := Dispatch(yy, if t == [] then NUL else t[0]);
    if Rejecting(n) then false
    else if Accepting(n) then true
    else if t == [] then false
    else Run(n, t[1..])
  }

  lemma NulLeavesEveryLabel(yy: nat)
    ensures Rejecting(Dispatch(yy, NUL)) || Accepting(Dispatch(yy, NUL))
  {
  }

  /** One turn of the automaton. */
  lemma RunUnfold(yy: nat, t: string)
    ensures var n := Dispatch(yy, if t == [] then NUL else t[0]);
            if Rejecting(n) then !Run(yy, t)
            else if Accepting(n) then Run(yy, t)
            else t != [] && Run(yy, t) == Run(n, t[1..])
  {
    NulLeavesEveryLabel(yy);
  }

  /** A prefix of the text is a reading of the instrument. */
  ghost predicate IsReading(t: string) { PrefixMatches(VALID, t) }

  /** regex_valid_reading on a C string: s[..end] is its text and s[end] its terminator. */
  method RegexValidReading(s: array<char>, ghost end: nat) returns (valid: bool)
    requires end < s.Length && s[end] == NUL && NUL !in s[..end]
    ensures valid <==> IsReading(s[..end])
  {
    hide Next, Run, PrefixMatches;
    ghost var text := s[..end];
    RunDecidesValid(text);
    var cursor, marker, yy := 0, 0, 0;
    var yych := s[0];
    assert text == text[0..];
    while true
      invariant marker <= cursor <= end && yych == s[cursor]
      invariant Run(yy, text[cursor..]) == Run(0, text)
      decreases end - cursor
    {
      RunUnfold(yy, text[cursor..]);
      yy := Next(yy, yych);
      if yy == 13 {
        yy := Next(yy, yych);
      }
      if yy == 1 {
        cursor := cursor + 1;
        return false;
      } else if yy == 2 {
        return false;
      } else if yy == 8 {
        cursor := marker;
        return false;
      } else if yy == 26 || yy == 31 {
        return true;
      }
      assert text[cursor..][1..] == text[cursor + 1..];
      cursor := cursor + 1;
      if 3 <= yy <= 6 {
        marker := cursor;
      }
      yych := s[cursor];
    }
  }

  // ---- The automaton decides the expressions ----

  /** The closing runs of spaces end in acceptance whatever follows. */
  lemma {:induction false} RunTrailingSpaces(t: string)
    ensures Run(25, t) && Run(30, t)
  {
    if t != [] && t[0] == ' ' {
      RunTrailingSpaces(t[1..]);
    }
  }

  predicate UnitAt(t: string) {
    exists i :: 0 <= i < |UNITS| && StartsWith(t, UNITS[i])
  }

  lemma MatchUnit(t: string)
    ensures PrefixMatches(UNIT_TAIL, t) <==> UnitAt(t)
  {
    forall i | 0 <= i < |UNITS| ensures UpperCase(UNITS[i]) {}
    MatchAnyWord(UNITS, SP, t);
  }

  /** The three letters after which a unit of the instrument is complete. */
  lemma UnitLetters(t: string)
    ensures UnitAt(t) <==>
            || (|t| >= 3 && Upper(t[0]) in {'V', 'A'} && Upper(t[1]) in {'D', 'A'} && Upper(t[2]) == 'C')
            || (|t| >= 3 && Upper(t[0]) == 'O' && Upper(t[1]) == 'H' && Upper(t[2]) == 'M')
            || (|t| >= 2 && Upper(t[0]) == 'H' && Upper(t[1]) == 'Z')
            || (|t| >= 2 && Upper(t[0]) == 'D' && Upper(t[1]) == 'B')
            || (|t| >= 3 && Upper(t[0]) == 'S' && Upper(t[1]) == 'E' && Upper(t[2]) == 'C')
  {
    assert UNITS[0] == "VDC" && UNITS[1] == "VAC" && UNITS[2] == "AAC" && UNITS[3] == "ADC"
        && UNITS[4] == "OHM" && UNITS[5] == "HZ" && UNITS[6] == "DB" && UNITS[7] == "SEC";
  }

  lemma {:induction false} RunUnit(t: string)
    ensures Run(17, t) <==> UnitAt(t)
  {
    UnitLetters(t);
    hide UnitAt, Run;
    RunUnfold(17, t);
    if t != [] {
      var n, u := UnitLabel(t[0]), t[1..];
      if n != 8 {
        RunUnfold(n, u);
        if u != [] {
          var m, v := Next(n, u[0]), u[1..];
          assert t[1] == u[0] && (v != [] ==> t[2] == v[0]);
          if m == 25 {
            RunTrailingSpaces(v);
          } else if m != 8 {
            RunUnfold(m, v);
            if v != [] {
              RunTrailingSpaces(v[1..]);
            }
          }
        }
      }
    }
  }

  /** Labels 30 and 34 to 42 repeat labels 25, 12, 15 to 20, 24 and 27 for the reading OVL.D. */
  function Copy(yy: nat): nat {
    if yy == 12 then 34 else if 15 <= yy <= 20 then yy + 20 else if yy == 24 then 41
    else if yy == 25 then 30 else if yy == 26 then 31 else if yy == 27 then 42 else yy
  }

  lemma CopiedStep(yy: nat, c: char)
    requires yy in {12, 15, 16, 17, 18, 19, 20, 24, 25, 27}
    ensures Dispatch(Copy(yy), c) == Copy(Dispatch(yy, c))
    ensures Dispatch(yy, c) in {8, 12, 15, 16, 17, 18, 19, 20, 24, 25, 26, 27}
  {
  }

  lemma {:induction false} RunCopy(yy: nat, t: string)
    requires yy in {12, 15, 16, 17, 18, 19, 20, 24, 25, 27}
    ensures Run(Copy(yy), t) == Run(yy, t)
    decreases |t|
  {
    hide Run;
    var c := if t == [] then NUL else t[0];
    CopiedStep(yy, c);
    RunUnfold(yy, t);
    RunUnfold(Copy(yy), t);
    hide Dispatch;
    var n := Dispatch(yy, c);
    if t != [] && n != 8 && n != 26 {
      RunCopy(n, t[1..]);
    }
  }

  lemma MatchScaled(t: string)
    ensures PrefixMatches(SCALED, t) <==> UnitAt(t) || (t != [] && t[0] in PREFIXES && UnitAt(t[1..]))
  {
    MatchAlt(Class(PREFIXES), Eps, UNIT_TAIL, t);
    MatchClass(PREFIXES, UNIT_TAIL, t);
    MatchEps(UNIT_TAIL, t);
    MatchUnit(t);
    if t != [] {
      MatchUnit(t[1..]);
    }
  }

  /** Without a leading space, label 12 goes on as label 17, after a scale letter if there is one. */
  lemma {:induction false} RunScaled(t: string)
    requires t == [] || t[0] != ' '
    ensures Run(12, t) <==> PrefixMatches(SCALED, t)
  {
    hide UnitAt, Run, PrefixMatches;
    MatchScaled(t);
    RunUnit(t);
    RunUnfold(12, t);
    RunUnfold(17, t);
    if t != [] {
      RunUnit(t[1..]);
      PrefixIsNotUnit(t);
      assert Dispatch(12, t[0]) == if t[0] in PREFIXES then 17 else Dispatch(17, t[0]);
    }
  }

  lemma PrefixIsNotUnit(t: string)
    requires t != []
    ensures t[0] in PREFIXES ==> !UnitAt(t)
  {
    UnitLetters(t);
  }

  lemma {:induction false} RunSpaced(t: string)
    ensures Run(12, t) <==> PrefixMatches(SPACED, t)
  {
    hide PrefixMatches, Run;
    MatchStar({' '}, SCALED, t);
    if t != [] && t[0] == ' ' {
      RunSpaced(t[1..]);
      RunUnfold(12, t);
      ScaledStart(t);
    } else {
      RunScaled(t);
    }
  }

  /** What starts with a space, a digit, a point or a sign is not a unit. */
  lemma ScaledStart(t: string)
    ensures PrefixMatches(SCALED, t) ==> t != [] && t[0] !in DIGITS && t[0] !in {' ', '.', '+', '-'}
  {
    hide PrefixMatches, UnitAt;
    MatchScaled(t);
    UnitLetters(t);
  }

  lemma {:induction false} RunFractionDigits(t: string)
    ensures Run(23, t) <==> PrefixMatches(Cat(Star(DIGIT), SPACED), t)
  {
    hide PrefixMatches, Run;
    MatchStar(DIGITS, SPACED, t);
    RunSpaced(t);
    RunUnfold(23, t);
    RunUnfold(12, t);
    if t != [] {
      RunFractionDigits(t[1..]);
      SpacedStart(t);
      assert t[0] in DIGITS || Dispatch(23, t[0]) == Dispatch(12, t[0]);
    }
  }

  lemma SpacedStart(t: string)
    ensures PrefixMatches(SPACED, t) ==> t != [] && t[0] !in DIGITS && t[0] !in {'.', '+', '-'}
  {
    MatchStar({' '}, SCALED, t);
    ScaledStart(t);
  }

  lemma MatchFraction(t: string)
    ensures PrefixMatches(FRACTION, t) <==>
            || PrefixMatches(SPACED, t)
            || (t != [] && t[0] == '.' && PrefixMatches(Cat(Plus(DIGIT), SPACED), t[1..]))
  {
    var point := Cat(Class({'.'}), Plus(DIGIT));
    MatchAlt(point, Eps, SPACED, t);
    MatchEps(SPACED, t);
    MatchAssoc(Class({'.'}), Plus(DIGIT), SPACED, t);
    MatchClass({'.'}, Cat(Plus(DIGIT), SPACED), t);
  }

  lemma {:induction false} RunPoint(t: string)
    ensures Run(14, t) <==> PrefixMatches(Cat(Plus(DIGIT), SPACED), t)
  {
    MatchPlus(DIGITS, SPACED, t);
    if t != [] {
      RunFractionDigits(t[1..]);
    }
  }

  lemma {:induction false} RunDigits(t: string)
    ensures Run(9, t) <==> PrefixMatches(Cat(Star(DIGIT), FRACTION), t)
  {
    MatchStar(DIGITS, FRACTION, t);
    MatchFraction(t);
    RunSpaced(t);
    SpacedStart(t);
    if t != [] {
      RunPoint(t[1..]);
      RunDigits(t[1..]);
    }
  }

  lemma MatchNumber(t: string)
    ensures PrefixMatches(NUMBER, t) <==> t != [] && t[0] in DIGITS && Run(9, t[1..])
  {
    MatchPlus(DIGITS, FRACTION, t);
    if t != [] {
      RunDigits(t[1..]);
    }
  }

  lemma {:induction false} RunSigned(t: string)
    ensures Run(11, t) <==> PrefixMatches(Cat(Star(SP), NUMBER), t)
  {
    MatchStar({' '}, NUMBER, t);
    MatchNumber(t);
    if t != [] {
      RunSigned(t[1..]);
    }
  }

  // ---- Leading spaces, signs and the two fixed words ----

  lemma {:induction false} RunOpen(t: string)
    ensures Run(21, t) <==> |t| >= 2 && t[0] == 'E' && t[1] == 'N'
  {
    hide Run;
    RunUnfold(21, t);
    if t != [] {
      RunUnfold(28, t[1..]);
      if t[1..] != [] {
        RunTrailingSpaces(t[1..][1..]);
      }
    }
  }

  lemma {:induction false} RunOverload(t: string)
    ensures Run(22, t) <==> |t| >= 3 && t[0] == 'L' && t[1] == '.' && t[2] == 'D' && Run(33, t[3..])
  {
    hide Run;
    RunUnfold(22, t);
    if |t| >= 1 {
      RunUnfold(29, t[1..]);
      if |t| >= 2 {
        RunUnfold(32, t[1..][1..]);
        assert t[1..][1..] == t[2..];
        if |t| >= 3 {
          assert t[2..][1..] == t[3..];
        }
      }
    }
  }

  lemma {:induction false} RunOverloadTail(t: string)
    ensures Run(33, t) <==> PrefixMatches(Cat(Plus(SP), SCALED), t)
  {
    hide PrefixMatches, Run, WordOf;
    RunUnfold(33, t);
    MatchPlus({' '}, SCALED, t);
    if t != [] {
      RunCopy(12, t[1..]);
      RunSpaced(t[1..]);
    }
  }

  lemma {:induction false} RunAfterO(t: string)
    ensures Run(10, t) <==>
            || (|t| >= 3 && t[0] == 'P' && t[1] == 'E' && t[2] == 'N')
            || (|t| >= 4 && t[0] == 'V' && t[1] == 'L' && t[2] == '.' && t[3] == 'D'
                && PrefixMatches(Cat(Plus(SP), SCALED), t[4..]))
  {
    hide PrefixMatches, Run;
    RunUnfold(10, t);
    if t != [] {
      RunOpen(t[1..]);
      RunOverload(t[1..]);
      if |t| >= 4 {
        assert t[1..][3..] == t[4..];
        RunOverloadTail(t[4..]);
      }
    }
  }

  lemma MatchFixedWord(t: string)
    ensures PrefixMatches(Alt(OVERLOAD, OPEN), t) <==> t != [] && t[0] == 'O' && Run(10, t[1..])
  {
    hide PrefixMatches, Run;
    MatchAltTop(OVERLOAD, OPEN, t);
    MatchExact("OVL.D", Cat(Plus(SP), SCALED), t);
    MatchExact("OPEN", Star(SP), t);
    if "OPEN" <= t {
      MatchFinalStar(SP, t[4..]);
    }
    if t != [] {
      RunAfterO(t[1..]);
      if |t| >= 5 {
        assert t[1..][4..] == t[5..];
      }
    }
  }

  /** After leading spaces only the number or one of the fixed words can follow. */
  lemma {:induction false} RunIndented(t: string)
    ensures Run(7, t) <==> PrefixMatches(Cat(Star(SP), NUMBER), t) || PrefixMatches(MISC, t)
  {
    hide PrefixMatches, Run;
    MatchStar({' '}, NUMBER, t);
    MatchStar({' '}, Alt(OVERLOAD, OPEN), t);
    MatchNumber(t);
    MatchFixedWord(t);
    RunUnfold(7, t);
    if t != [] {
      RunIndented(t[1..]);
    }
  }

  lemma RunEntry(yy: nat, t: string)
    requires yy in {3, 4, 5, 6}
    ensures Run(yy, t) == Run(if yy == 3 then 7 else if yy == 4 then 11 else if yy == 5 then 9 else 10, t)
  {
    var late := if yy == 3 then 7 else if yy == 4 then 11 else if yy == 5 then 9 else 10;
    hide Run;
    RunUnfold(yy, t);
    RunUnfold(late, t);
  }

  /** The compiled automaton accepts a text exactly when a prefix of it matches one of the two
      expressions of the specification. */
  lemma {:induction false} RunDecidesValid(t: string)
    ensures Run(0, t) <==> IsReading(t)
  {
    hide PrefixMatches, Run, WordOf;
    RunUnfold(0, t);
    MatchAltTop(MISC, READING, t);
    var body := Cat(Star(SP), NUMBER);
    MatchAlt(Class({'+', '-'}), Eps, body, t);
    MatchClass({'+', '-'}, body, t);
    MatchEps(body, t);
    RunIndented(t);
    RunUnfold(7, t);
    if t != [] {
      var u := t[1..];
      RunEntry(3, u);
      RunEntry(4, u);
      RunEntry(5, u);
      RunEntry(6, u);
      RunSigned(u);
    }
  }
}
