/** regex_text_display, and how the languages of the three recognisers lie to each other. */
module Recognisers {
  import opened Basics
  import opened Regex
  import Reading = ReadingRecogniser
  import Menu = MenuRecogniser

  // ---- regex_text_display ----

  /** Display text as regex_34401a.re writes it: [A-Za-z0-9 .,:;/^_+-]. */
  const WRITTEN_TEXT := set c: char | 'A' <= c <= 'Z' || 'a' <= c <= 'z' || '0' <= c <= '9'
                                   || c in {' ', '.', ',', ':', ';', '/', '^', '_', '+', '-'}

  /** Display text as the generated switches have it. */
  const COMPILED_TEXT := set c: char | c == ' ' || '+' <= c <= ';' || 'A' <= c <= 'a'

  predicate TextSwitch(c: char) {
    c == ' ' || '+' <= c <= ';' || 'A' <= c <= 'a'
  }

  function Text(class_: set<char>): Re { Plus(Class(class_)) }

  lemma MatchText(cs: set<char>, t: string)
    ensures PrefixMatches(Text(cs), t) <==> t != [] && t[0] in cs
  {
    if PrefixMatches(Text(cs), t) {
      var k, j := CatWitness(Class(cs), Star(Class(cs)), t);
    }
    if t != [] && t[0] in cs {
      assert InLanguage(Class(cs), t[..1]) && InLanguage(Star(Class(cs)), t[1..1]);
      CatIntro(Class(cs), Star(Class(cs)), t, 1, 1);
    }
  }

  ghost predicate IsText(t: string) { PrefixMatches(Text(COMPILED_TEXT), t) }

  method RegexTextDisplay(s: array<char>, ghost end: nat) returns (shown: bool)
    requires end < s.Length && s[end] == NUL && NUL !in s[..end]
    ensures shown <==> IsText(s[..end])
  {
    MatchText(COMPILED_TEXT, s[..end]);
    var cursor := 0;
    if !TextSwitch(s[cursor]) {
      return false;
    }
    cursor := 1;
    while TextSwitch(s[cursor])
      invariant 1 <= cursor <= end
      decreases end - cursor
    {
      cursor := cursor + 1;
    }
    return true;
  }

  /** The two classes part on a text exactly when its first character is a lower-case letter after
      'a' (written only), or one of [ \\ ] ` (compiled only). */
  lemma CompiledTextDiffersFromWritten(t: string)
    ensures (PrefixMatches(Text(COMPILED_TEXT), t) <==> PrefixMatches(Text(WRITTEN_TEXT), t)) <==>
            !(t != [] && ('b' <= t[0] <= 'z' || t[0] in {'[', '\\', ']', '`'}))
  {
    MatchText(COMPILED_TEXT, t);
    MatchText(WRITTEN_TEXT, t);
  }

  // ---- Readings, menus ----

  /** How a reading starts: with spaces, a sign, a digit that no colon follows, or OP or OV. */
  lemma {:induction false} ReadingEntry(t: string)
    requires t != [] && Reading.Run(0, t)
    ensures var (c, u) := (t[0], t[1..]);
            || (c == ' ' && Reading.Run(7, u))
            || c in {'+', '-'}
            || ('0' <= c <= '9' && u != [] && u[0] != ':')
            || (c == 'O' && u != [] && u[0] in {'P', 'V'})
  {
    hide Reading.Run;
    Reading.RunUnfold(0, t);
    var (c, u) := (t[0], t[1..]);
    if c == ' ' {
      Reading.RunEntry(3, u);
    } else if '0' <= c <= '9' {
      Reading.RunUnfold(5, u);
    } else if c == 'O' {
      Reading.RunUnfold(6, u);
    }
  }

  lemma {:induction false} IndentedApart(t: string)
    ensures !(Reading.Run(7, t) && Menu.Run(61, t))
  {
    hide Reading.Run, Menu.Run, Menu.Dispatch;
    Reading.RunUnfold(7, t);
    Menu.RunUnfold(61, t);
    Menu.DispatchSpaces(if t == [] then NUL else t[0]);
    if t != [] {
      IndentedApart(t[1..]);
    }
  }

  /** No text is both a reading and a menu display. */
  lemma ReadingIsNotMenu(t: string)
    ensures !(Reading.IsReading(t) && Menu.IsMenu(t))
  {
    hide Reading.Run, Menu.Run, Reading.IsReading, Menu.IsMenu, Reading.Next, Menu.Next;
    Reading.RunDecidesValid(t);
    Menu.RunDecidesMenu(t);
    if t == [] {
      Menu.EmptyIsNoMenu();
    } else if Reading.Run(0, t) && Menu.Run(0, t) {
      ReadingEntry(t);
      Menu.RunEntry(t);
      IndentedApart(t[1..]);
    }
  }

  /** A reading starts with a space, a sign, a digit or the letter O, never with punctuation. */
  lemma ReadingStart(t: string)
    requires Reading.IsReading(t)
    ensures t != [] && (t[0] in {' ', '+', '-', 'O'} || '0' <= t[0] <= '9')
  {
    hide Reading.Run, Reading.IsReading;
    Reading.RunDecidesValid(t);
    Reading.RunUnfold(0, t);
  }

  lemma SampleLabels()
    ensures Reading.Dispatch(0, '-') == 4 && Reading.Dispatch(4, '1') == 9 && Reading.Dispatch(9, '2') == 9
    ensures Reading.Dispatch(9, '.') == 14 && Reading.Dispatch(14, '5') == 23 && Reading.Dispatch(23, ' ') == 12
    ensures Reading.Dispatch(12, 'm') == 17 && Reading.Dispatch(17, 'V') == 15 && Reading.Dispatch(15, 'D') == 24
    ensures Reading.Dispatch(24, 'C') == 25
    ensures Reading.Dispatch(25, NUL) == 26 && Reading.Dispatch(0, 'H') == 1
  {
  }

  /** A reading with a sign, a fraction and a scale letter. */
  lemma ReadingSample()
    ensures Reading.IsReading("-12.5 mVDC")
  {
    hide Reading.Run, Reading.IsReading, Reading.Dispatch;
    var t := "-12.5 mVDC";
    SampleLabels();
    Reading.RunDecidesValid(t);
    assert t[0..] == t;
    Reading.RunUnfold(0, t[0..]);
    Reading.RunUnfold(4, t[1..]);
    Reading.RunUnfold(9, t[2..]);
    Reading.RunUnfold(9, t[3..]);
    Reading.RunUnfold(14, t[4..]);
    Reading.RunUnfold(23, t[5..]);
    Reading.RunUnfold(12, t[6..]);
    Reading.RunUnfold(17, t[7..]);
    Reading.RunUnfold(15, t[8..]);
    Reading.RunUnfold(24, t[9..]);
    Reading.RunUnfold(25, t[10..]);
    assert forall i :: 0 <= i < 10 ==> t[i..][1..] == t[i + 1..] && t[i..][0] == t[i];
  }

  /** A text that is no reading. */
  lemma TextSample()
    ensures !Reading.IsReading("HELLO") && IsText("HELLO")
  {
    hide Reading.Run, Reading.IsReading, Reading.Dispatch, PrefixMatches;
    SampleLabels();
    Reading.RunDecidesValid("HELLO");
    Reading.RunUnfold(0, "HELLO");
    MatchText(COMPILED_TEXT, "HELLO");
  }
}
