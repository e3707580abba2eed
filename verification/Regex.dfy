/** Regular expressions over characters, their languages, and the question the compiled
    recognisers answer: does some PREFIX of the text belong to the language?

    The rules at the end of the module peel one construct off the front of an expression.
    They are all that the automata of the recogniser modules are compared against. */
module Regex {

  /** The fragment of re2c's expressions that regex_34401a.re uses. */
  datatype Re =
    | Class(chars: set<char>)
    | Eps
    | Cat(first: Re, rest: Re)
    | Alt(left: Re, right: Re)
    | Star(body: Re)

  /** The language of an expression. */
  ghost predicate InLanguage(r: Re, s: string)
    decreases r, |s|
  {
    match r
    case Class(chars) => |s| == 1 && s[0] in chars
    case Eps => s == []
    case Cat(a, b) => exists k :: 0 <= k <= |s| && InLanguage(a, s[..k]) && InLanguage(b, s[k..])
    case Alt(a, b) => InLanguage(a, s) || InLanguage(b, s)
    case Star(a) => s == [] || exists k :: 0 < k <= |s| && InLanguage(a, s[..k]) && InLanguage(r, s[k..])
  }

  /** What a generated recogniser decides: some prefix of the text matches. */
  ghost predicate PrefixMatches(r: Re, s: string) {
    exists k :: 0 <= k <= |s| && InLanguage(r, s[..k])
  }

  const DIGITS := set c: char | '0' <= c <= '9'
  const SP := Class({' '})

  // Derived forms of re2c.

  function Plus(r: Re): Re { Cat(r, Star(r)) }

  function Opt(r: Re): Re { Alt(r, Eps) }

  function Upper(c: char): char {
    if 'a' <= c <= 'z' then c - 32 as char else c
  }

  function Lower(c: char): char {
    if 'A' <= c <= 'Z' then c + 32 as char else c
  }

  /** A letter in either case, as in re2c's single-quoted strings. */
  function AnyCase(c: char): Re { Class({Upper(c), Lower(c)}) }

  /** 'word': matched without regard to case. */
  function Word(w: string): Re {
    if w == [] then Eps else Cat(AnyCase(w[0]), Word(w[1..]))
  }

  /** "word": matched exactly. */
  function Exact(w: string): Re {
    if w == [] then Eps else Cat(Class({w[0]}), Exact(w[1..]))
  }

  /** One of several words, each in any mixture of cases. */
  function WordOf(ws: seq<string>): Re
    requires ws != []
  {
    if |ws| == 1 then Word(ws[0]) else Alt(Word(ws[0]), WordOf(ws[1..]))
  }

  /** s starts with the upper-case word w, in any mixture of cases. */
  predicate StartsWith(s: string, w: string) {
    |w| <= |s| && forall k :: 0 <= k < |w| ==> Upper(s[k]) == w[k]
  }

  // ---- Peeling rules ----

  lemma MatchEps(r: Re, s: string)
    ensures PrefixMatches(Cat(Eps, r), s) <==> PrefixMatches(r, s)
  {
    if PrefixMatches(Cat(Eps, r), s) {
      var k, j := CatWitness(Eps, r, s);
      assert s[j..k] == s[..k];
    }
    if PrefixMatches(r, s) {
      var k :| 0 <= k <= |s| && InLanguage(r, s[..k]);
      CatIntro(Eps, r, s, k, 0);
    }
  }

  lemma {:induction false} PrefixIntro(r: Re, s: string, k: nat)
    requires k <= |s| && InLanguage(r, s[..k])
    ensures PrefixMatches(r, s)
  {
  }

  /** From a matching prefix of a concatenation to the two ends it consists of. */
  lemma CatWitness(a: Re, b: Re, s: string) returns (k: nat, j: nat)
    requires PrefixMatches(Cat(a, b), s)
    ensures j <= k <= |s| && InLanguage(a, s[..j]) && InLanguage(b, s[j..k])
  {
    k :| 0 <= k <= |s| && InLanguage(Cat(a, b), s[..k]);
    j :| 0 <= j <= k && InLanguage(a, s[..k][..j]) && InLanguage(b, s[..k][j..]);
    assert s[..k][..j] == s[..j] && s[..k][j..] == s[j..k];
  }

  lemma {:induction false} CatIntro(a: Re, b: Re, s: string, k: nat, j: nat)
    requires j <= k <= |s| && InLanguage(a, s[..j]) && InLanguage(b, s[j..k])
    ensures PrefixMatches(Cat(a, b), s)
  {
    assert s[..k][..j] == s[..j] && s[..k][j..] == s[j..k];
    assert InLanguage(Cat(a, b), s[..k]);
  }

  lemma MatchClass(cs: set<char>, r: Re, s: string)
    ensures PrefixMatches(Cat(Class(cs), r), s) <==> s != [] && s[0] in cs && PrefixMatches(r, s[1..])
  {
    if PrefixMatches(Cat(Class(cs), r), s) {
      var k, j := CatWitness(Class(cs), r, s);
      assert s[1..][..k - 1] == s[1..k];
    }
    if s != [] && s[0] in cs && PrefixMatches(r, s[1..]) {
      var k :| 0 <= k <= |s[1..]| && InLanguage(r, s[1..][..k]);
      assert s[1..][..k] == s[1..k + 1];
      CatIntro(Class(cs), r, s, k + 1, 1);
    }
  }

  lemma MatchAlt(a: Re, b: Re, r: Re, s: string)
    ensures PrefixMatches(Cat(Alt(a, b), r), s) <==>
            PrefixMatches(Cat(a, r), s) || PrefixMatches(Cat(b, r), s)
  {
    if PrefixMatches(Cat(Alt(a, b), r), s) {
      var k, j := CatWitness(Alt(a, b), r, s);
      if InLanguage(a, s[..j]) {
        CatIntro(a, r, s, k, j);
      } else {
        CatIntro(b, r, s, k, j);
      }
    }
    if PrefixMatches(Cat(a, r), s) {
      var k, j := CatWitness(a, r, s);
      CatIntro(Alt(a, b), r, s, k, j);
    }
    if PrefixMatches(Cat(b, r), s) {
      var k, j := CatWitness(b, r, s);
      CatIntro(Alt(a, b), r, s, k, j);
    }
  }

  lemma MatchAltTop(a: Re, b: Re, s: string)
    ensures PrefixMatches(Alt(a, b), s) <==> PrefixMatches(a, s) || PrefixMatches(b, s)
  {
    if PrefixMatches(a, s) {
      var k :| 0 <= k <= |s| && InLanguage(a, s[..k]);
      assert InLanguage(Alt(a, b), s[..k]);
    }
    if PrefixMatches(b, s) {
      var k :| 0 <= k <= |s| && InLanguage(b, s[..k]);
      assert InLanguage(Alt(a, b), s[..k]);
    }
  }

  lemma MatchAssoc(a: Re, b: Re, r: Re, s: string)
    ensures PrefixMatches(Cat(Cat(a, b), r), s) <==> PrefixMatches(Cat(a, Cat(b, r)), s)
  {
    if PrefixMatches(Cat(Cat(a, b), r), s) {
      AssocRight(a, b, r, s);
    }
    if PrefixMatches(Cat(a, Cat(b, r)), s) {
      AssocLeft(a, b, r, s);
    }
  }

  lemma AssocRight(a: Re, b: Re, r: Re, s: string)
    requires PrefixMatches(Cat(Cat(a, b), r), s)
    ensures PrefixMatches(Cat(a, Cat(b, r)), s)
  {
    hide InLanguage, PrefixMatches;
    var k, j := CatWitness(Cat(a, b), r, s);
    var i := CatSplit(a, b, s[..j]);
    Slices(s, 0, i, j);
    CatJoin(b, r, s, i, j, k);
    CatIntro(a, Cat(b, r), s, k, i);
  }

  lemma AssocLeft(a: Re, b: Re, r: Re, s: string)
    requires PrefixMatches(Cat(a, Cat(b, r)), s)
    ensures PrefixMatches(Cat(Cat(a, b), r), s)
  {
    hide InLanguage, PrefixMatches;
    var k, i := CatWitness(a, Cat(b, r), s);
    var j := CatSplitWithin(b, r, s, i, k);
    assert s[0..i] == s[..i] && s[0..j] == s[..j];
    CatJoin(a, b, s, 0, i, j);
    CatIntro(Cat(a, b), r, s, k, j);
  }

  lemma CatSplitWithin(a: Re, b: Re, s: string, i: nat, k: nat) returns (j: nat)
    requires i <= k <= |s| && InLanguage(Cat(a, b), s[i..k])
    ensures i <= j <= k && InLanguage(a, s[i..j]) && InLanguage(b, s[j..k])
  {
    hide InLanguage;
    var d := CatSplit(a, b, s[i..k]);
    j := i + d;
    Slices(s, i, j, k);
  }

  lemma CatSplit(a: Re, b: Re, t: string) returns (d: nat)
    requires InLanguage(Cat(a, b), t)
    ensures d <= |t| && InLanguage(a, t[..d]) && InLanguage(b, t[d..])
  {
    d :| 0 <= d <= |t| && InLanguage(a, t[..d]) && InLanguage(b, t[d..]);
  }

  lemma {:induction false} CatJoin(a: Re, b: Re, s: string, i: nat, j: nat, k: nat)
    requires i <= j <= k <= |s| && InLanguage(a, s[i..j]) && InLanguage(b, s[j..k])
    ensures InLanguage(Cat(a, b), s[i..k])
  {
    Slices(s, i, j, k);
  }

  lemma Slices(s: string, i: nat, j: nat, k: nat)
    requires i <= j <= k <= |s|
    ensures s[i..k][..j - i] == s[i..j] && s[i..k][j - i..] == s[j..k]
    ensures s[0..j] == s[..j] && s[0..k] == s[..k]
  {
  }

  lemma MatchStar(cs: set<char>, r: Re, s: string)
    ensures PrefixMatches(Cat(Star(Class(cs)), r), s) <==>
            PrefixMatches(r, s) || (s != [] && s[0] in cs && PrefixMatches(Cat(Star(Class(cs)), r), s[1..]))
  {
    hide PrefixMatches;
    if PrefixMatches(Cat(Star(Class(cs)), r), s) {
      StarUnrolls(cs, r, s);
    }
    if PrefixMatches(r, s) {
      StarSkips(cs, r, s);
    }
    if s != [] && s[0] in cs && PrefixMatches(Cat(Star(Class(cs)), r), s[1..]) {
      StarRolls(cs, r, s);
    }
  }

  lemma StarRolls(cs: set<char>, r: Re, s: string)
    requires s != [] && s[0] in cs && PrefixMatches(Cat(Star(Class(cs)), r), s[1..])
    ensures PrefixMatches(Cat(Star(Class(cs)), r), s)
  {
    hide InLanguage, PrefixMatches;
    var k, j := CatWitness(Star(Class(cs)), r, s[1..]);
    assert s[..j + 1][1..] == s[1..][..j] && s[1..][j..k] == s[j + 1..k + 1];
    StarJoin(cs, s[..j + 1]);
    CatIntro(Star(Class(cs)), r, s, k + 1, j + 1);
  }

  lemma StarUnrolls(cs: set<char>, r: Re, s: string)
    requires PrefixMatches(Cat(Star(Class(cs)), r), s)
    ensures PrefixMatches(r, s) || (s != [] && s[0] in cs && PrefixMatches(Cat(Star(Class(cs)), r), s[1..]))
  {
    hide InLanguage, PrefixMatches;
    var k, j := CatWitness(Star(Class(cs)), r, s);
    if j == 0 {
      assert s[0..k] == s[..k];
      PrefixIntro(r, s, k);
    } else {
      StarSplit(cs, s[..j]);
      assert s[..j][1..] == s[1..][..j - 1] && s[j..k] == s[1..][j - 1..k - 1];
      CatIntro(Star(Class(cs)), r, s[1..], k - 1, j - 1);
    }
  }

  lemma StarSkips(cs: set<char>, r: Re, s: string)
    requires PrefixMatches(r, s)
    ensures PrefixMatches(Cat(Star(Class(cs)), r), s)
  {
    var k :| 0 <= k <= |s| && InLanguage(r, s[..k]);
    assert InLanguage(Star(Class(cs)), s[..0]) && s[0..k] == s[..k];
    CatIntro(Star(Class(cs)), r, s, k, 0);
  }

  lemma {:induction false} StarSplit(cs: set<char>, t: string)
    requires t != [] && InLanguage(Star(Class(cs)), t)
    ensures t[0] in cs && InLanguage(Star(Class(cs)), t[1..])
  {
    var i :| 0 < i <= |t| && InLanguage(Class(cs), t[..i]) && InLanguage(Star(Class(cs)), t[i..]);
  }

  lemma {:induction false} StarJoin(cs: set<char>, t: string)
    requires t != [] && t[0] in cs && InLanguage(Star(Class(cs)), t[1..])
    ensures InLanguage(Star(Class(cs)), t)
  {
    assert InLanguage(Class(cs), t[..1]);
  }

  /** Any text has the empty prefix, so a closing repetition never constrains the answer. */
  lemma MatchFinalStar(r: Re, s: string)
    ensures PrefixMatches(Star(r), s)
  {
    assert InLanguage(Star(r), s[..0]);
  }

  lemma {:induction false} MatchWord(w: string, r: Re, s: string)
    requires UpperCase(w)
    ensures PrefixMatches(Cat(Word(w), r), s) <==> StartsWith(s, w) && PrefixMatches(r, s[|w|..])
  {
    if w == [] {
      MatchEps(r, s);
      assert s[0..] == s;
    } else {
      var first := AnyCase(w[0]);
      MatchAssoc(first, Word(w[1..]), r, s);
      MatchClass(first.chars, Cat(Word(w[1..]), r), s);
      if s != [] {
        MatchWord(w[1..], r, s[1..]);
        assert s[0] in first.chars <==> Upper(s[0]) == w[0];
        StartsWithStep(s, w);
        if |w| <= |s| {
          assert s[1..][|w| - 1..] == s[|w|..];
        }
      }
    }
  }

  lemma StartsWithStep(s: string, w: string)
    requires w != [] && s != []
    ensures StartsWith(s, w) <==> Upper(s[0]) == w[0] && StartsWith(s[1..], w[1..])
  {
    if Upper(s[0]) == w[0] && StartsWith(s[1..], w[1..]) {
      forall k | 0 <= k < |w| ensures Upper(s[k]) == w[k] {
        if k > 0 {
          assert s[1..][k - 1] == s[k] && w[1..][k - 1] == w[k];
        }
      }
    }
  }

  predicate UpperCase(w: string) {
    forall k :: 0 <= k < |w| ==> Upper(w[k]) == w[k]
  }

  lemma {:induction false} MatchWordOf(ws: seq<string>, r: Re, s: string)
    requires ws != [] && forall i :: 0 <= i < |ws| ==> UpperCase(ws[i])
    ensures PrefixMatches(Cat(WordOf(ws), r), s) <==>
            exists i :: 0 <= i < |ws| && StartsWith(s, ws[i]) && PrefixMatches(r, s[|ws[i]|..])
  {
    assert UpperCase(ws[0]);
    MatchWord(ws[0], r, s);
    if |ws| > 1 {
      MatchAlt(Word(ws[0]), WordOf(ws[1..]), r, s);
      forall i | 0 <= i < |ws[1..]| ensures UpperCase(ws[1..][i]) {
        assert ws[1..][i] == ws[i + 1];
      }
      MatchWordOf(ws[1..], r, s);
      if i :| 0 <= i < |ws| && StartsWith(s, ws[i]) && PrefixMatches(r, s[|ws[i]|..]) {
        assert i > 0 ==> ws[1..][i - 1] == ws[i];
      }
    }
  }

  lemma {:induction false} MatchExact(w: string, r: Re, s: string)
    ensures PrefixMatches(Cat(Exact(w), r), s) <==> w <= s && PrefixMatches(r, s[|w|..])
  {
    if w == [] {
      MatchEps(r, s);
      assert s[0..] == s;
    } else {
      MatchAssoc(Class({w[0]}), Exact(w[1..]), r, s);
      MatchClass({w[0]}, Cat(Exact(w[1..]), r), s);
      if s != [] {
        MatchExact(w[1..], r, s[1..]);
        if s[0] == w[0] && w[1..] <= s[1..] {
          assert [w[0]] + w[1..] == w && [s[0]] + s[1..] == s;
          assert s[1..][|w| - 1..] == s[|w|..];
        }
      }
    }
  }

  /** A list of words with an unconstrained ending: one of the words has to come next. */
  lemma {:induction false} MatchAnyWord(ws: seq<string>, r: Re, s: string)
    requires ws != [] && forall i :: 0 <= i < |ws| ==> UpperCase(ws[i])
    ensures PrefixMatches(Cat(WordOf(ws), Star(r)), s) <==> exists i :: 0 <= i < |ws| && StartsWith(s, ws[i])
  {
    MatchWordOf(ws, Star(r), s);
    forall i | 0 <= i < |ws| && StartsWith(s, ws[i]) ensures PrefixMatches(Star(r), s[|ws[i]|..]) {
      MatchFinalStar(r, s[|ws[i]|..]);
    }
  }

  lemma MatchPlus(cs: set<char>, r: Re, t: string)
    ensures PrefixMatches(Cat(Plus(Class(cs)), r), t) <==>
            t != [] && t[0] in cs && PrefixMatches(Cat(Star(Class(cs)), r), t[1..])
  {
    MatchAssoc(Class(cs), Star(Class(cs)), r, t);
    MatchClass(cs, Cat(Star(Class(cs)), r), t);
  }
}
