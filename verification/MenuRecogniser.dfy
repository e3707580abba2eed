/** regex_in_menu: the goto automaton that re2c compiled, and the proof of the language it
    decides. The phrases make up a trie with shared endings; its labels keep the source's
    numbers (label n stands for yy<n>, 0 for the entry switch). */
module MenuRecogniser {
  import opened Basics
  import opened Regex

  // ---- The expressions ----

  const CAPITALS := set c: char | 'A' <= c <= 'Z'

  /** Menu text as regex_34401a.re writes it: [A-Za-z /-]. */
  const WRITTEN_TEXT := set c: char | 'A' <= c <= 'Z' || 'a' <= c <= 'z' || c in {' ', '/', '-'}

  /** Menu text as the generated switches have it: the one range '/' ... 'a', and the space. */
  const COMPILED_TEXT := set c: char | c == ' ' || '/' <= c <= 'a'

  const PHRASES: seq<string> :=
    ["TOP OF MENU", "MENUS", "COMMANDS", "PARAMETER", "MENU BOTTOM", "CHANGE SAVED",
     "MIN VALUE", "MAX VALUE", "EXITING MENU", "NOT ENTERED", "NOT RELEVANT"]

  const MISC := Cat(Star(SP), Cat(WordOf(PHRASES), Star(SP)))

  /** "X: text" with X from a set of item marks. */
  function Item(marks: set<char>, text: set<char>): Re {
    Cat(Class(marks), Cat(Class({':'}), Cat(Plus(SP), Cat(Plus(Class(text)), Star(SP)))))
  }

  function Menu(text: set<char>): Re {
    Alt(MISC, Alt(Item(CAPITALS, text), Item(DIGITS, text)))
  }

  // ---- The compiled automaton ----

  datatype Switch = Default | Case(letter: char, target: nat, others: Switch)

  /** The letters a label inside the phrases goes on with; each stands for both cases. */
  function Edges(yy: nat): Switch {
    if yy < 78 then Edges62(yy) else if yy < 99 then Edges78(yy)
    else if yy < 119 then Edges99(yy) else Edges119(yy)
  }

  function Edges62(yy: nat): Switch {
    match yy
    case 62 => Case('C', 64, Case('E', 65, Case('M', 66, Case('N', 67, Case('P', 68, Case('T', 69, Default))))))
    case 64 => Case('H', 72, Case('O', 73, Default))
    case 65 => Case('X', 74, Default)
    case 66 => Case('A', 75, Case('E', 76, Case('I', 77, Default)))
    case 67 => Case('O', 78, Default)
    case 68 => Case('A', 79, Default)
    case 69 => Case('O', 80, Default)
    case 72 => Case('A', 83, Default)
    case 73 => Case('M', 84, Default)
    case 74 => Case('I', 85, Default)
    case 75 => Case('X', 86, Default)
    case 76 => Case('N', 87, Default)
    case 77 => Case('N', 86, Default)
    case _ => Default
  }

  function Edges78(yy: nat): Switch {
    match yy
    case 78 => Case('T', 88, Default)
    case 79 => Case('R', 89, Default)
    case 80 => Case('P', 90, Default)
    case 83 => Case('N', 95, Default)
    case 84 => Case('M', 96, Default)
    case 85 => Case('T', 97, Default)
    case 86 => Case(' ', 98, Default)
    case 87 => Case('U', 99, Default)
    case 88 => Case(' ', 100, Default)
    case 89 => Case('A', 101, Default)
    case 90 => Case(' ', 102, Default)
    case 95 => Case('G', 103, Default)
    case 96 => Case('A', 104, Default)
    case 97 => Case('I', 105, Default)
    case 98 => Case('V', 106, Default)
    case _ => Default
  }

  function Edges99(yy: nat): Switch {
    match yy
    case 99 => Case(' ', 107, Case('S', 108, Default))
    case 100 => Case('E', 110, Case('R', 111, Default))
    case 101 => Case('M', 112, Default)
    case 102 => Case('O', 113, Default)
    case 103 => Case('E', 114, Default)
    case 104 => Case('N', 115, Default)
    case 105 => Case('N', 116, Default)
    case 106 => Case('A', 117, Default)
    case 107 => Case('B', 118, Default)
    case 110 => Case('N', 119, Default)
    case 111 => Case('E', 120, Default)
    case 112 => Case('E', 121, Default)
    case 113 => Case('F', 122, Default)
    case 114 => Case(' ', 123, Default)
    case 115 => Case('D', 124, Default)
    case 116 => Case('G', 122, Default)
    case 117 => Case('L', 125, Default)
    case 118 => Case('O', 126, Default)
    case _ => Default
  }

  function Edges119(yy: nat): Switch {
    match yy
    case 119 => Case('T', 127, Default)
    case 120 => Case('L', 128, Default)
    case 121 => Case('T', 129, Default)
    case 122 => Case(' ', 130, Default)
    case 123 => Case('S', 131, Default)
    case 124 => Case('S', 108, Default)
    case 125 => Case('U', 132, Default)
    case 126 => Case('T', 133, Default)
    case 127 => Case('E', 134, Default)
    case 128 => Case('E', 135, Default)
    case 129 => Case('E', 136, Default)
    case 130 => Case('M', 137, Default)
    case 131 => Case('A', 138, Default)
    case 132 => Case('E', 108, Default)
    case 133 => Case('T', 139, Default)
    case 134 => Case('R', 140, Default)
    case 135 => Case('V', 141, Default)
    case 136 => Case('R', 108, Default)
    case 137 => Case('E', 142, Default)
    case 138 => Case('V', 140, Default)
    case 139 => Case('O', 143, Default)
    case 140 => Case('E', 144, Default)
    case 141 => Case('A', 145, Default)
    case 142 => Case('N', 146, Default)
    case 143 => Case('M', 108, Default)
    case 144 => Case('D', 108, Default)
    case 145 => Case('N', 147, Default)
    case 146 => Case('U', 108, Default)
    case 147 => Case('T', 108, Default)
    case _ => Default
  }

  function Select(edges: Switch, c: char): nat {
    match edges
    case Default => 63
    case Case(letter, target, others) => if Upper(c) == letter then target else Select(others, c)
  }

  /** A label with a marker rejects at 45 what its unmarked twin rejects at 63. */
  function Marked(yy: nat): nat {
    if yy == 63 then 45 else yy
  }

  /** The switch at a label: the label it goes to on a character. */
  function Next(yy: nat, c: char): nat {
    match yy
    case 0 => if c == ' ' then 46 else if '0' <= c <= '9' then 47
              else if c == 'C' then 49 else if c == 'E' then 50 else if c == 'M' then 51
              else if c == 'N' then 52 else if c == 'P' then 53 else if c == 'T' then 54
              else if 'A' <= c <= 'Z' then 48
              else if c == 'c' then 55 else if c == 'e' then 56 else if c == 'm' then 57
              else if c == 'n' then 58 else if c == 'p' then 59 else if c == 't' then 60 else 44
    case 46 => if c == ' ' || Upper(c) in {'C', 'E', 'M', 'N', 'P', 'T'} then 62 else 45
    case 47 => if c == ':' then 70 else 45
    case 48 => if c == ':' then 71 else 45
    case 49 => if c == ':' then 71 else Marked(Select(Edges(64), c))
    case 50 => if c == ':' then 71 else Marked(Select(Edges(65), c))
    case 51 => if c == ':' then 71 else Marked(Select(Edges(66), c))
    case 52 => if c == ':' then 71 else Marked(Select(Edges(67), c))
    case 53 => if c == ':' then 71 else Marked(Select(Edges(68), c))
    case 54 => if c == ':' then 71 else Marked(Select(Edges(69), c))
    case 55 => Marked(Select(Edges(64), c))
    case 56 => Marked(Select(Edges(65), c))
    case 57 => Marked(Select(Edges(66), c))
    case 58 => Marked(Select(Edges(67), c))
    case 59 => Marked(Select(Edges(68), c))
    case 60 => Marked(Select(Edges(69), c))
    case 61 => if c == ' ' then 61 else Select(Edges(62), c)
    case 62 => if c == ' ' then 61 else Select(Edges(62), c)
    case 70 => if c == ' ' then 81 else 63
    case 71 => if c == ' ' then 82 else 63
    case 81 => if c == ' ' || '/' <= c <= 'a' then 91 else 63
    case 82 => if c == ' ' || '/' <= c <= 'a' then 93 else 63
    case 91 => if c == ' ' || '/' <= c <= 'a' then 91 else 92
    case 93 => if c == ' ' || '/' <= c <= 'a' then 93 else 94
    case 108 => if c == ' ' then 108 else 109
    case _ => Select(Edges(yy), c)
  }

  predicate Rejecting(yy: nat) { yy == 44 || yy == 45 || yy == 63 }
  predicate Accepting(yy: nat) { yy == 92 || yy == 94 || yy == 109 }

  /** Label 62 dispatches once more on the character label 46 has just read. */
  function Dispatch(yy: nat, c: char): nat {
    var n := Next(yy, c);
    if n == 62 then Next(62, c) else n
  }

  /** The answer of the automaton from a label whose switch looks at the first character of t;
      past the end of t it looks at the terminating NUL. */
  predicate Run(yy: nat, t: string)
    decreases |t|
  {
    var n := Dispatch(yy, if t == [] then NUL else t[0]);
    if Rejecting(n) then false
    else if Accepting(n) then true
    else if t == [] then false
    else Run(n, t[1..])
  }

  lemma NoNulEdge(yy: nat)
    ensures Select(Edges(yy), NUL) == 63
  {
  }

  lemma NulLeavesEveryLabel(yy: nat)
    ensures Rejecting(Dispatch(yy, NUL)) || Accepting(Dispatch(yy, NUL))
  {
    forall q: nat ensures Select(Edges(q), NUL) == 63 {
      NoNulEdge(q);
    }
  }

  /** One turn of the automaton. */
  lemma RunUnfold(yy: nat, t: string)
    ensures var n := Dispatch(yy, if t == [] then NUL else t[0]);
            if Rejecting(n) then !Run(yy, t)
            else if Accepting(n) then Run(yy, t)
            else t != [] && Run(yy, t) == Run(n, t[1..])
  {
    NulLeavesEveryLabel(yy);
  }

  /** A prefix of the text is a menu display, as far as the generated code can tell. */
  ghost predicate IsMenu(t: string) { PrefixMatches(Menu(COMPILED_TEXT), t) }

  /** regex_in_menu on a C string: s[..end] is its text and s[end] its terminator. */
  method RegexInMenu(s: array<char>, ghost end: nat) returns (menu: bool)
    requires end < s.Length && s[end] == NUL && NUL !in s[..end]
    ensures menu <==> IsMenu(s[..end])
  {
    hide Next, Run, PrefixMatches, IsMenu;
    ghost var text := s[..end];
    RunDecidesMenu(text);
    var cursor, marker, yy := 0, 0, 0;
    var yych := s[0];
    assert text == text[0..];
    while true
      invariant marker <= cursor <= end && yych == s[cursor]
      invariant Run(yy, text[cursor..]) == Run(0, text)
      decreases end - cursor
    {
      RunUnfold(yy, text[cursor..]);
      yy := Next(yy, yych);
      if yy == 62 {
        yy := Next(yy, yych);
      }
      if yy == 44 {
        cursor := cursor + 1;
        return false;
      } else if yy == 45 {
        return false;
      } else if yy == 63 {
        cursor := marker;
        return false;
      } else if yy == 92 || yy == 94 || yy == 109 {
        return true;
      }
      assert text[cursor..][1..] == text[cursor + 1..];
      cursor := cursor + 1;
      if 46 <= yy <= 60 {
        marker := cursor;
      }
      yych := s[cursor];
    }
  }

  // ---- The phrases ----

  /** Labels inside the phrases, where a character only ever selects an edge. */
  predicate Inner(yy: nat) {
    64 <= yy <= 147 && yy !in {70, 71, 81, 82, 91, 92, 93, 94, 108, 109}
  }

  /** From label yy the automaton accepts exactly the texts that start with w from its i-th letter on. */
  ghost predicate Spells(yy: nat, w: string, i: nat)
    requires i <= |w|
  {
    forall t: string :: Run(yy, t) <==> StartsWith(t, w[i..])
  }

  lemma {:induction false} RunComplete(t: string)
    ensures Run(108, t) && Run(91, t) && Run(93, t)
  {
    if t != [] {
      RunComplete(t[1..]);
    }
  }

  lemma LabelComplete(w: string)
    ensures Spells(108, w, |w|)
  {
    forall t ensures Run(108, t) <==> StartsWith(t, w[|w|..]) {
      RunComplete(t);
    }
  }

  lemma DispatchOne(yy: nat, u: char, target: nat, c: char)
    requires Inner(yy) && target >= 64 && Edges(yy) == Case(u, target, Default)
    ensures Dispatch(yy, c) == if Upper(c) == u then target else 63
  {
    assert Select(Default, c) == 63;
    assert Select(Edges(yy), c) == if Upper(c) == u then target else 63;
  }

  lemma Link(yy: nat, target: nat, w: string, i: nat)
    requires i < |w| && Inner(yy) && (Inner(target) || target == 108) && Edges(yy) == Case(w[i], target, Default)
    requires Spells(target, w, i + 1)
    ensures Spells(yy, w, i)
  {
    hide Run, Edges, Dispatch;
    var v := w[i..];
    assert v[1..] == w[i + 1..];
    forall t ensures Run(yy, t) <==> StartsWith(t, v) {
      RunUnfold(yy, t);
      DispatchOne(yy, w[i], target, if t == [] then NUL else t[0]);
      if t == [] {
        NulLeavesEveryLabel(yy);
      } else {
        StartsWithStep(t, v);
      }
    }
  }

  lemma TailSaved()
    ensures Spells(123, "CHANGE SAVED", 7)
  {
    hide Spells;
    var w := "CHANGE SAVED";
    LabelComplete(w);
    Link(144, 108, w, 11); Link(140, 144, w, 10); Link(138, 140, w, 9); Link(131, 138, w, 8);
    Link(123, 131, w, 7);
  }

  lemma TailChangeSaved()
    ensures Spells(72, "CHANGE SAVED", 2)
  {
    hide Spells;
    var w := "CHANGE SAVED";
    TailSaved();
    Link(114, 123, w, 6); Link(103, 114, w, 5); Link(95, 103, w, 4);
    Link(83, 95, w, 3); Link(72, 83, w, 2);
  }

  lemma TailCommands()
    ensures Spells(73, "COMMANDS", 2)
  {
    hide Spells;
    var w := "COMMANDS";
    LabelComplete(w);
    Link(124, 108, w, 7); Link(115, 124, w, 6); Link(104, 115, w, 5); Link(96, 104, w, 4);
    Link(84, 96, w, 3); Link(73, 84, w, 2);
  }

  lemma TailMenu(w: string, i: nat)
    requires |w| == i + 5 && w[i] == ' ' && w[i + 1] == 'M' && w[i + 2] == 'E' && w[i + 3] == 'N' && w[i + 4] == 'U'
    ensures Spells(122, w, i)
  {
    hide Spells;
    LabelComplete(w);
    Link(146, 108, w, i + 4); Link(142, 146, w, i + 3); Link(137, 142, w, i + 2); Link(130, 137, w, i + 1);
    Link(122, 130, w, i);
  }

  lemma TailExitingMenu()
    ensures Spells(65, "EXITING MENU", 1)
  {
    hide Spells;
    var w := "EXITING MENU";
    TailMenu(w, 7);
    Link(116, 122, w, 6); Link(105, 116, w, 5); Link(97, 105, w, 4);
    Link(85, 97, w, 3); Link(74, 85, w, 2); Link(65, 74, w, 1);
  }

  lemma TailMaxValue()
    ensures Spells(75, "MAX VALUE", 2)
  {
    hide Spells;
    var w := "MAX VALUE";
    LabelComplete(w);
    Link(132, 108, w, 8); Link(125, 132, w, 7); Link(117, 125, w, 6); Link(106, 117, w, 5);
    Link(98, 106, w, 4); Link(86, 98, w, 3); Link(75, 86, w, 2);
  }

  lemma TailMinValue()
    ensures Spells(77, "MIN VALUE", 2)
  {
    hide Spells;
    var w := "MIN VALUE";
    LabelComplete(w);
    Link(132, 108, w, 8); Link(125, 132, w, 7); Link(117, 125, w, 6); Link(106, 117, w, 5);
    Link(98, 106, w, 4); Link(86, 98, w, 3); Link(77, 86, w, 2);
  }

  lemma TailMenuBottom()
    ensures Spells(107, "MENU BOTTOM", 5)
  {
    hide Spells;
    var w := "MENU BOTTOM";
    LabelComplete(w);
    Link(143, 108, w, 10); Link(139, 143, w, 9); Link(133, 139, w, 8); Link(126, 133, w, 7);
    Link(118, 126, w, 6); Link(107, 118, w, 5);
  }

  lemma TailNotEntered()
    ensures Spells(110, "NOT ENTERED", 5)
  {
    hide Spells;
    var w := "NOT ENTERED";
    LabelComplete(w);
    Link(144, 108, w, 10); Link(140, 144, w, 9); Link(134, 140, w, 8); Link(127, 134, w, 7);
    Link(119, 127, w, 6); Link(110, 119, w, 5);
  }

  lemma TailNotRelevant()
    ensures Spells(111, "NOT RELEVANT", 5)
  {
    hide Spells;
    var w := "NOT RELEVANT";
    LabelComplete(w);
    Link(147, 108, w, 11); Link(145, 147, w, 10); Link(141, 145, w, 9); Link(135, 141, w, 8);
    Link(128, 135, w, 7); Link(120, 128, w, 6); Link(111, 120, w, 5);
  }

  lemma TailParameter()
    ensures Spells(68, "PARAMETER", 1)
  {
    hide Spells;
    var w := "PARAMETER";
    LabelComplete(w);
    Link(136, 108, w, 8); Link(129, 136, w, 7); Link(121, 129, w, 6); Link(112, 121, w, 5);
    Link(101, 112, w, 4); Link(89, 101, w, 3); Link(79, 89, w, 2); Link(68, 79, w, 1);
  }

  lemma TailTopOfMenu()
    ensures Spells(69, "TOP OF MENU", 1)
  {
    hide Spells;
    var w := "TOP OF MENU";
    TailMenu(w, 6);
    Link(113, 122, w, 5); Link(102, 113, w, 4); Link(90, 102, w, 3);
    Link(80, 90, w, 2); Link(69, 80, w, 1);
  }

  /** From label yy the automaton accepts the texts that start with the rest of either word. */
  ghost predicate SpellsEither(yy: nat, w: string, v: string, i: nat)
    requires i <= |w| && i <= |v|
  {
    forall t: string :: Run(yy, t) <==> StartsWith(t, w[i..]) || StartsWith(t, v[i..])
  }

  lemma SuffixStep(t: string, w: string, i: nat)
    requires i < |w|
    ensures StartsWith(t, w[i..]) <==> t != [] && Upper(t[0]) == w[i] && StartsWith(t[1..], w[i + 1..])
  {
    assert w[i..][1..] == w[i + 1..];
    if t != [] {
      StartsWithStep(t, w[i..]);
    }
  }

  lemma Branch(yy: nat, wNext: nat, w: string, vNext: nat, v: string, i: nat)
    requires i < |w| && i < |v| && w[i] != v[i]
    requires Inner(yy) && (Inner(wNext) || wNext == 108) && (Inner(vNext) || vNext == 108)
    requires Edges(yy) == Case(w[i], wNext, Case(v[i], vNext, Default))
    requires Spells(wNext, w, i + 1) && Spells(vNext, v, i + 1)
    ensures SpellsEither(yy, w, v, i)
  {
    hide Run, Edges;
    forall t ensures Run(yy, t) <==> StartsWith(t, w[i..]) || StartsWith(t, v[i..]) {
      RunUnfold(yy, t);
      SuffixStep(t, w, i);
      SuffixStep(t, v, i);
      NulLeavesEveryLabel(yy);
      var c := if t == [] then NUL else t[0];
      assert Select(Default, c) == 63 && Select(Case(v[i], vNext, Default), c) in {63, vNext};
      NoNulEdge(yy);
    }
  }

  lemma LinkEither(yy: nat, target: nat, w: string, v: string, i: nat)
    requires i < |w| && i < |v| && w[i] == v[i]
    requires Inner(yy) && Inner(target) && Edges(yy) == Case(w[i], target, Default)
    requires SpellsEither(target, w, v, i + 1)
    ensures SpellsEither(yy, w, v, i)
  {
    hide Run, Edges, Dispatch;
    forall t ensures Run(yy, t) <==> StartsWith(t, w[i..]) || StartsWith(t, v[i..]) {
      RunUnfold(yy, t);
      SuffixStep(t, w, i);
      SuffixStep(t, v, i);
      DispatchOne(yy, w[i], target, if t == [] then NUL else t[0]);
      NulLeavesEveryLabel(yy);
    }
  }

  lemma BranchC()
    ensures SpellsEither(64, "CHANGE SAVED", "COMMANDS", 1)
  {
    hide Spells, SpellsEither;
    TailChangeSaved();
    TailCommands();
    Branch(64, 72, "CHANGE SAVED", 73, "COMMANDS", 1);
  }

  lemma BranchMe()
    ensures SpellsEither(76, "MENU BOTTOM", "MENUS", 2)
  {
    hide Spells, SpellsEither;
    TailMenuBottom();
    LabelComplete("MENUS");
    Branch(99, 107, "MENU BOTTOM", 108, "MENUS", 4);
    LinkEither(87, 99, "MENU BOTTOM", "MENUS", 3);
    LinkEither(76, 87, "MENU BOTTOM", "MENUS", 2);
  }

  lemma BranchN()
    ensures SpellsEither(67, "NOT ENTERED", "NOT RELEVANT", 1)
  {
    hide Spells, SpellsEither;
    TailNotEntered();
    TailNotRelevant();
    var w, v := "NOT ENTERED", "NOT RELEVANT";
    Branch(100, 110, w, 111, v, 4);
    LinkEither(88, 100, w, v, 3);
    LinkEither(78, 88, w, v, 2);
    LinkEither(67, 78, w, v, 1);
  }

  lemma DispatchM(c: char)
    ensures Dispatch(66, c) == if Upper(c) == 'A' then 75 else if Upper(c) == 'E' then 76
                               else if Upper(c) == 'I' then 77 else 63
  {
    assert Select(Case('I', 77, Default), c) == if Upper(c) == 'I' then 77 else 63;
    assert Select(Edges(66), c) == if Upper(c) == 'A' then 75 else Select(Edges(66).others, c);
  }

  lemma {:induction false} BranchM(t: string)
    ensures Run(66, t) <==> StartsWith(t, "MAX VALUE"[1..]) || StartsWith(t, "MENU BOTTOM"[1..])
                            || StartsWith(t, "MENUS"[1..]) || StartsWith(t, "MIN VALUE"[1..])
  {
    hide Run, Dispatch, StartsWith;
    RunUnfold(66, t);
    NulLeavesEveryLabel(66);
    DispatchM(if t == [] then NUL else t[0]);
    SuffixStep(t, "MAX VALUE", 1);
    SuffixStep(t, "MENU BOTTOM", 1);
    SuffixStep(t, "MENUS", 1);
    SuffixStep(t, "MIN VALUE", 1);
    if t != [] {
      var u := t[1..];
      TailMaxValue();
      assert Run(75, u) <==> StartsWith(u, "MAX VALUE"[2..]);
      BranchMe();
      assert Run(76, u) <==> StartsWith(u, "MENU BOTTOM"[2..]) || StartsWith(u, "MENUS"[2..]);
      TailMinValue();
      assert Run(77, u) <==> StartsWith(u, "MIN VALUE"[2..]);
    }
  }

  // ---- The whole automaton ----

  ghost predicate PhraseAt(t: string) {
    exists i :: 0 <= i < |PHRASES| && StartsWith(t, PHRASES[i])
  }

  lemma PhraseNames(t: string)
    ensures PhraseAt(t) <==>
            || StartsWith(t, "TOP OF MENU") || StartsWith(t, "MENUS") || StartsWith(t, "COMMANDS")
            || StartsWith(t, "PARAMETER") || StartsWith(t, "MENU BOTTOM") || StartsWith(t, "CHANGE SAVED")
            || StartsWith(t, "MIN VALUE") || StartsWith(t, "MAX VALUE") || StartsWith(t, "EXITING MENU")
            || StartsWith(t, "NOT ENTERED") || StartsWith(t, "NOT RELEVANT")
  {
    hide StartsWith;
    assert PHRASES[0] == "TOP OF MENU" && PHRASES[1] == "MENUS" && PHRASES[2] == "COMMANDS";
    assert PHRASES[3] == "PARAMETER" && PHRASES[4] == "MENU BOTTOM" && PHRASES[5] == "CHANGE SAVED";
    assert PHRASES[6] == "MIN VALUE" && PHRASES[7] == "MAX VALUE" && PHRASES[8] == "EXITING MENU";
    assert PHRASES[9] == "NOT ENTERED" && PHRASES[10] == "NOT RELEVANT";
  }

  /** The first letter of a phrase decides which label continues it. */
  lemma PhraseStart(t: string)
    requires t != []
    ensures PhraseAt(t) <==>
            var (c, u) := (Upper(t[0]), t[1..]);
            || (c == 'C' && (StartsWith(u, "CHANGE SAVED"[1..]) || StartsWith(u, "COMMANDS"[1..])))
            || (c == 'E' && StartsWith(u, "EXITING MENU"[1..]))
            || (c == 'M' && (StartsWith(u, "MAX VALUE"[1..]) || StartsWith(u, "MENU BOTTOM"[1..])
                             || StartsWith(u, "MENUS"[1..]) || StartsWith(u, "MIN VALUE"[1..])))
            || (c == 'N' && (StartsWith(u, "NOT ENTERED"[1..]) || StartsWith(u, "NOT RELEVANT"[1..])))
            || (c == 'P' && StartsWith(u, "PARAMETER"[1..]))
            || (c == 'T' && StartsWith(u, "TOP OF MENU"[1..]))
  {
    hide StartsWith, PhraseAt, Upper;
    PhraseNames(t);
    StartsWithStep(t, "TOP OF MENU");
    StartsWithStep(t, "MENUS");
    StartsWithStep(t, "COMMANDS");
    StartsWithStep(t, "PARAMETER");
    StartsWithStep(t, "MENU BOTTOM");
    StartsWithStep(t, "CHANGE SAVED");
    StartsWithStep(t, "MIN VALUE");
    StartsWithStep(t, "MAX VALUE");
    StartsWithStep(t, "EXITING MENU");
    StartsWithStep(t, "NOT ENTERED");
    StartsWithStep(t, "NOT RELEVANT");
  }

  /** Labels that continue a phrase after its first letter c (in either case). */
  function AfterFirst(c: char): nat {
    if c == 'C' then 64 else if c == 'E' then 65 else if c == 'M' then 66
    else if c == 'N' then 67 else if c == 'P' then 68 else if c == 'T' then 69 else 63
  }

  lemma RunAfterFirst(t: string)
    requires t != []
    ensures PhraseAt(t) <==> AfterFirst(Upper(t[0])) != 63 && Run(AfterFirst(Upper(t[0])), t[1..])
  {
    hide Run, StartsWith;
    var u := t[1..];
    PhraseStart(t);
    BranchC();
    assert Run(64, u) <==> StartsWith(u, "CHANGE SAVED"[1..]) || StartsWith(u, "COMMANDS"[1..]);
    TailExitingMenu();
    assert Run(65, u) <==> StartsWith(u, "EXITING MENU"[1..]);
    BranchM(u);
    BranchN();
    assert Run(67, u) <==> StartsWith(u, "NOT ENTERED"[1..]) || StartsWith(u, "NOT RELEVANT"[1..]);
    TailParameter();
    assert Run(68, u) <==> StartsWith(u, "PARAMETER"[1..]);
    TailTopOfMenu();
    assert Run(69, u) <==> StartsWith(u, "TOP OF MENU"[1..]);
  }

  lemma {:induction false} SelectFirst(c: char)
    ensures Select(Edges(62), c) == AfterFirst(Upper(c))
  {
    var six := Case('T', 69, Default);
    var five := Case('P', 68, six);
    var four := Case('N', 67, five);
    var three := Case('M', 66, four);
    assert Select(six, c) == if Upper(c) == 'T' then 69 else 63;
    assert Select(five, c) == if Upper(c) == 'P' then 68 else Select(six, c);
    assert Select(four, c) == if Upper(c) == 'N' then 67 else Select(five, c);
    assert Select(three, c) == if Upper(c) == 'M' then 66 else Select(four, c);
  }

  lemma DispatchSpaces(c: char)
    ensures Dispatch(61, c) == if c == ' ' then 61 else AfterFirst(Upper(c))
  {
    SelectFirst(c);
  }

  lemma {:induction false} RunSpaces(t: string)
    ensures Run(61, t) <==> PrefixMatches(MISC, t)
  {
    hide Run, PrefixMatches, PhraseAt, Dispatch, WordOf, Next;
    MatchStar({' '}, Cat(WordOf(PHRASES), Star(SP)), t);
    MatchPhrase(t);
    RunUnfold(61, t);
    DispatchSpaces(if t == [] then NUL else t[0]);
    if t != [] {
      RunSpaces(t[1..]);
      RunAfterFirst(t);
    } else {
      NoPhraseInEmpty();
    }
  }

  lemma NoPhraseInEmpty()
    ensures !PhraseAt([])
  {
    PhraseNames([]);
  }

  lemma MatchPhrase(t: string)
    ensures PrefixMatches(Cat(WordOf(PHRASES), Star(SP)), t) <==> PhraseAt(t)
  {
    hide StartsWith, PrefixMatches, UpperCase, WordOf;
    forall i | 0 <= i < |PHRASES| ensures UpperCase(PHRASES[i]) {
      PhraseIsUpper(i);
    }
    MatchAnyWord(PHRASES, SP, t);
  }

  lemma PhraseIsUpper(i: nat)
    requires i < |PHRASES|
    ensures UpperCase(PHRASES[i])
  {
  }

  /** "X: text" needs a mark, a colon, a space and one more character, which may be a space. */
  lemma MatchItem(marks: set<char>, text: set<char>, t: string)
    requires ' ' in text
    ensures PrefixMatches(Item(marks, text), t) <==>
            |t| >= 4 && t[0] in marks && t[1] == ':' && t[2] == ' ' && t[3] in text
  {
    var spaces := Cat(Star(SP), Cat(Plus(Class(text)), Star(SP)));
    MatchClass(marks, Cat(Class({':'}), Cat(Plus(SP), Cat(Plus(Class(text)), Star(SP)))), t);
    if |t| >= 1 {
      MatchClass({':'}, Cat(Plus(SP), Cat(Plus(Class(text)), Star(SP))), t[1..]);
      if |t| >= 2 {
        assert t[1..][1..] == t[2..];
        MatchPlus({' '}, Cat(Plus(Class(text)), Star(SP)), t[2..]);
        if |t| >= 3 {
          assert t[2..][1..] == t[3..];
          MatchItemText(text, t[3..]);
        }
      }
    }
  }

  lemma {:induction false} MatchItemText(text: set<char>, t: string)
    requires ' ' in text
    ensures PrefixMatches(Cat(Star(SP), Cat(Plus(Class(text)), Star(SP))), t) <==> t != [] && t[0] in text
  {
    hide PrefixMatches;
    MatchStar({' '}, Cat(Plus(Class(text)), Star(SP)), t);
    MatchPlus(text, Star(SP), t);
    if t != [] {
      MatchStar(text, Star(SP), t[1..]);
      MatchFinalStar(SP, t[1..]);
    }
  }

  lemma {:induction false} RunItem(t: string)
    ensures Run(70, t) <==> |t| >= 2 && t[0] == ' ' && t[1] in COMPILED_TEXT
    ensures Run(71, t) <==> |t| >= 2 && t[0] == ' ' && t[1] in COMPILED_TEXT
  {
    hide Run;
    RunUnfold(70, t);
    RunUnfold(71, t);
    if t != [] {
      RunUnfold(81, t[1..]);
      RunUnfold(82, t[1..]);
      if |t| >= 2 {
        RunComplete(t[1..][1..]);
      }
    }
  }

  /** The marked labels of the entry switch go on as the labels without a marker. */
  lemma RunMarked(yy: nat, t: string)
    requires yy == 46 || 55 <= yy <= 60
    ensures Run(yy, t) == Run(if yy == 46 then 61 else yy + 9, t)
  {
    hide Run;
    var late := if yy == 46 then 61 else yy + 9;
    RunUnfold(yy, t);
    RunUnfold(late, t);
    DispatchMarked(yy, if t == [] then NUL else t[0]);
  }

  lemma {:induction false} SelectSecond(yy: nat, c: char)
    requires 64 <= yy <= 69
    ensures Select(Edges(yy), c) == 63 || 72 <= Select(Edges(yy), c) <= 80
    ensures Dispatch(yy, c) == Select(Edges(yy), c)
  {
    var edges := Edges(yy);
    assert edges.Case? && 72 <= edges.target <= 80;
    assert Select(edges, c) == if Upper(c) == edges.letter then edges.target else Select(edges.others, c);
    if edges.others.Case? {
      var others := edges.others;
      assert 72 <= others.target <= 80;
      assert Select(others, c) == if Upper(c) == others.letter then others.target else Select(others.others, c);
      if others.others.Case? {
        assert others.others == Case('I', 77, Default);
        assert Select(others.others, c) == if Upper(c) == 'I' then 77 else Select(Default, c);
      }
    }
    assert Next(yy, c) == Select(Edges(yy), c);
  }

  lemma DispatchMarked(yy: nat, c: char)
    requires yy == 46 || 55 <= yy <= 60
    ensures Dispatch(yy, c) == Marked(Dispatch(if yy == 46 then 61 else yy + 9, c))
  {
    if yy == 46 {
      DispatchSpaces(c);
      SelectFirst(c);
    } else {
      SelectSecond(yy + 9, c);
      hide Select, Edges;
      assert Next(yy, c) == Marked(Select(Edges(yy + 9), c));
    }
  }

  lemma DispatchCapital(yy: nat, c: char)
    requires 49 <= yy <= 54
    ensures Dispatch(yy, c) == if c == ':' then 71 else Marked(Dispatch(yy + 15, c))
  {
    SelectSecond(yy + 15, c);
    hide Select, Edges;
    assert Next(yy, c) == if c == ':' then 71 else Marked(Select(Edges(yy + 15), c));
  }

  /** After a capital the colon of a menu item comes before the second letter of a phrase. */
  lemma RunCapital(yy: nat, t: string)
    requires 49 <= yy <= 54
    ensures Run(yy, t) <==> if t != [] && t[0] == ':' then Run(71, t[1..]) else Run(yy + 15, t)
  {
    hide Run, Dispatch;
    RunUnfold(yy, t);
    RunUnfold(yy + 15, t);
    DispatchCapital(yy, if t == [] then NUL else t[0]);
  }

  lemma {:induction false} NoColonInPhrases(yy: nat, t: string)
    requires 64 <= yy <= 69 && t != [] && t[0] == ':'
    ensures !Run(yy, t)
  {
    hide Run;
    RunUnfold(yy, t);
    assert Select(Edges(yy), ':') == 63;
  }

  lemma MatchMenu(text: set<char>, t: string)
    requires ' ' in text
    ensures PrefixMatches(Menu(text), t) <==>
            || PrefixMatches(MISC, t)
            || (|t| >= 4 && (t[0] in CAPITALS || t[0] in DIGITS) && t[1] == ':' && t[2] == ' ' && t[3] in text)
  {
    hide PrefixMatches, Item;
    MatchAltTop(MISC, Alt(Item(CAPITALS, text), Item(DIGITS, text)), t);
    MatchAltTop(Item(CAPITALS, text), Item(DIGITS, text), t);
    MatchItem(CAPITALS, text, t);
    MatchItem(DIGITS, text, t);
  }

  lemma {:induction false} RunEntry(t: string)
    requires t != []
    ensures var (c, u) := (t[0], t[1..]);
            Run(0, t) <==>
              || (c == ' ' && Run(61, u))
              || (c in DIGITS && u != [] && u[0] == ':' && Run(70, u[1..]))
              || (c in CAPITALS && u != [] && u[0] == ':' && Run(71, u[1..]))
              || (AfterFirst(Upper(c)) != 63 && Run(AfterFirst(Upper(c)), u))
  {
    hide Run;
    var (c, u) := (t[0], t[1..]);
    RunUnfold(0, t);
    var n := Next(0, c);
    if n == 46 || 55 <= n <= 60 {
      RunMarked(n, u);
    } else if 49 <= n <= 54 {
      RunCapital(n, u);
      if u != [] && u[0] == ':' {
        NoColonInPhrases(n + 15, u);
      }
    } else {
      RunUnfold(47, u);
      RunUnfold(48, u);
    }
  }

  lemma EmptyIsNoMenu()
    ensures !Run(0, [])
  {
  }

  /** The compiled automaton accepts a text exactly when a prefix of it is one of the phrases after
      spaces, or an item mark, a colon, a space and a character of the COMPILED menu text. */
  lemma {:induction false} RunDecidesMenu(t: string)
    ensures Run(0, t) <==> IsMenu(t)
  {
    hide Run, PrefixMatches, WordOf, PhraseAt, Next;
    MatchMenu(COMPILED_TEXT, t);
    MatchStar({' '}, Cat(WordOf(PHRASES), Star(SP)), t);
    MatchPhrase(t);
    if t == [] {
      EmptyIsNoMenu();
      NoPhraseInEmpty();
    } else {
      RunEntry(t);
      RunSpaces(t[1..]);
      RunAfterFirst(t);
      if |t| >= 2 {
        RunItem(t[1..][1..]);
      }
    }
  }

  /** An item mark and its colon never begin a phrase. */
  lemma ItemIsNoPhrase(t: string)
    requires |t| >= 2 && t[0] != ' ' && t[1] == ':'
    ensures !PrefixMatches(MISC, t)
  {
    hide Run, PrefixMatches, WordOf, PhraseAt, Next;
    MatchStar({' '}, Cat(WordOf(PHRASES), Star(SP)), t);
    MatchPhrase(t);
    RunAfterFirst(t);
    if AfterFirst(Upper(t[0])) != 63 {
      NoColonInPhrases(AfterFirst(Upper(t[0])), t[1..]);
    }
  }

  /** The generated menu text class is not the one regex_34401a.re writes, and this is the exact
      extent of the disagreement: items whose first text character is in one class only. Lower-case
      letters after 'a' and the hyphen are lost; digits and the signs between '/' and 'a' are gained. */
  lemma CompiledMenuDiffersFromWritten(t: string)
    ensures (PrefixMatches(Menu(COMPILED_TEXT), t) <==> PrefixMatches(Menu(WRITTEN_TEXT), t)) <==>
            !(|t| >= 4 && (t[0] in CAPITALS || t[0] in DIGITS) && t[1] == ':' && t[2] == ' '
              && ((t[3] in COMPILED_TEXT) != (t[3] in WRITTEN_TEXT)))
  {
    hide PrefixMatches, Menu;
    MatchMenu(COMPILED_TEXT, t);
    MatchMenu(WRITTEN_TEXT, t);
    if |t| >= 4 && (t[0] in CAPITALS || t[0] in DIGITS) && t[1] == ':' {
      ItemIsNoPhrase(t);
    }
  }

  lemma ItemDecidedByText(text: set<char>, t: string)
    requires ' ' in text && |t| >= 4 && (t[0] in CAPITALS || t[0] in DIGITS) && t[1] == ':' && t[2] == ' '
    ensures PrefixMatches(Menu(text), t) <==> t[3] in text
  {
    hide PrefixMatches, Menu;
    MatchMenu(text, t);
    ItemIsNoPhrase(t);
  }

  /** Two items on which the generated code and the written expression part. */
  lemma MenuDisagreementExamples()
    ensures PrefixMatches(Menu(WRITTEN_TEXT), "A: meas") && !PrefixMatches(Menu(COMPILED_TEXT), "A: meas")
    ensures PrefixMatches(Menu(COMPILED_TEXT), "1: 2W") && !PrefixMatches(Menu(WRITTEN_TEXT), "1: 2W")
  {
    hide PrefixMatches, Menu;
    ItemDecidedByText(COMPILED_TEXT, "A: meas");
    ItemDecidedByText(WRITTEN_TEXT, "A: meas");
    ItemDecidedByText(COMPILED_TEXT, "1: 2W");
    ItemDecidedByText(WRITTEN_TEXT, "1: 2W");
  }
}
