/** Lists of bit ranges as text: "3", "3,5-9", and reading them back with the C library's strtok_r and
    strtol, which are modelled here as the functions they compute. */
module Spans {
  // ---- Ranges ----

  /** The bits lo to hi, and how many digits of the first number have room in the text. */
  datatype Span = Span(lo: nat, hi: nat, room: nat)

  predicate Covers(ss: seq<Span>, k: nat) {
    exists j :: 0 <= j < |ss| && ss[j].lo <= k <= ss[j].hi
  }

  function Digit(n: nat): char
    requires n < 10
  {
    '0' + n as char
  }

  /** %d of a number below 1000. */
  function Decimal(n: nat): string
    requires n < 1000
  {
    if n < 10 then [Digit(n)]
    else if n < 100 then [Digit(n / 10), Digit(n % 10)]
    else [Digit(n / 100), Digit(n / 10 % 10), Digit(n % 10)]
  }

  /** The start of a text, as snprintf leaves it in a buffer of n + 1 characters. */
  function Clip(s: string, n: nat): (r: string)
    ensures |r| <= n && r <= s
  {
    if |s| <= n then s else s[..n]
  }

  /** Every range is in order and counts to below 1000 from base, and the digits of its first number
      have room unless it stands alone. */
  ghost predicate Small(ss: seq<Span>, base: nat) {
    forall j :: 0 <= j < |ss| ==> Tidy(ss[j], base)
  }

  predicate Tidy(s: Span, base: nat) {
    && s.lo <= s.hi && s.hi + base < 1000 && 1 <= s.room <= 2
    && if s.lo + base < 100 then s.room == 2 else s.lo == s.hi
  }

  /** A range as text. */
  function Item(s: Span, base: nat): string
    requires Tidy(s, base)
  {
    Clip(Decimal(s.lo + base), s.room) + if s.lo == s.hi then "" else "-" + Decimal(s.hi + base)
  }

  function Render(ss: seq<Span>, base: nat): string
    requires Small(ss, base)
  {
    if ss == [] then ""
    else if |ss| == 1 then Item(ss[0], base)
    else Item(ss[0], base) + "," + Render(ss[1..], base)
  }

  lemma {:induction false} RenderSnoc(ss: seq<Span>, s: Span, base: nat)
    requires Small(ss, base) && Tidy(s, base)
    ensures Small(ss + [s], base)
    ensures Render(ss + [s], base) == (if ss == [] then "" else Render(ss, base) + ",") + Item(s, base)
  {
    hide Tidy, Item;
    if ss != [] {
      assert (ss + [s])[1..] == ss[1..] + [s];
      RenderSnoc(ss[1..], s, base);
      if |ss| == 1 {
        assert Render(ss[1..] + [s], base) == Item(s, base);
      }
    }
  }

  // ---- strtok_r and strtol ----

  /** The text after leading delimiters. */
  function Skipped(s: string, d: char): string {
    if s != [] && s[0] == d then Skipped(s[1..], d) else s
  }

  /** The text up to the next delimiter. */
  function Upto(s: string, d: char): string {
    if s == [] || s[0] == d then "" else [s[0]] + Upto(s[1..], d)
  }

  lemma {:induction false} UptoLength(s: string, d: char)
    ensures |Upto(s, d)| <= |s|
  {
    if s != [] && s[0] != d {
      UptoLength(s[1..], d);
    }
  }

  datatype Token = End | Token(text: string, rest: string)

  /** strtok_r: the next token and what is left after it. */
  function Strtok(s: string, d: char): Token {
    var t := Skipped(s, d);
    if t == [] then End
    else
      var n := |Upto(t, d)|;
      UptoLength(t, d);
      Token(Upto(t, d), if n < |t| then t[n + 1..] else "")
  }

  lemma StrtokShrinks(s: string, d: char)
    requires Strtok(s, d).Token?
    ensures |Strtok(s, d).rest| < |s|
  {
    SkippedLength(s, d);
  }

  lemma {:induction false} SkippedLength(s: string, d: char)
    ensures |Skipped(s, d)| <= |s|
  {
    if s != [] && s[0] == d {
      SkippedLength(s[1..], d);
    }
  }

  datatype Number = NoNumber | Number(value: int)

  predicate IsDigit(c: char) { '0' <= c <= '9' }

  predicate IsSpace(c: char) { c == ' ' || '\t' <= c <= '\r' }

  function Digits(s: string, acc: nat): nat {
    if s != [] && IsDigit(s[0]) then Digits(s[1..], 10 * acc + (s[0] - '0') as nat) else acc
  }

  const LONG_MAX: int := 0x7fff_ffff
  const LONG_MIN: int := -0x8000_0000

  /** str_to_int in base ten: strtol of a token, which need not start with a number. */
  function StrToInt(s: string): Number {
    if s != [] && IsSpace(s[0]) then StrToInt(s[1..])
    else
      var signed := s != [] && s[0] in {'+', '-'};
      var t := if signed then s[1..] else s;
      if t == [] || !IsDigit(t[0]) then NoNumber
      else
        var n: int := Digits(t, 0);
        Number(if signed && s[0] == '-' then (if -n < LONG_MIN then LONG_MIN else -n)
               else if n > LONG_MAX then LONG_MAX else n)
  }

  // ---- Reading back what was written ----

  /** The characters of a number or a range. */
  predicate Plain(s: string, d: char) {
    s != [] && forall i :: 0 <= i < |s| ==> s[i] != d
  }

  lemma {:induction false} UptoPlain(s: string, d: char, rest: string)
    requires forall i :: 0 <= i < |s| ==> s[i] != d
    requires rest == [] || rest[0] == d
    ensures Upto(s + rest, d) == s
  {
    if s == [] {
      assert s + rest == rest;
    } else {
      assert (s + rest)[1..] == s[1..] + rest;
      UptoPlain(s[1..], d, rest);
    }
  }

  /** A token is split off where its delimiter is. */
  lemma StrtokPlain(s: string, d: char, rest: string)
    requires Plain(s, d)
    ensures Strtok(s + [d] + rest, d) == Token(s, rest)
    ensures Strtok(s, d) == Token(s, "")
  {
    UptoPlain(s, d, [d] + rest);
    UptoPlain(s, d, []);
    assert s + ([d] + rest) == s + [d] + rest && s + [] == s;
    assert (s + [d] + rest)[|s| + 1..] == rest;
  }

  /** The number that the first digits of a number show. */
  function Read(n: nat, digits: nat): nat {
    if n < 100 then n else if digits == 2 then n / 10 else n / 100
  }

  lemma DecimalReads(n: nat)
    requires n < 1000
    ensures StrToInt(Decimal(n)) == Number(n)
    ensures Plain(Decimal(n), '-') && Plain(Decimal(n), ',')
  {
    var s := Decimal(n);
    DecimalDigits(n);
    assert '0' <= s[0] <= '9';
  }

  lemma DecimalDigits(n: nat)
    requires n < 1000
    ensures Digits(Decimal(n), 0) == n
  {
    var s := Decimal(n);
    hide Digits;
    if n < 10 {
      DigitsOf(s, n, 0);
    } else if n < 100 {
      DigitsOf(s[1..], n % 10, n / 10);
      DigitsOf(s, n / 10, 0);
    } else {
      assert s[1..][1..] == s[2..] && 10 * (n / 100) + n / 10 % 10 == n / 10;
      DigitsOf(s[2..], n % 10, n / 10);
      DigitsOf(s[1..], n / 10 % 10, n / 100);
      DigitsOf(s, n / 100, 0);
    }
  }

  lemma DigitsOf(s: string, d: nat, acc: nat)
    requires d < 10 && s != [] && s[0] == Digit(d)
    ensures Digits(s, acc) == Digits(s[1..], 10 * acc + d)
    ensures |s| == 1 ==> Digits(s, acc) == 10 * acc + d
  {
  }

  lemma ClippedReads(n: nat, digits: nat)
    requires n < 1000 && 1 <= digits <= 2 && (n < 100 ==> digits == 2)
    ensures var t := Clip(Decimal(n), digits);
            StrToInt(t) == Number(Read(n, digits)) && Plain(t, '-') && Plain(t, ',')
  {
    DecimalReads(n);
    if n >= 100 {
      assert n / 10 / 10 == n / 100;
      assert Clip(Decimal(n), digits) == Decimal(Read(n, digits));
      DecimalReads(Read(n, digits));
    }
  }
}
