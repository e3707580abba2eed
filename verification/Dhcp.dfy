/** pico_dhcp_option_add_hook: two more codes are requested in every parameter request list of an
    outgoing DHCPREQUEST. Options are laid out as in section 2 of RFC 2132, one code byte, one length
    byte and the data; the parameter request list is option 55 (section 9.8). */
module Dhcp {
  import opened Basics

  const DHCP_REQUEST: byte := 3
  const DHCP_OPTION_LOG: byte := 7
  const DHCP_OPTION_POSIX_TZ: byte := 100
  const PARAMETER_REQUEST: byte := 55
  const EXTRA: seq<byte> := [DHCP_OPTION_LOG, DHCP_OPTION_POSIX_TZ]

  datatype DhcpOption = DhcpOption(code: byte, data: seq<byte>)

  datatype Parsed = Options(list: seq<DhcpOption>) | Malformed

  /** The options of a field, which must cover it to the last byte. */
  function Parse(s: seq<byte>): Parsed
    decreases |s|
  {
    if s == [] then Options([])
    else if |s| < 2 then Malformed
    else
      var end: nat := 2 + s[1] as int;
      if |s| < end then Malformed
      else
        match Parse(s[end..])
        case Malformed => Malformed
        case Options(rest) => Options([DhcpOption(s[0], s[2..end])] + rest)
  }

  predicate Encodable(os: seq<DhcpOption>) { forall i :: 0 <= i < |os| ==> |os[i].data| < 256 }

  function Header(code: byte, len: nat): seq<byte> { [code, len % 256] }

  function EncodeOne(o: DhcpOption): seq<byte> { Header(o.code, |o.data|) + o.data }

  function Encode(os: seq<DhcpOption>): seq<byte> {
    if os == [] then [] else EncodeOne(os[0]) + Encode(os[1..])
  }

  function AddedOne(o: DhcpOption): DhcpOption {
    if o.code == PARAMETER_REQUEST then o.(data := o.data + EXTRA) else o
  }

  /** The options with the two codes appended to every parameter request list. */
  function Added(os: seq<DhcpOption>): (r: seq<DhcpOption>)
    ensures |r| == |os| && forall i :: 0 <= i < |os| ==> r[i] == AddedOne(os[i])
  {
    if os == [] then [] else [AddedOne(os[0])] + Added(os[1..])
  }

  function Requests(os: seq<DhcpOption>): nat {
    if os == [] then 0 else (if os[0].code == PARAMETER_REQUEST then 1 else 0) + Requests(os[1..])
  }

  // ---- Encoding and parsing ----

  lemma {:induction false} ParseEncode(os: seq<DhcpOption>)
    requires Encodable(os)
    ensures Parse(Encode(os)) == Options(os)
  {
    if os != [] {
      var s, o := Encode(os), os[0];
      assert |o.data| < 256;
      assert Encodable(os[1..]) by {
        forall i | 0 <= i < |os[1..]| ensures |os[1..][i].data| < 256 { assert os[1..][i] == os[i + 1]; }
      }
      var end := 2 + |o.data|;
      assert s[0] == o.code && s[1] == |o.data|;
      assert s[2..end] == o.data && s[end..] == Encode(os[1..]);
      ParseEncode(os[1..]);
    }
  }

  lemma {:induction false} EncodeParse(s: seq<byte>)
    requires Parse(s).Options?
    ensures Encode(Parse(s).list) == s && Encodable(Parse(s).list)
    decreases |s|
  {
    if s != [] {
      var end: nat := 2 + s[1] as int;
      var o, rest := DhcpOption(s[0], s[2..end]), Parse(s[end..]).list;
      EncodeParse(s[end..]);
      assert Parse(s).list == [o] + rest;
      assert s[..end] == Header(s[0], s[1]) + s[2..end] && s[..end] + s[end..] == s;
      hide Parse, Encode;
      EncodeCons(o, rest);
    }
  }

  lemma {:induction false} EncodeCons(o: DhcpOption, os: seq<DhcpOption>)
    ensures Encode([o] + os) == EncodeOne(o) + Encode(os)
    ensures Encodable(os) && |o.data| < 256 ==> Encodable([o] + os)
  {
    assert ([o] + os)[1..] == os;
  }

  lemma {:induction false} EncodeConcat(a: seq<DhcpOption>, b: seq<DhcpOption>)
    ensures Encode(a + b) == Encode(a) + Encode(b)
  {
    if a == [] {
      assert a + b == b;
    } else {
      assert (a + b)[0] == a[0] && (a + b)[1..] == a[1..] + b;
      EncodeConcat(a[1..], b);
    }
  }

  lemma {:induction false} AddedConcat(a: seq<DhcpOption>, b: seq<DhcpOption>)
    ensures Added(a + b) == Added(a) + Added(b) && Requests(a + b) == Requests(a) + Requests(b)
  {
    if a == [] {
      assert a + b == b;
    } else {
      assert (a + b)[0] == a[0] && (a + b)[1..] == a[1..] + b;
      AddedConcat(a[1..], b);
    }
  }

  lemma {:induction false} AddedLength(os: seq<DhcpOption>)
    ensures |Encode(Added(os))| == |Encode(os)| + 2 * Requests(os)
  {
    if os != [] {
      assert Added(os)[1..] == Added(os[1..]);
      AddedLength(os[1..]);
    }
  }

  /** The length byte has room: no parameter request list is longer than 253. */
  ghost predicate RoomToGrow(os: seq<DhcpOption>) {
    forall i :: 0 <= i < |os| && os[i].code == PARAMETER_REQUEST ==> |os[i].data| <= 253
  }

  /** What the hook writes parses to the intended options exactly when every list has room to grow;
      otherwise its 8-bit length wraps. */
  lemma {:induction false} AddedParses(os: seq<DhcpOption>)
    requires Encodable(os)
    ensures Parse(Encode(Added(os))) == Options(Added(os)) <==> RoomToGrow(os)
  {
    var r := Added(os);
    if RoomToGrow(os) {
      assert Encodable(r);
      ParseEncode(r);
    }
    if Parse(Encode(r)) == Options(r) {
      EncodeParse(Encode(r));
      forall i | 0 <= i < |os| && os[i].code == PARAMETER_REQUEST ensures |os[i].data| <= 253 {
        assert r[i] == AddedOne(os[i]) && |r[i].data| < 256;
      }
    }
  }

  lemma {:induction false} DataWithinField(os: seq<DhcpOption>, i: nat)
    requires i < |os|
    ensures |os[i].data| + 2 <= |Encode(os)|
  {
    if i > 0 {
      DataWithinField(os[1..], i - 1);
    }
  }

  /** A field of at most 255 bytes has no list that long: there the length byte never wraps. */
  lemma {:induction false} ShortFieldHasRoom(s: seq<byte>)
    requires |s| <= 255 && Parse(s).Options?
    ensures RoomToGrow(Parse(s).list) && Parse(Encode(Added(Parse(s).list))) == Options(Added(Parse(s).list))
  {
    hide Parse, Encode;
    var os := Parse(s).list;
    EncodeParse(s);
    forall i | 0 <= i < |os| ensures |os[i].data| <= 253 {
      DataWithinField(os, i);
    }
    AddedParses(os);
  }

  // ---- The hook ----

  /** The data bytes of one option. */
  method CopyData(options: array<byte>, tmp: array<byte>, oldPtr0: nat, newPtr0: nat, len: nat)
    returns (oldPtr: nat, newPtr: nat)
    requires options != tmp && oldPtr0 + len <= tmp.Length && newPtr0 + len <= options.Length
    modifies options
    ensures oldPtr == oldPtr0 + len && newPtr == newPtr0 + len
    ensures options[..newPtr] == old(options[..newPtr0]) + tmp[oldPtr0..oldPtr]
  {
    oldPtr, newPtr := oldPtr0, newPtr0;
    for i := 0 to len
      invariant oldPtr == oldPtr0 + i && newPtr == newPtr0 + i
      invariant options[..newPtr] == old(options[..newPtr0]) + tmp[oldPtr0..oldPtr]
    {
      options[newPtr] := tmp[oldPtr];
      newPtr := newPtr + 1;
      oldPtr := oldPtr + 1;
    }
  }

  /** The two codes at the end of a parameter request list. */
  method AppendExtra(options: array<byte>, newPtr0: nat) returns (newPtr: nat)
    requires newPtr0 + |EXTRA| <= options.Length
    modifies options
    ensures newPtr == newPtr0 + |EXTRA| && options[..newPtr] == old(options[..newPtr0]) + EXTRA
  {
    newPtr := newPtr0;
    for i := 0 to |EXTRA|
      invariant newPtr == newPtr0 + i && options[..newPtr] == old(options[..newPtr0]) + EXTRA[..i]
    {
      options[newPtr] := EXTRA[i];
      newPtr := newPtr + 1;
    }
  }

  method PutHeader(options: array<byte>, newPtr0: nat, code: byte, len: byte) returns (newPtr: nat)
    requires newPtr0 + 2 <= options.Length
    modifies options
    ensures newPtr == newPtr0 + 2
    ensures options[..newPtr] == old(options[..newPtr0])
              + Header(code, if code == PARAMETER_REQUEST then len as int + |EXTRA| else len)
  {
    newPtr := newPtr0;
    options[newPtr] := code;
    newPtr := newPtr + 1;
    options[newPtr] := if code == PARAMETER_REQUEST then (len as int + |EXTRA|) % 256 else len;
    newPtr := newPtr + 1;
  }

  /** One option moves from the copy to its new place. */
  method MoveOption(options: array<byte>, tmp: array<byte>, oldPtr0: nat, newPtr0: nat, ghost o: DhcpOption)
    returns (oldPtr: nat, newPtr: nat)
    requires options != tmp && |o.data| < 256
    requires oldPtr0 + 2 + |o.data| <= tmp.Length && newPtr0 + |EncodeOne(AddedOne(o))| <= options.Length
    requires tmp[oldPtr0..oldPtr0 + 2 + |o.data|] == EncodeOne(o)
    modifies options
    ensures oldPtr == oldPtr0 + 2 + |o.data| && newPtr == newPtr0 + |EncodeOne(AddedOne(o))|
    ensures options[..newPtr] == old(options[..newPtr0]) + EncodeOne(AddedOne(o))
  {
    OneEncoded(o, tmp[oldPtr0..oldPtr0 + 2 + |o.data|]);
    AddedEncoded(o, options[..newPtr0]);
    hide EncodeOne, AddedOne, Header;
    oldPtr := oldPtr0;
    var code := tmp[oldPtr];
    oldPtr := oldPtr + 1;
    var len := tmp[oldPtr];
    oldPtr := oldPtr + 1;
    assert tmp[oldPtr..oldPtr + len] == tmp[oldPtr0..oldPtr0 + 2 + |o.data|][2..];
    newPtr := PutHeader(options, newPtr0, code, len);
    oldPtr, newPtr := CopyData(options, tmp, oldPtr, newPtr, len);
    if code == PARAMETER_REQUEST {
      newPtr := AppendExtra(options, newPtr);
    }
  }

  lemma OneEncoded(o: DhcpOption, e: seq<byte>)
    requires |o.data| < 256 && e == EncodeOne(o)
    ensures |e| == 2 + |o.data| && e[0] == o.code && e[1] == |o.data| && e[2..] == o.data
  {
  }

  lemma AddedEncoded(o: DhcpOption, before: seq<byte>)
    ensures before + EncodeOne(AddedOne(o)) ==
            if o.code == PARAMETER_REQUEST
            then before + Header(o.code, |o.data| + |EXTRA|) + o.data + EXTRA
            else before + Header(o.code, |o.data|) + o.data
    ensures |EncodeOne(AddedOne(o))| == 2 + |o.data| + if o.code == PARAMETER_REQUEST then |EXTRA| else 0
  {
  }

  /** Rewrites the options field of a DHCPREQUEST in place, reading from a copy. */
  method OptionAddHook(msgType: byte, options: array<byte>, origLen: nat) returns (newLen: nat)
    requires origLen + |EXTRA| <= options.Length
    requires Parse(options[..origLen]).Options?
    requires origLen + 2 * Requests(Parse(options[..origLen]).list) <= options.Length
    modifies options
    ensures msgType != DHCP_REQUEST ==> newLen == origLen && options[..] == old(options[..])
    ensures msgType == DHCP_REQUEST ==>
              var os := Parse(old(options[..origLen])).list;
              && newLen == origLen + 2 * Requests(os) && newLen <= options.Length
              && options[..newLen] == Encode(Added(os))
              && (RoomToGrow(os) <==> Parse(options[..newLen]) == Options(Added(os)))
              && (options.Length <= 255 ==> Parse(options[..newLen]) == Options(Added(os)))
  {
    hide Parse, Encode, Added, Requests, EncodeOne, RoomToGrow;
    if msgType != DHCP_REQUEST {
      return origLen;
    }
    ghost var os := Parse(options[..origLen]).list;
    EncodeParse(options[..origLen]);
    if options.Length <= 255 {
      ShortFieldHasRoom(options[..origLen]);
    }
    AddedLength(os);
    var tmp := new byte[options.Length](i requires 0 <= i < options.Length reads options => options[i]);
    assert tmp[..origLen] == Encode(os) by { assert tmp[..origLen] == options[..origLen]; }
    var oldPtr := 0;
    newLen := 0;
    ghost var n := 0;
    Start(os);
    while oldPtr < origLen
      invariant n <= |os| && oldPtr <= origLen && tmp[..origLen] == Encode(os)
      invariant oldPtr == |Encode(os[..n])| && newLen == |Encode(Added(os[..n]))| <= options.Length
      invariant options[..newLen] == Encode(Added(os[..n]))
      decreases origLen - oldPtr
    {
      MoreToCome(os, n);
      Advance(os, n);
      OptionAt(tmp[..], os, n);
      oldPtr, newLen := MoveOption(options, tmp, oldPtr, newLen, os[n]);
      n := n + 1;
    }
    Finish(os, n);
    AddedParses(os);
  }

  /** Where an option lies in the encoding of all. */
  lemma OptionAt(tmp: seq<byte>, os: seq<DhcpOption>, n: nat)
    requires n < |os| && Encodable(os) && Encode(os) <= tmp
    ensures var at := |Encode(os[..n])|;
            var end := at + 2 + |os[n].data|;
            && end == |Encode(os[..n + 1])| <= |Encode(os)|
            && tmp[at..end] == EncodeOne(os[n])
  {
    Advance(os, n);
    var at, done := |Encode(os[..n])|, Encode(os[..n + 1]);
    assert tmp[..|done|] == Encode(os)[..|done|] == done;
    assert tmp[at..|done|] == tmp[..|done|][at..] == EncodeOne(os[n]);
  }

  lemma {:induction false} MoreToCome(os: seq<DhcpOption>, n: nat)
    requires n <= |os| && |Encode(os[..n])| < |Encode(os)|
    ensures n < |os|
  {
    assert os[..|os|] == os;
  }

  lemma Start(os: seq<DhcpOption>)
    ensures Encode(os[..0]) == [] && Encode(Added(os[..0])) == []
  {
  }

  /** The next option starts where the encoding of the previous ones ends, before and after. */
  lemma Advance(os: seq<DhcpOption>, n: nat)
    requires n < |os| && Encodable(os)
    ensures |os[n].data| < 256
    ensures Encode(os[..n + 1]) == Encode(os[..n]) + EncodeOne(os[n])
    ensures Encode(Added(os[..n + 1])) == Encode(Added(os[..n])) + EncodeOne(AddedOne(os[n]))
    ensures |EncodeOne(os[n])| == 2 + |os[n].data|
    ensures Encode(os[..n + 1]) <= Encode(os) && |Encode(Added(os[..n + 1]))| <= |Encode(Added(os))|
    ensures Encode(os)[|Encode(os[..n])|..|Encode(os[..n + 1])|] == EncodeOne(os[n])
  {
    assert os[..n + 1] == os[..n] + [os[n]] && os == os[..n + 1] + os[n + 1..];
    EncodeConcat(os[..n], [os[n]]);
    AddedConcat(os[..n], [os[n]]);
    EncodeConcat(Added(os[..n]), [AddedOne(os[n])]);
    EncodeConcat(os[..n + 1], os[n + 1..]);
    AddedConcat(os[..n + 1], os[n + 1..]);
    EncodeConcat(Added(os[..n + 1]), Added(os[n + 1..]));
    One(os[n]);
    One(AddedOne(os[n]));
    hide Encode, EncodeOne;
    assert Added([os[n]]) == [AddedOne(os[n])];
  }

  lemma One(o: DhcpOption)
    ensures Encode([o]) == EncodeOne(o) && |EncodeOne(o)| == 2 + |o.data|
  {
    assert Encode([o][1..]) == [];
  }

  lemma {:induction false} Finish(os: seq<DhcpOption>, n: nat)
    requires n <= |os| && |Encode(os[..n])| >= |Encode(os)| && Encodable(os)
    ensures n == |os| && os[..n] == os
  {
    if n < |os| {
      Advance(os, n);
      assert false;
    }
  }

  /** A request that asks for options 1 and 3 asks for 7 and 100 as well, and stays a request. */
  lemma RequestRewritten()
    ensures Parse([53, 1, 3, 55, 2, 1, 3]) == Options([DhcpOption(53, [3]), DhcpOption(55, [1, 3])])
    ensures Encode(Added([DhcpOption(53, [3]), DhcpOption(55, [1, 3])])) == [53, 1, 3, 55, 4, 1, 3, 7, 100]
  {
    hide Parse;
    var a, b := DhcpOption(53, [3]), DhcpOption(55, [1, 3]);
    assert Encode([b]) == [55, 2, 1, 3] && Encode([a, b]) == [53, 1, 3, 55, 2, 1, 3] by {
      EncodeCons(b, []);
      EncodeCons(a, [b]);
      assert [b] + [] == [b] && [a] + [b] == [a, b];
    }
    ParseEncode([a, b]);
    var c := DhcpOption(55, [1, 3, 7, 100]);
    assert AddedOne(b) == c && AddedOne(a) == a;
    hide AddedOne;
    assert Added([a, b]) == [a, c];
    hide Added;
    EncodeCons(c, []);
    EncodeCons(a, [c]);
    assert [c] + [] == [c] && [a] + [c] == [a, c];
  }
}
