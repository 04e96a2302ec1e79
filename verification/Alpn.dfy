/** The wire format of protocol name lists (section 3.1 of RFC 7301), written for clients and servers alike, and the
    scan that recovers the length of a zero-terminated copy. */
module Alpn {
  import opened Wrappers
  import opened Memory

  /** A name that fits its length byte. */
  type Name = n: Bytes | |n| <= 255

  function Frame(n: Name): (f: Bytes)
    ensures |f| == 1 + |n| && f[0] == |n| && f[1..] == n
  {
    [|n|] + n
  }

  /** The framed names, one after the other. */
  function Encode(names: seq<Name>): Bytes {
    if names == [] then [] else Frame(names[0]) + Encode(names[1..])
  }

  function Decode(wire: Bytes): Option<seq<Name>>
    decreases |wire|
  {
    if wire == [] then Some([])
    else if wire[0] > |wire| - 1 then None
    else match Decode(wire[1 + wire[0]..])
      case None => None
      case Some(rest) => Some([wire[1..1 + wire[0]]] + rest)
  }

  lemma {:induction false} DecodeEncode(names: seq<Name>)
    ensures Decode(Encode(names)) == Some(names)
  {
    if names != [] {
      var n, wire := names[0], Encode(names);
      DecodeEncode(names[1..]);
      assert wire == Frame(n) + Encode(names[1..]);
      assert wire[0] == Frame(n)[0];
      assert wire[1..1 + |n|] == Frame(n)[1..];
      assert wire[1 + |n|..] == Encode(names[1..]);
      assert [n] + names[1..] == names;
    }
  }

  /** Nothing but an encoding decodes, so a list has exactly one wire image. */
  lemma {:induction false} EncodeDecode(wire: Bytes)
    requires Decode(wire).Some?
    ensures Encode(Decode(wire).value) == wire
    decreases |wire|
  {
    if wire != [] {
      var n: Name, rest := wire[1..1 + wire[0]], wire[1 + wire[0]..];
      EncodeDecode(rest);
      assert Decode(wire).value[1..] == Decode(rest).value;
      assert wire == Frame(n) + rest;
    }
  }

  lemma {:induction false} EncodeSplit(names: seq<Name>, rest: seq<Name>)
    ensures Encode(names + rest) == Encode(names) + Encode(rest)
  {
    if names == [] {
      assert names + rest == rest;
    } else {
      assert (names + rest)[1..] == names[1..] + rest;
      EncodeSplit(names[1..], rest);
    }
  }

  lemma EncodeAppend(names: seq<Name>, n: Name)
    ensures Encode(names + [n]) == Encode(names) + Frame(n)
  {
    EncodeSplit(names, [n]);
    assert [n][1..] == [];
    assert Encode([n]) == Frame(n) + [];
  }

  /** What the sizing loop adds up, names of any length included. */
  function WireLength(names: seq<Bytes>): nat {
    if names == [] then 0 else WireLength(names[..|names| - 1]) + 1 + |names[|names| - 1]|
  }

  lemma {:induction false} WireLengthMonotone(names: seq<Bytes>, i: nat)
    requires i <= |names|
    ensures WireLength(names[..i]) <= WireLength(names)
  {
    if i < |names| {
      assert names[..|names| - 1][..i] == names[..i];
      WireLengthMonotone(names[..|names| - 1], i);
    } else {
      assert names[..i] == names;
    }
  }

  predicate AllShort(names: seq<Bytes>) {
    forall n | n in names :: |n| <= 255
  }

  function Names(names: seq<Bytes>): (r: seq<Name>)
    requires AllShort(names)
    ensures r == names
  {
    names
  }

  method TotalLength(names: seq<Bytes>) returns (total: nat)
    ensures total == WireLength(names)
  {
    total := 0;
    for i := 0 to |names|
      invariant total == WireLength(names[..i])
    {
      assert names[..i + 1][..i] == names[..i];
      total := total + 1 + |names[i]|;
    }
    assert names[..|names|] == names;
  }

  /** One step of the filling loop. */
  method WriteFrame(buf: array<Byte>, o: nat, n: Name)
    requires o + 1 + |n| <= buf.Length
    modifies buf
    ensures buf[..o + 1 + |n|] == old(buf[..o]) + Frame(n)
  {
    buf[o] := |n|;
    forall k | 0 <= k < |n| {
      buf[o + 1 + k] := n[k];
    }
  }

  lemma NextPrefix(names: seq<Bytes>, i: nat)
    requires i < |names| && AllShort(names[..i]) && |names[i]| <= 255
    ensures AllShort(names[..i + 1])
    ensures Encode(Names(names[..i + 1])) == Encode(Names(names[..i])) + Frame(names[i])
    ensures WireLength(names[..i + 1]) == WireLength(names[..i]) + 1 + |names[i]| <= WireLength(names)
  {
    hide Encode;
    assert names[..i + 1] == names[..i] + [names[i]];
    assert names[..i + 1][..i] == names[..i];
    WireLengthMonotone(names, i + 1);
    EncodeAppend(Names(names[..i]), names[i]);
  }

  /** alpn_wire: one loop sizes the buffer, a second fills it exactly; an overlong name rejects the offer. */
  method AlpnWire(offer: Option<seq<Bytes>>) returns (r: Option<Bytes>)
    ensures r.Some? <==> offer.Some? && AllShort(offer.value)
    ensures r.Some? ==> r.value == Encode(Names(offer.value)) && |r.value| == WireLength(offer.value)
    ensures r.Some? <==> offer.Some? && forall n | n in offer.value :: |n| < 256
  {
    if offer.None? {
      return None;
    }
    var names := offer.value;
    var total := TotalLength(names);
    var buf := new Byte[total](_ => 0);
    var o := 0;
    for i := 0 to |names|
      invariant AllShort(names[..i])
      invariant o == WireLength(names[..i]) <= total
      invariant buf[..o] == Encode(Names(names[..i]))
    {
      hide Encode, WireLength, AllShort, Frame;
      var n := names[i];
      if |n| > 255 {
        assert !AllShort(names) by { LongName(names, i); }
        return None;
      }
      NextPrefix(names, i);
      WriteFrame(buf, o, n);
      o := o + 1 + |n|;
    }
    assert names[..|names|] == names;
    assert buf[..] == buf[..o];
    r := Some(buf[..]);
  }

  lemma LongName(names: seq<Bytes>, i: nat)
    requires i < |names| && |names[i]| > 255
    ensures !AllShort(names)
  {
    assert names[i] in names;
  }

  /** The names before the first empty one. */
  function BeforeEmpty(names: seq<Name>): seq<Name> {
    if names == [] || names[0] == [] then [] else [names[0]] + BeforeEmpty(names[1..])
  }

  lemma BeforeEmptyIsPrefix(names: seq<Name>)
    ensures BeforeEmpty(names) <= names
    ensures [] !in BeforeEmpty(names)
    ensures BeforeEmpty(names) == names <==> [] !in names
    ensures BeforeEmpty(names) == names || names[|BeforeEmpty(names)|] == []
  {}

  /** The length scan of alpn_select_cb on the encoding followed by a zero byte: it stays in bounds and stops after
      the names before the first empty one, whatever bytes the names contain. */
  method ScanLength(ghost names: seq<Name>, list: Bytes) returns (slen: nat)
    requires list == Encode(names) + [0]
    ensures slen == |Encode(BeforeEmpty(names))| < |list|
    ensures list[..slen] == Encode(BeforeEmpty(names))
    ensures slen == |list| - 1 <==> [] !in names
  {
    hide Encode, BeforeEmpty;
    assert Encode(names[..0]) == [] && names[0..] == names by { NoNames(); }
    slen := 0;
    ghost var i := 0;
    while list[slen] != 0
      invariant i <= |names| && slen < |list|
      invariant list[..slen] == Encode(names[..i]) && list[slen..] == Encode(names[i..]) + [0]
      invariant names[..i] + BeforeEmpty(names[i..]) == BeforeEmpty(names)
      decreases |names| - i
    {
      assert list[slen] == list[slen..][0];
      ScanStep(names, list, slen, i);
      slen := slen + 1 + list[slen];
      i := i + 1;
    }
    ScanResult(names, list, slen, i);
  }

  lemma ScanStep(names: seq<Name>, list: Bytes, slen: nat, i: nat)
    requires i <= |names| && slen < |list| && list[slen] != 0
    requires list[..slen] == Encode(names[..i]) && list[slen..] == Encode(names[i..]) + [0]
    ensures i < |names| && list[slen] == |names[i]| && slen + 1 + list[slen] < |list|
    ensures list[..slen + 1 + list[slen]] == Encode(names[..i + 1])
    ensures list[slen + 1 + list[slen]..] == Encode(names[i + 1..]) + [0]
    ensures BeforeEmpty(names[i..]) == [names[i]] + BeforeEmpty(names[i + 1..])
    ensures names[..i] + [names[i]] == names[..i + 1]
  {
    assert list[slen] == list[slen..][0];
    assert i < |names|;
    var n := names[i];
    assert names[i..][1..] == names[i + 1..];
    assert list[slen..] == Frame(n) + (Encode(names[i + 1..]) + [0]);
    assert names[..i] + [n] == names[..i + 1];
    hide Encode, BeforeEmpty;
    EncodeAppend(names[..i], n);
    assert list[..slen + 1 + |n|] == list[..slen] + list[slen..][..1 + |n|];
    assert list[slen + 1 + |n|..] == list[slen..][1 + |n|..];
  }

  lemma ScanStops(names: seq<Name>, i: nat)
    requires i <= |names| && (Encode(names[i..]) + [0])[0] == 0
    ensures BeforeEmpty(names[i..]) == []
    ensures i < |names| ==> |Encode(names[i..])| > 0
  {}

  lemma NoNames()
    ensures Encode([]) == []
  {}

  lemma ScanResult(names: seq<Name>, list: Bytes, slen: nat, i: nat)
    requires i <= |names| && slen < |list| && list[slen] == 0
    requires list == Encode(names) + [0]
    requires list[..slen] == Encode(names[..i]) && list[slen..] == Encode(names[i..]) + [0]
    requires names[..i] + BeforeEmpty(names[i..]) == BeforeEmpty(names)
    ensures slen == |Encode(BeforeEmpty(names))|
    ensures list[..slen] == Encode(BeforeEmpty(names))
    ensures slen == |list| - 1 <==> [] !in names
  {
    assert list[slen] == list[slen..][0];
    ScanStops(names, i);
    BeforeEmptyIsPrefix(names);
    hide Encode, BeforeEmpty;
    assert names[..i] == BeforeEmpty(names);
    assert |list| == slen + |list[slen..]|;
    if i == |names| {
      assert names[..i] == names && names[i..] == [];
      NoNames();
    }
  }

  /** The zero-terminated copy a server keeps of its list. */
  method TerminatedCopy(wire: Bytes) returns (list: Bytes)
    ensures list == wire + [0]
  {
    var nul := new Byte[|wire| + 1](_ => 0);
    forall i | 0 <= i < |wire| {
      nul[i] := wire[i];
    }
    nul[|wire|] := 0;
    list := nul[..];
  }

  /** From the configured offer to the list a server selects from: none unless every name fits, and then the names
      before the first empty one, in order. */
  method SelectionList(offer: Option<seq<Bytes>>) returns (r: Option<Bytes>)
    ensures r.Some? <==> offer.Some? && AllShort(offer.value)
    ensures r.Some? ==> Decode(r.value) == Some(BeforeEmpty(Names(offer.value)))
    ensures r.Some? <==> offer.Some? && forall n | n in offer.value :: |n| < 256
    ensures r.Some? && [] !in offer.value ==> Decode(r.value) == Some(Names(offer.value))
  {
    var wire := AlpnWire(offer);
    if wire.None? {
      return None;
    }
    ghost var names := Names(offer.value);
    var list := TerminatedCopy(wire.value);
    var slen := ScanLength(names, list);
    BeforeEmptyIsPrefix(names);
    DecodeEncode(BeforeEmpty(names));
    r := Some(list[..slen]);
  }

  /** An offer of "h", an empty name and "i" is encoded whole, but the server selects from "h" alone. */
  method EmptyNameCuts() returns (wire: Option<Bytes>, list: Option<Bytes>)
    ensures wire.Some? && Decode(wire.value) == Some([[0x68], [], [0x69]])
    ensures list.Some? && Decode(list.value) == Some([[0x68]])
  {
    var h: Name, i: Name := [0x68], [0x69];
    var names: seq<Name> := [h, [], i];
    wire := AlpnWire(Some(names));
    list := SelectionList(Some(names));
    DecodeEncode(names);
    assert names[1..][0] == [];
    assert BeforeEmpty(names[1..]) == [];
    assert BeforeEmpty(names) == [h];
  }

  /** Two names on the wire: a length byte before each. */
  lemma WireExample()
    ensures Encode([[0x68, 0x32], [0x61]]) == [2, 0x68, 0x32, 1, 0x61]
  {
    var names: seq<Name> := [[0x68, 0x32], [0x61]];
    assert names[1..] == [[0x61]] && names[1..][1..] == [];
    assert Encode(names[1..]) == Frame([0x61]) + [];
  }
}
