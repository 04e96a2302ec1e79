/** The HkdfLabel structure of TLS 1.3 (section 7.1 of RFC 8446), as handed to HKDF-Expand. */
module HkdfLabel {
  import opened Wrappers
  import opened Memory

  datatype Params = Params(outLen: nat, name: Bytes, context: Bytes)

  datatype Error = Unsupported | Invalid

  /** "tls13 " in ASCII. */
  const PREFIX: Bytes := [0x74, 0x6c, 0x73, 0x31, 0x33, 0x20]

  predicate Fits(p: Params) {
    p.outLen <= 65535 && |PREFIX + p.name| <= 255 && |p.context| <= 255
  }

  /** A variable-length vector with a one-byte length (section 3.4 of RFC 8446). */
  function Vector(s: Bytes): Bytes
    requires |s| <= 255
  {
    [|s|] + s
  }

  function Encoded(p: Params): Bytes
    requires Fits(p)
  {
    [p.outLen / 256, p.outLen % 256] + Vector(PREFIX + p.name) + Vector(p.context)
  }

  /** The layout of section 7.1 of RFC 8446: two bytes of length, highest first; one byte counting the label with its
      prefix; the letters "tls13 "; the label; one byte counting the context; the context. */
  lemma EncodedInOrder(p: Params)
    requires Fits(p)
    ensures Encoded(p) == [] + [p.outLen / 256] + [p.outLen % 256] + [6 + |p.name|]
                          + ['t' as int, 'l' as int, 's' as int, '1' as int, '3' as int, ' ' as int] + p.name
                          + [|p.context|] + p.context
    ensures PREFIX == ['t' as int, 'l' as int, 's' as int, '1' as int, '3' as int, ' ' as int]
  {
  }

  /** Writes `s` at the running offset `o` and advances it. */
  method Put(info: array<Byte>, o: nat, s: Bytes) returns (next: nat)
    requires o + |s| <= info.Length
    modifies info
    ensures next == o + |s| && info[..next] == old(info[..o]) + s
  {
    forall i | 0 <= i < |s| { info[o + i] := s[i]; }
    next := o + |s|;
    assert info[..next] == info[..o] + info[o..next];
  }

  /** A digest unknown to the component is refused first, then exactly the parameters with a field too long
      for its length bytes. The buffer is filled to its last byte. */
  method ExpandLabelInfo(knownDigest: bool, p: Params) returns (r: Result<Bytes, Error>)
    ensures r == if !knownDigest then Err(Unsupported)
                 else if !Fits(p) then Err(Invalid)
                 else Ok(Encoded(p))
    ensures r == Err(Invalid) <==> knownDigest && (p.outLen >= 0x1_0000 || |p.name| > 249 || |p.context| > 255)
    ensures r == Err(Unsupported) <==> !knownDigest
  {
    hide Encoded;
    assert |PREFIX| == 6;
    if !knownDigest { return Err(Unsupported); }
    if |p.name| + 6 > 255 || |p.context| > 255 || p.outLen > 65535 { return Err(Invalid); }
    var infoLen := 2 + 1 + 6 + |p.name| + 1 + |p.context|;
    var info := new Byte[infoLen];
    var o := 0;
    o := Put(info, o, [(p.outLen / 256) % 256]);
    o := Put(info, o, [p.outLen % 256]);
    o := Put(info, o, [6 + |p.name|]);
    o := Put(info, o, PREFIX);
    o := Put(info, o, p.name);
    o := Put(info, o, [|p.context|]);
    o := Put(info, o, p.context);
    assert info[..o] == info[..];
    EncodedInOrder(p);
    r := Ok(info[..]);
  }

  /** A strict reader of one length-prefixed vector: its contents and what follows. */
  function ReadVector(b: Bytes): Option<(Bytes, Bytes)> {
    if b == [] then None
    else
      var n: nat := b[0];
      if |b| < 1 + n then None else Some((b[1..1 + n], b[1 + n..]))
  }

  /** A strict reader of the whole structure. */
  function Parse(b: Bytes): Option<Params> {
    if |b| < 2 then None
    else
      var high: nat, low: nat := b[0], b[1];
      match ReadVector(b[2..])
      case None => None
      case Some((name, more)) =>
        match ReadVector(more)
        case None => None
        case Some((context, end)) =>
          if PREFIX <= name && end == [] then Some(Params(256 * high + low, name[|PREFIX|..], context)) else None
  }

  lemma ReadVectorLaws(s: Bytes, more: Bytes, b: Bytes)
    ensures |s| <= 255 ==> ReadVector(Vector(s) + more) == Some((s, more))
    ensures ReadVector(b).Some? ==>
      var (t, end) := ReadVector(b).value;
      |t| <= 255 && b == Vector(t) + end
  {
  }

  lemma ParseEncoded(p: Params)
    requires Fits(p)
    ensures Parse(Encoded(p)) == Some(p)
  {
    hide ReadVector;
    var vectors := Vector(PREFIX + p.name) + Vector(p.context);
    assert Encoded(p)[2..] == vectors;
    ReadVectorLaws(PREFIX + p.name, Vector(p.context), []);
    ReadVectorLaws(p.context, [], []);
    assert Vector(p.context) + [] == Vector(p.context);
    assert (PREFIX + p.name)[|PREFIX|..] == p.name;
  }

  lemma ParsedParts(b: Bytes)
    requires Parse(b).Some?
    ensures |b| >= 2
    ensures var p := Parse(b).value;
            && p.outLen == 256 * b[0] as int + b[1] as int
            && |PREFIX + p.name| <= 255 && |p.context| <= 255
            && b[2..] == Vector(PREFIX + p.name) + Vector(p.context)
  {
    hide ReadVector, Vector;
    ReadVectorLaws([], [], b[2..]);
    var (name, more) := ReadVector(b[2..]).value;
    ReadVectorLaws([], [], more);
    var (context, end) := ReadVector(more).value;
    assert Vector(context) + end == Vector(context);
    assert PREFIX + name[|PREFIX|..] == name;
  }

  lemma EncodedParse(b: Bytes)
    requires Parse(b).Some?
    ensures Fits(Parse(b).value) && Encoded(Parse(b).value) == b
  {
    hide Parse, Vector;
    ParsedParts(b);
    var p := Parse(b).value;
    assert b == [p.outLen / 256, p.outLen % 256] + b[2..];
  }

  /** Different parameters never share an encoding, and no encoding is a proper prefix of another. */
  lemma {:induction false} PrefixFree(p: Params, q: Params)
    requires Fits(p) && Fits(q)
    ensures Encoded(p) <= Encoded(q) ==> p == q
  {
    if Encoded(p) <= Encoded(q) {
      var more := Encoded(q)[|Encoded(p)|..];
      var b := Encoded(q);
      assert b[2..] == Vector(PREFIX + p.name) + (Vector(p.context) + more);
      ReadVectorLaws(PREFIX + p.name, Vector(p.context) + more, []);
      ReadVectorLaws(p.context, more, []);
      ParseEncoded(q);
      ParseEncoded(p);
      assert Encoded(p) == Encoded(q) + [] by { assert more == []; }
    }
  }

  /** The standard's own lower bound on the label vector is 7 bytes; the code meets it exactly when the
      label proper is not empty, and accepts the empty label all the same. */
  lemma EmptyLabelAccepted(p: Params)
    requires Fits(p)
    ensures 7 <= Encoded(p)[2] <==> p.name != []
    ensures p.name == [] ==> Parse(Encoded(p)) == Some(p)
  {
    ParseEncoded(p);
  }

  /** Sixteen bytes of output with an empty label and context: accepted, with a label vector of 6 bytes. */
  lemma EmptyLabelExample()
    ensures var p := Params(16, [], []);
            Fits(p) && Encoded(p) == [0, 16, 6] + PREFIX + [0]
  {
    assert PREFIX + [] == PREFIX;
  }

  /** Two accepted calls hand the same bytes to HKDF-Expand only if they agree on all three fields. */
  method Injective(p: Params, q: Params) returns (a: Result<Bytes, Error>, b: Result<Bytes, Error>)
    ensures a == if Fits(p) then Ok(Encoded(p)) else Err(Invalid)
    ensures b == if Fits(q) then Ok(Encoded(q)) else Err(Invalid)
    ensures a.Ok? && a == b ==> p == q
  {
    a := ExpandLabelInfo(true, p);
    b := ExpandLabelInfo(true, q);
    if a.Ok? && b.Ok? {
      ParseEncoded(p);
      ParseEncoded(q);
    }
  }
}
