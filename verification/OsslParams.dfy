/** Parameters carried between OpenSSL's OSSL_PARAM arrays and the lists of the provider interface. */
module OsslParams {
  import opened Wrappers
  import opened Memory

  datatype WitValue = Utf8(text: Bytes) | Octets(octets: Bytes) | Unsigned(u: int) | Signed(i: int) | Unsupported

  datatype WitParam = WitParam(key: Bytes, value: WitValue)

  datatype DataType = IntegerType | UnsignedType | Utf8Type | OctetType | OtherType

  /** One OSSL_PARAM. The entry that ends an array has no key; a request for a size has no data. */
  datatype OsslParam = OsslParam(key: Option<Bytes>, ty: DataType, data: Option<Bytes>, size: nat, returnSize: nat) {
    predicate Valid() {
      && (key.Some? ==> 0 !in key.value)
      && (data.Some? ==> |data.value| == size)
    }
  }

  const END := OsslParam(None, OtherType, None, 0, 0)

  // ---- integers in memory ----

  function Pow256(w: nat): (p: nat)
    ensures p > 0
  {
    if w == 0 then 1 else 256 * Pow256(w - 1)
  }

  function ToBytes(w: nat, x: nat): (b: Bytes)
    ensures |b| == w
  {
    if w == 0 then [] else [x % 256] + ToBytes(w - 1, x / 256)
  }

  function FromBytes(b: Bytes): nat {
    if b == [] then 0 else b[0] + 256 * FromBytes(b[1..])
  }

  lemma {:induction false} FromToBytes(w: nat, x: nat)
    requires x < Pow256(w)
    ensures FromBytes(ToBytes(w, x)) == x
  {
    if w > 0 {
      FromToBytes(w - 1, x / 256);
    }
  }

  /** Storing through a pointer of width `w` keeps the value modulo 256^w. */
  function Store(w: nat, v: int): Bytes {
    ToBytes(w, v % Pow256(w))
  }

  /** What a reader of the requested type and width sees. */
  function Load(signed: bool, b: Bytes): int {
    var x: int := FromBytes(b);
    var m: int := Pow256(|b|);
    if signed && 2 * x >= m then x - m else x
  }

  predicate Fits(signed: bool, w: nat, v: int) {
    var m: int := Pow256(w);
    if signed then -m <= 2 * v < m else 0 <= v < m
  }

  lemma ModRange(v: int, m: int)
    requires m > 0
    ensures 0 <= v < m ==> v % m == v
    ensures -m <= v < 0 ==> v % m == v + m
    ensures 0 <= v % m < m
  {
  }

  /** Integer coercion preserves a value exactly when it fits the requested type and width. */
  lemma CoercionExact(signed: bool, w: nat, v: int)
    requires w > 0
    ensures Load(signed, Store(w, v)) == v <==> Fits(signed, w, v)
  {
    var m: int := Pow256(w);
    ModRange(v, m);
    FromToBytes(w, v % m);
    assert m == 256 * Pow256(w - 1);
  }

  lemma Widths()
    ensures Pow256(4) == 0x1_0000_0000 && Pow256(8) == 0x1_0000_0000_0000_0000
  {
    assert Pow256(1) == 0x100 && Pow256(2) == 0x1_0000 && Pow256(3) == 0x100_0000;
    assert Pow256(5) == 0x100_0000_0000 && Pow256(6) == 0x1_0000_0000_0000 && Pow256(7) == 0x100_0000_0000_0000;
  }

  /** Four and eight bytes of memory as a reader takes them, lowest byte first and with the top bit as a sign. */
  lemma Weights(b: Bytes)
    ensures |b| == 4 ==>
      FromBytes(b) == b[0] as int + 0x100 * b[1] as int + 0x1_0000 * b[2] as int + 0x100_0000 * b[3] as int
    ensures |b| == 8 ==>
      FromBytes(b) == b[0] as int + 0x100 * b[1] as int + 0x1_0000 * b[2] as int + 0x100_0000 * b[3] as int
                    + 0x1_0000_0000 * (b[4] as int + 0x100 * b[5] as int + 0x1_0000 * b[6] as int
                                       + 0x100_0000 * b[7] as int)
    ensures |b| == 4 ==>
      && Load(false, b) == FromBytes(b)
      && Load(true, b) == FromBytes(b) - if b[3] < 0x80 then 0 else 0x1_0000_0000
  {
    Widths();
    if |b| == 4 {
      FourBytes(b, []);
    } else if |b| == 8 {
      FourBytes(b, b[4..]);
      FourBytes(b[4..], []);
    }
  }

  lemma FourBytes(b: Bytes, more: Bytes)
    requires |b| >= 4 && b[4..] == more
    ensures FromBytes(b) == b[0] as int + 0x100 * b[1] as int + 0x1_0000 * b[2] as int + 0x100_0000 * b[3] as int
                            + 0x1_0000_0000 * FromBytes(more)
  {
    assert b[1..][1..] == b[2..] && b[2..][1..] == b[3..] && b[3..][1..] == b[4..];
    assert FromBytes(b[3..]) == b[3] + 256 * FromBytes(more);
    assert FromBytes(b[2..]) == b[2] + 256 * FromBytes(b[3..]);
    assert FromBytes(b[1..]) == b[1] + 256 * FromBytes(b[2..]);
  }

  /** The ranges of the C integers of both widths. */
  lemma Ranges(v: int)
    ensures Fits(false, 4, v) <==> 0 <= v < 0x1_0000_0000
    ensures Fits(true, 4, v) <==> -0x8000_0000 <= v < 0x8000_0000
    ensures Fits(false, 8, v) <==> 0 <= v < 0x1_0000_0000_0000_0000
    ensures Fits(true, 8, v) <==> -0x8000_0000_0000_0000 <= v < 0x8000_0000_0000_0000
  {
    Widths();
  }

  // ---- lists out: WIT parameters to an OSSL_PARAM array ----

  function Terminated(key: Bytes): (r: Option<Bytes>) {
    Some(CString(key, 0))
  }

  /** The entry an export makes of one parameter; nothing for other variants or a failed allocation. */
  function Emitted(w: WitParam, granted: bool): (r: seq<OsslParam>)
    ensures |r| <= 1
    ensures |r| == 1 ==> r[0].Valid() && r[0].key.Some? && r[0].data.Some?
  {
    match w.value
    case Octets(o) => [OsslParam(Terminated(w.key), OctetType, Some(o), |o|, 0)]
    case Utf8(t) => if granted then [OsslParam(Terminated(w.key), Utf8Type, Some(t), |t|, 0)] else []
    case Unsigned(u) => [OsslParam(Terminated(w.key), UnsignedType, Some(Store(8, u)), 8, 0)]
    case Signed(i) => [OsslParam(Terminated(w.key), IntegerType, Some(Store(8, i)), 8, 0)]
    case Unsupported => []
  }

  /** A number of the provider interface, 64 bits wide, is read back from what an export made of it. */
  lemma EmittedNumber(w: WitParam, granted: bool)
    ensures w.value.Unsigned? && Fits(false, 8, w.value.u) ==>
      var p := Emitted(w, granted)[0];
      p.ty.UnsignedType? && Load(false, p.data.value) == w.value.u
    ensures w.value.Signed? && Fits(true, 8, w.value.i) ==>
      var p := Emitted(w, granted)[0];
      p.ty.IntegerType? && Load(true, p.data.value) == w.value.i
  {
    if w.value.Unsigned? {
      CoercionExact(false, 8, w.value.u);
    } else if w.value.Signed? {
      CoercionExact(true, 8, w.value.i);
    }
  }

  /** The entry carries the key up to its first zero byte, and the value: a text or octets with their length, a number
      in eight bytes. There is none only for the other variants and for a text without memory. */
  lemma EmittedMeans(w: WitParam, granted: bool)
    ensures Emitted(w, granted) == [] <==> w.value.Unsupported? || (w.value.Utf8? && !granted)
    ensures Emitted(w, granted) != [] ==>
      var e := Emitted(w, granted)[0];
      && |Emitted(w, granted)| == 1 && e.key == Some(CString(w.key, 0)) && e.size == |e.data.value| && e.returnSize == 0
      && (w.value.Utf8? ==> e.ty == Utf8Type && e.data == Some(w.value.text))
      && (w.value.Octets? ==> e.ty == OctetType && e.data == Some(w.value.octets))
      && (w.value.Unsigned? ==> e.ty == UnsignedType && e.size == 8)
      && (w.value.Signed? ==> e.ty == IntegerType && e.size == 8)
  {
  }

  function EmittedAll(ws: seq<WitParam>, granted: seq<bool>): (r: seq<OsslParam>)
    requires |ws| == |granted|
    ensures |r| <= |ws|
    ensures forall i :: 0 <= i < |r| ==> r[i].Valid() && r[i].key.Some? && r[i].data.Some?
  {
    if ws == [] then []
    else EmittedAll(Front(ws), Front(granted)) + Emitted(Last(ws), Last(granted))
  }

  function Front<T>(s: seq<T>): seq<T>
    requires |s| > 0
  {
    s[..|s| - 1]
  }

  function Last<T>(s: seq<T>): T
    requires |s| > 0
  {
    s[|s| - 1]
  }

  /** `memory` starts with the bytes of the key and has at least one more, which the terminator overwrites. */
  predicate HoldsKey(memory: Bytes, key: Bytes) {
    key < memory
  }

  lemma RoomForTerminator(key: Bytes, more: Bytes)
    ensures HoldsKey(key + more, key) <==> more != []
  {
  }

  /** The memory once the key is terminated. */
  function Ended(memory: Bytes, key: Bytes): (r: Bytes)
    requires HoldsKey(memory, key)
    ensures r == key + [0] + memory[|key| + 1..]
  {
    memory[|key| := 0]
  }

  method TerminateKey(memory: array<Byte>, key: Bytes) returns (r: Option<Bytes>)
    requires HoldsKey(memory[..], key)
    modifies memory
    ensures memory[..] == Ended(old(memory[..]), key)
    ensures r == Terminated(key)
  {
    memory[|key|] := 0;
    assert memory[..] == key + memory[|key|..];
    CStringStops(key, memory[|key|..], 0);
    r := Some(CString(memory[..], 0));
  }

  /** Emits one entry; the key is terminated in place, one past its end. */
  method Emit(w: WitParam, memory: array<Byte>, granted: bool, buf: array<OsslParam>, n: nat) returns (m: nat)
    requires HoldsKey(memory[..], w.key) && n < buf.Length
    modifies buf, memory
    ensures memory[..] == Ended(old(memory[..]), w.key)
    ensures m == n + |Emitted(w, granted)|
    ensures buf[..m] == old(buf[..n]) + Emitted(w, granted)
    ensures forall i :: m <= i < buf.Length ==> buf[i] == old(buf[i])
  {
    hide HoldsKey, Ended, Store, Terminated;
    m := n;
    var key := TerminateKey(memory, w.key);
    match w.value {
      case Octets(o) =>
        buf[m] := OsslParam(key, OctetType, Some(o), |o|, 0);
        m := m + 1;
      case Utf8(t) =>
        if granted {
          var copy := new Byte[|t| + 1](_ => 0);
          forall i | 0 <= i < |t| { copy[i] := t[i]; }
          assert copy[..|t|] == t;
          buf[m] := OsslParam(key, Utf8Type, Some(copy[..|t|]), |t|, 0);
          m := m + 1;
        }
      case Unsigned(u) =>
        buf[m] := OsslParam(key, UnsignedType, Some(Store(8, u)), 8, 0);
        m := m + 1;
      case Signed(i) =>
        buf[m] := OsslParam(key, IntegerType, Some(Store(8, i)), 8, 0);
        m := m + 1;
      case Unsupported =>
    }
  }

  lemma NothingEmitted(ws: seq<WitParam>, granted: seq<bool>)
    ensures EmittedAll(ws[..0], granted[..0]) == []
  {
  }

  lemma EmittedStep(ws: seq<WitParam>, granted: seq<bool>, j: nat)
    requires j < |ws| == |granted|
    ensures EmittedAll(ws[..j + 1], granted[..j + 1]) == EmittedAll(ws[..j], granted[..j]) + Emitted(ws[j], granted[j])
  {
    assert Front(ws[..j + 1]) == ws[..j] && Front(granted[..j + 1]) == granted[..j];
  }

  /** One inner list of an export: the array handed to the callback ends with an entry without a key. */
  method Export(ws: seq<WitParam>, keys: seq<array<Byte>>, granted: seq<bool>) returns (params: seq<OsslParam>)
    requires |ws| == |keys| == |granted|
    requires forall i :: 0 <= i < |keys| ==> HoldsKey(keys[i][..], ws[i].key)
    requires forall i, j :: 0 <= i < j < |keys| ==> keys[i] != keys[j]
    modifies set k | k in keys
    ensures forall i :: 0 <= i < |keys| ==> keys[i][..] == Ended(old(keys[i][..]), ws[i].key)
    ensures |params| > 0 && Last(params) == END
    ensures Front(params) == EmittedAll(ws, granted)
  {
    hide EmittedAll, Emitted, HoldsKey, Ended;
    var bld := new OsslParam[|ws| + 1](_ => END);
    var n, j := 0, 0;
    NothingEmitted(ws, granted);
    while j < |ws|
      invariant 0 <= n <= j <= |ws|
      invariant fresh(bld) && bld[..n] == EmittedAll(ws[..j], granted[..j])
      invariant forall i :: j <= i < |keys| ==> keys[i][..] == old(keys[i][..])
      invariant forall i :: 0 <= i < j ==> keys[i][..] == Ended(old(keys[i][..]), ws[i].key)
    {
      EmittedStep(ws, granted, j);
      n := Emit(ws[j], keys[j], granted[j], bld, n);
      j := j + 1;
    }
    assert ws[..j] == ws && granted[..j] == granted;
    bld[n] := END;
    params := bld[..n + 1];
    assert Front(params) == bld[..n];
  }

  /** One inner list as the export walks it: its entries with the memory of their keys, the outcome of each string
      allocation and of the array's, and what the callback returns for it. */
  datatype Inner = Inner(
    ws: seq<WitParam>, keys: seq<array<Byte>>, granted: seq<bool>, room: bool, verdict: bool)
  {
    predicate Aligned() {
      |ws| == |keys| == |granted|
    }
  }

  ghost predicate Ready(l: Inner)
    requires l.Aligned()
    reads set k | k in l.keys
  {
    && (forall i :: 0 <= i < |l.keys| ==> HoldsKey(l.keys[i][..], l.ws[i].key))
    && (forall i, j :: 0 <= i < j < |l.keys| ==> l.keys[i] != l.keys[j])
  }

  /** The outer loop: the callback sees each list in order, up to the first whose array cannot be allocated. The export
      succeeds exactly when there is none and the callback accepts every list; a refusal does not stop it. */
  method ExportAll(lists: seq<Inner>) returns (calls: seq<seq<OsslParam>>, success: bool)
    requires forall i :: 0 <= i < |lists| ==> lists[i].Aligned()
    requires forall i :: 0 <= i < |lists| ==> Ready(lists[i])
    requires forall i, j :: 0 <= i < j < |lists| ==> forall k :: k in lists[i].keys ==> k !in lists[j].keys
    modifies set i, k | 0 <= i < |lists| && k in lists[i].keys :: k
    ensures |calls| <= |lists| && (|calls| < |lists| ==> !lists[|calls|].room)
    ensures forall i :: 0 <= i < |calls| ==>
      lists[i].Aligned() && lists[i].room && calls[i] == EmittedAll(lists[i].ws, lists[i].granted) + [END]
    ensures success <==> |calls| == |lists| && forall i :: 0 <= i < |lists| ==> lists[i].verdict
  {
    hide EmittedAll, HoldsKey;
    calls, success := [], true;
    var i := 0;
    while i < |lists|
      invariant 0 <= i <= |lists| && |calls| == i
      invariant forall j :: i <= j < |lists| ==> Ready(lists[j])
      invariant forall j :: 0 <= j < i ==>
        lists[j].Aligned() && lists[j].room && calls[j] == EmittedAll(lists[j].ws, lists[j].granted) + [END]
      invariant success <==> forall j :: 0 <= j < i ==> lists[j].verdict
    {
      if !lists[i].room {
        success := false;
        break;
      }
      var params := Export(lists[i].ws, lists[i].keys, lists[i].granted);
      assert params == EmittedAll(lists[i].ws, lists[i].granted) + [END];
      calls := calls + [params];
      if !lists[i].verdict { success := false; }
      i := i + 1;
    }
  }

  // ---- lists in: an OSSL_PARAM array to WIT parameters ----

  predicate IsArray(params: seq<OsslParam>) {
    exists i :: 0 <= i < |params| && params[i].key.None?
  }

  /** A string entry has memory to copy from, unless it is empty. */
  predicate Readable(p: OsslParam) {
    p.Valid() && (p.data.None? && (p.ty.Utf8Type? || p.ty.OctetType?) ==> p.size == 0)
  }

  /** The entries before the end of the array. */
  function Body(params: seq<OsslParam>): (r: seq<OsslParam>)
    requires IsArray(params)
    ensures r <= params && |r| < |params| && params[|r|].key.None?
    ensures forall i :: 0 <= i < |r| ==> r[i].key.Some?
  {
    if params[0].key.None? then [] else [params[0]] + Body(params[1..])
  }

  predicate Wanted(p: OsslParam, octetsToo: bool) {
    p.ty.Utf8Type? || (octetsToo && p.ty.OctetType?)
  }

  function Copied(p: OsslParam): WitParam
    requires p.key.Some?
  {
    var bytes := if p.data.Some? then p.data.value else [];
    WitParam(p.key.value, if p.ty.Utf8Type? then Utf8(bytes) else Octets(bytes))
  }

  /** Which entries are taken in and what they become: texts always, octet strings unless only texts are, nothing else;
      key and bytes are those of the entry. */
  lemma WantedMeans(p: OsslParam, octetsToo: bool)
    ensures Wanted(p, octetsToo) <==> p.ty == Utf8Type || (p.ty == OctetType && octetsToo)
    ensures p.key.Some? && p.ty == Utf8Type && p.data.Some? ==> Copied(p) == WitParam(p.key.value, Utf8(p.data.value))
    ensures p.key.Some? && p.ty == OctetType && p.data.Some? ==>
      Copied(p) == WitParam(p.key.value, Octets(p.data.value))
    ensures p.key.Some? && p.data.None? ==> Copied(p).value in [Utf8([]), Octets([])]
  {
  }

  function Collected(body: seq<OsslParam>, octetsToo: bool): (r: seq<WitParam>)
    requires forall i :: 0 <= i < |body| ==> body[i].key.Some?
  {
    if body == [] then []
    else Collected(Front(body), octetsToo) + if Wanted(Last(body), octetsToo) then [Copied(Last(body))] else []
  }

  lemma CollectedNothing(body: seq<OsslParam>, octetsToo: bool)
    ensures Collected(body[..0], octetsToo) == []
  {
  }

  /** One step of either pass. */
  lemma CollectedStep(body: seq<OsslParam>, k: nat, octetsToo: bool)
    requires k < |body|
    requires forall i :: 0 <= i < |body| ==> body[i].key.Some?
    ensures Collected(body[..k + 1], octetsToo)
         == Collected(body[..k], octetsToo) + if Wanted(body[k], octetsToo) then [Copied(body[k])] else []
  {
    assert Front(body[..k + 1]) == body[..k];
  }

  lemma {:induction false} CollectedGrows(body: seq<OsslParam>, k: nat, octetsToo: bool)
    requires k <= |body|
    requires forall i :: 0 <= i < |body| ==> body[i].key.Some?
    ensures |Collected(body[..k], octetsToo)| <= |Collected(body, octetsToo)|
    decreases |body| - k
  {
    if k == |body| {
      assert body[..k] == body;
    } else {
      CollectedGrows(body, k + 1, octetsToo);
      CollectedStep(body, k, octetsToo);
    }
  }

  /** The first pass: how many entries are wanted. */
  method CountWanted(ps: seq<OsslParam>, octetsToo: bool) returns (count: nat)
    requires IsArray(ps)
    ensures count == |Collected(Body(ps), octetsToo)|
  {
    hide Collected, Wanted, Copied;
    ghost var body := Body(ps);
    CollectedNothing(body, octetsToo);
    count := 0;
    var p := 0;
    while ps[p].key.Some?
      invariant 0 <= p <= |body|
      invariant count == |Collected(body[..p], octetsToo)|
      decreases |body| - p
    {
      CollectedStep(body, p, octetsToo);
      if Wanted(ps[p], octetsToo) { count := count + 1; }
      p := p + 1;
    }
    assert body[..p] == body;
  }

  /** The second pass: the wanted entries, within the array the first one sized. */
  method FillWanted(ps: seq<OsslParam>, octetsToo: bool, ptr: array<WitParam>) returns (len: nat)
    requires IsArray(ps) && ptr.Length == |Collected(Body(ps), octetsToo)|
    modifies ptr
    ensures len == ptr.Length && ptr[..len] == Collected(Body(ps), octetsToo)
  {
    hide Collected, Wanted, Copied;
    ghost var body := Body(ps);
    CollectedNothing(body, octetsToo);
    len := 0;
    var p := 0;
    while ps[p].key.Some?
      invariant 0 <= p <= |body|
      invariant len == |Collected(body[..p], octetsToo)| <= ptr.Length
      invariant ptr[..len] == Collected(body[..p], octetsToo)
      decreases |body| - p
    {
      CollectedStep(body, p, octetsToo);
      CollectedGrows(body, p + 1, octetsToo);
      if Wanted(ps[p], octetsToo) {
        ptr[len] := Copied(ps[p]);
        len := len + 1;
      }
      p := p + 1;
    }
    assert body[..p] == body;
  }

  /** Both passes of a marshaller: count the wanted entries, then fill exactly that many. */
  method Build(params: Option<seq<OsslParam>>, octetsToo: bool) returns (out: seq<WitParam>)
    requires params.Some? ==> IsArray(params.value)
    requires params.Some? ==> forall i :: 0 <= i < |params.value| ==> Readable(params.value[i])
    ensures out == if params.Some? then Collected(Body(params.value), octetsToo) else []
  {
    hide Collected;
    if params.None? { return []; }
    var count := CountWanted(params.value, octetsToo);
    if count == 0 { return []; }
    var ptr := new WitParam[count](_ => WitParam([], Unsupported));
    var len := FillWanted(params.value, octetsToo, ptr);
    out := ptr[..len];
  }

  // ---- the round trip ----

  function Sent(w: WitParam, granted: bool): seq<WitParam> {
    if w.value.Octets? || (w.value.Utf8? && granted) then [w] else []
  }

  lemma SentMeans(w: WitParam, granted: bool)
    ensures Sent(w, granted) == [w] <==> w.value.Octets? || (w.value.Utf8? && granted)
    ensures Sent(w, granted) != [w] ==> Sent(w, granted) == []
  {
  }

  /** What an export can deliver: strings whose buffer was allocated, and octet strings. */
  function Deliverable(ws: seq<WitParam>, granted: seq<bool>): (r: seq<WitParam>)
    requires |ws| == |granted|
  {
    if ws == [] then []
    else
      Deliverable(Front(ws), Front(granted)) + Sent(Last(ws), Last(granted))
  }

  lemma CollectedEmitted(body: seq<OsslParam>, w: WitParam, granted: bool)
    requires forall i :: 0 <= i < |body| ==> body[i].key.Some?
    ensures Collected(body + Emitted(w, granted), true)
         == Collected(body, true) + if Sent(w, granted) == [] then [] else [w.(key := CString(w.key, 0))]
  {
    hide CString;
    if Emitted(w, granted) == [] {
      assert body + [] == body;
    } else {
      assert Front(body + Emitted(w, granted)) == body;
    }
  }

  lemma {:induction false} BodyOf(body: seq<OsslParam>)
    requires forall i :: 0 <= i < |body| ==> body[i].key.Some?
    ensures IsArray(body + [END]) && Body(body + [END]) == body
  {
    assert (body + [END])[|body|].key.None?;
    if body != [] {
      BodyOf(body[1..]);
      assert (body + [END])[1..] == body[1..] + [END];
    }
  }

  lemma {:induction false} Deliveries(ws: seq<WitParam>, granted: seq<bool>)
    requires |ws| == |granted|
    ensures var got := Collected(EmittedAll(ws, granted), true);
            var sent := Deliverable(ws, granted);
            |got| == |sent| && forall i :: 0 <= i < |sent| ==> got[i] == sent[i].(key := CString(sent[i].key, 0))
  {
    hide CString, Emitted, Sent;
    if ws != [] {
      Deliveries(Front(ws), Front(granted));
      CollectedEmitted(EmittedAll(Front(ws), Front(granted)), Last(ws), Last(granted));
      SentOne(Last(ws), Last(granted));
    }
  }

  lemma SentOne(w: WitParam, granted: bool)
    ensures Sent(w, granted) == [] || Sent(w, granted) == [w]
  {
  }

  /** Exporting then importing gives back the string and octet entries, in order, exactly when no
      delivered key holds a zero byte; in any case each comes back with its value. */
  lemma ExportImport(ws: seq<WitParam>, granted: seq<bool>)
    requires |ws| == |granted|
    ensures var got := Collected(EmittedAll(ws, granted), true);
            var sent := Deliverable(ws, granted);
            && |got| == |sent|
            && (forall i :: 0 <= i < |sent| ==> got[i] == sent[i].(key := CString(sent[i].key, 0)))
            && (got == sent <==> forall i :: 0 <= i < |sent| ==> 0 !in sent[i].key)
  {
    hide Collected, EmittedAll, Deliverable;
    Deliveries(ws, granted);
    var got, sent := Collected(EmittedAll(ws, granted), true), Deliverable(ws, granted);
    forall i | 0 <= i < |sent|
      ensures got[i] == sent[i] <==> 0 !in sent[i].key
    {
      assert got[i] == sent[i] <==> CString(sent[i].key, 0) == sent[i].key;
    }
  }

  /** The same through the two loops, with the keys terminated in place. */
  method ThereAndBack(ws: seq<WitParam>, keys: seq<array<Byte>>, granted: seq<bool>) returns (out: seq<WitParam>)
    requires |ws| == |keys| == |granted|
    requires forall i :: 0 <= i < |keys| ==> HoldsKey(keys[i][..], ws[i].key)
    requires forall i, j :: 0 <= i < j < |keys| ==> keys[i] != keys[j]
    modifies set k | k in keys
    ensures var sent := Deliverable(ws, granted);
            && |out| == |sent|
            && (forall i :: 0 <= i < |sent| ==> out[i] == sent[i].(key := CString(sent[i].key, 0)))
            && (out == sent <==> forall i :: 0 <= i < |sent| ==> 0 !in sent[i].key)
  {
    hide Collected, EmittedAll, Deliverable, CString, HoldsKey;
    var params := Export(ws, keys, granted);
    assert params == EmittedAll(ws, granted) + [END];
    BodyOf(EmittedAll(ws, granted));
    out := Build(Some(params), true);
    ExportImport(ws, granted);
  }

  /** A key with a zero byte comes back cut. */
  lemma KeyCut()
    ensures var w := WitParam([0x61, 0x00, 0x62], Octets([]));
            Collected(EmittedAll([w], [true]), true) == [w.(key := [0x61])] != [w]
  {
    var w := WitParam([0x61, 0x00, 0x62], Octets([]));
    assert Deliverable([w], [true]) == [w] by {
      assert Front([w]) == [] && Front([true]) == [];
    }
    ExportImport([w], [true]);
    assert CString([0x61, 0x00, 0x62], 0) == [0x61] by {
      assert [0x61, 0x00, 0x62][1..] == [0x00, 0x62];
    }
  }

  function Strings(ws: seq<WitParam>): seq<WitParam> {
    if ws == [] then []
    else Strings(Front(ws)) + if Last(ws).value.Utf8? then [Last(ws)] else []
  }

  lemma StringsAppend(ws: seq<WitParam>, w: WitParam)
    ensures Strings(ws + [w]) == Strings(ws) + if w.value.Utf8? then [w] else []
    ensures Strings(ws + []) == Strings(ws)
  {
    assert Front(ws + [w]) == ws && ws + [] == ws;
  }

  /** The marshaller of the signature thunks is the full one with everything but strings dropped. */
  lemma {:induction false} SignIsFilter(body: seq<OsslParam>)
    requires forall i :: 0 <= i < |body| ==> body[i].key.Some?
    ensures Collected(body, false) == Strings(Collected(body, true))
  {
    if body != [] {
      SignIsFilter(Front(body));
      StringsAppend(Collected(Front(body), true), Copied(Last(body)));
    }
  }

  // ---- filling a caller's request ----

  const TMP := 256

  /** The C string that the fixed buffer holds of a text. */
  function Forwarded(text: Bytes): (r: Bytes)
    ensures r <= text && |r| <= TMP - 1
    ensures r == text <==> |text| <= TMP - 1 && 0 !in text
  {
    CString(text[..Min(|text|, TMP - 1)], 0)
  }

  function Min(a: nat, b: nat): nat {
    if a < b then a else b
  }

  predicate SameKey(p: OsslParam, w: WitParam) {
    p.key.Some? && w.key != [] && p.key.value == w.key
  }

  predicate Number(p: OsslParam) {
    (p.ty.IntegerType? || p.ty.UnsignedType?) && (p.size == 4 || p.size == 8)
  }

  predicate TakesString(p: OsslParam, ty: DataType, n: nat) {
    p.data.None? || (p.ty == ty && n <= p.size)
  }

  predicate Accepts(p: OsslParam, w: WitParam) {
    SameKey(p, w) &&
    match w.value
    case Utf8(t) => TakesString(p, Utf8Type, |Forwarded(t)|)
    case Octets(o) => TakesString(p, OctetType, |o|)
    case Unsigned(_) => Number(p) && p.data.Some?
    case Signed(_) => Number(p) && p.data.Some?
    case Unsupported => false
  }

  /** Filling stores a number through the null pointer of a request without memory. */
  predicate Faults(p: OsslParam, w: WitParam) {
    SameKey(p, w) && (w.value.Unsigned? || w.value.Signed?) && Number(p) && p.data.None?
  }

  /** When an entry is accepted and when it faults: never unless its key, which is not empty, is that of the request;
      a string without memory always and otherwise by type and room; a number by type and width, with memory. */
  lemma AcceptsMeans(p: OsslParam, w: WitParam)
    ensures Accepts(p, w) || Faults(p, w) ==> p.key == Some(w.key) && w.key != []
    ensures p.key == Some(w.key) && w.key != [] ==>
      match w.value
      case Utf8(t) =>
        var sent := CString(if |t| < 256 then t else t[..255], 0);
        !Faults(p, w) && (Accepts(p, w) <==> p.data.None? || (p.ty == Utf8Type && |sent| <= p.size))
      case Octets(o) =>
        !Faults(p, w) && (Accepts(p, w) <==> p.data.None? || (p.ty == OctetType && |o| <= p.size))
      case Unsupported => !Faults(p, w) && !Accepts(p, w)
      case _ =>
        var width := (p.ty == IntegerType || p.ty == UnsignedType) && (p.size == 4 || p.size == 8);
        (Accepts(p, w) <==> width && p.data.Some?) && (Faults(p, w) <==> width && p.data.None?)
  {
    if w.value.Utf8? {
      assert w.value.text[..|w.value.text|] == w.value.text;
    }
  }

  /** What an accepted entry leaves: the size of the value, and the value at the start of the memory, followed for a
      text by a zero if there is room. A number is stored in as many bytes as asked for, the lowest first. */
  lemma DeliveredMeans(p: OsslParam, was: OsslParam, w: WitParam)
    requires was.Valid() && Accepts(was, w) && Delivered(p, was, w)
    ensures p == was.(data := p.data, returnSize := p.returnSize) && (p.data.None? <==> was.data.None?)
    ensures w.value.Utf8? ==>
      var sent := CString(if |w.value.text| < 256 then w.value.text else w.value.text[..255], 0);
      && p.returnSize == |sent|
      && (was.data.Some? ==> |sent| <= was.size)
      && (was.data.Some? ==>
            && p.data.value == if |sent| == was.size then sent else sent + [0] + was.data.value[|sent| + 1..])
    ensures w.value.Octets? ==>
      && p.returnSize == |w.value.octets|
      && (was.data.Some? ==>
            && |w.value.octets| <= was.size
            && p.data.value == w.value.octets + was.data.value[|w.value.octets|..])
    ensures w.value.Unsigned? || w.value.Signed? ==>
      && p.returnSize == was.size && (was.size == 4 || was.size == 8)
      && p.data == Some(Store(was.size, if w.value.Unsigned? then w.value.u else w.value.i))
  {
    hide CString;
    match w.value
    case Utf8(t) =>
      hide Holds;
      assert t[..|t|] == t;
      HoldsMeans(p, was, Forwarded(t), true);
    case Octets(o) => HoldsMeans(p, was, o, false);
    case Unsigned(u) => assert p.data.value == Store(was.size, u);
    case Signed(i) => assert p.data.value == Store(was.size, i);
    case Unsupported =>
  }

  lemma HoldsMeans(p: OsslParam, was: OsslParam, s: Bytes, nul: bool)
    requires was.Valid() && Holds(p, was, s, nul) && (was.data.Some? ==> |s| <= was.size)
    ensures p == was.(data := p.data, returnSize := |s|) && (p.data.None? <==> was.data.None?)
    ensures was.data.Some? ==>
      p.data.value == if nul && |s| < was.size then s + [0] + was.data.value[|s| + 1..] else s + was.data.value[|s|..]
  {
  }

  /** The outcome of one attempt; the language gives no meaning to what follows a store through null. */
  datatype Fill = Filled | NotFilled | NullStore

  /** `p` now holds `s`, followed by a zero if `nul` and there is room; the rest of its memory is as before. */
  predicate Holds(p: OsslParam, was: OsslParam, s: Bytes, nul: bool) {
    && p == was.(data := p.data, returnSize := |s|)
    && (was.data.None? ==> p.data.None?)
    && (was.data.Some? ==>
          && p.data.Some? && |p.data.value| == |was.data.value|
          && s <= p.data.value
          && (forall i :: |s| <= i < |was.data.value| ==>
                p.data.value[i] == if nul && i == |s| then 0 else was.data.value[i]))
  }

  /** What an accepted entry leaves in the request. */
  predicate Delivered(p: OsslParam, was: OsslParam, w: WitParam) {
    match w.value
    case Utf8(t) => Holds(p, was, Forwarded(t), true)
    case Octets(o) => Holds(p, was, o, false)
    case Unsigned(u) => Holds(p, was, Store(was.size, u), false)
    case Signed(i) => Holds(p, was, Store(was.size, i), false)
    case Unsupported => false
  }

  /** libcrypto's OSSL_PARAM_set_utf8_string and OSSL_PARAM_set_octet_string. */
  method SetString(a: array<OsslParam>, i: nat, s: Bytes, ty: DataType) returns (ok: bool)
    requires i < a.Length && a[i].Valid()
    modifies a
    ensures forall j :: 0 <= j < a.Length && j != i ==> a[j] == old(a[j])
    ensures ok <==> TakesString(old(a[i]), ty, |s|)
    ensures if ok then Holds(a[i], old(a[i]), s, ty.Utf8Type?) else a[i] == old(a[i]).(returnSize := |s|)
  {
    a[i] := a[i].(returnSize := |s|);
    if a[i].data.None? { return true; }
    if a[i].ty != ty || a[i].size < |s| { return false; }
    var d := a[i].data.value;
    var nul := if ty.Utf8Type? && |s| < |d| then [0] else [];
    a[i] := a[i].(data := Some(s + nul + d[|s| + |nul|..]));
    ok := true;
  }

  method StoreNumber(a: array<OsslParam>, i: nat, v: int) returns (r: Fill)
    requires i < a.Length && a[i].Valid()
    modifies a
    ensures forall j :: 0 <= j < a.Length && j != i ==> a[j] == old(a[j])
    ensures r == if !Number(old(a[i])) then NotFilled else if old(a[i]).data.Some? then Filled else NullStore
    ensures if r.Filled? then Holds(a[i], old(a[i]), Store(old(a[i]).size, v), false) else a[i] == old(a[i])
  {
    r := NotFilled;
    if a[i].ty.IntegerType? || a[i].ty.UnsignedType? {
      if a[i].size == 4 {
        if a[i].data.None? { return NullStore; }
        a[i] := a[i].(data := Some(Store(4, v)), returnSize := 4);
        r := Filled;
      } else if a[i].size == 8 {
        if a[i].data.None? { return NullStore; }
        a[i] := a[i].(data := Some(Store(8, v)), returnSize := 8);
        r := Filled;
      }
    }
  }

  /** Once libcrypto has refused a string, the hand-written copy that follows never applies. */
  lemma FallbackNeverApplies(p: OsslParam, text: Bytes)
    requires !TakesString(p, Utf8Type, |Forwarded(text)|)
    ensures !(p.ty.Utf8Type? && p.data.Some? && p.size >= Min(|text|, TMP - 1) + 1)
  {
    assert |Forwarded(text)| <= |text[..Min(|text|, TMP - 1)]|;
  }

  method FillOne(a: array<OsslParam>, i: nat, w: WitParam) returns (r: Fill)
    requires i < a.Length && a[i].Valid()
    modifies a
    ensures forall j :: 0 <= j < a.Length && j != i ==> a[j] == old(a[j])
    ensures r == if Accepts(old(a[i]), w) then Filled else if Faults(old(a[i]), w) then NullStore else NotFilled
    ensures if r.Filled? then Delivered(a[i], old(a[i]), w) else a[i] == old(a[i]).(returnSize := a[i].returnSize)
    ensures r != NotFilled ==> old(a[i]).key == Some(w.key) && w.key != []
    ensures old(a[i]).key != Some(w.key) ==> r == NotFilled && a[i] == old(a[i])
  {
    if a[i].key.None? || w.key == [] { return NotFilled; }
    if |a[i].key.value| != |w.key| { return NotFilled; }
    if a[i].key.value != w.key { return NotFilled; }
    match w.value {
      case Utf8(t) =>
        var len := |t|;
        if len + 1 > TMP { len := TMP - 1; }
        var tmp := new Byte[TMP](_ => 0);
        forall k | 0 <= k < len { tmp[k] := t[k]; }
        tmp[len] := 0;
        assert tmp[..len] == t[..len];
        assert tmp[..] == tmp[..len] + tmp[len..];
        CStringStops(tmp[..len], tmp[len..], 0);
        if !TakesString(a[i], Utf8Type, |Forwarded(t)|) { FallbackNeverApplies(a[i], t); }
        var ok := SetString(a, i, CString(tmp[..], 0), Utf8Type);
        r := if ok then Filled else NotFilled;
      case Octets(o) =>
        var ok := SetString(a, i, o, OctetType);
        r := if ok then Filled else NotFilled;
      case Unsigned(u) =>
        r := StoreNumber(a, i, u);
      case Signed(s) =>
        r := StoreNumber(a, i, s);
      case Unsupported =>
        r := NotFilled;
    }
  }

  /** The answer to one request: that of the first accepting entry, or size 0 and untouched memory. */
  predicate Answered(p: OsslParam, was: OsslParam, ws: seq<WitParam>) {
    if forall k :: 0 <= k < |ws| ==> !Accepts(was, ws[k]) then p == was.(returnSize := 0)
    else exists k :: 0 <= k < |ws| && Accepts(was, ws[k]) && Delivered(p, was, ws[k])
                     && forall j :: 0 <= j < k ==> !Accepts(was, ws[j])
  }

  /** A number entry of its key reaches the request, which has no memory for it, before any accepting entry. */
  predicate FaultsOn(p: OsslParam, ws: seq<WitParam>) {
    exists k :: 0 <= k < |ws| && Faults(p, ws[k]) && forall j :: 0 <= j < k ==> !Accepts(p, ws[j])
  }

  /** The inner loop: one request against the list. */
  method AnswerOne(a: array<OsslParam>, p: nat, ws: seq<WitParam>) returns (fault: bool)
    requires p < a.Length && a[p].Valid()
    modifies a
    ensures forall j :: 0 <= j < a.Length && j != p ==> a[j] == old(a[j])
    ensures fault <==> FaultsOn(old(a[p]), ws)
    ensures !fault ==> Answered(a[p], old(a[p]), ws)
    ensures fault ==> a[p] == old(a[p]).(returnSize := a[p].returnSize)
  {
    hide Accepts, Delivered, Faults;
    ghost var was := a[p];
    var r := NotFilled;
    var i := 0;
    while i < |ws| && r == NotFilled
      invariant 0 <= i <= |ws|
      invariant forall j :: 0 <= j < a.Length && j != p ==> a[j] == old(a[j])
      invariant r == NotFilled ==> forall k :: 0 <= k < i ==> !Accepts(was, ws[k]) && !Faults(was, ws[k])
      invariant !r.Filled? ==> a[p] == was.(returnSize := a[p].returnSize)
      invariant r != NotFilled ==> 0 < i && forall k :: 0 <= k < i - 1 ==> !Accepts(was, ws[k]) && !Faults(was, ws[k])
      invariant r.Filled? ==> Accepts(was, ws[i - 1]) && Delivered(a[p], was, ws[i - 1])
      invariant r.NullStore? ==> Faults(was, ws[i - 1])
    {
      AcceptsIgnoresSize(a[p], was, ws[i]);
      r := FillOne(a, p, ws[i]);
      i := i + 1;
    }
    fault := r.NullStore?;
    if r == NotFilled { a[p] := a[p].(returnSize := 0); }
    if r.Filled? { NoFaultBefore(was, ws, i - 1); }
  }

  lemma NoFaultBefore(was: OsslParam, ws: seq<WitParam>, k: nat)
    requires k < |ws| && Accepts(was, ws[k])
    requires forall j :: 0 <= j < k ==> !Faults(was, ws[j])
    ensures !FaultsOn(was, ws)
  {
  }

  /** The first request that stores through null ends the call; without one, every request is answered. */
  method GetParams(a: array<OsslParam>, ws: seq<WitParam>) returns (fault: Option<nat>)
    requires IsArray(a[..])
    requires forall i :: 0 <= i < a.Length ==> a[i].Valid()
    modifies a
    ensures var n := |Body(old(a[..]))|;
            var answered := if fault.Some? then fault.value else n;
            && answered <= n
            && (forall i :: 0 <= i < answered ==> Answered(a[i], old(a[i]), ws) && !FaultsOn(old(a[i]), ws))
            && (fault.Some? ==> answered < n && FaultsOn(old(a[answered]), ws))
            && (forall i :: answered < i < a.Length ==> a[i] == old(a[i]))
            && (fault.None? ==> a[n] == old(a[n]))
            && (forall i :: 0 <= i < answered ==>
                  || a[i] == old(a[i]).(returnSize := 0)
                  || exists k ::
                       0 <= k < |ws| && old(a[i]).key == Some(ws[k].key) && Delivered(a[i], old(a[i]), ws[k]))
            && (forall i :: 0 <= i < answered && (forall k :: 0 <= k < |ws| ==> old(a[i]).key != Some(ws[k].key)) ==>
                  a[i] == old(a[i]).(returnSize := 0))
  {
    hide Answered, FaultsOn, Delivered;
    ghost var n := |Body(a[..])|;
    var p := 0;
    while a[p].key.Some?
      invariant 0 <= p <= n
      invariant forall i :: 0 <= i < p ==> Answered(a[i], old(a[i]), ws) && !FaultsOn(old(a[i]), ws)
      invariant forall i :: p <= i < a.Length ==> a[i] == old(a[i])
      decreases n - p
    {
      var here := AnswerOne(a, p, ws);
      if here {
        AnsweredMeans(a[..], old(a[..]), p, ws);
        return Some(p);
      }
      p := p + 1;
    }
    AnsweredMeans(a[..], old(a[..]), p, ws);
    fault := None;
  }

  /** An answer is that of an entry with the key of the request, and there is none without one. */
  lemma AnsweredMeans(ps: seq<OsslParam>, was: seq<OsslParam>, n: nat, ws: seq<WitParam>)
    requires n <= |ps| == |was| && forall i :: 0 <= i < n ==> Answered(ps[i], was[i], ws)
    ensures forall i :: 0 <= i < n ==>
      if forall k :: 0 <= k < |ws| ==> was[i].key != Some(ws[k].key) then ps[i] == was[i].(returnSize := 0)
      else
        || ps[i] == was[i].(returnSize := 0)
        || exists k :: 0 <= k < |ws| && was[i].key == Some(ws[k].key) && Delivered(ps[i], was[i], ws[k])
  {
    hide Delivered;
    forall i, k | 0 <= i < n && 0 <= k < |ws| && Accepts(was[i], ws[k])
      ensures was[i].key == Some(ws[k].key)
    {
      AcceptsMeans(was[i], ws[k]);
    }
  }

  /** Asking for the size of a number: the answer is stored through null. */
  lemma NumberWithoutMemory()
    ensures var p := OsslParam(Some([0x62]), IntegerType, None, 4, 0);
            p.Valid() && FaultsOn(p, [WitParam([0x62], Signed(1))])
  {
    var p := OsslParam(Some([0x62]), IntegerType, None, 4, 0);
    assert Faults(p, [WitParam([0x62], Signed(1))][0]);
  }

  /** A refused entry leaves no trace: neither its successors nor the answer depend on the size it left behind. */
  lemma AcceptsIgnoresSize(p: OsslParam, was: OsslParam, w: WitParam)
    requires p == was.(returnSize := p.returnSize)
    ensures Accepts(p, w) == Accepts(was, w) && Faults(p, w) == Faults(was, w)
    ensures forall q :: Delivered(q, p, w) ==> Delivered(q, was, w)
  {
  }

  /** The answer is determined: two runs on the same request and list agree. */
  lemma AnswerUnique(p: OsslParam, q: OsslParam, was: OsslParam, ws: seq<WitParam>)
    requires was.Valid() && Answered(p, was, ws) && Answered(q, was, ws)
    ensures p == q
  {
    if k :| 0 <= k < |ws| && Accepts(was, ws[k]) && forall j :: 0 <= j < k ==> !Accepts(was, ws[j]) {
      assert Delivered(p, was, ws[k]) && Delivered(q, was, ws[k]);
      if was.data.Some? {
        assert p.data.value == q.data.value;
      }
    }
  }

  /** What the requester reads back is the value itself exactly when it fits: a text the fixed buffer and
      a C string can hold, any octet string, an integer in the range of the requested type. */
  lemma ValuePreserved(p: OsslParam, was: OsslParam, w: WitParam)
    requires was.Valid() && was.data.Some? && Accepts(was, w) && Delivered(p, was, w)
    ensures p.data.Some? && p.returnSize <= |p.data.value|
    ensures w.value.Utf8? ==>
      (p.data.value[..p.returnSize] == w.value.text <==> |w.value.text| < TMP && 0 !in w.value.text)
    ensures w.value.Octets? ==> p.data.value[..p.returnSize] == w.value.octets
    ensures w.value.Unsigned? ==>
      (Load(was.ty.IntegerType?, p.data.value) == w.value.u <==> Fits(was.ty.IntegerType?, was.size, w.value.u))
    ensures w.value.Signed? ==>
      (Load(was.ty.IntegerType?, p.data.value) == w.value.i <==> Fits(was.ty.IntegerType?, was.size, w.value.i))
  {
    match w.value
    case Utf8(t) => assert p.data.value[..p.returnSize] == Forwarded(t);
    case Octets(o) => assert p.data.value[..p.returnSize] == o;
    case Unsigned(u) =>
      assert p.data.value == Store(was.size, u);
      CoercionExact(was.ty.IntegerType?, was.size, u);
    case Signed(i) =>
      assert p.data.value == Store(was.size, i);
      CoercionExact(was.ty.IntegerType?, was.size, i);
    case Unsupported =>
  }

  /** Asking for the size and then fetching into that much memory succeeds, exactly when the first string
      of that key, of either kind, is of the kind asked for. */
  lemma SizeThenFetch(query: OsslParam, ty: DataType, memory: Bytes, answer: OsslParam, ws: seq<WitParam>, k: nat)
    requires query.Valid() && query.data.None? && (ty.Utf8Type? || ty.OctetType?)
    requires k < |ws| && Accepts(query, ws[k]) && forall j :: 0 <= j < k ==> !Accepts(query, ws[j])
    requires Answered(answer, query, ws) && |memory| == answer.returnSize
    ensures var fetch := query.(ty := ty, data := Some(memory), size := |memory|);
            Accepts(fetch, ws[k]) <==> (ws[k].value.Utf8? <==> ty.Utf8Type?)
  {
    assert Delivered(answer, query, ws[k]);
  }

  /** A text of 256 bytes loses its last one, and a text is cut at its first zero. */
  lemma TextsCut()
    ensures var t: Bytes := seq(256, _ => 0x61);
            Forwarded(t) == t[..255]
    ensures Forwarded([0x61, 0x00, 0x62]) == [0x61]
  {
    var t: Bytes := seq(256, _ => 0x61);
    assert CString(t[..255], 0) == t[..255];
    assert [0x61, 0x00, 0x62][..3] == [0x61] + [0x00, 0x62];
    CStringStops([0x61], [0x00, 0x62], 0);
    assert CString([0x61], 0) == [0x61];
  }

  /** 2^32 + 7 read back through a request of four bytes is 7, and 2^31 through a signed one is negative. */
  lemma IntegersWrap()
    ensures Load(false, Store(4, 0x1_0000_0007)) == 7
    ensures Load(true, Store(4, 0x8000_0000)) == -0x8000_0000
  {
    assert Pow256(4) == 0x1_0000_0000 by {
      assert Pow256(1) == 256 && Pow256(2) == 256 * Pow256(1) && Pow256(3) == 256 * Pow256(2);
    }
    FromToBytes(4, 7);
    FromToBytes(4, 0x8000_0000);
  }
}
