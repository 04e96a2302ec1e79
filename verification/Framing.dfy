/** Reading one request of the signing service: head, then a body of the declared length. */
module Framing {
  import opened Wrappers
  import opened Memory

  /** A connection delivers a byte stream in reads of any size up to the caller's buffer; a read of no
      bytes means end of stream. */
  class Connection {
    var rest: Bytes

    constructor (stream: Bytes)
      ensures rest == stream
    {
      rest := stream;
    }

    method Read(room: nat) returns (chunk: Bytes)
      requires room > 0
      modifies this
      ensures |chunk| <= room && chunk + rest == old(rest)
      ensures chunk == [] <==> old(rest) == []
    {
      var n: nat :| n <= room && n <= |rest| && (n == 0 <==> rest == []);
      chunk, rest := rest[..n], rest[n..];
    }
  }

  const TMP := 8192
  const BLANK: Bytes := [13, 10, 13, 10]

  predicate BlankAt(s: Bytes, p: nat) {
    p + 4 <= |s| && s[p..p + 4] == BLANK
  }

  /** The first blank line at or after `from`. */
  function Position(s: Bytes, from: nat): (r: Option<nat>)
    ensures r.Some? ==> r.value >= from && BlankAt(s, r.value) && forall q :: from <= q < r.value ==> !BlankAt(s, q)
    ensures r.None? ==> forall q :: from <= q ==> !BlankAt(s, q)
    decreases |s| - from
  {
    if from + 4 > |s| then None
    else if BlankAt(s, from) then Some(from)
    else Position(s, from + 1)
  }

  /** The bytes before the first blank line, or all of them. */
  function Head(s: Bytes): (h: Bytes)
    ensures h <= s
  {
    match Position(s, 0)
    case Some(p) => s[..p]
    case None => s
  }

  /** The bytes after the first blank line. */
  function After(s: Bytes): Bytes {
    match Position(s, 0)
    case Some(p) => s[p + 4..]
    case None => []
  }

  function Cut(s: Bytes, n: nat): (r: Bytes)
    ensures r <= s && |r| == if n < |s| then n else |s|
  {
    if n < |s| then s[..n] else s
  }

  datatype Request = BadRequest | Request(head: Bytes, body: Bytes)

  /** How the rest of the handler reads a head: whether its first line has three words, and the declared
      length (0 when absent or unreadable). Both are functions of the head alone. */
  datatype Reader = Reader(threeWords: Bytes -> bool, contentLength: Bytes -> nat)

  /** What a client that sends `s` and then nothing more asks for. */
  function Meaning(s: Bytes, r: Reader): Request {
    if !r.threeWords(Head(s)) then BadRequest
    else Request(Head(s), Cut(After(s), r.contentLength(Head(s))))
  }

  /** A blank line once seen stays the first one, whatever follows. */
  lemma FirstStays(s: Bytes, more: Bytes)
    requires Position(s, 0).Some?
    ensures Position(s + more, 0) == Position(s, 0)
    ensures Head(s + more) == Head(s) && After(s + more) == After(s) + more
  {
    var p := Position(s, 0).value;
    forall q | 0 <= q <= p
      ensures BlankAt(s + more, q) <==> BlankAt(s, q)
    {
      assert q + 4 <= |s| && (s + more)[q..q + 4] == s[q..q + 4];
    }
    assert (s + more)[..p] == s[..p];
    assert (s + more)[p + 4..] == s[p + 4..] + more;
  }

  lemma Short(s: Bytes)
    ensures |s| < 4 ==> Position(s, 0) == None
  {
  }

  lemma NoBlankLine(s: Bytes)
    requires Position(s, 0).None?
    ensures Head(s) == s && After(s) == []
  {
  }

  /** A head ends before the first carriage return and line feed that come twice, and the body starts after them. */
  lemma HeadAndBody(s: Bytes, p: nat)
    requires p + 4 <= |s| && s[p..p + 4] == [13, 10, 13, 10]
    requires forall q :: 0 <= q < p ==> !BlankAt(s, q)
    ensures Head(s) == s[..p] && After(s) == s[p + 4..]
  {
    assert BlankAt(s, p);
  }

  lemma BlankIs(s: Bytes, q: nat)
    ensures BlankAt(s, q) <==>
      q + 4 <= |s| && s[q] == 13 && s[q + 1] == 10 && s[q + 2] == 13 && s[q + 3] == 10
    ensures (forall p: nat :: !BlankAt(s, p)) ==> Head(s) == s && After(s) == []
  {
    if q + 4 <= |s| {
      assert s[q..q + 4] == [s[q], s[q + 1], s[q + 2], s[q + 3]];
    }
  }

  /** A head without three words in its first line is refused; otherwise the body is cut to the declared length, or is
      what there is of it. */
  lemma MeaningOf(s: Bytes, r: Reader)
    ensures Meaning(s, r) == BadRequest <==> !r.threeWords(Head(s))
    ensures Meaning(s, r).Request? ==>
      var n := r.contentLength(Head(s));
      && Meaning(s, r).head == Head(s)
      && Meaning(s, r).body <= After(s)
      && |Meaning(s, r).body| == if |After(s)| <= n then |After(s)| else n
  {
  }

  /** However the stream is split into reads, the request obtained is the meaning of the whole stream. */
  method HandleConn(conn: Connection, reader: Reader) returns (request: Request)
    modifies conn
    ensures request == Meaning(old(conn.rest), reader)
  {
    hide Position, Head, After;
    ghost var stream := conn.rest;
    var buf: Bytes := [];
    Short(buf);
    while true
      invariant buf + conn.rest == stream
      invariant Position(buf, 0).None?
      decreases |conn.rest|
    {
      var chunk := conn.Read(TMP);
      assert buf + (chunk + conn.rest) == (buf + chunk) + conn.rest;
      if chunk == [] { break; }
      buf := buf + chunk;
      if Position(buf, 0).Some? { break; }
    }
    assert buf + conn.rest == stream;
    assert Position(buf, 0).Some? || conn.rest == [];
    assert conn.rest == [] ==> buf == stream;
    var head, body := Head(buf), After(buf);
    if Position(buf, 0).Some? { FirstStays(buf, conn.rest); } else { NoBlankLine(buf); }
    assert head == Head(stream) && body + conn.rest == After(stream);
    if !reader.threeWords(head) { return BadRequest; }
    var length := reader.contentLength(head);
    while |body| < length
      invariant body + conn.rest == After(stream)
      decreases |conn.rest|
    {
      ghost var was := conn.rest;
      var chunk := conn.Read(TMP);
      assert body + was == (body + chunk) + conn.rest;
      if chunk == [] { break; }
      body := body + chunk;
    }
    body := Cut(body, length);
    request := Request(head, body);
  }

  /** Bytes sent after a head and body change the request exactly when the body was still short of its
      declared length. */
  lemma CompleteBodyDecides(s: Bytes, more: Bytes, reader: Reader)
    requires Position(s, 0).Some?
    ensures Meaning(s + more, reader) == Meaning(s, reader)
       <==> !reader.threeWords(Head(s)) || reader.contentLength(Head(s)) <= |After(s)| || more == []
  {
    FirstStays(s, more);
    var n := reader.contentLength(Head(s));
    if n <= |After(s)| {
      assert Cut(After(s) + more, n) == Cut(After(s), n);
    }
    assert s + [] == s;
  }
}
