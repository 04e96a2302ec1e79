/** Draining an opaque core BIO into a doubling buffer through the BIO_read_ex upcall. */
module BioDrain {
  import opened Wrappers
  import opened Memory

  /** One upcall: the room it was offered, its status, and the bytes it wrote. */
  datatype Read = Read(room: nat, ok: bool, chunk: Bytes)

  /** A BIO over a finite stream. It may return any number of bytes up to the room offered, and fail at
      any time, even after taking bytes; a faithful one does neither while bytes remain. */
  class CoreBio {
    const faithful: bool
    var rest: Bytes
    ghost var log: seq<Read>

    constructor (faithful: bool, stream: Bytes)
      ensures this.faithful == faithful && rest == stream && log == []
    {
      this.faithful, rest, log := faithful, stream, [];
    }

    method ReadEx(buf: array<Byte>, at: nat, room: nat) returns (ok: bool, r: nat)
      requires at + room <= buf.Length
      modifies this, buf
      ensures r <= room && r <= |old(rest)| && rest == old(rest)[r..]
      ensures log == old(log) + [Read(room, ok, old(rest)[..r])]
      ensures buf[..at + r] == old(buf[..at]) + old(rest)[..r]
      ensures faithful && room > 0 && old(rest) != [] ==> ok && r > 0
    {
      r :| r <= room && r <= |rest| && (faithful && room > 0 && rest != [] ==> r > 0);
      var failing: bool := *;
      ok := faithful || !failing;
      forall i | 0 <= i < r { buf[at + i] := rest[i]; }
      assert buf[..at + r] == buf[..at] + buf[at..at + r];
      log := log + [Read(room, ok, rest[..r])];
      rest := rest[r..];
    }
  }

  function Concat(log: seq<Read>): Bytes {
    if log == [] then [] else Concat(log[..|log| - 1]) + log[|log| - 1].chunk
  }

  predicate Ends(r: Read) {
    !r.ok || r.chunk == []
  }

  /** The reads of a drain: each is offered at least 4096 bytes, and only the last may end it. */
  predicate Session(log: seq<Read>) {
    && (forall i :: 0 <= i < |log| ==> log[i].room >= 4096)
    && (forall i :: 0 <= i < |log| - 1 ==> !Ends(log[i]))
  }

  predicate Open(log: seq<Read>) {
    Session(log) && (log != [] ==> !Ends(log[|log| - 1]))
  }

  predicate Complete(log: seq<Read>) {
    Session(log) && log != [] && Ends(log[|log| - 1])
  }

  ghost predicate Capacity(cap: nat, n: nat) {
    && (exists k: nat :: cap == 4096 * Pow2(k))
    && (cap == 4096 || cap < 2 * n + 8192)
  }

  lemma CapacityDoubles(cap: nat, n: nat)
    requires Capacity(cap, n) && n <= cap < n + 4096
    ensures Capacity(2 * cap, n) && n + 4096 <= 2 * cap
  {
    var k: nat :| cap == 4096 * Pow2(k);
    assert 2 * cap == 4096 * Pow2(k + 1);
  }

  lemma Extend(log: seq<Read>, last: Read)
    requires Open(log) && last.room >= 4096
    ensures Concat(log + [last]) == Concat(log) + last.chunk
    ensures if Ends(last) then Complete(log + [last]) else Open(log + [last])
  {
    assert (log + [last])[..|log|] == log;
  }

  /** `limit` is the largest block the allocator grants, `log` the reads made. The drained bytes are those of
      every read but the one that ended it; a drain fails exactly when a capacity it came to need is over the
      limit. A faithful BIO is drained of its whole stream, whatever the sizes of its reads. */
  method Drain(bio: CoreBio, limit: nat) returns (out: Option<Bytes>, ghost log: seq<Read>, ghost cap: nat)
    modifies bio
    ensures bio.log == old(bio.log) + log
    ensures if cap <= limit then
              && Complete(log) && out == Some(Concat(log[..|log| - 1]))
              && Capacity(cap, |out.value|) && |out.value| + 4096 <= cap
            else
              Open(log) && out == None && Capacity(cap, |Concat(log)|)
    ensures out.Some? && bio.faithful ==> out.value == old(bio.rest) && bio.rest == []
    ensures forall i :: 0 <= i < |log| ==> log[i].room >= 4096
    ensures forall i :: 0 <= i < |log| - (if cap <= limit then 1 else 0) ==> log[i].ok && log[i].chunk != []
    ensures cap <= limit ==> log != [] && (!log[|log| - 1].ok || log[|log| - 1].chunk == [])
    ensures exists k: nat :: cap == 4096 * Pow2(k)
    ensures out.Some? ==> cap == 4096 || cap < 2 * |out.value| + 8192
    ensures out.None? ==> cap == 4096 || cap < 2 * |Concat(log)| + 8192
  {
    hide Session, Complete, Open, Concat, Capacity;
    out, log, cap := ReadAll(bio, limit);
    LogMeans(log, cap, if out.Some? then |out.value| else |Concat(log)|);
  }

  /** The loop. */
  method ReadAll(bio: CoreBio, limit: nat) returns (out: Option<Bytes>, ghost log: seq<Read>, ghost cap: nat)
    modifies bio
    ensures bio.log == old(bio.log) + log
    ensures if cap <= limit then
              && Complete(log) && out == Some(Concat(log[..|log| - 1]))
              && Capacity(cap, |out.value|) && |out.value| + 4096 <= cap
            else
              Open(log) && out == None && Capacity(cap, |Concat(log)|)
    ensures out.Some? && bio.faithful ==> out.value == old(bio.rest) && bio.rest == []
  {
    hide Session, Complete, Open, Concat, Capacity;
    ghost var before, stream := bio.log, bio.rest;
    Start();
    log := [];
    var capacity: nat, n: nat := 4096, 0;
    cap := capacity;
    if capacity > limit { return None, log, cap; }
    var buf := new Byte[capacity];
    while true
      invariant fresh(buf) && buf.Length == capacity == cap <= limit && n <= capacity
      invariant Capacity(capacity, n)
      invariant bio.log == before + log && Open(log)
      invariant n == |Concat(log)| && buf[..n] == Concat(log)
      invariant Concat(log) + bio.rest == stream
      decreases |bio.rest|
    {
      if n + 4096 > capacity {
        CapacityDoubles(capacity, n);
        capacity := capacity * 2;
        cap := capacity;
        if capacity > limit { return None, log, cap; }
        buf := Grow(buf, n, capacity);
      }
      ghost var last;
      var ok, r;
      ok, r, last := ReadChunk(bio, buf, n, before, log);
      log := log + [last];
      if !ok || r == 0 {
        assert log[..|log| - 1] + [last] == log;
        break;
      }
      CapacityGrows(capacity, n, n + r);
      n := n + r;
    }
    out := Some(buf[..n]);
  }

  lemma LogMeans(log: seq<Read>, cap: nat, n: nat)
    ensures Complete(log) || Open(log) ==> forall i :: 0 <= i < |log| ==> log[i].room >= 4096
    ensures Open(log) ==> forall i :: 0 <= i < |log| ==> log[i].ok && log[i].chunk != []
    ensures Complete(log) ==>
      && (forall i :: 0 <= i < |log| - 1 ==> log[i].ok && log[i].chunk != [])
      && log != [] && (!log[|log| - 1].ok || log[|log| - 1].chunk == [])
    ensures Capacity(cap, n) ==> (exists k: nat :: cap == 4096 * Pow2(k)) && (cap == 4096 || cap < 2 * n + 8192)
  {
  }

  /** The chunks of a log one after the other. */
  lemma {:induction false} ConcatLaws(a: seq<Read>, b: seq<Read>)
    ensures Concat(a + b) == Concat(a) + Concat(b)
  {
    hide Concat;
    if b == [] {
      ConcatNothing();
      assert a + b == a && Concat(a) + [] == Concat(a);
    } else {
      var init, last := b[..|b| - 1], b[|b| - 1];
      ConcatLaws(a, init);
      assert a + b == (a + init) + [last] && b == init + [last];
      ConcatLast(a + init, last);
      ConcatLast(init, last);
      assert Concat(a) + (Concat(init) + last.chunk) == Concat(a) + Concat(init) + last.chunk;
    }
  }

  lemma ConcatNothing()
    ensures Concat([]) == []
  {
  }

  lemma ConcatLast(log: seq<Read>, last: Read)
    ensures Concat(log + [last]) == Concat(log) + last.chunk
    ensures Concat([last]) == last.chunk
  {
    assert (log + [last])[..|log|] == log;
    assert [last][..0] == [] && [] + last.chunk == last.chunk;
  }

  /** One upcall of a drain that has read `log`. */
  method ReadChunk(bio: CoreBio, buf: array<Byte>, n: nat, ghost before: seq<Read>, ghost log: seq<Read>)
    returns (ok: bool, r: nat, ghost last: Read)
    requires n + 4096 <= buf.Length && bio.log == before + log && Open(log)
    requires n == |Concat(log)| && buf[..n] == Concat(log)
    modifies bio, buf
    ensures bio.log == before + (log + [last]) && n + r <= buf.Length
    ensures buf[..n] == Concat(log) && buf[..n + r] == Concat(log + [last])
    ensures Concat(log + [last]) + bio.rest == Concat(log) + old(bio.rest)
    ensures |bio.rest| == |old(bio.rest)| - r && |Concat(log + [last])| == n + r
    ensures if !ok || r == 0 then Complete(log + [last]) else Open(log + [last])
    ensures (!ok || r == 0) && bio.faithful ==> old(bio.rest) == []
  {
    hide Session, Complete, Open, Concat;
    ghost var left := bio.rest;
    ok, r := bio.ReadEx(buf, n, buf.Length - n);
    last := Read(buf.Length - n, ok, left[..r]);
    Extend(log, last);
    assert buf[..n] == buf[..n + r][..n];
    assert left == last.chunk + bio.rest;
  }

  lemma Start()
    ensures Open([]) && Concat([]) == [] && Capacity(4096, 0)
  {
    assert 4096 == 4096 * Pow2(0);
  }

  lemma CapacityGrows(cap: nat, n: nat, m: nat)
    requires Capacity(cap, n) && n <= m
    ensures Capacity(cap, m)
  {
  }

  method Grow(buf: array<Byte>, n: nat, capacity: nat) returns (grown: array<Byte>)
    requires n <= buf.Length && n <= capacity
    ensures fresh(grown) && grown.Length == capacity && grown[..n] == buf[..n]
  {
    grown := new Byte[capacity];
    forall i | 0 <= i < n { grown[i] := buf[i]; }
  }
}
