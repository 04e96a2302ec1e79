/** The memory-BIO endpoints: TLS engines that exchange bytes with their caller through two queues, and a caller that
    pumps bytes between a client and a server. */
module MemBio {
  import opened Memory

  const INT_MAX := 0x7fff_ffff

  /** The values of a 32-bit word. */
  const WORD := 0x1_0000_0000

  lemma PendingCount(n: nat)
    ensures n % WORD <= n && (n - n % WORD) % WORD == 0
    ensures n < WORD ==> n % WORD == n
  {
    var q := n / WORD;
    assert n - n % WORD == WORD * q;
    assert (WORD * q) % WORD == 0;
  }

  datatype HandshakeResult = Done | WouldBlock | HandshakeFailed

  /** mem_bio_client_rep and mem_bio_server_rep, whose pumping methods are the same. */
  class Endpoint {
    /** Bytes for the engine to read. */
    var inBio: Bytes
    /** Bytes the engine has written. */
    var outBio: Bytes
    var handshakeDone: bool
    /** Everything the engine ever wrote and read. */
    ghost var emitted: Bytes
    ghost var consumed: Bytes

    constructor ()
      ensures inBio == outBio == emitted == consumed == [] && !handshakeDone
    {
      inBio, outBio, handshakeDone := [], [], false;
      emitted, consumed := [], [];
    }

    /** Any call into the engine: it reads `n` bytes of its input and writes `bytes`. */
    method Engine(n: nat, bytes: Bytes)
      requires n <= |inBio|
      modifies this`inBio, this`outBio, this`emitted, this`consumed
      ensures inBio == old(inBio)[n..] && consumed == old(consumed) + old(inBio)[..n]
      ensures outBio == old(outBio) + bytes && emitted == old(emitted) + bytes
    {
      consumed := consumed + inBio[..n];
      inBio := inBio[n..];
      outBio := outBio + bytes;
      emitted := emitted + bytes;
    }

    /** do-handshake, where SSL_do_handshake reports `ok` or whether it only wants more input or output. */
    method DoHandshake(n: nat, bytes: Bytes, ok: bool, wants: bool) returns (r: HandshakeResult)
      requires n <= |inBio|
      modifies this
      ensures inBio == old(inBio)[n..] && consumed == old(consumed) + old(inBio)[..n]
      ensures outBio == old(outBio) + bytes && emitted == old(emitted) + bytes
      ensures handshakeDone == (old(handshakeDone) || ok)
      ensures r == if ok then Done else if wants then WouldBlock else HandshakeFailed
    {
      Engine(n, bytes);
      if ok {
        handshakeDone := true;
        return Done;
      }
      r := if wants then WouldBlock else HandshakeFailed;
    }

    /** bio-write; `written` is what BIO_write returns, which refuses lengths above INT_MAX as negative. */
    method BioWrite(data: Bytes, written: int) returns (n: nat)
      requires written <= if |data| <= INT_MAX then |data| else 0
      modifies this`inBio
      ensures n == if data == [] || written < 0 then 0 else written
      ensures n <= |data| && inBio == old(inBio) + data[..n]
    {
      if |data| == 0 {
        return 0;
      }
      n := if written < 0 then 0 else written;
      inBio := inBio + data[..n];
    }

    /** bio-read: at most `max` bytes from the front, and nothing at all if more than INT_MAX would be due. */
    method BioRead(max: nat) returns (data: Bytes)
      modifies this`outBio
      ensures data + outBio == old(outBio)
      ensures
        var due := if |old(outBio)| < max then |old(outBio)| else max;
        |data| == if due < 0x8000_0000 then due else 0
    {
      var pending := |outBio|;
      var take := if pending < max then pending else max;
      if take == 0 {
        return [];
      }
      var n := if take <= INT_MAX then take else 0;
      data := outBio[..n];
      outBio := outBio[n..];
    }

    /** bio-pending: a 32-bit number, the length of the queue exactly when that fits. */
    method BioPending() returns (n: nat)
      ensures n < WORD && n <= |outBio| && (|outBio| - n) % WORD == 0
      ensures n == |outBio| <==> |outBio| < WORD
      ensures (n == 0 <==> outBio == []) <==> outBio == [] || |outBio| % WORD != 0
    {
      n := |outBio| % WORD;
      PendingCount(|outBio|);
    }

    /** A read of the pending number empties the queue exactly when its length is within the C int range. */
    method ReadPending() returns (data: Bytes)
      modifies this`outBio
      ensures data + outBio == old(outBio)
      ensures outBio == [] <==> |old(outBio)| <= INT_MAX
      ensures INT_MAX < |old(outBio)| < WORD ==> data == []
    {
      var n := BioPending();
      data := BioRead(n);
      assert |data| + |outBio| == |old(outBio)|;
    }
  }

  /** What the pump may do: let an engine run, take bytes from an endpoint, or offer bytes it holds to one.
      `client` names the endpoint concerned. */
  datatype Op =
    | Engine(client: bool, n: nat, bytes: Bytes)
    | Handshake(client: bool, n: nat, bytes: Bytes, ok: bool, wants: bool)
    | Take(client: bool, max: nat)
    | Offer(client: bool, k: nat, written: int)
  {
    /** The engine of the given side runs. */
    predicate Runs(side: bool) {
      (Engine? || Handshake?) && client == side
    }

    predicate Finishes(side: bool) {
      Handshake? && client == side && ok
    }
  }

  /** One direction of the channel: what the sender wrote, its queue, the bytes in the hands of the pump, the
      receiver's queue, and what the receiver read. */
  datatype Direction = Direction(emitted: Bytes, outBio: Bytes, held: Bytes, inBio: Bytes, consumed: Bytes) {

    /** Emitted is consumed, then queued at the receiver, then in hand, then queued at the sender. */
    predicate Conserved() {
      emitted == consumed + inBio + held + outBio
    }

    function Write(bytes: Bytes): Direction {
      this.(emitted := emitted + bytes, outBio := outBio + bytes)
    }

    function Read(n: nat): Direction
      requires n <= |inBio|
    {
      this.(consumed := consumed + inBio[..n], inBio := inBio[n..])
    }

    function Take(max: nat): Direction {
      var n := Due(|outBio|, max);
      this.(held := held + outBio[..n], outBio := outBio[n..])
    }

    function Deliver(n: nat): Direction
      requires n <= |held|
    {
      this.(inBio := inBio + held[..n], held := held[n..])
    }
  }

  /** How many of the pending bytes a read of at most `max` returns. */
  function Due(pending: nat, max: nat): (n: nat)
    ensures n <= pending && n <= max
  {
    var take := if pending < max then pending else max;
    if take <= INT_MAX then take else 0
  }

  /** How many of `k` offered bytes a write accepts, where BIO_write returns `written`. */
  function Accepted(k: nat, written: int): (n: nat) {
    if k == 0 || written < 0 then 0 else written
  }

  datatype State = State(toServer: Direction, toClient: Direction, clientDone: bool, serverDone: bool) {

    /** What the calls of the interface can do from here. */
    predicate Allows(op: Op) {
      match op
      case Engine(c, n, _) => n <= |(if c then toClient else toServer).inBio|
      case Handshake(c, n, _, _, _) => n <= |(if c then toClient else toServer).inBio|
      case Take(_, _) => true
      case Offer(c, k, written) =>
        k <= |(if c then toClient else toServer).held| && written <= if k <= INT_MAX then k else 0
    }

    function Next(op: Op): State
      requires Allows(op)
    {
      match op
      case Engine(c, n, bytes) =>
        if c then this.(toServer := toServer.Write(bytes), toClient := toClient.Read(n))
        else this.(toClient := toClient.Write(bytes), toServer := toServer.Read(n))
      case Handshake(c, n, bytes, ok, _) =>
        if c then this.(toServer := toServer.Write(bytes), toClient := toClient.Read(n), clientDone := clientDone || ok)
        else this.(toClient := toClient.Write(bytes), toServer := toServer.Read(n), serverDone := serverDone || ok)
      case Take(c, max) =>
        if c then this.(toServer := toServer.Take(max)) else this.(toClient := toClient.Take(max))
      case Offer(c, k, written) =>
        if c then this.(toClient := toClient.Deliver(Accepted(k, written)))
        else this.(toServer := toServer.Deliver(Accepted(k, written)))
    }

    predicate Conserved() {
      toServer.Conserved() && toClient.Conserved()
    }
  }

  /** A call is ruled out only when an engine would read, or the pump offer, more than there is, or when a write would
      report more than it was offered. */
  lemma AllowedCalls(s: State, n: nat, k: nat, written: int, bytes: Bytes, ok: bool, wants: bool)
    ensures s.Allows(Engine(true, n, bytes)) == s.Allows(Handshake(true, n, bytes, ok, wants))
         == (n <= |s.toClient.inBio|)
    ensures s.Allows(Engine(false, n, bytes)) == s.Allows(Handshake(false, n, bytes, ok, wants))
         == (n <= |s.toServer.inBio|)
    ensures forall c, max :: s.Allows(Take(c, max))
    ensures s.Allows(Offer(true, k, written)) <==>
      k <= |s.toClient.held| && (written <= 0 || (written <= k && k <= INT_MAX))
    ensures s.Allows(Offer(false, k, written)) <==>
      k <= |s.toServer.held| && (written <= 0 || (written <= k && k <= INT_MAX))
  {
  }

  const START := var d := Direction([], [], [], [], []); State(d, d, false, false)

  /** Each of the four moves of a direction keeps the order of its bytes. */
  lemma MovesConserve(d: Direction, bytes: Bytes, n: nat, max: nat)
    requires d.Conserved()
    ensures d.Write(bytes).Conserved() && d.Take(max).Conserved()
    ensures n <= |d.inBio| ==> d.Read(n).Conserved()
    ensures n <= |d.held| ==> d.Deliver(n).Conserved()
  {
    var m := Due(|d.outBio|, max);
    assert d.outBio[..m] + d.outBio[m..] == d.outBio;
    assert d.consumed + d.inBio + (d.held + d.outBio[..m]) + d.outBio[m..]
        == d.consumed + d.inBio + d.held + (d.outBio[..m] + d.outBio[m..]);
    if n <= |d.inBio| {
      assert d.consumed + d.inBio[..n] + d.inBio[n..] == d.consumed + d.inBio;
    }
    if n <= |d.held| {
      assert d.consumed + (d.inBio + d.held[..n]) + d.held[n..] == d.consumed + d.inBio + d.held;
    }
  }

  lemma NextConserves(s: State, op: Op)
    requires s.Conserved() && s.Allows(op)
    ensures s.Next(op).Conserved()
  {
    var n := match op case Engine(_, n, _) => n case Handshake(_, n, _, _, _) => n case Take(_, _) => 0
             case Offer(_, k, written) => Accepted(k, written);
    var max := if op.Take? then op.max else 0;
    var bytes := if op.Runs(op.client) then op.bytes else [];
    MovesConserve(s.toServer, bytes, n, max);
    MovesConserve(s.toClient, bytes, n, max);
    hide Direction.Conserved, Direction.Write, Direction.Read, Direction.Take, Direction.Deliver;
  }

  // ---- runs ----

  /** The state after the calls of `ops` that the state at their turn allows. */
  function After(s: State, ops: seq<Op>): State {
    if ops == [] then s
    else
      var t := After(s, ops[..|ops| - 1]);
      if t.Allows(ops[|ops| - 1]) then t.Next(ops[|ops| - 1]) else t
  }

  /** Those calls. */
  function Performed(s: State, ops: seq<Op>): seq<Op> {
    if ops == [] then []
    else
      var op, t := ops[|ops| - 1], After(s, ops[..|ops| - 1]);
      Performed(s, ops[..|ops| - 1]) + if t.Allows(op) then [op] else []
  }

  /** Everything the engine of one side wrote in `done`. */
  function Written(done: seq<Op>, side: bool): Bytes {
    if done == [] then []
    else
      var op := done[|done| - 1];
      Written(done[..|done| - 1], side) + if op.Runs(side) then op.bytes else []
  }

  /** How many bytes it read. */
  function Consumed(done: seq<Op>, side: bool): nat {
    if done == [] then 0
    else
      var op := done[|done| - 1];
      Consumed(done[..|done| - 1], side) + if op.Runs(side) then op.n else 0
  }

  function Finished(done: seq<Op>, side: bool): bool {
    exists i :: 0 <= i < |done| && done[i].Finishes(side)
  }

  /** The state is what the calls of `done` make it: nothing is lost, duplicated or reordered, what a side
      emitted is what its engine wrote, the other side has consumed as much of it as its engine read, and the
      handshake flag of a side is set exactly when one of its handshakes has succeeded. */
  predicate Tracks(s: State, done: seq<Op>) {
    && s.Conserved()
    && s.toServer.emitted == Written(done, true) && s.toClient.emitted == Written(done, false)
    && |s.toServer.consumed| == Consumed(done, false) && |s.toClient.consumed| == Consumed(done, true)
    && s.clientDone == Finished(done, true) && s.serverDone == Finished(done, false)
  }

  lemma TracksNext(s: State, done: seq<Op>, op: Op)
    requires Tracks(s, done) && s.Allows(op)
    ensures Tracks(s.Next(op), done + [op])
  {
    hide State.Conserved, State.Allows, State.Next, Written, Consumed, Finished;
    NextConserves(s, op);
    NextHistories(s, op);
    PerformedOne(done, op);
  }

  lemma NextHistories(s: State, op: Op)
    requires s.Allows(op)
    ensures s.Next(op).toServer.emitted == s.toServer.emitted + if op.Runs(true) then op.bytes else []
    ensures s.Next(op).toClient.emitted == s.toClient.emitted + if op.Runs(false) then op.bytes else []
    ensures |s.Next(op).toServer.consumed| == |s.toServer.consumed| + if op.Runs(false) then op.n else 0
    ensures |s.Next(op).toClient.consumed| == |s.toClient.consumed| + if op.Runs(true) then op.n else 0
    ensures s.Next(op).clientDone == (s.clientDone || op.Finishes(true))
    ensures s.Next(op).serverDone == (s.serverDone || op.Finishes(false))
  {
  }

  lemma {:induction false} RunTracks(ops: seq<Op>)
    ensures Tracks(After(START, ops), Performed(START, ops))
  {
    hide Tracks;
    if ops == [] {
      NothingDone();
    } else {
      var n := |ops| - 1;
      RunTracks(ops[..n]);
      var t := After(START, ops[..n]);
      if t.Allows(ops[n]) {
        TracksNext(t, Performed(START, ops[..n]), ops[n]);
      } else {
        assert Performed(START, ops) == Performed(START, ops[..n]);
      }
    }
  }

  lemma NothingDone()
    ensures Tracks(START, [])
  {
  }

  lemma PerformedOne(before: seq<Op>, op: Op)
    ensures Written(before + [op], true) == Written(before, true) + if op.Runs(true) then op.bytes else []
    ensures Written(before + [op], false) == Written(before, false) + if op.Runs(false) then op.bytes else []
    ensures Consumed(before + [op], true) == Consumed(before, true) + if op.Runs(true) then op.n else 0
    ensures Consumed(before + [op], false) == Consumed(before, false) + if op.Runs(false) then op.n else 0
    ensures forall side :: Finished(before + [op], side) <==> Finished(before, side) || op.Finishes(side)
  {
    assert (before + [op])[..|before|] == before;
    forall side ensures Finished(before + [op], side) <==> Finished(before, side) || op.Finishes(side) {
      assert (before + [op])[|before|] == op;
      if i :| 0 <= i < |before| && before[i].Finishes(side) {
        assert (before + [op])[i].Finishes(side);
      }
    }
  }

  /** The queues and the pump are empty exactly when the receiver has consumed all that the sender emitted. */
  lemma Drained(d: Direction)
    requires d.Conserved()
    ensures d.consumed <= d.emitted
    ensures d.outBio == d.held == d.inBio == [] <==> d.consumed == d.emitted
  {
    assert |d.emitted| == |d.consumed| + |d.inBio| + |d.held| + |d.outBio|;
    assert d.emitted[..|d.consumed|] == d.consumed;
  }

  /** From every state a run can reach, those three calls are allowed and leave nothing undelivered in the direction
      they concern. */
  lemma FlushDelivers(ops: seq<Op>, c: bool, max: nat, bytes: Bytes)
    requires Deliverable(After(START, ops), c, max)
    ensures var s := After(START, ops);
            var flush := FlushOps(s, c, max, bytes);
            var e := if c then After(s, flush).toClient else After(s, flush).toServer;
            && Performed(s, flush) == flush
            && e.consumed == e.emitted == Written(Performed(START, ops), !c)
  {
    RunTracks(ops);
    var s := After(START, ops);
    FlushSteps(s, c, max, bytes);
    hide Deliverable, FlushOps, Written, State.Allows, State.Next;
    var flush := FlushOps(s, c, max, bytes);
    AfterThree(s, flush[0], flush[1], flush[2]);
  }

  /** The queue and the bytes in hand towards `c` can be moved at once. */
  predicate Deliverable(s: State, c: bool, max: nat) {
    var d := if c then s.toClient else s.toServer;
    |d.outBio| <= max && |d.held| + |d.outBio| <= INT_MAX
  }

  function FlushOps(s: State, c: bool, max: nat, bytes: Bytes): (flush: seq<Op>)
    ensures |flush| == 3
  {
    var d := if c then s.toClient else s.toServer;
    var k := |d.held| + |d.outBio|;
    [Take(!c, max), Offer(c, k, k), Engine(c, |d.inBio| + k, bytes)]
  }

  lemma FlushSteps(s: State, c: bool, max: nat, bytes: Bytes)
    requires s.Conserved() && Deliverable(s, c, max)
    ensures var flush := FlushOps(s, c, max, bytes);
            && s.Allows(flush[0]) && s.Next(flush[0]).Allows(flush[1])
            && s.Next(flush[0]).Next(flush[1]).Allows(flush[2])
            && var t := s.Next(flush[0]).Next(flush[1]).Next(flush[2]);
               var d, e := if c then s.toClient else s.toServer, if c then t.toClient else t.toServer;
               && t.Conserved() && e.consumed == e.emitted == d.emitted
               && e.inBio == e.held == e.outBio == []
  {
    var flush := FlushOps(s, c, max, bytes);
    NextConserves(s, flush[0]);
    NextConserves(s.Next(flush[0]), flush[1]);
    NextConserves(s.Next(flush[0]).Next(flush[1]), flush[2]);
    var t := s.Next(flush[0]).Next(flush[1]).Next(flush[2]);
    Drained(if c then t.toClient else t.toServer);
    hide State.Conserved;
  }

  lemma TakenAll(s: State, c: bool, max: nat)
    requires Deliverable(s, c, max)
    ensures var d, e := if c then s.toClient else s.toServer,
                        if c then s.Next(Take(!c, max)).toClient else s.Next(Take(!c, max)).toServer;
            |e.held| == |d.held| + |d.outBio| && e.inBio == d.inBio
  {
  }

  lemma OfferedAll(s: State, c: bool, max: nat, bytes: Bytes)
    requires Deliverable(s, c, max)
    ensures var flush := FlushOps(s, c, max, bytes);
            && s.Allows(flush[0]) && s.Next(flush[0]).Allows(flush[1])
            && var t := s.Next(flush[0]).Next(flush[1]);
               |(if c then t.toClient else t.toServer).inBio| == flush[2].n
  {
    TakenAll(s, c, max);
  }

  lemma AfterThree(s: State, a: Op, b: Op, c: Op)
    requires s.Allows(a) && s.Next(a).Allows(b) && s.Next(a).Next(b).Allows(c)
    ensures After(s, [a, b, c]) == s.Next(a).Next(b).Next(c) && Performed(s, [a, b, c]) == [a, b, c]
  {
    hide State.Allows, State.Next;
    assert [a, b, c][..2] == [a, b] && [a, b][..1] == [a] && [a][..0] == [];
    assert After(s, []) == s && After(s, [a]) == s.Next(a) && After(s, [a, b]) == s.Next(a).Next(b);
    assert Performed(s, [a]) == [a] && Performed(s, [a, b]) == [a, b];
  }

  /** Two endpoints, and the bytes the pump has taken from each but not yet delivered to the other. */
  class Link {
    const client: Endpoint
    const server: Endpoint
    var toServer: Bytes
    var toClient: Bytes

    ghost function Current(): State
      reads this, client, server
    {
      State(Direction(client.emitted, client.outBio, toServer, server.inBio, server.consumed),
            Direction(server.emitted, server.outBio, toClient, client.inBio, client.consumed),
            client.handshakeDone, server.handshakeDone)
    }

    constructor ()
      ensures client != server && fresh(client) && fresh(server)
      ensures Current() == START
    {
      client := new Endpoint();
      server := new Endpoint();
      toServer, toClient := [], [];
    }

    predicate Enabled(op: Op)
      reads this, client, server
      ensures Enabled(op) == Current().Allows(op)
    {
      match op
      case Engine(c, n, _) => n <= |(if c then client else server).inBio|
      case Handshake(c, n, _, _, _) => n <= |(if c then client else server).inBio|
      case Take(_, _) => true
      case Offer(c, k, written) =>
        && k <= |if c then toClient else toServer|
        && written <= if k <= INT_MAX then k else 0
    }

    method EngineStep(c: bool, n: nat, bytes: Bytes)
      requires client != server && Enabled(Engine(c, n, bytes))
      modifies client`inBio, client`outBio, client`emitted, client`consumed
      modifies server`inBio, server`outBio, server`emitted, server`consumed
      ensures Current() == old(Current()).Next(Engine(c, n, bytes))
      ensures c ==>
        && client.inBio == old(client.inBio)[n..] && client.consumed == old(client.consumed) + old(client.inBio)[..n]
        && client.outBio == old(client.outBio) + bytes && client.emitted == old(client.emitted) + bytes
      ensures !c ==>
        && server.inBio == old(server.inBio)[n..] && server.consumed == old(server.consumed) + old(server.inBio)[..n]
        && server.outBio == old(server.outBio) + bytes && server.emitted == old(server.emitted) + bytes
      ensures c ==> unchanged(server)
      ensures !c ==> unchanged(client)
    {
      if c {
        client.Engine(n, bytes);
      } else {
        server.Engine(n, bytes);
      }
    }

    method HandshakeStep(c: bool, n: nat, bytes: Bytes, ok: bool, wants: bool)
      requires client != server && Enabled(Handshake(c, n, bytes, ok, wants))
      modifies client, server
      ensures Current() == old(Current()).Next(Handshake(c, n, bytes, ok, wants))
      ensures c ==>
        && client.inBio == old(client.inBio)[n..] && client.consumed == old(client.consumed) + old(client.inBio)[..n]
        && client.outBio == old(client.outBio) + bytes && client.emitted == old(client.emitted) + bytes
        && client.handshakeDone == (ok || old(client.handshakeDone))
      ensures !c ==>
        && server.inBio == old(server.inBio)[n..] && server.consumed == old(server.consumed) + old(server.inBio)[..n]
        && server.outBio == old(server.outBio) + bytes && server.emitted == old(server.emitted) + bytes
        && server.handshakeDone == (ok || old(server.handshakeDone))
      ensures c ==> unchanged(server)
      ensures !c ==> unchanged(client)
    {
      if c {
        var _ := client.DoHandshake(n, bytes, ok, wants);
      } else {
        var _ := server.DoHandshake(n, bytes, ok, wants);
      }
    }

    method TakeStep(c: bool, max: nat)
      requires client != server
      modifies this, client`outBio, server`outBio
      ensures Current() == old(Current()).Next(Take(c, max))
      ensures (
        var pending := if c then |old(client.outBio)| else |old(server.outBio)|;
        var least := if pending < max then pending else max;
        var n := if least <= INT_MAX then least else 0;
        if c then
          && client.outBio == old(client.outBio)[n..] && toServer == old(toServer) + old(client.outBio)[..n]
          && server.outBio == old(server.outBio) && toClient == old(toClient)
        else
          && server.outBio == old(server.outBio)[n..] && toClient == old(toClient) + old(server.outBio)[..n]
          && client.outBio == old(client.outBio) && toServer == old(toServer))
    {
      if c {
        var data := client.BioRead(max);
        toServer := toServer + data;
      } else {
        var data := server.BioRead(max);
        toClient := toClient + data;
      }
    }

    method OfferStep(c: bool, k: nat, written: int)
      requires client != server && Enabled(Offer(c, k, written))
      modifies this, client`inBio, server`inBio
      ensures Current() == old(Current()).Next(Offer(c, k, written))
      ensures (
        var n := if k == 0 || written < 0 then 0 else written;
        if c then
          && client.inBio == old(client.inBio) + old(toClient)[..n] && toClient == old(toClient)[n..]
          && server.inBio == old(server.inBio) && toServer == old(toServer)
        else
          && server.inBio == old(server.inBio) + old(toServer)[..n] && toServer == old(toServer)[n..]
          && client.inBio == old(client.inBio) && toClient == old(toClient))
    {
      if c {
        var n := client.BioWrite(toClient[..k], written);
        assert toClient[..k][..n] == toClient[..n];
        toClient := toClient[n..];
      } else {
        var n := server.BioWrite(toServer[..k], written);
        assert toServer[..k][..n] == toServer[..n];
        toServer := toServer[n..];
      }
    }

    method Step(op: Op)
      requires client != server && Enabled(op)
      modifies this, client, server
      ensures Current() == old(Current()).Next(op)
      ensures old(Current()).Conserved() ==> Current().Conserved()
    {
      if Current().Conserved() {
        NextConserves(Current(), op);
      }
      match op
      case Engine(c, n, bytes) => EngineStep(c, n, bytes);
      case Handshake(c, n, bytes, ok, wants) => HandshakeStep(c, n, bytes, ok, wants);
      case Take(c, max) => TakeStep(c, max);
      case Offer(c, k, written) => OfferStep(c, k, written);
    }

    /** A take of the whole queue, an offer accepted whole and an engine that reads all of its input deliver, to the
        side `c`, everything the other side has emitted. */
    method Flush(c: bool, max: nat, bytes: Bytes)
      requires client != server && Current().Conserved()
      requires c ==> |server.outBio| <= max && |toClient| + |server.outBio| <= INT_MAX
      requires !c ==> |client.outBio| <= max && |toServer| + |client.outBio| <= INT_MAX
      modifies this, client, server
      ensures Current().Conserved()
      ensures c ==>
        client.consumed == server.emitted == old(server.emitted) && client.inBio == toClient == server.outBio == []
      ensures !c ==>
        server.consumed == client.emitted == old(client.emitted) && server.inBio == toServer == client.outBio == []
    {
      hide State.Allows, State.Next, Direction.Conserved;
      ghost var flush := FlushOps(Current(), c, max, bytes);
      FlushSteps(Current(), c, max, bytes);
      Step(Take(!c, max));
      var k := if c then |toClient| else |toServer|;
      assert Offer(c, k, k) == flush[1] by { TakenAll(old(Current()), c, max); }
      Step(Offer(c, k, k));
      assert Engine(c, if c then |client.inBio| else |server.inBio|, bytes) == flush[2] by {
        OfferedAll(old(Current()), c, max, bytes);
      }
      Step(Engine(c, if c then |client.inBio| else |server.inBio|, bytes));
    }

    /** Every interleaving of engine steps and pumping of any sizes reaches the state of the calls performed. In
        both directions the bytes emitted are those the engine wrote, in order, and they are consumed, then queued
        at the receiver, then in hand, then queued at the sender. */
    method Run(ops: seq<Op>) returns (done: seq<Op>)
      requires client != server && Current() == START
      modifies this, client, server
      ensures Current() == After(START, ops) && done == Performed(START, ops)
      ensures Current().Conserved()
      ensures client.emitted == Written(done, true) && server.emitted == Written(done, false)
      ensures server.consumed <= client.emitted && |server.consumed| == Consumed(done, false)
      ensures client.consumed <= server.emitted && |client.consumed| == Consumed(done, true)
      ensures client.handshakeDone == Finished(done, true) && server.handshakeDone == Finished(done, false)
    {
      done := [];
      for i := 0 to |ops|
        invariant Current() == After(START, ops[..i]) && done == Performed(START, ops[..i])
      {
        assert ops[..i + 1][..i] == ops[..i];
        if Enabled(ops[i]) {
          Step(ops[i]);
          done := done + [ops[i]];
        }
      }
      assert ops[..|ops|] == ops;
      RunTracks(ops);
      Drained(Current().toServer);
      Drained(Current().toClient);
    }
  }
}
