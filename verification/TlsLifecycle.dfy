/** Acquisition and release of contexts, sessions, sockets, BIOs and buffers by the TLS resources. Every object has an
    identity that is never reused; releasing one requires it to be live, so nothing is released twice. */
module TlsLifecycle {
  import opened Wrappers

  type Id = nat

  datatype TlsError = ProtocolVersion | BadConfig | IoClosed | HandshakeFailed | Internal

  /** One address tried by connect_tcp or bind_tcp. */
  datatype Attempt = Attempt(socketOk: bool, openOk: bool)

  /** What the caller asks for and what the libraries answer. `alpn` is present when an offer is made, and true when
      every name of it fits its length byte; `logged` says that the handshake produced key-log lines. */
  datatype Request = Request(
    dtls: bool, alpn: Option<bool>, keylog: bool,
    ctxOk: bool, attempts: Option<seq<Attempt>>, acceptOk: bool, sslOk: bool, inBioOk: bool, outBioOk: bool,
    handshakeOk: bool, logged: bool)

  function Is(o: Option<Id>, id: Id): nat {
    if o == Some(id) then 1 else 0
  }

  /** The rep structures, with the fields a kind lacks left empty. `self` is the structure itself, `lines` the storage
      of its embedded key-log buffer and `keylog` whether its session logs into that buffer. Three fields own nothing:
      `log` is the object with the buffer that the session's ex-data points to, `select` the list that the selection
      callback of its context points to, and `listener` the position of the listener that accepted it. */
  datatype Rep = Rep(
    self: Option<Id>, ctx: Option<Id>, ssl: Option<Id>, fd: Option<Id>, inBio: Option<Id>, outBio: Option<Id>,
    alpn: Option<Id>, keylog: bool, lines: Option<Id>, log: Option<Id>, select: Option<Id>, listener: Option<nat>)
  {
    /** How many fields own the object. */
    function Count(id: Id): nat {
      Is(self, id) + Is(ctx, id) + Is(ssl, id) + Is(fd, id) + Is(inBio, id) + Is(outBio, id) + Is(alpn, id)
      + Is(lines, id)
    }

    /** A session that logs keys points to the buffer in its own rep. */
    predicate Logs() {
      keylog && ssl.Some? ==> self.Some? && log == self
    }

    function Shape(): Form {
      Form(self.Some?, ctx.Some?, ssl.Some?, fd.Some?, inBio.Some?, outBio.Some?, alpn.Some?, keylog,
           lines.Some?, select.Some?, listener)
    }
  }

  const NO_REP := Rep(None, None, None, None, None, None, None, false, None, None, None, None)

  /** A rep without the identities of its objects: which fields are filled. */
  datatype Form = Form(
    self: bool, ctx: bool, ssl: bool, fd: bool, inBio: bool, outBio: bool, alpn: bool, keylog: bool, lines: bool,
    select: bool, listener: Option<nat>)

  const NO_FORM := Form(false, false, false, false, false, false, false, false, false, false, None)

  function Shapes(reps: seq<Rep>): (forms: seq<Form>)
    ensures |forms| == |reps| && forall i | 0 <= i < |reps| :: forms[i] == reps[i].Shape()
  {
    seq(|reps|, i requires 0 <= i < |reps| => reps[i].Shape())
  }

  function In(live: set<Id>, id: Id): nat {
    if id in live then 1 else 0
  }

  /** The objects of `after` are those of `before` and, each in exactly one field, those of the rep. */
  ghost predicate Adds(before: set<Id>, rep: Rep, after: set<Id>) {
    forall id :: In(after, id) == In(before, id) + rep.Count(id)
  }

  /** Some address works. */
  predicate Reachable(attempts: Option<seq<Attempt>>) {
    attempts.Some? && exists a | a in attempts.value :: a.socketOk && a.openOk
  }

  /** What a constructor reports: the first thing that went wrong, or nothing. */
  function OpenFault(q: Request): Option<TlsError> {
    if q.dtls then Some(ProtocolVersion)
    else if !q.ctxOk then Some(BadConfig)
    else if !Reachable(q.attempts) then Some(IoClosed)
    else if !q.sslOk then Some(BadConfig)
    else None
  }

  function ConnectFault(q: Request): Option<TlsError> {
    if OpenFault(q).Some? then OpenFault(q) else if !q.handshakeOk then Some(HandshakeFailed) else None
  }

  function BindFault(q: Request): Option<TlsError> {
    if q.dtls then Some(ProtocolVersion)
    else if !q.ctxOk then Some(BadConfig)
    else if !Reachable(q.attempts) then Some(IoClosed)
    else None
  }

  function AcceptFault(q: Request): Option<TlsError> {
    if !q.acceptOk then Some(IoClosed)
    else if !q.sslOk then Some(Internal)
    else if !q.handshakeOk then Some(HandshakeFailed)
    else None
  }

  function MemBioFault(q: Request): Option<TlsError> {
    if q.dtls then Some(ProtocolVersion)
    else if !q.ctxOk || !q.sslOk || !q.inBioOk || !q.outBioOk then Some(BadConfig)
    else None
  }

  function ConnectForm(q: Request): Form {
    NO_FORM.(self := true, ctx := true, ssl := true, fd := true, keylog := q.keylog, lines := q.keylog && q.logged)
  }

  /** The protocol list is kept exactly when there is an offer that encodes. */
  function BindForm(q: Request): Form {
    NO_FORM.(self := true, ctx := true, fd := true, alpn := q.alpn == Some(true), keylog := q.keylog)
  }

  function AcceptForm(listener: Form, i: nat, q: Request): Form {
    NO_FORM.(self := true, ssl := true, fd := true, keylog := listener.keylog, lines := listener.keylog && q.logged,
             select := listener.alpn, listener := Some(i))
  }

  function MemBioForm(server: bool, q: Request): Form {
    var alpn := server && q.alpn == Some(true);
    NO_FORM.(self := true, ctx := true, ssl := true, inBio := true, outBio := true, alpn := alpn, keylog := q.keylog,
             select := alpn)
  }

  predicate Reports<T>(r: Result<T, TlsError>, fault: Option<TlsError>) {
    if fault.Some? then r == Err(fault.value) else r.Ok?
  }

  class Ledger {
    var live: set<Id>
    var next: Id

    ghost predicate Valid()
      reads this
    {
      forall id | id in live :: id < next
    }

    /** Nothing is live but what was, and objects made since. */
    ghost predicate Since(before: set<Id>, from: Id)
      reads this
    {
      from <= next && forall id | id in live :: id in before || id >= from
    }

    constructor ()
      ensures Valid() && live == {}
    {
      live, next := {}, 0;
    }

    method Acquire() returns (id: Id)
      requires Valid()
      modifies this
      ensures Valid() && id == old(next) && next == id + 1 && live == old(live) + {id}
    {
      id := next;
      next := next + 1;
      live := live + {id};
    }

    method Release(id: Id)
      requires Valid() && id in live
      modifies this`live
      ensures Valid() && live == old(live) - {id}
    {
      live := live - {id};
    }

    method ReleaseIf(o: Option<Id>)
      requires Valid() && (o.Some? ==> In(live, o.value) == 1)
      modifies this`live
      ensures Valid() && live == if o.Some? then old(live) - {o.value} else old(live)
      ensures forall id :: In(live, id) + Is(o, id) == In(old(live), id)
    {
      if o.Some? {
        Release(o.value);
      }
    }

    // ---- parts shared by the constructors ----

    /** connect_tcp and bind_tcp: the first address that works keeps its socket, every other socket is closed. */
    method OpenSocket(attempts: Option<seq<Attempt>>) returns (fd: Option<Id>)
      requires Valid()
      modifies this
      ensures Valid() && next >= old(next)
      ensures fd.Some? <==> Reachable(attempts)
      ensures fd.Some? <==> attempts.Some? && exists a | a in attempts.value :: a.socketOk && a.openOk
      ensures fd.None? ==> live == old(live)
      ensures fd.Some? ==> old(next) <= fd.value < next && live == old(live) + {fd.value}
    {
      if attempts.None? {
        return None;
      }
      for i := 0 to |attempts.value|
        invariant Valid() && live == old(live) && next >= old(next)
        invariant forall a | a in attempts.value[..i] :: !(a.socketOk && a.openOk)
      {
        var a := attempts.value[i];
        if a.socketOk {
          var s := Acquire();
          if a.openOk {
            return Some(s);
          }
          Release(s);
        }
        assert attempts.value[..i + 1] == attempts.value[..i] + [a];
      }
      assert attempts.value[..|attempts.value|] == attempts.value;
      fd := None;
    }

    /** The wire-format offer of a client, copied by the context and freed. */
    method OfferAlpn(alpn: Option<bool>)
      requires Valid()
      modifies this
      ensures Valid() && next >= old(next) && live == old(live)
    {
      if alpn == Some(true) {
        var wire := Acquire();
        Release(wire);
      }
    }

    /** The wire-format list of a server, replaced by a zero-terminated copy that is kept. */
    method KeepAlpn(alpn: Option<bool>) returns (kept: Option<Id>)
      requires Valid()
      modifies this
      ensures Valid() && next >= old(next) && (kept.Some? <==> alpn == Some(true))
      ensures kept.None? ==> live == old(live)
      ensures kept.Some? ==> old(next) <= kept.value < next && live == old(live) + {kept.value}
    {
      kept := None;
      if alpn == Some(true) {
        var wire := Acquire();
        var copy := Acquire();
        Release(wire);
        kept := Some(copy);
      }
    }

    /** The buffer a session logs into before its rep exists, and the storage its lines take. */
    method AttachKeylog(keylog: bool, logged: bool) returns (buffer: Option<Id>, lines: Option<Id>)
      requires Valid()
      modifies this
      ensures Valid() && next >= old(next)
      ensures (buffer.Some? <==> keylog) && (lines.Some? <==> keylog && logged)
      ensures buffer.None? ==> live == old(live)
      ensures buffer.Some? ==> old(next) <= buffer.value < next
      ensures buffer.Some? && lines.None? ==> live == old(live) + {buffer.value}
      ensures lines.Some? ==> buffer.value < lines.value < next && live == old(live) + {buffer.value, lines.value}
    {
      buffer, lines := None, None;
      if keylog {
        var b := Acquire();
        buffer := Some(b);
        if logged {
          var storage := Acquire();
          lines := Some(storage);
        }
      }
    }

    /** The buffer's own allocation goes; its lines, if any, have moved into the rep or go with it. */
    method DropBuffer(buffer: Option<Id>, lines: Option<Id>, moved: bool)
      requires Valid() && (buffer.Some? ==> buffer.value in live) && (lines.Some? ==> lines.value in live)
      requires lines.Some? ==> buffer.Some? && buffer != lines
      modifies this`live
      ensures Valid()
      ensures live == if buffer.None? then old(live)
                      else if lines.None? || moved then old(live) - {buffer.value}
                      else old(live) - {buffer.value, lines.value}
    {
      if buffer.Some? {
        if lines.Some? && !moved {
          Release(lines.value);
        }
        Release(buffer.value);
      }
    }

    /** The pointer in ex-data, which named the buffer of the handshake, is set to the one inside the rep. */
    method PointLog(buffer: Option<Id>, self: Id) returns (log: Option<Id>)
      requires Valid() && self in live
      ensures log == if buffer.Some? then Some(self) else None
    {
      log := buffer;
      if buffer.Some? {
        log := Some(self);
      }
    }

    // ---- client.connect ----

    method OpenSession(q: Request) returns (r: Result<(Id, Id, Id, Id), TlsError>)
      requires Valid()
      modifies this
      ensures Valid() && next >= old(next)
      ensures Reports(r, OpenFault(q))
      ensures r.Ok? <==> !q.dtls && q.ctxOk && Reachable(q.attempts) && q.sslOk
      ensures r.Err? ==> r.error == if q.dtls then ProtocolVersion
                                    else if q.ctxOk && !Reachable(q.attempts) then IoClosed
                                    else BadConfig
      ensures r.Err? ==> live == old(live)
      ensures r.Ok? ==>
        var (ctx, host, fd, ssl) := r.value;
        && old(next) <= ctx < host < fd < ssl < next
        && live == old(live) + {ctx, host, fd, ssl}
    {
      if q.dtls {
        return Err(ProtocolVersion);
      }
      if !q.ctxOk {
        return Err(BadConfig);
      }
      var ctx := Acquire();
      OfferAlpn(q.alpn);
      var host := Acquire();
      var fd := OpenSocket(q.attempts);
      if fd.None? {
        Release(ctx);
        Release(host);
        return Err(IoClosed);
      }
      if !q.sslOk {
        Release(fd.value);
        Release(ctx);
        Release(host);
        return Err(BadConfig);
      }
      var ssl := Acquire();
      r := Ok((ctx, host, fd.value, ssl));
    }

    method Connect(q: Request) returns (r: Result<Rep, TlsError>)
      requires Valid()
      modifies this
      ensures Valid() && Since(old(live), old(next))
      ensures Reports(r, ConnectFault(q))
      ensures r.Err? ==> live == old(live)
      ensures r.Ok? ==> Adds(old(live), r.value, live)
      ensures r.Ok? ==> r.value.Shape() == ConnectForm(q)
      ensures r.Ok? ==>
        && r.value.self.Some? && r.value.ctx.Some? && r.value.ssl.Some? && r.value.fd.Some?
        && r.value.inBio.None? && r.value.outBio.None? && r.value.alpn.None? && r.value.select.None?
        && r.value.keylog == q.keylog && (r.value.lines.Some? <==> q.keylog && q.logged)
      ensures r.Ok? <==> !q.dtls && q.ctxOk && Reachable(q.attempts) && q.sslOk && q.handshakeOk
      ensures r == Err(ProtocolVersion) <==> q.dtls
      ensures r == Err(BadConfig) <==> !q.dtls && (!q.ctxOk || (Reachable(q.attempts) && !q.sslOk))
      ensures r == Err(IoClosed) <==> !q.dtls && q.ctxOk && !Reachable(q.attempts)
      ensures r == Err(HandshakeFailed) <==>
        !q.dtls && q.ctxOk && Reachable(q.attempts) && q.sslOk && !q.handshakeOk
      ensures r.Ok? ==> r.value.Logs()
    {
      hide OpenFault, Reachable;
      var session := OpenSession(q);
      if session.Err? {
        return Err(session.error);
      }
      var (ctx, host, fd, ssl) := session.value;
      var buffer, lines := AttachKeylog(q.keylog, q.logged);
      if !q.handshakeOk {
        DropBuffer(buffer, lines, false);
        Release(ssl);
        Release(fd);
        Release(ctx);
        Release(host);
        return Err(HandshakeFailed);
      }
      Release(host);
      var self := Acquire();
      DropBuffer(buffer, lines, true);
      var log := PointLog(buffer, self);
      r := Ok(NO_REP.(self := Some(self), ctx := Some(ctx), ssl := Some(ssl), fd := Some(fd), keylog := q.keylog,
                      lines := lines, log := log));
    }

    // ---- server-listener.bind and accept ----

    method Bind(q: Request) returns (r: Result<Rep, TlsError>)
      requires Valid()
      modifies this
      ensures Valid() && Since(old(live), old(next))
      ensures Reports(r, BindFault(q))
      ensures r.Err? ==> live == old(live)
      ensures r.Ok? ==> Adds(old(live), r.value, live)
      ensures r.Ok? ==> r.value.Shape() == BindForm(q)
      ensures r.Ok? ==>
        && r.value.self.Some? && r.value.ctx.Some? && r.value.ssl.None? && r.value.fd.Some?
        && r.value.inBio.None? && r.value.outBio.None? && r.value.lines.None? && r.value.select.None?
        && r.value.keylog == q.keylog && (r.value.alpn.Some? <==> q.alpn == Some(true))
      ensures r.Ok? <==> !q.dtls && q.ctxOk && Reachable(q.attempts)
      ensures r == Err(ProtocolVersion) <==> q.dtls
      ensures r == Err(BadConfig) <==> !q.dtls && !q.ctxOk
      ensures r == Err(IoClosed) <==> !q.dtls && q.ctxOk && !Reachable(q.attempts)
      ensures r.Ok? ==> r.value.Logs()
    {
      if q.dtls {
        return Err(ProtocolVersion);
      }
      if !q.ctxOk {
        return Err(BadConfig);
      }
      var ctx := Acquire();
      var host := Acquire();
      var fd := OpenSocket(q.attempts);
      Release(host);
      if fd.None? {
        Release(ctx);
        return Err(IoClosed);
      }
      var self := Acquire();
      var alpn := KeepAlpn(q.alpn);
      r := Ok(NO_REP.(self := Some(self), ctx := Some(ctx), fd := fd, alpn := alpn, keylog := q.keylog));
    }

    /** A connection accepted by the listener at position `i`; it logs keys if the listener was told to. */
    method Accept(listener: Rep, i: nat, q: Request) returns (r: Result<Rep, TlsError>)
      requires Valid()
      modifies this
      ensures Valid() && Since(old(live), old(next))
      ensures Reports(r, AcceptFault(q))
      ensures r.Err? ==> live == old(live)
      ensures r.Ok? ==> Adds(old(live), r.value, live)
      ensures r.Ok? ==> r.value.Shape() == AcceptForm(listener.Shape(), i, q) && r.value.select == listener.alpn
      ensures r.Ok? ==>
        && r.value.self.Some? && r.value.ctx.None? && r.value.ssl.Some? && r.value.fd.Some?
        && r.value.inBio.None? && r.value.outBio.None? && r.value.alpn.None? && r.value.listener == Some(i)
        && r.value.keylog == listener.keylog && (r.value.lines.Some? <==> listener.keylog && q.logged)
      ensures r.Ok? <==> q.acceptOk && q.sslOk && q.handshakeOk
      ensures r == Err(IoClosed) <==> !q.acceptOk
      ensures r == Err(Internal) <==> q.acceptOk && !q.sslOk
      ensures r == Err(HandshakeFailed) <==> q.acceptOk && q.sslOk && !q.handshakeOk
      ensures r.Ok? ==> r.value.Logs()
    {
      if !q.acceptOk {
        return Err(IoClosed);
      }
      var fd := Acquire();
      if !q.sslOk {
        Release(fd);
        return Err(Internal);
      }
      var ssl := Acquire();
      var buffer, lines := AttachKeylog(listener.keylog, q.logged);
      if !q.handshakeOk {
        DropBuffer(buffer, lines, false);
        Release(ssl);
        Release(fd);
        return Err(HandshakeFailed);
      }
      var self := Acquire();
      DropBuffer(buffer, lines, true);
      var log := PointLog(buffer, self);
      r := Ok(NO_REP.(self := Some(self), ssl := Some(ssl), fd := Some(fd), keylog := listener.keylog, lines := lines,
                      log := log, select := listener.alpn, listener := Some(i)));
    }

    // ---- mem-bio-client.new and mem-bio-server.new ----

    /** The two queues of a session, or none if either cannot be made. */
    method NewBios(q: Request) returns (bios: Option<(Id, Id)>)
      requires Valid()
      modifies this
      ensures Valid() && next >= old(next)
      ensures bios.Some? <==> q.inBioOk && q.outBioOk
      ensures bios.None? ==> live == old(live)
      ensures bios.Some? ==> old(next) <= bios.value.0 < bios.value.1 < next
      ensures bios.Some? ==> live == old(live) + {bios.value.0, bios.value.1}
    {
      var i, o := None, None;
      if q.inBioOk {
        var b := Acquire();
        i := Some(b);
      }
      if q.outBioOk {
        var b := Acquire();
        o := Some(b);
      }
      if i.None? || o.None? {
        ReleaseIf(i);
        ReleaseIf(o);
        return None;
      }
      bios := Some((i.value, o.value));
    }

    /** The context, the protocol list a server keeps (a client only offers one), and the session. */
    method OpenMemSession(server: bool, q: Request) returns (r: Result<(Id, Option<Id>, Id), TlsError>)
      requires Valid()
      modifies this
      ensures Valid() && next >= old(next)
      ensures Reports(r, if q.dtls then Some(ProtocolVersion) else if q.ctxOk && q.sslOk then None else Some(BadConfig))
      ensures r.Err? ==> live == old(live)
      ensures r.Ok? ==>
        var (ctx, alpn, ssl) := r.value;
        && (alpn.Some? <==> server && q.alpn == Some(true))
        && old(next) <= ctx < ssl < next && (alpn.Some? ==> ctx < alpn.value < ssl)
        && live == old(live) + {ctx, ssl} + if alpn.Some? then {alpn.value} else {}
    {
      if q.dtls {
        return Err(ProtocolVersion);
      }
      if !q.ctxOk {
        return Err(BadConfig);
      }
      var ctx := Acquire();
      var alpn := None;
      if server {
        alpn := KeepAlpn(q.alpn);
      } else {
        OfferAlpn(q.alpn);
      }
      if !q.sslOk {
        ReleaseIf(alpn);
        Release(ctx);
        return Err(BadConfig);
      }
      var ssl := Acquire();
      r := Ok((ctx, alpn, ssl));
    }

    /** The queues and, if keys are logged, the buffer for the first lines; nothing if a queue cannot be made. */
    method AttachBios(q: Request) returns (bios: Option<(Id, Id)>, buffer: Option<Id>)
      requires Valid()
      modifies this
      ensures Valid() && next >= old(next)
      ensures bios.Some? <==> q.inBioOk && q.outBioOk
      ensures bios.None? ==> live == old(live)
      ensures bios.Some? ==> (buffer.Some? <==> q.keylog)
      ensures bios.Some? ==>
        var (i, o) := bios.value;
        && old(next) <= i < o < next && (buffer.Some? ==> old(next) <= buffer.value < i)
        && live == old(live) + {i, o} + if buffer.Some? then {buffer.value} else {}
    {
      var lines;
      buffer, lines := AttachKeylog(q.keylog, false);
      bios := NewBios(q);
      if bios.None? {
        DropBuffer(buffer, lines, false);
      }
    }

    /** mem-bio-client.new and mem-bio-server.new. */
    method NewMemBio(server: bool, q: Request) returns (r: Result<Rep, TlsError>)
      requires Valid()
      modifies this
      ensures Valid() && Since(old(live), old(next))
      ensures Reports(r, MemBioFault(q))
      ensures r.Err? ==> live == old(live)
      ensures r.Ok? ==> Adds(old(live), r.value, live)
      ensures r.Ok? ==> r.value.Shape() == MemBioForm(server, q) && r.value.select == r.value.alpn
      ensures r.Ok? ==>
        && r.value.self.Some? && r.value.ctx.Some? && r.value.ssl.Some? && r.value.fd.None?
        && r.value.inBio.Some? && r.value.outBio.Some? && r.value.lines.None? && r.value.listener.None?
        && r.value.keylog == q.keylog && (r.value.alpn.Some? <==> server && q.alpn == Some(true))
      ensures r.Ok? <==> !q.dtls && q.ctxOk && q.sslOk && q.inBioOk && q.outBioOk
      ensures r == Err(ProtocolVersion) <==> q.dtls
      ensures r == Err(BadConfig) <==> !q.dtls && !(q.ctxOk && q.sslOk && q.inBioOk && q.outBioOk)
      ensures r.Ok? ==> r.value.Logs()
    {
      var session := OpenMemSession(server, q);
      if session.Err? {
        return Err(session.error);
      }
      var (ctx, alpn, ssl) := session.value;
      var bios, buffer := AttachBios(q);
      if bios.None? {
        ReleaseIf(alpn);
        Release(ssl);
        Release(ctx);
        return Err(BadConfig);
      }
      var self := Acquire();
      DropBuffer(buffer, None, true);
      var log := PointLog(buffer, self);
      r := Ok(NO_REP.(self := Some(self), ctx := Some(ctx), ssl := Some(ssl), inBio := Some(bios.value.0),
                      outBio := Some(bios.value.1), alpn := alpn, keylog := q.keylog, log := log,
                      select := alpn));
    }

    // ---- the life of a resource ----

    /** A line is written to the buffer that ex-data points to, which takes storage for its first one. */
    method LogLine(rep: Rep) returns (after: Rep)
      requires Valid() && rep.keylog && rep.ssl.Some? && rep.log.Some? && rep.log.value in live
      modifies this
      ensures Valid() && Since(old(live), old(next)) && after.lines.Some? && after == rep.(lines := after.lines)
      ensures rep.lines.Some? ==> after == rep && live == old(live)
      ensures rep.lines.None? ==> after.lines.value !in old(live) && live == old(live) + {after.lines.value}
      ensures forall id :: In(live, id) + rep.Count(id) == In(old(live), id) + after.Count(id)
    {
      after := rep;
      if rep.lines.None? {
        var storage := Acquire();
        after := rep.(lines := Some(storage));
      }
    }

    /** drain-keylog. */
    method DrainKeylog(rep: Rep) returns (after: Rep)
      requires Valid() && Owns(rep)
      modifies this`live
      ensures Valid() && after == rep.(lines := None)
      ensures live == if rep.lines.Some? then old(live) - {rep.lines.value} else old(live)
      ensures forall id :: In(live, id) + rep.Count(id) == In(old(live), id) + after.Count(id)
    {
      ReleaseIf(rep.lines);
      after := rep.(lines := None);
    }

    /** SSL_free frees the session and the BIOs attached to it. */
    method FreeSession(rep: Rep) returns (after: Rep)
      requires Valid() && Owns(rep)
      modifies this`live
      ensures Valid() && after == rep.(ssl := None, inBio := None, outBio := None)
      ensures live <= old(live)
      ensures forall id :: In(old(live), id) - In(live, id) == Is(rep.ssl, id) + Is(rep.inBio, id) + Is(rep.outBio, id)
    {
      ReleaseIf(rep.ssl);
      ReleaseIf(rep.inBio);
      ReleaseIf(rep.outBio);
      after := rep.(ssl := None, inBio := None, outBio := None);
    }

    ghost predicate Owns(rep: Rep)
      reads this
    {
      forall id :: rep.Count(id) <= In(live, id)
    }

    /** What the close functions and the destructors free alike; freed fields are cleared, so the destructor that runs
        when a closed handle is dropped finds nothing to free again. */
    method CloseFields(rep: Rep) returns (after: Rep)
      requires Valid() && Owns(rep)
      modifies this`live
      ensures Valid() && after == NO_REP.(self := rep.self, keylog := rep.keylog, lines := rep.lines)
      ensures live <= old(live) && Adds(live, rep.(self := None, lines := None), old(live))
    {
      var freed := FreeSession(rep);
      ReleaseIf(rep.fd);
      ReleaseIf(rep.ctx);
      ReleaseIf(rep.alpn);
      after := NO_REP.(self := rep.self, keylog := rep.keylog, lines := rep.lines);
    }

    /** The destructors: whatever the close function left, the key-log lines and the structure. */
    method Destroy(rep: Rep)
      requires Valid() && Owns(rep)
      modifies this`live
      ensures Valid() && live <= old(live) && Adds(live, rep, old(live))
    {
      var rest := CloseFields(rep);
      ReleaseIf(rest.lines);
      ReleaseIf(rest.self);
    }

    /** The close functions, which drop their handle and so run the destructor on the cleared rep. */
    method Close(rep: Rep)
      requires Valid() && Owns(rep)
      modifies this`live
      ensures Valid() && live <= old(live) && Adds(live, rep, old(live))
    {
      var rest := CloseFields(rep);
      Destroy(rest);
    }
  }

  // ---- runs ----

  datatype Op =
    | Connect(q: Request)
    | Bind(q: Request)
    | Accept(i: nat, q: Request)
    | NewMemBio(server: bool, q: Request)
    | LogLine(i: nat)
    | DrainKeylog(i: nat)
    | Close(i: nat)
    | Drop(i: nat)

  /** How many fields of how many reps own the object. */
  function OwnedBy(reps: seq<Rep>, id: Id): nat {
    if reps == [] then 0 else OwnedBy(reps[..|reps| - 1], id) + reps[|reps| - 1].Count(id)
  }

  lemma {:induction false} OwnedByUpdate(reps: seq<Rep>, i: nat, rep: Rep, id: Id)
    requires i < |reps|
    ensures OwnedBy(reps[i := rep], id) + reps[i].Count(id) == OwnedBy(reps, id) + rep.Count(id)
    ensures reps[i].Count(id) <= OwnedBy(reps, id)
  {
    var n := |reps| - 1;
    if i == n {
      assert reps[i := rep][..n] == reps[..n];
    } else {
      assert reps[i := rep][..n] == reps[..n][i := rep];
      OwnedByUpdate(reps[..n], i, rep, id);
    }
  }

  /** Every live object is owned by exactly one field of one open resource. */
  ghost predicate Balanced(ledger: Ledger, reps: seq<Rep>)
    reads ledger
  {
    ledger.Valid() && forall id :: OwnedBy(reps, id) == In(ledger.live, id)
  }

  /** Connections are accepted by open listeners, sessions log and drain, and open resources are closed or dropped. */
  predicate Enabled(forms: seq<Form>, op: Op) {
    match op
    case Connect(_) => true
    case Bind(_) => true
    case NewMemBio(_, _) => true
    case Accept(i, _) => i < |forms| && forms[i].fd && forms[i].ctx && !forms[i].ssl
    case LogLine(i) => i < |forms| && forms[i].keylog && forms[i].ssl
    case DrainKeylog(i) => i < |forms| && forms[i].ssl
    case Close(i) => i < |forms| && forms[i].self
    case Drop(i) => i < |forms| && forms[i].self
  }

  predicate Creates(op: Op) {
    op.Connect? || op.Bind? || op.NewMemBio? || op.Accept?
  }

  /** What the constructors add to the resources: nothing when anything fails. */
  function Created(forms: seq<Form>, op: Op): seq<Form>
    requires Enabled(forms, op) && Creates(op)
  {
    match op
    case Connect(q) => if ConnectFault(q).Some? then [] else [ConnectForm(q)]
    case Bind(q) => if BindFault(q).Some? then [] else [BindForm(q)]
    case Accept(i, q) => if AcceptFault(q).Some? then [] else [AcceptForm(forms[i], i, q)]
    case NewMemBio(server, q) => if MemBioFault(q).Some? then [] else [MemBioForm(server, q)]
  }

  /** What the other calls leave of the resource they concern. */
  function Used(form: Form, op: Op): Form
    requires !Creates(op)
  {
    match op
    case LogLine(_) => form.(lines := true)
    case DrainKeylog(_) => form.(lines := false)
    case Close(_) => NO_FORM
    case Drop(_) => NO_FORM
  }

  function Next(forms: seq<Form>, op: Op): seq<Form>
    requires Enabled(forms, op)
  {
    if Creates(op) then forms + Created(forms, op) else forms[op.i := Used(forms[op.i], op)]
  }

  /** The resources after the calls of `ops` that are enabled at their turn. */
  function After(ops: seq<Op>): seq<Form> {
    if ops == [] then []
    else
      var forms, op := After(ops[..|ops| - 1]), ops[|ops| - 1];
      if Enabled(forms, op) then Next(forms, op) else forms
  }

  /** A call is ruled out only when it names no open resource of the right kind. */
  lemma EnabledCalls(forms: seq<Form>, i: nat, q: Request, server: bool)
    ensures Enabled(forms, Connect(q)) && Enabled(forms, Bind(q)) && Enabled(forms, NewMemBio(server, q))
    ensures Enabled(forms, Accept(i, q)) <==> i < |forms| && forms[i].fd && forms[i].ctx && !forms[i].ssl
    ensures Enabled(forms, LogLine(i)) <==> i < |forms| && forms[i].ssl && forms[i].keylog
    ensures Enabled(forms, DrainKeylog(i)) <==> i < |forms| && forms[i].ssl
    ensures Enabled(forms, Close(i)) == Enabled(forms, Drop(i)) == (i < |forms| && forms[i].self)
  {
  }

  /** Every step of a constructor works. */
  predicate Works(op: Op) {
    match op
    case Connect(q) => !q.dtls && q.ctxOk && Reachable(q.attempts) && q.sslOk && q.handshakeOk
    case Bind(q) => !q.dtls && q.ctxOk && Reachable(q.attempts)
    case Accept(_, q) => q.acceptOk && q.sslOk && q.handshakeOk
    case NewMemBio(_, q) => !q.dtls && q.ctxOk && q.sslOk && q.inBioOk && q.outBioOk
    case _ => false
  }

  /** A constructor adds a resource exactly when every step works, and it is of the constructor's kind. */
  lemma CreatedWhenWorks(forms: seq<Form>, op: Op)
    requires Enabled(forms, op) && Creates(op)
    ensures |Created(forms, op)| == if Works(op) then 1 else 0
    ensures Works(op) ==> Created(forms, op)[0] != NO_FORM
  {
    hide Reachable;
  }

  /** Every open resource comes from a call to a constructor whose steps all worked. */
  lemma {:induction false} OpenedByWorking(ops: seq<Op>, i: nat)
    requires i < |After(ops)| && After(ops)[i] != NO_FORM
    ensures exists k :: 0 <= k < |ops| && Creates(ops[k]) && Works(ops[k])
  {
    hide Enabled, Works, Created, Creates;
    var n := |ops| - 1;
    var forms := After(ops[..n]);
    if i < |forms| && forms[i] != NO_FORM {
      OpenedByWorking(ops[..n], i);
      var k :| 0 <= k < n && Creates(ops[..n][k]) && Works(ops[..n][k]);
      assert ops[..n][k] == ops[k];
    } else {
      NewIsCreated(forms, ops[n], i);
    }
  }

  lemma NewIsCreated(forms: seq<Form>, op: Op, i: nat)
    requires Enabled(forms, op) && i < |Next(forms, op)| && Next(forms, op)[i] != NO_FORM
    requires i < |forms| ==> forms[i] == NO_FORM
    ensures Creates(op) && Works(op)
  {
    hide Works, Created;
    if Creates(op) {
      CreatedWhenWorks(forms, op);
    }
  }

  /** The list that a session's selection callback points to is live, unless the session was accepted by a listener
      that is closed: then it is gone. */
  ghost predicate Selecting(live: set<Id>, next: Id, reps: seq<Rep>) {
    forall i | 0 <= i < |reps| && reps[i].select.Some? ::
      && reps[i].select.value < next
      && (reps[i].listener.None? ==> reps[i].alpn == reps[i].select)
      && (reps[i].listener.Some? ==>
            var j := reps[i].listener.value;
            j < |reps| && if reps[j] == NO_REP then reps[i].select.value !in live else reps[j].alpn == reps[i].select)
  }

  ghost predicate Sound(ledger: Ledger, reps: seq<Rep>)
    reads ledger
  {
    && Balanced(ledger, reps) && Selecting(ledger.live, ledger.next, reps)
    && forall i | 0 <= i < |reps| :: reps[i].Logs()
  }

  /** A successful constructor gives its rep to the caller; a failed one changes nothing. */
  method Register(ledger: Ledger, ghost before: set<Id>, ghost from: Id, reps: seq<Rep>, r: Result<Rep, TlsError>)
    returns (reps': seq<Rep>)
    requires ledger.Valid() && forall id :: OwnedBy(reps, id) == In(before, id)
    requires Selecting(before, from, reps) && ledger.Since(before, from)
    requires (forall i | 0 <= i < |reps| :: reps[i].Logs()) && (r.Ok? ==> r.value.Logs())
    requires r.Err? ==> ledger.live == before
    requires r.Ok? ==> Adds(before, r.value, ledger.live)
    requires r.Ok? && r.value.select.Some? ==>
      if r.value.listener.None? then r.value.alpn == r.value.select
      else r.value.listener.value < |reps| && reps[r.value.listener.value].alpn == r.value.select
    ensures Sound(ledger, reps')
    ensures reps' == if r.Ok? then reps + [r.value] else reps
  {
    reps' := reps;
    if r.Ok? {
      reps' := reps + [r.value];
      assert reps'[..|reps|] == reps;
      SelectingGrows(ledger, before, from, reps, r.value);
    }
  }

  method Create(ledger: Ledger, reps: seq<Rep>, op: Op) returns (reps': seq<Rep>)
    requires Sound(ledger, reps) && Enabled(Shapes(reps), op) && Creates(op)
    modifies ledger
    ensures Sound(ledger, reps')
    ensures Shapes(reps') == Next(Shapes(reps), op) && reps <= reps'
  {
    hide In, OwnedBy, Adds;
    ghost var before, from := ledger.live, ledger.next;
    var r;
    match op {
      case Connect(q) => r := ledger.Connect(q);
      case Bind(q) => r := ledger.Bind(q);
      case NewMemBio(server, q) => r := ledger.NewMemBio(server, q);
      case Accept(i, q) => r := ledger.Accept(reps[i], i, q);
    }
    reps' := Register(ledger, before, from, reps, r);
  }

  method Use(ledger: Ledger, reps: seq<Rep>, op: Op) returns (reps': seq<Rep>)
    requires Sound(ledger, reps) && Enabled(Shapes(reps), op) && !Creates(op)
    modifies ledger
    ensures Sound(ledger, reps')
    ensures Shapes(reps') == Next(Shapes(reps), op)
    ensures |reps'| == |reps| && reps' == reps[op.i := reps'[op.i]] && UsedAs(reps[op.i], op, reps'[op.i])
  {
    hide In, OwnedBy, Selecting, UsedAs;
    var rep, i := reps[op.i], op.i;
    forall id ensures rep.Count(id) <= In(ledger.live, id) {
      OwnedByUpdate(reps, i, rep, id);
    }
    if op.LogLine? {
      OwnedIsLive(ledger.live, reps, i, rep.self.value);
    }
    ghost var before, from := ledger.live, ledger.next;
    var after := UseRep(ledger, rep, op);
    UsedShape(rep, op, after);
    reps' := reps[i := after];
    forall id ensures OwnedBy(reps', id) == In(ledger.live, id) {
      OwnedByUpdate(reps, i, after, id);
    }
    SelectingKept(before, from, ledger, reps, i, after);
  }

  /** What a call leaves of the rep it concerns. */
  predicate UsedAs(rep: Rep, op: Op, after: Rep)
    requires !Creates(op)
  {
    match op
    case LogLine(_) =>
      after == rep.(lines := after.lines) && if rep.lines.Some? then after == rep else after.lines.Some?
    case DrainKeylog(_) => after == rep.(lines := None)
    case Close(_) => after == NO_REP
    case Drop(_) => after == NO_REP
  }

  lemma UsedShape(rep: Rep, op: Op, after: Rep)
    requires !Creates(op) && UsedAs(rep, op, after)
    ensures after.Shape() == Used(rep.Shape(), op)
    ensures after == NO_REP || after == rep.(lines := after.lines)
    ensures op.Close? || op.Drop? ==> after == NO_REP
    ensures op.LogLine? || op.DrainKeylog? ==> after == rep.(lines := after.lines)
  {
  }

  method UseRep(ledger: Ledger, rep: Rep, op: Op) returns (after: Rep)
    requires ledger.Valid() && ledger.Owns(rep) && !Creates(op)
    requires op.LogLine? ==> rep.keylog && rep.ssl.Some? && rep.log.Some? && rep.log.value in ledger.live
    modifies ledger
    ensures ledger.Valid() && ledger.Since(old(ledger.live), old(ledger.next)) && UsedAs(rep, op, after)
    ensures forall id :: In(ledger.live, id) + rep.Count(id) == In(old(ledger.live), id) + after.Count(id)
  {
    hide In, Rep.Count;
    after := NO_REP;
    match op {
      case LogLine(_) => after := ledger.LogLine(rep);
      case DrainKeylog(_) => after := ledger.DrainKeylog(rep);
      case Close(_) => ledger.Close(rep); NothingCounted();
      case Drop(_) => ledger.Destroy(rep); NothingCounted();
    }
  }

  lemma NothingCounted()
    ensures forall id :: NO_REP.Count(id) == 0
  {
  }

  lemma OwnedIsLive(live: set<Id>, reps: seq<Rep>, i: nat, id: Id)
    requires i < |reps| && reps[i].Count(id) > 0 && OwnedBy(reps, id) == In(live, id)
    ensures id in live && reps[i].Count(id) == 1
  {
    OwnedByUpdate(reps, i, reps[i], id);
  }

  lemma SelectingGrows(ledger: Ledger, before: set<Id>, from: Id, reps: seq<Rep>, rep: Rep)
    requires ledger.Valid() && Selecting(before, from, reps) && ledger.Since(before, from)
    requires forall id :: OwnedBy(reps, id) == In(before, id)
    requires Adds(before, rep, ledger.live)
    requires rep.select.Some? ==>
      if rep.listener.None? then rep.alpn == rep.select
      else rep.listener.value < |reps| && reps[rep.listener.value].alpn == rep.select
    ensures Selecting(ledger.live, ledger.next, reps + [rep])
  {
    hide OwnedBy;
    if rep.select.Some? {
      var id := rep.select.value;
      if rep.listener.Some? {
        OwnedIsLive(before, reps, rep.listener.value, id);
      }
      assert In(ledger.live, id) == In(before, id) + rep.Count(id);
    }
  }

  /** A resource is released with all it owns, or only the storage of its lines changes. */
  lemma SelectingKept(before: set<Id>, from: Id, ledger: Ledger, reps: seq<Rep>, i: nat, after: Rep)
    requires i < |reps| && Selecting(before, from, reps) && ledger.Since(before, from)
    requires forall id :: reps[i].Count(id) <= In(before, id)
    requires forall id :: In(ledger.live, id) + reps[i].Count(id) == In(before, id) + after.Count(id)
    requires after == NO_REP || (after.ssl.Some? && after == reps[i].(lines := after.lines))
    ensures Selecting(ledger.live, ledger.next, reps[i := after])
  {
    hide In;
    var reps' := reps[i := after];
    forall k | 0 <= k < |reps'| && reps'[k].select.Some? && reps'[k].listener.Some?
      ensures var j := reps'[k].listener.value;
              j < |reps'| &&
              if reps'[j] == NO_REP then reps'[k].select.value !in ledger.live else reps'[j].alpn == reps'[k].select
    {
      var j, id := reps[k].listener.value, reps[k].select.value;
      if reps[j] != NO_REP && j == i && after == NO_REP {
        Gone(before, ledger.live, reps[i], id);
      }
    }
  }

  lemma Gone(before: set<Id>, live: set<Id>, rep: Rep, id: Id)
    requires rep.alpn == Some(id) && rep.Count(id) <= In(before, id)
    requires In(live, id) + rep.Count(id) == In(before, id) + NO_REP.Count(id)
    ensures id !in live
  {
  }

  /** Wherever a session may log a line, the buffer that its ex-data points to is live: that of its own rep. */
  lemma Logging(ledger: Ledger, reps: seq<Rep>, i: nat)
    requires Sound(ledger, reps) && Enabled(Shapes(reps), LogLine(i))
    ensures reps[i].log.Some? && reps[i].log == reps[i].self && reps[i].log.value in ledger.live
  {
    hide OwnedBy, Selecting;
    OwnedIsLive(ledger.live, reps, i, reps[i].self.value);
  }

  /** The list a selection callback points to is gone exactly when the listener that accepted the session is
      closed: sessions hold their context, but the list belongs to the listener. */
  lemma Dangling(ledger: Ledger, reps: seq<Rep>, i: nat)
    requires Sound(ledger, reps) && i < |reps| && reps[i].select.Some?
    ensures reps[i].listener.Some? ==> reps[i].listener.value < |reps|
    ensures reps[i].select.value !in ledger.live
       <==> reps[i].listener.Some? && Shapes(reps)[reps[i].listener.value] == NO_FORM
  {
    hide OwnedBy;
    var id := reps[i].select.value;
    var j := if reps[i].listener.Some? then reps[i].listener.value else i;
    if reps[j].alpn == Some(id) {
      OwnedIsLive(ledger.live, reps, j, id);
    }
  }

  /** Over every run of constructors, successful or failing, logging, draining, closing and dropping, the resources
      are those the calls leave, and the live objects are those the resources own, each once. The list a selection
      callback points to is gone exactly when the listener that accepted its session is closed; the buffer a session
      logs into is never gone. When every resource is closed or dropped nothing is left. */
  method Run(ops: seq<Op>) returns (ledger: Ledger, reps: seq<Rep>)
    ensures fresh(ledger) && Sound(ledger, reps)
    ensures Shapes(reps) == After(ops)
    ensures forall i | 0 <= i < |reps| && reps[i].select.Some? ::
      reps[i].select.value !in ledger.live
      <==> reps[i].listener.Some? && After(ops)[reps[i].listener.value] == NO_FORM
    ensures forall i | 0 <= i < |reps| && Enabled(After(ops), LogLine(i)) ::
      reps[i].log.Some? && reps[i].log.value in ledger.live
    ensures forall i | 0 <= i < |After(ops)| && After(ops)[i] != NO_FORM ::
      exists k :: 0 <= k < |ops| && Creates(ops[k]) && Works(ops[k])
    ensures (forall form | form in After(ops) :: form == NO_FORM) ==> ledger.live == {}
  {
    hide In, OwnedBy, Enabled, Selecting, Next, Works, Creates;
    ledger := new Ledger();
    reps := [];
    Nothing(reps, ledger.live, ledger.next);
    for k := 0 to |ops|
      invariant fresh(ledger) && Sound(ledger, reps)
      invariant Shapes(reps) == After(ops[..k])
    {
      assert ops[..k + 1][..k] == ops[..k];
      var op := ops[k];
      if Enabled(Shapes(reps), op) {
        if Creates(op) {
          reps := Create(ledger, reps, op);
        } else {
          reps := Use(ledger, reps, op);
        }
      }
    }
    assert ops[..|ops|] == ops;
    forall i | 0 <= i < |reps| && reps[i].select.Some?
      ensures reps[i].listener.Some? ==> reps[i].listener.value < |After(ops)|
      ensures reps[i].select.value !in ledger.live
         <==> reps[i].listener.Some? && After(ops)[reps[i].listener.value] == NO_FORM
    {
      Dangling(ledger, reps, i);
    }
    forall i | 0 <= i < |After(ops)| && After(ops)[i] != NO_FORM
      ensures exists k :: 0 <= k < |ops| && Creates(ops[k]) && Works(ops[k])
    {
      OpenedByWorking(ops, i);
    }
    forall i | 0 <= i < |reps| && Enabled(After(ops), LogLine(i))
      ensures reps[i].log.Some? && reps[i].log.value in ledger.live
    {
      Logging(ledger, reps, i);
    }
    if forall form | form in After(ops) :: form == NO_FORM {
      forall i | 0 <= i < |reps| ensures reps[i].Shape() == NO_FORM {
        assert Shapes(reps)[i] in After(ops);
      }
      NothingOwned(reps, ledger.live);
    }
  }

  const WORKING :=
    Request(false, Some(true), false, true, Some([Attempt(true, true)]), true, true, true, true, true, false)

  /** A listener with a protocol list accepts a connection and is closed first. */
  const LISTENER_FIRST := [Bind(WORKING), Accept(0, WORKING), Close(0)]

  lemma AfterListenerFirst()
    ensures After(LISTENER_FIRST) == [NO_FORM, AcceptForm(BindForm(WORKING), 0, WORKING)]
  {
    hide After;
    AfterOne([], LISTENER_FIRST[0]);
    assert LISTENER_FIRST[..1] == [] + [LISTENER_FIRST[0]];
    assert Attempt(true, true) in WORKING.attempts.value;
    assert After(LISTENER_FIRST[..1]) == [BindForm(WORKING)];
    AfterOne(LISTENER_FIRST[..1], LISTENER_FIRST[1]);
    assert LISTENER_FIRST[..2] == LISTENER_FIRST[..1] + [LISTENER_FIRST[1]];
    AfterOne(LISTENER_FIRST[..2], LISTENER_FIRST[2]);
    assert LISTENER_FIRST == LISTENER_FIRST[..2] + [LISTENER_FIRST[2]];
  }

  lemma AfterOne(ops: seq<Op>, op: Op)
    ensures After([]) == []
    ensures After(ops + [op]) == if Enabled(After(ops), op) then Next(After(ops), op) else After(ops)
  {
    assert (ops + [op])[..|ops|] == ops;
  }

  /** The session of that run is open, and the list its selection callback points to is gone. */
  method ListenerFirst() returns (ledger: Ledger, reps: seq<Rep>)
    ensures |reps| == 2 && reps[1].ssl.Some? && reps[1].ssl.value in ledger.live
    ensures reps[1].select.Some? && reps[1].select.value !in ledger.live
  {
    hide After, LISTENER_FIRST, OwnedBy, Selecting;
    ledger, reps := Run(LISTENER_FIRST);
    AfterListenerFirst();
    assert reps[1].Shape() == Shapes(reps)[1];
    OwnedIsLive(ledger.live, reps, 1, reps[1].ssl.value);
  }

  lemma Nothing(reps: seq<Rep>, live: set<Id>, next: Id)
    requires reps == [] && live == {}
    ensures forall id :: OwnedBy(reps, id) == In(live, id)
    ensures Selecting(live, next, reps)
  {
  }

  lemma NothingOwned(reps: seq<Rep>, live: set<Id>)
    requires forall i | 0 <= i < |reps| :: reps[i].Shape() == NO_FORM
    requires forall id :: OwnedBy(reps, id) == In(live, id)
    ensures live == {}
  {
    forall id ensures In(live, id) == 0 {
      OwnsNothing(reps, id);
    }
    assert forall id | id in live :: In(live, id) == 1;
  }

  lemma {:induction false} OwnsNothing(reps: seq<Rep>, id: Id)
    requires forall i | 0 <= i < |reps| :: reps[i].Shape() == NO_FORM
    ensures OwnedBy(reps, id) == 0
  {
    if reps != [] {
      OwnsNothing(reps[..|reps| - 1], id);
    }
  }
}
