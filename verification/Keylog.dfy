/** The growable buffer of NSS key-log lines inside every TLS resource. */
module Keylog {
  import opened Memory

  type Line = string

  /** The capacities reachable by starting at 16 and doubling. */
  ghost predicate IsCapacity(cap: nat) {
    cap == 0 || exists k: nat :: cap == 16 * Pow2(k)
  }

  class KeylogBuf {
    var lines: array<Line>
    var len: nat
    var cap: nat
    /** Entries copied by growth since the buffer was last empty of storage. */
    ghost var moved: nat

    ghost predicate Valid()
      reads this
    {
      && lines.Length == cap
      && len <= cap
      && IsCapacity(cap)
      && moved == (if cap == 0 then 0 else cap - 16)
      && (cap > 16 ==> cap < 2 * len)
      && (cap == 16 ==> len > 0)
    }

    ghost function Contents(): seq<Line>
      requires Valid()
      reads this, lines
    {
      lines[..len]
    }

    constructor Init()
      ensures Valid() && fresh(lines)
      ensures len == 0 && cap == 0 && Contents() == []
    {
      lines := new Line[0];
      len, cap, moved := 0, 0, 0;
    }

    /** keylog_buf_append; `growOk` is the outcome of realloc if it is called. On failure the line is dropped. */
    method Append(line: Line, growOk: bool)
      requires Valid()
      modifies this, lines
      ensures Valid() && (lines == old(lines) || fresh(lines))
      ensures Contents() == old(Contents()) + if old(len < cap) || growOk then [line] else []
      ensures cap == if old(len < cap) || !growOk then old(cap) else if old(cap) == 0 then 16 else 2 * old(cap)
      ensures moved == old(moved) + if old(len < cap) || !growOk then 0 else old(len)
    {
      if len == cap {
        var nc := if cap != 0 then cap * 2 else 16;
        if !growOk {
          return;
        }
        var grown := new Line[nc](_ => []);
        forall i | 0 <= i < len {
          grown[i] := lines[i];
        }
        NextCapacity(cap);
        moved := moved + len;
        lines := grown;
        cap := nc;
      }
      lines[len] := line;
      len := len + 1;
    }

    /** keylog_buf_drain_to: hands out every line and leaves the buffer without storage. */
    method Drain() returns (out: seq<Line>)
      requires Valid()
      modifies this
      ensures Valid() && fresh(lines)
      ensures out == old(Contents())
      ensures Contents() == [] && cap == 0 && moved == 0
    {
      var o := new Line[len](_ => []);
      for i := 0 to len
        invariant o[..i] == lines[..i]
        modifies o
      {
        o[i] := lines[i];
      }
      out := o[..];
      lines := new Line[0];
      len, cap, moved := 0, 0, 0;
    }

    /** The struct copy that moves the buffer of the handshake into the resource. */
    constructor MoveFrom(pre: KeylogBuf)
      requires pre.Valid()
      ensures Valid() && lines == pre.lines && len == pre.len && cap == pre.cap && moved == pre.moved
    {
      lines, len, cap, moved := pre.lines, pre.len, pre.cap, pre.moved;
    }

    /** Growth copies fewer entries than twice the lines held, so each append costs a constant on average. */
    lemma AmortizedGrowth()
      requires Valid()
      ensures len > 0 ==> moved < 2 * len
      ensures len == 0 ==> moved == 0
      ensures cap <= 16 || cap < 2 * len
    {
      CapacityAtLeast16(cap);
    }
  }

  lemma NextCapacity(cap: nat)
    requires IsCapacity(cap)
    ensures IsCapacity(if cap != 0 then cap * 2 else 16)
    ensures cap == 0 || cap >= 16
  {
    if cap == 0 {
      assert 16 == 16 * Pow2(0);
    } else {
      var k: nat :| cap == 16 * Pow2(k);
      assert cap * 2 == 16 * Pow2(k + 1);
      CapacityAtLeast16(cap);
    }
  }

  lemma CapacityAtLeast16(cap: nat)
    requires IsCapacity(cap)
    ensures cap == 0 || cap >= 16
  {
    if cap != 0 {
      var k: nat :| cap == 16 * Pow2(k);
    }
  }

  // ---- runs ----

  datatype Op = Append(line: Line, growOk: bool) | Drain | Move

  /** The lines one operation adds to a buffer holding `held` lines in storage for `cap`. */
  function Added(op: Op, held: nat, cap: nat): seq<Line> {
    if op.Append? && (held < cap || op.growOk) then [op.line] else []
  }

  function HeldAfter(op: Op, held: nat, cap: nat): nat {
    if op.Drain? then 0 else held + |Added(op, held, cap)|
  }

  function CapAfter(op: Op, held: nat, cap: nat): nat {
    match op
    case Append(_, growOk) => if held < cap || !growOk then cap else if cap == 0 then 16 else 2 * cap
    case Drain => 0
    case Move => cap
  }

  /** The lines of a run that no failed realloc dropped. */
  function Kept(ops: seq<Op>, held: nat, cap: nat): seq<Line>
    decreases |ops|
  {
    if ops == [] then []
    else Added(ops[0], held, cap) + Kept(ops[1..], HeldAfter(ops[0], held, cap), CapAfter(ops[0], held, cap))
  }

  function Appended(ops: seq<Op>): seq<Line> {
    if ops == [] then []
    else (if ops[0].Append? then [ops[0].line] else []) + Appended(ops[1..])
  }

  /** When no realloc fails, every line is kept. */
  lemma {:induction false} KeptAll(ops: seq<Op>, held: nat, cap: nat)
    requires held <= cap
    requires forall op | op in ops :: op.Append? ==> op.growOk
    ensures Kept(ops, held, cap) == Appended(ops)
    decreases |ops|
  {
    if ops != [] {
      KeptAll(ops[1..], HeldAfter(ops[0], held, cap), CapAfter(ops[0], held, cap));
    }
  }

  method Step(buffer: KeylogBuf, op: Op) returns (next: KeylogBuf, out: seq<Line>)
    requires buffer.Valid() && buffer.len <= buffer.cap
    modifies buffer, buffer.lines
    ensures next == buffer || fresh(next)
    ensures next.lines == old(buffer.lines) || fresh(next.lines)
    ensures next.Valid()
    ensures next.len == HeldAfter(op, old(buffer.len), old(buffer.cap))
    ensures next.cap == CapAfter(op, old(buffer.len), old(buffer.cap))
    ensures out + next.Contents() == old(buffer.Contents()) + Added(op, old(buffer.len), old(buffer.cap))
  {
    next, out := buffer, [];
    if op.Append? {
      buffer.Append(op.line, op.growOk);
      assert |buffer.Contents()| == buffer.len;
    } else if op.Drain? {
      out := buffer.Drain();
      assert |buffer.Contents()| == buffer.len;
    } else {
      next := new KeylogBuf.MoveFrom(buffer);
    }
  }

  lemma Regroup(drained: seq<Line>, held: seq<Line>, added: seq<Line>, out: seq<Line>, next: seq<Line>, rest: seq<Line>)
    requires out + next == held + added
    ensures (drained + out) + next + rest == drained + held + (added + rest)
  {
    assert (drained + out) + next + rest == drained + (out + next) + rest;
  }

  /** Over any run, the lines drained followed by the lines still buffered are the lines kept, in order, each once. */
  method Run(ops: seq<Op>) returns (drained: seq<Line>, buffer: KeylogBuf)
    ensures fresh(buffer) && buffer.Valid()
    ensures drained + buffer.Contents() == Kept(ops, 0, 0)
    ensures (forall op | op in ops :: op.Append? ==> op.growOk) ==> drained + buffer.Contents() == Appended(ops)
  {
    buffer := new KeylogBuf.Init();
    drained := [];
    for i := 0 to |ops|
      invariant fresh(buffer) && fresh(buffer.lines) && buffer.Valid()
      invariant drained + buffer.Contents() + Kept(ops[i..], buffer.len, buffer.cap) == Kept(ops, 0, 0)
    {
      hide Added, HeldAfter, CapAfter, IsCapacity;
      assert ops[i..][1..] == ops[i + 1..];
      ghost var held, len, cap := buffer.Contents(), buffer.len, buffer.cap;
      var out;
      buffer, out := Step(buffer, ops[i]);
      Regroup(drained, held, Added(ops[i], len, cap), out, buffer.Contents(),
              Kept(ops[i + 1..], buffer.len, buffer.cap));
      drained := drained + out;
    }
    if forall op | op in ops :: op.Append? ==> op.growOk {
      KeptAll(ops, 0, 0);
    }
  }
}
