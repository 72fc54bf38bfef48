/** The overwriting kernel log of kernel/console.c: printk_putc and console_flush.

    `Ring` is the buffer with its raw 32-bit head and tail.  `Log` is what it is meant
    to be: everything ever written, and how much of it has been flushed or given up. */
module LogRing {
  import opened Arithmetic
  import opened Bits

  const RANGE := 0x1_0000_0000

  // ----- The ring -----

  datatype Ring = Ring(buf: seq<char>, head: nat, tail: nat)

  /** PRINTK_BUFIDX */
  function Index(i: nat, size: nat): nat
    requires size > 0
  {
    And(i, size - 1)
  }

  ghost predicate PowerOfTwo(size: nat) {
    exists p :: 0 <= p < 32 && size == Pow2(p)
  }

  lemma IndexIsRemainder(i: nat, size: nat)
    requires PowerOfTwo(size)
    ensures Index(i, size) == i % size < size
    ensures Index(i % RANGE, size) == i % size
  {
    var p :| 0 <= p < 32 && size == Pow2(p);
    MaskIsRemainder(i, p);
    MaskIsRemainder(i % RANGE, p);
    Pow2Of32();
    RemainderOfRemainder(i, p, 32);
  }

  ghost function Put(r: Ring, c: char): (r': Ring)
    requires PowerOfTwo(|r.buf|)
    ensures |r'.buf| == |r.buf|
  {
    IndexIsRemainder(r.head, |r.buf|);
    r.(buf := r.buf[Index(r.head, |r.buf|) := c], head := (r.head + 1) % RANGE)
  }

  /** Where a flush starts after the overflow check. */
  function FlushFrom(r: Ring): nat {
    if (r.head - r.tail) % RANGE > |r.buf| then (r.head - |r.buf|) % RANGE else r.tail
  }

  /** What the flush loop writes, starting at t; it compares the raw counters. */
  ghost function Slice(r: Ring, t: nat): (s: seq<char>)
    requires PowerOfTwo(|r.buf|)
    ensures |s| == if t < r.head then r.head - t else 0
    decreases r.head - t
  {
    IndexIsRemainder(t, |r.buf|);
    if t < r.head then [r.buf[Index(t, |r.buf|)]] + Slice(r, t + 1) else []
  }

  ghost function Flushed(r: Ring): seq<char>
    requires PowerOfTwo(|r.buf|)
  {
    Slice(r, FlushFrom(r))
  }

  // ----- The log -----

  datatype Log = Log(written: seq<char>, done: nat)

  /** The first character a flush may still show: nothing flushed before, and only the
      last `size` characters are kept. */
  function Oldest(l: Log, size: nat): nat {
    if |l.written| > size && |l.written| - size > l.done then |l.written| - size else l.done
  }

  function Pending(l: Log, size: nat): seq<char>
    requires l.done <= |l.written|
  {
    l.written[Oldest(l, size)..]
  }

  /** Pending are the unflushed characters among the last `size` written. */
  lemma PendingMeaning(l: Log, size: nat)
    requires l.done <= |l.written|
    ensures var unflushed := |l.written| - l.done;
            var n := if unflushed < size then unflushed else size;
            |Pending(l, size)| == n && Pending(l, size) == l.written[|l.written| - n..]
  {
  }

  /** The ring holds the last characters of the log, and its counters are the log's,
      wrapped. */
  ghost predicate Holds(r: Ring, l: Log) {
    && PowerOfTwo(|r.buf|)
    && l.done <= |l.written|
    && r.head == |l.written| % RANGE && r.tail == l.done % RANGE
    && forall i :: 0 <= i < |l.written| && |l.written| - |r.buf| <= i ==>
         Kept(r.buf, i, l.written[i])
  }

  predicate Kept(buf: seq<char>, i: nat, c: char) {
    |buf| > 0 && buf[i % |buf|] == c
  }

  lemma PutHolds(r: Ring, l: Log, c: char)
    requires Holds(r, l)
    ensures Holds(Put(r, c), l.(written := l.written + [c]))
  {
    var n, size := |l.written|, |r.buf|;
    var r', l' := Put(r, c), l.(written := l.written + [c]);
    IndexIsRemainder(n, size);
    forall i | 0 <= i < n + 1 && n + 1 - size <= i ensures Kept(r'.buf, i, l'.written[i]) {
      if i < n {
        RemaindersApart(i, n, size);
        assert Kept(r.buf, i, l.written[i]);
      }
    }
    SuccessorWraps(n);
  }

  lemma SuccessorWraps(n: nat)
    ensures (n % RANGE + 1) % RANGE == (n + 1) % RANGE
  {
  }

  lemma NextRaw(from: nat, n: nat, t: nat)
    requires from < n && t == from % RANGE && from / RANGE == n / RANGE
    ensures t < n % RANGE && t + 1 == (from + 1) % RANGE && (from + 1) / RANGE == n / RANGE
  {
  }

  lemma {:induction false} SliceHolds(r: Ring, l: Log, from: nat, t: nat)
    requires Holds(r, l) && |l.written| - |r.buf| <= from <= |l.written|
    requires t == from % RANGE && from / RANGE == |l.written| / RANGE
    ensures Slice(r, t) == l.written[from..]
    decreases |l.written| - from
  {
    if from == |l.written| {
    } else {
      IndexIsRemainder(from, |r.buf|);
      assert Kept(r.buf, from, l.written[from]);
      NextRaw(from, |l.written|, t);
      SliceHolds(r, l, from + 1, t + 1);
      assert l.written[from..] == [l.written[from]] + l.written[from + 1..];
    }
  }

  /** Where a flush starts, counted from the beginning of the log: the overflow check sees
      only how many characters are unflushed modulo 2^32. */
  function From(l: Log, size: nat): nat
    requires l.done <= |l.written|
  {
    var unflushed := (|l.written| - l.done) % RANGE;
    |l.written| - if unflushed > size then size else unflushed
  }

  /** So many characters are unflushed that the check takes them for fewer than the buffer
      holds. */
  predicate Overrun(l: Log, size: nat) {
    |l.written| >= l.done + RANGE && (|l.written| - l.done) % RANGE < size
  }

  /** The raw counter wraps between the start of the flush and the head. */
  predicate Wraps(l: Log, size: nat)
    requires l.done <= |l.written|
  {
    From(l, size) / RANGE != |l.written| / RANGE
  }

  lemma FromIsOldest(l: Log, size: nat)
    requires l.done <= |l.written| && size < RANGE
    ensures Oldest(l, size) <= From(l, size) <= |l.written| && |l.written| - size <= From(l, size)
    ensures From(l, size) == Oldest(l, size) <==> !Overrun(l, size)
  {
    var d := |l.written| - l.done;
    if d < RANGE { assert d % RANGE == d; } else { assert d % RANGE < RANGE <= d; }
  }

  lemma SizeInRange(size: nat)
    requires PowerOfTwo(size)
    ensures 0 < size < RANGE
  {
    var p :| 0 <= p < 32 && size == Pow2(p);
    Pow2Monotone(p, 32);
    Pow2Of32();
  }

  /** The overflow check finds that start. */
  lemma FlushFromExact(r: Ring, l: Log)
    requires Holds(r, l)
    ensures FlushFrom(r) == From(l, |r.buf|) % RANGE
  {
    SizeInRange(|r.buf|);
    FromIsOldest(l, |r.buf|);
    var n, d := |l.written|, (|l.written| - l.done) % RANGE;
    WrappedDifference(n, l.done);
    if d > |r.buf| { WrappedBack(n, |r.buf|); } else { WrappedStart(n, l.done); }
  }

  lemma WrappedDifference(a: nat, b: nat)
    requires b <= a
    ensures (a % RANGE - b % RANGE) % RANGE == (a - b) % RANGE
  {
  }

  lemma WrappedBack(a: nat, n: nat)
    requires n <= a
    ensures (a % RANGE - n) % RANGE == (a - n) % RANGE
  {
  }

  lemma WrappedStart(a: nat, b: nat)
    requires b <= a
    ensures (a - (a - b) % RANGE) % RANGE == b % RANGE
  {
  }

  /** What a flush that finds log l writes. */
  function Shown(l: Log, size: nat): seq<char>
    requires l.done <= |l.written|
  {
    if Wraps(l, size) then [] else l.written[From(l, size)..]
  }

  /** A flush writes exactly the pending characters if and only if there was no overrun and
      the raw counter does not wrap among them. */
  lemma FlushExact(r: Ring, l: Log)
    requires Holds(r, l)
    ensures Flushed(r) == Shown(l, |r.buf|)
    ensures Flushed(r) == Pending(l, |r.buf|) <==> !Overrun(l, |r.buf|) && !Wraps(l, |r.buf|)
  {
    var from, n := From(l, |r.buf|), |l.written|;
    SizeInRange(|r.buf|);
    FromIsOldest(l, |r.buf|);
    FlushFromExact(r, l);
    if Wraps(l, |r.buf|) {
      WrappedCounters(from, n);
    } else {
      SliceHolds(r, l, from, FlushFrom(r));
    }
    ShownIsPending(l, |r.buf|);
  }

  lemma WrappedCounters(from: nat, n: nat)
    requires from <= n < from + RANGE && from / RANGE != n / RANGE
    ensures n % RANGE <= from % RANGE
  {
  }

  lemma ShownIsPending(l: Log, size: nat)
    requires l.done <= |l.written| && size < RANGE
    ensures Shown(l, size) == Pending(l, size) <==> !Overrun(l, size) && !Wraps(l, size)
  {
    FromIsOldest(l, size);
    assert |l.written[Oldest(l, size)..]| == |l.written| - Oldest(l, size);
  }

  // ----- Whole runs -----

  datatype Op = PutChar(c: char) | Flush

  /** `flushes` are the logs that the flushes of a run found. */
  datatype LogRun = LogRun(log: Log, flushes: seq<Log>)

  datatype RingRun = RingRun(ring: Ring, outs: seq<seq<char>>)

  ghost predicate Sound(l: Log) {
    l.done <= |l.written|
  }

  function RunLog(ops: seq<Op>): (run: LogRun)
    ensures Sound(run.log)
    ensures forall k :: 0 <= k < |run.flushes| ==> Sound(run.flushes[k])
  {
    if ops == [] then LogRun(Log([], 0), [])
    else
      var run := RunLog(ops[..|ops| - 1]);
      match ops[|ops| - 1]
      case PutChar(c) => run.(log := run.log.(written := run.log.written + [c]))
      case Flush => LogRun(run.log.(done := |run.log.written|), run.flushes + [run.log])
  }

  ghost function RunRing(start: seq<char>, ops: seq<Op>): (run: RingRun)
    requires PowerOfTwo(|start|)
    ensures |run.ring.buf| == |start|
  {
    if ops == [] then RingRun(Ring(start, 0, 0), [])
    else
      var run := RunRing(start, ops[..|ops| - 1]);
      match ops[|ops| - 1]
      case PutChar(c) => run.(ring := Put(run.ring, c))
      case Flush => RingRun(run.ring.(tail := run.ring.head), run.outs + [Flushed(run.ring)])
  }

  /** In every run each flush writes what the log says: from where the overflow check puts
      its start, or nothing if the counter wraps there. */
  lemma {:induction false} EveryRun(start: seq<char>, ops: seq<Op>)
    requires PowerOfTwo(|start|)
    ensures Holds(RunRing(start, ops).ring, RunLog(ops).log)
    ensures var outs, flushes := RunRing(start, ops).outs, RunLog(ops).flushes;
            |outs| == |flushes| && forall k :: 0 <= k < |outs| ==> outs[k] == Shown(flushes[k], |start|)
  {
    if ops == [] {
    } else {
      var before := ops[..|ops| - 1];
      EveryRun(start, before);
      var r, l := RunRing(start, before).ring, RunLog(before).log;
      match ops[|ops| - 1] {
        case PutChar(c) => PutHolds(r, l, c);
        case Flush => FlushHolds(r, l);
      }
    }
  }

  lemma FlushHolds(r: Ring, l: Log)
    requires Holds(r, l)
    ensures Flushed(r) == Shown(l, |r.buf|)
    ensures Holds(r.(tail := r.head), l.(done := |l.written|))
  {
    FlushExact(r, l);
    var l' := l.(done := |l.written|);
    forall i | 0 <= i < |l'.written| && |l'.written| - |r.buf| <= i
      ensures Kept(r.buf, i, l'.written[i])
    {
      assert Kept(r.buf, i, l.written[i]);
    }
  }

  /** So in every run each flush writes exactly the unflushed characters among the last
      ones the buffer holds, if and only if no flush finds an overrun or a wrapped counter. */
  lemma NothingLostExact(start: seq<char>, ops: seq<Op>)
    requires PowerOfTwo(|start|)
    ensures var outs, flushes := RunRing(start, ops).outs, RunLog(ops).flushes;
            && |outs| == |flushes|
            && ((forall k :: 0 <= k < |outs| ==> outs[k] == Pending(flushes[k], |start|))
                <==> (forall k :: 0 <= k < |outs| ==>
                        !Overrun(flushes[k], |start|) && !Wraps(flushes[k], |start|)))
  {
    EveryRun(start, ops);
    SizeInRange(|start|);
    var outs, flushes := RunRing(start, ops).outs, RunLog(ops).flushes;
    forall k | 0 <= k < |flushes|
      ensures outs[k] == Pending(flushes[k], |start|)
         <==> !Overrun(flushes[k], |start|) && !Wraps(flushes[k], |start|)
    {
      ShownIsPending(flushes[k], |start|);
    }
  }

  /** While fewer than 2^32 characters have been written nothing is lost. */
  lemma NothingLostBefore(start: seq<char>, ops: seq<Op>)
    requires PowerOfTwo(|start|) && |RunLog(ops).log.written| < RANGE
    ensures var outs, flushes := RunRing(start, ops).outs, RunLog(ops).flushes;
            |outs| == |flushes| && forall k :: 0 <= k < |outs| ==> outs[k] == Pending(flushes[k], |start|)
  {
    NothingLostExact(start, ops);
    var flushes := RunLog(ops).flushes;
    forall k | 0 <= k < |flushes|
      ensures !Overrun(flushes[k], |start|) && !Wraps(flushes[k], |start|)
    {
      LogGrows(ops, k);
      SmallQuotient(From(flushes[k], |start|));
      SmallQuotient(|flushes[k].written|);
    }
  }

  lemma SmallQuotient(n: nat)
    requires n < RANGE
    ensures n / RANGE == 0
  {
  }

  /** What a flush found is the beginning of the log. */
  lemma {:induction false} LogGrows(ops: seq<Op>, k: nat)
    requires k < |RunLog(ops).flushes|
    ensures RunLog(ops).flushes[k].written <= RunLog(ops).log.written
  {
    var before := ops[..|ops| - 1];
    if k < |RunLog(before).flushes| { LogGrows(before, k); }
  }

  /** The flushes of a run find successive stretches of the log pending: flush k found
      unflushed exactly what came after flush k - 1. */
  lemma {:induction false} FlushesAreStretches(ops: seq<Op>, k: nat)
    requires k < |RunLog(ops).flushes|
    ensures var run := RunLog(ops);
            && run.flushes[k].done == (if k == 0 then 0 else |run.flushes[k - 1].written|)
            && run.flushes[k].written <= run.log.written
            && (k == |run.flushes| - 1 ==> run.log.done == |run.flushes[k].written|)
  {
    var before := ops[..|ops| - 1];
    LogGrows(ops, k);
    var n := |RunLog(before).flushes|;
    if n > 0 { FlushesAreStretches(before, if k < n then k else n - 1); } else { NoFlushYet(before); }
  }

  /** So what a flush shows is a stretch of the whole log that starts no earlier than the
      flush before it ended: in order, and nothing twice. */
  lemma ShownIsStretch(ops: seq<Op>, k: nat, size: nat)
    requires k < |RunLog(ops).flushes| && size < RANGE
    ensures var run := RunLog(ops);
            var l, start := run.flushes[k], From(run.flushes[k], size);
            && l.done <= start <= |l.written| <= |run.log.written|
            && Shown(l, size) <= run.log.written[start..|l.written|]
            && (k > 0 ==> |run.flushes[k - 1].written| <= start)
  {
    FlushesAreStretches(ops, k);
    var l, written := RunLog(ops).flushes[k], RunLog(ops).log.written;
    FromIsOldest(l, size);
    assert l.written[From(l, size)..] == written[From(l, size)..|l.written|];
  }

  lemma {:induction false} NoFlushYet(ops: seq<Op>)
    requires RunLog(ops).flushes == []
    ensures RunLog(ops).log.done == 0
  {
    if ops == [] {
    } else {
      NoFlushYet(ops[..|ops| - 1]);
    }
  }

  // ----- Runs that lose characters -----

  function Puts(n: nat): (ops: seq<Op>)
    ensures |ops| == n
  {
    seq(n, _ => PutChar('x'))
  }

  lemma {:induction false} RunPuts(n: nat)
    ensures var run := RunLog(Puts(n)); |run.log.written| == n && run.log.done == 0 && run.flushes == []
  {
    if n == 0 {
    } else {
      RunPuts(n - 1);
      assert Puts(n)[..n - 1] == Puts(n - 1);
    }
  }

  /** 2^32 - 1 characters and a flush, then one more character and a flush. */
  function LosingOps(): seq<Op> {
    Puts(RANGE - 1) + [Flush] + [PutChar('y')] + [Flush]
  }

  /** The second flush shows nothing, although one character is pending, whatever the size
      of the buffer. */
  lemma LosingRun(start: seq<char>)
    requires PowerOfTwo(|start|)
    ensures var outs, flushes := RunRing(start, LosingOps()).outs, RunLog(LosingOps()).flushes;
            |outs| == 2 == |flushes| && outs[1] == [] && Pending(flushes[1], |start|) == "y"
  {
    LosingLog();
    EveryRun(start, LosingOps());
    SizeInRange(|start|);
    var l := RunLog(LosingOps()).flushes[1];
    FromIsOldest(l, |start|);
    assert Oldest(l, |start|) == RANGE - 1;
    SmallQuotient(RANGE - 1);
    assert l.written[RANGE - 1..] == "y";
  }

  /** 2^32 characters without a flush look like none: the flush shows nothing of the full
      buffer. */
  lemma OverrunRun(start: seq<char>)
    requires PowerOfTwo(|start|)
    ensures var ops := Puts(RANGE) + [Flush];
            var outs, flushes := RunRing(start, ops).outs, RunLog(ops).flushes;
            |outs| == 1 == |flushes| && outs[0] == [] && |Pending(flushes[0], |start|)| == |start| > 0
  {
    RunPuts(RANGE);
    AppendOp(Puts(RANGE), Flush);
    EveryRun(start, Puts(RANGE) + [Flush]);
    SizeInRange(|start|);
    var l := RunLog(Puts(RANGE)).log;
    assert From(l, |start|) == RANGE;
  }

  lemma LosingLog()
    ensures var run := RunLog(LosingOps());
            |run.flushes| == 2 && |run.flushes[1].written| == RANGE && run.flushes[1].written[RANGE - 1] == 'y'
            && run.flushes[1].done == RANGE - 1
  {
    var a := Puts(RANGE - 1);
    var b := a + [Flush];
    var c := b + [PutChar('y')];
    RunPuts(RANGE - 1);
    AppendOp(a, Flush);
    AppendOp(b, PutChar('y'));
    AppendOp(c, Flush);
  }

  lemma AppendOp(ops: seq<Op>, op: Op)
    ensures RunLog(ops + [op])
         == var run := RunLog(ops);
            match op
            case PutChar(c) => run.(log := run.log.(written := run.log.written + [c]))
            case Flush => LogRun(run.log.(done := |run.log.written|), run.flushes + [run.log])
  {
    assert (ops + [op])[..|ops|] == ops;
  }

  // ----- The ring updated in place -----

  class LogBuffer {
    var buf: array<char>
    var head: nat
    var tail: nat

    ghost predicate Valid()
      reads this
    {
      PowerOfTwo(buf.Length)
    }

    ghost function View(): Ring
      reads this, buf
    {
      Ring(buf[..], head, tail)
    }

    method PutC(c: char)
      requires Valid()
      modifies this`head, buf
      ensures Valid() && View() == Put(old(View()), c)
    {
      IndexIsRemainder(head, buf.Length);
      buf[Index(head, buf.Length)] := c;
      head := (head + 1) % RANGE;
    }

    /** console_flush */
    method FlushAll() returns (out: seq<char>)
      requires Valid()
      modifies this`tail
      ensures out == Flushed(old(View())) && View() == old(View()).(tail := head)
    {
      if (head - tail) % RANGE > buf.Length {
        tail := (head - buf.Length) % RANGE;
      }
      out := Drain(View().(tail := old(tail)));
      tail := head;
    }

    /** The flush loop; Slice does not depend on the tail of r. */
    method Drain(ghost r: Ring) returns (out: seq<char>)
      requires Valid() && r == View().(tail := r.tail)
      modifies this`tail
      ensures out == Slice(r, old(tail))
    {
      out := [];
      while tail < head
        invariant out + Slice(r, tail) == Slice(r, old(tail))
      {
        IndexIsRemainder(tail, buf.Length);
        var c := buf[Index(tail, buf.Length)];
        assert Slice(r, tail) == [c] + Slice(r, tail + 1);
        assert out + ([c] + Slice(r, tail + 1)) == (out + [c]) + Slice(r, tail + 1);
        out := out + [c];
        tail := tail + 1;
      }
    }
  }
}
