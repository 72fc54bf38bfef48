/** The compare-and-set loops of include/freebsd/atomic.h.

    `World` interleaves any number of calls on one counter, one memory access per
    step, and notes every call with its result as it completes.  The main theorem is
    linearizability: the completed calls, in order of completion, are a legal history
    of operations that each happen at once.  The class `Cell` holds the same loops as
    methods, run against a finite schedule of interfering writes. */
module Atomics {
  import opened Bits
  import opened Wrappers

  /** A 32-bit pattern, as the natural number it denotes without sign. */
  type Word = nat

  const WORD_RANGE := 0x1_0000_0000

  function Plus(a: Word, b: Word): Word {
    (a + b) % WORD_RANGE
  }

  datatype BitOp = OrOp | AndOp | AndNotOp | XorOp

  function Eval(f: BitOp, c: Word, i: Word): Word {
    match f
    case OrOp => Or(c, i)
    case AndOp => And(c, i)
    case AndNotOp => AndNot(c, i)
    case XorOp => Xor(c, i)
  }

  datatype Op =
    | Read
    | Store(value: Word)
    | FetchAdd(value: Word)
    | CmpSet(expected: Word, desired: Word)
    | AddUnless(a: Word, u: Word)
    | Xchg(value: Word)
    | CmpXchg(expected: Word, desired: Word)
    | FetchBits(f: BitOp, i: Word)

  datatype Result = Result(value: Word, ret: Word)

  /** What each operation does when it happens at once. */
  function Atomically(op: Op, v: Word): Result {
    match op
    case Read => Result(v, v)
    case Store(x) => Result(x, 0)
    case FetchAdd(x) => Result(Plus(v, x), v)
    case CmpSet(o, n) => if v == o then Result(n, 1) else Result(v, 0)
    case AddUnless(a, u) => if v == u then Result(v, 0) else Result(Plus(v, a), 1)
    case Xchg(x) => Result(x, v)
    case CmpXchg(o, n) => if v == o then Result(n, v) else Result(v, v)
    case FetchBits(f, i) => Result(Eval(f, v, i), v)
  }

  /** Bit k of the result of a bit operation. */
  predicate WantedBit(f: BitOp, c: Word, i: Word, k: nat) {
    match f
    case OrOp => Bit(c, k) || Bit(i, k)
    case AndOp => Bit(c, k) && Bit(i, k)
    case AndNotOp => Bit(c, k) && !Bit(i, k)
    case XorOp => Bit(c, k) != Bit(i, k)
  }

  lemma EvalBits(f: BitOp, c: Word, i: Word, k: nat)
    ensures Bit(Eval(f, c, i), k) <==> WantedBit(f, c, i, k)
  {
    match f {
      case OrOp => OrBit(c, i, k);
      case AndOp => AndBit(c, i, k);
      case AndNotOp => AndNotBit(c, i, k);
      case XorOp => XorBit(c, i, k);
    }
  }

  /** The new value and the result of each operation, written out. */
  lemma AtomicallyMeans(op: Op, v: Word)
    ensures var r := Atomically(op, v);
            match op
            case Read => r == Result(v, v)
            case Store(x) => r.value == x
            case FetchAdd(x) => r == Result((v + x) % 0x1_0000_0000, v)
            case CmpSet(o, n) => r == if v == o then Result(n, 1) else Result(v, 0)
            case AddUnless(a, u) => r == if v == u then Result(v, 0) else Result((v + a) % 0x1_0000_0000, 1)
            case Xchg(x) => r == Result(x, v)
            case CmpXchg(o, n) => r == Result(if v == o then n else v, v)
            case FetchBits(f, i) => r.ret == v && forall k: nat :: Bit(r.value, k) <==> WantedBit(f, v, i, k)
  {
    if op.FetchBits? {
      forall k: nat ensures Bit(Eval(op.f, v, op.i), k) <==> WantedBit(op.f, v, op.i, k) {
        EvalBits(op.f, v, op.i, k);
      }
    }
  }

  /** Whether the operation writes when it finds v. */
  predicate Swapping(op: Op, v: Word) {
    match op
    case Read => false
    case CmpSet(o, _) => v == o
    case AddUnless(_, u) => v != u
    case CmpXchg(o, _) => v == o
    case _ => true
  }

  // ----- The loops, one memory access at a time -----

  /** Where a call is: about to read the counter (or to run its one uninterruptible
      section), about to compare-and-set with expected value c, about to re-read after
      a failed compare-and-set, or finished. */
  datatype Pc = Begin | Attempt(c: Word) | Reread(c: Word) | Done(ret: Word)

  datatype Access = Access(counter: Word, pc: Pc)

  function FirstPc(op: Op): Pc {
    if op.CmpXchg? then Attempt(op.expected) else Begin
  }

  /** The value a loop tries to install over c, and what it returns if it does. */
  function Proposal(op: Op, c: Word): Result
    requires op.AddUnless? || op.Xchg? || op.CmpXchg? || op.FetchBits?
  {
    match op
    case AddUnless(a, _) => Result(Plus(c, a), 1)
    case Xchg(x) => Result(x, c)
    case CmpXchg(_, n) => Result(n, c)
    case FetchBits(f, i) => Result(Eval(f, c, i), c)
  }

  function Move(op: Op, pc: Pc, counter: Word): Access
    requires !pc.Done?
    requires pc.Attempt? || pc.Reread? ==> op.AddUnless? || op.Xchg? || op.CmpXchg? || op.FetchBits?
  {
    match pc
    case Begin =>
      (match op
       case Read => Access(counter, Done(counter))
       case Store(x) => Access(x, Done(0))
       case FetchAdd(x) => Access(Plus(counter, x), Done(counter))
       case CmpSet(o, n) => if counter == o then Access(n, Done(1)) else Access(counter, Done(0))
       case AddUnless(_, u) => if counter == u then Access(counter, Done(0)) else Access(counter, Attempt(counter))
       case Xchg(_) => Access(counter, Attempt(counter))
       case CmpXchg(o, _) => Access(counter, Attempt(o))
       case FetchBits(_, _) => Access(counter, Attempt(counter)))
    case Attempt(c) =>
      if counter == c then Access(Proposal(op, c).value, Done(Proposal(op, c).ret))
      else if op.CmpXchg? || op.FetchBits? then Access(counter, Reread(c))
      else Access(counter, Begin)
    case Reread(c) =>
      if op.CmpXchg? && counter != c then Access(counter, Done(counter))
      else Access(counter, Attempt(counter))
  }

  // ----- Interleavings -----

  type CallId = nat

  datatype Call = Call(op: Op, pc: Pc)

  datatype Completion = Completion(id: CallId, op: Op, ret: Word)

  datatype World = World(counter: Word, calls: seq<Call>, history: seq<Completion>)

  datatype Event = Invoke(op: Op) | Go(id: CallId)

  predicate Looping(op: Op) {
    op.AddUnless? || op.Xchg? || op.CmpXchg? || op.FetchBits?
  }

  predicate Enabled(w: World, e: Event) {
    e.Go? ==>
      && e.id < |w.calls| && !w.calls[e.id].pc.Done?
      && (w.calls[e.id].pc.Begin? || Looping(w.calls[e.id].op))
  }

  function Step(w: World, e: Event): World
    requires Enabled(w, e)
  {
    match e
    case Invoke(op) => w.(calls := w.calls + [Call(op, FirstPc(op))])
    case Go(id) =>
      var call := w.calls[id];
      var a := Move(call.op, call.pc, w.counter);
      World(a.counter,
            w.calls[id := call.(pc := a.pc)],
            if a.pc.Done? then w.history + [Completion(id, call.op, a.pc.ret)] else w.history)
  }

  /** The counter after the completed calls, each taken at once in this order; None when
      some result is not what such an execution returns. */
  function Replay(start: Word, history: seq<Completion>): (r: Option<Word>)
  {
    if history == [] then Some(start)
    else
      var h := history[|history| - 1];
      match Replay(start, history[..|history| - 1])
      case None => None
      case Some(v) => if Atomically(h.op, v).ret == h.ret then Some(Atomically(h.op, v).value) else None
  }

  /** What a call's locals promise. */
  predicate CallOk(call: Call) {
    && (call.pc.Attempt? ==> Looping(call.op))
    && (call.pc.Begin? ==> !call.op.CmpXchg?)
    && (call.pc.Reread? ==> call.op.CmpXchg? || call.op.FetchBits?)
    && (call.pc.Attempt? && call.op.AddUnless? ==> call.pc.c != call.op.u)
    && ((call.pc.Attempt? || call.pc.Reread?) && call.op.CmpXchg? ==> call.pc.c == call.op.expected)
  }

  /** A step that completes a call has exactly the effect and result of the whole
      operation at that moment; any other step leaves the counter alone. */
  lemma MoveIsAtomic(op: Op, pc: Pc, counter: Word)
    requires CallOk(Call(op, pc)) && !pc.Done?
    ensures var a := Move(op, pc, counter);
            && CallOk(Call(op, a.pc))
            && (a.pc.Done? ==> Atomically(op, counter) == Result(a.counter, a.pc.ret))
            && (!a.pc.Done? ==> a.counter == counter)
  {
  }

  /** Every finished call is in the history with its result. */
  ghost predicate Noted(calls: seq<Call>, history: seq<Completion>) {
    forall id :: 0 <= id < |calls| && calls[id].pc.Done? ==>
      Completion(id, calls[id].op, calls[id].pc.ret) in history
  }

  /** Every call in the history is finished, and is there once. */
  ghost predicate Once(calls: seq<Call>, history: seq<Completion>) {
    && (forall k :: 0 <= k < |history| ==> history[k].id < |calls| && calls[history[k].id].pc.Done?)
    && (forall j, k :: 0 <= j < k < |history| ==> history[j].id != history[k].id)
  }

  ghost predicate Inv(w: World, start: Word) {
    && Replay(start, w.history) == Some(w.counter)
    && (forall id :: 0 <= id < |w.calls| ==> CallOk(w.calls[id]))
    && Noted(w.calls, w.history)
    && Once(w.calls, w.history)
  }

  lemma InvokeKeeps(w: World, start: Word, op: Op)
    requires Inv(w, start)
    ensures Inv(Step(w, Invoke(op)), start)
  {
  }

  lemma GoKeeps(w: World, start: Word, id: CallId)
    requires Inv(w, start) && Enabled(w, Go(id))
    ensures Inv(Step(w, Go(id)), start)
  {
    var call := w.calls[id];
    MoveIsAtomic(call.op, call.pc, w.counter);
    var a := Move(call.op, call.pc, w.counter);
    if a.pc.Done? { CompletionKeeps(w, start, id, call.op, a.counter, a.pc.ret); }
  }

  lemma ReplayAppend(start: Word, history: seq<Completion>, h: Completion, v: Word)
    requires Replay(start, history) == Some(v) && Atomically(h.op, v).ret == h.ret
    ensures Replay(start, history + [h]) == Some(Atomically(h.op, v).value)
  {
  }

  lemma NoteCompletion(calls: seq<Call>, history: seq<Completion>, id: CallId, op: Op, ret: Word)
    requires Noted(calls, history) && id < |calls|
    ensures Noted(calls[id := Call(op, Done(ret))], history + [Completion(id, op, ret)])
  {
  }

  lemma CompleteOnce(calls: seq<Call>, history: seq<Completion>, id: CallId, op: Op, ret: Word)
    requires Once(calls, history) && id < |calls| && !calls[id].pc.Done?
    ensures Once(calls[id := Call(op, Done(ret))], history + [Completion(id, op, ret)])
  {
  }

  lemma CompletionKeeps(w: World, start: Word, id: CallId, op: Op, counter: Word, ret: Word)
    requires Inv(w, start) && id < |w.calls| && w.calls[id].op == op && !w.calls[id].pc.Done?
    requires Atomically(op, w.counter) == Result(counter, ret)
    ensures Inv(World(counter, w.calls[id := Call(op, Done(ret))], w.history + [Completion(id, op, ret)]), start)
  {
    ReplayAppend(start, w.history, Completion(id, op, ret), w.counter);
    NoteCompletion(w.calls, w.history, id, op, ret);
    CompleteOnce(w.calls, w.history, id, op, ret);
  }

  ghost predicate IsRun(ws: seq<World>, es: seq<Event>) {
    && |ws| == |es| + 1
    && ws[0] == World(ws[0].counter, [], [])
    && forall i :: 0 <= i < |es| ==> Leads(ws[i], es[i], ws[i + 1])
  }

  ghost predicate Leads(w: World, e: Event, w': World) {
    Enabled(w, e) && w' == Step(w, e)
  }

  /** Linearizability: in every interleaving the completed calls, in order of
      completion, return what they would return one after the other, and leave the
      counter as it is; each call completes once, and is in the history exactly when
      it is done. */
  lemma {:induction false} Linearizable(ws: seq<World>, es: seq<Event>, n: nat)
    requires IsRun(ws, es) && n <= |es|
    ensures Replay(ws[0].counter, ws[n].history) == Some(ws[n].counter)
    ensures Noted(ws[n].calls, ws[n].history) && Once(ws[n].calls, ws[n].history)
    ensures Inv(ws[n], ws[0].counter)
  {
    if n == 0 {
    } else {
      Linearizable(ws, es, n - 1);
      assert Leads(ws[n - 1], es[n - 1], ws[n]);
      match es[n - 1] {
        case Invoke(op) => InvokeKeeps(ws[n - 1], ws[0].counter, op);
        case Go(id) => GoKeeps(ws[n - 1], ws[0].counter, id);
      }
    }
  }

  /** cmpxchg returns the expected value if and only if it swapped: in the step that
      completes it, the counter becomes the new value in that case and is untouched
      otherwise. */
  lemma CmpXchgExact(ws: seq<World>, es: seq<Event>, n: nat, id: CallId)
    requires IsRun(ws, es) && n < |es| && es[n] == Go(id)
    requires id < |ws[n].calls| && ws[n].calls[id].op.CmpXchg?
    requires id < |ws[n + 1].calls| && ws[n + 1].calls[id].pc.Done?
    ensures var op, ret := ws[n].calls[id].op, ws[n + 1].calls[id].pc.ret;
            && ret == ws[n].counter
            && ws[n + 1].counter == if ret == op.expected then op.desired else ws[n].counter
  {
    Linearizable(ws, es, n);
    assert Leads(ws[n], es[n], ws[n + 1]);
    var call := ws[n].calls[id];
    MoveIsAtomic(call.op, call.pc, ws[n].counter);
  }

  // ----- Progress -----

  /** How many of the first n events are steps of call `id`. */
  function Steps(es: seq<Event>, id: CallId, n: nat): nat
    requires n <= |es|
  {
    if n == 0 then 0 else Steps(es, id, n - 1) + if es[n - 1] == Go(id) then 1 else 0
  }

  /** The steps a call may have taken once h calls have completed: two for each of them,
      and for cmpxchg two more, because the value it first expects need never have been
      there. */
  function Allowance(op: Op, h: int): int {
    if op.CmpXchg? then 2 * h + 2 else 2 * h
  }

  /** A call about to compare-and-set over the value in the counter has one step in hand;
      one whose value is stale has already paid for the completion that made it so. */
  predicate WithinBudget(call: Call, counter: Word, s: int, h: int) {
    match call.pc
    case Attempt(c) => s <= Allowance(call.op, h) + if counter == c then 1 else -1
    case _ => s <= Allowance(call.op, h)
  }

  /** A step of the call itself. */
  lemma OwnStep(call: Call, counter: Word, s: int, h: int)
    requires CallOk(call) && !call.pc.Done? && WithinBudget(call, counter, s, h)
    ensures var a := Move(call.op, call.pc, counter);
            WithinBudget(call.(pc := a.pc), a.counter, s + 1, if a.pc.Done? then h + 1 else h)
  {
  }

  /** A step of another call, which changes the counter only by completing. */
  lemma OtherStep(call: Call, counter: Word, counter': Word, s: int, h: int, h': int)
    requires WithinBudget(call, counter, s, h)
    requires h' == h + 1 || (h' == h && counter' == counter)
    ensures WithinBudget(call, counter', s, h')
  {
  }

  /** Any step of a run, after `start` completions at the invocation. */
  lemma BudgetStep(w: World, e: Event, id: CallId, s: int, start: nat)
    requires Enabled(w, e) && id < |w.calls| && (forall k :: 0 <= k < |w.calls| ==> CallOk(w.calls[k]))
    requires WithinBudget(w.calls[id], w.counter, s, |w.history| - start)
    ensures var w' := Step(w, e);
            && id < |w'.calls| && w'.calls[id].op == w.calls[id].op
            && WithinBudget(w'.calls[id], w'.counter, s + if e == Go(id) then 1 else 0, |w'.history| - start)
  {
    var w', call, h := Step(w, e), w.calls[id], |w.history| - start;
    if e == Go(id) {
      OwnStep(call, w.counter, s, h);
    } else {
      if e.Go? { MoveIsAtomic(w.calls[e.id].op, w.calls[e.id].pc, w.counter); }
      assert w'.calls[id] == call;
      OtherStep(call, w.counter, w'.counter, s, h, |w'.history| - start);
    }
  }

  /** Lock-freedom, with a bound: in every run a call has taken at most two steps for each
      call that has completed since it was invoked, and one or three more.  A call that
      goes on retrying is overtaken by completed ones. */
  lemma LockFree(ws: seq<World>, es: seq<Event>, m: nat, n: nat, id: CallId)
    requires IsRun(ws, es) && m < n <= |es| && es[m].Invoke? && id == |ws[m].calls|
    ensures Steps(es, id, n)
         <= 2 * (|ws[n].history| - |ws[m].history|) + if es[m].op.CmpXchg? then 3 else 1
  {
    BudgetInRun(ws, es, m, n, id);
  }

  lemma {:induction false} BudgetInRun(ws: seq<World>, es: seq<Event>, m: nat, n: nat, id: CallId)
    requires IsRun(ws, es) && m < n <= |es| && es[m].Invoke? && id == |ws[m].calls|
    ensures id < |ws[n].calls| && ws[n].calls[id].op == es[m].op
    ensures WithinBudget(ws[n].calls[id], ws[n].counter, Steps(es, id, n), |ws[n].history| - |ws[m].history|)
  {
    if n == m + 1 {
      NoStepsYet(ws, es, m, id);
      CallsAreOk(ws, es, m);
      FreshBudget(ws[m], ws[n], es[m]);
    } else {
      BudgetInRun(ws, es, m, n - 1, id);
      CallsAreOk(ws, es, n - 1);
      BudgetStep(ws[n - 1], es[n - 1], id, Steps(es, id, n - 1), |ws[m].history|);
    }
  }

  lemma CallsAreOk(ws: seq<World>, es: seq<Event>, n: nat)
    requires IsRun(ws, es) && n < |es|
    ensures forall k :: 0 <= k < |ws[n].calls| ==> CallOk(ws[n].calls[k])
    ensures Leads(ws[n], es[n], ws[n + 1])
  {
    Linearizable(ws, es, n);
  }

  lemma FreshBudget(w: World, w': World, e: Event)
    requires Leads(w, e, w') && e.Invoke?
    ensures w'.calls == w.calls + [Call(e.op, FirstPc(e.op))] && |w'.history| == |w.history|
    ensures WithinBudget(w'.calls[|w.calls|], w'.counter, 0, 0)
  {
  }

  /** A call takes no step before it is invoked. */
  lemma NoStepsYet(ws: seq<World>, es: seq<Event>, m: nat, id: CallId)
    requires IsRun(ws, es) && m < |es| && es[m].Invoke? && id == |ws[m].calls|
    ensures Steps(es, id, m + 1) == 0
  {
    NoStepsWithout(ws, es, m, id);
  }

  lemma {:induction false} NoStepsWithout(ws: seq<World>, es: seq<Event>, n: nat, id: CallId)
    requires IsRun(ws, es) && n <= |es| && |ws[n].calls| <= id
    ensures Steps(es, id, n) == 0
  {
    if n == 0 {
    } else {
      assert Leads(ws[n - 1], es[n - 1], ws[n]);
      NoStepsWithout(ws, es, n - 1, id);
    }
  }

  /** Without a completion the counter stays as it is. */
  lemma {:induction false} CounterStable(ws: seq<World>, es: seq<Event>, m: nat, n: nat)
    requires IsRun(ws, es) && m <= n <= |es|
    ensures |ws[m].history| <= |ws[n].history|
    ensures ws[m].counter != ws[n].counter ==> |ws[m].history| < |ws[n].history|
  {
    if m == n {
    } else {
      CounterStable(ws, es, m, n - 1);
      Linearizable(ws, es, n - 1);
      var w, e := ws[n - 1], es[n - 1];
      assert Leads(w, e, ws[n]);
      if e.Go? { MoveIsAtomic(w.calls[e.id].op, w.calls[e.id].pc, w.counter); }
    }
  }

  /** Only its own steps move a call. */
  lemma {:induction false} Untouched(ws: seq<World>, es: seq<Event>, m: nat, n: nat, id: CallId)
    requires IsRun(ws, es) && m <= n <= |es| && id < |ws[m].calls|
    requires forall k :: m <= k < n ==> es[k] != Go(id)
    ensures id < |ws[n].calls| && ws[n].calls[id] == ws[m].calls[id]
  {
    if m == n {
    } else {
      Untouched(ws, es, m, n - 1, id);
      assert Leads(ws[n - 1], es[n - 1], ws[n]);
    }
  }

  /** A compare-and-set that fails on a value the call has read shows that another call has
      completed since. */
  lemma FailureMeansProgress(ws: seq<World>, es: seq<Event>, m: nat, n: nat, id: CallId)
    requires IsRun(ws, es) && m < n < |es| && es[m] == Go(id) && es[n] == Go(id)
    requires forall k :: m < k < n ==> es[k] != Go(id)
    requires id < |ws[m + 1].calls| && ws[m + 1].calls[id].pc.Attempt?
    requires id < |ws[n + 1].calls| && !ws[n + 1].calls[id].pc.Done?
    ensures |ws[m + 1].history| < |ws[n].history|
  {
    Linearizable(ws, es, m);
    assert Leads(ws[m], es[m], ws[m + 1]) && Leads(ws[n], es[n], ws[n + 1]);
    ReadIsFresh(ws[m].calls[id], ws[m].counter);
    Untouched(ws, es, m + 1, n, id);
    CounterStable(ws, es, m + 1, n);
  }

  /** A step that leads to a compare-and-set has just read the value it expects. */
  lemma ReadIsFresh(call: Call, counter: Word)
    requires CallOk(call) && !call.pc.Done?
    ensures var a := Move(call.op, call.pc, counter);
            a.pc.Attempt? ==> a.pc.c == counter == a.counter
  {
  }

  // ----- The loops as methods -----

  datatype Swap = Swap(before: Word, after: Word)

  /** `schedule[k]` is what others write just before the k-th access, if anything;
      `swaps` are this caller's own writes. */
  class Cell {
    var counter: Word
    var clock: nat
    var swaps: seq<Swap>
    const schedule: seq<Option<Word>>

    constructor (value: Word, schedule: seq<Option<Word>>)
      ensures counter == value && clock == 0 && swaps == [] && this.schedule == schedule
    {
      counter, clock, swaps := value, 0, [];
      this.schedule := schedule;
    }

    /** Others may write; once the schedule is used up nobody does. */
    method Interfere()
      modifies this`counter, this`clock
      ensures clock == old(clock) + 1
      ensures counter == if old(clock) < |schedule| && schedule[old(clock)].Some?
                         then schedule[old(clock)].value else old(counter)
    {
      if clock < |schedule| && schedule[clock].Some? {
        counter := schedule[clock].value;
      }
      clock := clock + 1;
    }

    method ReadOnce() returns (v: Word)
      modifies this`counter, this`clock
      ensures v == counter && clock == old(clock) + 1
      ensures counter != old(counter) ==> old(clock) < |schedule|
    {
      Interfere();
      v := counter;
    }

    /** What an operation that happens at once on value v has done to the cell: its result
        is `ret`, and it has written at most once. */
    ghost predicate HasDone(op: Op, v: Word, ret: Word, before: seq<Swap>)
      reads this
    {
      && Atomically(op, v) == Result(counter, ret)
      && swaps == if Swapping(op, v) then before + [Swap(v, counter)] else before
    }

    /** atomic_cmpset_int: the guarded section after one more chance to interfere. */
    method CompareSet(cmpval: Word, newval: Word) returns (ok: bool, ghost v: Word)
      modifies this
      ensures HasDone(CmpSet(cmpval, newval), v, if ok then 1 else 0, old(swaps))
      ensures ok <==> v == cmpval
      ensures counter == if ok then newval else v
      ensures v != old(counter) ==> old(clock) < |schedule|
      ensures clock == old(clock) + 1
    {
      Interfere();
      v := counter;
      ok := counter == cmpval;
      if ok {
        swaps := swaps + [Swap(counter, newval)];
        counter := newval;
      }
    }

    /** atomic_add_unless: one write that adds a to a value other than u, or none and u
        was read. */
    method AddUnlessLoop(a: Word, u: Word) returns (ret: Word, ghost v: Word)
      modifies this
      ensures HasDone(AddUnless(a, u), v, ret, old(swaps))
      ensures ret == 0 ==> v == u == counter && swaps == old(swaps)
      ensures ret != 0 ==> ret == 1 && v != u && counter == (v + a) % 0x1_0000_0000
                           && swaps == old(swaps) + [Swap(v, counter)]
    {
      var c := ReadOnce();
      var stop := c == u;
      v := c;
      while !stop
        invariant stop ==> HasDone(AddUnless(a, u), v, if c != u then 1 else 0, old(swaps))
        invariant !stop ==> c == counter && c != u && swaps == old(swaps)
        decreases !stop, |schedule| - clock
      {
        stop, v := CompareSet(c, Plus(c, a));
        if !stop {
          c := ReadOnce();
          v := c;
          stop := c == u;
        }
      }
      ret := if c != u then 1 else 0;
    }

    /** atomic_xchg: exactly one write, over the value returned. */
    method XchgLoop(i: Word) returns (ret: Word, ghost v: Word)
      modifies this
      ensures HasDone(Xchg(i), v, ret, old(swaps))
      ensures ret == v && counter == i && swaps == old(swaps) + [Swap(v, i)]
    {
      ret := ReadOnce();
      var ok;
      ok, v := CompareSet(ret, i);
      while !ok
        invariant ok ==> HasDone(Xchg(i), v, ret, old(swaps))
        invariant !ok ==> swaps == old(swaps)
        decreases !ok, |schedule| - clock
      {
        ret := ReadOnce();
        ok, v := CompareSet(ret, i);
      }
    }

    /** atomic_cmpxchg: returns the value found, and has swapped if and only if that is the
        expected one. */
    method CmpXchgLoop(expected: Word, desired: Word) returns (ret: Word, ghost v: Word)
      modifies this
      ensures HasDone(CmpXchg(expected, desired), v, ret, old(swaps))
      ensures ret == v && counter == if v == expected then desired else v
      ensures swaps == if v == expected then old(swaps) + [Swap(v, desired)] else old(swaps)
      ensures ret != expected && counter != old(counter) ==> old(clock) < |schedule|
      ensures clock > old(clock)
    {
      ret := expected;
      var stop;
      stop, v := CompareSet(expected, desired);
      while !stop
        invariant stop ==> HasDone(CmpXchg(expected, desired), v, ret, old(swaps))
        invariant !stop ==> swaps == old(swaps)
        invariant (!stop || ret != expected) && counter != old(counter) ==> old(clock) < |schedule|
        invariant clock > old(clock)
        decreases !stop, |schedule| - clock
      {
        ret := ReadOnce();
        v := ret;
        stop := ret != expected;
        if !stop {
          stop, v := CompareSet(expected, desired);
        }
      }
    }

    /** LINUX_ATOMIC_FETCH_OP: exactly one write, of the operation applied to the value
        returned.  LINUX_ATOMIC_OP is the same loop without the result. */
    method FetchBitsLoop(f: BitOp, i: Word) returns (c: Word, ghost v: Word)
      modifies this
      ensures HasDone(FetchBits(f, i), v, c, old(swaps))
      ensures c == v && swaps == old(swaps) + [Swap(v, counter)]
      ensures forall k: nat :: Bit(counter, k) <==> WantedBit(f, v, i, k)
    {
      c := ReadOnce();
      var before;
      before, v := CmpXchgLoop(c, Eval(f, c, i));
      while before != c
        invariant before == c ==> HasDone(FetchBits(f, i), v, c, old(swaps))
        invariant before != c ==> counter == before && swaps == old(swaps)
        decreases before != c, |schedule| - clock
      {
        c := before;
        before, v := CmpXchgLoop(c, Eval(f, c, i));
      }
      AtomicallyMeans(FetchBits(f, i), v);
    }
  }
}
