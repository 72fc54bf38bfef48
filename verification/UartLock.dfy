/** The interface lock protocol of api/scm_uart.c.

    `Intf` is the shared record of one direction (transmit or receive): the lock
    `prot`, the completion semaphore `done`, the `sync` flag and the callback.
    `Channel` interleaves any number of calling tasks with the driver's interrupt
    handler on one direction, one atomic step at a time; `Port` joins the two
    directions, which a reset couples. */
module UartLock {
  import opened Wrappers

  const WISE_OK := 0
  const WISE_ERR_INVALID_STATE := 0x103
  const WISE_ERR_TIMEOUT := 0x107
  const WISE_ERR_IOCTL := 0x10C
  const NO_CALLBACK := 0

  // ----- The shared record -----

  datatype Intf = Intf(prot: nat, done: nat, sync: bool, notify: int)

  /** Give to a semaphore whose maximum count is 1. */
  function Give(count: nat): nat {
    if count < 1 then count + 1 else count
  }

  datatype Kind = Sync | Async

  datatype Request = Request(kind: Kind, notify: int)

  function ArmFor(i: Intf, r: Request): Intf {
    if r.kind.Sync? then i.(sync := true) else i.(sync := false, notify := r.notify)
  }

  predicate ArmedFor(i: Intf, r: Request) {
    i.sync == r.kind.Sync? && (r.kind.Async? ==> i.notify == r.notify)
  }

  /** uart_notify for an event without error. */
  function Completed(i: Intf): Intf {
    if i.sync then i.(done := Give(i.done)) else i.(prot := Give(i.prot))
  }

  // ----- Callers and the interrupt handler -----

  type Task = nat
  type CallId = nat

  /** How far a call has come since it took the lock. */
  datatype Pc =
    | Entered(id: CallId)
    | Armed(id: CallId)
    | Waiting(id: CallId)
    | TimedOut(id: CallId)
    | Leaving(id: CallId)

  datatype Callback = Callback(id: CallId, notify: int)

  /** `flight` are the transfers the driver is carrying out, `loose` the asynchronous
      call that returned with the lock still taken.  `calls`, `released` and `called`
      record every acquisition, release and callback; `excess` counts releases of a
      lock that was already free. */
  datatype Channel = Channel(
    i: Intf,
    open: bool,
    flight: set<CallId>,
    callers: map<Task, Pc>,
    loose: Option<CallId>,
    calls: seq<Request>,
    released: seq<CallId>,
    called: seq<Callback>,
    excess: nat)

  datatype Event =
    | Lock(task: Task, request: Request)
    | Refuse(task: Task)
    | Arm(task: Task)
    | Submit(task: Task)
    | SubmitFails(task: Task)
    | Wake(task: Task)
    | Expire(task: Task)
    | ResetPort(task: Task)
    | ResetFails(task: Task)
    | Unlock(task: Task)
    | Complete(id: CallId)
    | ErrorEvent(id: CallId)
    | Cancel

  function Start(open: bool): Channel {
    Channel(Intf(1, 0, true, NO_CALLBACK), open, {}, map[], None, [], [], [], 0)
  }

  predicate Enabled(c: Channel, e: Event) {
    match e
    case Lock(t, _) => t !in c.callers && c.i.prot > 0
    case Refuse(t) => t in c.callers && c.callers[t].Entered? && !c.open
    case Arm(t) => t in c.callers && c.callers[t].Entered? && c.open && c.callers[t].id < |c.calls|
    case Submit(t) => t in c.callers && c.callers[t].Armed? && c.callers[t].id < |c.calls|
    case SubmitFails(t) => t in c.callers && c.callers[t].Armed?
    case Wake(t) => t in c.callers && c.callers[t].Waiting? && c.i.done > 0
    case Expire(t) => t in c.callers && c.callers[t].Waiting? && c.i.done == 0
    case ResetPort(t) => t in c.callers && c.callers[t].TimedOut?
    case ResetFails(t) => t in c.callers && c.callers[t].TimedOut?
    case Unlock(t) => t in c.callers && c.callers[t].Leaving?
    case Complete(id) => id in c.flight
    case ErrorEvent(id) => id in c.flight
    case Cancel => true
  }

  /** Release the lock on behalf of call `id`. */
  function Release(c: Channel, id: CallId): Channel {
    c.(i := c.i.(prot := Give(c.i.prot)),
       released := c.released + [id],
       excess := if c.i.prot > 0 then c.excess + 1 else c.excess)
  }

  function Leave(c: Channel, t: Task): Channel
    requires t in c.callers
  {
    Release(c, c.callers[t].id).(callers := c.callers - {t})
  }

  function Advance(c: Channel, t: Task, pc: Pc): Channel {
    c.(callers := c.callers[t := pc])
  }

  /** The interrupt handler reports transfer `id` as complete. */
  function OnComplete(c: Channel, id: CallId): Channel {
    var c1 := c.(flight := c.flight - {id});
    if c.i.sync then
      c1.(i := Completed(c.i))
    else
      Release(c1, id).(
        loose := None,
        called := if c.i.notify != NO_CALLBACK then c.called + [Callback(id, c.i.notify)] else c.called)
  }

  function Step(c: Channel, e: Event): Channel
    requires Enabled(c, e)
  {
    match e
    case Lock(t, r) =>
      Advance(c.(i := c.i.(prot := c.i.prot - 1), calls := c.calls + [r]), t, Entered(|c.calls|))
    case Refuse(t) => Leave(c, t)
    case Arm(t) =>
      var id := c.callers[t].id;
      Advance(c.(i := ArmFor(c.i, c.calls[id])), t, Armed(id))
    case Submit(t) =>
      var id := c.callers[t].id;
      var c1 := c.(flight := c.flight + {id});
      if c.calls[id].kind.Sync? then Advance(c1, t, Waiting(id))
      else c1.(callers := c.callers - {t}, loose := Some(id))
    case SubmitFails(t) => Leave(c, t)
    case Wake(t) => Advance(c.(i := c.i.(done := c.i.done - 1)), t, Leaving(c.callers[t].id))
    case Expire(t) => Advance(c, t, TimedOut(c.callers[t].id))
    case ResetPort(t) => Advance(c.(flight := {}), t, Leaving(c.callers[t].id))
    case ResetFails(t) => Advance(c, t, Leaving(c.callers[t].id))
    case Unlock(t) => Leave(c, t)
    case Complete(id) => OnComplete(c, id)
    case ErrorEvent(id) => c.(flight := c.flight - {id})
    case Cancel => c.(flight := {})
  }

  // ----- The protocol invariant -----

  /** Nothing is in flight and no completion is pending. */
  predicate Calm(c: Channel) {
    c.flight == {} && c.i.done == 0
  }

  /** What holds while a task is at `pc`. */
  predicate CallerOk(c: Channel, pc: Pc) {
    && pc.id < |c.calls| && pc.id !in c.released && (pc.Entered? || c.open)
    && var r := c.calls[pc.id];
       match pc
       case Entered(_) => Calm(c)
       case Armed(_) => Calm(c) && ArmedFor(c.i, r)
       case Waiting(id) => r.kind.Sync? && c.i.sync && c.flight <= {id} && (c.i.done > 0 ==> c.flight == {})
       case TimedOut(id) => r.kind.Sync? && c.i.sync && c.flight <= {id} && c.i.done == 0
       case Leaving(_) => Calm(c)
  }

  predicate LooseOk(c: Channel, id: CallId) {
    && id < |c.calls| && id !in c.released
    && c.calls[id] == Request(Async, c.i.notify) && !c.i.sync
    && c.flight <= {id} && c.i.done == 0
  }

  ghost predicate Distinct(s: seq<CallId>) {
    forall i, j :: 0 <= i < j < |s| ==> s[i] != s[j]
  }

  /** Callbacks ran once per call, for asynchronous calls only, with the function that
      very call passed. */
  ghost predicate HistoryOk(c: Channel) {
    && c.excess == 0
    && Distinct(c.released)
    && (forall k :: 0 <= k < |c.released| ==> c.released[k] < |c.calls|)
    && (forall k :: 0 <= k < |c.called| ==>
          && c.called[k].id in c.released
          && c.called[k].id < |c.calls|
          && c.calls[c.called[k].id] == Request(Async, c.called[k].notify))
    && (forall j, k :: 0 <= j < k < |c.called| ==> c.called[j].id != c.called[k].id)
  }

  /** At most one owner; the lock is free exactly when there is none. */
  ghost predicate OwnerOk(c: Channel) {
    && c.i.prot <= 1 && c.i.done <= 1
    && (forall t, u :: t in c.callers && u in c.callers ==> t == u)
    && (c.loose.Some? ==> c.callers == map[])
    && (c.i.prot == 1 <==> c.callers == map[] && c.loose.None?)
    && (c.i.prot == 1 ==> Calm(c))
  }

  ghost predicate Inv(c: Channel) {
    && OwnerOk(c)
    && (forall t :: t in c.callers ==> CallerOk(c, c.callers[t]))
    && (c.loose.Some? ==> LooseOk(c, c.loose.value))
    && HistoryOk(c)
  }

  /** A completion that lands after the waiter has timed out and before its reset, or a
      reset that fails while the transfer is still in flight. */
  predicate Late(c: Channel, e: Event) {
    || (e.Complete? && exists t :: t in c.callers && c.callers[t] == TimedOut(e.id))
    || (e.ResetFails? && c.flight != {})
  }

  // ----- Preservation -----

  lemma OnlyCaller(c: Channel, t: Task)
    requires OwnerOk(c) && t in c.callers
    ensures c.callers == map[t := c.callers[t]] && c.callers - {t} == map[]
    ensures forall pc :: c.callers[t := pc] == map[t := pc]
    ensures c.i.prot == 0 && c.loose.None?
  {
  }

  lemma LeaveKeeps(c: Channel, t: Task)
    requires Inv(c) && t in c.callers && Calm(c)
    ensures Inv(Leave(c, t))
  {
    OnlyCaller(c, t);
  }

  lemma LockKeeps(c: Channel, t: Task, r: Request)
    requires Inv(c) && Enabled(c, Lock(t, r))
    ensures Inv(Step(c, Lock(t, r)))
  {
  }

  lemma CallerStepKeeps(c: Channel, e: Event)
    requires Inv(c) && Enabled(c, e) && !Late(c, e)
    requires e.Arm? || e.Submit? || e.Wake? || e.Expire? || e.ResetPort? || e.ResetFails?
    ensures Inv(Step(c, e))
  {
    OnlyCaller(c, e.task);
    assert CallerOk(c, c.callers[e.task]);
  }

  /** Completion of a synchronous transfer: the waiter is signalled. */
  lemma SignalKeeps(c: Channel, t: Task, id: CallId)
    requires Inv(c) && id in c.flight && t in c.callers && c.callers[t] == Waiting(id)
    ensures Inv(OnComplete(c, id))
  {
    OnlyCaller(c, t);
    assert CallerOk(c, c.callers[t]);
    assert c.flight - {id} == {};
  }

  /** Completion of an asynchronous transfer: the handler releases its lock. */
  lemma HandBackKeeps(c: Channel, id: CallId)
    requires Inv(c) && id in c.flight && c.loose.Some?
    ensures Inv(OnComplete(c, id))
  {
    assert c.loose == Some(id) && c.flight - {id} == {};
    var c' := OnComplete(c, id);
    assert forall k :: 0 <= k < |c.called| ==> c.called[k].id in c'.released;
    assert id in c'.released;
  }

  lemma CompleteKeeps(c: Channel, id: CallId)
    requires Inv(c) && id in c.flight && !Late(c, Complete(id))
    ensures Inv(OnComplete(c, id))
  {
    if c.loose.None? {
      assert c.callers != map[];
      var t :| t in c.callers;
      assert CallerOk(c, c.callers[t]);
      SignalKeeps(c, t, id);
    } else {
      HandBackKeeps(c, id);
    }
  }

  lemma ShrinkKeeps(c: Channel, flight: set<CallId>)
    requires Inv(c) && flight <= c.flight
    ensures Inv(c.(flight := flight))
  {
    var c' := c.(flight := flight);
    forall t | t in c'.callers ensures CallerOk(c', c'.callers[t]) {
      assert CallerOk(c, c.callers[t]);
    }
  }

  lemma StepKeeps(c: Channel, e: Event)
    requires Inv(c) && Enabled(c, e) && !Late(c, e)
    ensures Inv(Step(c, e))
  {
    match e {
      case Lock(t, r) => LockKeeps(c, t, r);
      case Refuse(t) => assert CallerOk(c, c.callers[t]); LeaveKeeps(c, t);
      case SubmitFails(t) => assert CallerOk(c, c.callers[t]); LeaveKeeps(c, t);
      case Unlock(t) => assert CallerOk(c, c.callers[t]); LeaveKeeps(c, t);
      case Complete(id) => CompleteKeeps(c, id);
      case ErrorEvent(id) => ShrinkKeeps(c, c.flight - {id});
      case Cancel => ShrinkKeeps(c, {});
      case _ => CallerStepKeeps(c, e);
    }
  }

  // ----- What each step does -----

  /** Lock and submit: the call is recorded and owns the lock; an asynchronous call returns
      with the lock still taken. */
  lemma CallMeaning(c: Channel, t: Task, r: Request)
    requires Inv(c)
    ensures Enabled(c, Lock(t, r)) ==>
              var c' := Step(c, Lock(t, r));
              c.i.prot == 1 && c'.i == c.i.(prot := 0) && c'.calls == c.calls + [r]
              && c'.callers == map[t := Entered(|c.calls|)] && c'.flight == {}
    ensures Enabled(c, Arm(t)) ==>
              var c', id := Step(c, Arm(t)), c.callers[t].id;
              && c'.callers == map[t := Armed(id)] && c'.flight == {} && c'.calls == c.calls
              && c'.i == if c.calls[id].kind.Sync? then c.i.(sync := true)
                         else c.i.(sync := false, notify := c.calls[id].notify)
    ensures Enabled(c, Submit(t)) ==>
              var c', id := Step(c, Submit(t)), c.callers[t].id;
              && c'.flight == {id} && c'.i == c.i && c'.released == c.released && c'.called == c.called
              && (if c.calls[id].kind.Sync? then c'.callers == map[t := Waiting(id)] && c'.loose.None?
                  else c'.callers == map[] && c'.loose == Some(id))
  {
    if t in c.callers {
      OnlyCaller(c, t);
      assert CallerOk(c, c.callers[t]);
    }
  }

  /** Ways out: the lock is given back once, for this call, and nothing else happens. */
  lemma LeaveMeaning(c: Channel, e: Event)
    requires Inv(c) && Enabled(c, e) && (e.Refuse? || e.SubmitFails? || e.Unlock?)
    ensures var c' := Step(c, e);
            && c'.i == c.i.(prot := 1) && c.i.prot == 0 && c'.callers == map[]
            && c'.released == c.released + [c.callers[e.task].id]
            && c'.flight == {} && c'.called == c.called
  {
    OnlyCaller(c, e.task);
    assert CallerOk(c, c.callers[e.task]);
  }

  /** Waiting: a completion is taken by the waiter; a time-out leaves everything to the
      reset, and a reset that succeeds ends the transfer. */
  lemma WaitMeaning(c: Channel, e: Event)
    requires Inv(c) && Enabled(c, e) && (e.Wake? || e.Expire? || e.ResetPort? || e.ResetFails?)
    ensures var c', id := Step(c, e), c.callers[e.task].id;
            && (e.Wake? ==> c.i.done == 1 && c'.i == c.i.(done := 0) && c'.flight == c.flight)
            && (!e.Wake? ==> c'.i == c.i && c'.flight == if e.ResetPort? then {} else c.flight)
            && c'.callers == map[e.task := if e.Expire? then TimedOut(id) else Leaving(id)]
            && c'.released == c.released && c'.called == c.called
  {
    OnlyCaller(c, e.task);
  }

  /** The interrupt handler: the completion of a synchronous transfer signals its waiter; that
      of an asynchronous one runs the callback its own call passed, if any, exactly once more
      than before, and gives that call's lock back. */
  lemma CompleteMeaning(c: Channel, id: CallId)
    requires Inv(c) && id in c.flight && !Late(c, Complete(id))
    ensures var c' := Step(c, Complete(id));
            && c'.flight == {} && id < |c.calls| && c'.callers == c.callers
            && (c.calls[id].kind.Sync? ==>
                  c'.i == c.i.(done := 1) && c'.called == c.called && c'.released == c.released)
            && (c.calls[id].kind.Async? ==>
                  && c.loose == Some(id) && c'.loose == None
                  && c'.i == c.i.(prot := 1) && c.i.prot == 0
                  && c'.released == c.released + [id]
                  && c'.called == (if c.calls[id].notify == NO_CALLBACK then c.called
                                   else c.called + [Callback(id, c.calls[id].notify)]))
  {
    if c.loose.Some? {
      assert c.loose == Some(id) && c.flight - {id} == {};
    } else {
      assert c.callers != map[];
      var t :| t in c.callers;
      OnlyCaller(c, t);
      assert CallerOk(c, c.callers[t]);
      assert c.flight - {id} == {};
    }
  }

  /** An error event, or a reset from elsewhere, ends the transfer and does nothing else. */
  lemma EndMeaning(c: Channel, id: CallId)
    ensures id in c.flight ==> Step(c, ErrorEvent(id)) == c.(flight := c.flight - {id})
    ensures Step(c, Cancel) == c.(flight := {})
  {
  }

  // ----- The protocol -----

  /** What callers rely on: one owner at a time, the lock free exactly without one, at
      most one transfer in flight, `sync` and the callback those of that transfer and of
      the owner once it has set them, no acquisition released twice, no callback run
      twice. */
  ghost predicate Protocol(c: Channel) {
    && |c.flight| <= 1
    && (forall t, u :: t in c.callers && u in c.callers ==> t == u)
    && (c.loose.Some? ==> c.callers == map[])
    && (c.i.prot == 1 <==> c.callers == map[] && c.loose.None?)
    && (forall id :: id in c.flight ==>
          id < |c.calls| && ArmedFor(c.i, c.calls[id]))
    && (forall t :: t in c.callers && (c.callers[t].Armed? || c.callers[t].Waiting? || c.callers[t].TimedOut?) ==>
          c.callers[t].id < |c.calls| && ArmedFor(c.i, c.calls[c.callers[t].id]))
    && (c.loose.Some? ==> c.loose.value < |c.calls| && ArmedFor(c.i, c.calls[c.loose.value]))
    && c.excess == 0 && Distinct(c.released)
    && (forall j, k :: 0 <= j < k < |c.called| ==> c.called[j].id != c.called[k].id)
    && (forall k :: 0 <= k < |c.called| ==>
          c.called[k].id < |c.calls| && c.calls[c.called[k].id] == Request(Async, c.called[k].notify))
  }

  /** The inductive invariant implies the protocol. */
  lemma ProtocolMeaning(c: Channel)
    requires Inv(c)
    ensures Protocol(c)
  {
    forall t | t in c.callers ensures CallerOk(c, c.callers[t]) {}
    var owner: CallId := 0;
    if c.loose.Some? {
      owner := c.loose.value;
    } else if c.callers != map[] {
      var t :| t in c.callers;
      assert CallerOk(c, c.callers[t]);
      owner := c.callers[t].id;
    }
    FlightOfOne(c.flight, owner);
  }

  lemma FlightOfOne(flight: set<CallId>, owner: CallId)
    requires flight <= {owner}
    ensures |flight| <= 1
  {
    if flight != {} { assert flight == {owner}; }
  }

  // ----- What can follow -----

  /** The events can happen one after the other from c, and none of them is late. */
  ghost predicate OnTime(c: Channel, es: seq<Event>)
    decreases |es|
  {
    es == [] || (Enabled(c, es[0]) && !Late(c, es[0]) && OnTime(Step(c, es[0]), es[1..]))
  }

  ghost function After(c: Channel, es: seq<Event>): Channel
    requires OnTime(c, es)
    decreases |es|
  {
    if es == [] then c else After(Step(c, es[0]), es[1..])
  }

  /** From c on the protocol holds as long as events are on time. */
  ghost predicate Secure(c: Channel) {
    forall es :: OnTime(c, es) ==> Protocol(After(c, es))
  }

  lemma {:induction false} OnTimeKeeps(c: Channel, es: seq<Event>)
    requires Inv(c) && OnTime(c, es)
    ensures Inv(After(c, es))
    decreases |es|
  {
    if es == [] {
    } else {
      StepKeeps(c, es[0]);
      OnTimeKeeps(Step(c, es[0]), es[1..]);
    }
  }

  lemma InvIsSecure(c: Channel)
    requires Inv(c)
    ensures Protocol(c) && Secure(c)
  {
    ProtocolMeaning(c);
    forall es | OnTime(c, es) ensures Protocol(After(c, es)) {
      OnTimeKeeps(c, es);
      ProtocolMeaning(After(c, es));
    }
  }

  lemma Prepend(c: Channel, e: Event, es: seq<Event>)
    requires Enabled(c, e) && !Late(c, e) && OnTime(Step(c, e), es)
    ensures OnTime(c, [e] + es) && After(c, [e] + es) == After(Step(c, e), es)
  {
    assert ([e] + es)[1..] == es;
  }

  lemma {:induction false} Compose(c: Channel, a: seq<Event>, b: seq<Event>)
    requires OnTime(c, a) && OnTime(After(c, a), b)
    ensures OnTime(c, a + b) && After(c, a + b) == After(After(c, a), b)
    decreases |a|
  {
    if a == [] {
      assert a + b == b;
    } else {
      Compose(Step(c, a[0]), a[1..], b);
      Prepend(c, a[0], a[1..] + b);
      assert a + b == [a[0]] + (a[1..] + b);
    }
  }

  // ----- What a late event leads to -----

  const SYNC_CALL := Request(Sync, NO_CALLBACK)

  /** A free, open channel after task t has started a synchronous transfer. */
  function Submitted(c: Channel, t: Task): Channel {
    c.(i := c.i.(prot := 0, sync := true),
       flight := c.flight + {|c.calls|},
       callers := map[t := Waiting(|c.calls|)],
       calls := c.calls + [SYNC_CALL])
  }

  lemma SubmitSteps(c: Channel, t: Task) returns (es: seq<Event>)
    requires c.open && c.i.prot == 1 && c.callers == map[]
    ensures OnTime(c, es) && After(c, es) == Submitted(c, t)
  {
    var c1 := Step(c, Lock(t, SYNC_CALL));
    var c2 := Step(c1, Arm(t));
    var c3 := Step(c2, Submit(t));
    assert c3 == Submitted(c, t) by { assert c3.callers == map[t := Waiting(|c.calls|)]; }
    Prepend(c2, Submit(t), []);
    Prepend(c1, Arm(t), [Submit(t)]);
    es := [Lock(t, SYNC_CALL)] + ([Arm(t)] + ([Submit(t)] + []));
    Prepend(c, Lock(t, SYNC_CALL), [Arm(t)] + ([Submit(t)] + []));
  }

  /** Two submissions in a row leave two transfers in flight once a call can leave early. */
  lemma TwoInFlight(c: Channel, t: Task, other: CallId) returns (es: seq<Event>)
    requires c.open && c.i.prot == 1 && c.callers == map[] && c.flight == {other} && other < |c.calls|
    ensures OnTime(c, es) && |After(c, es).flight| == 2
  {
    es := SubmitSteps(c, t);
    assert After(c, es).flight == {other, |c.calls|};
  }

  /** With a completion left over, a call returns while its transfer is in flight. */
  lemma EarlyReturn(c: Channel, t: Task) returns (es: seq<Event>)
    requires c.open && c.callers == map[] && c.i.prot == 1 && c.i.done == 1 && c.flight == {}
    ensures OnTime(c, es)
    ensures var c' := After(c, es);
            c'.open && c'.callers == map[] && c'.i.prot == 1 && c'.flight == {|c.calls|} && |c'.calls| == |c.calls| + 1
  {
    var first := SubmitSteps(c, t);
    var c3 := Submitted(c, t);
    var c4 := Step(c3, Wake(t));
    var c5 := Step(c4, Unlock(t));
    assert c5.callers == map[];
    Prepend(c4, Unlock(t), []);
    Prepend(c3, Wake(t), [Unlock(t)] + []);
    Compose(c, first, [Wake(t)] + ([Unlock(t)] + []));
    es := first + ([Wake(t)] + ([Unlock(t)] + []));
  }

  /** After a completion that comes between the time-out and the reset. */
  lemma AfterLateCompletion(c: Channel, id: CallId) returns (es: seq<Event>)
    requires Inv(c) && Enabled(c, Complete(id)) && Late(c, Complete(id))
    ensures OnTime(Step(c, Complete(id)), es) && |After(Step(c, Complete(id)), es).flight| == 2
  {
    var t :| t in c.callers && c.callers[t] == TimedOut(id);
    OnlyCaller(c, t);
    assert CallerOk(c, c.callers[t]);
    assert c.flight - {id} == {};
    var c0 := Step(c, Complete(id));
    var c1 := Step(c0, ResetPort(t));
    var c2 := Step(c1, Unlock(t));
    assert c2.callers == map[];
    var early := EarlyReturn(c2, t);
    var more := TwoInFlight(After(c2, early), t, |c2.calls|);
    Compose(c2, early, more);
    Prepend(c1, Unlock(t), early + more);
    Prepend(c0, ResetPort(t), [Unlock(t)] + (early + more));
    es := [ResetPort(t)] + ([Unlock(t)] + (early + more));
  }

  /** After a reset that fails with the transfer still in flight. */
  lemma AfterFailedReset(c: Channel, t: Task) returns (es: seq<Event>)
    requires Inv(c) && Enabled(c, ResetFails(t)) && Late(c, ResetFails(t))
    ensures OnTime(Step(c, ResetFails(t)), es) && |After(Step(c, ResetFails(t)), es).flight| == 2
  {
    OnlyCaller(c, t);
    assert CallerOk(c, c.callers[t]);
    var id := c.callers[t].id;
    assert c.flight == {id};
    var c0 := Step(c, ResetFails(t));
    var c1 := Step(c0, Unlock(t));
    assert c1.callers == map[];
    var more := TwoInFlight(c1, t, id);
    Prepend(c0, Unlock(t), more);
    es := [Unlock(t)] + more;
  }

  /** Every late event can be followed, on time, by two transfers in flight at once. */
  lemma LateBreaks(c: Channel, e: Event) returns (es: seq<Event>)
    requires Inv(c) && Enabled(c, e) && Late(c, e)
    ensures OnTime(Step(c, e), es) && |After(Step(c, e), es).flight| == 2
    ensures !Secure(Step(c, e))
  {
    if e.Complete? {
      es := AfterLateCompletion(c, e.id);
    } else {
      es := AfterFailedReset(c, e.task);
    }
    assert !Protocol(After(Step(c, e), es));
  }

  // ----- Whole runs of one direction -----

  ghost predicate IsRun(cs: seq<Channel>, es: seq<Event>) {
    && |cs| == |es| + 1
    && cs[0] == Start(cs[0].open)
    && forall k :: 0 <= k < |es| ==> Leads(cs[k], es[k], cs[k + 1])
  }

  ghost predicate Leads(c: Channel, e: Event, c': Channel) {
    Enabled(c, e) && c' == Step(c, e)
  }

  /** The first n events of a run are on time. */
  ghost predicate Punctual(cs: seq<Channel>, es: seq<Event>, n: nat) {
    n <= |es| <= |cs| && forall k :: 0 <= k < n ==> !Late(cs[k], es[k])
  }

  lemma {:induction false} PunctualKeeps(cs: seq<Channel>, es: seq<Event>, n: nat)
    requires IsRun(cs, es) && Punctual(cs, es, n)
    ensures Inv(cs[n])
  {
    if n == 0 {
    } else {
      PunctualKeeps(cs, es, n - 1);
      assert Leads(cs[n - 1], es[n - 1], cs[n]);
      StepKeeps(cs[n - 1], es[n - 1]);
    }
  }

  /** The protocol holds in every state of a run, and in whatever follows it on time, if
      and only if no event of the run is late. */
  lemma ProtocolExact(cs: seq<Channel>, es: seq<Event>)
    requires IsRun(cs, es)
    ensures (forall k :: 0 <= k < |cs| ==> Protocol(cs[k]) && Secure(cs[k]))
       <==> (forall k :: 0 <= k < |es| ==> !Late(cs[k], es[k]))
  {
    if k :| 0 <= k < |es| && Late(cs[k], es[k]) {
      var n := FirstLate(cs, es, k);
      PunctualKeeps(cs, es, n);
      assert Leads(cs[n], es[n], cs[n + 1]);
      var more := LateBreaks(cs[n], es[n]);
    } else {
      forall k | 0 <= k < |cs| ensures Protocol(cs[k]) && Secure(cs[k]) {
        PunctualKeeps(cs, es, k);
        InvIsSecure(cs[k]);
      }
    }
  }

  lemma FirstLate(cs: seq<Channel>, es: seq<Event>, k: nat) returns (n: nat)
    requires k < |es| <= |cs| && Late(cs[k], es[k])
    ensures n <= k && Late(cs[n], es[n]) && Punctual(cs, es, n)
  {
    n := 0;
    while !Late(cs[n], es[n])
      invariant n <= k && Punctual(cs, es, n)
      decreases k - n
    {
      n := n + 1;
    }
  }

  /** A run to a first call that has timed out with its transfer in flight. */
  lemma TimedOutRun() returns (es: seq<Event>)
    ensures OnTime(Start(true), es) && Inv(After(Start(true), es))
    ensures var c := After(Start(true), es);
            c.callers == map[1 := TimedOut(0)] && c.flight == {0}
  {
    var first := SubmitSteps(Start(true), 1);
    var c := Submitted(Start(true), 1);
    Prepend(c, Expire(1), []);
    Compose(Start(true), first, [Expire(1)] + []);
    es := first + ([Expire(1)] + []);
    assert After(Start(true), es).callers == map[1 := TimedOut(0)];
    OnTimeKeeps(Start(true), es);
  }

  /** A concrete case: the completion of that call lands before the reset, and two later
      calls then have transfers in flight together. */
  lemma LateCompletionDoublesFlight() returns (before: seq<Event>, after: seq<Event>)
    ensures OnTime(Start(true), before)
    ensures var c := After(Start(true), before);
            && Enabled(c, Complete(0)) && OnTime(Step(c, Complete(0)), after)
            && |After(Step(c, Complete(0)), after).flight| == 2
  {
    before := TimedOutRun();
    var c := After(Start(true), before);
    assert c.callers[1] == TimedOut(0);
    after := LateBreaks(c, Complete(0));
  }

  /** The other concrete case: its reset fails. */
  lemma FailedResetDoublesFlight() returns (before: seq<Event>, after: seq<Event>)
    ensures OnTime(Start(true), before)
    ensures var c := After(Start(true), before);
            && Enabled(c, ResetFails(1)) && OnTime(Step(c, ResetFails(1)), after)
            && |After(Step(c, ResetFails(1)), after).flight| == 2
  {
    before := TimedOutRun();
    after := LateBreaks(After(Start(true), before), ResetFails(1));
  }

  /** An asynchronous call from start to end: it returns with the lock taken, and its
      completion runs its callback once and frees the lock. */
  lemma AsyncRun(t: Task, notify: int) returns (es: seq<Event>)
    requires notify != NO_CALLBACK
    ensures es == [Lock(t, Request(Async, notify)), Arm(t), Submit(t), Complete(0)] && OnTime(Start(true), es)
    ensures var c := After(Start(true), es);
            c.called == [Callback(0, notify)] && c.released == [0] && c.i.prot == 1 && c.flight == {}
  {
    var c0, r := Start(true), Request(Async, notify);
    var c1 := Step(c0, Lock(t, r));
    var c2 := Step(c1, Arm(t));
    var c3 := Step(c2, Submit(t));
    assert c3.callers == map[] && c3.flight == {0};
    var c4 := Step(c3, Complete(0));
    assert c4.flight == {};
    Prepend(c3, Complete(0), []);
    Prepend(c2, Submit(t), [Complete(0)] + []);
    Prepend(c1, Arm(t), [Submit(t)] + ([Complete(0)] + []));
    Prepend(c0, Lock(t, r), [Arm(t)] + ([Submit(t)] + ([Complete(0)] + [])));
    es := [Lock(t, r)] + ([Arm(t)] + ([Submit(t)] + ([Complete(0)] + [])));
  }

  // ----- Both directions -----

  datatype Port = Port(tx: Channel, rx: Channel)

  datatype PortEvent = OnTx(event: Event) | OnRx(event: Event) | ResetBoth

  predicate PortEnabled(p: Port, e: PortEvent) {
    match e
    case OnTx(x) => Enabled(p.tx, x)
    case OnRx(x) => Enabled(p.rx, x)
    case ResetBoth => true
  }

  /** A reset issued by either direction, or by scm_uart_reset, cancels what both have
      in flight. */
  function PortStep(p: Port, e: PortEvent): Port
    requires PortEnabled(p, e)
  {
    match e
    case OnTx(x) => Port(Step(p.tx, x), if x.ResetPort? then Step(p.rx, Cancel) else p.rx)
    case OnRx(x) => Port(if x.ResetPort? then Step(p.tx, Cancel) else p.tx, Step(p.rx, x))
    case ResetBoth => Port(Step(p.tx, Cancel), Step(p.rx, Cancel))
  }

  predicate PortLate(p: Port, e: PortEvent) {
    (e.OnTx? && Late(p.tx, e.event)) || (e.OnRx? && Late(p.rx, e.event))
  }

  ghost predicate PortOnTime(p: Port, es: seq<PortEvent>)
    decreases |es|
  {
    es == [] || (PortEnabled(p, es[0]) && !PortLate(p, es[0]) && PortOnTime(PortStep(p, es[0]), es[1..]))
  }

  ghost function PortAfter(p: Port, es: seq<PortEvent>): Port
    requires PortOnTime(p, es)
    decreases |es|
  {
    if es == [] then p else PortAfter(PortStep(p, es[0]), es[1..])
  }

  ghost predicate PortInv(p: Port) {
    Inv(p.tx) && Inv(p.rx)
  }

  ghost predicate PortProtocol(p: Port) {
    Protocol(p.tx) && Protocol(p.rx)
  }

  /** From p on both directions keep the protocol as long as events are on time. */
  ghost predicate PortSecure(p: Port) {
    forall es :: PortOnTime(p, es) ==> PortProtocol(PortAfter(p, es))
  }

  lemma PortStepKeeps(p: Port, e: PortEvent)
    requires PortInv(p) && PortEnabled(p, e) && !PortLate(p, e)
    ensures PortInv(PortStep(p, e))
  {
    ShrinkKeeps(p.tx, {});
    ShrinkKeeps(p.rx, {});
    match e {
      case OnTx(x) => StepKeeps(p.tx, x);
      case OnRx(x) => StepKeeps(p.rx, x);
      case ResetBoth =>
    }
  }

  lemma {:induction false} PortOnTimeKeeps(p: Port, es: seq<PortEvent>)
    requires PortInv(p) && PortOnTime(p, es)
    ensures PortInv(PortAfter(p, es))
    decreases |es|
  {
    if es == [] {
    } else {
      PortStepKeeps(p, es[0]);
      PortOnTimeKeeps(PortStep(p, es[0]), es[1..]);
    }
  }

  lemma PortInvIsSecure(p: Port)
    requires PortInv(p)
    ensures PortProtocol(p) && PortSecure(p)
  {
    ProtocolMeaning(p.tx);
    ProtocolMeaning(p.rx);
    forall es | PortOnTime(p, es) ensures PortProtocol(PortAfter(p, es)) {
      PortOnTimeKeeps(p, es);
      ProtocolMeaning(PortAfter(p, es).tx);
      ProtocolMeaning(PortAfter(p, es).rx);
    }
  }

  /** What one direction can do on time, the port can do. */
  lemma {:induction false} LiftTx(p: Port, es: seq<Event>) returns (fs: seq<PortEvent>)
    requires OnTime(p.tx, es)
    ensures PortOnTime(p, fs) && PortAfter(p, fs).tx == After(p.tx, es)
    decreases |es|
  {
    fs := [];
    if es == [] {
    } else {
      var rest := LiftTx(PortStep(p, OnTx(es[0])), es[1..]);
      fs := [OnTx(es[0])] + rest;
      assert fs[1..] == rest;
    }
  }

  lemma {:induction false} LiftRx(p: Port, es: seq<Event>) returns (fs: seq<PortEvent>)
    requires OnTime(p.rx, es)
    ensures PortOnTime(p, fs) && PortAfter(p, fs).rx == After(p.rx, es)
    decreases |es|
  {
    fs := [];
    if es == [] {
    } else {
      var rest := LiftRx(PortStep(p, OnRx(es[0])), es[1..]);
      fs := [OnRx(es[0])] + rest;
      assert fs[1..] == rest;
    }
  }

  lemma PortLateBreaks(p: Port, e: PortEvent)
    requires PortInv(p) && PortEnabled(p, e) && PortLate(p, e)
    ensures !PortSecure(PortStep(p, e))
  {
    var p' := PortStep(p, e);
    if e.OnTx? {
      var es := LateBreaks(p.tx, e.event);
      var fs := LiftTx(p', es);
      assert !PortProtocol(PortAfter(p', fs));
    } else {
      var es := LateBreaks(p.rx, e.event);
      var fs := LiftRx(p', es);
      assert !PortProtocol(PortAfter(p', fs));
    }
  }

  ghost predicate IsPortRun(ps: seq<Port>, es: seq<PortEvent>) {
    && |ps| == |es| + 1
    && ps[0] == Port(Start(ps[0].tx.open), Start(ps[0].tx.open))
    && forall k :: 0 <= k < |es| ==> PortLeads(ps[k], es[k], ps[k + 1])
  }

  ghost predicate PortLeads(p: Port, e: PortEvent, p': Port) {
    PortEnabled(p, e) && p' == PortStep(p, e)
  }

  lemma {:induction false} PortPunctualKeeps(ps: seq<Port>, es: seq<PortEvent>, n: nat)
    requires IsPortRun(ps, es) && n <= |es| && forall k :: 0 <= k < n ==> !PortLate(ps[k], es[k])
    ensures PortInv(ps[n])
  {
    if n == 0 {
    } else {
      PortPunctualKeeps(ps, es, n - 1);
      assert PortLeads(ps[n - 1], es[n - 1], ps[n]);
      PortStepKeeps(ps[n - 1], es[n - 1]);
    }
  }

  /** The same for a port: both directions keep the protocol throughout a run, and in
      whatever follows on time, if and only if no event of the run is late. */
  lemma PortProtocolExact(ps: seq<Port>, es: seq<PortEvent>)
    requires IsPortRun(ps, es)
    ensures (forall k :: 0 <= k < |ps| ==> PortProtocol(ps[k]) && PortSecure(ps[k]))
       <==> (forall k :: 0 <= k < |es| ==> !PortLate(ps[k], es[k]))
  {
    if k :| 0 <= k < |es| && PortLate(ps[k], es[k]) {
      var n := FirstPortLate(ps, es, k);
      PortPunctualKeeps(ps, es, n);
      assert PortLeads(ps[n], es[n], ps[n + 1]);
      PortLateBreaks(ps[n], es[n]);
    } else {
      forall k | 0 <= k < |ps| ensures PortProtocol(ps[k]) && PortSecure(ps[k]) {
        PortPunctualKeeps(ps, es, k);
        PortInvIsSecure(ps[k]);
      }
    }
  }

  lemma FirstPortLate(ps: seq<Port>, es: seq<PortEvent>, k: nat) returns (n: nat)
    requires k < |es| <= |ps| && PortLate(ps[k], es[k])
    ensures n <= k && PortLate(ps[n], es[n]) && forall j :: 0 <= j < n ==> !PortLate(ps[j], es[j])
  {
    n := 0;
    while !PortLate(ps[n], es[n])
      invariant n <= k && forall j :: 0 <= j < n ==> !PortLate(ps[j], es[j])
      decreases k - n
    {
      n := n + 1;
    }
  }

  // ----- The interface record updated in place -----

  class Interface {
    var prot: nat
    var done: nat
    var sync: bool
    var notify: int

    function View(): Intf
      reads this
    {
      Intf(prot, done, sync, notify)
    }

    constructor ()
      ensures View() == Start(true).i
    {
      prot, done, sync, notify := 1, 0, true, NO_CALLBACK;
    }

    method Unlock()
      modifies this`prot
      ensures View() == old(View()).(prot := Give(old(prot)))
    {
      if prot < 1 { prot := prot + 1; }
    }

    /** uart_notify: reports which callback ran, if any. */
    method OnEvent(err: int) returns (callback: Option<int>)
      modifies this`prot, this`done
      ensures View() == if err != 0 then old(View()) else Completed(old(View()))
      ensures callback == if err == 0 && !sync && notify != NO_CALLBACK then Some(notify) else None
    {
      callback := None;
      if err != 0 { return; }
      if sync {
        if done < 1 { done := done + 1; }
      } else {
        if notify != NO_CALLBACK { callback := Some(notify); }
        Unlock();
      }
    }

    /** scm_uart_tx and scm_uart_rx when no other call gets in between: what the driver
        answers to the transfer and reset requests, and whether the completion arrives
        in time, are parameters.  Every path gives the lock back. */
    method Transfer(fd: int, transferRet: int, inTime: bool, resetRet: int) returns (rc: int)
      requires prot == 1 && done == 0
      modifies this
      ensures View() == old(View()).(sync := fd > 0 || old(sync))
      ensures rc == if fd <= 0 then WISE_ERR_INVALID_STATE
                    else if transferRet != 0 then WISE_ERR_IOCTL
                    else if inTime then WISE_OK
                    else if resetRet != 0 then WISE_ERR_IOCTL
                    else WISE_ERR_TIMEOUT
    {
      prot := prot - 1;
      if fd <= 0 {
        Unlock();
        return WISE_ERR_INVALID_STATE;
      }
      sync := true;
      if transferRet != 0 {
        Unlock();
        return WISE_ERR_IOCTL;
      }
      rc := WISE_ERR_TIMEOUT;
      if inTime {
        var callback := OnEvent(0);
        done := done - 1;
        rc := WISE_OK;
      } else if resetRet != 0 {
        rc := WISE_ERR_IOCTL;
      }
      Unlock();
    }

    /** scm_uart_tx_async and scm_uart_rx_async: on success the lock stays taken and the
        next completion runs this call's callback and frees it. */
    method TransferAsync(fd: int, callback: int, transferRet: int) returns (rc: int)
      requires prot == 1 && done == 0
      modifies this
      ensures rc == if fd <= 0 then WISE_ERR_INVALID_STATE
                    else if transferRet != 0 then WISE_ERR_IOCTL
                    else WISE_OK
      ensures View() == if fd <= 0 then old(View())
                        else old(View()).(prot := if rc == WISE_OK then 0 else 1, sync := false, notify := callback)
      ensures rc == WISE_OK ==> Completed(View()) == View().(prot := 1)
    {
      prot := prot - 1;
      if fd <= 0 {
        Unlock();
        return WISE_ERR_INVALID_STATE;
      }
      sync := false;
      notify := callback;
      if transferRet != 0 {
        Unlock();
        return WISE_ERR_IOCTL;
      }
      return WISE_OK;
    }
  }
}
