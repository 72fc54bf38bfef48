/** The task watchdog of api/wise/wise_task_wdt.c.

    `Context` is the watchdog's global record; the operations that run with
    interrupts off are functions on it, carried out in place by the class
    `Watchdog`.  `Monitor` adds unwrapped time and a history of who was added or
    reset when, so that runs of timed calls and polls can be talked about. */
module TaskWatchdog {
  const TICK_RANGE := 0x1_0000_0000
  const HALF_RANGE := 0x8000_0000
  const MARGIN := 10 * 1000
  const NULL := 0
  const WISE_OK := 0
  const WISE_FAIL := -1
  const WISE_ERR_NO_MEM := 0x101
  const WISE_ERR_INVALID_STATE := 0x103

  type Task = nat

  datatype Entry = Entry(id: Task, hasReset: bool)

  /** `expire` and `dur` are 32-bit tick counts. */
  datatype Context = Context(entries: seq<Entry>, expire: int, dur: int)

  // ----- Wrapped time -----

  function Wrap(t: int): int {
    t % TICK_RANGE
  }

  function Signed32(x: int): int {
    if x < HALF_RANGE then x else x - TICK_RANGE
  }

  /** The polling thread's test, on wrapped tick counts. */
  predicate Due(expire: int, now: int) {
    Signed32(Wrap(expire - now)) <= MARGIN
  }

  /** The wrapped test agrees with true time while the distance fits in 31 bits. */
  lemma DueIsTrueTime(deadline: int, now: int)
    requires -HALF_RANGE <= deadline - now < HALF_RANGE
    ensures Due(Wrap(deadline), Wrap(now)) <==> deadline - now <= MARGIN
  {
    WrapDifference(deadline, now);
    var d := deadline - now;
    assert Wrap(d) == if d >= 0 then d else d + TICK_RANGE;
  }

  lemma WrapDifference(a: int, b: int)
    ensures Wrap(Wrap(a) - Wrap(b)) == Wrap(a - b)
  {
  }

  /** A timeout of 2^31 ticks or more is due the moment it is set. */
  lemma DueRightAfterFeed(now: int, dur: int)
    requires 0 <= dur < TICK_RANGE
    ensures Due(Wrap(now + dur), Wrap(now)) <==> dur <= MARGIN || HALF_RANGE <= dur
  {
    WrapDifference(now + dur, now);
  }

  // ----- The operations -----

  predicate AllReset(es: seq<Entry>) {
    forall i :: 0 <= i < |es| ==> es[i].hasReset
  }

  function Fed(es: seq<Entry>): seq<Entry> {
    seq(|es|, i requires 0 <= i < |es| => es[i].(hasReset := false))
  }

  /** Index of the last entry of `id`, or -1. */
  function Find(es: seq<Entry>, id: Task): (k: int)
    ensures -1 <= k < |es|
    ensures k >= 0 ==> es[k].id == id
    ensures k < 0 <==> forall i :: 0 <= i < |es| ==> es[i].id != id
  {
    if es == [] then -1
    else if es[|es| - 1].id == id then |es| - 1
    else Find(es[..|es| - 1], id)
  }

  datatype OpResult = OpResult(ctx: Context, rc: int, fed: bool)

  function CheckFeed(c: Context, now: int): OpResult {
    if AllReset(c.entries) then
      OpResult(c.(entries := Fed(c.entries), expire := Wrap(now + c.dur)), WISE_OK, true)
    else
      OpResult(c, WISE_OK, false)
  }

  function Target(current: Task, id: Task): Task {
    if id == NULL then current else id
  }

  function Add(c: Context, now: int, current: Task, id: Task, memory: bool): OpResult {
    var t := Target(current, id);
    if Find(c.entries, t) >= 0 then OpResult(c, WISE_FAIL, false)
    else if !memory then OpResult(c, WISE_ERR_NO_MEM, false)
    else CheckFeed(c.(entries := [Entry(t, true)] + c.entries), now)
  }

  /** NULL is not mapped to the calling task here. */
  function Delete(c: Context, now: int, id: Task): OpResult {
    var k := Find(c.entries, id);
    if k < 0 then OpResult(c, WISE_FAIL, false)
    else CheckFeed(c.(entries := c.entries[..k] + c.entries[k + 1..]), now)
  }

  function Reset(c: Context, now: int, current: Task, id: Task): OpResult {
    var t := Target(current, id);
    var k := Find(c.entries, t);
    if k < 0 then OpResult(c, WISE_FAIL, false)
    else CheckFeed(c.(entries := c.entries[k := Entry(t, true)]), now)
  }

  /** One turn of the polling thread.  `Reported` is final: the thread sleeps forever. */
  datatype PollResult = Quiet(ctx: Context) | Renewed(ctx: Context) | Reported(ctx: Context)

  function Poll(c: Context, now: int): PollResult {
    if Due(c.expire, now) then
      var c' := c.(expire := Wrap(now + c.dur));
      if AllReset(c.entries) then Renewed(c'.(entries := Fed(c.entries))) else Reported(c')
    else
      Quiet(c)
  }

  // ----- The list invariant -----

  ghost predicate Distinct(es: seq<Entry>) {
    forall i, j :: 0 <= i < j < |es| ==> es[i].id != es[j].id
  }

  /** Ids are distinct and not NULL, and a non-empty list has a task yet to reset. */
  ghost predicate WellFormed(es: seq<Entry>) {
    && Distinct(es)
    && (forall i :: 0 <= i < |es| ==> es[i].id != NULL)
    && (es != [] ==> !AllReset(es))
  }

  lemma CheckFeedKeeps(c: Context, now: int)
    requires Distinct(c.entries)
    requires forall i :: 0 <= i < |c.entries| ==> c.entries[i].id != NULL
    ensures WellFormed(CheckFeed(c, now).ctx.entries)
  {
    if AllReset(c.entries) && c.entries != [] {
      assert !Fed(c.entries)[0].hasReset;
    }
  }

  lemma AddKeeps(c: Context, now: int, current: Task, id: Task, memory: bool)
    requires WellFormed(c.entries) && current != NULL
    ensures WellFormed(Add(c, now, current, id, memory).ctx.entries)
  {
    var t := Target(current, id);
    if Find(c.entries, t) < 0 && memory {
      CheckFeedKeeps(c.(entries := [Entry(t, true)] + c.entries), now);
    }
  }

  lemma DeleteKeeps(c: Context, now: int, id: Task)
    requires WellFormed(c.entries)
    ensures WellFormed(Delete(c, now, id).ctx.entries)
  {
    var k := Find(c.entries, id);
    if k >= 0 {
      CheckFeedKeeps(c.(entries := c.entries[..k] + c.entries[k + 1..]), now);
    }
  }

  lemma ResetKeeps(c: Context, now: int, current: Task, id: Task)
    requires WellFormed(c.entries)
    ensures WellFormed(Reset(c, now, current, id).ctx.entries)
  {
    var t := Target(current, id);
    var k := Find(c.entries, t);
    if k >= 0 {
      CheckFeedKeeps(c.(entries := c.entries[k := Entry(t, true)]), now);
    }
  }

  /** A poll at the deadline reports exactly when some task is subscribed. */
  lemma DuePollReports(c: Context, now: int)
    requires WellFormed(c.entries) && Due(c.expire, now)
    ensures Poll(c, now).Reported? <==> c.entries != []
    ensures WellFormed(Poll(c, now).ctx.entries)
  {
  }

  /** The header promises that deleting NULL unsubscribes the caller; it always fails. */
  lemma DeleteNullFails(c: Context, now: int)
    requires WellFormed(c.entries)
    ensures Delete(c, now, NULL) == OpResult(c, WISE_FAIL, false)
  {
  }

  // ----- What each call does to the list -----

  ghost predicate Listed(es: seq<Entry>, t: Task) {
    exists i :: 0 <= i < |es| && es[i].id == t
  }

  /** A call that leaves the tasks `ids` subscribed, with `flags` saying which of them have
      reset, feeds exactly when all have: then every flag is cleared and the deadline is one
      timeout from now; otherwise the flags stand and the deadline stays. */
  ghost predicate FeedsOrKeeps(ids: seq<Task>, flags: seq<bool>, c: Context, now: int, c': Context) {
    && |ids| == |flags| == |c'.entries| && c'.dur == c.dur
    && (forall i :: 0 <= i < |ids| ==> c'.entries[i].id == ids[i])
    && (if forall i :: 0 <= i < |flags| ==> flags[i] then
          && (forall i :: 0 <= i < |flags| ==> !c'.entries[i].hasReset)
          && c'.expire == (now + c.dur) % 0x1_0000_0000
        else
          && (forall i :: 0 <= i < |flags| ==> c'.entries[i].hasReset == flags[i])
          && c'.expire == c.expire)
  }

  function Ids(es: seq<Entry>): seq<Task> {
    seq(|es|, i requires 0 <= i < |es| => es[i].id)
  }

  function Flags(es: seq<Entry>): seq<bool> {
    seq(|es|, i requires 0 <= i < |es| => es[i].hasReset)
  }

  lemma CheckFeedMeaning(c: Context, now: int)
    ensures FeedsOrKeeps(Ids(c.entries), Flags(c.entries), c, now, CheckFeed(c, now).ctx)
    ensures CheckFeed(c, now).rc == 0
    ensures CheckFeed(c, now).fed <==> forall i :: 0 <= i < |c.entries| ==> c.entries[i].hasReset
  {
    var flags := Flags(c.entries);
    if AllReset(c.entries) {
      assert forall i :: 0 <= i < |flags| ==> flags[i];
    } else {
      var i :| 0 <= i < |c.entries| && !c.entries[i].hasReset;
      assert !flags[i];
    }
  }

  /** A reset sets the flag of the task, the caller's own if no id is given, and no other;
      a task that is not subscribed is refused. */
  ghost predicate ResetDoes(c: Context, now: int, current: Task, id: Task, c': Context, rc: int) {
    var t := if id == 0 then current else id;
    if Listed(c.entries, t) then
      && rc == 0
      && exists k :: 0 <= k < |c.entries| && c.entries[k].id == t
                     && FeedsOrKeeps(Ids(c.entries), Flags(c.entries)[k := true], c, now, c')
    else
      rc == -1 && c' == c
  }

  lemma ResetMeaning(c: Context, now: int, current: Task, id: Task)
    ensures var r := Reset(c, now, current, id); ResetDoes(c, now, current, id, r.ctx, r.rc)
  {
    var t := if id == 0 then current else id;
    var k := Find(c.entries, t);
    if k >= 0 {
      var es := c.entries[k := Entry(t, true)];
      CheckFeedMeaning(c.(entries := es), now);
      assert Ids(es) == Ids(c.entries) && Flags(es) == Flags(c.entries)[k := true];
      assert FeedsOrKeeps(Ids(c.entries), Flags(c.entries)[k := true], c, now, Reset(c, now, current, id).ctx);
    }
  }

  /** An add puts the task in front, as one that has reset; a task that is subscribed
      already is refused, and so is one there is no memory for. */
  ghost predicate AddDoes(c: Context, now: int, current: Task, id: Task, memory: bool, c': Context, rc: int) {
    var t := if id == 0 then current else id;
    if Listed(c.entries, t) then rc == -1 && c' == c
    else if !memory then rc == 0x101 && c' == c
    else rc == 0 && FeedsOrKeeps([t] + Ids(c.entries), [true] + Flags(c.entries), c, now, c')
  }

  lemma AddMeaning(c: Context, now: int, current: Task, id: Task, memory: bool)
    ensures var r := Add(c, now, current, id, memory); AddDoes(c, now, current, id, memory, r.ctx, r.rc)
  {
    var t := if id == 0 then current else id;
    if Find(c.entries, t) < 0 && memory {
      var es := [Entry(t, true)] + c.entries;
      CheckFeedMeaning(c.(entries := es), now);
      assert Ids(es) == [t] + Ids(c.entries) && Flags(es) == [true] + Flags(c.entries);
    }
  }

  /** A delete takes the entry of the id out, and no other; NULL stands for no task. */
  ghost predicate DeleteDoes(c: Context, now: int, id: Task, c': Context, rc: int) {
    if Listed(c.entries, id) then
      && rc == 0
      && exists k :: 0 <= k < |c.entries| && c.entries[k].id == id
                     && FeedsOrKeeps(Without(Ids(c.entries), k), Without(Flags(c.entries), k), c, now, c')
    else
      rc == -1 && c' == c
  }

  function Without<T>(s: seq<T>, k: nat): seq<T>
    requires k < |s|
  {
    s[..k] + s[k + 1..]
  }

  lemma DeleteMeaning(c: Context, now: int, id: Task)
    ensures var r := Delete(c, now, id); DeleteDoes(c, now, id, r.ctx, r.rc)
  {
    var k := Find(c.entries, id);
    if k >= 0 {
      var es := c.entries[..k] + c.entries[k + 1..];
      CheckFeedMeaning(c.(entries := es), now);
      WithoutEntry(c.entries, k);
      assert FeedsOrKeeps(Without(Ids(c.entries), k), Without(Flags(c.entries), k), c, now, Delete(c, now, id).ctx);
    }
  }

  lemma WithoutEntry(es: seq<Entry>, k: nat)
    requires k < |es|
    ensures Ids(es[..k] + es[k + 1..]) == Without(Ids(es), k)
    ensures Flags(es[..k] + es[k + 1..]) == Without(Flags(es), k)
  {
  }

  lemma DeletedIsGone(c: Context, now: int, id: Task)
    requires WellFormed(c.entries)
    ensures !Listed(Delete(c, now, id).ctx.entries, id)
  {
    var k := Find(c.entries, id);
    if k >= 0 {
      var es := c.entries[..k] + c.entries[k + 1..];
      assert forall i :: 0 <= i < |es| ==> es[i] == c.entries[if i < k then i else i + 1];
      assert forall i :: 0 <= i < |es| ==> Fed(es)[i].id == es[i].id;
    }
  }

  lemma DeleteEffects(c: Context, now: int, id: Task)
    requires WellFormed(c.entries)
    ensures var r := Delete(c, now, id);
            && DeleteDoes(c, now, id, r.ctx, r.rc)
            && WellFormed(r.ctx.entries) && !Listed(r.ctx.entries, id)
  {
    DeleteMeaning(c, now, id);
    DeletedIsGone(c, now, id);
    DeleteKeeps(c, now, id);
  }

  /** A poll that is not due changes nothing; a due one moves the deadline, and leaves the
      entries, of which there are none unless it reports, as they are. */
  lemma PollMeaning(c: Context, now: int)
    requires WellFormed(c.entries)
    ensures !Due(c.expire, now) ==> Poll(c, now) == Quiet(c)
    ensures Due(c.expire, now) ==> Poll(c, now).ctx == c.(expire := (now + c.dur) % 0x1_0000_0000)
    ensures Due(c.expire, now) ==> (Poll(c, now).Reported? <==> c.entries != [])
  {
    if Due(c.expire, now) { DuePollReports(c, now); }
  }

  // ----- Timed runs -----

  datatype Event =
    | AddCall(at: nat, current: Task, id: Task, memory: bool)
    | DeleteCall(at: nat, id: Task)
    | ResetCall(at: nat, current: Task, id: Task)
    | PollTurn(at: nat)

  /** History beside the context, all in unwrapped time: the latest event and poll,
      the last feed (or renewal), when each task was last added or reset, and which
      tasks were since the last feed. */
  datatype Monitor = Monitor(
    ctx: Context,
    now: nat,
    lastPoll: nat,
    fedAt: nat,
    last: map<Task, nat>,
    active: set<Task>,
    reported: bool)

  function Start(now: nat, dur: int): Monitor {
    Monitor(Context([], Wrap(now + dur), dur), now, now, now, map[], {}, false)
  }

  /** The history once a call at `at` has added or reset task t (none if t is NULL). */
  function Touched(m: Monitor, at: nat, t: Task): Monitor {
    if t == NULL then m.(now := at)
    else m.(now := at, last := m.last[t := at], active := m.active + {t})
  }

  function Record(m: Monitor, at: nat, r: OpResult, t: Task): Monitor {
    if r.rc != WISE_OK then m.(now := at)
    else if r.fed then Touched(m, at, t).(ctx := r.ctx, active := {}, fedAt := at)
    else Touched(m, at, t).(ctx := r.ctx)
  }

  function Step(m: Monitor, e: Event): Monitor {
    match e
    case AddCall(at, current, id, memory) =>
      Record(m, at, Add(m.ctx, Wrap(at), current, id, memory), Target(current, id))
    case DeleteCall(at, id) =>
      Record(m, at, Delete(m.ctx, Wrap(at), id), NULL)
    case ResetCall(at, current, id) =>
      Record(m, at, Reset(m.ctx, Wrap(at), current, id), Target(current, id))
    case PollTurn(at) =>
      (match Poll(m.ctx, Wrap(at))
       case Quiet(c) => m.(ctx := c, now := at, lastPoll := at)
       case Renewed(c) => m.(ctx := c, now := at, lastPoll := at, active := {}, fedAt := at)
       case Reported(c) => m.(ctx := c, now := at, lastPoll := at, reported := true))
  }

  /** Time goes on and the polling thread was last active at most `gap` ticks ago. */
  predicate Timely(m: Monitor, e: Event, gap: nat) {
    && m.now <= e.at <= m.lastPoll + gap
    && (e.AddCall? || e.ResetCall? ==> e.current != NULL)
  }

  ghost predicate IsRun(ms: seq<Monitor>, es: seq<Event>, gap: nat) {
    && |ms| == |es| + 1
    && 0 <= ms[0].ctx.dur && ms[0] == Start(ms[0].now, ms[0].ctx.dur)
    && forall i :: 0 <= i < |es| ==> Turn(ms[i], es[i], ms[i + 1], gap)
  }

  ghost predicate Turn(m: Monitor, e: Event, m': Monitor, gap: nat) {
    !m.reported && Timely(m, e, gap) && m' == Step(m, e)
  }

  ghost predicate Tracks(m: Monitor, e: Entry, gap: nat) {
    && e.id in m.last && m.last[e.id] <= m.now
    && (e.hasReset <==> e.id in m.active)
    && (e.hasReset ==> m.fedAt <= m.last[e.id])
    && (!e.hasReset ==> m.last[e.id] <= m.fedAt <= m.last[e.id] + m.ctx.dur + gap)
  }

  ghost predicate Inv(m: Monitor, gap: nat) {
    && WellFormed(m.ctx.entries)
    && m.ctx.expire == Wrap(m.fedAt + m.ctx.dur)
    && 0 <= m.ctx.dur
    && m.fedAt <= m.now && m.lastPoll <= m.now
    && m.lastPoll <= m.fedAt + m.ctx.dur
    && m.now <= m.lastPoll + gap
    && forall i :: 0 <= i < |m.ctx.entries| ==> Tracks(m, m.ctx.entries[i], gap)
  }

  /** A call that changed the entries to `c`'s, and whose history agrees with them,
      keeps the invariant when it ends in CheckFeed. */
  lemma CheckFeedStep(m: Monitor, c: Context, at: nat, t: Task, gap: nat)
    requires Inv(m, gap) && m.now <= at <= m.lastPoll + gap
    requires c == m.ctx.(entries := c.entries)
    requires forall i :: 0 <= i < |c.entries| ==> Tracks(Touched(m, at, t), c.entries[i], gap)
    requires WellFormed(CheckFeed(c, Wrap(at)).ctx.entries)
    ensures Inv(Record(m, at, CheckFeed(c, Wrap(at)), t), gap)
  {
    if AllReset(c.entries) {
      WrapSum(at, c.dur);
      var m' := Record(m, at, CheckFeed(c, Wrap(at)), t);
      forall i | 0 <= i < |c.entries| ensures Tracks(m', Fed(c.entries)[i], gap) {
        assert Tracks(Touched(m, at, t), c.entries[i], gap);
      }
    }
  }

  lemma TouchOther(m: Monitor, e: Entry, at: nat, t: Task, gap: nat)
    requires Tracks(m, e, gap) && m.now <= at && e.id != t
    ensures Tracks(Touched(m, at, t), e, gap)
  {
  }

  lemma WrapSum(a: int, b: int)
    ensures Wrap(Wrap(a) + b) == Wrap(a + b)
  {
  }

  lemma AddStep(m: Monitor, e: Event, gap: nat)
    requires Inv(m, gap) && e.AddCall? && Timely(m, e, gap)
    ensures Inv(Step(m, e), gap)
  {
    var t := Target(e.current, e.id);
    var es := m.ctx.entries;
    AddKeeps(m.ctx, Wrap(e.at), e.current, e.id, e.memory);
    if Find(es, t) < 0 && e.memory {
      var es' := [Entry(t, true)] + es;
      forall i | 0 <= i < |es'| ensures Tracks(Touched(m, e.at, t), es'[i], gap) {
        if i > 0 { TouchOther(m, es[i - 1], e.at, t, gap); }
      }
      CheckFeedStep(m, m.ctx.(entries := es'), e.at, t, gap);
    } else {
      Rejected(m, e.at, gap);
    }
  }

  lemma Rejected(m: Monitor, at: nat, gap: nat)
    requires Inv(m, gap) && m.now <= at <= m.lastPoll + gap
    ensures Inv(m.(now := at), gap)
  {
  }

  lemma DeleteStep(m: Monitor, e: Event, gap: nat)
    requires Inv(m, gap) && e.DeleteCall? && Timely(m, e, gap)
    ensures Inv(Step(m, e), gap)
  {
    var es := m.ctx.entries;
    var k := Find(es, e.id);
    DeleteKeeps(m.ctx, Wrap(e.at), e.id);
    Rejected(m, e.at, gap);
    if k >= 0 {
      var es' := es[..k] + es[k + 1..];
      forall i | 0 <= i < |es'| ensures Tracks(Touched(m, e.at, NULL), es'[i], gap) {
        assert es'[i] == es[if i < k then i else i + 1];
      }
      CheckFeedStep(m, m.ctx.(entries := es'), e.at, NULL, gap);
    }
  }

  lemma ResetStep(m: Monitor, e: Event, gap: nat)
    requires Inv(m, gap) && e.ResetCall? && Timely(m, e, gap)
    ensures Inv(Step(m, e), gap)
  {
    var t := Target(e.current, e.id);
    var es := m.ctx.entries;
    var k := Find(es, t);
    ResetKeeps(m.ctx, Wrap(e.at), e.current, e.id);
    if k >= 0 {
      var es' := es[k := Entry(t, true)];
      forall i | 0 <= i < |es'| ensures Tracks(Touched(m, e.at, t), es'[i], gap) {
        if i != k { TouchOther(m, es[i], e.at, t, gap); }
      }
      CheckFeedStep(m, m.ctx.(entries := es'), e.at, t, gap);
    } else {
      Rejected(m, e.at, gap);
    }
  }

  /** A poll compares correctly, and reports when due unless nobody is subscribed. */
  lemma PollStep(m: Monitor, at: nat, gap: nat)
    requires Inv(m, gap) && Timely(m, PollTurn(at), gap)
    requires m.ctx.dur < HALF_RANGE && gap <= HALF_RANGE
    ensures Step(m, PollTurn(at)).reported
         <==> m.reported || (m.fedAt + m.ctx.dur - at <= MARGIN && m.ctx.entries != [])
    ensures !Step(m, PollTurn(at)).reported ==> Inv(Step(m, PollTurn(at)), gap)
  {
    DueIsTrueTime(m.fedAt + m.ctx.dur, at);
    WrapSum(at, m.ctx.dur);
    assert forall i :: 0 <= i < |m.ctx.entries| ==> Tracks(m, m.ctx.entries[i], gap);
    if Due(m.ctx.expire, Wrap(at)) {
      DuePollReports(m.ctx, Wrap(at));
    }
  }

  lemma {:induction false} InvInEveryRun(ms: seq<Monitor>, es: seq<Event>, gap: nat)
    requires IsRun(ms, es, gap)
    requires ms[0].ctx.dur < HALF_RANGE && gap <= HALF_RANGE
    ensures ms[|es|].ctx.dur == ms[0].ctx.dur
    ensures !ms[|es|].reported ==> Inv(ms[|es|], gap)
    decreases |es|
  {
    var n := |es| - 1;
    if n >= 0 {
      assert Turn(ms[n], es[n], ms[n + 1], gap);
      RunPrefix(ms, es, gap);
      InvInEveryRun(ms[..n + 1], es[..n], gap);
      AnyStep(ms[n], es[n], gap);
    }
  }

  lemma AnyStep(m: Monitor, e: Event, gap: nat)
    requires Inv(m, gap) && Timely(m, e, gap) && !m.reported
    requires m.ctx.dur < HALF_RANGE && gap <= HALF_RANGE
    ensures !Step(m, e).reported ==> Inv(Step(m, e), gap)
    ensures Step(m, e).ctx.dur == m.ctx.dur
  {
    match e {
      case AddCall(_, _, _, _) => AddStep(m, e, gap);
      case DeleteCall(_, _) => DeleteStep(m, e, gap);
      case ResetCall(_, _, _) => ResetStep(m, e, gap);
      case PollTurn(at) => PollStep(m, at, gap);
    }
  }

  lemma RunPrefix(ms: seq<Monitor>, es: seq<Event>, gap: nat)
    requires IsRun(ms, es, gap) && es != []
    ensures IsRun(ms[..|es|], es[..|es| - 1], gap)
  {
  }

  ghost predicate Subscribed(m: Monitor, t: Task) {
    Listed(m.ctx.entries, t)
  }

  /** The timing bound: in a run that has not reported yet, every subscribed task was
      added or reset within the last two timeouts and two poll gaps. */
  lemma ReportInTime(ms: seq<Monitor>, es: seq<Event>, gap: nat, t: Task)
    requires IsRun(ms, es, gap)
    requires ms[0].ctx.dur < HALF_RANGE && gap <= HALF_RANGE
    requires !ms[|es|].reported && Subscribed(ms[|es|], t)
    ensures t in ms[|es|].last
    ensures ms[|es|].now <= ms[|es|].last[t] + 2 * ms[0].ctx.dur + 2 * gap
  {
    InvInEveryRun(ms, es, gap);
    var m := ms[|es|];
    var i :| 0 <= i < |m.ctx.entries| && m.ctx.entries[i].id == t;
    assert Tracks(m, m.ctx.entries[i], gap);
  }

  /** No early report: a poll that reports names at least one task, and every task it
      names was last added or reset at least dur - MARGIN ticks before. */
  lemma ReportIsJustified(ms: seq<Monitor>, es: seq<Event>, gap: nat, at: nat)
    requires IsRun(ms, es, gap)
    requires ms[0].ctx.dur < HALF_RANGE && gap <= HALF_RANGE
    requires var m := ms[|es|]; !m.reported && Timely(m, PollTurn(at), gap) && Step(m, PollTurn(at)).reported
    ensures var m := ms[|es|];
            && (exists i :: 0 <= i < |m.ctx.entries| && !m.ctx.entries[i].hasReset)
            && (forall i :: 0 <= i < |m.ctx.entries| && !m.ctx.entries[i].hasReset ==>
                  m.ctx.entries[i].id in m.last
                  && m.last[m.ctx.entries[i].id] + m.ctx.dur - MARGIN <= at)
  {
    InvInEveryRun(ms, es, gap);
    var m := ms[|es|];
    PollStep(m, at, gap);
    assert forall i :: 0 <= i < |m.ctx.entries| ==> Tracks(m, m.ctx.entries[i], gap);
  }

  /** Between consecutive feeds every task that is still subscribed was added or reset. */
  lemma FeedNeedsEveryone(ms: seq<Monitor>, es: seq<Event>, gap: nat, e: Event)
    requires IsRun(ms, es, gap)
    requires ms[0].ctx.dur < HALF_RANGE && gap <= HALF_RANGE
    requires !ms[|es|].reported && Timely(ms[|es|], e, gap)
    requires Feeds(ms[|es|].ctx, e)
    ensures forall t :: Subscribed(Step(ms[|es|], e), t) ==> t in ms[|es|].active || Touches(e, t)
  {
    InvInEveryRun(ms, es, gap);
    var m := ms[|es|];
    assert forall i :: 0 <= i < |m.ctx.entries| ==> Tracks(m, m.ctx.entries[i], gap);
    forall t | Subscribed(Step(m, e), t) ensures t in m.active || Touches(e, t) {
      FedTaskWasActive(m, e, t, gap);
    }
  }

  /** The call `e` adds or resets task t. */
  predicate Touches(e: Event, t: Task) {
    (e.AddCall? || e.ResetCall?) && t == Target(e.current, e.id)
  }

  lemma FedTaskWasActive(m: Monitor, e: Event, t: Task, gap: nat)
    requires forall i :: 0 <= i < |m.ctx.entries| ==> Tracks(m, m.ctx.entries[i], gap)
    requires Feeds(m.ctx, e) && Subscribed(Step(m, e), t)
    ensures t in m.active || Touches(e, t)
  {
    FedFrom(m, e, t);
    if !Touches(e, t) {
      var i :| 0 <= i < |m.ctx.entries| && m.ctx.entries[i] == Entry(t, true);
      assert Tracks(m, m.ctx.entries[i], gap);
    }
  }

  /** A task on the list after a feed was there before it, reset, or is the call's own. */
  lemma FedFrom(m: Monitor, e: Event, t: Task)
    requires Feeds(m.ctx, e) && Subscribed(Step(m, e), t)
    ensures Entry(t, true) in m.ctx.entries || Touches(e, t)
  {
    var es := m.ctx.entries;
    match e {
      case AddCall(_, current, id, _) =>
        FedWasReset([Entry(Target(current, id), true)] + es, t);
      case DeleteCall(_, id) =>
        var k := Find(es, id);
        FedWasReset(es[..k] + es[k + 1..], t);
      case ResetCall(_, current, id) =>
        var x := Target(current, id);
        FedWasReset(es[Find(es, x) := Entry(x, true)], t);
      case PollTurn(_) =>
        FedWasReset(es, t);
    }
  }

  lemma FedWasReset(es: seq<Entry>, t: Task)
    requires AllReset(es) && exists i :: 0 <= i < |Fed(es)| && Fed(es)[i].id == t
    ensures Entry(t, true) in es
  {
    var i :| 0 <= i < |Fed(es)| && Fed(es)[i].id == t;
    assert es[i] == Entry(t, true);
  }

  /** Whether the call `e` feeds the watchdog. */
  ghost predicate Feeds(c: Context, e: Event) {
    match e
    case AddCall(at, current, id, memory) => Add(c, Wrap(at), current, id, memory).fed
    case DeleteCall(at, id) => Delete(c, Wrap(at), id).fed
    case ResetCall(at, current, id) => Reset(c, Wrap(at), current, id).fed
    case PollTurn(at) => Poll(c, Wrap(at)).Renewed?
  }

  // ----- No false alarms -----

  /** The event adds or resets task t, and is accepted. */
  ghost predicate Serves(m: Monitor, e: Event, t: Task) {
    && Touches(e, t) && t != NULL
    && (e.ResetCall? ==> Subscribed(m, t))
    && (e.AddCall? ==> !Subscribed(m, t) && e.memory)
  }

  /** It is recorded at its time. */
  lemma ServesIsRecorded(m: Monitor, e: Event, t: Task)
    requires Serves(m, e, t)
    ensures t in Step(m, e).last && Step(m, e).last[t] == e.at
  {
    if e.AddCall? {
      AddMeaning(m.ctx, Wrap(e.at), e.current, e.id, e.memory);
    } else {
      ResetMeaning(m.ctx, Wrap(e.at), e.current, e.id);
    }
  }

  /** Records only grow. */
  lemma {:induction false} RecordsGrow(ms: seq<Monitor>, es: seq<Event>, gap: nat, k: nat, n: nat, t: Task)
    requires IsRun(ms, es, gap) && k <= n <= |es|
    requires t in ms[k].last && ms[k].last[t] <= ms[k].now
    ensures t in ms[n].last && ms[k].last[t] <= ms[n].last[t] <= ms[n].now
  {
    if n == k {
    } else {
      RecordsGrow(ms, es, gap, k, n - 1, t);
      assert Turn(ms[n - 1], es[n - 1], ms[n], gap);
      RecordGrows(ms[n - 1], es[n - 1], t);
    }
  }

  lemma RecordGrows(m: Monitor, e: Event, t: Task)
    requires m.now <= e.at && t in m.last && m.last[t] <= m.now
    ensures var m' := Step(m, e); m'.now == e.at && t in m'.last && m.last[t] <= m'.last[t] <= m'.now
  {
    match e {
      case AddCall(at, current, id, memory) =>
        CallGrows(m, at, Add(m.ctx, Wrap(at), current, id, memory), Target(current, id), t);
      case DeleteCall(at, id) =>
        CallGrows(m, at, Delete(m.ctx, Wrap(at), id), NULL, t);
      case ResetCall(at, current, id) =>
        CallGrows(m, at, Reset(m.ctx, Wrap(at), current, id), Target(current, id), t);
      case PollTurn(at) =>
    }
  }

  lemma CallGrows(m: Monitor, at: nat, r: OpResult, x: Task, t: Task)
    requires m.now <= at && t in m.last && m.last[t] <= m.now
    ensures var m' := Record(m, at, r, x); m'.now == at && t in m'.last && m.last[t] <= m'.last[t] <= m'.now
  {
  }

  lemma {:induction false} RunTake(ms: seq<Monitor>, es: seq<Event>, gap: nat, n: nat)
    requires IsRun(ms, es, gap) && n <= |es|
    ensures IsRun(ms[..n + 1], es[..n], gap)
  {
    forall i | 0 <= i < n ensures Turn(ms[..n + 1][i], es[..n][i], ms[..n + 1][i + 1], gap) {
      assert Turn(ms[i], es[i], ms[i + 1], gap);
    }
  }

  /** A poll does not name a task that was added or reset less than the timeout, less the
      margin, before. */
  lemma NotNamed(ms: seq<Monitor>, es: seq<Event>, gap: nat, k: nat, n: nat, t: Task)
    requires IsRun(ms, es, gap) && k < n < |es| && es[n].PollTurn? && Serves(ms[k], es[k], t)
    requires ms[0].ctx.dur < HALF_RANGE && gap <= HALF_RANGE
    requires es[n].at < es[k].at + ms[0].ctx.dur - MARGIN
    ensures ms[n + 1].reported ==> Entry(t, false) !in ms[n].ctx.entries
  {
    assert Turn(ms[k], es[k], ms[k + 1], gap) && Turn(ms[n], es[n], ms[n + 1], gap);
    ServesIsRecorded(ms[k], es[k], t);
    RecordsGrow(ms, es, gap, k + 1, n, t);
    RunTake(ms, es, gap, n);
    InvInEveryRun(ms[..n + 1], es[..n], gap);
    if ms[n + 1].reported {
      ReportIsJustified(ms[..n + 1], es[..n], gap, es[n].at);
    }
  }

  /** No false alarm: a task that has been added or reset within the timeout, less the
      margin, before every poll while it is subscribed is never named. */
  lemma NoFalseAlarm(ms: seq<Monitor>, es: seq<Event>, gap: nat, t: Task)
    requires IsRun(ms, es, gap) && ms[0].ctx.dur < HALF_RANGE && gap <= HALF_RANGE
    requires forall n :: 0 <= n < |es| && es[n].PollTurn? && Subscribed(ms[n], t) ==>
               exists k :: 0 <= k < n && Serves(ms[k], es[k], t)
                           && es[n].at < es[k].at + ms[0].ctx.dur - MARGIN
    ensures forall n :: 0 <= n < |es| && es[n].PollTurn? && ms[n + 1].reported ==>
              Entry(t, false) !in ms[n].ctx.entries
  {
    forall n | 0 <= n < |es| && es[n].PollTurn? && ms[n + 1].reported
      ensures Entry(t, false) !in ms[n].ctx.entries
    {
      if Subscribed(ms[n], t) {
        var k :| 0 <= k < n && Serves(ms[k], es[k], t) && es[n].at < es[k].at + ms[0].ctx.dur - MARGIN;
        NotNamed(ms, es, gap, k, n, t);
      }
    }
  }

  /** A task that is added and polled for in the same tick is reported at once exactly when
      the timeout is within the margin or of 2^31 ticks and more. */
  lemma ReportedAtOnce(now: nat, dur: int, t: Task, gap: nat) returns (ms: seq<Monitor>, es: seq<Event>)
    requires 0 <= dur < TICK_RANGE && t != NULL
    ensures IsRun(ms, es, gap) && ms[0] == Start(now, dur)
    ensures es == [AddCall(now, t, t, true), PollTurn(now)]
    ensures ms[2].reported <==> dur <= MARGIN || HALF_RANGE <= dur
  {
    var m0 := Start(now, dur);
    var m1 := Step(m0, AddCall(now, t, t, true));
    es := [AddCall(now, t, t, true), PollTurn(now)];
    ms := [m0, m1, Step(m1, PollTurn(now))];
    WrapSum(now, dur);
    DueRightAfterFeed(now, dur);
    assert Fed([Entry(t, true)] + []) == [Entry(t, false)];
    assert m1.ctx == Context([Entry(t, false)], Wrap(now + dur), dur);
    assert !m1.ctx.entries[0].hasReset;
    assert Turn(ms[0], es[0], ms[1], gap) && Turn(ms[1], es[1], ms[2], gap);
  }

  // ----- The watchdog updated in place -----

  class Watchdog {
    var started: bool
    var entries: seq<Entry>
    var expire: int
    var dur: int

    function View(): Context
      reads this
    {
      Context(entries, expire, dur)
    }

    /** The record before wise_task_wdt_init. */
    constructor ()
      ensures View() == Context([], 0, 0) && !started
    {
      started, entries, expire, dur := false, [], 0, 0;
    }

    /** wise_task_wdt_init, once the ticks of the timeout are known; `threadCreated` says
        whether the polling thread could be made.  A second call is refused. */
    method Init(now: nat, ticks: int, threadCreated: bool) returns (rc: int)
      modifies this
      ensures started
      ensures old(started) ==> rc == WISE_ERR_INVALID_STATE && View() == old(View())
      ensures !old(started) ==> View() == old(View()).(expire := Wrap(now + ticks), dur := ticks)
      ensures !old(started) ==> rc == if threadCreated then WISE_OK else WISE_FAIL
      ensures !old(started) && old(entries) == [] ==> View() == Start(now, ticks).ctx
    {
      if started { return WISE_ERR_INVALID_STATE; }
      started := true;
      dur := ticks;
      expire := Wrap(now + dur);
      rc := if threadCreated then WISE_OK else WISE_FAIL;
    }

    method CheckAllReset() returns (all: bool)
      ensures all <==> AllReset(entries)
    {
      var foundNonReset := false;
      for i := 0 to |entries|
        invariant foundNonReset <==> exists j :: 0 <= j < i && !entries[j].hasReset
      {
        if !entries[i].hasReset {
          foundNonReset := true;
        }
      }
      all := !foundNonReset;
    }

    method TimerFeed()
      modifies this`entries
      ensures entries == Fed(old(entries))
    {
      for i := 0 to |entries|
        invariant |entries| == |old(entries)|
        invariant forall j :: 0 <= j < i ==> entries[j] == old(entries)[j].(hasReset := false)
        invariant forall j :: i <= j < |entries| ==> entries[j] == old(entries)[j]
      {
        entries := entries[i := entries[i].(hasReset := false)];
      }
    }

    method FindEntry(id: Task) returns (target: int)
      ensures target == Find(entries, id)
    {
      target := -1;
      for i := 0 to |entries|
        invariant target == Find(entries[..i], id)
      {
        assert entries[..i + 1][..i] == entries[..i];
        if entries[i].id == id {
          target := i;
        }
      }
      assert entries[..|entries|] == entries;
    }

    method FeedIfAllReset(now: int)
      modifies this`entries, this`expire
      ensures View() == CheckFeed(old(View()), now).ctx
    {
      var all := CheckAllReset();
      if all {
        TimerFeed();
        expire := Wrap(now + dur);
      }
    }

    method AddTask(now: int, current: Task, id: Task, memory: bool) returns (rc: int)
      requires WellFormed(entries) && current != NULL
      modifies this`entries, this`expire
      ensures OpResult(View(), rc, Add(old(View()), now, current, id, memory).fed)
           == Add(old(View()), now, current, id, memory)
      ensures AddDoes(old(View()), now, current, id, memory, View(), rc)
      ensures WellFormed(entries)
    {
      AddMeaning(View(), now, current, id, memory);
      AddKeeps(View(), now, current, id, memory);
      var t := if id == NULL then current else id;
      var k := FindEntry(t);
      if k >= 0 { return WISE_FAIL; }
      if !memory { return WISE_ERR_NO_MEM; }
      entries := [Entry(t, true)] + entries;
      FeedIfAllReset(now);
      return WISE_OK;
    }

    method DeleteTask(now: int, id: Task) returns (rc: int)
      requires WellFormed(entries)
      modifies this`entries, this`expire
      ensures OpResult(View(), rc, Delete(old(View()), now, id).fed) == Delete(old(View()), now, id)
      ensures DeleteDoes(old(View()), now, id, View(), rc) && !Listed(entries, id)
      ensures WellFormed(entries)
    {
      DeleteEffects(View(), now, id);
      var k := FindEntry(id);
      if k < 0 { return WISE_FAIL; }
      entries := entries[..k] + entries[k + 1..];
      FeedIfAllReset(now);
      return WISE_OK;
    }

    method ResetTask(now: int, current: Task, id: Task) returns (rc: int)
      requires WellFormed(entries)
      modifies this`entries, this`expire
      ensures OpResult(View(), rc, Reset(old(View()), now, current, id).fed)
           == Reset(old(View()), now, current, id)
      ensures ResetDoes(old(View()), now, current, id, View(), rc)
      ensures WellFormed(entries)
    {
      ResetMeaning(View(), now, current, id);
      ResetKeeps(View(), now, current, id);
      var t := if id == NULL then current else id;
      var k := FindEntry(t);
      if k < 0 { return WISE_FAIL; }
      entries := entries[k := entries[k].(hasReset := true)];
      FeedIfAllReset(now);
      return WISE_OK;
    }

    /** One turn of the polling loop; after a report the thread never runs again. */
    method PollOnce(now: int) returns (report: bool, late: seq<Task>)
      requires WellFormed(entries)
      modifies this`entries, this`expire
      ensures View() == Poll(old(View()), now).ctx
      ensures report <==> Poll(old(View()), now).Reported?
      ensures report <==> Due(old(expire), now) && old(entries) != []
      ensures entries == old(entries)
      ensures expire == if Due(old(expire), now) then (now + dur) % 0x1_0000_0000 else old(expire)
      ensures report ==> forall t :: t in late <==> Entry(t, false) in entries
      ensures WellFormed(entries)
    {
      PollMeaning(View(), now);
      report, late := false, [];
      var all := false;
      if Due(expire, now) {
        DuePollReports(View(), now);
        all := CheckAllReset();
        expire := Wrap(now + dur);
        if !all {
          report := true;
          for i := 0 to |entries|
            invariant forall t :: t in late <==> Entry(t, false) in entries[..i]
          {
            if !entries[i].hasReset {
              late := late + [entries[i].id];
            }
          }
          assert entries[..|entries|] == entries;
          return;
        }
      }
      if all {
        TimerFeed();
      }
    }
  }
}
