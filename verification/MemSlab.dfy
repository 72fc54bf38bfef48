/** The fixed-size block allocator of kernel/mem_slab.c.

    Memory is a map from word addresses to words.  The free list is threaded
    through the first word of every free block.  The sections that run with
    interrupts off are functions on `State`; the class `Slab` carries them out in
    place, and `World` interleaves them with the wait queue and with clients that
    write into the blocks they hold. */
module MemSlab {
  import opened Arithmetic
  import opened Wrappers

  const NULL := 0
  const WORD := 4
  const ADDRESS_RANGE := 0x1_0000_0000
  const PTRDIFF_MAX := 0x7FFF_FFFF
  const EINVAL := 22
  const ENOMEM := 12
  const ETIME := 62

  type Positive = n: int | 0 < n witness 1

  datatype Config = Config(base: int, size: Positive, count: int)

  datatype State = State(
    cfg: Config,
    mem: map<int, int>,
    freeList: int,
    numUsed: int,
    maxUsed: int,
    queue: Option<int>)

  // ----- Geometry of the buffer -----

  predicate Aligned(c: Config) {
    c.size % WORD == 0 && c.base % WORD == 0
  }

  /** The buffer is an object of a 32-bit address space, and the address one block
      below it does not wrap. */
  predicate Fits(c: Config) {
    && c.size <= c.base
    && 0 <= c.count
    && c.size * c.count <= PTRDIFF_MAX
    && c.base + c.size * c.count <= ADDRESS_RANGE
  }

  function BlockAt(c: Config, k: int): int {
    c.base + c.size * k
  }

  ghost function Blocks(c: Config): set<int> {
    set k | 0 <= k < c.count :: BlockAt(c, k)
  }

  predicate PtrIsGood(c: Config, p: int) {
    var offset := p - c.base;
    0 <= offset && offset < c.size * c.count && offset % c.size == 0
  }

  /** Distinct blocks do not overlap. */
  lemma BlocksApart(c: Config, i: int, j: int)
    requires i != j
    ensures BlockAt(c, i) + c.size <= BlockAt(c, j) || BlockAt(c, j) + c.size <= BlockAt(c, i)
  {
    if i < j { GapAtLeast(c.size, i, j); } else { GapAtLeast(c.size, j, i); }
  }

  lemma BlockInRange(c: Config, k: int)
    requires Fits(c) && 0 <= k < c.count
    ensures 0 < c.base <= BlockAt(c, k)
    ensures BlockAt(c, k) + c.size <= c.base + c.size * c.count
  {
    GapAtLeast(c.size, k, c.count);
    assert c.size * k >= 0;
  }

  /** The sanity check accepts exactly the block addresses. */
  lemma PtrIsGoodExact(c: Config, p: int)
    requires Fits(c)
    ensures PtrIsGood(c, p) <==> p in Blocks(c)
  {
    var k := (p - c.base) / c.size;
    if PtrIsGood(c, p) {
      assert p == BlockAt(c, k);
      if k < 0 { GapAtLeast(c.size, k, 0); }
      if k > c.count { GapAtLeast(c.size, c.count, k); }
    }
    if p in Blocks(c) {
      var j :| 0 <= j < c.count && p == BlockAt(c, j);
      BlockInRange(c, j);
      RemainderUnique(p - c.base, c.size, j, 0);
    }
  }

  /** A word written inside one block is never the link word of another. */
  lemma WriteStaysInside(c: Config, b: int, other: int, a: int)
    requires Fits(c) && b in Blocks(c) && other in Blocks(c)
    requires b <= a < b + c.size && other != b
    ensures a != other
  {
    var i :| 0 <= i < c.count && b == BlockAt(c, i);
    var j :| 0 <= j < c.count && other == BlockAt(c, j);
    BlocksApart(c, i, j);
  }

  // ----- The list threaded through memory -----

  /** Following the link words from `head` visits exactly `chain` and ends at NULL. */
  ghost predicate IsChain(mem: map<int, int>, head: int, chain: seq<int>)
    decreases |chain|
  {
    if chain == [] then head == NULL
    else head == chain[0] && head != NULL && head in mem && IsChain(mem, mem[head], chain[1..])
  }

  ghost predicate Distinct(s: seq<int>) {
    forall i, j :: 0 <= i < j < |s| ==> s[i] != s[j]
  }

  ghost function Elements(s: seq<int>): set<int> {
    set x | x in s
  }

  /** Only the link words of the chain matter. */
  lemma {:induction false} ChainFrame(mem: map<int, int>, mem': map<int, int>, head: int, chain: seq<int>)
    requires IsChain(mem, head, chain)
    requires forall b :: b in chain && b in mem ==> b in mem' && mem'[b] == mem[b]
    ensures IsChain(mem', head, chain)
    decreases |chain|
  {
    if chain == [] {
    } else {
      assert chain[0] in chain;
      assert forall b :: b in chain[1..] ==> b in chain;
      ChainFrame(mem, mem', mem[head], chain[1..]);
    }
  }

  /** The walk is determined by memory: there is one chain per list head. */
  lemma {:induction false} ChainUnique(mem: map<int, int>, head: int, c1: seq<int>, c2: seq<int>)
    requires IsChain(mem, head, c1) && IsChain(mem, head, c2)
    ensures c1 == c2
    decreases |c1|
  {
    if c1 != [] && c2 != [] {
      ChainUnique(mem, mem[head], c1[1..], c2[1..]);
      assert c1 == [c1[0]] + c1[1..];
      assert c2 == [c2[0]] + c2[1..];
    }
  }

  // ----- The interrupt-free sections -----

  function Load(mem: map<int, int>, a: int): int {
    if a in mem then mem[a] else NULL
  }

  datatype AllocResult =
    | Took(state: State, block: int)
    | NoMemory
    | MustWait
    | Insane

  /** mem_slab_alloc up to the point where interrupts are restored. */
  function AllocLocked(s: State, timeout: int): AllocResult {
    if s.freeList != NULL then
      var next := Load(s.mem, s.freeList);
      var used := (s.numUsed + 1) % ADDRESS_RANGE;
      if (next == NULL && used == s.cfg.count) || PtrIsGood(s.cfg, next) then
        Took(s.(freeList := next, numUsed := used, maxUsed := if used > s.maxUsed then used else s.maxUsed),
             s.freeList)
      else
        Insane
    else if timeout == 0 then NoMemory
    else MustWait
  }

  /** Put without waiting on the one-slot queue: None when there is no space. */
  function QueuePut(q: Option<int>, block: int): Option<Option<int>> {
    if q.None? then Some(Some(block)) else None
  }

  datatype FreeResult = Freed(state: State) | PutFailed

  /** mem_slab_free; `waiters` is the number of tasks blocked on the queue. */
  function FreeLocked(s: State, block: int, waiters: nat): FreeResult {
    if s.freeList == NULL && waiters != 0 && s.queue.None? then
      match QueuePut(s.queue, block)
      case Some(q) => Freed(s.(queue := q))
      case None => PutFailed
    else
      Freed(s.(mem := s.mem[block := s.freeList],
               freeList := block,
               numUsed := (s.numUsed + ADDRESS_RANGE - 1) % ADDRESS_RANGE))
  }

  // ----- Clients, waiters and interleavings -----

  type Task = nat

  /** `held` maps each block in a client's hands to its holder; `waiting` are the
      tasks inside the blocking queue read. */
  datatype World = World(s: State, held: map<int, Task>, waiting: set<Task>)

  datatype Event =
    | Alloc(task: Task, timeout: int)
    | QueueGet(task: Task)
    | QueueMiss(task: Task)
    | Free(block: int, waiters: nat)
    | Write(block: int, address: int, word: int)

  /** Fault: an assertion of the source fails, or a block is handed out while a
      client holds it. */
  datatype Outcome = Next(world: World) | Fault

  predicate Enabled(w: World, e: Event) {
    match e
    case Alloc(t, _) => t !in w.waiting
    case QueueGet(t) => t in w.waiting && w.s.queue.Some?
    case QueueMiss(t) => t in w.waiting
    case Free(b, waiters) => b in w.held && (waiters != 0 ==> w.waiting != {})
    case Write(b, a, _) => b in w.held && b <= a < b + w.s.cfg.size && a % WORD == 0
  }

  function Grant(w: World, s: State, block: int, t: Task): Outcome {
    if block in w.held then Fault else Next(w.(s := s, held := w.held[block := t]))
  }

  function Apply(w: World, e: Event): Outcome
    requires Enabled(w, e)
  {
    match e
    case Alloc(t, timeout) =>
      (match AllocLocked(w.s, timeout)
       case Took(s, b) => Grant(w, s, b, t)
       case NoMemory => Next(w)
       case MustWait => Next(w.(waiting := w.waiting + {t}))
       case Insane => Fault)
    case QueueGet(t) =>
      Grant(w.(waiting := w.waiting - {t}), w.s.(queue := None), w.s.queue.value, t)
    case QueueMiss(t) => Next(w.(waiting := w.waiting - {t}))
    case Free(b, waiters) =>
      (match FreeLocked(w.s, b, waiters)
       case Freed(s) => Next(w.(s := s, held := w.held - {b}))
       case PutFailed => Fault)
    case Write(b, a, v) => Next(w.(s := w.s.(mem := w.s.mem[a := v])))
  }

  // ----- What every step keeps -----

  ghost predicate Geometry(c: Config, mem: map<int, int>) {
    Fits(c) && Aligned(c) && Blocks(c) <= mem.Keys
  }

  /** Every block of `all` is in exactly one of chain, queue and held, and on the
      chain only once. */
  ghost predicate Placed(all: set<int>, chain: seq<int>, queue: Option<int>, held: map<int, Task>) {
    && Distinct(chain)
    && (forall b :: b in all <==> b in chain || queue == Some(b) || b in held)
    && (forall b :: b in chain ==> queue != Some(b) && b !in held)
    && (queue.Some? ==> queue.value !in held)
  }

  function QueueLength(q: Option<int>): nat {
    if q.Some? then 1 else 0
  }

  ghost predicate Counted(s: State, chain: seq<int>, held: map<int, Task>) {
    && |chain| + |held| + QueueLength(s.queue) == s.cfg.count < ADDRESS_RANGE
    && s.numUsed == |held| + QueueLength(s.queue)
    && s.numUsed <= s.maxUsed
  }

  ghost predicate Inv(w: World, chain: seq<int>) {
    && Geometry(w.s.cfg, w.s.mem)
    && IsChain(w.s.mem, w.s.freeList, chain)
    && Placed(Blocks(w.s.cfg), chain, w.s.queue, w.held)
    && Counted(w.s, chain, w.held)
  }

  ghost predicate Good(w: World) {
    exists chain :: Inv(w, chain)
  }

  lemma PlacedTake(all: set<int>, chain: seq<int>, queue: Option<int>, held: map<int, Task>, t: Task)
    requires Placed(all, chain, queue, held) && chain != []
    ensures chain[0] in all && chain[0] !in held
    ensures Placed(all, chain[1..], queue, held[chain[0] := t])
  {
    assert chain[0] in chain;
    assert forall b :: b in chain <==> b == chain[0] || b in chain[1..];
  }

  lemma PlacedReturn(all: set<int>, chain: seq<int>, queue: Option<int>, held: map<int, Task>, b: int)
    requires Placed(all, chain, queue, held) && b in held
    ensures b in all && b !in chain
    ensures Placed(all, [b] + chain, queue, held - {b})
    ensures queue.None? ==> Placed(all, chain, Some(b), held - {b})
  {
  }

  lemma HeldCount(held: map<int, Task>, b: int, t: Task)
    ensures b !in held ==> |held[b := t]| == |held| + 1
    ensures b in held ==> |held - {b}| == |held| - 1
  {
  }

  lemma ChainHead(mem: map<int, int>, head: int, chain: seq<int>)
    requires IsChain(mem, head, chain)
    ensures head != NULL ==> chain != [] && chain[0] == head && head in mem && IsChain(mem, mem[head], chain[1..])
    ensures head == NULL ==> chain == []
  {
  }

  /** The sanity check of mem_slab_alloc passes. */
  lemma AllocIsSane(w: World, chain: seq<int>, timeout: int)
    requires Inv(w, chain) && w.s.freeList != NULL
    ensures AllocLocked(w.s, timeout).Took? && AllocLocked(w.s, timeout).block == w.s.freeList
  {
    ChainHead(w.s.mem, w.s.freeList, chain);
    var next := w.s.mem[w.s.freeList];
    ChainHead(w.s.mem, next, chain[1..]);
    if next != NULL {
      assert next == chain[1] && next in chain;
      PtrIsGoodExact(w.s.cfg, next);
    }
  }

  /** What the locked section takes and counts in a good state. */
  lemma AllocMeaning(w: World, timeout: int)
    requires Good(w)
    ensures var s := w.s;
            if s.freeList == NULL then AllocLocked(s, timeout) == if timeout == 0 then NoMemory else MustWait
            else
              && s.freeList in s.mem && 0 <= s.numUsed < ADDRESS_RANGE - 1
              && AllocLocked(s, timeout)
                 == Took(s.(freeList := s.mem[s.freeList], numUsed := s.numUsed + 1,
                            maxUsed := if s.numUsed + 1 > s.maxUsed then s.numUsed + 1 else s.maxUsed),
                         s.freeList)
  {
    var chain :| Inv(w, chain);
    if w.s.freeList != NULL {
      AllocIsSane(w, chain, timeout);
      ChainHead(w.s.mem, w.s.freeList, chain);
    }
  }

  lemma AllocKeeps(w: World, chain: seq<int>, t: Task, timeout: int)
    requires Inv(w, chain) && w.s.freeList != NULL && Enabled(w, Alloc(t, timeout))
    ensures chain != []
    ensures Apply(w, Alloc(t, timeout)).Next?
    ensures Inv(Apply(w, Alloc(t, timeout)).world, chain[1..])
  {
    AllocIsSane(w, chain, timeout);
    ChainHead(w.s.mem, w.s.freeList, chain);
    PlacedTake(Blocks(w.s.cfg), chain, w.s.queue, w.held, t);
    HeldCount(w.held, chain[0], t);
  }

  lemma QueueGetKeeps(w: World, chain: seq<int>, t: Task)
    requires Inv(w, chain) && Enabled(w, QueueGet(t))
    ensures Apply(w, QueueGet(t)).Next?
    ensures Inv(Apply(w, QueueGet(t)).world, chain)
  {
  }

  /** A block pushed onto the free list. */
  lemma PushChain(mem: map<int, int>, head: int, chain: seq<int>, b: int)
    requires IsChain(mem, head, chain) && b !in chain && b != NULL
    ensures IsChain(mem[b := head], b, [b] + chain)
  {
    ChainFrame(mem, mem[b := head], head, chain);
    assert ([b] + chain)[1..] == chain;
  }

  lemma FreeToListKeeps(w: World, chain: seq<int>, b: int, waiters: nat)
    requires Inv(w, chain) && Enabled(w, Free(b, waiters))
    requires !(w.s.freeList == NULL && waiters != 0 && w.s.queue.None?)
    ensures Apply(w, Free(b, waiters)).Next?
    ensures Inv(Apply(w, Free(b, waiters)).world, [b] + chain)
  {
    var w' := Apply(w, Free(b, waiters)).world;
    PlacedReturn(Blocks(w.s.cfg), chain, w.s.queue, w.held, b);
    NotNull(w.s.cfg, b);
    PushChain(w.s.mem, w.s.freeList, chain, b);
    CountedReturn(w.s, w'.s, chain, w.held, b);
    assert Geometry(w'.s.cfg, w'.s.mem);
  }

  lemma CountedReturn(s: State, s': State, chain: seq<int>, held: map<int, Task>, b: int)
    requires Counted(s, chain, held) && b in held
    requires s' == s.(mem := s'.mem, freeList := s'.freeList, numUsed := s'.numUsed)
    requires s'.numUsed == (s.numUsed + ADDRESS_RANGE - 1) % ADDRESS_RANGE
    ensures Counted(s', [b] + chain, held - {b})
  {
    HeldCount(held, b, 0);
  }

  lemma FreeToQueueKeeps(w: World, chain: seq<int>, b: int, waiters: nat)
    requires Inv(w, chain) && Enabled(w, Free(b, waiters))
    requires w.s.freeList == NULL && waiters != 0 && w.s.queue.None?
    ensures Apply(w, Free(b, waiters)).Next?
    ensures Inv(Apply(w, Free(b, waiters)).world, chain)
  {
    PlacedReturn(Blocks(w.s.cfg), chain, w.s.queue, w.held, b);
    HeldCount(w.held, b, 0);
  }

  lemma FreeKeeps(w: World, chain: seq<int>, b: int, waiters: nat) returns (chain': seq<int>)
    requires Inv(w, chain) && Enabled(w, Free(b, waiters))
    ensures Apply(w, Free(b, waiters)).Next?
    ensures Inv(Apply(w, Free(b, waiters)).world, chain')
  {
    if w.s.freeList == NULL && waiters != 0 && w.s.queue.None? {
      chain' := chain;
      FreeToQueueKeeps(w, chain, b, waiters);
    } else {
      chain' := [b] + chain;
      FreeToListKeeps(w, chain, b, waiters);
    }
  }

  lemma NotNull(c: Config, b: int)
    requires Fits(c) && b in Blocks(c)
    ensures b > NULL
  {
  }

  lemma WriteKeeps(w: World, chain: seq<int>, b: int, a: int, v: int)
    requires Inv(w, chain) && Enabled(w, Write(b, a, v))
    ensures Inv(Apply(w, Write(b, a, v)).world, chain)
  {
    forall x | x in chain ensures x != a {
      WriteStaysInside(w.s.cfg, b, x, a);
    }
    ChainFrame(w.s.mem, w.s.mem[a := v], w.s.freeList, chain);
  }

  /** Whatever enabled step comes next, no assertion fails, no held block is handed
      out, and every block stays in exactly one place. */
  lemma StepKeeps(w: World, e: Event)
    requires Good(w) && Enabled(w, e)
    ensures Apply(w, e).Next? && Good(Apply(w, e).world)
  {
    var chain :| Inv(w, chain);
    match e {
      case Alloc(t, timeout) =>
        if w.s.freeList != NULL {
          AllocKeeps(w, chain, t, timeout);
        } else {
          assert Inv(Apply(w, e).world, chain);
        }
      case QueueGet(t) => QueueGetKeeps(w, chain, t);
      case QueueMiss(t) => assert Inv(w.(waiting := w.waiting - {t}), chain);
      case Free(b, waiters) => var c := FreeKeeps(w, chain, b, waiters);
      case Write(b, a, v) => WriteKeeps(w, chain, b, a, v);
    }
  }

  // ----- Whole runs -----

  /** A slab just initialised: all blocks on the free list, nobody holding or waiting. */
  ghost predicate Start(w: World) {
    && w.held == map[] && w.waiting == {}
    && w.s.queue == None && w.s.numUsed == 0 && w.s.maxUsed == 0
    && Fits(w.s.cfg) && Aligned(w.s.cfg)
    && Blocks(w.s.cfg) <= w.s.mem.Keys
    && IsChain(w.s.mem, w.s.freeList, AddressOrder(w.s.cfg, 0))
  }

  /** The blocks from index k upwards, in address order. */
  ghost function AddressOrder(c: Config, k: int): (r: seq<int>)
    requires 0 <= k <= c.count
    ensures |r| == c.count - k
    ensures forall i :: 0 <= i < |r| ==> r[i] == BlockAt(c, k + i)
    decreases c.count - k
  {
    if k == c.count then [] else [BlockAt(c, k)] + AddressOrder(c, k + 1)
  }

  lemma AddressOrderIsBlocks(c: Config)
    requires Fits(c)
    ensures Elements(AddressOrder(c, 0)) == Blocks(c) && Distinct(AddressOrder(c, 0))
  {
    var r := AddressOrder(c, 0);
    forall i, j | 0 <= i < j < |r| ensures r[i] != r[j] { BlocksApart(c, i, j); }
    forall b | b in Blocks(c) ensures b in Elements(r) {
      var k :| 0 <= k < c.count && b == BlockAt(c, k);
      assert r[k] == b;
    }
    forall b | b in Elements(r) ensures b in Blocks(c) {
      var i :| 0 <= i < |r| && r[i] == b;
      assert b == BlockAt(c, i);
    }
  }

  ghost predicate IsRun(ws: seq<World>, es: seq<Event>) {
    && |ws| == |es| + 1
    && Start(ws[0])
    && forall i :: 0 <= i < |es| ==> Leads(ws[i], es[i], ws[i + 1])
  }

  ghost predicate Leads(w: World, e: Event, w': World) {
    Enabled(w, e) && Apply(w, e) == Next(w')
  }

  ghost function PeakUsed(ws: seq<World>): int {
    if ws == [] then 0
    else
      var p, n := PeakUsed(ws[..|ws| - 1]), ws[|ws| - 1].s.numUsed;
      if n > p then n else p
  }

  lemma StartIsGood(w: World)
    requires Start(w)
    ensures Good(w)
  {
    var c := w.s.cfg;
    var chain := AddressOrder(c, 0);
    AddressOrderIsBlocks(c);
    CountBelow(c);
    assert forall b :: b in chain <==> b in Elements(chain);
    assert Inv(w, chain);
  }

  lemma UsedInRange(w: World)
    requires Good(w)
    ensures 0 <= w.s.numUsed <= w.s.maxUsed && w.s.numUsed <= w.s.cfg.count < ADDRESS_RANGE
    ensures w.held != map[] ==> w.s.numUsed > 0
  {
  }

  lemma StatisticsStep(w: World, e: Event, w': World)
    requires Good(w) && Leads(w, e, w')
    ensures w'.s.cfg == w.s.cfg
    ensures w'.s.maxUsed == if w'.s.numUsed > w.s.maxUsed then w'.s.numUsed else w.s.maxUsed
  {
    UsedInRange(w);
  }

  /** In every interleaving each block is in exactly one place and max_used is the
      running maximum of num_used. */
  lemma {:induction false} EveryRun(ws: seq<World>, es: seq<Event>)
    requires IsRun(ws, es)
    ensures Good(ws[|es|])
    ensures ws[|es|].s.cfg == ws[0].s.cfg
    ensures ws[|es|].s.maxUsed == PeakUsed(ws)
    decreases |es|
  {
    var n := |es| - 1;
    if n < 0 {
      StartIsGood(ws[0]);
      assert ws[..0] == [];
    } else {
      RunPrefix(ws, es);
      EveryRun(ws[..n + 1], es[..n]);
      assert Leads(ws[n], es[n], ws[n + 1]);
      StepKeeps(ws[n], es[n]);
      StatisticsStep(ws[n], es[n], ws[n + 1]);
    }
  }

  lemma RunPrefix(ws: seq<World>, es: seq<Event>)
    requires IsRun(ws, es) && es != []
    ensures IsRun(ws[..|es|], es[..|es| - 1])
  {
  }

  /** No enabled step of any run faults. */
  lemma NoFault(ws: seq<World>, es: seq<Event>, e: Event)
    requires IsRun(ws, es) && Enabled(ws[|es|], e)
    ensures Apply(ws[|es|], e).Next?
  {
    EveryRun(ws, es);
    StepKeeps(ws[|es|], e);
  }

  ghost function Queued(s: State): set<int> {
    if s.queue.Some? then {s.queue.value} else {}
  }

  /** In every run, walking the free list visits exactly the blocks that nobody
      holds and that are not in the queue, each once, aligned and in bounds, and
      num_used counts the others. */
  lemma FreeListInEveryRun(ws: seq<World>, es: seq<Event>) returns (chain: seq<int>)
    requires IsRun(ws, es)
    ensures var w, c := ws[|es|], ws[0].s.cfg;
            && IsChain(w.s.mem, w.s.freeList, chain) && Distinct(chain)
            && Elements(chain) == Blocks(c) - w.held.Keys - Queued(w.s)
            && w.held.Keys + Queued(w.s) <= Blocks(c) && Queued(w.s) !! w.held.Keys
            && (forall b :: b in chain ==> b % WORD == 0 && PtrIsGood(c, b))
            && w.s.numUsed == |w.held| + QueueLength(w.s.queue) == c.count - |chain|
  {
    EveryRun(ws, es);
    var w := ws[|es|];
    chain :| Inv(w, chain);
    PlacedAsSets(Blocks(w.s.cfg), chain, w.s, w.held);
    forall b | b in chain ensures b % WORD == 0 && PtrIsGood(w.s.cfg, b) {
      GoodBlock(w.s.cfg, b);
    }
  }

  lemma PlacedAsSets(all: set<int>, chain: seq<int>, s: State, held: map<int, Task>)
    requires Placed(all, chain, s.queue, held)
    ensures Elements(chain) == all - held.Keys - Queued(s)
    ensures held.Keys + Queued(s) <= all && Queued(s) !! held.Keys
  {
    assert s.queue.Some? ==> s.queue == Some(s.queue.value);
    forall b ensures b in Elements(chain) <==> b in all - held.Keys - Queued(s) {
      assert b in Queued(s) <==> s.queue == Some(b);
    }
    forall b | b in held.Keys + Queued(s) ensures b in all {
      assert b in held || s.queue == Some(b);
    }
  }

  lemma GoodBlock(c: Config, b: int)
    requires Fits(c) && Aligned(c) && b in Blocks(c)
    ensures b % WORD == 0 && PtrIsGood(c, b)
  {
    PtrIsGoodExact(c, b);
    var k :| 0 <= k < c.count && b == BlockAt(c, k);
    BlockAligned(c, k);
  }

  lemma BlockAligned(c: Config, k: int)
    requires Aligned(c)
    ensures BlockAt(c, k) % WORD == 0
  {
    var q := c.size / WORD;
    assert c.size * k == WORD * (q * k) by { assert c.size == WORD * q; }
    RemainderUnique(BlockAt(c, k), WORD, c.base / WORD + q * k, 0);
  }

  /** mem_slab_deinit: once num_used is 0 the queue is empty and nobody holds a block. */
  lemma DeinitCheckSuffices(ws: seq<World>, es: seq<Event>)
    requires IsRun(ws, es) && ws[|es|].s.numUsed == 0
    ensures ws[|es|].s.queue == None && ws[|es|].held == map[]
  {
    EveryRun(ws, es);
    var w := ws[|es|];
    var chain :| Inv(w, chain);
  }

  /** Who holds and who waits after each step. */
  lemma StepMeaning(w: World, e: Event, w': World)
    requires Good(w) && Leads(w, e, w')
    ensures e.Alloc? && w.s.freeList != NULL ==>
              w'.held == w.held[w.s.freeList := e.task] && w'.waiting == w.waiting
              && w'.s.mem == w.s.mem && w'.s.queue == w.s.queue
    ensures e.Alloc? && w.s.freeList == NULL && e.timeout == 0 ==> w' == w
    ensures e.Alloc? && w.s.freeList == NULL && e.timeout != 0 ==> w' == w.(waiting := w.waiting + {e.task})
    ensures e.QueueGet? ==>
              w.s.queue.Some? && w'.held == w.held[w.s.queue.value := e.task]
              && w'.waiting == w.waiting - {e.task} && w'.s == w.s.(queue := None)
    ensures e.QueueMiss? ==> w' == w.(waiting := w.waiting - {e.task})
    ensures e.Free? ==> w'.held == w.held - {e.block} && w'.waiting == w.waiting
    ensures e.Free? ==>
              if w.s.freeList == NULL && e.waiters != 0 && w.s.queue.None? then
                w'.s == w.s.(queue := Some(e.block))
              else
                w'.s.mem == w.s.mem[e.block := w.s.freeList] && w'.s.freeList == e.block
                && w'.s.queue == w.s.queue
    ensures e.Write? ==> w' == w.(s := w.s.(mem := w.s.mem[e.address := e.word]))
  {
  }

  /** In every run a task begins to wait exactly when it asks for a block, with a timeout,
      while the list is empty. */
  lemma WaitsOnlyWhenEmpty(ws: seq<World>, es: seq<Event>, k: nat, t: Task)
    requires IsRun(ws, es) && k < |es| && t !in ws[k].waiting
    ensures t in ws[k + 1].waiting
       <==> es[k].Alloc? && es[k].task == t && es[k].timeout != 0 && ws[k].s.freeList == NULL
  {
    GoodAt(ws, es, k);
    assert Leads(ws[k], es[k], ws[k + 1]);
    StepMeaning(ws[k], es[k], ws[k + 1]);
  }

  lemma {:induction false} GoodAt(ws: seq<World>, es: seq<Event>, k: nat)
    requires IsRun(ws, es) && k <= |es|
    ensures Good(ws[k])
  {
    if k == 0 {
      StartIsGood(ws[0]);
    } else {
      GoodAt(ws, es, k - 1);
      assert Leads(ws[k - 1], es[k - 1], ws[k]);
      StepKeeps(ws[k - 1], es[k - 1]);
    }
  }

  // ----- Waiting beside a free block -----

  /** Nobody waits while a block is on the free list. */
  predicate Prompt(w: World) {
    w.waiting != {} ==> w.s.freeList == NULL
  }

  /** A release while a task waits that does not reach it: the waiter is not yet blocked
      on the queue, or the queue still holds an earlier block. */
  predicate Strands(w: World, e: Event) {
    e.Free? && w.waiting != {} && (e.waiters == 0 || w.s.queue.Some?)
  }

  lemma StrandsExact(w: World, e: Event, w': World)
    requires Good(w) && Prompt(w) && Leads(w, e, w')
    ensures Prompt(w') <==> !Strands(w, e)
  {
    if e.Free? {
      var chain :| Inv(w, chain);
      PlacedReturn(Blocks(w.s.cfg), chain, w.s.queue, w.held, e.block);
      NotNull(w.s.cfg, e.block);
    }
  }

  /** In every run: no task ever waits beside a free block if and only if no release
      strands a waiter. */
  lemma {:induction false} PromptExact(ws: seq<World>, es: seq<Event>)
    requires IsRun(ws, es)
    ensures (forall k :: 0 <= k < |ws| ==> Prompt(ws[k]))
       <==> (forall k :: 0 <= k < |es| ==> !Strands(ws[k], es[k]))
    decreases |es|
  {
    if es == [] {
    } else {
      var n := |es| - 1;
      RunPrefix(ws, es);
      PromptExact(ws[..n + 1], es[..n]);
      EveryRun(ws[..n + 1], es[..n]);
      assert Leads(ws[n], es[n], ws[n + 1]);
      if Prompt(ws[n]) { StrandsExact(ws[n], es[n], ws[n + 1]); }
      PromptPrefix(ws, es);
    }
  }

  lemma PromptPrefix(ws: seq<World>, es: seq<Event>)
    requires |ws| == |es| + 1 && es != []
    ensures (forall k :: 0 <= k < |ws| ==> Prompt(ws[k]))
       <==> (forall k :: 0 <= k < |es| ==> Prompt(ws[..|es|][k])) && Prompt(ws[|es|])
    ensures (forall k :: 0 <= k < |es| ==> !Strands(ws[k], es[k]))
       <==> (forall k :: 0 <= k < |es| - 1 ==> !Strands(ws[..|es|][k], es[..|es| - 1][k]))
            && !Strands(ws[|es| - 1], es[|es| - 1])
  {
    var n := |es| - 1;
    assert forall k :: 0 <= k <= n ==> ws[..n + 1][k] == ws[k];
    assert forall k :: 0 <= k < n ==> es[..n][k] == es[k];
  }

  /** The first way: a release before the waiter blocks on the queue goes to the list. */
  lemma EarlyReleaseStrands(w: World, b: int)
    requires Good(w) && w.waiting != {} && b in w.held
    ensures Enabled(w, Free(b, 0)) && Apply(w, Free(b, 0)).Next?
    ensures !Prompt(Apply(w, Free(b, 0)).world)
  {
    StepKeeps(w, Free(b, 0));
    HeldIsNotNull(w, b);
  }

  /** The second way, with every waiter blocked on the queue: two releases before the
      first receiver runs.  The queue has room for one block only. */
  lemma SecondReleaseStrands(w: World, a: int, b: int) returns (w1: World, w2: World)
    requires Good(w) && w.waiting != {} && w.s.freeList == NULL && w.s.queue.None?
    requires a in w.held && b in w.held && a != b
    ensures Leads(w, Free(a, |w.waiting|), w1) && Leads(w1, Free(b, |w1.waiting|), w2)
    ensures w1.s.queue == Some(a) && !Prompt(w2)
  {
    StepKeeps(w, Free(a, |w.waiting|));
    w1 := Apply(w, Free(a, |w.waiting|)).world;
    StepKeeps(w1, Free(b, |w1.waiting|));
    w2 := Apply(w1, Free(b, |w1.waiting|)).world;
    HeldIsNotNull(w, b);
  }

  lemma HeldIsNotNull(w: World, b: int)
    requires Good(w) && b in w.held
    ensures b != NULL
  {
    var chain :| Inv(w, chain);
    NotNull(w.s.cfg, b);
  }

  /** One more event of a run. */
  lemma Extend(ws: seq<World>, es: seq<Event>, e: Event) returns (w: World)
    requires IsRun(ws, es) && Enabled(ws[|es|], e)
    ensures Leads(ws[|es|], e, w) && IsRun(ws + [w], es + [e])
  {
    NoFault(ws, es, e);
    w := Apply(ws[|es|], e).world;
    var ws', es' := ws + [w], es + [e];
    forall k | 0 <= k < |es'| ensures Leads(ws'[k], es'[k], ws'[k + 1]) {
      if k < |es| { assert Leads(ws[k], es[k], ws[k + 1]); }
    }
  }

  /** A slab of two blocks: just initialised, with one and with two of them held by task 1,
      and with task 2 waiting. */
  const TWO_BLOCKS := State(Config(4, 4, 2), map[4 := 8, 8 := NULL], 4, 0, 0, None)
  const FRESH_SLAB := World(TWO_BLOCKS, map[], {})
  const ONE_HELD := World(TWO_BLOCKS.(freeList := 8, numUsed := 1, maxUsed := 1), map[4 := 1], {})
  const BOTH_HELD := World(TWO_BLOCKS.(freeList := NULL, numUsed := 2, maxUsed := 2), map[4 := 1, 8 := 1], {})
  const ONE_WAITS := BOTH_HELD.(waiting := {2})

  lemma FreshSlabStart()
    ensures Start(FRESH_SLAB)
  {
    var w := FRESH_SLAB;
    var c := w.s.cfg;
    assert AddressOrder(c, 2) == [];
    assert AddressOrder(c, 1) == [8];
    assert AddressOrder(c, 0) == [4] + [8];
    assert IsChain(w.s.mem, NULL, []);
    assert [8][1..] == [] && IsChain(w.s.mem, 8, [8]);
    assert ([4] + [8])[1..] == [8] && IsChain(w.s.mem, 4, [4] + [8]);
    forall b | b in Blocks(c) ensures b in w.s.mem.Keys {
      var k :| 0 <= k < c.count && b == BlockAt(c, k);
    }
  }

  lemma TakeFirst()
    ensures Leads(FRESH_SLAB, Alloc(1, 0), ONE_HELD)
  {
    assert PtrIsGood(Config(4, 4, 2), 8);
    assert AllocLocked(FRESH_SLAB.s, 0) == Took(ONE_HELD.s, 4);
    assert FRESH_SLAB.held[4 := 1] == ONE_HELD.held;
  }

  lemma TakeSecond()
    ensures Leads(ONE_HELD, Alloc(1, 0), BOTH_HELD)
  {
    assert AllocLocked(ONE_HELD.s, 0) == Took(BOTH_HELD.s, 8);
    assert ONE_HELD.held[8 := 1] == BOTH_HELD.held;
  }

  lemma BeginWait()
    ensures Leads(BOTH_HELD, Alloc(2, 100), ONE_WAITS)
  {
    assert AllocLocked(BOTH_HELD.s, 100) == MustWait;
    assert BOTH_HELD.waiting + {2} == ONE_WAITS.waiting;
  }

  lemma WaiterSteps() returns (w0: World, w1: World, w2: World, w3: World)
    ensures Start(w0) && Leads(w0, Alloc(1, 0), w1) && Leads(w1, Alloc(1, 0), w2) && Leads(w2, Alloc(2, 100), w3)
    ensures w3.waiting == {2} && w3.s.freeList == NULL && w3.s.queue.None? && 4 in w3.held && 8 in w3.held
  {
    FreshSlabStart();
    TakeFirst();
    TakeSecond();
    BeginWait();
    w0, w1, w2, w3 := FRESH_SLAB, ONE_HELD, BOTH_HELD, ONE_WAITS;
  }

  lemma WaiterRun() returns (ws: seq<World>, es: seq<Event>)
    ensures IsRun(ws, es)
    ensures var w := ws[|es|];
            w.waiting == {2} && w.s.freeList == NULL && w.s.queue.None? && 4 in w.held && 8 in w.held
  {
    var w0, w1, w2, w3 := WaiterSteps();
    ws, es := ThreeSteps(w0, Alloc(1, 0), w1, Alloc(1, 0), w2, Alloc(2, 100), w3);
  }

  lemma ThreeSteps(w0: World, e0: Event, w1: World, e1: Event, w2: World, e2: Event, w3: World)
    returns (ws: seq<World>, es: seq<Event>)
    requires Start(w0) && Leads(w0, e0, w1) && Leads(w1, e1, w2) && Leads(w2, e2, w3)
    ensures IsRun(ws, es) && ws[|es|] == w3
  {
    ws, es := [w0, w1, w2, w3], [e0, e1, e2];
  }

  /** Both ways occur: from that state each leads to a task waiting beside a free block. */
  lemma WaiterBesideFreeBlock() returns (ws: seq<World>, es: seq<Event>, ws': seq<World>, es': seq<Event>)
    ensures IsRun(ws, es) && !Prompt(ws[|es|]) && es[|es| - 1] == Free(4, 0)
    ensures IsRun(ws', es') && !Prompt(ws'[|es'|])
    ensures |es'| >= 2 && es'[|es'| - 2..] == [Free(4, 1), Free(8, 1)]
  {
    ws, es := WaiterRun();
    ws', es' := ws, es;
    EveryRun(ws, es);
    EarlyReleaseStrands(ws[|es|], 4);
    var a, b := SecondReleaseStrands(ws[|es|], 4, 8);
    var w := Extend(ws, es, Free(4, 0));
    ws, es := ws + [w], es + [Free(4, 0)];
    var w1 := Extend(ws', es', Free(4, 1));
    ws', es' := ws' + [w1], es' + [Free(4, 1)];
    var w2 := Extend(ws', es', Free(8, 1));
    ws', es' := ws' + [w2], es' + [Free(8, 1)];
  }

  // ----- The slab updated in place -----

  /** What the blocking read of the message queue reports. */
  datatype QueueStatus = Received | TimedOut | BadParameter | NoResource

  class Slab {
    var cfg: Config
    var mem: map<int, int>
    var freeList: int
    var numUsed: int
    var maxUsed: int
    var queue: Option<int>

    function View(): State
      reads this
    {
      State(cfg, mem, freeList, numUsed, maxUsed, queue)
    }

    /** mem_slab_init; `queueCreated` says whether the kernel could make the queue.  On
        success the slab is a start state of the interleaving model, with every block on
        the list in address order. */
    method Init(base: int, size: Positive, count: int, memory: map<int, int>, queueCreated: bool) returns (rc: int)
      requires Fits(Config(base, size, count))
      requires Blocks(Config(base, size, count)) <= memory.Keys
      modifies this
      ensures cfg == Config(base, size, count)
      ensures rc == 0 <==> Aligned(cfg) && queueCreated
      ensures rc != 0 ==> rc == -EINVAL
      ensures rc == 0 ==> Start(World(View(), map[], {}))
      ensures forall a :: a in memory && a !in Blocks(cfg) ==> a in mem && mem[a] == memory[a]
    {
      cfg := Config(base, size, count);
      mem := memory;
      numUsed, maxUsed := 0, 0;
      rc := CreateFreeList();
      if rc < 0 { return; }
      if !queueCreated { return -EINVAL; }
      queue := None;
    }

    method CreateFreeList() returns (rc: int)
      requires Fits(cfg) && Blocks(cfg) <= mem.Keys
      modifies this`mem, this`freeList
      ensures rc == if Aligned(cfg) then 0 else -EINVAL
      ensures rc == 0 ==> IsChain(mem, freeList, AddressOrder(cfg, 0))
      ensures Blocks(cfg) <= mem.Keys
      ensures forall a :: a in old(mem) && a !in Blocks(cfg) ==> a in mem && mem[a] == old(mem)[a]
    {
      if cfg.size % WORD != 0 || cfg.base % WORD != 0 {
        return -EINVAL;
      }
      freeList := NULL;
      // unsigned arithmetic: with no blocks, p starts one block below the buffer
      var p := (cfg.base + cfg.size * ((cfg.count - 1) % ADDRESS_RANGE)) % ADDRESS_RANGE;
      ghost var k := cfg.count - 1;
      FirstBlock(cfg);
      while p >= cfg.base
        invariant -1 <= k < cfg.count && p == BlockAt(cfg, k)
        invariant IsChain(mem, freeList, AddressOrder(cfg, k + 1))
        invariant Blocks(cfg) <= mem.Keys
        invariant forall a :: a in old(mem) && a !in Blocks(cfg) ==> a in mem && mem[a] == old(mem)[a]
        decreases k
      {
        IndexOf(cfg, k);
        PushLower(cfg, mem, freeList, k);
        mem := mem[p := freeList];
        freeList := p;
        p := p - cfg.size;
        k := k - 1;
        Previous(cfg, k);
      }
      IndexOf(cfg, k);
      return 0;
    }

    /** The part of mem_slab_alloc that runs with interrupts off. */
    method Alloc(timeout: int) returns (block: int, rc: int, wait: bool)
      requires exists held, waiting :: Good(World(View(), held, waiting))
      modifies this`freeList, this`numUsed, this`maxUsed
      ensures match AllocLocked(old(View()), timeout)
              case Took(s, b) => View() == s && block == b && rc == 0 && !wait
              case NoMemory => View() == old(View()) && block == NULL && rc == -ENOMEM && !wait
              case MustWait => View() == old(View()) && wait
              case Insane => false
      ensures wait <==> old(freeList) == NULL && timeout != 0
      ensures old(freeList) == NULL ==> View() == old(View())
      ensures old(freeList) == NULL && timeout == 0 ==> rc == -ENOMEM && block == NULL
      ensures old(freeList) != NULL ==> rc == 0 && block == old(freeList) && block in mem && freeList == mem[block]
      ensures old(freeList) != NULL ==>
                numUsed == old(numUsed) + 1
                && maxUsed == if numUsed > old(maxUsed) then numUsed else old(maxUsed)
    {
      ghost var held, waiting :| Good(World(View(), held, waiting));
      AllocMeaning(World(View(), held, waiting), timeout);
      block, rc, wait := NULL, 0, false;
      if freeList != NULL {
        block := freeList;
        freeList := Load(mem, freeList);
        numUsed := (numUsed + 1) % ADDRESS_RANGE;
        var sane := (freeList == NULL && numUsed == cfg.count) || PtrIsGood(cfg, freeList);
        assert sane;
        maxUsed := if numUsed > maxUsed then numUsed else maxUsed;
      } else if timeout == 0 {
        rc := -ENOMEM;
      } else {
        wait := true;
      }
    }

    /** The rest of mem_slab_alloc: the message queue read and its result codes. */
    method Receive(status: QueueStatus) returns (block: int, rc: int)
      requires status.Received? ==> queue.Some?
      modifies this`queue
      ensures status.Received? ==> rc == 0 && old(queue) == Some(block) && View() == old(View()).(queue := None)
      ensures !status.Received? ==> View() == old(View()) && rc == if status.TimedOut? then -ETIME else -EINVAL
    {
      block, rc := NULL, 0;
      match status {
        case BadParameter => rc := -EINVAL;
        case NoResource => rc := -EINVAL;
        case TimedOut => rc := -ETIME;
        case Received => block, queue := queue.value, None;
      }
    }

    method Free(block: int, waiters: nat)
      modifies this`mem, this`freeList, this`numUsed, this`queue
      ensures FreeLocked(old(View()), block, waiters) == Freed(View())
      ensures old(freeList) == NULL && waiters != 0 && old(queue).None? ==>
                View() == old(View()).(queue := Some(block))
      ensures !(old(freeList) == NULL && waiters != 0 && old(queue).None?) ==>
                mem == old(mem)[block := old(freeList)] && freeList == block && queue == old(queue)
                && (0 < old(numUsed) < ADDRESS_RANGE ==> numUsed == old(numUsed) - 1)
    {
      if freeList == NULL && waiters != 0 && queue.None? {
        queue := Some(block);
        return;
      }
      mem := mem[block := freeList];
      freeList := block;
      numUsed := (numUsed + ADDRESS_RANGE - 1) % ADDRESS_RANGE;
    }
  }

  lemma IndexOf(c: Config, k: int)
    requires -1 <= k
    ensures BlockAt(c, k) >= c.base <==> k >= 0
  {
  }

  lemma Previous(c: Config, k: int)
    ensures BlockAt(c, k) == BlockAt(c, k + 1) - c.size
  {
  }

  /** One turn of the list-building loop: block k goes in front of the blocks above it. */
  lemma PushLower(c: Config, mem: map<int, int>, head: int, k: int)
    requires Fits(c) && 0 <= k < c.count
    requires IsChain(mem, head, AddressOrder(c, k + 1))
    ensures BlockAt(c, k) in Blocks(c)
    ensures IsChain(mem[BlockAt(c, k) := head], BlockAt(c, k), AddressOrder(c, k))
  {
    var p := BlockAt(c, k);
    BlockInRange(c, k);
    LowerIsApart(c, k);
    ChainFrame(mem, mem[p := head], head, AddressOrder(c, k + 1));
    assert AddressOrder(c, k)[1..] == AddressOrder(c, k + 1);
  }

  lemma LowerIsApart(c: Config, k: int)
    requires 0 <= k < c.count
    ensures BlockAt(c, k) !in AddressOrder(c, k + 1)
  {
  }

  lemma FirstBlock(c: Config)
    requires Fits(c)
    ensures (c.base + c.size * ((c.count - 1) % ADDRESS_RANGE)) % ADDRESS_RANGE == BlockAt(c, c.count - 1)
  {
    if c.count == 0 {
      assert (c.count - 1) % ADDRESS_RANGE == ADDRESS_RANGE - 1;
      assert c.base + c.size * (ADDRESS_RANGE - 1) == (c.base - c.size) + ADDRESS_RANGE * c.size;
    } else {
      BlockInRange(c, c.count - 1);
      CountBelow(c);
    }
  }

  lemma CountBelow(c: Config)
    requires Fits(c)
    ensures c.count < ADDRESS_RANGE
  {
  }
}
