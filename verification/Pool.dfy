/** The bitmap pool of include/mpool.h.

    One bit per slot says whether the slot is in use.  The search skips a byte that
    equals `(2^bitc) - 1`, where `^` is C's exclusive or, so a byte can be skipped
    that still has a free slot. */
module Pool {
  import opened Arithmetic
  import opened Bits
  import opened Wrappers

  // ----- The bitmap -----

  function BitmapSize(s: nat): nat {
    s / 8 + if s % 8 != 0 then 1 else 0
  }

  /** Number of slots kept in byte i. */
  function Width(s: nat, i: nat): nat {
    if i == BitmapSize(s) - 1 then (if s % 8 == 0 then 8 else s % 8) else 8
  }

  /** The bitmap has just enough bytes, and byte i the bits of the slots in it. */
  lemma BitmapExact(s: nat, k: nat)
    ensures 8 * BitmapSize(s) - 8 < s <= 8 * BitmapSize(s) || (s == 0 && BitmapSize(s) == 0)
    ensures k / 8 < BitmapSize(s) ==> (k < s <==> k % 8 < Width(s, k / 8))
  {
  }

  /** The byte value that the search passes over. */
  function SkipPattern(bitc: nat): int {
    Xor(2, bitc) - 1
  }

  datatype State = State(count: nat, used: seq<nat>, slots: seq<int>)

  /** Slot k is free and its byte is not passed over. */
  predicate Eligible(used: seq<nat>, s: nat, k: nat)
    requires k < s && |used| == BitmapSize(s)
  {
    !ByteBit(used, k) && used[k / 8] != SkipPattern(Width(s, k / 8))
  }

  /** The lowest eligible slot from k on, or s. */
  function FirstEligible(used: seq<nat>, s: nat, k: nat): (r: nat)
    requires k <= s && |used| == BitmapSize(s)
    ensures k <= r <= s
    ensures r < s ==> Eligible(used, s, r)
    ensures forall j :: k <= j < r ==> !Eligible(used, s, j)
    decreases s - k
  {
    if k == s || Eligible(used, s, k) then k else FirstEligible(used, s, k + 1)
  }

  function Taken(st: State, k: nat): State
    requires k < 8 * |st.used| && k < |st.slots|
  {
    State((st.count + 1) % 256, WithBit(st.used, k, true), st.slots[k := 0])
  }

  function Returned(st: State, k: nat): State
    requires k < 8 * |st.used|
  {
    State((st.count + 255) % 256, WithBit(st.used, k, false), st.slots)
  }

  /** The slot PoolMalloc hands out, if any. */
  function Chosen(st: State, s: nat): Option<nat>
    requires |st.used| == BitmapSize(s)
  {
    var k := FirstEligible(st.used, s, 0);
    if st.count < s && k < s then Some(k) else None
  }

  // ----- Every run -----

  /** `out` are the slots in clients' hands. */
  ghost predicate Inv(st: State, s: nat, out: set<nat>) {
    && 1 <= s <= 255
    && |st.used| == BitmapSize(s) && |st.slots| == s
    && IsBytes(st.used)
    && Shows(st.used, out)
    && (forall k :: k in out ==> k < s)
    && st.count == |out|
  }

  ghost function SetBits(used: seq<nat>): set<nat> {
    set k | 0 <= k < 8 * |used| && ByteBit(used, k)
  }

  lemma SlotInBitmap(s: nat, k: nat)
    requires k < s
    ensures k < 8 * BitmapSize(s) && k / 8 < BitmapSize(s)
    ensures k % 8 < Width(s, k / 8) <= 8
  {
  }

  lemma OutIsSmall(s: nat, out: set<nat>)
    requires forall k :: k in out ==> k < s
    ensures |out| <= s
    ensures |out| == s ==> forall k :: 0 <= k < s ==> k in out
  {
    SubsetSize(out, Range(s));
  }

  ghost function Range(s: nat): (r: set<nat>)
    ensures forall k: nat :: k in r <==> k < s
    ensures |r| == s
  {
    if s == 0 then {} else Range(s - 1) + {s - 1}
  }

  lemma SubsetSize(a: set<nat>, b: set<nat>)
    requires a <= b
    ensures |a| <= |b|
    ensures |a| == |b| ==> a == b
  {
    assert b == a + (b - a);
    assert |b| == |a| + |b - a|;
  }

  /** A slot that is handed out was free, lies in the pool and is zeroed; the counter
      and the bitmap keep agreeing with what clients hold. */
  lemma MallocKeeps(st: State, s: nat, out: set<nat>, k: nat)
    requires Inv(st, s, out) && Chosen(st, s) == Some(k)
    ensures k < s && k !in out
    ensures Inv(Taken(st, k), s, out + {k}) && Taken(st, k).slots[k] == 0
    ensures forall j :: 0 <= j < s && j != k ==> Taken(st, k).slots[j] == st.slots[j]
  {
    SlotInBitmap(s, k);
    BitmapChange(st.used, out, k);
    OneMore(st.count, s, out, k);
  }

  lemma OneMore(count: nat, s: nat, out: set<nat>, k: nat)
    requires count == |out| < s <= 255 && k !in out
    ensures (count + 1) % 256 == |out + {k}|
  {
  }

  ghost predicate Shows(used: seq<nat>, out: set<nat>) {
    forall k :: 0 <= k < 8 * |used| ==> (ByteBit(used, k) <==> k in out)
  }

  lemma BitmapChange(used: seq<nat>, out: set<nat>, k: nat)
    requires IsBytes(used) && Shows(used, out) && k < 8 * |used|
    ensures IsBytes(WithBit(used, k, true)) && Shows(WithBit(used, k, true), out + {k})
    ensures IsBytes(WithBit(used, k, false)) && Shows(WithBit(used, k, false), out - {k})
  {
    WithBitExact(used, k, true);
    WithBitExact(used, k, false);
  }

  lemma FreeKeeps(st: State, s: nat, out: set<nat>, k: nat)
    requires Inv(st, s, out) && k in out
    ensures Inv(Returned(st, k), s, out - {k})
  {
    SlotInBitmap(s, k);
    BitmapChange(st.used, out, k);
    OutIsSmall(s, out);
  }

  /** Exactly when PoolMalloc succeeds. */
  lemma MallocExact(st: State, s: nat, out: set<nat>)
    requires Inv(st, s, out)
    ensures Chosen(st, s).Some?
       <==> exists k :: 0 <= k < s && k !in out && st.used[k / 8] != SkipPattern(Width(s, k / 8))
  {
    OutIsSmall(s, out);
    if Chosen(st, s).Some? {
      var k := Chosen(st, s).value;
      SlotInBitmap(s, k);
      assert k !in out && st.used[k / 8] != SkipPattern(Width(s, k / 8));
    }
    if exists k :: 0 <= k < s && k !in out && st.used[k / 8] != SkipPattern(Width(s, k / 8)) {
      var k :| 0 <= k < s && k !in out && st.used[k / 8] != SkipPattern(Width(s, k / 8));
      SlotInBitmap(s, k);
      assert Eligible(st.used, s, k);
    }
  }

  /** With a free slot left, PoolMalloc fails exactly when the search passes over every
      byte that has one. */
  lemma FailsBeforeFull(st: State, s: nat, out: set<nat>)
    requires Inv(st, s, out) && |out| < s
    ensures Chosen(st, s).None?
       <==> forall k :: 0 <= k < s && k !in out ==> st.used[k / 8] == SkipPattern(Width(s, k / 8))
  {
    MallocExact(st, s, out);
  }

  /** The values passed over, for 1 to 8 slots in the byte; none of them is the full byte
      of 2^n - 1 that the test is meant for. */
  lemma SkipTable()
    ensures SkipPattern(1) == 2 && SkipPattern(2) == -1 && SkipPattern(3) == 0 && SkipPattern(4) == 5
    ensures SkipPattern(5) == 6 && SkipPattern(6) == 3 && SkipPattern(7) == 4 && SkipPattern(8) == 9
  {
    assert Xor(0, 0) == 0 && Xor(0, 1) == 1 && Xor(0, 2) == 2;
    assert Xor(1, 0) == 1 && Xor(1, 1) == 0 && Xor(1, 2) == 3 && Xor(1, 3) == 2 && Xor(1, 4) == 5;
  }

  function Fresh(s: nat): State {
    State(0, seq(BitmapSize(s), _ => 0), seq(s, _ => 0))
  }

  lemma FreshIsGood(s: nat)
    requires 1 <= s <= 255
    ensures Inv(Fresh(s), s, {})
  {
    forall k | 0 <= k < 8 * BitmapSize(s) ensures !ByteBit(Fresh(s).used, k) {
      ZeroBit(k % 8);
    }
  }

  /** A fresh pool can hand out a slot unless it has three of them. */
  lemma FreshPoolAllocates(s: nat)
    requires 1 <= s <= 255
    ensures Chosen(Fresh(s), s).Some? <==> s != 3
  {
    FreshIsGood(s);
    MallocExact(Fresh(s), s, {});
    assert Xor(2, 8) == 10 by { assert Xor(1, 4) == 5 by { assert Xor(0, 2) == 2; } }
    assert Xor(2, 3) == 1 by { assert Xor(1, 1) == 0; }
    SmallPatterns();
    if s == 3 {
      assert forall k :: 0 <= k < s ==> Width(s, k / 8) == 3;
    } else {
      assert 0 !in {} && Fresh(s).used[0 / 8] != SkipPattern(Width(s, 0 / 8));
    }
  }

  lemma SmallPatterns()
    ensures forall b :: 1 <= b <= 8 && b != 3 ==> SkipPattern(b) != 0
  {
    forall b: nat | 1 <= b <= 8 && SkipPattern(b) == 0 ensures b == 3 {
      assert Xor(2, b) == 2 * Xor(1, b / 2) + Digit(0 != b % 2);
      assert Xor(1, b / 2) == 2 * Xor(0, b / 4) + Digit(1 != b / 2 % 2);
    }
  }

  datatype Event = Malloc | Free(slot: nat) | Use(slot: nat, value: int)

  datatype World = World(st: State, out: set<nat>)

  predicate Enabled(w: World, e: Event) {
    match e
    case Malloc => true
    case Free(k) => k in w.out && k < 8 * |w.st.used|
    case Use(k, _) => k in w.out && k < |w.st.slots|
  }

  function Step(w: World, s: nat, e: Event): World
    requires Enabled(w, e) && |w.st.used| == BitmapSize(s) && |w.st.slots| == s
  {
    match e
    case Malloc =>
      (match Chosen(w.st, s)
       case Some(k) => World(Taken(w.st, k), w.out + {k})
       case None => w)
    case Free(k) => World(Returned(w.st, k), w.out - {k})
    case Use(k, v) => w.(st := w.st.(slots := w.st.slots[k := v]))
  }

  ghost predicate IsRun(ws: seq<World>, es: seq<Event>, s: nat) {
    && |ws| == |es| + 1
    && 1 <= s <= 255 && ws[0] == World(Fresh(s), {})
    && forall i :: 0 <= i < |es| ==> Leads(ws[i], s, es[i], ws[i + 1])
  }

  ghost predicate Leads(w: World, s: nat, e: Event, w': World) {
    Enabled(w, e) && |w.st.used| == BitmapSize(s) && |w.st.slots| == s && w' == Step(w, s, e)
  }

  /** Over every run: `inusedcount` is the number of set bits, which are exactly the
      slots in clients' hands, none of them past the end, and the next slot handed out
      is in nobody's hands. */
  lemma {:induction false} EveryRun(ws: seq<World>, es: seq<Event>, s: nat, n: nat)
    requires IsRun(ws, es, s) && n <= |es|
    ensures Inv(ws[n].st, s, ws[n].out)
    ensures SetBits(ws[n].st.used) == ws[n].out && ws[n].st.count == |SetBits(ws[n].st.used)|
    ensures Chosen(ws[n].st, s).Some? ==> Chosen(ws[n].st, s).value !in ws[n].out
  {
    if n == 0 {
      FreshIsGood(s);
    } else {
      EveryRun(ws, es, s, n - 1);
      var w, e := ws[n - 1], es[n - 1];
      assert Leads(w, s, e, ws[n]);
      match e {
        case Malloc =>
          if Chosen(w.st, s).Some? { MallocKeeps(w.st, s, w.out, Chosen(w.st, s).value); }
        case Free(k) => FreeKeeps(w.st, s, w.out, k);
        case Use(_, _) =>
      }
    }
    var w := ws[n];
    BitsAreOut(w.st, s, w.out);
    if Chosen(w.st, s).Some? { MallocKeeps(w.st, s, w.out, Chosen(w.st, s).value); }
  }

  lemma BitsAreOut(st: State, s: nat, out: set<nat>)
    requires Inv(st, s, out)
    ensures SetBits(st.used) == out
  {
  }

  lemma SlotOfAddress(offset: nat, size: nat, s: nat)
    requires 0 < s <= 255 && size > 0 && offset <= (s - 1) * size && offset % size == 0
    ensures var k := offset / size; 0 <= k < s && k % 256 == k && offset == k * size
  {
    var k := offset / size;
    Division(offset, size);
    if k >= s { GapAtLeast(size, s - 1, k); }
  }

  // ----- The pool updated in place -----

  class SlotPool {
    const s: nat
    const base: nat
    const size: nat
    var count: nat
    var used: array<nat>
    var slots: array<int>

    ghost predicate Valid()
      reads this
    {
      && 1 <= s <= 255 && size > 0
      && used.Length == BitmapSize(s) && slots.Length == s
    }

    function View(): State
      reads this, used, slots
    {
      State(count, used[..], slots[..])
    }

    function Address(k: nat): nat {
      base + k * size
    }

    constructor (s: nat, base: nat, size: nat)
      requires 1 <= s <= 255 && size > 0
      ensures Valid() && View() == Fresh(s)
      ensures this.s == s && this.base == base && this.size == size
      ensures fresh(used) && fresh(slots)
    {
      this.s, this.base, this.size := s, base, size;
      count := 0;
      used := new nat[BitmapSize(s)](_ => 0);
      slots := new int[s](_ => 0);
    }

    /** The nested search of PoolMalloc. */
    method Search() returns (found: nat)
      requires Valid()
      ensures found == FirstEligible(used[..], s, 0)
    {
      var i := 0;
      while i < BitmapSize(s)
        invariant 0 <= i <= BitmapSize(s)
        invariant forall k :: 0 <= k < 8 * i && k < s ==> !Eligible(used[..], s, k)
      {
        var bitc := if i == BitmapSize(s) - 1 then (if s % 8 == 0 then 8 else s % 8) else 8;
        if used[i] != Xor(2, bitc) - 1 {
          var j := 0;
          while j < bitc
            invariant 0 <= j <= bitc
            invariant forall k :: 0 <= k < 8 * i + j && k < s ==> !Eligible(used[..], s, k)
          {
            var slot := 8 * i + j;
            assert slot < s && slot / 8 == i && slot % 8 == j;
            AndPow2(used[i], j);
            if And(used[slot / 8], Pow2(slot % 8)) == 0 {
              assert Eligible(used[..], s, slot);
              return slot;
            }
            j := j + 1;
          }
        }
        i := i + 1;
      }
      assert FirstEligible(used[..], s, 0) == s;
      return s;
    }

    /** PoolMalloc: the address of the slot, or None when it leaves the pointer alone. */
    method Malloc() returns (pr: Option<nat>)
      requires Valid()
      modifies this`count, used, slots
      ensures Valid()
      ensures match Chosen(old(View()), s)
              case Some(k) => pr == Some(Address(k)) && View() == Taken(old(View()), k)
              case None => pr == None && View() == old(View())
      ensures pr.Some? ==> exists k :: 0 <= k < s && !ByteBit(old(used[..]), k)
                             && pr == Some(base + k * size) && slots[..] == old(slots[..])[k := 0]
                             && forall j :: 0 <= j < k ==> !Eligible(old(used[..]), s, j)
    {
      pr := None;
      if count < s {
        var k := Search();
        if k < s {
          SlotInBitmap(s, k);
          slots[k] := 0;
          count := (count + 1) % 256;
          used[k / 8] := Or(used[k / 8], Pow2(k % 8));
          pr := Some(Address(k));
          assert View() == Taken(old(View()), k);
        }
      }
    }

    method SetNotInUse(k: nat)
      requires Valid() && k < s
      modifies this`count, used
      ensures Valid() && k < 8 * |old(View()).used| && View() == Returned(old(View()), k)
    {
      SlotInBitmap(s, k);
      var i := k / 8;
      used[i] := AndNot(used[i], Pow2(k % 8));
      count := (count + 255) % 256;
      assert used[..] == WithBit(old(used[..]), k, false);
    }

    /** PoolFree: a pointer outside the pool goes to the heap; one inside must be the
        address of a slot, and that slot is given back. */
    method Free(pr: nat) returns (mine: bool)
      requires Valid()
      requires Address(0) <= pr <= Address(s - 1) ==> (pr - Address(0)) % size == 0
      modifies this`count, used
      ensures Valid()
      ensures mine <==> Address(0) <= pr <= Address(s - 1)
      ensures mine ==> exists k :: 0 <= k < s && pr == Address(k) && k < 8 * |old(View()).used|
                                   && View() == Returned(old(View()), k)
      ensures !mine ==> View() == old(View())
    {
      mine := Address(0) <= pr <= Address(s - 1);
      if mine {
        SlotOfAddress(pr - base, size, s);
        var plidx := (pr - base) / size % 256;
        assert pr == Address(plidx);
        SetNotInUse(plidx);
      }
    }

    /** Distinct slots have distinct addresses. */
    lemma AddressInjective(j: nat, k: nat)
      requires Valid() && Address(j) == Address(k)
      ensures j == k
    {
    }
  }
}
