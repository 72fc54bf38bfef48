/** The 64-bit counter read of kernel/timer.c on a 32-bit core.

    `counter(k)` is the value of the memory-mapped counter at the k-th access to it.
    The counter never decreases, but may advance by any amount between accesses. */
module MachineTimer {
  import opened Bits

  const WORD := 0x1_0000_0000

  ghost predicate Counts(counter: nat -> nat) {
    && (forall i, j :: 0 <= i <= j ==> counter(i) <= counter(j))
    && (forall i :: 0 <= i ==> counter(i) < WORD * WORD)
  }

  /** When the high halves read before and after agree, joining the high half with the
      low half read between them gives the value held at that middle access. */
  lemma MiddleValue(counter: nat -> nat, k: nat)
    requires Counts(counter)
    requires counter(k) / WORD == counter(k + 2) / WORD
    ensures Or(counter(k) / WORD * WORD, counter(k + 1) % WORD) == counter(k + 1)
  {
    var a, b, c := counter(k), counter(k + 1), counter(k + 2);
    assert a <= b <= c;
    assert b / WORD == a / WORD;
    Pow2Of32();
    OrShifted(a / WORD, b % WORD, 32);
  }

  /** The loop: reads until the high half is stable.  It ends because each retry saw the
      high half grow. */
  method StableRead(counter: nat -> nat, start: nat) returns (high: nat, low: nat, end: nat)
    requires Counts(counter)
    ensures start + 3 <= end
    ensures high == counter(end - 3) / WORD == counter(end - 1) / WORD && low == counter(end - 2) % WORD
  {
    high, low := counter(start) / WORD, counter(start + 1) % WORD;
    var again := counter(start + 2) / WORD;
    end := start + 3;
    while high != again
      invariant start + 3 <= end
      invariant high == counter(end - 3) / WORD && again == counter(end - 1) / WORD
      invariant low == counter(end - 2) % WORD
      decreases WORD - high
    {
      Grows(counter, end);
      high, low := counter(end) / WORD, counter(end + 1) % WORD;
      again := counter(end + 2) / WORD;
      end := end + 3;
    }
  }

  lemma Grows(counter: nat -> nat, k: nat)
    requires Counts(counter) && k >= 3 && counter(k - 3) / WORD != counter(k - 1) / WORD
    ensures counter(k - 3) / WORD < counter(k) / WORD < WORD
  {
  }

  /** _mtime: the result is a value that the counter held during the call. */
  method ReadTime(counter: nat -> nat, start: nat) returns (t: nat, end: nat)
    requires Counts(counter)
    ensures start + 3 <= end
    ensures exists k :: start <= k < end && t == counter(k)
  {
    var high, low;
    high, low, end := StableRead(counter, start);
    MiddleValue(counter, end - 3);
    t := Or(high * WORD, low);
    assert t == counter(end - 2);
  }
}
