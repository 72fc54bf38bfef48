/** Facts about multiplication and division by a variable. */
module Arithmetic {
  lemma {:induction false} GapAtLeast(d: int, i: int, j: int)
    requires d > 0 && i < j
    ensures i * d + d <= j * d
    decreases j - i
  {
    assert j * d == (j - 1) * d + d;
    if i < j - 1 { GapAtLeast(d, i, j - 1); }
  }

  lemma QuotientUnique(d: int, q: int, r: int, q': int, r': int)
    requires d > 0 && 0 <= r < d && 0 <= r' < d
    requires q * d + r == q' * d + r'
    ensures q == q' && r == r'
  {
    if q > q' { GapAtLeast(d, q', q); }
    if q < q' { GapAtLeast(d, q, q'); }
  }

  lemma RemainderUnique(a: int, d: int, q: int, r: int)
    requires d > 0 && 0 <= r < d && a == q * d + r
    ensures a % d == r && a / d == q
  {
    QuotientUnique(d, q, r, a / d, a % d);
  }

  lemma Division(a: nat, d: nat)
    requires d > 0
    ensures a == a % d + d * (a / d) && 0 <= a % d < d && a / d >= 0
  {
  }

  lemma RemainderOfMultiple(a: nat, d: nat, e: nat)
    requires d > 0 && e > 0
    ensures a % (d * e) % d == a % d
  {
    var m := d * e;
    var q, r := a / m, a % m;
    assert a == m * q + r;
    Regroup(d, e, q, r / d);
    RemainderUnique(a, d, e * q + r / d, r % d);
  }

  lemma Doubled(a: int, b: int)
    ensures 2 * (a * b) == (2 * a) * b
  {
  }

  lemma Regroup(d: int, e: int, q: int, s: int)
    ensures (e * q + s) * d == (d * e) * q + s * d
  {
  }

  /** Numbers less than d apart have different remainders. */
  lemma RemaindersApart(i: nat, j: nat, d: nat)
    requires i < j < i + d
    ensures i % d != j % d
  {
    var qi, qj := i / d, j / d;
    assert i == qi * d + i % d && j == qj * d + j % d;
    if i % d == j % d {
      if qi < qj { GapAtLeast(d, qi, qj); }
      if qj < qi { GapAtLeast(d, qj, qi); }
    }
  }
}
