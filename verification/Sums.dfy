/** Finite sums of a function over a range of integers. */
module Sums {
  ghost function Sum(f: int -> int, lo: int, hi: int): int
    decreases hi - lo
  {
    if lo >= hi then 0 else Sum(f, lo, hi - 1) + f(hi - 1)
  }

  lemma {:induction false} SumSplit(f: int -> int, lo: int, mid: int, hi: int)
    requires lo <= mid <= hi
    ensures Sum(f, lo, hi) == Sum(f, lo, mid) + Sum(f, mid, hi)
    decreases hi - mid
  {
    if mid >= hi {
    } else {
      SumSplit(f, lo, mid, hi - 1);
    }
  }

  lemma {:induction false} SumShift(f: int -> int, g: int -> int, lo: int, hi: int, shift: int)
    requires forall i | lo <= i < hi :: f(i) == g(i + shift)
    ensures Sum(f, lo, hi) == Sum(g, lo + shift, hi + shift)
    decreases hi - lo
  {
    if lo >= hi {
    } else {
      SumShift(f, g, lo, hi - 1, shift);
    }
  }

  lemma {:induction false} SumMonotone(f: int -> int, g: int -> int, lo: int, hi: int)
    requires forall i | lo <= i < hi :: f(i) <= g(i)
    ensures Sum(f, lo, hi) <= Sum(g, lo, hi)
    ensures (exists i :: lo <= i < hi && f(i) < g(i)) ==> Sum(f, lo, hi) < Sum(g, lo, hi)
    decreases hi - lo
  {
    if lo >= hi {
    } else {
      SumMonotone(f, g, lo, hi - 1);
    }
  }

  /** The second in (t - 60, t] that is congruent to i modulo 60. */
  function SecondOf(i: int, t: int): int {
    t - (t - i) % 60
  }

  lemma SecondOfFacts(i: int, t: int)
    ensures t - 60 < SecondOf(i, t) <= t
    ensures SecondOf(i, t) % 60 == i % 60
    ensures SecondOf(i % 60, t) == SecondOf(i, t)
  {
  }

  lemma SecondOfUnique(i: int, t: int, s: int)
    requires t - 60 < s <= t && s % 60 == i % 60
    ensures SecondOf(i, t) == s
  {
  }

  lemma CongruentGap(a: int, b: int)
    requires a % 60 == b % 60 && a < b
    ensures a <= b - 60
  {
  }

  lemma SecondOfSlot(i: int, t: int)
    requires 0 <= i < 60
    ensures SecondOf(i, t) == if i <= t % 60 then i + (t - t % 60) else i + (t - t % 60 - 60)
  {
    SecondOfUnique(i, t, if i <= t % 60 then i + (t - t % 60) else i + (t - t % 60 - 60));
  }

  /** Summing over the sixty slots is summing over the sixty seconds that end at t. */
  lemma SlotsAreSeconds(f: int -> int, g: int -> int, t: int)
    requires forall i | 0 <= i < 60 :: f(i) == g(SecondOf(i, t))
    ensures Sum(f, 0, 60) == Sum(g, t - 59, t + 1)
  {
    hide *;
    var r := t % 60;
    PartOfSlots(f, g, t, 0, r + 1, t - r);
    PartOfSlots(f, g, t, r + 1, 60, t - r - 60);
    SumSplit(f, 0, r + 1, 60);
    SumSplit(g, t - 59, t - r, t + 1);
  }

  lemma PartOfSlots(f: int -> int, g: int -> int, t: int, lo: int, hi: int, shift: int)
    requires 0 <= lo <= hi <= 60
    requires forall i | lo <= i < hi :: f(i) == g(SecondOf(i, t))
    requires shift == if lo == 0 then t - t % 60 else t - t % 60 - 60
    requires if lo == 0 then hi == t % 60 + 1 else lo == t % 60 + 1
    ensures Sum(f, lo, hi) == Sum(g, lo + shift, hi + shift)
  {
    hide *;
    forall i | lo <= i < hi
      ensures f(i) == g(i + shift)
    {
      SecondOfSlot(i, t);
    }
    SumShift(f, g, lo, hi, shift);
  }
}
