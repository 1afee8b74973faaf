/** Percentile estimates over the latency ring, internal/metrics/metrics.go. */
module Percentiles {
  predicate IsSorted(s: seq<nat>) {
    |s| < 2 || (s[0] <= s[1] && IsSorted(s[1..]))
  }

  /** Entries strictly below v. */
  function CountBelow(s: seq<nat>, v: nat): nat {
    if s == [] then 0 else (if s[0] < v then 1 else 0) + CountBelow(s[1..], v)
  }

  /** Entries at or below v. */
  function CountAtMost(s: seq<nat>, v: nat): nat {
    if s == [] then 0 else (if s[0] <= v then 1 else 0) + CountAtMost(s[1..], v)
  }

  /** Both count entry by entry. */
  lemma {:induction false} CountsAdd(a: seq<nat>, b: seq<nat>, x: nat, v: nat)
    ensures CountBelow([], v) == 0 && CountAtMost([], v) == 0
    ensures CountBelow([x], v) == (if x < v then 1 else 0) && CountAtMost([x], v) == (if x > v then 0 else 1)
    ensures CountBelow(a + b, v) == CountBelow(a, v) + CountBelow(b, v)
    ensures CountAtMost(a + b, v) == CountAtMost(a, v) + CountAtMost(b, v)
    decreases |a|
  {
    assert [x][1..] == [];
    if a == [] {
      assert a + b == b;
    } else {
      assert (a + b)[1..] == a[1..] + b;
      CountsAdd(a[1..], b, x, v);
    }
  }

  /** v is the entry with rank |s| * p / 100, counted from zero in ascending order. */
  predicate IsPercentile(s: seq<nat>, p: nat, v: nat) {
    v in s && CountBelow(s, v) <= |s| * p / 100 < CountAtMost(s, v)
  }

  // ---------------------------------------------------------------------------
  // Sorting, as the library does it
  // ---------------------------------------------------------------------------

  function Insert(x: nat, s: seq<nat>): (r: seq<nat>)
    requires IsSorted(s)
    ensures IsSorted(r) && r != [] && r[0] == if s == [] || x <= s[0] then x else s[0]
    ensures multiset(r) == multiset(s) + multiset{x}
  {
    if s == [] || x <= s[0] then [x] + s
    else
      assert s == [s[0]] + s[1..];
      [s[0]] + Insert(x, s[1..])
  }

  function Sorted(s: seq<nat>): (r: seq<nat>)
    ensures IsSorted(r) && multiset(r) == multiset(s)
  {
    if s == [] then []
    else
      assert s == [s[0]] + s[1..];
      Insert(s[0], Sorted(s[1..]))
  }

  // ---------------------------------------------------------------------------
  // Counting does not depend on the order
  // ---------------------------------------------------------------------------

  lemma {:induction false} CountsRemove(s: seq<nat>, k: nat, v: nat)
    requires k < |s|
    ensures CountBelow(s, v) == CountBelow(s[..k] + s[k + 1..], v) + if s[k] < v then 1 else 0
    ensures CountAtMost(s, v) == CountAtMost(s[..k] + s[k + 1..], v) + if s[k] <= v then 1 else 0
    decreases |s|
  {
    if k == 0 {
      assert s[..k] + s[k + 1..] == s[1..];
    } else {
      CountsRemove(s[1..], k - 1, v);
      assert (s[..k] + s[k + 1..])[1..] == s[1..][..k - 1] + s[1..][k..];
    }
  }

  lemma RemoveOne(s: seq<nat>, k: nat)
    requires k < |s|
    ensures multiset(s[..k] + s[k + 1..]) == multiset(s) - multiset{s[k]}
  {
    assert s == s[..k] + [s[k]] + s[k + 1..];
  }

  lemma IndexOf(s: seq<nat>, x: nat) returns (k: nat)
    requires x in multiset(s)
    ensures k < |s| && s[k] == x
  {
    k :| k < |s| && s[k] == x;
  }

  lemma FirstRemoved(a: seq<nat>)
    requires a != []
    ensures a[0] in multiset(a) && multiset(a[1..]) == multiset(a) - multiset{a[0]}
  {
    assert a == [a[0]] + a[1..];
  }

  /** Where b has the first entry of its permutation a. */
  lemma FindFirst(a: seq<nat>, b: seq<nat>) returns (k: nat)
    requires a != [] && multiset(a) == multiset(b)
    ensures k < |b| && b[k] == a[0]
    ensures multiset(a[1..]) == multiset(b[..k] + b[k + 1..])
  {
    FirstRemoved(a);
    k := IndexOf(b, a[0]);
    RemoveOne(b, k);
  }

  lemma {:induction false} CountsOfPermutation(a: seq<nat>, b: seq<nat>, v: nat)
    requires multiset(a) == multiset(b)
    ensures CountBelow(a, v) == CountBelow(b, v) && CountAtMost(a, v) == CountAtMost(b, v)
    decreases |a|
  {
    if a == [] {
      assert |multiset(b)| == 0;
    } else {
      var k := FindFirst(a, b);
      CountsRemove(b, k, v);
      hide CountBelow, CountAtMost;
      CountsOfPermutation(a[1..], b[..k] + b[k + 1..], v);
      CountsRemove(a, 0, v);
      assert a[..0] + a[1..] == a[1..];
    }
  }

  lemma {:induction false} FirstIsLeast(s: seq<nat>, i: nat)
    requires IsSorted(s) && i < |s|
    ensures s[0] <= s[i]
    decreases i
  {
    if i == 0 {
    } else {
      FirstIsLeast(s[1..], i - 1);
    }
  }

  lemma {:induction false} CountsInSorted(s: seq<nat>, i: nat)
    requires IsSorted(s) && i < |s|
    ensures CountBelow(s, s[i]) <= i < CountAtMost(s, s[i])
    decreases i
  {
    if i == 0 {
      NoneBelow(s, s[0]);
    } else {
      FirstIsLeast(s, i);
      CountsInSorted(s[1..], i - 1);
    }
  }

  lemma {:induction false} NoneBelow(s: seq<nat>, v: nat)
    requires IsSorted(s) && (s != [] ==> v <= s[0])
    ensures CountBelow(s, v) == 0
    decreases |s|
  {
    if s == [] {
    } else {
      NoneBelow(s[1..], v);
    }
  }

  // ---------------------------------------------------------------------------
  // The estimate
  // ---------------------------------------------------------------------------

  function Pct(sorted: seq<nat>, p: nat): nat {
    if |sorted| == 0 then 0
    else
      var i := |sorted| * p / 100;
      sorted[if i >= |sorted| then |sorted| - 1 else i]
  }

  /** Nothing has no percentile but zero, and from 100 on it is the greatest entry. */
  lemma PctAtTheEdges(s: seq<nat>, p: nat)
    ensures Pct([], p) == 0
    ensures s != [] && p >= 100 ==> Pct(s, p) == s[|s| - 1]
  {
    if s != [] && p >= 100 {
      assert |s| * p >= |s| * 100;
    }
  }

  lemma RankInRange(n: nat, p: nat, q: nat)
    requires p <= q
    ensures n * p / 100 <= n * q / 100
    ensures n > 0 && q < 100 ==> n * q / 100 < n
  {
    assert n * p <= n * q;
    assert q < 100 ==> n * q <= n * 99;
  }

  lemma PctIsPercentile(s: seq<nat>, p: nat)
    requires s != [] && p < 100
    ensures IsPercentile(s, p, Pct(Sorted(s), p))
    ensures var v := Pct(Sorted(s), p); v in s && CountBelow(s, v) <= |s| * p / 100 < CountAtMost(s, v)
  {
    var sorted := Sorted(s);
    hide Sorted;
    assert |multiset(sorted)| == |multiset(s)|;
    var i := |sorted| * p / 100;
    RankInRange(|sorted|, p, p);
    var v := sorted[i];
    assert v in multiset(sorted);
    CountsInSorted(sorted, i);
    CountsOfPermutation(sorted, s, v);
  }

  /** The rank condition leaves no choice. */
  lemma PercentileUnique(s: seq<nat>, p: nat, v: nat, w: nat)
    requires IsPercentile(s, p, v) && IsPercentile(s, p, w)
    ensures v == w
  {
    AtMostBeforeBelow(s, v, w);
    AtMostBeforeBelow(s, w, v);
  }

  lemma {:induction false} AtMostBeforeBelow(s: seq<nat>, v: nat, w: nat)
    ensures v < w ==> CountAtMost(s, v) <= CountBelow(s, w)
    decreases |s|
  {
    if s == [] {
    } else {
      AtMostBeforeBelow(s[1..], v, w);
    }
  }

  /** A higher percentile is never a smaller latency. */
  lemma PercentilesOrdered(s: seq<nat>, p: nat, q: nat, v: nat, w: nat)
    requires p <= q && IsPercentile(s, p, v) && IsPercentile(s, q, w)
    ensures v <= w
  {
    AtMostBeforeBelow(s, w, v);
    RankInRange(|s|, p, q);
  }
}
