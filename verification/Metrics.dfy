/** The meaning of one site's metrics, internal/metrics/metrics.go: what the sixty buckets,
    the latency ring and the status histogram say about the history of recorded samples. */
module Metrics {
  import opened Sums

  const BUCKET_COUNT: int := 60
  const LAT_RING_SIZE: int := 1024
  const UINT32: int := 0x1_0000_0000

  datatype Sample = Sample(status: int, bytes: int, latency: int)

  /** A sample together with the second read before the lock, in lock order. */
  datatype Entry = Entry(sec: int, sample: Sample)

  datatype Measure = Requests | Bytes | Errors

  predicate IsError(sm: Sample) {
    sm.status >= 500 || sm.status == 0
  }

  function Weight(m: Measure, sm: Sample): nat {
    match m
    case Requests => 1
    case Bytes => if sm.bytes > 0 then sm.bytes else 0
    case Errors => if IsError(sm) then 1 else 0
  }

  // ---------------------------------------------------------------------------
  // Direct readings of the history
  // ---------------------------------------------------------------------------

  ghost function Total(m: Measure, h: seq<Entry>): nat {
    if h == [] then 0 else Total(m, h[..|h| - 1]) + Weight(m, h[|h| - 1].sample)
  }

  /** Weight of the samples recorded with second s. */
  ghost function WeightAt(m: Measure, h: seq<Entry>, s: int): nat {
    if h == [] then 0
    else
      var e := h[|h| - 1];
      WeightAt(m, h[..|h| - 1], s) + if e.sec == s then Weight(m, e.sample) else 0
  }

  ghost function Weights(m: Measure, h: seq<Entry>): int -> int {
    s => WeightAt(m, h, s)
  }

  /** Weight of the samples recorded with a second in [lo, hi]. */
  ghost function WindowWeight(m: Measure, h: seq<Entry>, lo: int, hi: int): nat {
    if h == [] then 0
    else
      var e := h[|h| - 1];
      WindowWeight(m, h[..|h| - 1], lo, hi) + if lo <= e.sec <= hi then Weight(m, e.sample) else 0
  }

  /** A sample weighs one request; its bytes, if positive; and one error for status 0 or 5xx. */
  lemma WeightIs(sm: Sample)
    ensures Weight(Requests, sm) == 1
    ensures Weight(Bytes, sm) == if sm.bytes < 0 then 0 else sm.bytes
    ensures Weight(Errors, sm) == 1 <==> sm.status == 0 || 500 <= sm.status
    ensures Weight(Errors, sm) == 0 <==> sm.status != 0 && sm.status < 500
  {
  }

  /** Each reading of the history adds up the weights of the samples it is about. */
  lemma WeightsAdd(m: Measure, h: seq<Entry>, e: Entry, s: int, lo: int, hi: int)
    ensures Total(m, []) == 0 && WeightAt(m, [], s) == 0 && WindowWeight(m, [], lo, hi) == 0
    ensures Total(m, h + [e]) == Total(m, h) + Weight(m, e.sample)
    ensures WeightAt(m, h + [e], s) == WeightAt(m, h, s) + if e.sec == s then Weight(m, e.sample) else 0
    ensures WindowWeight(m, h + [e], lo, hi)
            == WindowWeight(m, h, lo, hi) + if e.sec < lo || e.sec > hi then 0 else Weight(m, e.sample)
  {
    assert (h + [e])[..|h|] == h;
  }

  ghost predicate Positive(h: seq<Entry>) {
    forall e | e in h :: e.sec >= 1
  }

  ghost function MaxSec(h: seq<Entry>): nat
    requires Positive(h)
  {
    if h == [] then 0
    else
      var m := MaxSec(h[..|h| - 1]);
      if m < h[|h| - 1].sec then h[|h| - 1].sec else m
  }

  lemma {:induction false} MaxSecIs(h: seq<Entry>)
    requires Positive(h)
    ensures MaxSec(h) == 0 <==> h == []
    ensures forall e | e in h :: e.sec <= MaxSec(h)
    ensures h != [] ==> exists e :: e in h && e.sec == MaxSec(h)
    decreases |h|
  {
    if h == [] {
    } else {
      var n := |h| - 1;
      MaxSecIs(h[..n]);
      assert h == h[..n] + [h[n]];
      assert h[n] in h;
    }
  }

  lemma {:induction false} WindowBySecond(m: Measure, h: seq<Entry>, lo: int, hi: int)
    requires lo <= hi + 1
    ensures WindowWeight(m, h, lo, hi) == Sum(Weights(m, h), lo, hi + 1)
    decreases |h|
  {
    if h == [] {
      SumZero(Weights(m, h), lo, hi + 1);
    } else {
      var before := h[..|h| - 1];
      var e := h[|h| - 1];
      WindowBySecond(m, before, lo, hi);
      SumBump(Weights(m, before), Weights(m, h), lo, hi + 1, e.sec, Weight(m, e.sample));
    }
  }

  lemma {:induction false} SumZero(f: int -> int, lo: int, hi: int)
    requires forall s :: f(s) == 0
    ensures Sum(f, lo, hi) == 0
    decreases hi - lo
  {
    if lo >= hi {
    } else {
      SumZero(f, lo, hi - 1);
    }
  }

  lemma {:induction false} SumBump(f: int -> int, g: int -> int, lo: int, hi: int, at: int, w: int)
    requires forall s :: g(s) == f(s) + if s == at then w else 0
    ensures Sum(g, lo, hi) == Sum(f, lo, hi) + if lo <= at < hi then w else 0
    decreases hi - lo
  {
    if lo >= hi {
    } else {
      SumBump(f, g, lo, hi - 1, at, w);
    }
  }

  lemma {:induction false} NothingAfterMax(m: Measure, h: seq<Entry>, s: int)
    requires Positive(h) && (s > MaxSec(h) || s <= 0)
    ensures WeightAt(m, h, s) == 0
    decreases |h|
  {
    if h == [] {
    } else {
      NothingAfterMax(m, h[..|h| - 1], s);
    }
  }

  /** A second without requests has no weight at all. */
  lemma {:induction false} UnseenIsZero(m: Measure, h: seq<Entry>, s: int)
    requires WeightAt(Requests, h, s) == 0
    ensures WeightAt(m, h, s) == 0
    decreases |h|
  {
    if h == [] {
    } else {
      UnseenIsZero(m, h[..|h| - 1], s);
    }
  }

  // ---------------------------------------------------------------------------
  // The bucket ring
  // ---------------------------------------------------------------------------

  datatype Bucket = Bucket(tsUnix: int, reqs: nat, bytes: nat, errors: nat) {
    function Field(m: Measure): nat {
      match m
      case Requests => reqs
      case Bytes => bytes
      case Errors => errors
    }
  }

  const EMPTY_BUCKET := Bucket(0, 0, 0, 0)

  /** One locked update of the slot that belongs to the entry's second. */
  function Observe(b: Bucket, e: Entry): Bucket {
    var base := if b.tsUnix != e.sec then Bucket(e.sec, 0, 0, 0) else b;
    Bucket(e.sec, base.reqs + 1, base.bytes + Weight(Bytes, e.sample), base.errors + Weight(Errors, e.sample))
  }

  /** The buckets after the given history. */
  ghost function Ring(h: seq<Entry>): (r: seq<Bucket>)
    ensures |r| == BUCKET_COUNT
  {
    if h == [] then seq(BUCKET_COUNT, _ => EMPTY_BUCKET)
    else
      var before := Ring(h[..|h| - 1]);
      var e := h[|h| - 1];
      before[e.sec % BUCKET_COUNT := Observe(before[e.sec % BUCKET_COUNT], e)]
  }

  /** What slot i adds to a 60-second aggregate. */
  function Contribution(m: Measure, ring: seq<Bucket>, now: int, i: int): nat {
    if 0 <= i < |ring| && ring[i].tsUnix != 0 && now - ring[i].tsUnix < BUCKET_COUNT then ring[i].Field(m) else 0
  }

  /** A slot counts in full if it was ever used and its second is at most 59 seconds old, a
      second ahead of the clock included; otherwise not at all. */
  lemma ContributionIs(m: Measure, ring: seq<Bucket>, now: int, i: int)
    requires 0 <= i < |ring|
    ensures ring[i].tsUnix == 0 || ring[i].tsUnix + 60 <= now ==> Contribution(m, ring, now, i) == 0
    ensures ring[i].tsUnix != 0 && now <= ring[i].tsUnix + 59 ==>
              Contribution(m, ring, now, i)
              == match m case Requests => ring[i].reqs case Bytes => ring[i].bytes case Errors => ring[i].errors
  {
  }

  ghost function Contributions(m: Measure, ring: seq<Bucket>, now: int): int -> int {
    i => Contribution(m, ring, now, i)
  }

  ghost function SlotTotal(m: Measure, ring: seq<Bucket>, now: int, n: int): int {
    Sum(Contributions(m, ring, now), 0, n)
  }

  /** What the per-second series shows for the absolute second s. */
  function SeriesAt(ring: seq<Bucket>, s: int): nat
    requires |ring| == BUCKET_COUNT
  {
    var b := ring[s % BUCKET_COUNT];
    if b.tsUnix == s then b.reqs else 0
  }

  /** The series shown by a snapshot at `now`, from the oldest second to the newest. */
  ghost function Series(ring: seq<Bucket>, now: int): int -> int
    requires |ring| == BUCKET_COUNT
  {
    k => SeriesAt(ring, now - 59 + k)
  }

  /** A used slot holds a second of its own residue class, not after the latest. */
  ghost predicate InPlace(b: Bucket, i: int, latest: int) {
    (b.tsUnix == 0 && b.reqs == 0) || (1 <= b.tsUnix <= latest && b.tsUnix % BUCKET_COUNT == i)
  }

  lemma {:induction false} SlotsInPlace(h: seq<Entry>)
    requires Positive(h)
    ensures forall i | 0 <= i < BUCKET_COUNT :: InPlace(Ring(h)[i], i, MaxSec(h))
    ensures forall i | 0 <= i < BUCKET_COUNT && Ring(h)[i].tsUnix != 0 ::
              exists j :: 0 <= j < |h| && h[j].sec == Ring(h)[i].tsUnix
    decreases |h|
  {
    if h == [] {
    } else {
      var before := h[..|h| - 1];
      SlotsInPlace(before);
      forall i | 0 <= i < BUCKET_COUNT && Ring(h)[i].tsUnix != 0
        ensures exists j :: 0 <= j < |h| && h[j].sec == Ring(h)[i].tsUnix
      {
        if i == h[|h| - 1].sec % BUCKET_COUNT {
          assert h[|h| - 1].sec == Ring(h)[i].tsUnix;
        } else {
          var j :| 0 <= j < |before| && before[j].sec == Ring(before)[i].tsUnix;
          assert h[j].sec == Ring(h)[i].tsUnix;
        }
      }
    }
  }

  lemma SlotShowsItsSecond(ring: seq<Bucket>, now: int, i: int)
    requires |ring| == BUCKET_COUNT && 0 <= i < BUCKET_COUNT && now >= 59
    requires InPlace(ring[i], i, now)
    ensures Contribution(Requests, ring, now, i) == SeriesAt(ring, SecondOf(i, now))
  {
    hide SecondOf;
    var b := ring[i];
    SecondOfFacts(i, now);
    if b.tsUnix != 0 && now - b.tsUnix < BUCKET_COUNT {
      SecondOfUnique(i, now, b.tsUnix);
    }
  }

  /** For any ring of in-place slots not ahead of the clock, the loop over slots and the loop
      over absolute seconds count the same requests. */
  lemma SeriesSumsToWindow(ring: seq<Bucket>, now: int)
    requires |ring| == BUCKET_COUNT && now >= 59
    requires forall i | 0 <= i < BUCKET_COUNT :: InPlace(ring[i], i, now)
    ensures Sum(Series(ring, now), 0, BUCKET_COUNT) == SlotTotal(Requests, ring, now, BUCKET_COUNT)
  {
    hide Sum, SecondOf, Contribution, SeriesAt, InPlace;
    var second := s => SeriesAt(ring, s);
    SumShift(Series(ring, now), second, 0, BUCKET_COUNT, now - 59);
    forall i | 0 <= i < 60
      ensures Contributions(Requests, ring, now)(i) == second(SecondOf(i, now))
    {
      SlotShowsItsSecond(ring, now, i);
    }
    SlotsAreSeconds(Contributions(Requests, ring, now), second, now);
  }

  // ---------------------------------------------------------------------------
  // The sliding window
  // ---------------------------------------------------------------------------

  /** Slot b is a faithful record of second s, the one second of its residue class among
      the sixty that end at `latest`. */
  ghost predicate Faithful(h: seq<Entry>, b: Bucket, s: int, latest: int) {
    if WeightAt(Requests, h, s) > 0
    then b.tsUnix == s && forall m :: b.Field(m) == WeightAt(m, h, s)
    else b.tsUnix == 0 || b.tsUnix <= latest - BUCKET_COUNT
  }

  ghost predicate Tracks(h: seq<Entry>)
    requires Positive(h)
  {
    forall i | 0 <= i < BUCKET_COUNT :: Faithful(h, Ring(h)[i], SecondOf(i, MaxSec(h)), MaxSec(h))
  }

  /** Recording e after h does not overwrite a second that is still in the window. */
  ghost predicate SparesWindow(h: seq<Entry>, e: Entry)
    requires Positive(h)
  {
    e.sec <= MaxSec(h) - BUCKET_COUNT ==> WeightAt(Requests, h, SecondOf(e.sec, MaxSec(h))) == 0
  }

  ghost predicate KeepsWindow(h: seq<Entry>)
    requires Positive(h)
  {
    forall j | 0 <= j < |h| :: SparesWindow(h[..j], h[j])
  }

  lemma Extend(h: seq<Entry>, e: Entry)
    requires Positive(h) && e.sec >= 1
    ensures Positive(h + [e])
    ensures MaxSec(h + [e]) == if MaxSec(h) < e.sec then e.sec else MaxSec(h)
    ensures Ring(h + [e]) == Ring(h)[e.sec % BUCKET_COUNT := Observe(Ring(h)[e.sec % BUCKET_COUNT], e)]
    ensures forall m, s :: WeightAt(m, h + [e], s) == WeightAt(m, h, s) + if e.sec == s then Weight(m, e.sample) else 0
  {
    assert (h + [e])[..|h|] == h;
  }

  /** What is known of slot i before the step. */
  lemma SlotBefore(h: seq<Entry>, i: int)
    requires Positive(h) && Tracks(h) && 0 <= i < BUCKET_COUNT
    ensures Faithful(h, Ring(h)[i], SecondOf(i, MaxSec(h)), MaxSec(h))
    ensures InPlace(Ring(h)[i], i, MaxSec(h))
  {
    SlotsInPlace(h);
  }

  /** A slot that the entry does not use. */
  lemma UntouchedSlot(h: seq<Entry>, e: Entry, i: int)
    requires Positive(h) && e.sec >= 1 && 0 <= i < BUCKET_COUNT
    requires Tracks(h) && e.sec % BUCKET_COUNT != i
    ensures Positive(h + [e])
    ensures var t' := MaxSec(h + [e]); Faithful(h + [e], Ring(h + [e])[i], SecondOf(i, t'), t')
  {
    hide SecondOf, Tracks, Positive, MaxSec, Ring, WeightAt;
    Extend(h, e);
    SlotBefore(h, i);
    var t, t' := MaxSec(h), MaxSec(h + [e]);
    var s' := SecondOf(i, t');
    SecondOfFacts(i, t);
    SecondOfFacts(i, t');
    if s' > t {
      NothingAfterMaxAll(h, s');
      if Ring(h)[i].tsUnix != 0 {
        CongruentGap(Ring(h)[i].tsUnix, s');
      }
    } else {
      SecondOfUnique(i, t, s');
    }
  }

  /** The slot of an entry whose second is in the window after it. */
  lemma LiveSlot(h: seq<Entry>, e: Entry)
    requires Positive(h) && e.sec >= 1 && Tracks(h) && e.sec > MaxSec(h) - BUCKET_COUNT
    ensures Positive(h + [e])
    ensures var t', i := MaxSec(h + [e]), e.sec % BUCKET_COUNT;
            Faithful(h + [e], Ring(h + [e])[i], SecondOf(i, t'), t')
  {
    hide SecondOf, Tracks, Positive, MaxSec, Ring, WeightAt;
    Extend(h, e);
    var t, t', i := MaxSec(h), MaxSec(h + [e]), e.sec % BUCKET_COUNT;
    SlotBefore(h, i);
    SecondOfUnique(i, t', e.sec);
    if e.sec > t {
      NothingAfterMaxAll(h, e.sec);
    } else {
      SecondOfUnique(i, t, e.sec);
      UnseenIsZeroAll(h, e.sec);
    }
  }

  /** The slot of an entry whose second has left the window. */
  lemma StaleSlot(h: seq<Entry>, e: Entry)
    requires Positive(h) && e.sec >= 1 && SparesWindow(h, e) && e.sec <= MaxSec(h) - BUCKET_COUNT
    ensures Positive(h + [e])
    ensures var t', i := MaxSec(h + [e]), e.sec % BUCKET_COUNT;
            Faithful(h + [e], Ring(h + [e])[i], SecondOf(i, t'), t')
  {
    hide SecondOf, Positive, MaxSec, Ring, WeightAt;
    Extend(h, e);
    SecondOfFacts(e.sec, MaxSec(h));
  }

  lemma UnseenIsZeroAll(h: seq<Entry>, s: int)
    ensures WeightAt(Requests, h, s) == 0 ==> forall m :: WeightAt(m, h, s) == 0
  {
    if WeightAt(Requests, h, s) == 0 {
      forall m ensures WeightAt(m, h, s) == 0 {
        UnseenIsZero(m, h, s);
      }
    }
  }

  lemma TracksStep(h: seq<Entry>, e: Entry)
    requires Positive(h) && e.sec >= 1
    requires Tracks(h) && SparesWindow(h, e)
    ensures Positive(h + [e]) && Tracks(h + [e])
  {
    forall i | 0 <= i < BUCKET_COUNT
      ensures var t' := MaxSec(h + [e]); Faithful(h + [e], Ring(h + [e])[i], SecondOf(i, t'), t')
    {
      if e.sec % BUCKET_COUNT != i {
        UntouchedSlot(h, e, i);
      } else if e.sec > MaxSec(h) - BUCKET_COUNT {
        LiveSlot(h, e);
      } else {
        StaleSlot(h, e);
      }
    }
  }

  lemma NothingAfterMaxAll(h: seq<Entry>, s: int)
    requires Positive(h) && (s > MaxSec(h) || s <= 0)
    ensures forall m :: WeightAt(m, h, s) == 0
  {
    forall m ensures WeightAt(m, h, s) == 0 {
      NothingAfterMax(m, h, s);
    }
  }

  lemma {:induction false} KeepsWindowTracks(h: seq<Entry>)
    requires Positive(h) && KeepsWindow(h)
    ensures Tracks(h)
    decreases |h|
  {
    if h == [] {
    } else {
      var n := |h| - 1;
      assert h[..n] + [h[n]] == h;
      forall j | 0 <= j < n ensures SparesWindow(h[..n][..j], h[..n][j]) {
        assert h[..n][..j] == h[..j];
      }
      KeepsWindowTracks(h[..n]);
      TracksStep(h[..n], h[n]);
    }
  }

  lemma TrackedSlot(m: Measure, h: seq<Entry>, now: int, i: int)
    requires Positive(h) && Tracks(h) && MaxSec(h) <= now && 0 <= i < BUCKET_COUNT
    ensures Contribution(m, Ring(h), now, i) == WeightAt(m, h, SecondOf(i, now))
  {
    SlotsInPlace(h);
    var t, s := MaxSec(h), SecondOf(i, now);
    var b := Ring(h)[i];
    assert InPlace(b, i, t);
    assert Faithful(h, b, SecondOf(i, t), t);
    hide SecondOf, Tracks, Ring, MaxSec;
    SecondOfFacts(i, t);
    SecondOfFacts(i, now);
    if s > t || s <= 0 {
      NothingAfterMax(m, h, s);
      NothingAfterMax(Requests, h, s);
      if b.tsUnix != 0 && now - b.tsUnix < BUCKET_COUNT {
        SecondOfUnique(i, now, b.tsUnix);
      }
    } else {
      SecondOfUnique(i, t, s);
      UnseenIsZeroAll(h, s);
    }
  }

  /** Each aggregate of a faithful ring is the weight of exactly the samples of the last
      sixty seconds. */
  lemma WindowExact(m: Measure, h: seq<Entry>, now: int)
    requires Positive(h) && Tracks(h) && MaxSec(h) <= now
    ensures SlotTotal(m, Ring(h), now, BUCKET_COUNT) == WindowWeight(m, h, now - 59, now)
  {
    hide Sum, SecondOf, Contribution, Ring, WeightAt, WindowWeight, Tracks, MaxSec;
    forall i | 0 <= i < 60
      ensures Contribution(m, Ring(h), now, i) == WeightAt(m, h, SecondOf(i, now))
    {
      TrackedSlot(m, h, now, i);
    }
    SlotsAreSeconds(Contributions(m, Ring(h), now), Weights(m, h), now);
    WindowBySecond(m, h, now - 59, now);
  }

  /** Each entry of the series is the number of samples of that second. */
  lemma SeriesExact(h: seq<Entry>, now: int, k: int)
    requires Positive(h) && Tracks(h) && MaxSec(h) <= now && now >= 59 && 0 <= k < BUCKET_COUNT
    ensures SeriesAt(Ring(h), now - 59 + k) == WeightAt(Requests, h, now - 59 + k)
  {
    hide Ring, Tracks, WeightAt, MaxSec, SecondOf;
    var s := now - 59 + k;
    var i := s % BUCKET_COUNT;
    SlotsInPlace(h);
    assert InPlace(Ring(h)[i], i, MaxSec(h));
    SecondOfUnique(i, now, s);
    TrackedSlot(Requests, h, now, i);
    SlotShowsItsSecond(Ring(h), now, i);
  }

  /** Snapshots taken at any point of the history, not before the latest recorded second,
      count the requests of the last sixty seconds. */
  ghost predicate WindowsExact(h: seq<Entry>)
    requires Positive(h)
  {
    forall n, now | 0 <= n <= |h| && now >= MaxSec(h[..n]) :: CountsWindow(h[..n], now)
  }

  ghost predicate CountsWindow(h: seq<Entry>, now: int) {
    SlotTotal(Requests, Ring(h), now, BUCKET_COUNT) == WindowWeight(Requests, h, now - 59, now)
  }

  /** An overwritten live second is missing from the very next snapshot. */
  lemma OverwriteIsVisible(h: seq<Entry>, e: Entry)
    requires Positive(h) && e.sec >= 1 && Tracks(h) && !SparesWindow(h, e)
    ensures Positive(h + [e]) && MaxSec(h + [e]) == MaxSec(h) && !CountsWindow(h + [e], MaxSec(h))
  {
    hide SecondOf, Positive, MaxSec, Ring, WeightAt, Tracks, Sum;
    Extend(h, e);
    var t, i := MaxSec(h), e.sec % BUCKET_COUNT;
    SecondOfFacts(e.sec, t);
    TrackedSlot(Requests, h, t, i);
    WindowExact(Requests, h, t);
    SlotTotalDrops(Ring(h), Ring(h + [e]), t, i);
    assert (h + [e])[..|h|] == h;
  }

  lemma SlotTotalDrops(ring: seq<Bucket>, ring': seq<Bucket>, now: int, i: int)
    requires |ring| == |ring'| == BUCKET_COUNT && 0 <= i < BUCKET_COUNT
    requires forall j | 0 <= j < BUCKET_COUNT && j != i :: ring'[j] == ring[j]
    requires Contribution(Requests, ring', now, i) == 0 < Contribution(Requests, ring, now, i)
    ensures SlotTotal(Requests, ring', now, BUCKET_COUNT) < SlotTotal(Requests, ring, now, BUCKET_COUNT)
  {
    hide Sum;
    var f, f' := Contributions(Requests, ring, now), Contributions(Requests, ring', now);
    assert forall j | 0 <= j < BUCKET_COUNT :: f'(j) <= f(j);
    assert f'(i) < f(i);
    SumMonotone(f', f, 0, BUCKET_COUNT);
  }

  /** The sliding window is exact at every moment if and only if no sample arrives with a
      second that has left the window and lands on a slot still in use. */
  lemma WindowsExactIff(h: seq<Entry>)
    requires Positive(h)
    ensures WindowsExact(h) <==> KeepsWindow(h)
  {
    hide KeepsWindow, SparesWindow, CountsWindow, Tracks, MaxSec;
    if KeepsWindow(h) {
      forall n, now | 0 <= n <= |h| && now >= MaxSec(h[..n])
        ensures CountsWindow(h[..n], now)
      {
        PrefixKeepsWindow(h, n);
        KeepsWindowCounts(h[..n], now);
      }
    } else {
      var j := FirstOverwrite(h);
      PrefixKeepsWindow(h, j);
      KeepsWindowTracks(h[..j]);
      OverwriteIsVisible(h[..j], h[j]);
      assert h[..j + 1] == h[..j] + [h[j]];
    }
  }

  lemma KeepsWindowCounts(h: seq<Entry>, now: int)
    requires Positive(h) && KeepsWindow(h) && now >= MaxSec(h)
    ensures CountsWindow(h, now)
  {
    KeepsWindowTracks(h);
    WindowExact(Requests, h, now);
  }

  lemma PrefixKeepsWindow(h: seq<Entry>, n: nat)
    requires n <= |h| && Positive(h)
    requires KeepsWindow(h) || forall k | 0 <= k < n :: SparesWindow(h[..k], h[k])
    ensures Positive(h[..n]) && KeepsWindow(h[..n])
  {
    hide SparesWindow;
    forall k | 0 <= k < n ensures SparesWindow(h[..n][..k], h[..n][k]) {
      assert h[..n][..k] == h[..k];
    }
  }

  lemma FirstOverwrite(h: seq<Entry>) returns (j: nat)
    requires Positive(h) && !KeepsWindow(h)
    ensures j < |h| && !SparesWindow(h[..j], h[j])
    ensures forall k | 0 <= k < j :: SparesWindow(h[..k], h[k])
  {
    hide SparesWindow;
    j := 0;
    while j < |h| && SparesWindow(h[..j], h[j])
      invariant j <= |h|
      invariant forall k | 0 <= k < j :: SparesWindow(h[..k], h[k])
    {
      j := j + 1;
    }
  }

  /** It does fail: a sample one minute late overwrites the slot of the latest second. */
  lemma LateSampleBreaksWindow(sm: Sample)
    ensures var h := [Entry(61, sm), Entry(1, sm)]; Positive(h) && !KeepsWindow(h) && !WindowsExact(h)
  {
    var h := [Entry(61, sm), Entry(1, sm)];
    var one := [Entry(61, sm)];
    assert h[..1] == one && one[..0] == [];
    assert Positive(one) && MaxSec(one) == 61;
    assert SecondOf(1, 61) == 61 && WeightAt(Requests, one, 61) == 1;
    assert !SparesWindow(one, h[1]);
    assert !SparesWindow(h[..1], h[1]);
    WindowsExactIff(h);
  }

  /** In particular reordering by less than a minute is harmless. */
  lemma ShortLagKeepsWindow(h: seq<Entry>)
    requires Positive(h)
    requires forall j | 0 <= j < |h| :: h[j].sec > MaxSec(h[..j]) - BUCKET_COUNT
    ensures KeepsWindow(h) && WindowsExact(h)
  {
    WindowsExactIff(h);
  }

  // ---------------------------------------------------------------------------
  // Without any assumption on the clock
  // ---------------------------------------------------------------------------

  lemma {:induction false} SlotErrorsWithinRequests(h: seq<Entry>)
    ensures forall i | 0 <= i < BUCKET_COUNT :: Ring(h)[i].errors <= Ring(h)[i].reqs
    decreases |h|
  {
    if h == [] {
    } else {
      SlotErrorsWithinRequests(h[..|h| - 1]);
    }
  }

  lemma ErrorsWithinRequests(h: seq<Entry>, now: int)
    ensures SlotTotal(Errors, Ring(h), now, BUCKET_COUNT) <= SlotTotal(Requests, Ring(h), now, BUCKET_COUNT)
  {
    SlotErrorsWithinRequests(h);
    hide Ring, Sum;
    SumMonotone(Contributions(Errors, Ring(h), now), Contributions(Requests, Ring(h), now), 0, BUCKET_COUNT);
  }

  /** The window never counts more requests than were recorded. */
  lemma {:induction false} WindowWithinTotal(h: seq<Entry>, now: int)
    ensures SlotTotal(Requests, Ring(h), now, BUCKET_COUNT) <= |h|
  {
    SlotRequestsWithinTotal(h);
    SumMonotone(Contributions(Requests, Ring(h), now), SlotRequests(Ring(h)), 0, BUCKET_COUNT);
  }

  ghost function SlotRequests(ring: seq<Bucket>): int -> int {
    i => if 0 <= i < |ring| then ring[i].reqs else 0
  }

  lemma {:induction false} SlotRequestsWithinTotal(h: seq<Entry>)
    ensures Sum(SlotRequests(Ring(h)), 0, BUCKET_COUNT) <= |h|
    decreases |h|
  {
    if h == [] {
      SumZero(SlotRequests(Ring(h)), 0, BUCKET_COUNT);
    } else {
      var before := h[..|h| - 1];
      SlotRequestsWithinTotal(before);
      var at := h[|h| - 1].sec % BUCKET_COUNT;
      OneSlotGrows(Ring(before), Ring(h), at);
    }
  }

  lemma OneSlotGrows(ring: seq<Bucket>, ring': seq<Bucket>, at: int)
    requires |ring| == |ring'| == BUCKET_COUNT && 0 <= at < BUCKET_COUNT
    requires forall i | 0 <= i < BUCKET_COUNT && i != at :: ring'[i] == ring[i]
    requires ring'[at].reqs <= ring[at].reqs + 1
    ensures Sum(SlotRequests(ring'), 0, BUCKET_COUNT) <= Sum(SlotRequests(ring), 0, BUCKET_COUNT) + 1
  {
    hide Sum;
    var f := SlotRequests(ring);
    var g := i => f(i) + if i == at then 1 else 0;
    SumBump(f, g, 0, BUCKET_COUNT, at, 1);
    SumMonotone(SlotRequests(ring'), g, 0, BUCKET_COUNT);
  }
}
