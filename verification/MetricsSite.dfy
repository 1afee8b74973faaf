/** The metrics holder of one domain and the registry of all of them,
    internal/metrics/metrics.go, with their state updated in place. */
module MetricsSite {
  import opened Metrics
  import opened Percentiles
  import opened Sums

  // ---------------------------------------------------------------------------
  // Latency ring and status histogram, read off the history
  // ---------------------------------------------------------------------------

  /** Whole milliseconds as a uint32; a positive latency never becomes zero. */
  function Millis(latency: int): nat {
    var whole := if latency >= 0 then latency / 1_000_000 else -(-latency / 1_000_000);
    var ms := whole % UINT32;
    if ms == 0 && latency > 0 then 1 else ms
  }

  /** v is the latency in whole milliseconds, rounded down, but one for anything below. */
  ghost predicate InMillis(latency: int, v: nat) {
    if 0 < latency < 1_000_000 then v == 1 else v * 1_000_000 <= latency < (v + 1) * 1_000_000
  }

  lemma MillisIs(latency: int)
    ensures 0 <= latency < UINT32 * 1_000_000 ==> InMillis(latency, Millis(latency))
    ensures latency > 0 ==> Millis(latency + UINT32 * 1_000_000) == Millis(latency)
    ensures latency < 0 ==> (Millis(latency) + -latency / 1_000_000) % UINT32 == 0
  {
  }

  ghost function Kept(h: seq<Entry>): nat {
    if |h| < LAT_RING_SIZE then |h| else LAT_RING_SIZE
  }

  /** The latencies of the last min(n, 1024) samples, oldest first. */
  ghost function LastLatencies(h: seq<Entry>): seq<nat> {
    seq<nat>(Kept(h), i requires 0 <= i < Kept(h) => Millis(h[|h| - Kept(h) + i].sample.latency))
  }

  ghost predicate LatencyHolds(lat: seq<nat>, idx: int, n: int, h: seq<Entry>) {
    && |lat| == LAT_RING_SIZE
    && idx == |h| % LAT_RING_SIZE
    && n == Kept(h)
    && forall j | |h| - n <= j < |h| :: lat[j % LAT_RING_SIZE] == Millis(h[j].sample.latency)
  }

  /** The used part of the ring is, as a multiset, the most recent latencies. */
  lemma RingHoldsLastLatencies(lat: seq<nat>, idx: int, n: int, h: seq<Entry>)
    requires LatencyHolds(lat, idx, n, h)
    ensures multiset(lat[..n]) == multiset(LastLatencies(h))
  {
    if |h| < LAT_RING_SIZE {
      FillingRingIsInOrder(lat, idx, n, h);
    } else {
      FullRingIsRotated(lat, idx, n, h);
      hide LatencyHolds, LastLatencies;
      assert lat[..idx] + lat[idx..] == lat[..n];
    }
  }

  lemma FillingRingIsInOrder(lat: seq<nat>, idx: int, n: int, h: seq<Entry>)
    requires LatencyHolds(lat, idx, n, h) && |h| < LAT_RING_SIZE
    ensures 0 <= n <= |lat| && lat[..n] == LastLatencies(h)
  {
    var last := LastLatencies(h);
    forall i | 0 <= i < |h|
      ensures lat[..n][i] == last[i]
    {
      assert lat[i % LAT_RING_SIZE] == last[i];
    }
  }

  lemma FullRingIsRotated(lat: seq<nat>, idx: int, n: int, h: seq<Entry>)
    requires LatencyHolds(lat, idx, n, h) && |h| >= LAT_RING_SIZE
    ensures 0 <= idx <= n == |lat|
    ensures lat[idx..] + lat[..idx] == LastLatencies(h)
  {
    var last := LastLatencies(h);
    assert |last| == LAT_RING_SIZE;
    forall i | 0 <= i < LAT_RING_SIZE
      ensures (lat[idx..] + lat[..idx])[i] == last[i]
    {
      RotatedIndex(|h|, i);
      assert lat[(|h| - LAT_RING_SIZE + i) % LAT_RING_SIZE] == last[i];
    }
  }

  lemma RotatedIndex(n: int, i: int)
    requires n >= LAT_RING_SIZE && 0 <= i < LAT_RING_SIZE
    ensures var idx := n % LAT_RING_SIZE;
            (n - LAT_RING_SIZE + i) % LAT_RING_SIZE
            == if i < LAT_RING_SIZE - idx then idx + i else i - (LAT_RING_SIZE - idx)
  {
  }

  lemma LatencyStep(lat: seq<nat>, idx: int, n: int, h: seq<Entry>, e: Entry)
    requires LatencyHolds(lat, idx, n, h)
    ensures 0 <= idx < LAT_RING_SIZE
    ensures LatencyHolds(lat[idx := Millis(e.sample.latency)], (idx + 1) % LAT_RING_SIZE,
                         if n < LAT_RING_SIZE then n + 1 else n, h + [e])
  {
    var h' := h + [e];
    var n' := if n < LAT_RING_SIZE then n + 1 else n;
    forall j | |h'| - n' <= j < |h'|
      ensures lat[idx := Millis(e.sample.latency)][j % LAT_RING_SIZE] == Millis(h'[j].sample.latency)
    {
      if j < |h| {
        assert j % LAT_RING_SIZE != idx;
      }
    }
  }

  ghost function StatusCount(h: seq<Entry>, status: int): nat {
    if h == [] then 0
    else StatusCount(h[..|h| - 1], status) + if h[|h| - 1].sample.status == status then 1 else 0
  }

  /** It counts sample by sample. */
  lemma StatusCountAdds(h: seq<Entry>, e: Entry, status: int)
    ensures StatusCount([], status) == 0
    ensures StatusCount(h + [e], status) == StatusCount(h, status) + if e.sample.status == status then 1 else 0
  {
    assert (h + [e])[..|h|] == h;
  }

  /** v is, in milliseconds, a latency among those of the last min(n, 1024) samples. */
  ghost predicate IsRecentLatency(h: seq<Entry>, v: nat) {
    exists j :: 0 <= j < |h| && |h| - 1024 <= j && v == Millis(h[j].sample.latency)
                && (0 <= h[j].sample.latency < UINT32 * 1_000_000 ==> InMillis(h[j].sample.latency, v))
  }

  lemma PercentileIsRecent(h: seq<Entry>, p: nat, v: nat)
    requires IsPercentile(LastLatencies(h), p, v)
    ensures IsRecentLatency(h, v)
  {
    hide Millis, IsPercentile;
    var last := LastLatencies(h);
    PercentileIsEntry(last, p, v);
    var i :| 0 <= i < |last| && last[i] == v;
    var j := |h| - Kept(h) + i;
    assert v == Millis(h[j].sample.latency);
    MillisIs(h[j].sample.latency);
  }

  lemma PercentileIsEntry(s: seq<nat>, p: nat, v: nat)
    requires IsPercentile(s, p, v)
    ensures v in s
  {
  }

  ghost predicate IsHistogram(counts: map<int, nat>, h: seq<Entry>) {
    && (forall k :: k in counts <==> StatusCount(h, k) > 0)
    && (forall k | k in counts :: counts[k] == StatusCount(h, k))
  }

  lemma HasKey<K>(counts: map<K, nat>)
    requires counts != map[]
    ensures exists k :: k in counts
  {
    assert (forall k :: k !in counts) ==> counts == map[];
  }

  /** Sum of a histogram's counts. */
  ghost function Mass<K>(counts: map<K, nat>): nat
    decreases |counts|
  {
    if counts == map[] then 0
    else
      HasKey(counts);
      var k :| k in counts;
      counts[k] + Mass(counts - {k})
  }

  lemma {:induction false} MassRemove<K>(counts: map<K, nat>, k: K)
    requires k in counts
    ensures Mass(counts) == counts[k] + Mass(counts - {k})
    decreases |counts|
  {
    var j :| j in counts && Mass(counts) == counts[j] + Mass(counts - {j});
    if j == k {
    } else {
      MassRemove(counts - {j}, k);
      MassRemove(counts - {k}, j);
      assert counts - {j} - {k} == counts - {k} - {j};
    }
  }

  function Bump<K>(counts: map<K, nat>, k: K): map<K, nat> {
    counts[k := (if k in counts then counts[k] else 0) + 1]
  }

  lemma MassBump<K>(counts: map<K, nat>, k: K)
    ensures Mass(Bump(counts, k)) == Mass(counts) + 1
  {
    MassRemove(Bump(counts, k), k);
    if k in counts {
      MassRemove(counts, k);
    }
    assert Bump(counts, k) - {k} == counts - {k};
    if k !in counts {
      assert counts - {k} == counts;
    }
  }

  lemma HistogramStep(counts: map<int, nat>, h: seq<Entry>, e: Entry)
    requires IsHistogram(counts, h)
    ensures IsHistogram(Bump(counts, e.sample.status), h + [e])
  {
    assert (h + [e])[..|h|] == h;
  }

  /** Every sample is counted under exactly one status. */
  lemma {:induction false} HistogramMass(counts: map<int, nat>, h: seq<Entry>)
    requires IsHistogram(counts, h)
    ensures Mass(counts) == |h|
    decreases |h|
  {
    if h == [] {
      forall k ensures k !in counts.Keys {
        assert StatusCount(h, k) == 0;
      }
    } else {
      var before, k := h[..|h| - 1], h[|h| - 1].sample.status;
      assert before + [h[|h| - 1]] == h;
      var counts' := if counts[k] == 1 then counts - {k} else counts[k := counts[k] - 1];
      assert IsHistogram(counts', before);
      HistogramMass(counts', before);
      assert Bump(counts', k) == counts;
      MassBump(counts', k);
    }
  }

  // ---------------------------------------------------------------------------
  // One site
  // ---------------------------------------------------------------------------

  datatype Snapshot = SnapshotOf(
    totalRequests: nat, totalBytes: nat, totalErrors: nat,
    reqsLast1m: nat, bytesLast1m: nat, errsLast1m: nat,
    reqsPerSec: seq<nat>,
    p50: nat, p95: nat, p99: nat,
    statusCounts: map<int, nat>)

  /** On a history that keeps its window the slots and the series show the last minute. */
  lemma WindowReported(h: seq<Entry>, now: int, series: seq<nat>)
    requires Positive(h) && KeepsWindow(h) && MaxSec(h) <= now && now >= 59
    requires |series| == BUCKET_COUNT && forall k | 0 <= k < BUCKET_COUNT :: series[k] == SeriesAt(Ring(h), now - 59 + k)
    ensures forall m :: SlotTotal(m, Ring(h), now, BUCKET_COUNT) == WindowWeight(m, h, now - 59, now)
    ensures forall k | 0 <= k < BUCKET_COUNT :: series[k] == WeightAt(Requests, h, now - 59 + k)
  {
    hide Ring, SlotTotal, KeepsWindow, MaxSec, Tracks, WindowWeight, SeriesAt;
    KeepsWindowTracks(h);
    forall m
      ensures SlotTotal(m, Ring(h), now, BUCKET_COUNT) == WindowWeight(m, h, now - 59, now)
    {
      WindowExact(m, h, now);
    }
    forall k | 0 <= k < BUCKET_COUNT
      ensures series[k] == WeightAt(Requests, h, now - 59 + k)
    {
      SeriesExact(h, now, k);
    }
  }

  class SiteMetrics {
    var totalRequests: nat
    var totalBytes: nat
    var totalErrors: nat
    const buckets: array<Bucket>
    var bucketAt: int
    const latency: array<nat>
    var latencyIdx: int
    var latencyN: int
    var statusCounts: map<int, nat>
    /** Every sample recorded so far, in lock order. */
    ghost var history: seq<Entry>

    ghost predicate Valid()
      reads this, buckets, latency
    {
      && totalRequests == Total(Requests, history)
      && totalBytes == Total(Bytes, history)
      && totalErrors == Total(Errors, history)
      && buckets.Length == BUCKET_COUNT && latency.Length == LAT_RING_SIZE
      && buckets[..] == Ring(history)
      && LatencyHolds(latency[..], latencyIdx, latencyN, history)
      && IsHistogram(statusCounts, history)
    }

    constructor ()
      ensures Valid() && history == []
      ensures fresh(buckets) && fresh(latency)
    {
      totalRequests, totalBytes, totalErrors := 0, 0, 0;
      var bs := new Bucket[BUCKET_COUNT](_ => EMPTY_BUCKET);
      buckets := bs;
      bucketAt := 0;
      var lat := new nat[LAT_RING_SIZE](_ => 0);
      latency := lat;
      latencyIdx, latencyN := 0, 0;
      statusCounts := map[];
      history := [];
      new;
      assert buckets[..] == Ring([]);
    }

    /** The lifetime totals, added before the lock is taken. */
    method AddTotals(sm: Sample)
      modifies this`totalRequests, this`totalBytes, this`totalErrors
      ensures totalRequests == old(totalRequests) + Weight(Requests, sm)
      ensures totalBytes == old(totalBytes) + Weight(Bytes, sm)
      ensures totalErrors == old(totalErrors) + Weight(Errors, sm)
    {
      totalRequests := totalRequests + 1;
      if sm.bytes > 0 {
        totalBytes := totalBytes + sm.bytes;
      }
      if sm.status >= 500 || sm.status == 0 {
        totalErrors := totalErrors + 1;
      }
    }

    method AddToBucket(e: Entry)
      requires buckets.Length == BUCKET_COUNT && e.sec >= 0
      modifies buckets, this`bucketAt
      ensures var idx := e.sec % BUCKET_COUNT;
              buckets[..] == old(buckets[..])[idx := Observe(old(buckets[..])[idx], e)]
      ensures bucketAt == e.sec
    {
      var idx := e.sec % BUCKET_COUNT;
      ghost var before := buckets[..];
      if buckets[idx].tsUnix != e.sec {
        buckets[idx] := Bucket(e.sec, 0, 0, 0);
      }
      var b := buckets[idx];
      b := b.(reqs := b.reqs + 1);
      if e.sample.bytes > 0 {
        b := b.(bytes := b.bytes + e.sample.bytes);
      }
      if e.sample.status >= 500 || e.sample.status == 0 {
        b := b.(errors := b.errors + 1);
      }
      buckets[idx] := b;
      bucketAt := e.sec;
      assert buckets[..] == before[idx := b];
    }

    method AddLatency(ms: nat)
      requires latency.Length == LAT_RING_SIZE && 0 <= latencyIdx < LAT_RING_SIZE
      modifies latency, this`latencyIdx, this`latencyN
      ensures latency[..] == old(latency[..])[old(latencyIdx) := ms]
      ensures latencyIdx == (old(latencyIdx) + 1) % LAT_RING_SIZE
      ensures latencyN == if old(latencyN) < LAT_RING_SIZE then old(latencyN) + 1 else old(latencyN)
    {
      latency[latencyIdx] := ms;
      latencyIdx := (latencyIdx + 1) % LAT_RING_SIZE;
      if latencyN < LAT_RING_SIZE {
        latencyN := latencyN + 1;
      }
    }

    /** Records one sample. `nowSec` is the clock reading taken before the lock; a negative
        one would index outside the ring. Valid() ties every field to the new history. */
    method Record(sm: Sample, nowSec: int)
      requires Valid() && nowSec >= 0
      modifies this, buckets, latency
      ensures Valid()
      ensures history == old(history) + [Entry(nowSec, sm)]
      ensures bucketAt == nowSec
    {
      hide Ring, IsHistogram, LatencyHolds, StatusCount, Total, Observe, Weight;
      ghost var e := Entry(nowSec, sm);
      StepAll(history, e);
      HistogramStep(statusCounts, history, e);
      LatencyStep(latency[..], latencyIdx, latencyN, history, e);
      AddTotals(sm);
      AddToBucket(Entry(nowSec, sm));
      AddLatency(Millis(sm.latency));
      statusCounts := Bump(statusCounts, sm.status);
      history := history + [e];
    }

    /** What a snapshot at `nowSec` reports about the history. */
    ghost predicate Reports(out: Snapshot, nowSec: int)
      reads this
      requires nowSec >= 59
    {
      && out.totalRequests == |history|
      && out.totalBytes == Total(Bytes, history)
      && out.totalErrors == Total(Errors, history)
      && |out.reqsPerSec| == BUCKET_COUNT
      && (Positive(history) && KeepsWindow(history) && MaxSec(history) <= nowSec ==>
            && out.reqsLast1m == WindowWeight(Requests, history, nowSec - 59, nowSec)
            && out.bytesLast1m == WindowWeight(Bytes, history, nowSec - 59, nowSec)
            && out.errsLast1m == WindowWeight(Errors, history, nowSec - 59, nowSec)
            && (forall k | 0 <= k < BUCKET_COUNT ::
                  out.reqsPerSec[k] == WeightAt(Requests, history, nowSec - 59 + k)))
      && (Positive(history) && MaxSec(history) <= nowSec ==> SumOf(out.reqsPerSec) == out.reqsLast1m)
      && out.errsLast1m <= out.reqsLast1m <= Mass(out.statusCounts)
      && (history == [] ==> out.p50 == out.p95 == out.p99 == 0)
      && (history != [] ==>
            && IsPercentile(LastLatencies(history), 50, out.p50)
            && IsPercentile(LastLatencies(history), 95, out.p95)
            && IsPercentile(LastLatencies(history), 99, out.p99)
            && IsRecentLatency(history, out.p50)
            && IsRecentLatency(history, out.p95)
            && IsRecentLatency(history, out.p99))
      && out.p50 <= out.p95 <= out.p99
      && IsHistogram(out.statusCounts, history)
    }

    /** Before second 59 the series would index outside the ring. */
    method Snapshot(nowSec: int) returns (out: Snapshot)
      requires Valid() && nowSec >= 59
      ensures Reports(out, nowSec)
    {
      var reqs, bytes, errs := LastMinute(nowSec);
      var series := PerSecond(nowSec);
      var p50, p95, p99 := LatencyPercentiles();
      out := SnapshotOf(totalRequests, totalBytes, totalErrors, reqs, bytes, errs, series,
                        p50, p95, p99, statusCounts);
      hide Ring, SlotTotal, Total, KeepsWindow, MaxSec, IsHistogram, LatencyHolds, IsPercentile, LastLatencies,
        IsRecentLatency;
      TotalRequestsIsLength(history);
      HistogramMass(statusCounts, history);
      ErrorsWithinRequests(history, nowSec);
      WindowWithinTotal(history, nowSec);
      if history != [] {
        PercentileIsRecent(history, 50, p50);
        PercentileIsRecent(history, 95, p95);
        PercentileIsRecent(history, 99, p99);
      }
      if Positive(history) && MaxSec(history) <= nowSec {
        SeriesTotal(history, nowSec, series);
        if KeepsWindow(history) {
          WindowReported(history, nowSec, series);
        }
      }
    }

    method LastMinute(nowSec: int) returns (reqs: nat, bytes: nat, errs: nat)
      requires Valid()
      ensures reqs == SlotTotal(Requests, Ring(history), nowSec, BUCKET_COUNT)
      ensures bytes == SlotTotal(Bytes, Ring(history), nowSec, BUCKET_COUNT)
      ensures errs == SlotTotal(Errors, Ring(history), nowSec, BUCKET_COUNT)
    {
      hide Ring, IsHistogram, LatencyHolds, Total;
      reqs, bytes, errs := 0, 0, 0;
      for i := 0 to BUCKET_COUNT
        invariant reqs == SlotTotal(Requests, buckets[..], nowSec, i)
        invariant bytes == SlotTotal(Bytes, buckets[..], nowSec, i)
        invariant errs == SlotTotal(Errors, buckets[..], nowSec, i)
      {
        var b := buckets[i];
        if b.tsUnix == 0 || nowSec - b.tsUnix >= BUCKET_COUNT {
          continue;
        }
        reqs := reqs + b.reqs;
        bytes := bytes + b.bytes;
        errs := errs + b.errors;
      }
    }

    method PerSecond(nowSec: int) returns (series: seq<nat>)
      requires Valid() && nowSec >= 59
      ensures |series| == BUCKET_COUNT
      ensures forall k | 0 <= k < BUCKET_COUNT :: series[k] == SeriesAt(Ring(history), nowSec - 59 + k)
    {
      hide Ring, IsHistogram, LatencyHolds, Total;
      series := [];
      for offset := 0 to BUCKET_COUNT
        invariant |series| == offset
        invariant forall k | 0 <= k < offset :: series[k] == SeriesAt(buckets[..], nowSec - 59 + k)
      {
        var ts := nowSec - (BUCKET_COUNT - 1 - offset);
        var b := buckets[ts % BUCKET_COUNT];
        series := series + [if b.tsUnix == ts then b.reqs else 0];
      }
    }

    method LatencyPercentiles() returns (p50: nat, p95: nat, p99: nat)
      requires Valid()
      ensures history == [] ==> p50 == p95 == p99 == 0
      ensures history != [] ==>
                && IsPercentile(LastLatencies(history), 50, p50)
                && IsPercentile(LastLatencies(history), 95, p95)
                && IsPercentile(LastLatencies(history), 99, p99)
      ensures p50 <= p95 <= p99
    {
      p50, p95, p99 := 0, 0, 0;
      if latencyN > 0 {
        var buf := Sorted(latency[..latencyN]);
        p50 := Pct(buf, 50);
        p95 := Pct(buf, 95);
        p99 := Pct(buf, 99);
        hide Ring, IsHistogram, Total, IsPercentile;
        ghost var used, last := latency[..latencyN], LastLatencies(history);
        assert latency[..][..latencyN] == used;
        RingHoldsLastLatencies(latency[..], latencyIdx, latencyN, history);
        hide LatencyHolds;
        PctIsPercentile(used, 50);
        PctIsPercentile(used, 95);
        PctIsPercentile(used, 99);
        PercentileOfPermutation(used, last, 50, p50);
        PercentileOfPermutation(used, last, 95, p95);
        PercentileOfPermutation(used, last, 99, p99);
        PercentilesOrdered(used, 50, 95, p50, p95);
        PercentilesOrdered(used, 95, 99, p95, p99);
      }
    }
  }

  ghost function SumOf(s: seq<nat>): nat {
    if s == [] then 0 else SumOf(s[..|s| - 1]) + s[|s| - 1]
  }

  lemma {:induction false} SumOfIsSum(s: seq<nat>, f: int -> int)
    requires forall k | 0 <= k < |s| :: s[k] == f(k)
    ensures SumOf(s) == Sum(f, 0, |s|)
    decreases |s|
  {
    if s == [] {
    } else {
      SumOfIsSum(s[..|s| - 1], f);
    }
  }

  /** The series adds up to the requests of the last minute, whether or not samples arrived
      in order. */
  lemma SeriesTotal(h: seq<Entry>, now: int, series: seq<nat>)
    requires Positive(h) && MaxSec(h) <= now && now >= 59 && |series| == BUCKET_COUNT
    requires forall k | 0 <= k < BUCKET_COUNT :: series[k] == SeriesAt(Ring(h), now - 59 + k)
    ensures SumOf(series) == SlotTotal(Requests, Ring(h), now, BUCKET_COUNT)
  {
    hide Ring, SeriesAt, SumOf, Sum, MaxSec;
    SlotsInPlace(h);
    SeriesSumsToWindow(Ring(h), now);
    SumOfIsSum(series, Series(Ring(h), now));
  }

  lemma PercentileOfPermutation(a: seq<nat>, b: seq<nat>, p: nat, v: nat)
    requires multiset(a) == multiset(b) && IsPercentile(a, p, v)
    ensures IsPercentile(b, p, v)
  {
    CountsOfPermutation(a, b, v);
    assert |multiset(a)| == |multiset(b)|;
    assert v in multiset(a);
  }

  lemma {:induction false} TotalRequestsIsLength(h: seq<Entry>)
    ensures Total(Requests, h) == |h|
    decreases |h|
  {
    if h == [] {
    } else {
      TotalRequestsIsLength(h[..|h| - 1]);
    }
  }

  lemma StepAll(h: seq<Entry>, e: Entry)
    ensures Ring(h + [e]) == Ring(h)[e.sec % BUCKET_COUNT := Observe(Ring(h)[e.sec % BUCKET_COUNT], e)]
    ensures forall m :: Total(m, h + [e]) == Total(m, h) + Weight(m, e.sample)
  {
    assert (h + [e])[..|h|] == h;
  }
}
