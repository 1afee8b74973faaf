/** The per-key token bucket of internal/proxy/ratelimit.go.

    Times are integer nanoseconds and tokens are scaled by NANOS, so that a refill of
    `elapsed` nanoseconds at `rps` tokens a second is exactly `elapsed * rps`. */
module RateLimit {
  const NANOS: int := 1_000_000_000

  /** One decided call, in the order in which calls obtain the lock. */
  datatype Call = Call(key: string, time: int, ok: bool)

  datatype TokenBucket = TokenBucket(tokens: int, last: int)

  // ---------------------------------------------------------------------------
  // The full-log specification
  // ---------------------------------------------------------------------------

  /** The calls of one key, in lock order. */
  ghost function CallsOf(trace: seq<Call>, key: string): seq<Call> {
    if trace == [] then []
    else
      var rest := CallsOf(trace[..|trace| - 1], key);
      var c := trace[|trace| - 1];
      if c.key == key then rest + [c] else rest
  }

  ghost function Admitted(calls: seq<Call>): nat {
    if calls == [] then 0
    else Admitted(calls[..|calls| - 1]) + if calls[|calls| - 1].ok then 1 else 0
  }

  /** What is left, at time `now`, of the budget of the window that starts at call `i`
      (the window that starts now is `i == |calls|`). */
  ghost function Slack(rps: int, cap: int, calls: seq<Call>, i: nat, now: int): int
    requires i <= |calls|
  {
    var start := if i == |calls| then now else calls[i].time;
    (cap - Admitted(calls[i..])) * NANOS + rps * (now - start)
  }

  /** One more admission at `now` fits the budget of every window ending now. */
  ghost predicate WithinBudget(rps: int, cap: int, calls: seq<Call>, now: int) {
    forall i: nat | i <= |calls| :: Slack(rps, cap, calls, i, now) >= NANOS
  }

  /** That is: counting this call, no window that starts at an earlier call of the key, or now,
      has seen more admissions than the capacity and the rate allow for its length. */
  lemma WithinBudgetIff(rps: int, cap: int, calls: seq<Call>, now: int)
    ensures WithinBudget(rps, cap, calls, now)
            <==> && 1 <= cap
                 && forall i | 0 <= i < |calls| ::
                      (Admitted(calls[i..]) + 1) * 1_000_000_000 <= cap * 1_000_000_000 + rps * (now - calls[i].time)
  {
    hide Admitted;
    assert calls[|calls|..] == [] && Slack(rps, cap, calls, |calls|, now) == (cap - Admitted([])) * NANOS;
    NothingAdmitted();
    forall i: nat | i < |calls|
      ensures Slack(rps, cap, calls, i, now) >= NANOS
              <==> (Admitted(calls[i..]) + 1) * 1_000_000_000 <= cap * 1_000_000_000 + rps * (now - calls[i].time)
    {
    }
    if WithinBudget(rps, cap, calls, now) {
      assert Slack(rps, cap, calls, |calls|, now) >= NANOS;
      forall i: nat | i < |calls|
        ensures Slack(rps, cap, calls, i, now) >= NANOS
      {
      }
    }
  }

  lemma NothingAdmitted()
    ensures Admitted([]) == 0
  {
  }

  /** Admissions are counted call by call. */
  lemma AdmittedAppend(calls: seq<Call>, c: Call)
    ensures Admitted([]) == 0
    ensures Admitted(calls + [c]) == Admitted(calls) + if c.ok then 1 else 0
  {
    assert (calls + [c])[..|calls|] == calls;
  }

  /** Every call of this one-key log was decided by the full-log rule. */
  ghost predicate Decided(rps: int, cap: int, calls: seq<Call>) {
    forall j: nat | j < |calls| ::
      calls[j].ok <==> WithinBudget(rps, cap, calls[..j], calls[j].time)
  }

  // ---------------------------------------------------------------------------
  // The two-number summary
  // ---------------------------------------------------------------------------

  function Min(a: int, b: int): int { if a < b then a else b }

  /** Tokens after the refill at `now` and before the decision. */
  ghost function Refilled(rps: int, cap: int, calls: seq<Call>, now: int): int
    decreases |calls|, 1
  {
    if calls == [] then cap * NANOS
    else Min(cap * NANOS, Left(rps, cap, calls) + (now - calls[|calls| - 1].time) * rps)
  }

  /** Tokens left after the last call of a non-empty log. */
  ghost function Left(rps: int, cap: int, calls: seq<Call>): int
    requires calls != []
    decreases |calls|, 0
  {
    var c := calls[|calls| - 1];
    Refilled(rps, cap, calls[..|calls| - 1], c.time) - if c.ok then NANOS else 0
  }

  lemma AdmittedDrop(calls: seq<Call>, i: nat)
    requires i < |calls|
    ensures calls[i..] != []
    ensures calls[i..][..|calls| - i - 1] == calls[..|calls| - 1][i..]
    ensures Admitted(calls[i..]) == Admitted(calls[..|calls| - 1][i..]) + if calls[|calls| - 1].ok then 1 else 0
  {
    assert calls[i..][..|calls| - i - 1] == calls[..|calls| - 1][i..];
  }

  /** A later window end shifts every slack by the same amount. */
  lemma SlackStep(rps: int, cap: int, calls: seq<Call>, i: nat, now: int)
    requires i < |calls|
    ensures var c := calls[|calls| - 1];
            Slack(rps, cap, calls, i, now)
            == Slack(rps, cap, calls[..|calls| - 1], i, c.time) - (if c.ok then NANOS else 0) + (now - c.time) * rps
  {
    AdmittedDrop(calls, i);
    var c := calls[|calls| - 1];
    var start := calls[i].time;
    assert rps * (now - start) == rps * (c.time - start) + (now - c.time) * rps;
  }

  /** The two numbers kept per key are the minimum of the slacks over the whole log. */
  lemma {:induction false} RefilledIsLeastSlack(rps: int, cap: int, calls: seq<Call>, now: int)
    ensures forall i: nat | i <= |calls| :: Refilled(rps, cap, calls, now) <= Slack(rps, cap, calls, i, now)
    ensures exists i: nat :: i <= |calls| && Refilled(rps, cap, calls, now) == Slack(rps, cap, calls, i, now)
    decreases |calls|
  {
    assert calls[|calls|..] == [];
    assert Slack(rps, cap, calls, |calls|, now) == cap * NANOS;
    if calls == [] {
    } else {
      var c := calls[|calls| - 1];
      var before := calls[..|calls| - 1];
      RefilledIsLeastSlack(rps, cap, before, c.time);
      forall i: nat | i < |calls|
        ensures Slack(rps, cap, calls, i, now)
                == Slack(rps, cap, before, i, c.time) - (if c.ok then NANOS else 0) + (now - c.time) * rps
      {
        SlackStep(rps, cap, calls, i, now);
      }
      var i: nat :| i <= |before| && Refilled(rps, cap, before, c.time) == Slack(rps, cap, before, i, c.time);
      assert Slack(rps, cap, calls, i, now) == Left(rps, cap, calls) + (now - c.time) * rps;
    }
  }

  /** Comparing the refilled tokens with one token decides exactly as the full log does. */
  lemma BucketDecidesAsLog(rps: int, cap: int, calls: seq<Call>, now: int)
    ensures Refilled(rps, cap, calls, now) >= NANOS <==> WithinBudget(rps, cap, calls, now)
  {
    RefilledIsLeastSlack(rps, cap, calls, now);
    var i: nat :| i <= |calls| && Refilled(rps, cap, calls, now) == Slack(rps, cap, calls, i, now);
  }

  /** The stored pair stands for the whole log of a key. */
  ghost predicate Summarises(rps: int, cap: int, tb: TokenBucket, calls: seq<Call>) {
    && calls != []
    && tb.last == calls[|calls| - 1].time
    && tb.tokens == Left(rps, cap, calls)
  }

  // ---------------------------------------------------------------------------
  // The limiter
  // ---------------------------------------------------------------------------

  class Limiter {
    const rps: int
    /** Bucket capacity: the sustained rate plus the configured burst. */
    const burst: int
    var bs: map<string, TokenBucket>
    ghost var trace: seq<Call>

    ghost predicate Valid()
      reads this
    {
      && rps > 0
      && burst >= rps
      && (forall k: string :: k in bs <==> CallsOf(trace, k) != [])
      && (forall k: string | k in bs :: Summarises(rps, burst, bs[k], CallsOf(trace, k)))
      && (forall k: string :: Decided(rps, burst, CallsOf(trace, k)))
    }

    constructor (rps: int, burst: int)
      requires rps > 0 && burst >= rps
      ensures Valid()
      ensures this.rps == rps && this.burst == burst && trace == []
    {
      this.rps, this.burst := rps, burst;
      bs := map[];
      trace := [];
    }

    /** The decision is the full-log rule on this key's own calls; the trace grows by this
        call only, so calls of other keys have no influence. `now` was read before the lock
        was taken and may lie before the times already seen. */
    method Allow(key: string, now: int) returns (ok: bool)
      requires Valid()
      modifies this
      ensures Valid()
      ensures ok <==> WithinBudget(rps, burst, CallsOf(old(trace), key), now)
      ensures var calls := CallsOf(old(trace), key);
              ok <==> && 1 <= burst
                      && forall i | 0 <= i < |calls| ::
                           (Admitted(calls[i..]) + 1) * 1_000_000_000 <= burst * 1_000_000_000 + rps * (now - calls[i].time)
      ensures trace == old(trace) + [Call(key, now, ok)]
    {
      WithinBudgetIff(rps, burst, CallsOf(trace, key), now);
      hide Decided, WithinBudget, Summarises, Refilled, Left, CallsOf;
      ghost var calls := CallsOf(trace, key);
      BucketDecidesAsLog(rps, burst, calls, now);
      var kept: TokenBucket;
      if key !in bs {
        FirstRefill(rps, burst, now);
        kept := TokenBucket((burst - 1) * NANOS, now);
        ok := true;
      } else {
        var tb := bs[key];
        NextRefill(rps, burst, calls, tb, now);
        var elapsed := now - tb.last;
        var tokens := tb.tokens + elapsed * rps;
        if tokens > burst * NANOS {
          tokens := burst * NANOS;
        }
        ok := tokens >= NANOS;
        kept := TokenBucket(if ok then tokens - NANOS else tokens, now);
      }
      TraceGrows(rps, burst, trace, Call(key, now, ok), kept);
      bs := bs[key := kept];
      trace := trace + [Call(key, now, ok)];
    }
  }

  /** A non-positive rate disables limiting: there is no limiter at all. */
  method NewLimiter(rps: int, burst: int) returns (l: Limiter?)
    ensures l == null <==> rps <= 0
    ensures l != null ==> fresh(l) && l.Valid() && l.trace == []
    ensures l != null ==> l.rps == rps && l.burst == rps + (if burst < 0 then 0 else burst)
  {
    if rps <= 0 {
      return null;
    }
    var b := if burst < 0 then 0 else burst;
    l := new Limiter(rps, rps + b);
  }

  /** A nil limiter admits everything. */
  method Allow(l: Limiter?, key: string, now: int) returns (ok: bool)
    requires l != null ==> l.Valid()
    modifies if l == null then {} else {l}
    ensures l == null ==> ok
    ensures l != null ==> l.Valid()
    ensures l != null ==> (ok <==> WithinBudget(l.rps, l.burst, CallsOf(old(l.trace), key), now))
    ensures l != null ==> l.trace == old(l.trace) + [Call(key, now, ok)]
  {
    if l == null {
      return true;
    }
    ok := l.Allow(key, now);
  }

  lemma FirstRefill(rps: int, cap: int, now: int)
    requires cap >= 1
    ensures Refilled(rps, cap, [], now) == cap * NANOS >= NANOS
  {
  }

  lemma NextRefill(rps: int, cap: int, calls: seq<Call>, tb: TokenBucket, now: int)
    requires Summarises(rps, cap, tb, calls)
    ensures Refilled(rps, cap, calls, now) == Min(cap * NANOS, tb.tokens + (now - tb.last) * rps)
  {
  }

  /** The calls of a key are those of the trace that carry it, in its order. */
  lemma CallsGrow(trace: seq<Call>, c: Call)
    ensures forall k: string :: CallsOf([], k) == []
    ensures forall k: string :: CallsOf(trace + [c], k) == if k == c.key then CallsOf(trace, k) + [c] else CallsOf(trace, k)
  {
    assert (trace + [c])[..|trace|] == trace;
  }

  lemma DecidedGrows(rps: int, cap: int, calls: seq<Call>, c: Call)
    requires Decided(rps, cap, calls)
    ensures (c.ok <==> WithinBudget(rps, cap, calls, c.time)) ==> Decided(rps, cap, calls + [c])
  {
    hide WithinBudget;
    var all := calls + [c];
    assert all[..|calls|] == calls;
    forall j: nat | j < |calls|
      ensures all[j].ok <==> WithinBudget(rps, cap, all[..j], all[j].time)
    {
      assert all[..j] == calls[..j];
    }
  }

  lemma SummaryGrows(rps: int, cap: int, calls: seq<Call>, c: Call, tb: TokenBucket)
    requires tb.last == c.time && tb.tokens == Refilled(rps, cap, calls, c.time) - if c.ok then NANOS else 0
    ensures Summarises(rps, cap, tb, calls + [c])
  {
    assert (calls + [c])[..|calls|] == calls;
  }

  lemma TraceGrows(rps: int, cap: int, trace: seq<Call>, c: Call, tb: TokenBucket)
    requires forall k: string :: Decided(rps, cap, CallsOf(trace, k))
    requires c.ok <==> WithinBudget(rps, cap, CallsOf(trace, c.key), c.time)
    requires tb.last == c.time
    requires tb.tokens == Refilled(rps, cap, CallsOf(trace, c.key), c.time) - if c.ok then NANOS else 0
    ensures forall k: string | k != c.key :: CallsOf(trace + [c], k) == CallsOf(trace, k)
    ensures forall k: string :: Decided(rps, cap, CallsOf(trace + [c], k))
    ensures CallsOf(trace + [c], c.key) != []
    ensures Summarises(rps, cap, tb, CallsOf(trace + [c], c.key))
  {
    hide CallsOf, Decided, WithinBudget, Refilled, Summarises;
    CallsGrow(trace, c);
    DecidedGrows(rps, cap, CallsOf(trace, c.key), c);
    SummaryGrows(rps, cap, CallsOf(trace, c.key), c, tb);
  }

  // ---------------------------------------------------------------------------
  // What the rule guarantees
  // ---------------------------------------------------------------------------

  /** Admissions from call `i` up to an admitted call `j` fit the window between them,
      whatever order the clock readings come in. */
  lemma AdmissionsFitWindow(rps: int, cap: int, calls: seq<Call>, i: nat, j: nat)
    requires Decided(rps, cap, calls)
    requires i <= j < |calls| && calls[j].ok
    ensures Admitted(calls[i..j + 1]) * NANOS <= cap * NANOS + rps * (calls[j].time - calls[i].time)
  {
    hide Admitted;
    var before := calls[..j];
    assert Slack(rps, cap, before, i, calls[j].time) >= NANOS by {
      assert WithinBudget(rps, cap, before, calls[j].time);
    }
    hide Decided, WithinBudget;
    AdmittedDrop(calls[..j + 1], i);
    assert calls[..j + 1][i..] == calls[i..j + 1];
    assert calls[..j + 1][..j] == before;
    assert i < j ==> before[i] == calls[i];
  }

  ghost predicate Ordered(calls: seq<Call>) {
    forall i, j | 0 <= i < j < |calls| :: calls[i].time <= calls[j].time
  }

  /** With ordered clock readings the bound holds for every window of consecutive calls. */
  lemma {:induction false} OrderedAdmissionsFitWindow(rps: int, cap: int, calls: seq<Call>, i: nat, j: nat)
    requires rps > 0 && cap >= 0
    requires i < j <= |calls|
    requires Decided(rps, cap, calls) && Ordered(calls[i..j])
    ensures Admitted(calls[i..j]) * NANOS <= cap * NANOS + rps * (calls[j - 1].time - calls[i].time)
    decreases j
  {
    hide Decided;
    var last := calls[j - 1];
    var window := calls[i..j];
    assert window[0] == calls[i] && window[j - 1 - i] == last;
    if last.ok {
      AdmissionsFitWindow(rps, cap, calls, i, j - 1);
    } else {
      var shorter := calls[i..j - 1];
      assert window[..j - 1 - i] == shorter;
      assert Admitted(window) == Admitted(shorter);
      if i < j - 1 {
        assert window[j - 2 - i] == calls[j - 2];
        OrderedAdmissionsFitWindow(rps, cap, calls, i, j - 1);
        Widen(rps, cap, Admitted(shorter), calls[j - 2].time - calls[i].time, last.time - calls[i].time);
      } else {
        Widen(rps, cap, 0, 0, last.time - calls[i].time);
      }
    }
  }

  lemma Widen(rps: int, cap: int, a: int, x: int, y: int)
    requires rps >= 0 && x <= y
    requires a * NANOS <= cap * NANOS + rps * x
    ensures a * NANOS <= cap * NANOS + rps * y
  {
    Scale(rps, x, y);
  }

  lemma Scale(rps: int, x: int, y: int)
    requires rps >= 0 && x <= y
    ensures rps * x <= rps * y
  {
  }

  /** tokens - rps * last never increases, and drops by a token at each admission. */
  lemma PotentialNeverRises(rps: int, cap: int, calls: seq<Call>, c: Call)
    requires calls != []
    ensures var was := Left(rps, cap, calls) - rps * calls[|calls| - 1].time;
            var now := Left(rps, cap, calls + [c]) - rps * c.time;
            now <= was - if c.ok then NANOS else 0
  {
    assert (calls + [c])[..|calls|] == calls;
    var last := calls[|calls| - 1];
    assert (c.time - last.time) * rps == rps * c.time - rps * last.time;
  }

  /** The latest clock reading of a non-empty log. */
  ghost function Latest(calls: seq<Call>): int
    requires calls != []
  {
    var t := calls[|calls| - 1].time;
    if |calls| == 1 then t
    else
      var m := Latest(calls[..|calls| - 1]);
      if m < t then t else m
  }

  /** The last call of a decided log, seen through the two numbers. */
  lemma LastDecision(rps: int, cap: int, calls: seq<Call>)
    requires calls != [] && Decided(rps, cap, calls)
    ensures var n := |calls| - 1;
            && Decided(rps, cap, calls[..n])
            && (calls[n].ok <==> Refilled(rps, cap, calls[..n], calls[n].time) >= NANOS)
  {
    var n := |calls| - 1;
    BucketDecidesAsLog(rps, cap, calls[..n], calls[n].time);
    forall j: nat | j < n
      ensures calls[j].ok <==> WithinBudget(rps, cap, calls[..n][..j], calls[j].time)
    {
      assert calls[..n][..j] == calls[..j];
    }
  }

  /** A bucket's debt is only ever the refill it was charged for a clock reading that
      lagged behind the latest one. */
  lemma {:induction false} DebtIsLag(rps: int, cap: int, calls: seq<Call>)
    requires rps > 0 && cap >= 1 && calls != [] && Decided(rps, cap, calls)
    ensures -rps * (Latest(calls) - calls[|calls| - 1].time) <= Left(rps, cap, calls) <= cap * NANOS
    ensures Latest(calls) >= calls[|calls| - 1].time
    decreases |calls|
  {
    hide Decided;
    var n := |calls| - 1;
    var now := calls[n].time;
    LastDecision(rps, cap, calls);
    if n == 0 {
      assert -rps * (now - now) == 0;
    } else {
      var before := calls[..n];
      DebtIsLag(rps, cap, before);
      DebtStep(rps, cap * NANOS, Left(rps, cap, before), Latest(before), before[n - 1].time, now, calls[n].ok);
    }
  }

  lemma DebtStep(rps: int, full: int, left: int, m: int, last: int, now: int, ok: bool)
    requires rps > 0 && full >= NANOS
    requires -rps * (m - last) <= left
    requires ok <==> Min(full, left + (now - last) * rps) >= NANOS
    ensures -rps * ((if m < now then now else m) - now)
            <= Min(full, left + (now - last) * rps) - (if ok then NANOS else 0)
            <= full
  {
    assert -rps * (m - last) + (now - last) * rps == -rps * (m - now);
    if now <= m {
      Scale(rps, 0, m - now);
    } else {
      Scale(rps, m - now, 0);
      assert -rps * (now - now) == 0;
    }
  }

  /** Tokens stay within [-rps * D, cap] when no call lags the latest one by more than D;
      D == 0 is the case of ordered clock readings. */
  lemma TokensBounded(rps: int, cap: int, calls: seq<Call>, d: int)
    requires rps > 0 && cap >= 1 && calls != [] && Decided(rps, cap, calls)
    ensures Latest(calls) - calls[|calls| - 1].time <= d ==> -rps * d <= Left(rps, cap, calls) <= cap * NANOS
  {
    hide *;
    DebtIsLag(rps, cap, calls);
    if Latest(calls) - calls[|calls| - 1].time <= d {
      Scale(rps, Latest(calls) - calls[|calls| - 1].time, d);
    }
  }

  // ---------------------------------------------------------------------------
  // Reloads start fresh limiters
  // ---------------------------------------------------------------------------

  ghost function AdmittedBetween(calls: seq<Call>, lo: int, hi: int): nat {
    if calls == [] then 0
    else
      var c := calls[|calls| - 1];
      AdmittedBetween(calls[..|calls| - 1], lo, hi) + if c.ok && lo <= c.time <= hi then 1 else 0
  }

  /** One key's calls over successive limiters. */
  ghost function Joined(logs: seq<seq<Call>>): seq<Call> {
    if logs == [] then [] else Joined(logs[..|logs| - 1]) + logs[|logs| - 1]
  }

  /** Admissions in a window of time are counted call by call. */
  lemma BetweenAdds(calls: seq<Call>, c: Call, lo: int, hi: int)
    ensures AdmittedBetween([], lo, hi) == 0
    ensures AdmittedBetween(calls + [c], lo, hi)
            == AdmittedBetween(calls, lo, hi) + if c.ok && c.time >= lo && c.time <= hi then 1 else 0
  {
    assert (calls + [c])[..|calls|] == calls;
  }

  lemma {:induction false} BetweenAppend(a: seq<Call>, b: seq<Call>, lo: int, hi: int)
    ensures AdmittedBetween(a + b, lo, hi) == AdmittedBetween(a, lo, hi) + AdmittedBetween(b, lo, hi)
    decreases |b|
  {
    if b == [] {
      assert a + b == a;
    } else {
      assert (a + b)[..|a + b| - 1] == a + b[..|b| - 1];
      BetweenAppend(a, b[..|b| - 1], lo, hi);
    }
  }

  lemma {:induction false} SameBetween(calls: seq<Call>, lo: int, hi: int, lo': int, hi': int)
    requires forall c | c in calls :: lo <= c.time <= hi <==> lo' <= c.time <= hi'
    ensures AdmittedBetween(calls, lo, hi) == AdmittedBetween(calls, lo', hi')
    decreases |calls|
  {
    if calls == [] {
    } else {
      assert calls[|calls| - 1] in calls;
      SameBetween(calls[..|calls| - 1], lo, hi, lo', hi');
    }
  }

  lemma {:induction false} NoneBetween(calls: seq<Call>, lo: int, hi: int)
    requires forall c | c in calls :: c.time < lo
    ensures AdmittedBetween(calls, lo, hi) == 0
    decreases |calls|
  {
    if calls == [] {
    } else {
      assert calls[|calls| - 1] in calls;
      NoneBetween(calls[..|calls| - 1], lo, hi);
    }
  }

  /** Of ordered calls the last of which is in the window, those in it are the ones from i on. */
  lemma {:induction false} WindowStart(calls: seq<Call>, lo: int, hi: int) returns (i: nat)
    requires calls != [] && Ordered(calls) && lo <= calls[|calls| - 1].time <= hi
    ensures i < |calls| && lo <= calls[i].time
    ensures AdmittedBetween(calls, lo, hi) == Admitted(calls[i..])
    decreases |calls|
  {
    var n := |calls| - 1;
    if n > 0 && calls[n - 1].time >= lo {
      i := WindowStart(calls[..n], lo, hi);
      AdmittedDrop(calls, i);
    } else {
      i := n;
      NoneBetween(calls[..n], lo, hi);
      assert calls[n..] == [calls[n]] && [calls[n]][..0] == [];
    }
  }

  lemma WindowEndingFits(rps: int, cap: int, calls: seq<Call>, lo: int, hi: int)
    requires rps > 0 && cap >= 0 && calls != [] && lo <= calls[|calls| - 1].time <= hi
    requires Decided(rps, cap, calls) && Ordered(calls)
    ensures AdmittedBetween(calls, lo, hi) * NANOS <= cap * NANOS + rps * (hi - lo)
  {
    hide Decided, AdmittedBetween, Admitted;
    var n := |calls| - 1;
    var i := WindowStart(calls, lo, hi);
    assert calls[i..n + 1] == calls[i..];
    OrderedAdmissionsFitWindow(rps, cap, calls, i, n + 1);
    Widen(rps, cap, Admitted(calls[i..]), calls[n].time - calls[i].time, hi - lo);
  }

  /** One limiter admits at most its capacity plus the sustained rate in any window of time. */
  lemma {:induction false} OneLimiterFits(rps: int, cap: int, calls: seq<Call>, lo: int, hi: int)
    requires rps > 0 && cap >= 0 && lo <= hi
    requires Decided(rps, cap, calls) && Ordered(calls)
    ensures AdmittedBetween(calls, lo, hi) * NANOS <= cap * NANOS + rps * (hi - lo)
    decreases |calls|
  {
    hide Decided;
    var n := |calls| - 1;
    if calls == [] {
      Widen(rps, cap, 0, 0, hi - lo);
    } else if lo <= calls[n].time <= hi {
      WindowEndingFits(rps, cap, calls, lo, hi);
    } else {
      LastDecision(rps, cap, calls);
      assert AdmittedBetween(calls, lo, hi) == AdmittedBetween(calls[..n], lo, hi);
      OneLimiterFits(rps, cap, calls[..n], lo, hi);
    }
  }

  function Clamp(t: int, lo: int, hi: int): int {
    if t < lo then lo else if t > hi then hi else t
  }

  /** The calls of the last limiter come after those of the earlier ones. */
  lemma WindowSplits(before: seq<Call>, last: seq<Call>, lo: int, hi: int)
    requires lo <= hi && last != [] && Ordered(before + last)
    ensures Ordered(before) && Ordered(last)
    ensures var m := Clamp(last[0].time, lo, hi);
            AdmittedBetween(before + last, lo, hi) == AdmittedBetween(before, lo, m) + AdmittedBetween(last, m, hi)
  {
    hide AdmittedBetween;
    var m := Clamp(last[0].time, lo, hi);
    var all := before + last;
    assert forall i | 0 <= i < |before| :: all[i] == before[i];
    assert forall i | 0 <= i < |last| :: all[|before| + i] == last[i];
    BetweenAppend(before, last, lo, hi);
    SameBetween(before, lo, hi, lo, m);
    SameBetween(last, lo, hi, m, hi);
  }

  lemma AddBudget(rps: int, cap: int, a: int, b: int, g: int, x: int, y: int)
    requires a * NANOS <= g * cap * NANOS + rps * x
    requires b * NANOS <= cap * NANOS + rps * y
    ensures (a + b) * NANOS <= (g + 1) * cap * NANOS + rps * (x + y)
  {
  }

  lemma OneMore(rps: int, cap: int, a: int, g: int, x: int)
    requires cap >= 0 && a * NANOS <= g * cap * NANOS + rps * x
    ensures a * NANOS <= (g + 1) * cap * NANOS + rps * x
  {
    assert (g + 1) * cap == g * cap + cap;
  }

  /** Over n successive limiters of one configuration, used one after the other with ordered
      clock readings, any window of time sees at most n capacities plus the sustained rate. */
  lemma {:induction false} LimitersAddBursts(rps: int, cap: int, logs: seq<seq<Call>>, lo: int, hi: int)
    requires rps > 0 && cap >= 0 && lo <= hi
    requires forall calls | calls in logs :: Decided(rps, cap, calls)
    requires Ordered(Joined(logs))
    ensures AdmittedBetween(Joined(logs), lo, hi) * NANOS <= |logs| * cap * NANOS + rps * (hi - lo)
    decreases |logs|
  {
    hide Decided, AdmittedBetween;
    if logs == [] {
      NoneBetween([], lo, hi);
      Scale(rps, 0, hi - lo);
    } else {
      var n := |logs| - 1;
      var before, last := Joined(logs[..n]), logs[n];
      assert last in logs;
      if last == [] {
        assert before + last == before;
        LimitersAddBursts(rps, cap, logs[..n], lo, hi);
        OneMore(rps, cap, AdmittedBetween(before, lo, hi), n, hi - lo);
      } else {
        var m := Clamp(last[0].time, lo, hi);
        WindowSplits(before, last, lo, hi);
        LimitersAddBursts(rps, cap, logs[..n], lo, m);
        OneLimiterFits(rps, cap, last, m, hi);
        AddBudget(rps, cap, AdmittedBetween(before, lo, m), AdmittedBetween(last, m, hi), n, m - lo, hi - m);
      }
    }
  }
}
