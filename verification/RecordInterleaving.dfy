/** Site.Record and Site.Snapshot as their separate atomic steps, run by any number of
    goroutines in any order, internal/metrics/metrics.go. */
module RecordInterleaving {
  import opened Metrics
  import opened MetricsSite

  /** Where a goroutine is in Record (the first four after Idle) or in Snapshot. */
  datatype Phase =
    | Idle
    | Counted(sm: Sample)
    | Sized(sm: Sample)
    | Classified(sm: Sample)
    | Timed(e: Entry)
    | LoadedRequests(reqs: nat)
    | LoadedBytes(reqs: nat, bytes: nat)
    | LoadedErrors(reqs: nat, bytes: nat, errs: nat, begun: nat)

  /** A finished snapshot: the totals as loaded and the state seen under the lock; the number of
      Record calls, and of their errors, that were added and not yet locked in at that moment;
      how many Record calls began between the loads of the request and the error total; and
      how many requests and errors were added between each load and the lock. */
  datatype View = View(
    totalRequests: nat, totalBytes: nat, totalErrors: nat,
    history: seq<Entry>, statusCounts: map<int, nat>, now: int,
    inFlight: nat, failing: nat, begunBetween: nat, begunSince: nat, failedSince: nat)

  datatype State = State(
    totalRequests: nat, totalBytes: nat, totalErrors: nat,
    history: seq<Entry>, statusCounts: map<int, nat>,
    threads: seq<Phase>, views: seq<View>)

  datatype Input = BeginRecord(sm: Sample) | BeginSnapshot | Clock(now: int) | Proceed

  /** Goroutine t takes its next step, fed with the sample or clock reading it needs. */
  datatype Action = Action(t: nat, input: Input)

  function Move(s: State, t: nat, p: Phase): State
    requires t < |s.threads|
  {
    s.(threads := s.threads[t := p])
  }

  function Gap(later: nat, earlier: nat): nat {
    if later >= earlier then later - earlier else 0
  }

  /** What a snapshot with these loaded totals sees under the lock. */
  function Seen(s: State, r: nat, b: nat, errs: nat, begun: nat, now: int): View {
    View(r, b, errs, s.history, s.statusCounts, now,
         Pending(Requests, s.threads), Pending(Errors, s.threads), begun,
         Gap(s.totalRequests, r), Gap(s.totalErrors, errs))
  }

  /** One step; an action that is not possible in the current state changes nothing. */
  function Step(s: State, a: Action): State {
    if a.t >= |s.threads| then s
    else
      match (s.threads[a.t], a.input)
      case (Idle, BeginRecord(sm)) =>
        Move(s, a.t, Counted(sm)).(totalRequests := s.totalRequests + 1)
      case (Counted(sm), Proceed) =>
        Move(s, a.t, Sized(sm)).(totalBytes := s.totalBytes + Weight(Bytes, sm))
      case (Sized(sm), Proceed) =>
        Move(s, a.t, Classified(sm)).(totalErrors := s.totalErrors + Weight(Errors, sm))
      case (Classified(sm), Clock(sec)) =>
        Move(s, a.t, Timed(Entry(sec, sm)))
      case (Timed(e), Proceed) =>
        Move(s, a.t, Idle).(history := s.history + [e], statusCounts := Bump(s.statusCounts, e.sample.status))
      case (Idle, BeginSnapshot) =>
        Move(s, a.t, LoadedRequests(s.totalRequests))
      case (LoadedRequests(r), Proceed) =>
        Move(s, a.t, LoadedBytes(r, s.totalBytes))
      case (LoadedBytes(r, b), Proceed) =>
        Move(s, a.t, LoadedErrors(r, b, s.totalErrors, Gap(s.totalRequests, r)))
      case (LoadedErrors(r, b, errs, begun), Clock(now)) =>
        Move(s, a.t, Idle).(views := s.views + [Seen(s, r, b, errs, begun, now)])
      case _ => s
  }

  function Initial(n: nat): State {
    State(0, 0, 0, [], map[], seq(n, _ => Idle), [])
  }

  function Run(s: State, actions: seq<Action>): State
    decreases |actions|
  {
    if actions == [] then s else Run(Step(s, actions[0]), actions[1..])
  }

  /** What a goroutine has added to a total without having entered its locked section. */
  function Ahead(m: Measure, p: Phase): nat {
    match p
    case Counted(sm) => if m == Requests then 1 else 0
    case Sized(sm) => if m == Errors then 0 else Weight(m, sm)
    case Classified(sm) => Weight(m, sm)
    case Timed(e) => Weight(m, e.sample)
    case _ => 0
  }

  function Pending(m: Measure, threads: seq<Phase>): nat {
    if threads == [] then 0 else Ahead(m, threads[0]) + Pending(m, threads[1..])
  }

  function TotalOf(m: Measure, s: State): nat {
    match m
    case Requests => s.totalRequests
    case Bytes => s.totalBytes
    case Errors => s.totalErrors
  }

  function ErrorCounts(counts: map<int, nat>): map<int, nat> {
    map k | k in counts && (k >= 500 || k == 0) :: counts[k]
  }

  ghost predicate ViewOk(v: View) {
    && IsHistogram(v.statusCounts, v.history)
    && Mass(ErrorCounts(v.statusCounts)) == Total(Errors, v.history)
    && v.totalRequests + v.begunSince == |v.history| + v.inFlight
    && v.totalErrors + v.failedSince == Total(Errors, v.history) + v.failing
    && v.totalErrors <= v.totalRequests + v.begunBetween
  }

  ghost predicate PhaseOk(p: Phase, s: State) {
    match p
    case LoadedRequests(r) => r <= s.totalRequests
    case LoadedBytes(r, b) => r <= s.totalRequests
    case LoadedErrors(r, b, errs, begun) => r <= s.totalRequests && errs <= s.totalErrors && errs <= r + begun
    case _ => true
  }

  ghost predicate Inv(s: State) {
    && (forall m :: TotalOf(m, s) == Total(m, s.history) + Pending(m, s.threads))
    && IsHistogram(s.statusCounts, s.history)
    && Mass(ErrorCounts(s.statusCounts)) == Total(Errors, s.history)
    && (forall p | p in s.threads :: PhaseOk(p, s))
    && (forall v | v in s.views :: ViewOk(v))
  }

  // ---------------------------------------------------------------------------
  // The invariant
  // ---------------------------------------------------------------------------

  lemma {:induction false} PendingUpdate(m: Measure, threads: seq<Phase>, t: nat, p: Phase)
    requires t < |threads|
    ensures Pending(m, threads[t := p]) == Pending(m, threads) - Ahead(m, threads[t]) + Ahead(m, p)
    decreases t
  {
    if t == 0 {
      assert threads[t := p][1..] == threads[1..];
    } else {
      assert threads[t := p][1..] == threads[1..][t - 1 := p];
      PendingUpdate(m, threads[1..], t - 1, p);
    }
  }

  lemma {:induction false} ErrorsAreRequests(h: seq<Entry>, threads: seq<Phase>)
    ensures Total(Errors, h) <= Total(Requests, h)
    ensures Pending(Errors, threads) <= Pending(Requests, threads)
    decreases |h| + |threads|
  {
    if h != [] {
      ErrorsAreRequests(h[..|h| - 1], threads);
    } else if threads != [] {
      ErrorsAreRequests(h, threads[1..]);
    }
  }

  lemma ErrorCountsBump(counts: map<int, nat>, k: int)
    ensures Mass(ErrorCounts(Bump(counts, k)))
            == Mass(ErrorCounts(counts)) + if k >= 500 || k == 0 then 1 else 0
  {
    if k >= 500 || k == 0 {
      assert ErrorCounts(Bump(counts, k)) == Bump(ErrorCounts(counts), k);
      MassBump(ErrorCounts(counts), k);
    } else {
      assert ErrorCounts(Bump(counts, k)) == ErrorCounts(counts);
    }
  }

  /** A step replaces the phase of its goroutine and touches the history only to lock in. */
  lemma StepShape(s: State, a: Action)
    requires a.t < |s.threads|
    ensures var s' := Step(s, a);
            && |s'.threads| == |s.threads| && s'.threads == s.threads[a.t := s'.threads[a.t]]
            && (s'.history == s.history || (s.threads[a.t].Timed? && s'.history == s.history + [s.threads[a.t].e]))
  {
    hide Pending, Bump, Weight, Seen, Gap;
    assert s.threads == s.threads[a.t := s.threads[a.t]];
    assert s.threads == Step(s, a).threads || Step(s, a).threads == s.threads[a.t := Step(s, a).threads[a.t]];
  }

  /** It moves weight between a total, the goroutine ahead of its lock and the history. */
  ghost predicate MovesWeight(m: Measure, s: State, a: Action, s': State) {
    && a.t < |s.threads| == |s'.threads|
    && TotalOf(m, s') + Ahead(m, s.threads[a.t])
       == TotalOf(m, s) + Ahead(m, s'.threads[a.t])
          + if s'.history != s.history && s.threads[a.t].Timed? then Weight(m, s.threads[a.t].e.sample) else 0
  }

  lemma StepMovesRequests(s: State, a: Action)
    requires a.t < |s.threads|
    ensures MovesWeight(Requests, s, a, Step(s, a))
  {
    hide Pending, Bump, Seen, Gap;
  }

  lemma StepMovesBytes(s: State, a: Action)
    requires a.t < |s.threads|
    ensures MovesWeight(Bytes, s, a, Step(s, a))
  {
    hide Pending, Bump, Seen, Gap, Weight;
  }

  lemma StepMovesErrors(s: State, a: Action)
    requires a.t < |s.threads|
    ensures MovesWeight(Errors, s, a, Step(s, a))
  {
    hide Pending, Bump, Seen, Gap, Weight;
  }

  lemma TotalHolds(m: Measure, s: State, a: Action)
    requires TotalOf(m, s) == Total(m, s.history) + Pending(m, s.threads)
    ensures var s' := Step(s, a); TotalOf(m, s') == Total(m, s'.history) + Pending(m, s'.threads)
  {
    if a.t < |s.threads| {
      hide Pending, Total, Step, Ahead, Weight, TotalOf;
      StepShape(s, a);
      match m {
        case Requests => StepMovesRequests(s, a);
        case Bytes => StepMovesBytes(s, a);
        case Errors => StepMovesErrors(s, a);
      }
      PendingUpdate(m, s.threads, a.t, Step(s, a).threads[a.t]);
      if Step(s, a).history != s.history {
        StepAll(s.history, s.threads[a.t].e);
      }
    }
  }

  lemma TotalsGrow(s: State, a: Action)
    ensures var s' := Step(s, a); s'.totalRequests >= s.totalRequests && s'.totalErrors >= s.totalErrors
  {
    hide Pending, Bump, Seen, Gap, Weight;
  }

  lemma CountsStep(s: State, a: Action)
    ensures var s' := Step(s, a);
            || (s'.history == s.history && s'.statusCounts == s.statusCounts)
            || (&& a.t < |s.threads| && s.threads[a.t].Timed? && s'.history == s.history + [s.threads[a.t].e]
                && s'.statusCounts == Bump(s.statusCounts, s.threads[a.t].e.sample.status))
  {
    hide Pending, Bump, Seen, Gap, Weight;
  }

  lemma CountsHold(s: State, a: Action)
    requires IsHistogram(s.statusCounts, s.history)
    requires Mass(ErrorCounts(s.statusCounts)) == Total(Errors, s.history)
    ensures var s' := Step(s, a);
            && IsHistogram(s'.statusCounts, s'.history)
            && Mass(ErrorCounts(s'.statusCounts)) == Total(Errors, s'.history)
  {
    hide Step, Pending, Total, IsHistogram, Mass, ErrorCounts, Bump;
    CountsStep(s, a);
    var s' := Step(s, a);
    if s'.history != s.history {
      var e := s.threads[a.t].e;
      StepAll(s.history, e);
      HistogramStep(s.statusCounts, s.history, e);
      ErrorCountsBump(s.statusCounts, e.sample.status);
    }
  }

  lemma SeenIsOk(s: State, r: nat, b: nat, errs: nat, begun: nat, now: int)
    requires Inv(s) && PhaseOk(LoadedErrors(r, b, errs, begun), s)
    ensures ViewOk(Seen(s, r, b, errs, begun, now))
  {
    hide Pending, Total, IsHistogram, Mass, ErrorCounts;
    TotalRequestsIsLength(s.history);
    assert TotalOf(Requests, s) == Total(Requests, s.history) + Pending(Requests, s.threads);
    assert TotalOf(Errors, s) == Total(Errors, s.history) + Pending(Errors, s.threads);
  }

  lemma ViewsHold(s: State, a: Action)
    requires Inv(s)
    ensures forall v | v in Step(s, a).views :: ViewOk(v)
  {
    hide Pending, Total, IsHistogram, Mass, ErrorCounts, Bump, Seen, Gap, Weight, ViewOk, PhaseOk;
    if a.t < |s.threads| && s.threads[a.t].LoadedErrors? && a.input.Clock? {
      var p := s.threads[a.t];
      assert p in s.threads;
      SeenIsOk(s, p.reqs, p.bytes, p.errs, p.begun, a.input.now);
    }
  }

  lemma NewPhaseOk(s: State, a: Action)
    requires a.t < |s.threads| && PhaseOk(s.threads[a.t], s) && s.totalErrors <= s.totalRequests
    ensures a.t < |Step(s, a).threads| && PhaseOk(Step(s, a).threads[a.t], Step(s, a))
  {
    hide Pending, Bump, Seen, Weight;
  }

  lemma PhasesHold(s: State, a: Action)
    requires Inv(s)
    ensures var s' := Step(s, a); forall p | p in s'.threads :: PhaseOk(p, s')
  {
    hide Step, Pending, Total, IsHistogram, Mass, ErrorCounts, Bump;
    var s' := Step(s, a);
    TotalsGrow(s, a);
    ErrorsAreRequests(s.history, s.threads);
    assert TotalOf(Errors, s) <= TotalOf(Requests, s);
    if a.t < |s.threads| {
      StepShape(s, a);
      assert s.threads[a.t] in s.threads;
      NewPhaseOk(s, a);
    } else {
      NoGoroutine(s, a);
    }
    forall p | p in s'.threads
      ensures PhaseOk(p, s')
    {
      var i :| 0 <= i < |s'.threads| && s'.threads[i] == p;
      if i != a.t {
        assert s.threads[i] == p && p in s.threads;
      }
    }
  }

  lemma NoGoroutine(s: State, a: Action)
    requires a.t >= |s.threads|
    ensures Step(s, a) == s
  {
  }

  lemma {:induction false} InvHolds(s: State, actions: seq<Action>)
    requires Inv(s)
    ensures Inv(Run(s, actions))
    decreases |actions|
  {
    hide Step, Mass, ErrorCounts, Total, Pending, IsHistogram, TotalOf;
    if actions == [] {
    } else {
      forall m
        ensures var s' := Step(s, actions[0]); TotalOf(m, s') == Total(m, s'.history) + Pending(m, s'.threads)
      {
        TotalHolds(m, s, actions[0]);
      }
      CountsHold(s, actions[0]);
      PhasesHold(s, actions[0]);
      ViewsHold(s, actions[0]);
      InvHolds(Step(s, actions[0]), actions[1..]);
    }
  }

  lemma {:induction false} InitialInv(n: nat)
    ensures Inv(Initial(n))
  {
    assert Mass(ErrorCounts(map[])) == 0;
    forall m ensures Pending(m, Initial(n).threads) == 0 {
      NothingPending(m, n);
    }
  }

  lemma {:induction false} NothingPending(m: Measure, n: nat)
    ensures Pending(m, Initial(n).threads) == 0
    decreases n
  {
    if n == 0 {
    } else {
      assert Initial(n).threads[1..] == Initial(n - 1).threads;
      NothingPending(m, n - 1);
    }
  }

  // ---------------------------------------------------------------------------
  // What holds at every moment of every interleaving
  // ---------------------------------------------------------------------------

  /** The lifetime totals are ahead of the locked-in state by exactly the Record calls that
      have made the add and not yet entered their locked section. */
  lemma TotalsAreLockedPlusAhead(n: nat, actions: seq<Action>)
    ensures var s := Run(Initial(n), actions);
            && s.totalRequests == Mass(s.statusCounts) + Pending(Requests, s.threads)
            && s.totalErrors == Mass(ErrorCounts(s.statusCounts)) + Pending(Errors, s.threads)
            && s.totalErrors <= s.totalRequests
  {
    InitialInv(n);
    InvHolds(Initial(n), actions);
    var s := Run(Initial(n), actions);
    hide Run, Mass, Pending, Total, ErrorCounts, IsHistogram;
    assert Inv(s);
    ErrorsAreRequests(s.history, s.threads);
    TotalRequestsIsLength(s.history);
    HistogramMass(s.statusCounts, s.history);
    assert TotalOf(Requests, s) == s.totalRequests && TotalOf(Errors, s) == s.totalErrors;
  }

  /** Within one snapshot the last minute's errors are among its requests and those are among
      the counted statuses. Each loaded total, with what was added to it between its load and
      the lock, is the number of counted statuses, or error statuses, and of the calls in
      flight. The loaded error total may exceed the request total, but only by calls that
      began between the two loads. */
  lemma SnapshotsAreConsistent(n: nat, actions: seq<Action>, v: View)
    requires v in Run(Initial(n), actions).views
    ensures SlotTotal(Errors, Ring(v.history), v.now, BUCKET_COUNT)
            <= SlotTotal(Requests, Ring(v.history), v.now, BUCKET_COUNT)
            <= Mass(v.statusCounts)
    ensures v.totalRequests + v.begunSince == Mass(v.statusCounts) + v.inFlight
    ensures v.totalErrors + v.failedSince == Mass(ErrorCounts(v.statusCounts)) + v.failing
    ensures v.totalErrors <= v.totalRequests + v.begunBetween
  {
    InitialInv(n);
    InvHolds(Initial(n), actions);
    hide Run, Mass, IsHistogram, SlotTotal, Ring, ErrorCounts, Total;
    assert ViewOk(v);
    HistogramMass(v.statusCounts, v.history);
    ErrorsWithinRequests(v.history, v.now);
    WindowWithinTotal(v.history, v.now);
  }

  // ---------------------------------------------------------------------------
  // When a snapshot can be torn
  // ---------------------------------------------------------------------------

  lemma {:induction false} RunAppend(s: State, a: seq<Action>, b: seq<Action>)
    ensures Run(s, a + b) == Run(Run(s, a), b)
    decreases |a|
  {
    hide Step;
    if a == [] {
      assert a + b == b;
    } else {
      assert (a + b)[1..] == a[1..] + b;
      RunAppend(Step(s, a[0]), a[1..], b);
    }
  }

  const FAILED := Sample(502, 0, 1)
  const FAILING_CALL: seq<Action> := [
    Action(1, BeginRecord(FAILED)), Action(1, Proceed), Action(1, Proceed), Action(1, Clock(1)), Action(1, Proceed)]
  const REST_OF_SNAPSHOT: seq<Action> := [Action(0, Proceed), Action(0, Proceed), Action(0, Clock(100))]

  function FailingCalls(b: nat): seq<Action> {
    if b == 0 then [] else FailingCalls(b - 1) + FAILING_CALL
  }

  /** Goroutine 0 has loaded the request total, zero, and b failing calls completed since. */
  ghost predicate Overtaken(s: State, b: nat) {
    && s.totalRequests == b && s.totalErrors == b
    && s.threads == [LoadedRequests(0), Idle] && s.views == []
  }

  lemma CallCompletes(s: State, b: nat)
    requires Overtaken(s, b)
    ensures Overtaken(Run(s, FAILING_CALL), b + 1)
  {
    var c := FAILING_CALL;
    var s1 := Step(s, c[0]);
    var s2 := Step(s1, c[1]);
    var s3 := Step(s2, c[2]);
    var s4 := Step(s3, c[3]);
    var s5 := Step(s4, c[4]);
    hide Step, Bump;
    assert Run(s, c) == Run(s1, c[1..]);
    assert c[1..][1..] == c[2..] && c[2..][1..] == c[3..] && c[3..][1..] == c[4..] && c[4..][1..] == [];
    assert Run(s1, c[1..]) == Run(s2, c[2..]) == Run(s3, c[3..]);
    assert Run(s3, c[3..]) == Run(s4, c[4..]) == Run(s5, []) == s5;
  }

  lemma {:induction false} CallsComplete(s: State, b: nat)
    requires Overtaken(s, 0)
    ensures Overtaken(Run(s, FailingCalls(b)), b)
    decreases b
  {
    assert Run(s, []) == s;
    hide Run;
    if b == 0 {
    } else {
      CallsComplete(s, b - 1);
      CallCompletes(Run(s, FailingCalls(b - 1)), b - 1);
      RunAppend(s, FailingCalls(b - 1), FAILING_CALL);
    }
  }

  /** The run in which b failing calls come between the loads of the two totals. */
  lemma ErrorsOvertake(b: nat)
    ensures var s := Run(Initial(2), [Action(0, BeginSnapshot)] + FailingCalls(b) + REST_OF_SNAPSHOT);
            && |s.views| == 1
            && s.views[0].begunBetween == b
            && s.views[0].totalRequests == 0
            && s.views[0].totalErrors == b
  {
    var begin := [Action(0, BeginSnapshot)];
    var s1 := Step(Initial(2), begin[0]);
    assert begin[1..] == [];
    assert Run(Initial(2), begin) == s1;
    CallsComplete(s1, b);
    RunAppend(Initial(2), begin, FailingCalls(b));
    RunAppend(Initial(2), begin + FailingCalls(b), REST_OF_SNAPSHOT);
    SnapshotCompletes(Run(s1, FailingCalls(b)), b);
  }

  lemma SnapshotCompletes(s: State, b: nat)
    requires Overtaken(s, b)
    ensures var views := Run(s, REST_OF_SNAPSHOT).views;
            |views| == 1 && views[0].begunBetween == b && views[0].totalRequests == 0 && views[0].totalErrors == b
  {
    var c := REST_OF_SNAPSHOT;
    var s1 := Step(s, c[0]);
    var s2 := Step(s1, c[1]);
    var s3 := Step(s2, c[2]);
    assert s1.threads[0] == LoadedBytes(0, s.totalBytes);
    assert s2.threads[0] == LoadedErrors(0, s.totalBytes, b, b);
    hide Step, Pending;
    assert c[1..][1..] == c[2..] && c[2..][1..] == [];
    assert Run(s, c) == Run(s1, c[1..]) == Run(s2, c[2..]) == Run(s3, []) == s3;
  }

  /** A snapshot between whose loads b Record calls began is safe from showing more errors
      than requests exactly for b = 0; for every other b the excess can be all of b. */
  lemma TornSnapshotIff(b: nat)
    ensures (forall n, actions, v :: v in Run(Initial(n), actions).views && v.begunBetween == b ==>
               v.totalErrors <= v.totalRequests)
            <==> b == 0
    ensures exists n, actions, v :: v in Run(Initial(n), actions).views && v.begunBetween == b
              && v.totalErrors == v.totalRequests + b
  {
    hide Run;
    forall n, actions, v | v in Run(Initial(n), actions).views && v.begunBetween == b
      ensures v.totalErrors <= v.totalRequests + b
    {
      SnapshotsAreConsistent(n, actions, v);
    }
    ErrorsOvertake(b);
    var actions := [Action(0, BeginSnapshot)] + FailingCalls(b) + REST_OF_SNAPSHOT;
    var v := Run(Initial(2), actions).views[0];
    assert v in Run(Initial(2), actions).views;
  }
}
