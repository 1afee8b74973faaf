/** The watcher's event loop with its clock readings, internal/config/watcher.go. */
module Debounce {
  import opened Wrappers

  /** 200 ms, in nanoseconds. */
  const DEBOUNCE: int := 200_000_000

  /** What one turn of the select receives. An event reads the clock and then starts a timer;
      a delivered timer reads the clock, and again twice if it has to be started anew. */
  datatype Input =
    | Cancelled
    | EventsClosed
    | ErrorsClosed
    | WatchError
    | FileEvent(relevant: bool, now: int, started: int)
    | Tick(now: int, again: int, started: int)

  datatype Entry = Handled(time: int) | Reloaded(time: int)

  datatype State = State(timer: Option<int>, armedTime: int, running: bool, clock: int, log: seq<Entry>)

  function Initial(start: int): State {
    State(None, 0, true, start, [Reloaded(start)])
  }

  /** The input can be received: readings never go back, and a timer delivers only when due. */
  predicate Possible(s: State, i: Input) {
    && s.running
    && match i
       case FileEvent(_, now, started) => s.clock <= now <= started
       case Tick(now, again, started) => s.timer.Some? && s.timer.value <= now && s.clock <= now <= again <= started
       case _ => true
  }

  function Step(s: State, i: Input): State {
    if !Possible(s, i) then s
    else
      match i
      case Cancelled => s.(running := false)
      case EventsClosed => s.(running := false)
      case ErrorsClosed => s.(running := false)
      case WatchError => s
      case FileEvent(relevant, now, started) =>
        if !relevant then s.(clock := started)
        else State(Some(started + DEBOUNCE), now + DEBOUNCE, true, started, s.log + [Handled(now)])
      case Tick(now, again, started) =>
        if now < s.armedTime then
          s.(timer := Some(started + if again < s.armedTime then s.armedTime - again else 0), clock := started)
        else State(None, s.armedTime, true, now, s.log + [Reloaded(now)])
  }

  /** Should a timer be delivered before the armed time, it is started anew for what is left. */
  lemma EarlyTick(s: State, now: int, again: int, started: int)
    requires Possible(s, Tick(now, again, started)) && now < s.armedTime
    ensures var left := s.armedTime - again;
            var s' := Step(s, Tick(now, again, started));
            && s'.timer == Some(if left > 0 then started + left else started)
            && s'.log == s.log && s'.armedTime == s.armedTime && s'.running && s'.clock == started
  {
  }

  function Run(s: State, inputs: seq<Input>): State
    decreases |inputs|
  {
    if inputs == [] then s else Run(Step(s, inputs[0]), inputs[1..])
  }

  lemma {:induction false} RunAppend(s: State, a: seq<Input>, i: Input)
    ensures Run(s, a + [i]) == Step(Run(s, a), i)
    decreases |a|
  {
    hide Step;
    if a == [] {
      assert a + [i] == [i] && [i][1..] == [];
    } else {
      assert (a + [i])[1..] == a[1..] + [i];
      RunAppend(Step(s, a[0]), a[1..], i);
    }
  }

  /** The event loop itself; an input that cannot be received is passed over. */
  method Watch(start: int, inputs: seq<Input>) returns (log: seq<Entry>, waiting: bool, running: bool)
    ensures var s := Run(Initial(start), inputs);
            log == s.log && waiting == s.timer.Some? && running == s.running
  {
    var timer: Option<int> := None;
    var armedTime, clock := 0, start;
    log := [Reloaded(start)];
    running := true;
    for k := 0 to |inputs|
      invariant Run(Initial(start), inputs[..k]) == State(timer, armedTime, running, clock, log)
    {
      assert inputs[..k + 1] == inputs[..k] + [inputs[k]];
      RunAppend(Initial(start), inputs[..k], inputs[k]);
      if !Possible(State(timer, armedTime, running, clock, log), inputs[k]) {
        continue;
      }
      match inputs[k] {
        case Cancelled => running := false;
        case EventsClosed => running := false;
        case ErrorsClosed => running := false;
        case WatchError =>
        case FileEvent(relevant, now, started) =>
          clock := started;
          if relevant {
            log := log + [Handled(now)];
            armedTime := now + DEBOUNCE;
            timer := Some(started + DEBOUNCE);
          }
        case Tick(now, again, started) =>
          if now < armedTime {
            timer := Some(started + if again < armedTime then armedTime - again else 0);
            clock := started;
          } else {
            timer := None;
            clock := now;
            log := log + [Reloaded(now)];
          }
      }
    }
    assert inputs[..|inputs|] == inputs;
    waiting := timer.Some?;
  }

  // ---------------------------------------------------------------------------
  // Invariant
  // ---------------------------------------------------------------------------

  /** Time never runs back in the log, and each reload after the first directly follows a
      handled event by at least the debounce time. */
  ghost predicate Debounced(log: seq<Entry>) {
    && log != [] && log[0].Reloaded?
    && forall p | 1 <= p < |log| ::
         && log[p - 1].time <= log[p].time
         && (log[p].Reloaded? ==> log[p - 1].Handled? && log[p - 1].time + DEBOUNCE <= log[p].time)
  }

  ghost predicate Inv(s: State) {
    && Debounced(s.log)
    && var last := s.log[|s.log| - 1];
       && last.time <= s.clock
       && (s.timer.Some? <==> last.Handled?)
       && (last.Handled? ==> s.armedTime == last.time + DEBOUNCE <= s.timer.value)
  }

  /** A delivered timer always finds the armed time passed: starting it anew never happens. */
  lemma TimerNeverEarly(s: State, i: Input)
    requires Inv(s) && i.Tick? && Possible(s, i)
    ensures i.now >= s.armedTime
  {
  }

  lemma InvStep(s: State, i: Input)
    requires Inv(s)
    ensures Inv(Step(s, i))
  {
    if i.FileEvent? {
      LogGrows(s.log, Handled(i.now));
    } else if i.Tick? {
      LogGrows(s.log, Reloaded(i.now));
    }
    assert s.log != [];
    hide Debounced;
  }

  lemma LogGrows(log: seq<Entry>, e: Entry)
    requires Debounced(log)
    ensures var last := log[|log| - 1];
            last.time <= e.time && (e.Reloaded? ==> last.Handled? && last.time + DEBOUNCE <= e.time)
            ==> Debounced(log + [e])
  {
  }

  lemma {:induction false} InvHolds(s: State, inputs: seq<Input>)
    requires Inv(s)
    ensures Inv(Run(s, inputs))
    decreases |inputs|
  {
    hide Step, Inv;
    if inputs == [] {
    } else {
      InvStep(s, inputs[0]);
      InvHolds(Step(s, inputs[0]), inputs[1..]);
    }
  }

  // ---------------------------------------------------------------------------
  // What the loop has received
  // ---------------------------------------------------------------------------

  /** An input can be received exactly while the loop runs, a timer only when it is due, and
      with clock readings that do not run back. */
  lemma PossibleIff(s: State, i: Input)
    ensures Possible(s, i) <==>
              && s.running
              && (i.FileEvent? ==> s.clock <= i.now <= i.started)
              && (i.Tick? ==> s.timer.Some? && s.timer.value <= i.now && s.clock <= i.now <= i.again <= i.started)
  {
  }

  /** The inputs that could be received when their turn came, in order. */
  ghost function Received(start: int, inputs: seq<Input>): seq<Input> {
    if inputs == [] then []
    else
      var n := |inputs| - 1;
      Received(start, inputs[..n])
      + if Possible(Run(Initial(start), inputs[..n]), inputs[n]) then [inputs[n]] else []
  }

  /** What a received input leaves in the log: every relevant event is handled at its clock
      reading, and every delivered timer reloads at its own. */
  ghost function Entries(received: seq<Input>): seq<Entry> {
    if received == [] then []
    else
      var n := |received| - 1;
      Entries(received[..n])
      + match received[n]
        case FileEvent(true, now, _) => [Handled(now)]
        case Tick(now, _, _) => [Reloaded(now)]
        case _ => []
  }

  ghost predicate IsStop(i: Input) {
    i.Cancelled? || i.EventsClosed? || i.ErrorsClosed?
  }

  /** The last of the received inputs that is a relevant event or a delivered timer. */
  ghost function LastActive(received: seq<Input>): Option<Input> {
    if received == [] then None
    else
      var last := received[|received| - 1];
      if last.Tick? || (last.FileEvent? && last.relevant) then Some(last) else LastActive(received[..|received| - 1])
  }

  ghost predicate Faithful(s: State, start: int, received: seq<Input>) {
    && s.log == [Reloaded(start)] + Entries(received)
    && (s.running <==> !exists i :: i in received && IsStop(i))
    && s.timer == (match LastActive(received)
                   case Some(FileEvent(_, _, started)) => Some(started + DEBOUNCE)
                   case _ => None)
  }

  lemma FaithfulStep(s: State, start: int, received: seq<Input>, i: Input)
    requires Inv(s) && Faithful(s, start, received) && Possible(s, i)
    ensures Faithful(Step(s, i), start, received + [i])
  {
    hide Inv;
    var more := received + [i];
    assert more[..|received|] == received && more[|received|] == i;
    assert forall x :: x in more <==> x in received || x == i;
    if i.Tick? {
      TimerNeverEarly(s, i);
    }
    assert Step(s, i).log == [Reloaded(start)] + Entries(more);
    assert i in more;
  }

  /** The log is the initial load followed by one entry for every relevant event received and
      one for every timer delivered; the loop runs until it receives a stop; and the timer
      stands at 200 ms after the last relevant event unless it was delivered since. */
  lemma {:induction false} LogIsReceived(start: int, inputs: seq<Input>)
    ensures Faithful(Run(Initial(start), inputs), start, Received(start, inputs))
    decreases |inputs|
  {
    hide Step, Faithful, Possible;
    if inputs == [] {
      NothingReceived(start);
    } else {
      var n := |inputs| - 1;
      var before := inputs[..n];
      assert inputs == before + [inputs[n]];
      LogIsReceived(start, before);
      InvHolds(Initial(start), before);
      RunAppend(Initial(start), before, inputs[n]);
      if Possible(Run(Initial(start), before), inputs[n]) {
        FaithfulStep(Run(Initial(start), before), start, Received(start, before), inputs[n]);
      } else {
        Refused(Run(Initial(start), before), inputs[n]);
        assert Received(start, inputs) == Received(start, before);
      }
    }
  }

  lemma NothingReceived(start: int)
    ensures Faithful(Initial(start), start, [])
  {
  }

  lemma Refused(s: State, i: Input)
    requires !Possible(s, i)
    ensures Step(s, i) == s
  {
  }

  lemma {:induction false} HandledIsLogged(received: seq<Input>, j: nat)
    requires j < |received| && received[j].FileEvent? && received[j].relevant
    ensures exists p :: 0 <= p < |Entries(received)| && Entries(received)[p] == Handled(received[j].now)
    decreases |received|
  {
    var n := |received| - 1;
    if j == n {
      assert Entries(received)[|Entries(received)| - 1] == Handled(received[j].now);
    } else {
      HandledIsLogged(received[..n], j);
      var p :| 0 <= p < |Entries(received[..n])| && Entries(received[..n])[p] == Handled(received[j].now);
      assert Entries(received)[p] == Handled(received[j].now);
    }
  }

  lemma {:induction false} ReceivedPrefix(start: int, inputs: seq<Input>, k: nat) returns (m: nat)
    requires k <= |Received(start, inputs)|
    ensures m <= |inputs| && Received(start, inputs[..m]) == Received(start, inputs)[..k]
    decreases |inputs|
  {
    hide Possible, Run;
    if k == |Received(start, inputs)| {
      m := |inputs|;
      assert inputs[..m] == inputs;
    } else {
      var n := |inputs| - 1;
      assert Received(start, inputs[..n]) <= Received(start, inputs);
      m := ReceivedPrefix(start, inputs[..n], k);
      assert inputs[..n][..m] == inputs[..m];
    }
  }

  /** A delivered timer comes at least 200 ms after every relevant event received before it:
      an event received while the timer runs puts the reload off. */
  lemma ReloadAfterEvents(start: int, inputs: seq<Input>, j: nat, k: nat)
    requires j < k < |Received(start, inputs)|
    requires var r := Received(start, inputs); r[k].Tick? && r[j].FileEvent? && r[j].relevant
    ensures var r := Received(start, inputs); r[j].now + DEBOUNCE <= r[k].now
  {
    var r := Received(start, inputs);
    var m := ReceivedPrefix(start, inputs, k + 1);
    LogIsReceived(start, inputs[..m]);
    LogDebounced(start, inputs[..m]);
    var log := Run(Initial(start), inputs[..m]).log;
    hide Received, Run, Debounced;
    TimerInLog(start, r[..k + 1], log, j, k);
  }

  lemma TimerInLog(start: int, r: seq<Input>, log: seq<Entry>, j: nat, k: nat)
    requires j < k == |r| - 1 && r[k].Tick? && r[j].FileEvent? && r[j].relevant
    requires log == [Reloaded(start)] + Entries(r) && Debounced(log)
    ensures r[j].now + DEBOUNCE <= r[k].now
  {
    HandledIsLogged(r[..k], j);
    var p :| 0 <= p < |Entries(r[..k])| && Entries(r[..k])[p] == Handled(r[j].now);
    assert log == [Reloaded(start)] + Entries(r[..k]) + [Reloaded(r[k].now)];
    hide Entries, Debounced;
    assert log[p + 1] == Handled(r[j].now);
    LastReload(log, p + 1);
  }

  lemma LastReload(log: seq<Entry>, p: nat)
    requires Debounced(log) && p < |log| - 1 && log[|log| - 1].Reloaded?
    ensures log[p].time + DEBOUNCE <= log[|log| - 1].time
  {
    TimesOrdered(log, p, |log| - 2);
  }

  lemma LogDebounced(start: int, inputs: seq<Input>)
    ensures Debounced(Run(Initial(start), inputs).log)
  {
    InvHolds(Initial(start), inputs);
  }

  // ---------------------------------------------------------------------------
  // Guarantees
  // ---------------------------------------------------------------------------

  /** Every handled event is followed by a reload that begins at least 200 ms after the last
      event handled before it, or the timer is armed. */
  lemma EveryEventServed(start: int, inputs: seq<Input>, k: nat)
    requires k < |Run(Initial(start), inputs).log| && Run(Initial(start), inputs).log[k].Handled?
    ensures var s := Run(Initial(start), inputs);
            || s.timer.Some?
            || exists p :: k < p < |s.log| && s.log[p].Reloaded?
                 && forall q | k <= q < p :: s.log[q].time + DEBOUNCE <= s.log[p].time
  {
    InvHolds(Initial(start), inputs);
    var s := Run(Initial(start), inputs);
    hide Run;
    if s.timer.None? {
      var p := |s.log| - 1;
      forall q | k <= q < p
        ensures s.log[q].time + DEBOUNCE <= s.log[p].time
      {
        TimesOrdered(s.log, q, p - 1);
      }
    }
  }

  lemma {:induction false} TimesOrdered(log: seq<Entry>, p: nat, q: nat)
    requires Debounced(log) && p <= q < |log|
    ensures log[p].time <= log[q].time
    decreases q
  {
    if p >= q {
    } else {
      TimesOrdered(log, p, q - 1);
    }
  }

  /** Two reloads have a handled event between them and are at least 200 ms apart. */
  lemma ReloadsApart(log: seq<Entry>, p: nat, q: nat)
    requires Debounced(log) && p < q < |log| && log[p].Reloaded? && log[q].Reloaded?
    ensures p < q - 1 && log[q - 1].Handled?
    ensures log[p].time + DEBOUNCE <= log[q].time
  {
    TimesOrdered(log, p, q - 1);
  }

  ghost function ReloadsIn(log: seq<Entry>, lo: int, hi: int): nat {
    if log == [] then 0
    else
      var e := log[|log| - 1];
      ReloadsIn(log[..|log| - 1], lo, hi) + if e.Reloaded? && lo <= e.time <= hi then 1 else 0
  }

  ghost function Count(log: seq<Entry>, reloads: bool): nat {
    if log == [] then 0
    else Count(log[..|log| - 1], reloads) + if log[|log| - 1].Reloaded? == reloads then 1 else 0
  }

  lemma {:induction false} ReloadsSpread(log: seq<Entry>, lo: int, hi: int)
    requires Debounced(log) && lo <= hi
    ensures var last := log[|log| - 1].time;
            ReloadsIn(log, lo, hi) > 0 ==>
              lo <= last && (ReloadsIn(log, lo, hi) - 1) * DEBOUNCE <= (if last < hi then last else hi) - lo
    decreases |log|
  {
    var n := |log| - 1;
    if n == 0 {
    } else {
      ReloadsSpread(log[..n], lo, hi);
      if log[n].Reloaded? && n > 1 {
        ReloadsSpread(log[..n - 1], lo, hi);
        assert log[..n][..n - 1] == log[..n - 1];
      }
    }
  }

  /** The watcher reloads at most once per 200 ms of any period, plus one. */
  lemma ReloadRate(start: int, inputs: seq<Input>, lo: int, hi: int)
    requires lo <= hi
    ensures ReloadsIn(Run(Initial(start), inputs).log, lo, hi) <= (hi - lo) / DEBOUNCE + 1
  {
    InvHolds(Initial(start), inputs);
    ReloadsSpread(Run(Initial(start), inputs).log, lo, hi);
  }

  lemma {:induction false} ReloadsPaidFor(log: seq<Entry>)
    requires Debounced(log)
    ensures Count(log, true) <= Count(log, false) + if log[|log| - 1].Reloaded? then 1 else 0
    decreases |log|
  {
    var n := |log| - 1;
    if n == 0 {
    } else {
      ReloadsPaidFor(log[..n]);
    }
  }

  /** It never reloads more often than it handled events, besides the initial load. */
  lemma ReloadsWithinEvents(start: int, inputs: seq<Input>)
    ensures var log := Run(Initial(start), inputs).log; Count(log, true) <= Count(log, false) + 1
  {
    InvHolds(Initial(start), inputs);
    ReloadsPaidFor(Run(Initial(start), inputs).log);
  }
}
