/** The event loop with its clock readings driving the reload machine: both views of
    internal/config/watcher.go at once. */
module TimedReload {
  import opened Config
  import D = Debounce
  import H = HotReload
  import U = Upstream

  datatype State = State(loop: D.State, sys: H.State)

  /** Either the loop receives an input, or something around it happens: the disk changes, the
      UI saves, a reload sequence advances. */
  datatype Action = Receive(input: D.Input) | Around(action: H.Action)

  function Initial(disk: Disk, start: int): State {
    State(D.Initial(start), H.Initial(disk))
  }

  /** The loop receives nothing while it reloads; a file event is the first one queued, and
      with `exclusive` a delivered timer waits for the UI's sequence. */
  predicate CanReceive(exclusive: bool, s: State, i: D.Input) {
    && D.Possible(s.loop, i)
    && s.sys.watcher == H.Rest
    && (i.FileEvent? ==> s.sys.queue != [] && s.sys.queue[0] == i.relevant)
    && (i.Tick? ==> !(exclusive && s.sys.ui != H.Rest))
  }

  /** One step; an impossible action changes nothing. */
  function Step(parse: U.UrlParser, exclusive: bool, s: State, a: Action): State {
    match a
    case Around(action) =>
      if action.HandleEvent? || action.TimerFires? then s
      else s.(sys := H.Step(parse, exclusive, s.sys, action))
    case Receive(i) =>
      if !CanReceive(exclusive, s, i) then s
      else
        var sys := if i.FileEvent? then H.Step(parse, exclusive, s.sys, H.HandleEvent)
                   else if i.Tick? && i.now >= s.loop.armedTime then H.Step(parse, exclusive, s.sys, H.TimerFires)
                   else s.sys;
        State(D.Step(s.loop, i), sys)
  }

  function Run(parse: U.UrlParser, exclusive: bool, s: State, actions: seq<Action>): State {
    if actions == [] then s
    else Step(parse, exclusive, Run(parse, exclusive, s, actions[..|actions| - 1]), actions[|actions| - 1])
  }

  /** The timer runs exactly while the reload machine is armed. */
  ghost predicate Coupled(s: State) {
    D.Inv(s.loop) && (s.loop.timer.Some? <==> s.sys.armed)
  }

  lemma OtherActionsKeepArmed(parse: U.UrlParser, exclusive: bool, s: H.State, a: H.Action)
    requires !a.HandleEvent? && !a.TimerFires?
    ensures H.Step(parse, exclusive, s, a).armed == s.armed
  {
    hide H.NextPhase;
  }

  lemma CoupledStep(parse: U.UrlParser, exclusive: bool, s: State, a: Action)
    requires Coupled(s)
    ensures Coupled(Step(parse, exclusive, s, a))
  {
    hide D.Inv;
    match a {
      case Around(action) =>
        if !action.HandleEvent? && !action.TimerFires? {
          OtherActionsKeepArmed(parse, exclusive, s.sys, action);
        }
      case Receive(i) =>
        D.InvStep(s.loop, i);
    }
  }

  /** The loop does receive: in every coupled state in which it runs, a queued event, or else a
      running timer, is received as soon as the clock allows, and moves both machines. */
  lemma LoopReceives(parse: U.UrlParser, exclusive: bool, s: State, now: int)
    requires Coupled(s) && s.loop.running && s.sys.watcher == H.Rest && s.loop.clock <= now
    ensures s.sys.queue != [] ==>
              var i := D.FileEvent(s.sys.queue[0], now, now);
              Step(parse, exclusive, s, Receive(i))
              == State(D.Step(s.loop, i), H.Step(parse, exclusive, s.sys, H.HandleEvent))
    ensures s.loop.timer.Some? && s.loop.timer.value <= now && (exclusive ==> s.sys.ui == H.Rest) ==>
              var i := D.Tick(now, now, now);
              && s.sys.armed
              && Step(parse, exclusive, s, Receive(i))
                 == State(D.Step(s.loop, i), H.Step(parse, exclusive, s.sys, H.TimerFires))
  {
    hide D.Step, H.Step;
    if s.loop.timer.Some? && s.loop.timer.value <= now {
      D.TimerNeverEarly(s.loop, D.Tick(now, now, now));
    }
  }

  /** Everything else happens to the reload machine as it does to it alone. */
  lemma AroundActs(parse: U.UrlParser, exclusive: bool, s: State, a: H.Action)
    requires !a.HandleEvent? && !a.TimerFires?
    ensures Step(parse, exclusive, s, Around(a)) == s.(sys := H.Step(parse, exclusive, s.sys, a))
  {
  }

  /** What the step is to the loop alone, and to the reload machine alone. */
  lemma StepProjects(parse: U.UrlParser, exclusive: bool, s: State, a: Action)
    returns (inputs: seq<D.Input>, actions: seq<H.Action>)
    ensures |inputs| <= 1 && |actions| <= 1
    ensures var s' := Step(parse, exclusive, s, a);
            && s'.loop == (if inputs == [] then s.loop else D.Step(s.loop, inputs[0]))
            && s'.sys == (if actions == [] then s.sys else H.Step(parse, exclusive, s.sys, actions[0]))
  {
    hide D.Step, H.Step;
    inputs, actions := [], [];
    match a {
      case Around(action) =>
        if !action.HandleEvent? && !action.TimerFires? {
          actions := [action];
        }
      case Receive(i) =>
        if CanReceive(exclusive, s, i) {
          inputs := [i];
          if i.FileEvent? {
            actions := [H.HandleEvent];
          } else if i.Tick? && i.now >= s.loop.armedTime {
            actions := [H.TimerFires];
          }
        }
    }
  }

  lemma LoopRunExtends(s: D.State, inputs: seq<D.Input>, more: seq<D.Input>)
    requires |more| <= 1
    ensures var now := D.Run(s, inputs);
            D.Run(s, inputs + more) == if more == [] then now else D.Step(now, more[0])
  {
    hide D.Step;
    if more == [] {
      assert inputs + more == inputs;
    } else {
      assert more == [more[0]];
      D.RunAppend(s, inputs, more[0]);
    }
  }

  lemma SystemRunExtends(parse: U.UrlParser, exclusive: bool, s: H.State, actions: seq<H.Action>, more: seq<H.Action>)
    requires |more| <= 1
    ensures var now := H.Run(parse, exclusive, s, actions);
            H.Run(parse, exclusive, s, actions + more)
            == if more == [] then now else H.Step(parse, exclusive, now, more[0])
  {
    hide H.Step;
    H.RunAppend(parse, exclusive, s, actions, more);
    if more != [] {
      assert more[1..] == [];
    }
  }

  /** Every timed run is a run of the loop and a run of the reload machine. */
  lemma {:induction false} RunProjects(parse: U.UrlParser, exclusive: bool, disk: Disk, start: int, timed: seq<Action>)
    returns (inputs: seq<D.Input>, actions: seq<H.Action>)
    ensures var s := Run(parse, exclusive, Initial(disk, start), timed);
            && s.loop == D.Run(D.Initial(start), inputs)
            && s.sys == H.Run(parse, exclusive, H.Initial(disk), actions)
            && Coupled(s)
    decreases |timed|
  {
    hide Step, D.Step, H.Step;
    if timed == [] {
      inputs, actions := [], [];
    } else {
      var n := |timed| - 1;
      var before := Run(parse, exclusive, Initial(disk, start), timed[..n]);
      inputs, actions := RunProjects(parse, exclusive, disk, start, timed[..n]);
      var i, a := StepProjects(parse, exclusive, before, timed[n]);
      CoupledStep(parse, exclusive, before, timed[n]);
      LoopRunExtends(D.Initial(start), inputs, i);
      SystemRunExtends(parse, exclusive, H.Initial(disk), actions, a);
      inputs, actions := inputs + i, actions + a;
    }
  }

  /** With one reload sequence at a time: when no event is queued, no timer runs and nothing is
      being reloaded, the current disk is published, and the reload that did it was the
      last thing the loop did, at least 200 ms after every event it has handled. */
  lemma TimedConvergence(parse: U.UrlParser, disk: Disk, start: int, timed: seq<Action>)
    ensures var s := Run(parse, true, Initial(disk, start), timed);
            var log := s.loop.log;
            s.sys.queue == [] && s.loop.timer.None? && s.sys.watcher == s.sys.ui == H.Rest ==>
              && s.sys.store == s.sys.routed == LoadAll(parse, s.sys.disk)
              && log != [] && log[|log| - 1].Reloaded?
              && forall k | 0 <= k < |log| && log[k].Handled? :: log[k].time + D.DEBOUNCE <= log[|log| - 1].time
  {
    var inputs, actions := RunProjects(parse, true, disk, start, timed);
    hide Run, H.Run, D.Run, LoadAll;
    var s := Run(parse, true, Initial(disk, start), timed);
    var log := s.loop.log;
    if s.sys.queue == [] && s.loop.timer.None? && s.sys.watcher == s.sys.ui == H.Rest {
      H.Converged(parse, disk, actions);
      forall k | 0 <= k < |log| && log[k].Handled?
        ensures log[k].time + D.DEBOUNCE <= log[|log| - 1].time
      {
        D.TimesOrdered(log, k, |log| - 2);
      }
    }
  }
}
