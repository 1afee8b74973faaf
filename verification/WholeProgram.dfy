/** The reload machine and the data plane together: the watcher and the admin UI load the
    sites directory and publish what they load while requests run, cmd/jobcloud/main.go. */
module WholeProgram {
  import opened Config
  import opened Routing
  import C = Conservation
  import H = HotReload
  import P = Publication
  import U = Upstream

  datatype State = State(sys: H.State, data: P.State)

  /** A step of the reload machine, or one of the requests and publications. */
  datatype Action = System(action: H.Action) | Data(step: P.Action)

  const WATCHER := 0
  const UI := 1

  ghost function Initial(disk: Disk, n: nat): State {
    State(H.Initial(disk), P.Initial(n, 2))
  }

  /** The reload sequence that an action moves, and where it is. */
  function SequenceOf(a: H.Action): nat {
    if a.AdvanceUI? then UI else WATCHER
  }

  function PhaseOf(s: H.State, a: H.Action): H.Phase {
    match a
    case AdvanceWatcher => s.watcher
    case AdvanceUI => s.ui
    case _ => H.Rest
  }

  /** Replacing the store begins the publication of the loaded list; the sequence goes on only
      when that publication has swapped the runtimes and pruned the metrics. */
  ghost function Step(parse: U.UrlParser, exclusive: bool, s: State, a: Action): State
    requires s.data.pub.lists != []
  {
    match a
    case Data(step) => if step.BeginReload? then s else s.(data := P.Step(parse, exclusive, s.data, step))
    case System(action) =>
      var p, w := PhaseOf(s.sys, action), SequenceOf(action);
      if p.Loaded? then
        State(H.Step(parse, exclusive, s.sys, action), P.Step(parse, exclusive, s.data, P.BeginReload(w, p.sites)))
      else if p.Replaced? && w < |s.data.pub.reloads| && s.data.pub.reloads[w] != P.Rest then s
      else s.(sys := H.Step(parse, exclusive, s.sys, action))
  }

  ghost function Run(parse: U.UrlParser, exclusive: bool, s: State, actions: seq<Action>): (r: State)
    requires s.data.pub.lists != []
    ensures r.data.pub.lists != []
  {
    if actions == [] then s
    else
      var before := Run(parse, exclusive, s, actions[..|actions| - 1]);
      StepKeepsLists(parse, exclusive, before, actions[|actions| - 1]);
      Step(parse, exclusive, before, actions[|actions| - 1])
  }

  lemma StepKeepsLists(parse: U.UrlParser, exclusive: bool, s: State, a: Action)
    requires s.data.pub.lists != []
    ensures Step(parse, exclusive, s, a).data.pub.lists != []
    ensures |Step(parse, exclusive, s, a).data.pub.reloads| == |s.data.pub.reloads|
  {
    hide P.Step, H.Step;
    match a {
      case Data(step) => P.ListsGrow(parse, exclusive, s.data, step);
      case System(action) =>
        var p, w := PhaseOf(s.sys, action), SequenceOf(action);
        if p.Loaded? {
          P.ListsGrow(parse, exclusive, s.data, P.BeginReload(w, p.sites));
        }
    }
  }

  // ---------------------------------------------------------------------------
  // Both machines are run
  // ---------------------------------------------------------------------------

  /** What the step is to each of the two machines alone. */
  lemma StepProjects(parse: U.UrlParser, exclusive: bool, s: State, a: Action)
    returns (actions: seq<H.Action>, steps: seq<P.Action>)
    requires s.data.pub.lists != []
    ensures |actions| <= 1 && |steps| <= 1
    ensures var s' := Step(parse, exclusive, s, a);
            && s'.sys == (if actions == [] then s.sys else H.Step(parse, exclusive, s.sys, actions[0]))
            && s'.data == (if steps == [] then s.data else P.Step(parse, exclusive, s.data, steps[0]))
  {
    hide P.Step, H.Step;
    actions, steps := [], [];
    match a {
      case Data(step) =>
        if !step.BeginReload? {
          steps := [step];
        }
      case System(action) =>
        var p, w := PhaseOf(s.sys, action), SequenceOf(action);
        if p.Loaded? {
          actions, steps := [action], [P.BeginReload(w, p.sites)];
        } else if !(p.Replaced? && w < |s.data.pub.reloads| && s.data.pub.reloads[w] != P.Rest) {
          actions := [action];
        }
    }
  }

  lemma SystemRunExtends(parse: U.UrlParser, exclusive: bool, s: H.State, actions: seq<H.Action>, more: seq<H.Action>)
    requires |more| <= 1
    ensures var now := H.Run(parse, exclusive, s, actions);
            H.Run(parse, exclusive, s, actions + more) == if more == [] then now else H.Step(parse, exclusive, now, more[0])
  {
    hide H.Step;
    H.RunAppend(parse, exclusive, s, actions, more);
    if more != [] {
      assert more[1..] == [];
    }
  }

  lemma DataRunExtends(parse: U.UrlParser, exclusive: bool, s: P.State, steps: seq<P.Action>, more: seq<P.Action>)
    requires s.pub.lists != [] && |more| <= 1
    ensures var now := P.Run(parse, exclusive, s, steps);
            P.Run(parse, exclusive, s, steps + more) == if more == [] then now else P.Step(parse, exclusive, now, more[0])
  {
    hide P.Step;
    if more == [] {
      assert steps + more == steps;
    } else {
      assert more == [more[0]];
      P.RunLast(parse, exclusive, s, steps, more[0]);
    }
  }

  /** Every run of the whole program is a run of the reload machine and a run of the data
      plane, so what holds of all their runs holds here. */
  lemma {:induction false} RunProjects(parse: U.UrlParser, exclusive: bool, disk: Disk, n: nat, whole: seq<Action>)
    returns (actions: seq<H.Action>, steps: seq<P.Action>)
    ensures var s := Run(parse, exclusive, Initial(disk, n), whole);
            && s.sys == H.Run(parse, exclusive, H.Initial(disk), actions)
            && s.data == P.Run(parse, exclusive, P.Initial(n, 2), steps)
    decreases |whole|
  {
    hide Step, H.Step, P.Step;
    if whole == [] {
      actions, steps := [], [];
    } else {
      var m := |whole| - 1;
      var before := Run(parse, exclusive, Initial(disk, n), whole[..m]);
      actions, steps := RunProjects(parse, exclusive, disk, n, whole[..m]);
      var a, p := StepProjects(parse, exclusive, before, whole[m]);
      SystemRunExtends(parse, exclusive, H.Initial(disk), actions, a);
      DataRunExtends(parse, exclusive, P.Initial(n, 2), steps, p);
      actions, steps := actions + a, steps + p;
    }
  }

  // ---------------------------------------------------------------------------
  // The machines in step
  // ---------------------------------------------------------------------------

  /** The data plane's current list is the store's, and a sequence is publishing only while the
      reload machine has replaced the store and not yet finished. */
  ghost predicate Coupled(s: State) {
    && s.data.pub.lists != [] && |s.data.pub.reloads| == 2
    && P.Current(s.data.pub) == s.sys.store
    && (s.data.pub.reloads[WATCHER] != P.Rest ==> s.sys.watcher.Replaced?)
    && (s.data.pub.reloads[UI] != P.Rest ==> s.sys.ui.Replaced?)
  }

  /** A step of the data plane other than a beginning keeps the lists and starts no sequence. */
  lemma DataStepKeeps(parse: U.UrlParser, exclusive: bool, s: P.State, a: P.Action)
    requires s.pub.lists != [] && !a.BeginReload?
    ensures var p := P.Step(parse, exclusive, s, a).pub;
            && p.lists == s.pub.lists && |p.reloads| == |s.pub.reloads|
            && forall w | 0 <= w < |p.reloads| && s.pub.reloads[w] == P.Rest :: p.reloads[w] == P.Rest
  {
    hide P.NextRequest, P.NextRecorded, P.Pruned, Routable, Names, Claim;
  }

  /** A step of the reload machine other than out of Loaded keeps the store's list; and a
      sequence that has replaced the store leaves that phase only by its own step. */
  lemma SystemStepKeeps(parse: U.UrlParser, s: H.State, a: H.Action)
    requires !PhaseOf(s, a).Loaded?
    ensures var s' := H.Step(parse, true, s, a);
            && s'.store == s.store
            && (s.watcher.Replaced? ==> s'.watcher.Replaced? || a.AdvanceWatcher?)
            && (s.ui.Replaced? ==> s'.ui.Replaced? || a.AdvanceUI?)
  {
    hide LoadSiteFile, IsSiteFile, SortByDomain;
  }

  /** A step out of Loaded replaces the store's list. */
  lemma LoadedStep(parse: U.UrlParser, s: H.State, a: H.Action)
    requires PhaseOf(s, a).Loaded?
    ensures var s' := H.Step(parse, true, s, a);
            && s'.store == PhaseOf(s, a).sites && PhaseOf(s', a).Replaced?
            && (a.AdvanceWatcher? ==> s'.ui == s.ui) && (a.AdvanceUI? ==> s'.watcher == s.watcher)
  {
  }

  lemma BeginsWhenResting(parse: U.UrlParser, s: P.State, w: nat, list: seq<Site>)
    requires s.pub.lists != [] && w < |s.pub.reloads| == 2
    requires s.pub.reloads[0] == P.Rest && s.pub.reloads[1] == P.Rest
    ensures var p := P.Step(parse, true, s, P.BeginReload(w, list)).pub;
            && p.lists == s.pub.lists + [list] && |p.reloads| == 2
            && p.reloads[1 - w] == P.Rest
  {
  }

  lemma CoupledStep(parse: U.UrlParser, s: State, a: Action)
    requires Coupled(s) && H.Inv(parse, s.sys)
    ensures Coupled(Step(parse, true, s, a)) && H.Inv(parse, Step(parse, true, s, a).sys)
  {
    hide P.Step, H.Step;
    match a {
      case Data(step) =>
        if !step.BeginReload? {
          DataStepKeeps(parse, true, s.data, step);
        }
      case System(action) =>
        var p, w := PhaseOf(s.sys, action), SequenceOf(action);
        OneRests(parse, s.sys);
        H.InvStep(parse, s.sys, action);
        hide H.Inv;
        if p.Loaded? {
          LoadedStep(parse, s.sys, action);
          BeginsWhenResting(parse, s.data, w, p.sites);
        } else {
          SystemStepKeeps(parse, s.sys, action);
        }
    }
  }

  lemma OneRests(parse: U.UrlParser, s: H.State)
    requires H.Inv(parse, s)
    ensures s.watcher == H.Rest || s.ui == H.Rest
  {
  }

  lemma {:induction false} CoupledHolds(parse: U.UrlParser, disk: Disk, n: nat, whole: seq<Action>)
    ensures var s := Run(parse, true, Initial(disk, n), whole); Coupled(s) && H.Inv(parse, s.sys)
    decreases |whole|
  {
    hide Step, Coupled;
    if whole == [] {
      StartsCoupled(parse, disk, n);
    } else {
      hide H.Inv;
      CoupledHolds(parse, disk, n, whole[..|whole| - 1]);
      CoupledStep(parse, Run(parse, true, Initial(disk, n), whole[..|whole| - 1]), whole[|whole| - 1]);
    }
  }

  lemma StartsCoupled(parse: U.UrlParser, disk: Disk, n: nat)
    ensures Coupled(Initial(disk, n)) && H.Inv(parse, H.Initial(disk))
  {
  }

  /** The program is never stuck: in every reachable state that is not at rest some step of the
      reload machine or of a publication under way does something. */
  lemma NeverStuck(parse: U.UrlParser, disk: Disk, n: nat, whole: seq<Action>)
    ensures var s := Run(parse, true, Initial(disk, n), whole);
            !H.Quiet(s.sys) ==>
              exists a: Action :: (a.System? ==> H.Own(a.action)) && (a.Data? ==> a.step.AdvanceReload?) && Step(parse, true, s, a) != s
  {
    CoupledHolds(parse, disk, n, whole);
    hide Run, H.Inv;
    var s := Run(parse, true, Initial(disk, n), whole);
    if !H.Quiet(s.sys) {
      CanStep(parse, s);
    }
  }

  lemma CanStep(parse: U.UrlParser, s: State)
    requires Coupled(s) && !H.Quiet(s.sys)
    ensures exists a: Action ::
              (a.System? ==> H.Own(a.action)) && (a.Data? ==> a.step.AdvanceReload?) && Step(parse, true, s, a) != s
  {
    hide P.Step, H.Step;
    H.QuietIff(parse, true, s.sys);
    var own :| H.Own(own) && H.Step(parse, true, s.sys, own) != s.sys;
    var p, w := PhaseOf(s.sys, own), SequenceOf(own);
    if p.Replaced? && s.data.pub.reloads[w] != P.Rest {
      ReloadAdvances(parse, s.data, w);
      assert Step(parse, true, s, Data(P.AdvanceReload(w))) != s;
    } else {
      assert Step(parse, true, s, System(own)) != s;
    }
  }

  lemma ReloadAdvances(parse: U.UrlParser, s: P.State, w: nat)
    requires s.pub.lists != [] && w < |s.pub.reloads| && s.pub.reloads[w] != P.Rest
    ensures P.Step(parse, true, s, P.AdvanceReload(w)) != s
  {
    hide Routable, Names, Claim, P.Pruned;
    assert P.Step(parse, true, s, P.AdvanceReload(w)).pub.reloads[w] != s.pub.reloads[w];
  }

  /** And requests run as they do without reloads. */
  lemma DataActs(parse: U.UrlParser, exclusive: bool, s: State, step: P.Action)
    requires s.data.pub.lists != [] && !step.BeginReload?
    ensures Step(parse, exclusive, s, Data(step)) == s.(data := P.Step(parse, exclusive, s.data, step))
  {
  }

  /** Whatever requests, disk changes and saves came before, once no event is queued, no timer
      runs and no reload is under way: requests are looked up in the list that the directory
      loads as now, the runtime map is the complete map of that list, and the metrics registry
      holds its names and, beyond those, only domains of requests that were in flight when the
      metrics were last pruned. */
  lemma ServesTheDisk(parse: U.UrlParser, disk: Disk, n: nat, whole: seq<Action>)
    ensures var s := Run(parse, true, Initial(disk, n), whole);
            var sites := LoadAll(parse, s.sys.disk);
            H.Quiet(s.sys) ==>
              && P.Current(s.data.pub) == sites
              && s.data.pub.runtimes == Routes(parse, sites)
              && s.data.rec.registry.Keys <= Kept(sites) + s.data.rec.leftover
  {
    var actions, steps := RunProjects(parse, true, disk, n, whole);
    CoupledHolds(parse, disk, n, whole);
    hide Run, H.Run, P.Run, LoadAll, Routes, Kept, H.Inv;
    var s := Run(parse, true, Initial(disk, n), whole);
    if H.Quiet(s.sys) {
      H.Converged(parse, disk, actions);
      P.NeverMoreThanOneBehind(parse, n, 2, steps);
      C.RegistryBounded(parse, n, 2, steps);
      assert P.Resting(s.data.pub);
    }
  }

  /** So each domain in that list is served by its own site where its pool builds and no later
      routable site writes its name. */
  lemma AtRestServedByOwner(parse: U.UrlParser, disk: Disk, n: nat, whole: seq<Action>, i: nat)
    requires H.Quiet(Run(parse, true, Initial(disk, n), whole).sys)
    requires var sites := LoadAll(parse, Run(parse, true, Initial(disk, n), whole).sys.disk);
             && i < |sites| && Routable(parse, sites[i])
             && forall j | i < j < |sites| && Routable(parse, sites[j]) :: sites[i].domain !in Names(sites[j])
    ensures var s := Run(parse, true, Initial(disk, n), whole);
            var site := LoadAll(parse, s.sys.disk)[i];
            site.domain in s.data.pub.runtimes && s.data.pub.runtimes[site.domain] == site
  {
    ServesTheDisk(parse, disk, n, whole);
    hide Run, LoadAll, Routes, Routable, Names;
    var sites := LoadAll(parse, Run(parse, true, Initial(disk, n), whole).sys.disk);
    DomainIsName(sites[i]);
    RoutesAreLastRoute(parse, sites, sites[i].domain);
  }
}
