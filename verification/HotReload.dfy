/** Hot reload as a step machine: disk changes, queued events, the debounce timer, loading
    file by file, and publication to the store and then to the router, for the watcher and
    the admin UI, internal/config/watcher.go and cmd/jobcloud/main.go. */
module HotReload {
  import opened Config
  import opened Wrappers
  import Text
  import U = Upstream

  /** Where a reload sequence is. */
  datatype Phase =
    | Rest
    | Starting
    | Loading(listing: seq<DirEntry>, next: nat, acc: seq<Site>)
    | Loaded(sites: seq<Site>)
    | Replaced(sites: seq<Site>)

  /** `queue` holds the pending file events by relevance (a mere permission change is not
      relevant); `store` and `routed` are the lists last published to the store and the router. */
  datatype State = State(
    disk: Disk, queue: seq<bool>, armed: bool,
    watcher: Phase, ui: Phase,
    store: seq<Site>, routed: seq<Site>)

  datatype Action =
    | Change(disk: Disk, events: seq<bool>)
    | HandleEvent
    | TimerFires
    | SaveInUI
    | AdvanceWatcher
    | AdvanceUI

  /** The watcher is registered with the directory before its initial load. */
  function Initial(disk: Disk): State {
    State(disk, [], false, Starting, Rest, [], [])
  }

  /** Next phase of a reload sequence that reads the disk as it is now. */
  function NextPhase(parse: U.UrlParser, disk: Disk, p: Phase): Phase {
    match p
    case Rest => Rest
    case Starting => if disk.Unreadable? then Loaded([]) else Loading(disk.entries, 0, [])
    case Loading(listing, next, acc) =>
      if next >= |listing| then Loaded(SortByDomain(acc))
      else if !IsSiteFile(listing[next]) then Loading(listing, next + 1, acc)
      else
        var r := LoadSiteFile(parse, disk, listing[next].name);
        Loading(listing, next + 1, if r.Ok? then acc + [r.value] else acc)
    case Loaded(sites) => Replaced(sites)
    case Replaced(_) => Rest
  }

  /** Leaving Loaded replaces the store's list, leaving Replaced the router's. */
  function Publish(s: State, p: Phase): State {
    match p
    case Loaded(sites) => s.(store := sites)
    case Replaced(sites) => s.(routed := sites)
    case _ => s
  }

  /** One step; an impossible action changes nothing. With `exclusive` a reload sequence
      begins only when no other is under way. Every change of the disk queues a relevant event. */
  function Step(parse: U.UrlParser, exclusive: bool, s: State, a: Action): State {
    match a
    case Change(disk, events) =>
      if disk != s.disk && true !in events then s else s.(disk := disk, queue := s.queue + events)
    case HandleEvent =>
      if s.watcher != Rest || s.queue == [] then s
      else s.(queue := s.queue[1..], armed := s.armed || s.queue[0])
    case TimerFires =>
      if s.watcher != Rest || !s.armed || (exclusive && s.ui != Rest) then s
      else s.(armed := false, watcher := Starting)
    case SaveInUI =>
      if s.ui != Rest || (exclusive && s.watcher != Rest) then s else s.(ui := Starting)
    case AdvanceWatcher =>
      Publish(s, s.watcher).(watcher := NextPhase(parse, s.disk, s.watcher))
    case AdvanceUI =>
      Publish(s, s.ui).(ui := NextPhase(parse, s.disk, s.ui))
  }

  /** An irrelevant event may come without a change of the disk, and handling it arms nothing;
      a relevant one arms the timer. */
  lemma EventsArm(parse: U.UrlParser, exclusive: bool, s: State, relevant: bool)
    requires s.watcher == Rest && s.queue == []
    ensures var queued := Step(parse, exclusive, s, Change(s.disk, [relevant]));
            && queued == s.(queue := [relevant])
            && Step(parse, exclusive, queued, HandleEvent) == s.(armed := s.armed || relevant)
  {
    assert [] + [relevant] == [relevant] && [relevant][1..] == [];
  }

  /** A watcher that reloads handles no event and takes no timer. */
  lemma BusyWatcherWaits(parse: U.UrlParser, exclusive: bool, s: State)
    requires s.watcher != Rest
    ensures Step(parse, exclusive, s, HandleEvent) == s && Step(parse, exclusive, s, TimerFires) == s
  {
  }

  function Run(parse: U.UrlParser, exclusive: bool, s: State, actions: seq<Action>): State
    decreases |actions|
  {
    if actions == [] then s else Run(parse, exclusive, Step(parse, exclusive, s, actions[0]), actions[1..])
  }

  /** Nothing is under way and nothing is waiting. */
  predicate Quiet(s: State) {
    s.watcher == Rest && s.ui == Rest && !s.armed && s.queue == []
  }

  // ---------------------------------------------------------------------------
  // Convergence
  // ---------------------------------------------------------------------------

  /** What the sequence has read so far is what the disk holds now. */
  ghost predicate Current(parse: U.UrlParser, disk: Disk, p: Phase) {
    match p
    case Loading(listing, next, acc) =>
      disk.Readable? && listing == disk.entries && next <= |listing| && acc == LoadListed(parse, disk, listing[..next])
    case Loaded(sites) => sites == LoadAll(parse, disk)
    case Replaced(sites) => sites == LoadAll(parse, disk)
    case _ => true
  }

  ghost predicate Pending(s: State) {
    s.armed || true in s.queue
  }

  ghost predicate Inv(parse: U.UrlParser, s: State) {
    && (s.watcher == Rest || s.ui == Rest)
    && (s.watcher.Replaced? ==> s.store == s.watcher.sites)
    && (s.ui.Replaced? ==> s.store == s.ui.sites)
    && (!Pending(s) ==>
          && Current(parse, s.disk, s.watcher) && Current(parse, s.disk, s.ui)
          && (s.watcher == Rest && s.ui == Rest ==> s.store == s.routed == LoadAll(parse, s.disk)))
  }

  lemma CurrentStep(parse: U.UrlParser, disk: Disk, p: Phase)
    requires Current(parse, disk, p)
    ensures Current(parse, disk, NextPhase(parse, disk, p))
  {
    hide LoadSiteFile, IsSiteFile, SortByDomain;
    match p {
      case Loading(listing, next, acc) =>
        if next < |listing| {
          assert listing[..next + 1] == listing[..next] + [listing[next]];
          LoadListedAppend(parse, disk, listing[..next], [listing[next]]);
        } else {
          assert listing[..next] == listing;
        }
      case Starting =>
        if disk.Readable? {
          assert disk.entries[..0] == [];
        }
      case _ =>
    }
  }

  lemma InvStep(parse: U.UrlParser, s: State, a: Action)
    requires Inv(parse, s)
    ensures Inv(parse, Step(parse, true, s, a))
  {
    hide LoadAll, Current, NextPhase;
    var s' := Step(parse, true, s, a);
    match a {
      case Change(disk, events) =>
        if s' != s {
          assert true in events ==> true in s.queue + events;
        }
      case HandleEvent =>
        if s' != s {
          assert s.queue == [s.queue[0]] + s.queue[1..];
        }
      case TimerFires =>
        NothingRead(parse, s.disk);
      case SaveInUI =>
        NothingRead(parse, s.disk);
      case AdvanceWatcher =>
        AdvanceKeeps(parse, s.disk, s.watcher);
        NothingRead(parse, s.disk);
      case AdvanceUI =>
        AdvanceKeeps(parse, s.disk, s.ui);
        NothingRead(parse, s.disk);
    }
  }

  lemma NothingRead(parse: U.UrlParser, disk: Disk)
    ensures Current(parse, disk, Rest) && Current(parse, disk, Starting)
  {
  }

  lemma AdvanceKeeps(parse: U.UrlParser, disk: Disk, p: Phase)
    ensures Current(parse, disk, p) ==> Current(parse, disk, NextPhase(parse, disk, p))
    ensures p == Rest ==> NextPhase(parse, disk, p) == Rest
    ensures NextPhase(parse, disk, p) == Rest ==> p == Rest || p.Replaced?
    ensures NextPhase(parse, disk, p).Replaced? ==> p.Loaded? && NextPhase(parse, disk, p).sites == p.sites
    ensures Current(parse, disk, p) && p.Replaced? ==> p.sites == LoadAll(parse, disk)
  {
    if Current(parse, disk, p) {
      CurrentStep(parse, disk, p);
    }
  }

  lemma {:induction false} InvHolds(parse: U.UrlParser, s: State, actions: seq<Action>)
    requires Inv(parse, s)
    ensures Inv(parse, Run(parse, true, s, actions))
    decreases |actions|
  {
    hide Step, Inv;
    if actions == [] {
    } else {
      InvStep(parse, s, actions[0]);
      InvHolds(parse, Step(parse, true, s, actions[0]), actions[1..]);
    }
  }

  /** Whatever happened before, once nothing is under way or waiting, the store and the
      router hold exactly what loading the current disk in one go would give. */
  lemma Converged(parse: U.UrlParser, disk: Disk, actions: seq<Action>)
    requires Quiet(Run(parse, true, Initial(disk), actions))
    ensures var s := Run(parse, true, Initial(disk), actions);
            s.store == LoadAll(parse, s.disk) && s.routed == LoadAll(parse, s.disk)
  {
    InvHolds(parse, Initial(disk), actions);
  }

  // ---------------------------------------------------------------------------
  // Progress
  // ---------------------------------------------------------------------------

  /** Steps still needed to finish a reload sequence on this disk. */
  function Remaining(disk: Disk, p: Phase): nat {
    match p
    case Rest => 0
    case Replaced(_) => 1
    case Loaded(_) => 2
    case Loading(listing, next, _) => 3 + if next < |listing| then |listing| - next else 0
    case Starting => 4 + if disk.Readable? then |disk.entries| else 0
  }

  /** The steps the program takes by itself: handling events, firing the timer, reloading. */
  predicate Own(a: Action) {
    !a.Change? && !a.SaveInUI?
  }

  /** An upper bound on the own steps still to come: an event can arm the timer, and the timer
      can start one reload sequence. */
  function Rank(s: State): nat {
    var reload := 5 + if s.disk.Readable? then |s.disk.entries| else 0;
    |s.queue| * (reload + 1) + (if s.armed then reload else 0)
    + Remaining(s.disk, s.watcher) + Remaining(s.disk, s.ui)
  }

  lemma PhaseDescends(parse: U.UrlParser, disk: Disk, p: Phase)
    ensures p != Rest ==> Remaining(disk, NextPhase(parse, disk, p)) < Remaining(disk, p)
    ensures p == Rest ==> NextPhase(parse, disk, p) == Rest
    ensures Remaining(disk, Starting) < 5 + if disk.Readable? then |disk.entries| else 0
  {
    hide LoadSiteFile, IsSiteFile, SortByDomain;
  }

  /** Whichever of its own steps the program takes, there are fewer left. */
  lemma OwnStepDescends(parse: U.UrlParser, exclusive: bool, s: State, a: Action)
    requires Own(a) && Step(parse, exclusive, s, a) != s
    ensures Step(parse, exclusive, s, a).disk == s.disk
    ensures Rank(Step(parse, exclusive, s, a)) < Rank(s)
  {
    hide NextPhase, Remaining;
    PhaseDescends(parse, s.disk, s.watcher);
    PhaseDescends(parse, s.disk, s.ui);
    if a == HandleEvent {
      var reload := 5 + if s.disk.Readable? then |s.disk.entries| else 0;
      assert |s.queue[1..]| * (reload + 1) == |s.queue| * (reload + 1) - (reload + 1);
    }
  }

  /** In any state that is not quiet it has a step to take, in a quiet one it has none. */
  lemma QuietIff(parse: U.UrlParser, exclusive: bool, s: State)
    ensures Quiet(s) <==> forall a | Own(a) :: Step(parse, exclusive, s, a) == s
  {
    hide NextPhase, Remaining;
    PhaseDescends(parse, s.disk, s.watcher);
    PhaseDescends(parse, s.disk, s.ui);
    if !Quiet(s) {
      var a := if s.watcher != Rest then AdvanceWatcher
               else if s.ui != Rest then AdvanceUI
               else if s.queue != [] then HandleEvent
               else TimerFires;
      assert Own(a) && Step(parse, exclusive, s, a) != s;
    }
  }

  /** A run of the program's own steps, each of which does something, in any order. */
  ghost predicate OwnRun(parse: U.UrlParser, exclusive: bool, s: State, actions: seq<Action>)
    decreases |actions|
  {
    actions == []
    || (&& Own(actions[0]) && Step(parse, exclusive, s, actions[0]) != s
        && OwnRun(parse, exclusive, Step(parse, exclusive, s, actions[0]), actions[1..]))
  }

  lemma {:induction false} OwnRunBounded(parse: U.UrlParser, exclusive: bool, s: State, actions: seq<Action>)
    requires OwnRun(parse, exclusive, s, actions)
    ensures Run(parse, exclusive, s, actions).disk == s.disk
    ensures |actions| + Rank(Run(parse, exclusive, s, actions)) <= Rank(s)
    decreases |actions|
  {
    hide Step, Rank;
    if actions == [] {
    } else {
      OwnStepDescends(parse, exclusive, s, actions[0]);
      OwnRunBounded(parse, exclusive, Step(parse, exclusive, s, actions[0]), actions[1..]);
    }
  }

  /** When the disk stops changing, the program comes to rest under every schedule of its own
      steps and whether or not reload sequences exclude each other: no schedule is longer than
      the rank, and a schedule can be extended exactly until it is quiet. */
  lemma Settles(parse: U.UrlParser, exclusive: bool, s: State, actions: seq<Action>)
    requires OwnRun(parse, exclusive, s, actions)
    ensures |actions| <= Rank(s)
    ensures var end := Run(parse, exclusive, s, actions);
            end.disk == s.disk && (Quiet(end) <==> forall a | Own(a) :: Step(parse, exclusive, end, a) == end)
  {
    hide Run, Rank, Step;
    OwnRunBounded(parse, exclusive, s, actions);
    QuietIff(parse, exclusive, Run(parse, exclusive, s, actions));
  }

  /** From every reachable state, every schedule of own steps therefore ends, after at most
      the rank of that state, with the current disk published. */
  lemma EventuallyPublished(parse: U.UrlParser, disk: Disk, past: seq<Action>, future: seq<Action>)
    requires OwnRun(parse, true, Run(parse, true, Initial(disk), past), future)
    ensures var now := Run(parse, true, Initial(disk), past);
            var s := Run(parse, true, now, future);
            && |future| <= Rank(now)
            && ((forall a | Own(a) :: Step(parse, true, s, a) == s) ==>
                  s.disk == now.disk && s.store == s.routed == LoadAll(parse, now.disk))
  {
    hide Run, Rank, Step, LoadAll;
    var now := Run(parse, true, Initial(disk), past);
    Settles(parse, true, now, future);
    RunAppend(parse, true, Initial(disk), past, future);
    if Quiet(Run(parse, true, now, future)) {
      Converged(parse, disk, past + future);
    }
  }

  // ---------------------------------------------------------------------------
  // Why exclusion is needed
  // ---------------------------------------------------------------------------

  lemma RunOne(parse: U.UrlParser, exclusive: bool, s: State, first: Action, rest: seq<Action>)
    ensures Run(parse, exclusive, s, [first] + rest) == Run(parse, exclusive, Step(parse, exclusive, s, first), rest)
  {
    assert ([first] + rest)[1..] == rest;
  }

  lemma {:induction false} RunAppend(parse: U.UrlParser, exclusive: bool, s: State, a: seq<Action>, b: seq<Action>)
    ensures Run(parse, exclusive, s, a + b) == Run(parse, exclusive, Run(parse, exclusive, s, a), b)
    decreases |a|
  {
    hide Step;
    if a == [] {
      assert a + b == b;
    } else {
      assert (a + b)[1..] == a[1..] + b;
      RunAppend(parse, exclusive, Step(parse, exclusive, s, a[0]), a[1..], b);
    }
  }

  lemma RunTwo(parse: U.UrlParser, s: State, a: Action, b: Action)
    ensures Run(parse, false, s, [a, b]) == Step(parse, false, Step(parse, false, s, a), b)
  {
    hide Step;
    RunOne(parse, false, s, a, [b]);
    RunOne(parse, false, Step(parse, false, s, a), b, []);
    assert [a, b] == [a] + [b] && [b] == [b] + [];
  }

  const WATCHER_TWICE: seq<Action> := [AdvanceWatcher, AdvanceWatcher]
  const WATCHER_LOADS: seq<Action> := WATCHER_TWICE + WATCHER_TWICE + WATCHER_TWICE

  lemma RunThrice(parse: U.UrlParser, s0: State, s1: State, s2: State, s3: State)
    requires Run(parse, false, s0, WATCHER_TWICE) == s1
    requires Run(parse, false, s1, WATCHER_TWICE) == s2
    requires Run(parse, false, s2, WATCHER_TWICE) == s3
    ensures Run(parse, false, s0, WATCHER_LOADS) == s3
  {
    hide Run;
    RunAppend(parse, false, s0, WATCHER_TWICE + WATCHER_TWICE, WATCHER_TWICE);
    RunAppend(parse, false, s0, WATCHER_TWICE, WATCHER_TWICE);
  }

  /** An undisturbed watcher reload of an empty directory. */
  lemma LoadsNothing(parse: U.UrlParser, s: State)
    requires s.watcher == Starting && s.disk == Readable([])
    ensures LoadAll(parse, s.disk) == []
    ensures Run(parse, false, s, WATCHER_LOADS) == s.(watcher := Rest, store := [], routed := [])
  {
    hide Run;
    var s1 := s.(watcher := Loaded([]));
    var s2 := s.(watcher := Rest, store := [], routed := []);
    assert SortByDomain([]) == [];
    RunTwo(parse, s, AdvanceWatcher, AdvanceWatcher);
    RunTwo(parse, s1, AdvanceWatcher, AdvanceWatcher);
    RunTwo(parse, s2, AdvanceWatcher, AdvanceWatcher);
    RunThrice(parse, s, s1, s2, s2);
  }

  lemma OneSite(parse: U.UrlParser, site: Site)
    requires site.filename == "a.yml" && Validate(parse, site) == None
    ensures var e := DirEntry("a.yml", File(Document(site)));
            && IsSiteFile(e) && LoadSiteFile(parse, Readable([e]), e.name) == Ok(site)
            && LoadAll(parse, Readable([e])) == [site]
    ensures SortByDomain([site]) == [site] && SortByDomain([]) == []
  {
    hide Validate;
    var e := DirEntry("a.yml", File(Document(site)));
    assert site.(filename := "a.yml") == site;
    assert Text.HasSuffix("a.yml", ".yml");
    assert LoadListed(parse, Readable([e]), []) == [];
    assert LoadListed(parse, Readable([e]), [e]) == [site];
    assert SortByDomain([]) == [];
    assert [site][..0] == [];
  }

  /** And of one with a single site. */
  lemma LoadsSite(parse: U.UrlParser, s: State, site: Site)
    requires s.watcher == Starting && site.filename == "a.yml" && Validate(parse, site) == None
    requires s.disk == Readable([DirEntry("a.yml", File(Document(site)))])
    ensures LoadAll(parse, s.disk) == [site]
    ensures Run(parse, false, s, WATCHER_LOADS) == s.(watcher := Rest, store := [site], routed := [site])
  {
    hide Run, LoadAll, Validate, LoadSiteFile, IsSiteFile, SortByDomain;
    OneSite(parse, site);
    ReadsSite(parse, s, site);
    var s1 := s.(watcher := Loading(s.disk.entries, 1, [site]));
    SortsAndReplaces(parse, s1, site);
    var s2 := s1.(watcher := Replaced([site]), store := [site]);
    Finishes(parse, s2);
    RunThrice(parse, s, s1, s2, s2.(watcher := Rest, routed := [site]));
  }

  lemma Finishes(parse: U.UrlParser, s: State)
    requires s.watcher.Replaced?
    ensures Run(parse, false, s, WATCHER_TWICE) == s.(watcher := Rest, routed := s.watcher.sites)
  {
    hide Run, LoadSiteFile, IsSiteFile, SortByDomain;
    RunTwo(parse, s, AdvanceWatcher, AdvanceWatcher);
    var s1 := s.(watcher := Rest, routed := s.watcher.sites);
    assert Step(parse, false, s, AdvanceWatcher) == s1;
    assert Step(parse, false, s1, AdvanceWatcher) == s1;
  }

  lemma ReadsSite(parse: U.UrlParser, s: State, site: Site)
    requires s.watcher == Starting && s.disk.Readable? && |s.disk.entries| == 1 && IsSiteFile(s.disk.entries[0])
    requires LoadSiteFile(parse, s.disk, s.disk.entries[0].name) == Ok(site)
    ensures Run(parse, false, s, WATCHER_TWICE) == s.(watcher := Loading(s.disk.entries, 1, [site]))
  {
    RunTwo(parse, s, AdvanceWatcher, AdvanceWatcher);
    hide Run, LoadSiteFile, IsSiteFile, SortByDomain;
    assert Step(parse, false, s, AdvanceWatcher) == s.(watcher := Loading(s.disk.entries, 0, []));
  }

  lemma SortsAndReplaces(parse: U.UrlParser, s: State, site: Site)
    requires s.watcher.Loading? && s.watcher.next == |s.watcher.listing| && s.watcher.acc == [site]
    requires SortByDomain([site]) == [site]
    ensures Run(parse, false, s, WATCHER_TWICE) == s.(watcher := Replaced([site]), store := [site])
  {
    RunTwo(parse, s, AdvanceWatcher, AdvanceWatcher);
    hide Run, LoadSiteFile, IsSiteFile, SortByDomain;
    assert Step(parse, false, s, AdvanceWatcher) == s.(watcher := Loaded([site]));
  }

  /** The UI reads the empty directory, the disk changes, and the watcher starts a reload. */
  lemma UIReadsThenDiskChanges(parse: U.UrlParser, s: State, full: Disk)
    requires Quiet(s) && s.disk == Readable([])
    ensures Run(parse, false, s, [SaveInUI, AdvanceUI] + [AdvanceUI, Change(full, [true])] + [HandleEvent, TimerFires])
            == s.(ui := Loaded([]), disk := full, watcher := Starting)
  {
    hide Run;
    var s1 := s.(ui := Loading([], 0, []));
    var s2 := s.(ui := Loaded([]), disk := full, queue := [true]);
    assert SortByDomain([]) == [];
    assert [] + [true] == [true] && [true][1..] == [];
    RunTwo(parse, s, SaveInUI, AdvanceUI);
    RunTwo(parse, s1, AdvanceUI, Change(full, [true]));
    RunTwo(parse, s2, HandleEvent, TimerFires);
    hide Step;
    RunAppend(parse, false, s, [SaveInUI, AdvanceUI] + [AdvanceUI, Change(full, [true])], [HandleEvent, TimerFires]);
    RunAppend(parse, false, s, [SaveInUI, AdvanceUI], [AdvanceUI, Change(full, [true])]);
  }

  lemma UIPublishes(parse: U.UrlParser, s: State)
    requires s.ui == Loaded([])
    ensures Run(parse, false, s, [AdvanceUI, AdvanceUI]) == s.(ui := Rest, store := [], routed := [])
  {
    hide Run, LoadSiteFile, IsSiteFile, SortByDomain;
    RunTwo(parse, s, AdvanceUI, AdvanceUI);
    assert Step(parse, false, s, AdvanceUI) == s.(ui := Replaced([]), store := []);
  }

  /** Without exclusion the program can come to rest on a stale list: the UI's sequence has
      read the empty directory, the watcher then loads and publishes the new file, and the UI
      publishes its empty list last. */
  lemma StaleWithoutExclusion(parse: U.UrlParser, site: Site)
    requires site.filename == "a.yml" && Validate(parse, site) == None
    ensures exists actions: seq<Action> ::
              var s := Run(parse, false, Initial(Readable([])), actions);
              Quiet(s) && s.store == s.routed == [] && LoadAll(parse, s.disk) == [site]
  {
    hide Run, LoadAll, Validate;
    var full := Readable([DirEntry("a.yml", File(Document(site)))]);
    var overtake := [SaveInUI, AdvanceUI] + [AdvanceUI, Change(full, [true])] + [HandleEvent, TimerFires];
    var s0 := Initial(Readable([]));
    LoadsNothing(parse, s0);
    var s1 := s0.(watcher := Rest);
    UIReadsThenDiskChanges(parse, s1, full);
    var s2 := s1.(ui := Loaded([]), disk := full, watcher := Starting);
    LoadsSite(parse, s2, site);
    var s3 := s2.(watcher := Rest, store := [site], routed := [site]);
    UIPublishes(parse, s3);
    RunAppend(parse, false, s0, WATCHER_LOADS, overtake);
    RunAppend(parse, false, s0, WATCHER_LOADS + overtake, WATCHER_LOADS);
    RunAppend(parse, false, s0, WATCHER_LOADS + overtake + WATCHER_LOADS, [AdvanceUI, AdvanceUI]);
    var actions := WATCHER_LOADS + overtake + WATCHER_LOADS + [AdvanceUI, AdvanceUI];
    assert Run(parse, false, s0, actions) == s3.(ui := Rest, store := [], routed := []);
  }

  /** Exclusion is exactly what convergence needs, whatever the URL parser accepts: one site
      whose upstream is a plain host:port is enough to go stale without it. */
  lemma ConvergesIffExclusive(parse: U.UrlParser, exclusive: bool)
    ensures exclusive <==>
              forall disk, actions ::
                var s := Run(parse, exclusive, Initial(disk), actions);
                Quiet(s) ==> s.store == s.routed == LoadAll(parse, s.disk)
  {
    hide Run, LoadAll, Validate;
    if exclusive {
      forall disk, actions | Quiet(Run(parse, true, Initial(disk), actions))
        ensures var s := Run(parse, true, Initial(disk), actions);
                s.store == s.routed == LoadAll(parse, s.disk)
      {
        Converged(parse, disk, actions);
      }
    } else {
      var site := BareSite("app.test", [], "app" + ":" + "80");
      BareSiteIsValid(parse, "app.test", [], "app", "80");
      StaleWithoutExclusion(parse, site);
    }
  }
}
