/** Requests running while reloads publish: the store is replaced, the runtimes are rebuilt
    site by site and swapped, the metrics are pruned, and meanwhile requests look up a site,
    fetch a runtime and record their sample through the double-checked registry,
    internal/proxy/router.go, internal/metrics/metrics.go and cmd/jobcloud/main.go. */
module Publication {
  import opened Wrappers
  import opened Config
  import opened Routing
  import Text
  import M = Metrics
  import U = Upstream

  /** A reload sequence, from the replacement of the store by list number `gen` on. */
  datatype Reload =
    | Rest
    | Building(list: seq<Site>, gen: nat, next: nat, partial: map<string, Site>)
    | Swapped(list: seq<Site>, gen: nat)

  /** `lists[g]` is the list of generation g, the last one being the store's, and `rtGen` the
      generation of the runtime map. The watcher and each caller of the admin UI has a reload
      sequence of its own. */
  datatype Published = Published(
    lists: seq<seq<Site>>,
    runtimes: map<string, Site>, rtGen: nat,
    reloads: seq<Reload>)

  /** Metrics objects are numbered; `samples` is what each has locked in and `done` the samples
      of all completed recordings of a domain. `leftover` are the domains of the requests that
      were in flight when the metrics were last pruned. */
  datatype Recorded = Recorded(
    registry: map<string, nat>, nextId: nat,
    samples: map<nat, seq<M.Sample>>, done: map<string, seq<M.Sample>>,
    leftover: set<string>)

  /** A request: `gen` is the generation of the list its lookup read, `rtGen` that of the
      runtime map it fetched `runtime` from. */
  datatype Request =
    | Idle
    | Routing(name: string, site: Site, gen: nat)
    | Serving(name: string, site: Site, gen: nat, rtGen: nat, runtime: Site)
    | Wants(domain: string, sm: M.Sample)
    | Missed(domain: string, sm: M.Sample)
    | Holds(domain: string, id: nat, sm: M.Sample)

  datatype State = State(pub: Published, rec: Recorded, requests: seq<Request>)

  datatype Action =
    | BeginReload(w: nat, list: seq<Site>)
    | AdvanceReload(w: nat)
    | Arrive(t: nat, host: string)
    | AnswerEarly(t: nat)
    | FetchRuntime(t: nat)
    | Finish(t: nat, sm: M.Sample)
    | ReadLock(t: nat)
    | WriteLock(t: nat)
    | Record(t: nat)

  /** n requests and k reload sequences at rest, nothing published. */
  ghost function Initial(n: nat, k: nat): State {
    State(Published([[]], map[], 0, seq(k, _ => Rest)), Recorded(map[], 0, map[], map[], {}), seq(n, _ => Idle))
  }

  function At<K>(m: map<K, seq<M.Sample>>, k: K): seq<M.Sample> {
    if k in m then m[k] else []
  }

  function Current(p: Published): seq<Site>
    requires p.lists != []
  {
    p.lists[|p.lists| - 1]
  }

  ghost predicate Resting(p: Published) {
    forall r | r in p.reloads :: r == Rest
  }

  function DomainOf(r: Request): set<string> {
    match r
    case Idle => {}
    case Routing(_, site, _) => {site.domain}
    case Serving(_, site, _, _, _) => {site.domain}
    case Wants(d, _) => {d}
    case Missed(d, _) => {d}
    case Holds(d, _, _) => {d}
  }

  /** The domains of the requests under way. */
  ghost function InFlight(requests: seq<Request>): set<string> {
    set r, d | r in requests && d in DomainOf(r) :: d
  }

  // ---------------------------------------------------------------------------
  // Steps
  // ---------------------------------------------------------------------------

  /** Reload sequence w replaces the store's list; with `exclusive` only if none is under way. */
  ghost function Begin(exclusive: bool, p: Published, w: nat, list: seq<Site>): Published {
    if w >= |p.reloads| || p.reloads[w] != Rest || (exclusive && !Resting(p)) then p
    else p.(lists := p.lists + [list], reloads := p.reloads[w := Building(list, |p.lists|, 0, map[])])
  }

  /** Its next step: one more site, or the swap of the router's map, or the prune. */
  ghost function Advance(parse: U.UrlParser, p: Published, w: nat): Published
    requires w < |p.reloads|
  {
    match p.reloads[w]
    case Rest => p
    case Building(list, gen, i, partial) =>
      if i < |list| then
        var more := if Routable(parse, list[i]) then Claim(partial, Names(list[i]), list[i]) else partial;
        p.(reloads := p.reloads[w := Building(list, gen, i + 1, more)])
      else p.(runtimes := partial, rtGen := gen, reloads := p.reloads[w := Swapped(list, gen)])
    case Swapped(_, _) => p.(reloads := p.reloads[w := Rest])
  }

  /** The prune drops the metrics of all names that its list does not keep. */
  ghost function Pruned(rec: Recorded, list: seq<Site>, inFlight: set<string>): Recorded {
    rec.(registry := map d | d in rec.registry && d in Kept(list) :: rec.registry[d], leftover := inFlight)
  }

  ghost function ReloadStep(parse: U.UrlParser, s: State, w: nat): State
    requires w < |s.pub.reloads|
  {
    var r := s.pub.reloads[w];
    State(Advance(parse, s.pub, w), if r.Swapped? then Pruned(s.rec, r.list, InFlight(s.requests)) else s.rec, s.requests)
  }

  /** Where a request goes; an impossible action leaves it where it is. */
  ghost function NextRequest(p: Published, rec: Recorded, r: Request, a: Action): Request
    requires p.lists != []
  {
    match (r, a)
    case (Idle, Arrive(_, host)) =>
      var name := Normalise(host);
      var i := LastClaim(Current(p), name);
      if i < 0 then Idle else Routing(name, Current(p)[i], |p.lists| - 1)
    case (Routing(_, _, _), AnswerEarly(_)) => Idle
    case (Routing(name, site, gen), FetchRuntime(_)) =>
      if site.domain !in p.runtimes then Idle else Serving(name, site, gen, p.rtGen, p.runtimes[site.domain])
    case (Serving(_, site, _, _, _), Finish(_, sm)) => Wants(site.domain, sm)
    case (Wants(d, sm), ReadLock(_)) => if d in rec.registry then Holds(d, rec.registry[d], sm) else Missed(d, sm)
    case (Missed(d, sm), WriteLock(_)) =>
      Holds(d, if d in rec.registry then rec.registry[d] else rec.nextId, sm)
    case (Holds(_, _, _), Record(_)) => Idle
    case _ => r
  }

  /** What it does to the metrics on the way: create an object or record a sample. */
  ghost function NextRecorded(rec: Recorded, r: Request, a: Action): Recorded {
    match (r, a)
    case (Missed(d, _), WriteLock(_)) =>
      if d in rec.registry then rec
      else rec.(registry := rec.registry[d := rec.nextId], nextId := rec.nextId + 1)
    case (Holds(d, id, sm), Record(_)) =>
      rec.(samples := rec.samples[id := At(rec.samples, id) + [sm]], done := rec.done[d := At(rec.done, d) + [sm]])
    case _ => rec
  }

  ghost function RequestStep(s: State, t: nat, a: Action): State
    requires s.pub.lists != [] && t < |s.requests|
  {
    var r := s.requests[t];
    State(s.pub, NextRecorded(s.rec, r, a), s.requests[t := NextRequest(s.pub, s.rec, r, a)])
  }

  /** One step; an impossible action changes nothing. */
  ghost function Step(parse: U.UrlParser, exclusive: bool, s: State, a: Action): State
    requires s.pub.lists != []
  {
    match a
    case BeginReload(w, list) => s.(pub := Begin(exclusive, s.pub, w, list))
    case AdvanceReload(w) => if w < |s.pub.reloads| then ReloadStep(parse, s, w) else s
    case _ => if a.t < |s.requests| then RequestStep(s, a.t, a) else s
  }

  /** A sequence under way does not begin again. */
  lemma BusySequenceWaits(exclusive: bool, p: Published, w: nat, list: seq<Site>)
    requires w < |p.reloads| && p.reloads[w] != Rest
    ensures Begin(exclusive, p, w, list) == p
  {
  }

  lemma ListsGrow(parse: U.UrlParser, exclusive: bool, s: State, a: Action)
    requires s.pub.lists != []
    ensures var s' := Step(parse, exclusive, s, a);
            && (s'.pub.lists == s.pub.lists || (a.BeginReload? && s'.pub.lists == s.pub.lists + [a.list]))
            && |s'.pub.reloads| == |s.pub.reloads|
  {
    hide NextRequest, NextRecorded, Routable, Names, Claim, Pruned, Resting;
  }

  ghost function Run(parse: U.UrlParser, exclusive: bool, s: State, actions: seq<Action>): (r: State)
    requires s.pub.lists != []
    ensures r.pub.lists != []
    decreases |actions|
  {
    if actions == [] then s
    else
      ListsGrow(parse, exclusive, s, actions[0]);
      Run(parse, exclusive, Step(parse, exclusive, s, actions[0]), actions[1..])
  }

  lemma NoRun(parse: U.UrlParser, exclusive: bool, s: State)
    requires s.pub.lists != []
    ensures Run(parse, exclusive, s, []) == s
  {
  }

  lemma {:induction false} RunLast(parse: U.UrlParser, exclusive: bool, s: State, actions: seq<Action>, a: Action)
    requires s.pub.lists != []
    ensures Run(parse, exclusive, s, actions + [a]) == Step(parse, exclusive, Run(parse, exclusive, s, actions), a)
    decreases |actions|
  {
    hide Step;
    if actions == [] {
      assert [] + [a] == [a] && [a][1..] == [];
      ListsGrow(parse, exclusive, s, a);
    } else {
      assert (actions + [a])[1..] == actions[1..] + [a];
      ListsGrow(parse, exclusive, s, actions[0]);
      RunLast(parse, exclusive, Step(parse, exclusive, s, actions[0]), actions[1..], a);
    }
  }

  lemma {:induction false} RunExtends(parse: U.UrlParser, exclusive: bool, s: State, actions: seq<Action>)
    requires s.pub.lists != []
    ensures s.pub.lists <= Run(parse, exclusive, s, actions).pub.lists
    decreases |actions|
  {
    hide Step;
    if actions == [] {
    } else {
      ListsGrow(parse, exclusive, s, actions[0]);
      RunExtends(parse, exclusive, Step(parse, exclusive, s, actions[0]), actions[1..]);
    }
  }

  // ---------------------------------------------------------------------------
  // Complete maps
  // ---------------------------------------------------------------------------

  /** A reload under way works on one published list and has built the map of the part it has
      been through. */
  ghost predicate ReloadOk(parse: U.UrlParser, lists: seq<seq<Site>>, r: Reload) {
    r != Rest ==>
      && 1 <= r.gen < |lists| && lists[r.gen] == r.list
      && (r.Building? ==> r.next <= |r.list| && r.partial == Routes(parse, r.list[..r.next]))
  }

  ghost predicate RequestOk(parse: U.UrlParser, lists: seq<seq<Site>>, r: Request) {
    match r
    case Routing(name, site, gen) =>
      && gen < |lists|
      && LastClaim(lists[gen], name) >= 0 && site == lists[gen][LastClaim(lists[gen], name)]
    case Serving(name, site, gen, rtGen, runtime) =>
      && gen < |lists| && rtGen < |lists|
      && LastClaim(lists[gen], name) >= 0 && site == lists[gen][LastClaim(lists[gen], name)]
      && site.domain in Routes(parse, lists[rtGen]) && runtime == Routes(parse, lists[rtGen])[site.domain]
    case _ => true
  }

  /** The router's map is the whole map of one published list, and so is what a request sees. */
  ghost predicate Complete(parse: U.UrlParser, s: State) {
    && s.pub.rtGen < |s.pub.lists|
    && s.pub.runtimes == Routes(parse, s.pub.lists[s.pub.rtGen])
    && (forall r | r in s.pub.reloads :: ReloadOk(parse, s.pub.lists, r))
    && (forall r | r in s.requests :: RequestOk(parse, s.pub.lists, r))
  }

  lemma ReloadAdvances(parse: U.UrlParser, p: Published, w: nat)
    requires w < |p.reloads| && ReloadOk(parse, p.lists, p.reloads[w])
    ensures ReloadOk(parse, p.lists, Advance(parse, p, w).reloads[w])
    ensures var p' := Advance(parse, p, w);
            p'.lists == p.lists && p'.reloads == p.reloads[w := p'.reloads[w]]
    ensures var p' := Advance(parse, p, w);
            var r := p.reloads[w];
            if r.Building? && r.next >= |r.list|
            then p'.rtGen == r.gen && p'.runtimes == Routes(parse, r.list) && p'.reloads[w] == Swapped(r.list, r.gen)
            else p'.rtGen == p.rtGen && p'.runtimes == p.runtimes
                 && (r.Building? ==> p'.reloads[w].Building?) && (r.Swapped? ==> p'.reloads[w] == Rest)
                 && (p'.reloads[w] != Rest ==> r != Rest && p'.reloads[w].gen == r.gen && p'.reloads[w].list == r.list)
  {
    hide Routable, Names, Claim, Routes;
    var r := p.reloads[w];
    if r.Building? {
      if r.next < |r.list| {
        assert r.list[..r.next] + [r.list[r.next]] == r.list[..r.next + 1];
        RoutesStep(parse, r.list[..r.next], r.list[r.next]);
      } else {
        assert r.list[..r.next] == r.list;
      }
    }
  }

  lemma ReloadKeepsComplete(parse: U.UrlParser, s: State, w: nat)
    requires Complete(parse, s) && w < |s.pub.reloads|
    ensures Complete(parse, ReloadStep(parse, s, w))
  {
    hide Advance, Routes, RequestOk, Pruned;
    var s' := ReloadStep(parse, s, w);
    assert s.pub.reloads[w] in s.pub.reloads;
    ReloadAdvances(parse, s.pub, w);
    forall r | r in s'.pub.reloads
      ensures ReloadOk(parse, s'.pub.lists, r)
    {
      assert r == s'.pub.reloads[w] || r in s.pub.reloads;
    }
  }

  lemma BeginKeepsComplete(parse: U.UrlParser, exclusive: bool, s: State, w: nat, list: seq<Site>)
    requires Complete(parse, s)
    ensures Complete(parse, Step(parse, exclusive, s, BeginReload(w, list)))
  {
    hide LastClaim, Resting;
    var s' := Step(parse, exclusive, s, BeginReload(w, list));
    forall r | r in s'.pub.reloads
      ensures ReloadOk(parse, s'.pub.lists, r)
    {
      if r in s.pub.reloads {
        assert ReloadOk(parse, s.pub.lists, r);
      } else {
        assert r == Building(list, |s.pub.lists|, 0, map[]) && list[..0] == [];
      }
    }
    forall r | r in s'.requests
      ensures RequestOk(parse, s'.pub.lists, r)
    {
      assert RequestOk(parse, s.pub.lists, r);
    }
  }

  lemma RequestKeepsComplete(parse: U.UrlParser, s: State, t: nat, a: Action)
    requires Complete(parse, s) && t < |s.requests|
    ensures Complete(parse, RequestStep(s, t, a))
  {
    hide Routes, LastClaim, NextRecorded, Normalise, ReloadOk;
    var s' := RequestStep(s, t, a);
    assert s.requests[t] in s.requests;
    assert RequestOk(parse, s.pub.lists, s'.requests[t]);
    forall r | r in s'.requests
      ensures RequestOk(parse, s.pub.lists, r)
    {
      assert r == s'.requests[t] || r in s.requests;
    }
  }

  lemma {:induction false} CompleteHolds(parse: U.UrlParser, exclusive: bool, s: State, actions: seq<Action>)
    requires s.pub.lists != [] && Complete(parse, s)
    ensures Complete(parse, Run(parse, exclusive, s, actions))
    decreases |actions|
  {
    hide Complete, RequestStep, ReloadStep, Begin;
    if actions == [] {
    } else {
      var a := actions[0];
      match a {
        case BeginReload(w, list) => BeginKeepsComplete(parse, exclusive, s, w, list);
        case AdvanceReload(w) =>
          if w < |s.pub.reloads| {
            ReloadKeepsComplete(parse, s, w);
          }
        case _ =>
          if a.t < |s.requests| {
            RequestKeepsComplete(parse, s, a.t, a);
          }
      }
      ListsGrow(parse, exclusive, s, a);
      CompleteHolds(parse, exclusive, Step(parse, exclusive, s, a), actions[1..]);
    }
  }

  lemma InitialComplete(parse: U.UrlParser, n: nat, k: nat)
    ensures Complete(parse, Initial(n, k))
  {
  }

  /** However reload sequences overlap, the router's map is at every moment the complete map
      of one published list, and a request pairs the site that its lookup found in one
      published list with the runtime that another one gives that site's domain. */
  lemma AlwaysComplete(parse: U.UrlParser, exclusive: bool, n: nat, k: nat, actions: seq<Action>)
    ensures var s := Run(parse, exclusive, Initial(n, k), actions);
            && s.pub.rtGen < |s.pub.lists| && s.pub.runtimes == Routes(parse, s.pub.lists[s.pub.rtGen])
            && forall r | r in s.requests && r.Serving? ::
                 && r.gen < |s.pub.lists| && r.rtGen < |s.pub.lists|
                 && LastClaim(s.pub.lists[r.gen], r.name) >= 0
                 && r.site == s.pub.lists[r.gen][LastClaim(s.pub.lists[r.gen], r.name)]
                 && r.site.domain in Routes(parse, s.pub.lists[r.rtGen])
                 && r.runtime == Routes(parse, s.pub.lists[r.rtGen])[r.site.domain]
  {
    InitialComplete(parse, n, k);
    CompleteHolds(parse, exclusive, Initial(n, k), actions);
    hide Run, Routes, LastClaim, ReloadOk;
    var s := Run(parse, exclusive, Initial(n, k), actions);
    forall r | r in s.requests && r.Serving?
      ensures RequestOk(parse, s.pub.lists, r)
    {
    }
  }

  // ---------------------------------------------------------------------------
  // Generations
  // ---------------------------------------------------------------------------

  /** No request pairs a site with a runtime more than one generation older. */
  ghost predicate OneBehind(s: State) {
    && |s.pub.lists| <= s.pub.rtGen + 2
    && forall r | r in s.requests && r.Serving? :: r.gen <= r.rtGen + 1
  }

  /** At most one sequence is under way; it publishes the store's list, and the router is
      behind exactly until that sequence swaps. */
  ghost predicate OneAtATime(p: Published) {
    && (forall v, w | 0 <= v < w < |p.reloads| :: p.reloads[v] == Rest || p.reloads[w] == Rest)
    && (forall r | r in p.reloads && r != Rest ::
          p.lists != [] && r.gen == |p.lists| - 1 && r.list == Current(p))
    && (if exists r :: r in p.reloads && r.Building? then |p.lists| == p.rtGen + 2 else |p.lists| == p.rtGen + 1)
  }

  ghost predicate InStep(s: State) {
    OneAtATime(s.pub) && (forall r | r in s.requests && r.Routing? :: r.gen < |s.pub.lists|) && OneBehind(s)
  }

  lemma OthersRest(p: Published, w: nat, next: seq<Reload>)
    requires OneAtATime(p) && w < |p.reloads| == |next| && p.reloads[w] != Rest
    requires next == p.reloads[w := next[w]]
    ensures next[w] in next && forall x | x in next :: x == next[w] || x == Rest
    ensures forall v, u | 0 <= v < u < |next| :: next[v] == Rest || next[u] == Rest
  {
  }

  lemma AdvanceKeepsOneAtATime(parse: U.UrlParser, p: Published, w: nat)
    requires OneAtATime(p) && w < |p.reloads| && ReloadOk(parse, p.lists, p.reloads[w])
    ensures OneAtATime(Advance(parse, p, w))
  {
    hide Advance, Routes;
    ReloadAdvances(parse, p, w);
    var r := p.reloads[w];
    if r == Rest {
      RestStays(parse, p, w);
    } else {
      assert r in p.reloads;
      OthersRest(p, w, p.reloads);
      var p' := Advance(parse, p, w);
      OthersRest(p, w, p'.reloads);
      assert (exists x :: x in p.reloads && x.Building?) <==> r.Building?;
      assert (exists x :: x in p'.reloads && x.Building?) <==> p'.reloads[w].Building?;
    }
  }

  lemma RestStays(parse: U.UrlParser, p: Published, w: nat)
    requires w < |p.reloads| && p.reloads[w] == Rest
    ensures Advance(parse, p, w) == p
  {
  }

  lemma BeginKeepsOneAtATime(p: Published, w: nat, list: seq<Site>)
    requires OneAtATime(p)
    ensures OneAtATime(Begin(true, p, w, list))
  {
    var p' := Begin(true, p, w, list);
    if p' != p {
      assert p'.reloads[w].Building? && p'.reloads[w] in p'.reloads;
      forall v | 0 <= v < |p.reloads| && v != w
        ensures p'.reloads[v] == Rest
      {
        assert p.reloads[v] in p.reloads;
      }
    }
  }

  lemma StepKeepsInStep(parse: U.UrlParser, s: State, a: Action)
    requires s.pub.lists != [] && InStep(s) && Complete(parse, s)
    ensures InStep(Step(parse, true, s, a))
  {
    hide OneAtATime, Routes, Advance, Begin, LastClaim, Normalise, NextRecorded, Pruned, ReloadOk, RequestOk;
    var s' := Step(parse, true, s, a);
    ListsGrow(parse, true, s, a);
    match a {
      case BeginReload(w, list) =>
        BeginKeepsOneAtATime(s.pub, w, list);
        AtMostOneBehind(s'.pub);
      case AdvanceReload(w) =>
        if w < |s.pub.reloads| {
          assert s.pub.reloads[w] in s.pub.reloads;
          AdvanceKeepsOneAtATime(parse, s.pub, w);
          AtMostOneBehind(s'.pub);
        }
      case _ =>
        if a.t < |s.requests| {
          assert s.requests[a.t] in s.requests;
          forall r | r in s'.requests
            ensures r == s'.requests[a.t] || r in s.requests
          {
          }
        }
    }
  }

  lemma AtMostOneBehind(p: Published)
    requires OneAtATime(p)
    ensures |p.lists| <= p.rtGen + 2
    ensures Resting(p) ==> |p.lists| == p.rtGen + 1
  {
  }

  lemma {:induction false} InStepHolds(parse: U.UrlParser, s: State, actions: seq<Action>)
    requires s.pub.lists != [] && Complete(parse, s) && InStep(s)
    ensures InStep(Run(parse, true, s, actions))
    decreases |actions|
  {
    hide Complete, InStep, Step;
    if actions == [] {
    } else {
      var a := actions[0];
      var s' := Step(parse, true, s, a);
      StepKeepsInStep(parse, s, a);
      ListsGrow(parse, true, s, a);
      CompleteHolds(parse, true, s, [a]);
      assert [a][1..] == [];
      InStepHolds(parse, s', actions[1..]);
    }
  }

  /** While reload sequences exclude each other, the router is at every moment at most one
      generation behind the store, and a request never pairs a site with a runtime more than
      one generation older. */
  lemma NeverMoreThanOneBehind(parse: U.UrlParser, n: nat, k: nat, actions: seq<Action>)
    ensures OneBehind(Run(parse, true, Initial(n, k), actions))
    ensures var p := Run(parse, true, Initial(n, k), actions).pub; Resting(p) ==> p.runtimes == Routes(parse, Current(p))
  {
    InitialComplete(parse, n, k);
    CompleteHolds(parse, true, Initial(n, k), actions);
    InStepHolds(parse, Initial(n, k), actions);
    hide Run, OneAtATime, Routes;
    AtMostOneBehind(Run(parse, true, Initial(n, k), actions).pub);
  }

  // ---------------------------------------------------------------------------
  // Why exclusion is needed
  // ---------------------------------------------------------------------------

  lemma ClaimedDomain(site: Site)
    ensures var m := Claim(map[], Names(site), site); site.domain in m && m[site.domain] == site
  {
    DomainIsName(site);
  }

  /** Nothing is registered and the one request is idle. */
  ghost predicate Unused(s: State) {
    s.pub.lists != [] && s.rec.registry == map[] && s.rec.leftover == {} && s.requests == [Idle]
  }

  /** Sequence 1 begins to publish the list of one routable site and builds its map. */
  lemma BuildsOne(parse: U.UrlParser, exclusive: bool, s0: State, past: seq<Action>, s: State, w: nat, site: Site)
    returns (actions: seq<Action>, m: map<string, Site>)
    requires s0.pub.lists != [] && Run(parse, exclusive, s0, past) == s && s.pub.lists != []
    requires w < |s.pub.reloads| && s.pub.reloads[w] == Rest && (exclusive ==> Resting(s.pub)) && Routable(parse, site)
    ensures site.domain in m && m[site.domain] == site
    ensures Run(parse, exclusive, s0, actions)
            == s.(pub := s.pub.(lists := s.pub.lists + [[site]],
                                reloads := s.pub.reloads[w := Building([site], |s.pub.lists|, 1, m)]))
  {
    hide Run, Routable, Names, Claim, Resting, Pruned;
    m := Claim(map[], Names(site), site);
    ClaimedDomain(site);
    var begin, advance := BeginReload(w, [site]), AdvanceReload(w);
    RunLast(parse, exclusive, s0, past, begin);
    RunLast(parse, exclusive, s0, past + [begin], advance);
    actions := past + [begin] + [advance];
    var p1 := Begin(exclusive, s.pub, w, [site]);
    assert p1.reloads[w] == Building([site], |s.pub.lists|, 0, map[]);
    var p2 := Advance(parse, p1, w);
    assert p2.reloads == s.pub.reloads[w := Building([site], |s.pub.lists|, 1, m)];
  }

  /** And then swaps. */
  lemma SwapsOne(parse: U.UrlParser, exclusive: bool, s0: State, past: seq<Action>, s: State, w: nat)
    returns (actions: seq<Action>)
    requires s0.pub.lists != [] && Run(parse, exclusive, s0, past) == s && s.pub.lists != []
    requires w < |s.pub.reloads| && s.pub.reloads[w].Building? && s.pub.reloads[w].next == |s.pub.reloads[w].list|
    ensures var r := s.pub.reloads[w];
            Run(parse, exclusive, s0, actions)
            == s.(pub := s.pub.(runtimes := r.partial, rtGen := r.gen,
                                reloads := s.pub.reloads[w := Swapped(r.list, r.gen)]))
  {
    hide Run, Routable, Names, Claim, Resting, Pruned;
    RunLast(parse, exclusive, s0, past, AdvanceReload(w));
    actions := past + [AdvanceReload(w)];
  }

  /** And prunes, which is its end. */
  lemma PrunesOne(parse: U.UrlParser, exclusive: bool, s0: State, past: seq<Action>, s: State, w: nat)
    returns (actions: seq<Action>)
    requires s0.pub.lists != [] && Run(parse, exclusive, s0, past) == s && s.pub.lists != []
    requires w < |s.pub.reloads| && s.pub.reloads[w].Swapped?
    ensures Run(parse, exclusive, s0, actions)
            == s.(pub := s.pub.(reloads := s.pub.reloads[w := Rest]),
                  rec := Pruned(s.rec, s.pub.reloads[w].list, InFlight(s.requests)))
  {
    hide Run, Routable, Names, Claim, Resting, Pruned;
    RunLast(parse, exclusive, s0, past, AdvanceReload(w));
    actions := past + [AdvanceReload(w)];
  }

  lemma PruneUnused(s: State, list: seq<Site>)
    requires Unused(s)
    ensures Pruned(s.rec, list, InFlight(s.requests)) == s.rec
  {
  }

  /** A whole undisturbed reload with the list of one routable site. */
  lemma PublishesOne(parse: U.UrlParser, exclusive: bool, s0: State, past: seq<Action>, s: State, w: nat, site: Site)
    returns (actions: seq<Action>, m: map<string, Site>)
    requires s0.pub.lists != [] && Run(parse, exclusive, s0, past) == s && Unused(s)
    requires w < |s.pub.reloads| && s.pub.reloads[w] == Rest && (exclusive ==> Resting(s.pub)) && Routable(parse, site)
    ensures site.domain in m && m[site.domain] == site
    ensures Run(parse, exclusive, s0, actions)
            == s.(pub := s.pub.(lists := s.pub.lists + [[site]], runtimes := m, rtGen := |s.pub.lists|))
  {
    hide Run, Routable, Pruned, Resting;
    var built, partial := BuildsOne(parse, exclusive, s0, past, s, w, site);
    var s1 := Run(parse, exclusive, s0, built);
    var swapped := SwapsOne(parse, exclusive, s0, built, s1, w);
    var s2 := Run(parse, exclusive, s0, swapped);
    actions := PrunesOne(parse, exclusive, s0, swapped, s2, w);
    m := partial;
    PruneUnused(s2, [site]);
    assert s.pub.reloads[w := Rest] == s.pub.reloads;
    assert Run(parse, exclusive, s0, actions).pub.reloads == s.pub.reloads;
  }

  /** One request looks its host up and fetches the runtime. */
  lemma FetchesOne(parse: U.UrlParser, exclusive: bool, s0: State, past: seq<Action>, s: State, site: Site)
    returns (actions: seq<Action>, name: string)
    requires s0.pub.lists != [] && Run(parse, exclusive, s0, past) == s && s.requests == [Idle]
    requires s.pub.lists != [] && Current(s.pub) == [site] && site.enabled && site.domain in s.pub.runtimes
    ensures Run(parse, exclusive, s0, actions)
            == s.(requests := [Serving(name, site, |s.pub.lists| - 1, s.pub.rtGen, s.pub.runtimes[site.domain])])
  {
    hide Run, Names, LowerNames, Normalise;
    name := Text.ToLower(site.domain);
    DomainIsName(site);
    NameLowers(site, site.domain);
    NameIsReachable(site, name);
    assert LastClaim([site], name) == 0;
    var arrive, fetch := Arrive(0, name + ":"), FetchRuntime(0);
    RunLast(parse, exclusive, s0, past, arrive);
    RunLast(parse, exclusive, s0, past + [arrive], fetch);
    actions := past + [arrive] + [fetch];
    assert Step(parse, exclusive, s, arrive) == s.(requests := [Routing(name, site, |s.pub.lists| - 1)]);
  }

  /** Two overlapping sequences: the first replaces the store's list and builds its map; the
      second publishes twice; then the first swaps in its old map, and a request pairs the
      third list with the runtime of the first. */
  lemma OvertakenWithoutExclusion(parse: U.UrlParser)
    requires parse("http://" + "app:80").Some?
    ensures var site := BareSite("app.test", [], "app:80");
            && Validate(parse, site) == None
            && exists actions, r ::
                 var s := Run(parse, false, Initial(1, 2), actions);
                 && s.pub.lists == [[], [site], [site], [site]]
                 && r in s.requests && r.Serving? && r.gen == 3 && r.rtGen == 1
  {
    hide Run, Validate, Routable, Resting;
    var site := BareSite("app.test", [], "app:80");
    assert "app" + ":" + "80" == "app:80";
    BareSiteIsValid(parse, "app.test", [], "app", "80");
    BareSiteRoutable(parse, "app.test", [], "app:80");
    var s0 := Initial(1, 2);
    NoRun(parse, false, s0);
    assert InFlight(s0.requests) == {};
    var a1, m := BuildsOne(parse, false, s0, [], s0, 0, site);
    var s1 := Run(parse, false, s0, a1);
    var a2, m2 := PublishesOne(parse, false, s0, a1, s1, 1, site);
    var s2 := Run(parse, false, s0, a2);
    var a3, m3 := PublishesOne(parse, false, s0, a2, s2, 1, site);
    var s3 := Run(parse, false, s0, a3);
    var a4 := SwapsOne(parse, false, s0, a3, s3, 0);
    var s4 := Run(parse, false, s0, a4);
    var a5, name := FetchesOne(parse, false, s0, a4, s4, site);
    assert Run(parse, false, s0, a5).requests == [Serving(name, site, 3, 1, m[site.domain])];
  }

  /** Exclusion of the reload sequences is exactly what the bound needs. */
  lemma OneBehindIffExclusive(parse: U.UrlParser, exclusive: bool)
    requires parse("http://" + "app:80").Some?
    ensures exclusive <==> forall n, k, actions :: OneBehind(Run(parse, exclusive, Initial(n, k), actions))
  {
    hide Run, Validate;
    if exclusive {
      forall n, k, actions
        ensures OneBehind(Run(parse, true, Initial(n, k), actions))
      {
        NeverMoreThanOneBehind(parse, n, k, actions);
      }
    } else {
      OvertakenWithoutExclusion(parse);
    }
  }
}
