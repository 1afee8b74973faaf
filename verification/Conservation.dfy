/** What reloads, prunes and requests that interleave do to the recorded samples and to the
    registry, internal/metrics/metrics.go, internal/proxy/router.go and cmd/jobcloud/main.go. */
module Conservation {
  import opened Wrappers
  import opened Config
  import opened Routing
  import opened Publication
  import M = Metrics
  import U = Upstream

  // ---------------------------------------------------------------------------
  // No sample is lost
  // ---------------------------------------------------------------------------

  /** Different domains have different metrics objects. */
  ghost predicate Owned(rec: Recorded, requests: seq<Request>) {
    && (forall d, e | d in rec.registry && e in rec.registry && d != e :: rec.registry[d] != rec.registry[e])
    && (forall d | d in rec.registry :: rec.registry[d] < rec.nextId)
    && (forall r | r in requests && r.Holds? :: r.id < rec.nextId)
    && (forall r, d | r in requests && r.Holds? && d in rec.registry && d != r.domain :: rec.registry[d] != r.id)
    && (forall r, q | r in requests && q in requests && r.Holds? && q.Holds? && r.id == q.id :: r.domain == q.domain)
    && (forall id | id in rec.samples :: id < rec.nextId)
  }

  /** All recordings of d went to the one object that is registered for it. */
  ghost predicate Conserved(rec: Recorded, requests: seq<Request>, d: string) {
    && (if d in rec.registry then At(rec.samples, rec.registry[d]) == At(rec.done, d) else At(rec.done, d) == [])
    && (forall r | r in requests && r.Holds? && r.domain == d :: d in rec.registry && rec.registry[d] == r.id)
  }

  /** A prune at hand leaves every sample of d where it can be found. */
  ghost predicate Spares(s: State, a: Action, d: string) {
    a.AdvanceReload? && a.w < |s.pub.reloads| && s.pub.reloads[a.w].Swapped? && d !in Kept(s.pub.reloads[a.w].list) ==>
      At(s.rec.done, d) == [] && forall r | r in s.requests && r.Holds? :: r.domain != d
  }

  lemma PruneKeepsOwned(rec: Recorded, requests: seq<Request>, list: seq<Site>, inFlight: set<string>)
    requires Owned(rec, requests)
    ensures Owned(Pruned(rec, list, inFlight), requests)
  {
    hide Kept;
    var registry := Pruned(rec, list, inFlight).registry;
    assert forall d | d in registry :: d in rec.registry && registry[d] == rec.registry[d];
  }

  lemma PruneKeepsConserved(rec: Recorded, requests: seq<Request>, list: seq<Site>, inFlight: set<string>, d: string)
    requires Conserved(rec, requests, d)
    requires d in Kept(list) || (At(rec.done, d) == [] && forall r | r in requests && r.Holds? :: r.domain != d)
    ensures Conserved(Pruned(rec, list, inFlight), requests, d)
  {
    hide Kept, At;
  }

  /** On the metrics a request does one of three things: it finds an object, creates one for a
      domain that has none, or records into the object it holds. */
  lemma RequestCases(p: Published, rec: Recorded, r: Request, a: Action)
    requires p.lists != []
    ensures var rec', r' := NextRecorded(rec, r, a), NextRequest(p, rec, r, a);
            || (rec' == rec && (r'.Holds? ==> r' == r || (r'.domain in rec.registry && rec.registry[r'.domain] == r'.id))
                && (r.Holds? ==> r' == r))
            || (!r.Holds? && r'.Holds? && r'.domain !in rec.registry && r'.id == rec.nextId
                && rec' == rec.(registry := rec.registry[r'.domain := r'.id], nextId := rec.nextId + 1))
            || (r.Holds? && r' == Idle
                && rec' == rec.(samples := rec.samples[r.id := At(rec.samples, r.id) + [r.sm]],
                                done := rec.done[r.domain := At(rec.done, r.domain) + [r.sm]]))
  {
    hide LastClaim, Normalise, At;
  }

  lemma Replaced(requests: seq<Request>, t: nat, r: Request)
    requires t < |requests|
    ensures requests[t] in requests
    ensures forall x | x in requests[t := r] :: x == r || x in requests
  {
  }

  lemma FoundKeeps(rec: Recorded, requests: seq<Request>, t: nat, r: Request, d: string)
    requires Owned(rec, requests) && t < |requests|
    requires r.Holds? ==> r == requests[t] || (r.domain in rec.registry && rec.registry[r.domain] == r.id)
    ensures Owned(rec, requests[t := r]) && (Conserved(rec, requests, d) ==> Conserved(rec, requests[t := r], d))
  {
    Replaced(requests, t, r);
  }

  lemma CreatedKeepsOwned(rec: Recorded, requests: seq<Request>, t: nat, r: Request)
    requires Owned(rec, requests) && t < |requests|
    requires r.Holds? && r.domain !in rec.registry && r.id == rec.nextId
    ensures Owned(rec.(registry := rec.registry[r.domain := r.id], nextId := rec.nextId + 1), requests[t := r])
  {
    Replaced(requests, t, r);
  }

  lemma CreatedKeepsConserved(rec: Recorded, requests: seq<Request>, t: nat, r: Request, d: string)
    requires Owned(rec, requests) && t < |requests| && Conserved(rec, requests, d)
    requires r.Holds? && r.domain !in rec.registry && r.id == rec.nextId
    ensures Conserved(rec.(registry := rec.registry[r.domain := r.id], nextId := rec.nextId + 1), requests[t := r], d)
  {
    Replaced(requests, t, r);
  }

  lemma RecordedKeepsOwned(rec: Recorded, requests: seq<Request>, t: nat)
    requires Owned(rec, requests) && t < |requests| && requests[t].Holds?
    ensures var r := requests[t];
            Owned(rec.(samples := rec.samples[r.id := At(rec.samples, r.id) + [r.sm]],
                       done := rec.done[r.domain := At(rec.done, r.domain) + [r.sm]]), requests[t := Idle])
  {
    hide At;
    Replaced(requests, t, Idle);
  }

  lemma RecordedKeepsConserved(rec: Recorded, requests: seq<Request>, t: nat, d: string)
    requires Owned(rec, requests) && t < |requests| && requests[t].Holds? && Conserved(rec, requests, d)
    ensures var r := requests[t];
            Conserved(rec.(samples := rec.samples[r.id := At(rec.samples, r.id) + [r.sm]],
                           done := rec.done[r.domain := At(rec.done, r.domain) + [r.sm]]), requests[t := Idle], d)
  {
    Replaced(requests, t, Idle);
  }

  lemma RequestKeepsConserved(s: State, t: nat, a: Action, d: string)
    requires s.pub.lists != [] && t < |s.requests| && Owned(s.rec, s.requests)
    ensures var s' := RequestStep(s, t, a);
            && Owned(s'.rec, s'.requests)
            && (Conserved(s.rec, s.requests, d) ==> Conserved(s'.rec, s'.requests, d))
  {
    hide NextRequest, NextRecorded, Owned, Conserved, At;
    var r, r' := s.requests[t], NextRequest(s.pub, s.rec, s.requests[t], a);
    RequestCases(s.pub, s.rec, r, a);
    if NextRecorded(s.rec, r, a) == s.rec
       && (r'.Holds? ==> r' == r || (r'.domain in s.rec.registry && s.rec.registry[r'.domain] == r'.id)) {
      FoundKeeps(s.rec, s.requests, t, r', d);
    } else if r'.Holds? {
      CreatedKeepsOwned(s.rec, s.requests, t, r');
      if Conserved(s.rec, s.requests, d) {
        CreatedKeepsConserved(s.rec, s.requests, t, r', d);
      }
    } else {
      RecordedKeepsOwned(s.rec, s.requests, t);
      if Conserved(s.rec, s.requests, d) {
        RecordedKeepsConserved(s.rec, s.requests, t, d);
      }
    }
  }

  lemma StepKeepsConserved(parse: U.UrlParser, exclusive: bool, s: State, a: Action, d: string)
    requires s.pub.lists != [] && Owned(s.rec, s.requests)
    ensures var s' := Step(parse, exclusive, s, a);
            && Owned(s'.rec, s'.requests)
            && (Conserved(s.rec, s.requests, d) && Spares(s, a, d) ==> Conserved(s'.rec, s'.requests, d))
  {
    hide Owned, Conserved, RequestStep, Begin, Advance, Pruned, InFlight, Kept, At;
    match a {
      case BeginReload(w, list) =>
      case AdvanceReload(w) =>
        if w < |s.pub.reloads| && s.pub.reloads[w].Swapped? {
          PruneKeepsOwned(s.rec, s.requests, s.pub.reloads[w].list, InFlight(s.requests));
          if Conserved(s.rec, s.requests, d) && Spares(s, a, d) {
            PruneKeepsConserved(s.rec, s.requests, s.pub.reloads[w].list, InFlight(s.requests), d);
          }
        }
      case _ =>
        if a.t < |s.requests| {
          RequestKeepsConserved(s, a.t, a, d);
        }
    }
  }

  // ---------------------------------------------------------------------------
  // A sample that has gone astray stays so
  // ---------------------------------------------------------------------------

  /** The request holds an object for d that is not the registered one. */
  ghost predicate Stray(r: Request, registry: map<string, nat>, d: string) {
    r.Holds? && r.domain == d && !(d in registry && registry[d] == r.id)
  }

  ghost function Strays(requests: seq<Request>, registry: map<string, nat>, d: string): nat {
    if requests == [] then 0
    else (if Stray(requests[0], registry, d) then 1 else 0) + Strays(requests[1..], registry, d)
  }

  /** Samples of d that the registered object misses, or will miss once recorded. */
  ghost function Astray(rec: Recorded, requests: seq<Request>, d: string): int {
    |At(rec.done, d)| - (if d in rec.registry then |At(rec.samples, rec.registry[d])| else 0)
    + Strays(requests, rec.registry, d)
  }

  lemma {:induction false} StraysUpdate(requests: seq<Request>, registry: map<string, nat>, d: string, t: nat, r: Request)
    requires t < |requests|
    ensures Strays(requests[t := r], registry, d)
            == Strays(requests, registry, d) - (if Stray(requests[t], registry, d) then 1 else 0)
               + if Stray(r, registry, d) then 1 else 0
    decreases t
  {
    hide Stray;
    if t == 0 {
      assert requests[t := r][1..] == requests[1..];
    } else {
      assert requests[t := r][1..] == requests[1..][t - 1 := r];
      StraysUpdate(requests[1..], registry, d, t - 1, r);
    }
  }

  /** A change of the registry that leaves strays stray does not lower their number. */
  lemma {:induction false} StraysGrow(requests: seq<Request>, was: map<string, nat>, now: map<string, nat>, d: string)
    requires forall r | r in requests && Stray(r, was, d) :: Stray(r, now, d)
    ensures Strays(requests, was, d) <= Strays(requests, now, d)
    decreases |requests|
  {
    hide Stray;
    if requests == [] {
    } else {
      assert requests[0] in requests;
      StraysGrow(requests[1..], was, now, d);
    }
  }

  lemma {:induction false} StrayCounts(requests: seq<Request>, registry: map<string, nat>, d: string)
    ensures Strays(requests, registry, d) == 0 <==> forall r | r in requests :: !Stray(r, registry, d)
    decreases |requests|
  {
    hide Stray;
    if requests == [] {
    } else {
      StrayCounts(requests[1..], registry, d);
      assert requests == [requests[0]] + requests[1..];
    }
  }

  lemma ConservedIsNotAstray(rec: Recorded, requests: seq<Request>, d: string)
    requires Conserved(rec, requests, d)
    ensures Astray(rec, requests, d) == 0
  {
    StrayCounts(requests, rec.registry, d);
  }

  /** A prune that drops d without sparing it leads samples astray. */
  lemma PruneLeadsAstray(rec: Recorded, requests: seq<Request>, list: seq<Site>, inFlight: set<string>, d: string)
    requires d !in Kept(list)
    requires At(rec.done, d) != [] || exists r :: r in requests && r.Holds? && r.domain == d
    ensures Astray(Pruned(rec, list, inFlight), requests, d) > 0
  {
    hide Kept, Strays, At;
    var registry := Pruned(rec, list, inFlight).registry;
    StrayCounts(requests, registry, d);
    assert d !in registry;
    if At(rec.done, d) == [] {
      var r :| r in requests && r.Holds? && r.domain == d;
      assert Stray(r, registry, d);
    }
  }

  lemma PruneKeepsAstray(rec: Recorded, requests: seq<Request>, list: seq<Site>, inFlight: set<string>, d: string)
    ensures Astray(rec, requests, d) <= Astray(Pruned(rec, list, inFlight), requests, d)
  {
    hide Kept, Strays, At;
    StraysGrow(requests, rec.registry, Pruned(rec, list, inFlight).registry, d);
  }

  lemma RequestKeepsAstray(s: State, t: nat, a: Action, d: string)
    requires s.pub.lists != [] && t < |s.requests| && Owned(s.rec, s.requests)
    ensures var s' := RequestStep(s, t, a); Astray(s.rec, s.requests, d) <= Astray(s'.rec, s'.requests, d)
  {
    hide NextRequest, NextRecorded, Strays;
    var r, r' := s.requests[t], NextRequest(s.pub, s.rec, s.requests[t], a);
    var rec' := NextRecorded(s.rec, r, a);
    RequestCases(s.pub, s.rec, r, a);
    Replaced(s.requests, t, r');
    StraysGrow(s.requests, s.rec.registry, rec'.registry, d);
    StraysUpdate(s.requests, rec'.registry, d, t, r');
  }

  lemma StepKeepsAstray(parse: U.UrlParser, exclusive: bool, s: State, a: Action, d: string)
    requires s.pub.lists != [] && Owned(s.rec, s.requests)
    ensures var s' := Step(parse, exclusive, s, a);
            && Astray(s.rec, s.requests, d) <= Astray(s'.rec, s'.requests, d)
            && (!Spares(s, a, d) ==> Astray(s'.rec, s'.requests, d) > 0)
  {
    hide Owned, RequestStep, Begin, Advance, Pruned, InFlight, Kept, Astray, At;
    match a {
      case BeginReload(w, list) =>
      case AdvanceReload(w) =>
        if w < |s.pub.reloads| && s.pub.reloads[w].Swapped? {
          PruneKeepsAstray(s.rec, s.requests, s.pub.reloads[w].list, InFlight(s.requests), d);
          if !Spares(s, a, d) {
            PruneLeadsAstray(s.rec, s.requests, s.pub.reloads[w].list, InFlight(s.requests), d);
          }
        }
      case _ =>
        if a.t < |s.requests| {
          RequestKeepsAstray(s, a.t, a, d);
        }
    }
  }

  lemma {:induction false} StaysAstray(parse: U.UrlParser, exclusive: bool, s: State, actions: seq<Action>, d: string)
    requires s.pub.lists != [] && Owned(s.rec, s.requests)
    ensures var end := Run(parse, exclusive, s, actions);
            Astray(s.rec, s.requests, d) <= Astray(end.rec, end.requests, d)
    decreases |actions|
  {
    hide Owned, Step, Astray;
    if actions == [] {
    } else {
      ListsGrow(parse, exclusive, s, actions[0]);
      StepKeepsConserved(parse, exclusive, s, actions[0], d);
      StepKeepsAstray(parse, exclusive, s, actions[0], d);
      StaysAstray(parse, exclusive, Step(parse, exclusive, s, actions[0]), actions[1..], d);
    }
  }

  /** Every prune of the run spares d. */
  ghost predicate AllSpared(parse: U.UrlParser, exclusive: bool, s: State, actions: seq<Action>, d: string)
    requires s.pub.lists != []
  {
    forall k | 0 <= k < |actions| :: Spares(Run(parse, exclusive, s, actions[..k]), actions[k], d)
  }

  lemma AllSparedStep(parse: U.UrlParser, exclusive: bool, s: State, actions: seq<Action>, d: string)
    requires s.pub.lists != [] && actions != []
    ensures Step(parse, exclusive, s, actions[0]).pub.lists != []
    ensures AllSpared(parse, exclusive, s, actions, d)
            <==> && Spares(s, actions[0], d)
                 && AllSpared(parse, exclusive, Step(parse, exclusive, s, actions[0]), actions[1..], d)
  {
    hide Step, Spares;
    ListsGrow(parse, exclusive, s, actions[0]);
    var s' := Step(parse, exclusive, s, actions[0]);
    assert Run(parse, exclusive, s, actions[..0]) == s;
    forall k | 0 < k < |actions|
      ensures Run(parse, exclusive, s, actions[..k]) == Run(parse, exclusive, s', actions[1..][..k - 1])
    {
      assert actions[..k][1..] == actions[1..][..k - 1];
    }
    if AllSpared(parse, exclusive, s, actions, d) {
      forall k | 0 <= k < |actions[1..]|
        ensures Spares(Run(parse, exclusive, s', actions[1..][..k]), actions[1..][k], d)
      {
        assert Spares(Run(parse, exclusive, s, actions[..k + 1]), actions[k + 1], d);
      }
    }
    if Spares(s, actions[0], d) && AllSpared(parse, exclusive, s', actions[1..], d) {
      forall k | 0 <= k < |actions|
        ensures Spares(Run(parse, exclusive, s, actions[..k]), actions[k], d)
      {
        assert k > 0 ==> Spares(Run(parse, exclusive, s', actions[1..][..k - 1]), actions[1..][k - 1], d);
      }
    }
  }

  lemma NothingToSpare(parse: U.UrlParser, exclusive: bool, s: State, d: string)
    requires s.pub.lists != []
    ensures AllSpared(parse, exclusive, s, [], d)
  {
  }

  lemma {:induction false} ConservedIffSpared(parse: U.UrlParser, exclusive: bool, s: State, actions: seq<Action>, d: string)
    requires s.pub.lists != [] && Owned(s.rec, s.requests) && Conserved(s.rec, s.requests, d)
    ensures var end := Run(parse, exclusive, s, actions);
            Conserved(end.rec, end.requests, d) <==> AllSpared(parse, exclusive, s, actions, d)
    decreases |actions|
  {
    hide Owned, Conserved, Step, Spares, AllSpared, Astray;
    if actions == [] {
      NothingToSpare(parse, exclusive, s, d);
    } else {
      var a := actions[0];
      var s' := Step(parse, exclusive, s, a);
      AllSparedStep(parse, exclusive, s, actions, d);
      StepKeepsConserved(parse, exclusive, s, a, d);
      if Spares(s, a, d) {
        ConservedIffSpared(parse, exclusive, s', actions[1..], d);
      } else {
        StepKeepsAstray(parse, exclusive, s, a, d);
        StaysAstray(parse, exclusive, s', actions[1..], d);
        var end := Run(parse, exclusive, s', actions[1..]);
        if Conserved(end.rec, end.requests, d) {
          ConservedIsNotAstray(end.rec, end.requests, d);
        }
      }
    }
  }

  /** However requests, reloads and prunes interleave, and whether or not reload sequences
      exclude each other: the object registered for d holds, in order, the samples of exactly
      its completed recordings, and every request about to record for d holds that object, if
      and only if no prune dropped d after a recording for it was completed or while a request
      held its object. What a prune has lost is never made up for. */
  lemma SamplesSurviveIff(parse: U.UrlParser, exclusive: bool, n: nat, k: nat, actions: seq<Action>, d: string)
    ensures var end := Run(parse, exclusive, Initial(n, k), actions);
            Conserved(end.rec, end.requests, d)
            <==> forall j | 0 <= j < |actions| ::
                   Spares(Run(parse, exclusive, Initial(n, k), actions[..j]), actions[j], d)
  {
    ConservedIffSpared(parse, exclusive, Initial(n, k), actions, d);
  }

  // ---------------------------------------------------------------------------
  // Domains that every list keeps
  // ---------------------------------------------------------------------------

  /** The name d survives every published list. */
  ghost predicate AlwaysKept(lists: seq<seq<Site>>, d: string) {
    forall g | 1 <= g < |lists| :: d in Kept(lists[g])
  }

  lemma KeptSoFar(parse: U.UrlParser, s: State, later: seq<seq<Site>>, a: Action, d: string)
    requires Complete(parse, s) && s.pub.lists <= later && AlwaysKept(later, d)
    ensures Spares(s, a, d)
  {
    hide Routes, Kept, RequestOk;
    if a.AdvanceReload? && a.w < |s.pub.reloads| {
      assert s.pub.reloads[a.w] in s.pub.reloads;
    }
  }

  lemma {:induction false} KeptIsSpared(parse: U.UrlParser, exclusive: bool, s: State, actions: seq<Action>, d: string)
    requires s.pub.lists != [] && Complete(parse, s)
    requires AlwaysKept(Run(parse, exclusive, s, actions).pub.lists, d)
    ensures AllSpared(parse, exclusive, s, actions, d)
    decreases |actions|
  {
    hide AlwaysKept, AllSpared, Complete, Step, Spares;
    if actions == [] {
      NothingToSpare(parse, exclusive, s, d);
    } else {
      var a := actions[0];
      RunExtends(parse, exclusive, s, actions);
      KeptSoFar(parse, s, Run(parse, exclusive, s, actions).pub.lists, a, d);
      CompleteHolds(parse, exclusive, s, [a]);
      assert [a][1..] == [];
      ListsGrow(parse, exclusive, s, a);
      KeptIsSpared(parse, exclusive, Step(parse, exclusive, s, a), actions[1..], d);
      AllSparedStep(parse, exclusive, s, actions, d);
    }
  }

  /** In particular a domain that every published list keeps has one metrics object holding,
      in order, the samples of exactly its completed recordings, and every request about to
      record holds that object. */
  lemma SamplesConserved(parse: U.UrlParser, exclusive: bool, n: nat, k: nat, actions: seq<Action>, d: string)
    requires AlwaysKept(Run(parse, exclusive, Initial(n, k), actions).pub.lists, d)
    ensures var s := Run(parse, exclusive, Initial(n, k), actions);
            && (d in s.rec.registry ==> At(s.rec.samples, s.rec.registry[d]) == At(s.rec.done, d))
            && (d !in s.rec.registry ==> At(s.rec.done, d) == [])
            && (forall r | r in s.requests && r.Holds? && r.domain == d ::
                  d in s.rec.registry && s.rec.registry[d] == r.id)
  {
    InitialComplete(parse, n, k);
    hide Run, Complete;
    KeptIsSpared(parse, exclusive, Initial(n, k), actions, d);
    ConservedIffSpared(parse, exclusive, Initial(n, k), actions, d);
  }

  // ---------------------------------------------------------------------------
  // A sample that is lost
  // ---------------------------------------------------------------------------

  /** The request goes on to hold a new metrics object. */
  lemma ReachesObject(parse: U.UrlParser, exclusive: bool, s0: State, past: seq<Action>, s: State, site: Site, sm: M.Sample)
    returns (actions: seq<Action>)
    requires s0.pub.lists != [] && Run(parse, exclusive, s0, past) == s
    requires s.pub.lists != [] && s.rec.registry == map[] && |s.requests| == 1
    requires s.requests[0].Serving? && s.requests[0].site == site
    ensures Run(parse, exclusive, s0, actions)
            == s.(rec := s.rec.(registry := map[site.domain := s.rec.nextId], nextId := s.rec.nextId + 1),
                  requests := [Holds(site.domain, s.rec.nextId, sm)])
  {
    hide Run, Step;
    var a := [Finish(0, sm), ReadLock(0), WriteLock(0)];
    RunLast(parse, exclusive, s0, past, a[0]);
    RunLast(parse, exclusive, s0, past + [a[0]], a[1]);
    RunLast(parse, exclusive, s0, past + [a[0]] + [a[1]], a[2]);
    actions := past + [a[0]] + [a[1]] + [a[2]];
    ObjectSteps(parse, exclusive, s, site, sm);
  }

  lemma ObjectSteps(parse: U.UrlParser, exclusive: bool, s: State, site: Site, sm: M.Sample)
    requires s.pub.lists != [] && s.rec.registry == map[] && |s.requests| == 1
    requires s.requests[0].Serving? && s.requests[0].site == site
    ensures var s1, s2 := s.(requests := [Wants(site.domain, sm)]), s.(requests := [Missed(site.domain, sm)]);
            && Step(parse, exclusive, s, Finish(0, sm)) == s1
            && Step(parse, exclusive, s1, ReadLock(0)) == s2
            && Step(parse, exclusive, s2, WriteLock(0))
               == s.(rec := s.rec.(registry := map[site.domain := s.rec.nextId], nextId := s.rec.nextId + 1),
                     requests := [Holds(site.domain, s.rec.nextId, sm)])
  {
  }

  /** A reload with the empty list up to its end. */
  lemma PublishesNone(parse: U.UrlParser, exclusive: bool, s0: State, past: seq<Action>, s: State)
    returns (actions: seq<Action>)
    requires s0.pub.lists != [] && Run(parse, exclusive, s0, past) == s
    requires s.pub.lists != [] && s.pub.reloads != [] && Resting(s.pub)
    ensures var end := Run(parse, exclusive, s0, actions);
            && end.pub.lists == s.pub.lists + [[]] && end.pub.reloads == s.pub.reloads && end.requests == s.requests
            && end.rec.registry == map[] && end.rec.done == s.rec.done
  {
    hide Run, InFlight, Step;
    RunLast(parse, exclusive, s0, past, BeginReload(0, []));
    actions := past + [BeginReload(0, [])];
    var s1 := Run(parse, exclusive, s0, actions);
    assert s.pub.reloads[0] in s.pub.reloads;
    BeginsNone(parse, exclusive, s);
    var swapped := SwapsOne(parse, exclusive, s0, actions, s1, 0);
    actions := PrunesOne(parse, exclusive, s0, swapped, Run(parse, exclusive, s0, swapped), 0);
    assert s.pub.reloads[0 := Rest] == s.pub.reloads;
  }

  lemma BeginsNone(parse: U.UrlParser, exclusive: bool, s: State)
    requires s.pub.lists != [] && s.pub.reloads != [] && s.pub.reloads[0] == Rest && Resting(s.pub)
    ensures Step(parse, exclusive, s, BeginReload(0, []))
            == s.(pub := s.pub.(lists := s.pub.lists + [[]],
                                reloads := s.pub.reloads[0 := Building([], |s.pub.lists|, 0, map[])]))
  {
  }

  /** Such a loss does happen, with or without exclusion: a run from the start, with one
      request for a valid site that is removed while the request is about to record, ends with
      everything done and the sample of that request in no registered object. */
  lemma DroppedDomainLosesSample(parse: U.UrlParser, exclusive: bool, sm: M.Sample)
    requires parse("http://" + "app:80").Some?
    ensures var site := BareSite("app.test", [], "app:80");
            && Validate(parse, site) == None
            && exists actions ::
                 var s := Run(parse, exclusive, Initial(1, 1), actions);
                 && s.pub.lists == [[], [site], []] && Resting(s.pub) && s.requests == [Idle]
                 && At(s.rec.done, "app.test") == [sm] && s.rec.registry == map[]
  {
    hide Run, Validate, Routable, Step;
    var site := BareSite("app.test", [], "app:80");
    assert "app" + ":" + "80" == "app:80";
    BareSiteIsValid(parse, "app.test", [], "app", "80");
    BareSiteRoutable(parse, "app.test", [], "app:80");
    var s0 := Initial(1, 1);
    NoRun(parse, exclusive, s0);
    assert InFlight(s0.requests) == {};
    var a1, m := PublishesOne(parse, exclusive, s0, [], s0, 0, site);
    var a2, name := FetchesOne(parse, exclusive, s0, a1, Run(parse, exclusive, s0, a1), site);
    var a3 := ReachesObject(parse, exclusive, s0, a2, Run(parse, exclusive, s0, a2), site, sm);
    var a4 := PublishesNone(parse, exclusive, s0, a3, Run(parse, exclusive, s0, a3));
    var s4 := Run(parse, exclusive, s0, a4);
    RunLast(parse, exclusive, s0, a4, Record(0));
    LastRecording(parse, exclusive, s4);
    assert s4.pub.lists == [[], [site], []];
  }

  lemma LastRecording(parse: U.UrlParser, exclusive: bool, s: State)
    requires s.pub.lists != [] && |s.requests| == 1 && s.requests[0].Holds?
    ensures var s', r := Step(parse, exclusive, s, Record(0)), s.requests[0];
            && s'.pub == s.pub && s'.requests == [Idle] && s'.rec.registry == s.rec.registry
            && At(s'.rec.done, r.domain) == At(s.rec.done, r.domain) + [r.sm]
  {
  }

  // ---------------------------------------------------------------------------
  // What remains registered
  // ---------------------------------------------------------------------------

  /** Between reloads the registry holds names that the current list keeps and, beyond those,
      only domains of requests that were in flight at the last prune. */
  ghost predicate Bounded(s: State) {
    && s.pub.lists != []
    && (Resting(s.pub) ==>
          && s.rec.registry.Keys <= Kept(Current(s.pub)) + s.rec.leftover
          && InFlight(s.requests) <= Kept(Current(s.pub)) + s.rec.leftover)
  }

  lemma InFlightMove(requests: seq<Request>, t: nat, r: Request)
    requires t < |requests|
    ensures InFlight(requests[t := r]) <= InFlight(requests) + DomainOf(r)
    ensures DomainOf(requests[t]) <= InFlight(requests)
  {
    assert requests[t] in requests;
  }

  /** A request takes its domain from the current list, */
  lemma RequestDomain(p: Published, rec: Recorded, r: Request, a: Action)
    requires p.lists != []
    ensures DomainOf(NextRequest(p, rec, r, a)) <= DomainOf(r) + Kept(Current(p))
  {
    hide LastClaim, Normalise, Kept;
    if r.Idle? && a.Arrive? && LastClaim(Current(p), Normalise(a.host)) >= 0 {
      LookedUpIsKept(Current(p), Normalise(a.host));
    }
  }

  /** and only its own domain into the registry. */
  lemma RegisteredDomain(rec: Recorded, r: Request, a: Action)
    ensures NextRecorded(rec, r, a).registry.Keys <= rec.registry.Keys + DomainOf(r)
    ensures NextRecorded(rec, r, a).leftover == rec.leftover
  {
    hide At;
  }

  lemma RequestKeepsBounded(s: State, t: nat, a: Action)
    requires Bounded(s) && t < |s.requests|
    ensures Bounded(RequestStep(s, t, a))
  {
    hide NextRequest, NextRecorded, Kept, InFlight, DomainOf;
    RequestDomain(s.pub, s.rec, s.requests[t], a);
    RegisteredDomain(s.rec, s.requests[t], a);
    InFlightMove(s.requests, t, RequestStep(s, t, a).requests[t]);
  }

  lemma ReloadKeepsBounded(parse: U.UrlParser, s: State, w: nat)
    requires Bounded(s) && OneAtATime(s.pub) && w < |s.pub.reloads| && ReloadOk(parse, s.pub.lists, s.pub.reloads[w])
    ensures Bounded(ReloadStep(parse, s, w))
    ensures s.pub.reloads[w].Swapped? ==> ReloadStep(parse, s, w).rec.registry.Keys <= Kept(Current(s.pub))
  {
    hide Advance, Kept, InFlight, Routes, OneAtATime;
    var s' := ReloadStep(parse, s, w);
    ReloadAdvances(parse, s.pub, w);
    UnderWay(s.pub, w);
    assert s'.pub.reloads[w] in s'.pub.reloads;
  }

  lemma UnderWay(p: Published, w: nat)
    requires OneAtATime(p) && w < |p.reloads|
    ensures p.reloads[w] != Rest ==> p.lists != [] && p.reloads[w].list == Current(p)
    ensures p.reloads[w] == Rest ==> p.reloads[w := Rest] == p.reloads
  {
    assert p.reloads[w] in p.reloads;
  }

  lemma BeginKeepsBounded(s: State, w: nat, list: seq<Site>)
    requires Bounded(s)
    ensures Bounded(s.(pub := Begin(true, s.pub, w, list)))
  {
    hide Kept, InFlight;
    var p := Begin(true, s.pub, w, list);
    if p != s.pub {
      assert p.reloads[w] in p.reloads;
    }
  }

  lemma {:induction false} BoundedHolds(parse: U.UrlParser, s: State, actions: seq<Action>)
    requires Bounded(s) && Complete(parse, s) && InStep(s)
    ensures Bounded(Run(parse, true, s, actions))
    decreases |actions|
  {
    hide RequestStep, ReloadStep, Begin, Bounded, OneAtATime, Routes;
    assert s.pub.lists != [];
    if actions == [] {
    } else {
      var a := actions[0];
      match a {
        case BeginReload(w, list) => BeginKeepsBounded(s, w, list);
        case AdvanceReload(w) =>
          if w < |s.pub.reloads| {
            assert s.pub.reloads[w] in s.pub.reloads;
            ReloadKeepsBounded(parse, s, w);
          }
        case _ =>
          if a.t < |s.requests| {
            RequestKeepsBounded(s, a.t, a);
          }
      }
      ListsGrow(parse, true, s, a);
      StepKeepsInStep(parse, s, a);
      CompleteHolds(parse, true, s, [a]);
      assert [a][1..] == [];
      BoundedHolds(parse, Step(parse, true, s, a), actions[1..]);
    }
  }

  /** While reload sequences exclude each other, metrics of removed sites are gone after a
      prune, and come back only for requests that were already under way. */
  lemma RegistryBounded(parse: U.UrlParser, n: nat, k: nat, actions: seq<Action>)
    ensures var s := Run(parse, true, Initial(n, k), actions);
            Resting(s.pub) ==> s.rec.registry.Keys <= Kept(Current(s.pub)) + s.rec.leftover
    ensures var s := Run(parse, true, Initial(n, k), actions);
            forall w | 0 <= w < |s.pub.reloads| && s.pub.reloads[w].Swapped? ::
              Step(parse, true, s, AdvanceReload(w)).rec.registry.Keys <= Kept(Current(s.pub))
  {
    assert InFlight(Initial(n, k).requests) == {};
    InitialComplete(parse, n, k);
    BoundedHolds(parse, Initial(n, k), actions);
    CompleteHolds(parse, true, Initial(n, k), actions);
    InStepHolds(parse, Initial(n, k), actions);
    hide Run, Routes, Kept, InFlight, ReloadStep, OneAtATime;
    var s := Run(parse, true, Initial(n, k), actions);
    forall w | 0 <= w < |s.pub.reloads| && s.pub.reloads[w].Swapped?
      ensures Step(parse, true, s, AdvanceReload(w)).rec.registry.Keys <= Kept(Current(s.pub))
    {
      assert s.pub.reloads[w] in s.pub.reloads;
      ReloadKeepsBounded(parse, s, w);
    }
  }
}
