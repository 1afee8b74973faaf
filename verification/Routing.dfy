/** The two maps built from one site list: the store's index over lowercased names and the
    router's runtimes over names as written, internal/config/config.go and
    internal/proxy/router.go. */
module Routing {
  import opened Wrappers
  import opened Config
  import Text
  import U = Upstream

  /** The router keeps a runtime for this site. */
  predicate Routable(parse: U.UrlParser, s: Site) {
    s.enabled && U.PoolBuilds(parse, s.upstreams)
  }

  /** That is, it is enabled and every upstream parses, with http:// where no scheme is given. */
  lemma RoutableIff(parse: U.UrlParser, s: Site)
    ensures Routable(parse, s)
            <==> && s.enabled
                 && forall u | u in s.upstreams ::
                      parse(if exists a, b :: u == a + "://" + b then u else "http://" + u).Some?
  {
    forall u
      ensures U.ParseUpstream(parse, u) == parse(if exists a, b :: u == a + "://" + b then u else "http://" + u)
    {
      Text.ContainsIff(u, "://");
    }
  }

  lemma BareSiteRoutable(parse: U.UrlParser, domain: string, aliases: seq<string>, upstream: string)
    ensures Routable(parse, BareSite(domain, aliases, upstream)) <==> U.ParseUpstream(parse, upstream).Some?
  {
    assert upstream in [upstream];
  }

  ghost function NamesOf(names: seq<string>): set<string> {
    set d | d in names
  }

  ghost function Names(s: Site): set<string> {
    NamesOf(s.AllDomains())
  }

  lemma NamesIff(s: Site, name: string)
    ensures name in Names(s) <==> name == s.domain || name in s.aliases
  {
    assert s.AllDomains()[0] == s.domain;
  }

  /** The runtime map of a site list, by the site each runtime was built from. */
  ghost function Routes(parse: U.UrlParser, sites: seq<Site>): map<string, Site> {
    if sites == [] then map[]
    else
      var s := sites[|sites| - 1];
      var rest := Routes(parse, sites[..|sites| - 1]);
      if Routable(parse, s) then Claim(rest, Names(s), s) else rest
  }

  /** Position of the last routable site claiming the name verbatim, or -1. */
  ghost function LastRoute(parse: U.UrlParser, sites: seq<Site>, name: string): (i: int)
    ensures -1 <= i < |sites|
    ensures i >= 0 ==> Routable(parse, sites[i]) && name in Names(sites[i])
    ensures forall j | i < j < |sites| :: !(Routable(parse, sites[j]) && name in Names(sites[j]))
  {
    if sites == [] then -1
    else
      var n := |sites| - 1;
      if Routable(parse, sites[n]) && name in Names(sites[n]) then n else LastRoute(parse, sites[..n], name)
  }

  lemma {:induction false} RoutesAreLastRoute(parse: U.UrlParser, sites: seq<Site>, name: string)
    ensures name in Routes(parse, sites) <==> LastRoute(parse, sites, name) >= 0
    ensures name in Routes(parse, sites) ==> Routes(parse, sites)[name] == sites[LastRoute(parse, sites, name)]
    decreases |sites|
  {
    hide Routable, Names;
    if sites == [] {
    } else {
      RoutesAreLastRoute(parse, sites[..|sites| - 1], name);
    }
  }

  /** The names whose metrics survive a reload with this list. */
  ghost function Kept(sites: seq<Site>): set<string> {
    if sites == [] then {}
    else
      var s := sites[|sites| - 1];
      Kept(sites[..|sites| - 1]) + if s.enabled then Names(s) else {}
  }

  /** They are exactly the domains and aliases of the enabled sites. */
  lemma {:induction false} KeptIff(sites: seq<Site>, name: string)
    ensures name in Kept(sites)
            <==> exists i :: 0 <= i < |sites| && sites[i].enabled && (name == sites[i].domain || name in sites[i].aliases)
    decreases |sites|
  {
    hide Names;
    if sites == [] {
    } else {
      var n := |sites| - 1;
      KeptIff(sites[..n], name);
      NamesIff(sites[n], name);
      if exists i :: 0 <= i < n && sites[i].enabled && (name == sites[i].domain || name in sites[i].aliases) {
        var i :| 0 <= i < n && sites[i].enabled && (name == sites[i].domain || name in sites[i].aliases);
        assert sites[..n][i] == sites[i];
      }
    }
  }

  /** The metrics of every name with a runtime survive. */
  lemma {:induction false} KeptRoutes(parse: U.UrlParser, sites: seq<Site>)
    ensures Routes(parse, sites).Keys <= Kept(sites)
    decreases |sites|
  {
    hide Names;
    if sites == [] {
    } else {
      KeptRoutes(parse, sites[..|sites| - 1]);
    }
  }

  /** The metrics of every site that can be looked up survive. */
  lemma {:induction false} LookedUpIsKept(sites: seq<Site>, name: string)
    requires LastClaim(sites, name) >= 0
    ensures sites[LastClaim(sites, name)].domain in Kept(sites)
    decreases |sites|
  {
    hide LowerNames;
    var n := |sites| - 1;
    if LastClaim(sites, name) == n {
      DomainIsName(sites[n]);
    } else {
      LookedUpIsKept(sites[..n], name);
    }
  }

  lemma RoutesStep(parse: U.UrlParser, done: seq<Site>, s: Site)
    ensures Routes(parse, done + [s])
            == if Routable(parse, s) then Claim(Routes(parse, done), Names(s), s) else Routes(parse, done)
    ensures forall k ::
              LastRoute(parse, done + [s], k)
              == if Routable(parse, s) && k in Names(s) then |done| else LastRoute(parse, done, k)
  {
    assert (done + [s])[..|done|] == done;
  }

  lemma NameLowers(s: Site, name: string)
    requires name in Names(s)
    ensures Text.ToLower(name) in LowerNames(s)
  {
  }

  // ---------------------------------------------------------------------------
  // Agreement
  // ---------------------------------------------------------------------------

  /** Looking a host up and then fetching the runtime of the found site's domain yields a
      runtime built from that very site. */
  ghost predicate HostAgrees(parse: U.UrlParser, sites: seq<Site>, host: string) {
    var i := LastClaim(sites, Normalise(host));
    i >= 0 && Routable(parse, sites[i]) ==> LastRoute(parse, sites, sites[i].domain) == i
  }

  /** A site reached under its own domain is always served by its own runtime. */
  lemma OwnDomainAgrees(parse: U.UrlParser, sites: seq<Site>, host: string)
    requires var i := LastClaim(sites, Normalise(host));
             i >= 0 ==> Normalise(host) == Text.ToLower(sites[i].domain)
    ensures HostAgrees(parse, sites, host)
  {
    var i := LastClaim(sites, Normalise(host));
    if i >= 0 && Routable(parse, sites[i]) {
      var j := LastRoute(parse, sites, sites[i].domain);
      if j > i {
        NameLowers(sites[j], sites[i].domain);
      }
    }
  }

  /** Under an alias it is exactly when no later routable site writes that domain. */
  lemma AliasAgreesIff(parse: U.UrlParser, sites: seq<Site>, host: string)
    requires LastClaim(sites, Normalise(host)) >= 0
    requires Routable(parse, sites[LastClaim(sites, Normalise(host))])
    ensures var i := LastClaim(sites, Normalise(host));
            HostAgrees(parse, sites, host)
            <==> forall j | i < j < |sites| :: Routable(parse, sites[j]) ==> sites[i].domain !in Names(sites[j])
  {
    hide Routable, Names, LastClaim;
    var i := LastClaim(sites, Normalise(host));
    assert sites[i].domain in Names(sites[i]) by {
      DomainIsName(sites[i]);
    }
  }

  lemma DomainIsName(s: Site)
    ensures s.domain in Names(s)
  {
    assert s.AllDomains()[0] == s.domain;
  }

  /** Site i lost its domain to the later site j but still owns the name `alias`. */
  ghost predicate Shadowed(parse: U.UrlParser, sites: seq<Site>, i: int, j: int, alias: string) {
    && 0 <= i < j < |sites|
    && Routable(parse, sites[i]) && Routable(parse, sites[j])
    && sites[i].domain in Names(sites[j])
    && LastClaim(sites, alias) == i
  }

  /** Every lowercased name can be asked for. */
  lemma NameIsReachable(s: Site, name: string)
    requires name in LowerNames(s)
    ensures Normalise(name + ":") == name
  {
    var d :| d in s.AllDomains() && Text.ToLower(d) == name;
    Text.ToLowerIdempotent(d);
    var host := name + ":";
    assert host[|name|] == ':';
    assert Text.LastIndex(host, ':') == |name|;
    assert host[..|name|] == name;
  }

  /** The two maps agree for all hosts exactly when no site that lost its domain keeps an alias. */
  lemma AgreementIff(parse: U.UrlParser, sites: seq<Site>)
    ensures (forall host :: HostAgrees(parse, sites, host))
            <==> !(exists i, j, alias :: Shadowed(parse, sites, i, j, alias))
  {
    hide Routable, Names, LowerNames, Normalise;
    forall host | !HostAgrees(parse, sites, host)
      ensures exists i, j, alias :: Shadowed(parse, sites, i, j, alias)
    {
      var i := LastClaim(sites, Normalise(host));
      var j := LastRoute(parse, sites, sites[i].domain);
      DomainIsName(sites[i]);
      assert Shadowed(parse, sites, i, j, Normalise(host));
    }
    forall i, j, alias | Shadowed(parse, sites, i, j, alias)
      ensures !HostAgrees(parse, sites, alias + ":")
    {
      NameIsReachable(sites[i], alias);
    }
  }

  /** They do disagree for valid sites: the second of these writes the first one's domain as an
      alias, so the first is looked up under its remaining alias and the second serves. */
  lemma ValidSiteShadowed(parse: U.UrlParser)
    requires parse("http://" + "app:80").Some?
    ensures var a, b := BareSite("a.test", ["www.test"], "app:80"), BareSite("b.test", ["a.test"], "app:80");
            && Validate(parse, a) == None && Validate(parse, b) == None
            && Shadowed(parse, [a, b], 0, 1, Text.ToLower("www.test"))
            && !(forall host :: HostAgrees(parse, [a, b], host))
  {
    hide Validate, Routable, Text.ToLower;
    assert "app" + ":" + "80" == "app:80";
    BareSiteIsValid(parse, "a.test", ["www.test"], "app", "80");
    BareSiteIsValid(parse, "b.test", ["a.test"], "app", "80");
    BareSiteRoutable(parse, "a.test", ["www.test"], "app:80");
    BareSiteRoutable(parse, "b.test", ["a.test"], "app:80");
    var a, b := BareSite("a.test", ["www.test"], "app:80"), BareSite("b.test", ["a.test"], "app:80");
    WwwIsNotB();
    FirstShadowed(parse, a, b, "www.test");
    AgreementIff(parse, [a, b]);
  }

  lemma WwwIsNotB()
    ensures Text.ToLower("www.test") != Text.ToLower("b.test")
    ensures Text.ToLower("www.test") != Text.ToLower("a.test")
  {
    assert |Text.ToLower("www.test")| == 8 && |Text.ToLower("b.test")| == 6 && |Text.ToLower("a.test")| == 6;
  }

  lemma FirstShadowed(parse: U.UrlParser, a: Site, b: Site, alias: string)
    requires Routable(parse, a) && Routable(parse, b)
    requires b.aliases == [a.domain] && a.aliases == [alias]
    requires Text.ToLower(alias) != Text.ToLower(b.domain) && Text.ToLower(alias) != Text.ToLower(a.domain)
    ensures Shadowed(parse, [a, b], 0, 1, Text.ToLower(alias))
  {
    hide Text.ToLower;
    assert a.AllDomains() == [a.domain, alias] && b.AllDomains() == [b.domain, a.domain];
    assert a.AllDomains()[1] == alias && b.AllDomains()[1] == a.domain;
    assert a.domain in Names(b);
    NameLowers(a, alias);
    assert Text.ToLower(alias) !in LowerNames(b);
    assert [a, b][..1] == [a] && [a][..0] == [];
  }

  /** With no name claimed twice, whatever its letter case, they always agree. */
  lemma DistinctNamesAgree(parse: U.UrlParser, sites: seq<Site>)
    requires forall i, j | 0 <= i < j < |sites| && sites[i].enabled && sites[j].enabled ::
               LowerNames(sites[i]) !! LowerNames(sites[j])
    ensures forall host :: HostAgrees(parse, sites, host)
  {
    hide LowerNames;
    forall i, j, alias
      ensures !Shadowed(parse, sites, i, j, alias)
    {
      if Shadowed(parse, sites, i, j, alias) {
        ShadowedNamesOverlap(parse, sites, i, j, alias);
      }
    }
    AgreementIff(parse, sites);
  }

  lemma ShadowedNamesOverlap(parse: U.UrlParser, sites: seq<Site>, i: int, j: int, alias: string)
    requires Shadowed(parse, sites, i, j, alias)
    ensures !(LowerNames(sites[i]) !! LowerNames(sites[j]))
  {
    hide LowerNames;
    DomainIsName(sites[i]);
    NameLowers(sites[i], sites[i].domain);
    NameLowers(sites[j], sites[i].domain);
    assert Text.ToLower(sites[i].domain) in LowerNames(sites[i]) * LowerNames(sites[j]);
  }

  /** A site whose pool cannot be built is not simply unavailable: a request for it is served
      exactly if some site whose pool builds writes its domain, and then by the last of those,
      never by a runtime of its own. */
  lemma UnbuildablePoolFallsThrough(parse: U.UrlParser, sites: seq<Site>, host: string)
    requires LastClaim(sites, Normalise(host)) >= 0
    requires !Routable(parse, sites[LastClaim(sites, Normalise(host))])
    ensures var i := LastClaim(sites, Normalise(host));
            var j := LastRoute(parse, sites, sites[i].domain);
            && j != i
            && (sites[i].domain in Routes(parse, sites)
                <==> exists k :: 0 <= k < |sites| && Routable(parse, sites[k]) && sites[i].domain in Names(sites[k]))
            && (sites[i].domain in Routes(parse, sites) ==> j >= 0 && Routes(parse, sites)[sites[i].domain] == sites[j])
  {
    hide Routable, Names, LastClaim, Routes;
    RoutesAreLastRoute(parse, sites, sites[LastClaim(sites, Normalise(host))].domain);
  }

  /** If a request for the host is served, then by a runtime built from the site looked up. */
  ghost predicate ServedByItself(parse: U.UrlParser, sites: seq<Site>, host: string) {
    var i := LastClaim(sites, Normalise(host));
    i >= 0 && sites[i].domain in Routes(parse, sites) ==> LastRoute(parse, sites, sites[i].domain) == i
  }

  /** Site i has no pool, owns the name `alias`, and the routable site j writes its domain. */
  ghost predicate TakenOver(parse: U.UrlParser, sites: seq<Site>, i: int, j: int, alias: string) {
    && 0 <= i < |sites| && 0 <= j < |sites|
    && !Routable(parse, sites[i]) && Routable(parse, sites[j])
    && sites[i].domain in Names(sites[j])
    && LastClaim(sites, alias) == i
  }

  /** Every request that is served at all is served by the site it looked up exactly if no
      site lost its domain to a later one and kept a name, and no site without a pool has its
      domain written by another. */
  lemma ServedByItselfIff(parse: U.UrlParser, sites: seq<Site>)
    ensures (forall host :: ServedByItself(parse, sites, host))
            <==> && !(exists i, j, alias :: Shadowed(parse, sites, i, j, alias))
                 && !(exists i, j, alias :: TakenOver(parse, sites, i, j, alias))
  {
    hide Routable, Names, LowerNames, Normalise, Routes;
    forall host | !ServedByItself(parse, sites, host)
      ensures (exists i, j, alias :: Shadowed(parse, sites, i, j, alias))
              || (exists i, j, alias :: TakenOver(parse, sites, i, j, alias))
    {
      var i := LastClaim(sites, Normalise(host));
      var j := LastRoute(parse, sites, sites[i].domain);
      RoutesAreLastRoute(parse, sites, sites[i].domain);
      DomainIsName(sites[i]);
      assert if Routable(parse, sites[i]) then Shadowed(parse, sites, i, j, Normalise(host))
             else TakenOver(parse, sites, i, j, Normalise(host));
    }
    forall i, j, alias | Shadowed(parse, sites, i, j, alias) || TakenOver(parse, sites, i, j, alias)
      ensures !ServedByItself(parse, sites, alias + ":")
    {
      NameIsReachable(sites[i], alias);
      RoutesAreLastRoute(parse, sites, sites[i].domain);
    }
  }

  lemma SecondTakenOver(parse: U.UrlParser, a: Site, b: Site)
    requires Routable(parse, a) && b.domain in a.aliases
    requires b.enabled && !Routable(parse, b)
    ensures TakenOver(parse, [a, b], 1, 0, Text.ToLower(b.domain))
    ensures b.domain in Routes(parse, [a, b]) && Routes(parse, [a, b])[b.domain] == a
  {
    DomainIsName(b);
    NameLowers(b, b.domain);
    assert a.AllDomains() == [a.domain] + a.aliases;
    assert b.domain in Names(a);
    assert [a, b][..1] == [a];
    assert [a][..0] == [];
  }

  /** This happens to valid sites: with any parser that takes http://app:80 but not
      http://app two:80, for its space, the second of these two is looked up under its own
      domain and the first serves. */
  lemma ValidSiteTakenOver(parse: U.UrlParser)
    requires parse("http://" + "app:80").Some? && parse("http://" + "app two:80").None?
    ensures var a, b := BareSite("www.test", ["app.test"], "app:80"), BareSite("app.test", [], "app two:80");
            && Validate(parse, a) == None && Validate(parse, b) == None
            && TakenOver(parse, [a, b], 1, 0, Text.ToLower(b.domain))
            && b.domain in Routes(parse, [a, b]) && Routes(parse, [a, b])[b.domain] == a
  {
    hide Validate, Names, LowerNames, LastClaim, Routes, TakenOver, Text.ToLower, U.ParseUpstream;
    assert "app" + ":" + "80" == "app:80" && "app two" + ":" + "80" == "app two:80";
    BareSiteIsValid(parse, "www.test", ["app.test"], "app", "80");
    BareSiteIsValid(parse, "app.test", [], "app two", "80");
    var a, b := BareSite("www.test", ["app.test"], "app:80"), BareSite("app.test", [], "app two:80");
    assert "app two:80" in b.upstreams;
    SecondTakenOver(parse, a, b);
  }
}
