/** The request pipeline and its per-site runtimes, internal/proxy/router.go, and the reload
    callback of cmd/jobcloud/main.go. */
module Router {
  import opened Wrappers
  import opened Config
  import opened Routing
  import opened RateLimit
  import opened MetricsRegistry
  import M = Metrics
  import S = MetricsSite
  import U = Upstream

  // ---------------------------------------------------------------------------
  // The counting writer
  // ---------------------------------------------------------------------------

  /** What the reverse proxy does to its response writer. */
  datatype WriterOp = Header(code: int) | Body(n: nat)

  class CountingWriter {
    var status: int
    var bytes: int
    var wroteHeader: bool

    constructor ()
      ensures status == 200 && bytes == 0 && !wroteHeader
    {
      status, bytes, wroteHeader := 200, 0, false;
    }

    method WriteHeader(code: int)
      modifies this
      ensures status == (if old(wroteHeader) then old(status) else code) && bytes == old(bytes) && wroteHeader
    {
      if !wroteHeader {
        status := code;
        wroteHeader := true;
      }
    }

    method Write(n: nat)
      modifies this
      ensures status == old(status) && bytes == old(bytes) + n && wroteHeader
    {
      if !wroteHeader {
        wroteHeader := true;
      }
      bytes := bytes + n;
    }
  }

  function BytesOf(ops: seq<WriterOp>): nat {
    if ops == [] then 0
    else BytesOf(ops[..|ops| - 1]) + match ops[|ops| - 1] case Header(_) => 0 case Body(n) => n
  }

  function StatusOf(ops: seq<WriterOp>): int {
    if ops != [] && ops[0].Header? then ops[0].code else 200
  }

  /** Bodies add up and headers add nothing. */
  lemma BytesAdd(ops: seq<WriterOp>, op: WriterOp)
    ensures BytesOf([]) == 0
    ensures BytesOf(ops + [op]) == BytesOf(ops) + match op case Body(n) => n case Header(_) => 0
  {
    assert (ops + [op])[..|ops|] == ops;
  }

  /** The status recorded is the first header sent, informational or not, unless the body
      was started without one. */
  method CountReply(ops: seq<WriterOp>) returns (status: int, bytes: int)
    ensures status == StatusOf(ops)
    ensures ops != [] && ops[0].Header? ==> status == ops[0].code
    ensures ops == [] || ops[0].Body? ==> status == 200
    ensures bytes == BytesOf(ops)
  {
    var cw := new CountingWriter();
    for i := 0 to |ops|
      invariant cw.wroteHeader <==> i > 0
      invariant cw.status == if i > 0 && ops[0].Header? then ops[0].code else 200
      invariant cw.bytes == BytesOf(ops[..i])
    {
      assert ops[..i + 1][..i] == ops[..i];
      match ops[i] {
        case Header(code) => cw.WriteHeader(code);
        case Body(n) => cw.Write(n);
      }
    }
    assert ops[..|ops|] == ops;
    return cw.status, cw.bytes;
  }

  // ---------------------------------------------------------------------------
  // One site's runtime
  // ---------------------------------------------------------------------------

  datatype Outcome =
    | Stopping
    | UnknownHost
    | Redirected
    | Forbidden
    | NoRuntime
    | Limited
    | Proxied(target: Option<U.Url>, status: int, bytes: int)

  function CapacityOf(r: RateLimitConfig): int {
    r.rps + if r.burst < 0 then 0 else r.burst
  }

  /** The counters of a runtime that requests move. */
  datatype Tally = Tally(proxied: nat, limited: nat, picks: seq<nat>, trace: seq<Call>)

  class SiteRuntime {
    const site: Site
    const pool: U.Pool
    const limiter: Limiter?
    /** Requests handed to the upstreams, and requests answered 429. */
    ghost var proxied: nat
    ghost var limited: nat

    /** Tickets, limiter admissions and refusals are those of the requests that came here. */
    ghost predicate Valid()
      reads this, pool, if limiter == null then {} else {limiter}
    {
      && pool.Valid()
      && |pool.upstreams| == |site.upstreams|
      && |pool.picks| == (if pool.upstreams == [] then 0 else proxied)
      && (limiter == null <==> !(site.rateLimit.enabled && site.rateLimit.rps > 0))
      && (limiter == null ==> limited == 0)
      && (limiter != null ==>
            && limiter.Valid()
            && limiter.rps == site.rateLimit.rps && limiter.burst == CapacityOf(site.rateLimit)
            && Admitted(limiter.trace) == proxied
            && |limiter.trace| == proxied + limited)
    }

    /** Everything a request can change here. */
    ghost function Counters(): Tally
      reads this, pool, if limiter == null then {} else {limiter}
    {
      Tally(proxied, limited, pool.picks, if limiter == null then [] else limiter.trace)
    }

    constructor (site: Site, pool: U.Pool, limiter: Limiter?)
      requires pool.Valid() && pool.picks == [] && |pool.upstreams| == |site.upstreams|
      requires limiter == null <==> !(site.rateLimit.enabled && site.rateLimit.rps > 0)
      requires limiter != null ==>
                 && limiter.Valid() && limiter.trace == []
                 && limiter.rps == site.rateLimit.rps && limiter.burst == CapacityOf(site.rateLimit)
      ensures Valid() && proxied == 0 && limited == 0
      ensures this.site == site && this.pool == pool && this.limiter == limiter
    {
      this.site, this.pool, this.limiter := site, pool, limiter;
      proxied, limited := 0, 0;
    }

    /** Rate limit, then the next upstream and its answer. A refused request takes no ticket. */
    method Handle(ip: string, now: int, ops: seq<WriterOp>) returns (out: Outcome)
      requires Valid()
      modifies this, pool, if limiter == null then {} else {limiter}
      ensures Valid()
      ensures Answered(this, old(Counters()), Counters(), ip, now, out)
      ensures out.Limited? ==> pool.picks == old(pool.picks)
      ensures out.Proxied? && pool.upstreams != [] ==>
                pool.picks == old(pool.picks) + [(old(proxied) % U.WRAP) % |pool.upstreams|]
      ensures out.Proxied? ==> out.status == StatusOf(ops) && out.bytes == BytesOf(ops)
    {
      hide U.Pool.Valid, Limiter.Valid, WithinBudget, CallsOf, Admitted;
      if limiter != null {
        var ok := limiter.Allow(ip, now);
        AdmittedAppend(old(limiter.trace), Call(ip, now, ok));
        if !ok {
          limited := limited + 1;
          return Limited;
        }
      }
      var target := pool.Next();
      proxied := proxied + 1;
      var status, bytes := CountReply(ops);
      return Proxied(target, status, bytes);
    }
  }

  /** How one answered request moves the counters of its runtime. The limiter decides by its
      rule and logs this call only; the admitted request gets the ticket whose number is the
      count of those admitted before it, and a refused one gets none. */
  ghost predicate Answered(rt: SiteRuntime, was: Tally, now: Tally, ip: string, time: int, out: Outcome) {
    && (out.Limited? || out.Proxied?)
    && now.proxied == was.proxied + (if out.Proxied? then 1 else 0)
    && now.limited == was.limited + (if out.Proxied? then 0 else 1)
    && (rt.limiter == null ==> out.Proxied? && now.trace == was.trace)
    && (rt.limiter != null ==>
          && (out.Proxied? <==> WithinBudget(rt.limiter.rps, rt.limiter.burst, CallsOf(was.trace, ip), time))
          && now.trace == was.trace + [Call(ip, time, out.Proxied?)])
    && (out.Limited? ==> now.picks == was.picks)
    && (out.Proxied? ==> out.target == if rt.pool.upstreams == [] then None
                                       else Some(rt.pool.upstreams[(was.proxied % U.WRAP) % |rt.pool.upstreams|]))
  }

  /** Spelled out: a limiter refuses exactly if one more admission would exceed a window of this
      address's own calls, it notes this call under this address, and an admitted request goes
      to the upstream whose turn it is. */
  lemma AnsweredIs(rt: SiteRuntime, was: Tally, now: Tally, ip: string, time: int, out: Outcome)
    requires Answered(rt, was, now, ip, time, out)
    ensures rt.limiter == null ==> out.Proxied? && now.trace == was.trace
    ensures rt.limiter != null ==>
              var calls, l := CallsOf(was.trace, ip), rt.limiter;
              && (out.Limited?
                  <==> || l.burst < 1
                       || (exists i :: 0 <= i < |calls|
                             && (Admitted(calls[i..]) + 1) * NANOS > l.burst * NANOS + l.rps * (time - calls[i].time)))
              && now.trace == was.trace + [Call(ip, time, out.Proxied?)]
    ensures out.Limited? ==> now.proxied == was.proxied && now.limited == was.limited + 1 && now.picks == was.picks
    ensures out.Proxied? ==>
              && now.proxied == was.proxied + 1 && now.limited == was.limited
              && (rt.pool.upstreams != [] ==>
                    out.target == Some(rt.pool.upstreams[(was.proxied % 0x1_0000_0000_0000_0000) % |rt.pool.upstreams|]))
    ensures out.Limited? || out.Proxied?
  {
    hide WithinBudget, CallsOf, Admitted;
    if rt.limiter != null {
      WithinBudgetIff(rt.limiter.rps, rt.limiter.burst, CallsOf(was.trace, ip), time);
    }
  }

  /** As built from its site: one target per upstream, in order, and nothing served yet. */
  ghost predicate Built(parse: U.UrlParser, rt: SiteRuntime)
    reads rt
  {
    && |rt.pool.upstreams| == |rt.site.upstreams|
    && (forall i | 0 <= i < |rt.site.upstreams| ::
          U.ParseUpstream(parse, rt.site.upstreams[i]) == Some(rt.pool.upstreams[i]))
    && rt.proxied == 0 && rt.limited == 0
  }

  ghost function RuntimeObjects(m: map<string, SiteRuntime>): set<object> {
    (set k | k in m :: m[k] as object)
    + (set k | k in m :: m[k].pool as object)
    + (set k | k in m && m[k].limiter != null :: m[k].limiter as object)
  }

  ghost predicate RuntimesValid(m: map<string, SiteRuntime>)
    reads RuntimeObjects(m)
  {
    && (forall k | k in m :: m[k].Valid())
    && (forall k, l | k in m && l in m && m[k] != m[l] :: Apart(m[k], m[l]))
  }

  // ---------------------------------------------------------------------------
  // What a request does
  // ---------------------------------------------------------------------------

  /** What the pipeline looks at in a request; `exploit` says that the path or user agent
      matches one of the filters. */
  datatype Request = Request(host: string, tls: bool, exploit: bool, ip: string)

  /** Either an early answer, or the site whose runtime takes the request. */
  datatype Decision = Early(out: Outcome) | ToRuntime(site: Site)

  ghost function Decide(sites: seq<Site>, stopping: bool, domains: set<string>, req: Request): Decision {
    var i := LastClaim(sites, Normalise(req.host));
    if stopping then Early(Stopping)
    else if i < 0 then Early(UnknownHost)
    else if sites[i].httpToHttps && !req.tls then Early(Redirected)
    else if sites[i].blockCommonExploits && req.exploit then Early(Forbidden)
    else if sites[i].domain !in domains then Early(NoRuntime)
    else ToRuntime(sites[i])
  }

  /** Which answer a request gets, outcome by outcome: it is stopped, or unknown, or sent on to
      HTTPS, or filtered, or left without a runtime, or goes to the runtime of the domain of
      the site that last claimed its host, the first of these that applies. */
  lemma DecideIff(sites: seq<Site>, stopping: bool, domains: set<string>, req: Request)
    ensures var i := LastClaim(sites, Normalise(req.host));
            var d := Decide(sites, stopping, domains, req);
            var redirect := i >= 0 && sites[i].httpToHttps && !req.tls;
            var filter := i >= 0 && sites[i].blockCommonExploits && req.exploit;
            && (d == Early(Stopping) <==> stopping)
            && (d == Early(UnknownHost) <==> !stopping && i < 0)
            && (d == Early(Redirected) <==> !stopping && redirect)
            && (d == Early(Forbidden) <==> !stopping && filter && (req.tls || !sites[i].httpToHttps))
            && (d == Early(NoRuntime)
                <==> !stopping && i >= 0 && !redirect && !filter && sites[i].domain !in domains)
            && (d.ToRuntime? <==> !stopping && i >= 0 && !redirect && !filter && sites[i].domain in domains)
            && (d.ToRuntime? ==> d == ToRuntime(sites[i]))
  {
    hide LastClaim, Normalise;
  }

  function LimiterOf(rt: SiteRuntime): set<object> {
    if rt.limiter == null then {} else {rt.limiter}
  }

  /** One answered request moves the counters of its own runtime and of no other. */
  ghost predicate Effect(m: map<string, SiteRuntime>, was: map<string, Tally>, now: map<string, Tally>,
                         name: string, ip: string, time: int, out: Outcome)
  {
    && name in m && was.Keys == now.Keys == m.Keys
    && Answered(m[name], was[name], now[name], ip, time, out)
    && forall k | k in m && m[k] != m[name] :: now[k] == was[k]
  }

  /** The sample recorded for an answer. */
  function SampleOf(out: Outcome, latency: int): M.Sample {
    match out
    case Proxied(_, status, bytes) => M.Sample(status, bytes, latency)
    case _ => M.Sample(429, 0, latency)
  }

  lemma RuntimesApartFromRegistry(router: Router, m: map<string, SiteRuntime>, r: Registry)
    ensures RuntimeObjects(m) !! Footprint(r.sites) && r !in RuntimeObjects(m)
    ensures router !in Footprint(r.sites) && router.store !in Footprint(r.sites)
    ensures router !in RuntimeObjects(m) && router.store !in RuntimeObjects(m)
    ensures forall k | k in m ::
              m[k] in RuntimeObjects(m) && m[k].pool in RuntimeObjects(m) && LimiterOf(m[k]) <= RuntimeObjects(m)
  {
  }

  lemma RuntimeApartFromRegistry(rt: SiteRuntime, r: Registry)
    ensures rt !in Footprint(r.sites) && rt.pool !in Footprint(r.sites)
    ensures rt.limiter != null ==> rt.limiter !in Footprint(r.sites)
  {
  }

  // ---------------------------------------------------------------------------
  // Conservation since a reload
  // ---------------------------------------------------------------------------

  /** The entries of all names that lead to one runtime. */
  ghost function OfRuntime(m: map<string, SiteRuntime>, since: map<string, nat>, rt: SiteRuntime): map<string, nat>
    requires since.Keys == m.Keys
  {
    map k | k in m && m[k] == rt :: since[k]
  }

  /** For each runtime, the samples recorded under all its names are its answered requests. */
  ghost predicate Balances(m: map<string, SiteRuntime>, counters: map<string, Tally>, since: map<string, nat>) {
    && since.Keys == counters.Keys == m.Keys
    && forall k | k in m :: S.Mass(OfRuntime(m, since, m[k])) == counters[k].proxied + counters[k].limited
  }

  /** Names that share a runtime see the same counters. */
  ghost predicate Shared(m: map<string, SiteRuntime>, counters: map<string, Tally>) {
    counters.Keys == m.Keys && forall k, l | k in m && l in m && m[k] == m[l] :: counters[k] == counters[l]
  }

  /** One more request answered by the runtime of this name, and none by the others. */
  ghost predicate OneAnswer(m: map<string, SiteRuntime>, was: map<string, Tally>, now: map<string, Tally>, name: string) {
    && name in m && was.Keys == now.Keys == m.Keys
    && now[name].proxied + now[name].limited == was[name].proxied + was[name].limited + 1
    && forall k | k in m && m[k] != m[name] :: now[k] == was[k]
  }

  lemma EffectIsOneAnswer(m: map<string, SiteRuntime>, was: map<string, Tally>, now: map<string, Tally>,
                          name: string, ip: string, time: int, out: Outcome)
    requires Effect(m, was, now, name, ip, time, out)
    ensures OneAnswer(m, was, now, name)
  {
    hide WithinBudget, CallsOf;
  }

  lemma OneMoreSample(m: map<string, SiteRuntime>, since: map<string, nat>, name: string, rt: SiteRuntime)
    requires since.Keys == m.Keys && name in m
    ensures S.Mass(OfRuntime(m, S.Bump(since, name), rt))
            == S.Mass(OfRuntime(m, since, rt)) + if m[name] == rt then 1 else 0
  {
    hide S.Mass;
    if m[name] == rt {
      assert OfRuntime(m, S.Bump(since, name), rt) == S.Bump(OfRuntime(m, since, rt), name);
      S.MassBump(OfRuntime(m, since, rt), name);
    } else {
      assert OfRuntime(m, S.Bump(since, name), rt) == OfRuntime(m, since, rt);
    }
  }

  /** An answered request and its sample, filed under one of the names of its runtime. */
  lemma BalanceStep(m: map<string, SiteRuntime>, was: map<string, Tally>, now: map<string, Tally>,
                    since: map<string, nat>, name: string)
    requires Balances(m, was, since) && OneAnswer(m, was, now, name)
    requires Shared(m, was) && Shared(m, now)
    ensures Balances(m, now, S.Bump(since, name))
  {
    hide S.Mass, OfRuntime;
    forall k | k in m
      ensures S.Mass(OfRuntime(m, S.Bump(since, name), m[k])) == now[k].proxied + now[k].limited
    {
      OneMoreSample(m, since, name, m[k]);
      assert m[k] == m[name] ==> was[k] == was[name] && now[k] == now[name];
    }
  }

  lemma {:induction false} NoMass(counts: map<string, nat>)
    requires forall k | k in counts :: counts[k] == 0
    ensures S.Mass(counts) == 0
    decreases |counts|
  {
    if counts == map[] {
    } else {
      var k :| k in counts && S.Mass(counts) == counts[k] + S.Mass(counts - {k});
      NoMass(counts - {k});
    }
  }

  /** Fresh runtimes and no sample since. */
  lemma BalanceStarts(m: map<string, SiteRuntime>, counters: map<string, Tally>, since: map<string, nat>)
    requires since.Keys == counters.Keys == m.Keys
    requires forall k | k in m :: counters[k].proxied == counters[k].limited == since[k] == 0
    ensures Balances(m, counters, since)
  {
    forall k | k in m
      ensures S.Mass(OfRuntime(m, since, m[k])) == 0
    {
      NoMass(OfRuntime(m, since, m[k]));
    }
  }

  // ---------------------------------------------------------------------------
  // The router
  // ---------------------------------------------------------------------------

  class Router {
    const parse: U.UrlParser
    const store: Store
    const registry: Registry
    var runtimes: map<string, SiteRuntime>
    var stopping: bool
    /** All runtime maps published so far, and how many samples each name of the current one
        had when it was published. */
    ghost var published: seq<map<string, SiteRuntime>>
    ghost var base: map<string, nat>

    ghost predicate Valid()
      reads this, store, registry, Footprint(registry.sites), RuntimeObjects(runtimes)
    {
      store.Valid() && registry.Valid() && RuntimesValid(runtimes)
    }

    /** The runtimes of every map ever published are sound, different maps share none, and the
        current map is the last. */
    ghost predicate PastValid()
      reads this, set m: map<string, SiteRuntime>, o | m in published && o in RuntimeObjects(m) :: o
    {
      && (published == [] ==> runtimes == map[])
      && (published != [] ==> published[|published| - 1] == runtimes)
      && (forall m: map<string, SiteRuntime> | m in published :: RuntimesValid(m))
      && (forall g, h | 0 <= g < h < |published| :: RuntimeObjects(published[g]) !! RuntimeObjects(published[h]))
    }

    ghost predicate Based()
      reads this, registry, Footprint(registry.sites)
    {
      base.Keys == runtimes.Keys && forall k | k in runtimes :: base[k] <= |registry.HistoryOf(k)|
    }

    /** The number of samples recorded for each name since its runtime was published. */
    ghost function Since(): map<string, nat>
      requires Based()
      reads this, registry, Footprint(registry.sites)
    {
      map k | k in runtimes :: |registry.HistoryOf(k)| - base[k]
    }

    /** Since the last reload, the samples recorded for the names of each runtime are exactly
        the requests it handed on or refused. */
    ghost predicate Balanced()
      reads this, registry, Footprint(registry.sites), RuntimeObjects(runtimes)
    {
      Based() && Balances(runtimes, AllCounters(), Since())
    }

    constructor (parse: U.UrlParser, store: Store, registry: Registry)
      requires store.Valid() && registry.Valid()
      ensures Valid() && Balanced() && PastValid() && runtimes == map[] && published == [] && !stopping
      ensures this.parse == parse && this.store == store && this.registry == registry
    {
      this.parse, this.store, this.registry := parse, store, registry;
      runtimes, stopping := map[], false;
      published, base := [], map[];
    }

    /** The runtimes are replaced as a whole by fresh ones, one per routable site, each name
        leading to the site that claimed it last. */
    method Reload(sites: seq<Site>)
      modifies this`runtimes
      ensures RuntimesValid(runtimes) && fresh(RuntimeObjects(runtimes))
      ensures Represents(parse, runtimes, sites)
    {
      hide Represents, RuntimesValid, SiteRuntime.Valid;
      var next: map<string, SiteRuntime> := map[];
      NothingRepresented(parse);
      for i := 0 to |sites|
        invariant Represents(parse, next, sites[..i])
        invariant RuntimesValid(next)
        invariant fresh(RuntimeObjects(next))
      {
        assert sites[..i] + [sites[i]] == sites[..i + 1];
        if !sites[i].enabled {
          NotRoutableStep(parse, next, sites[..i], sites[i]);
          continue;
        }
        next := AddSite(parse, next, sites[..i], sites[i]);
      }
      assert sites[..|sites|] == sites;
      runtimes := next;
    }

    /** Reloading leaves the metrics alone, */
    method Publish(sites: seq<Site>)
      requires Valid()
      modifies this`runtimes, this`published, this`base
      ensures Valid() && Represents(parse, runtimes, sites) && fresh(RuntimeObjects(runtimes))
      ensures Balanced() && published == old(published) + [runtimes]
      ensures old(PastValid()) ==> PastValid()
      ensures registry.sites == old(registry.sites)
      ensures forall d :: registry.HistoryOf(d) == old(registry.HistoryOf(d))
    {
      hide RuntimesValid, Registry.Valid, Store.Valid, Registry.HistoryOf, Represents, Balanced, PastValid;
      RuntimesApartFromRegistry(this, runtimes, registry);
      PastApart(this);
      Reload(sites);
      OpenBooks(sites);
      if old(PastValid()) {
        PastExtended(this);
      }
    }

    ghost method OpenBooks(sites: seq<Site>)
      requires Valid() && Represents(parse, runtimes, sites)
      modifies this`published, this`base
      ensures Valid() && Represents(parse, runtimes, sites)
      ensures Balanced() && published == old(published) + [runtimes]
      ensures forall d :: registry.HistoryOf(d) == old(registry.HistoryOf(d))
    {
      hide RuntimesValid, Registry.Valid, Store.Valid, Registry.HistoryOf, Represents, Balanced, Footprint;
      hide RuntimeObjects, Routes, Kept;
      RuntimesApartFromRegistry(this, runtimes, registry);
      ghost var lengths := map k | k in runtimes :: |registry.HistoryOf(k)|;
      published := published + [runtimes];
      base := lengths;
      StartsBalanced(this, sites);
    }

    /** and dropping metrics leaves the runtimes alone. */
    method DropMetrics(keep: set<string>)
      requires Valid()
      modifies registry
      ensures Valid() && AllCounters() == old(AllCounters())
      ensures registry.sites.Keys == old(registry.sites).Keys * keep
      ensures forall d :: registry.HistoryOf(d) == if d in keep then old(registry.HistoryOf(d)) else []
    {
      hide RuntimesValid, Registry.Valid, Store.Valid, Registry.HistoryOf, AllCounters;
      RuntimesApartFromRegistry(this, runtimes, registry);
      registry.Prune(keep);
      RuntimesKept(this);
    }

    method Prune(keep: set<string>)
      requires Valid()
      modifies registry
      ensures Valid() && AllCounters() == old(AllCounters())
      ensures registry.sites.Keys == old(registry.sites).Keys * keep
      ensures forall d :: registry.HistoryOf(d) == if d in keep then old(registry.HistoryOf(d)) else []
      ensures runtimes.Keys <= keep && old(Balanced()) ==> Balanced()
      ensures old(PastValid()) ==> PastValid()
    {
      hide RuntimesValid, Registry.Valid, Store.Valid, Registry.HistoryOf, AllCounters, Balanced, PastValid, Footprint;
      PastApart(this);
      DropMetrics(keep);
      if runtimes.Keys <= keep && old(Balanced()) {
        BalanceFramed(this);
      }
      if old(PastValid()) {
        PastKept(this);
      }
    }

    /** Finds the site and answers early where no runtime is needed. */
    function Route(req: Request): (d: Decision)
      requires store.Valid()
      reads this, store
      ensures d == Decide(store.sites, stopping, runtimes.Keys, req)
      ensures d.ToRuntime? ==> d.site.domain in runtimes
      ensures var site := store.Lookup(req.host);
              && (stopping <==> d == Early(Stopping))
              && (!stopping && site == None <==> d == Early(UnknownHost))
              && (d.ToRuntime? ==> site == Some(d.site))
              && (!stopping && site.Some? ==>
                    && (site.value.httpToHttps && !req.tls <==> d == Early(Redirected))
                    && (site.value.blockCommonExploits && req.exploit && (!site.value.httpToHttps || req.tls)
                        <==> d == Early(Forbidden)))
    {
      if stopping then Early(Stopping)
      else
        var site := store.Lookup(req.host);
        if site == None then Early(UnknownHost)
        else if site.value.httpToHttps && !req.tls then Early(Redirected)
        else if site.value.blockCommonExploits && req.exploit then Early(Forbidden)
        else if site.value.domain !in runtimes then Early(NoRuntime)
        else ToRuntime(site.value)
    }

    ghost function AllCounters(): map<string, Tally>
      reads this, RuntimeObjects(runtimes)
    {
      map k | k in runtimes :: runtimes[k].Counters()
    }

    /** The runtime's decision, leaving every other runtime and all metrics as they were. */
    method Pass(name: string, ip: string, now: int, ops: seq<WriterOp>) returns (out: Outcome)
      requires registry.Valid() && RuntimesValid(runtimes) && name in runtimes
      modifies runtimes[name], runtimes[name].pool, LimiterOf(runtimes[name])
      ensures registry.Valid() && RuntimesValid(runtimes)
      ensures Effect(runtimes, old(AllCounters()), AllCounters(), name, ip, now, out)
      ensures out.Proxied? ==> out.status == StatusOf(ops) && out.bytes == BytesOf(ops)
      ensures forall d :: registry.HistoryOf(d) == old(registry.HistoryOf(d))
    {
      hide SiteRuntime.Valid, Registry.Valid, Registry.HistoryOf, Answered;
      var rt := runtimes[name];
      RuntimeApartFromRegistry(rt, registry);
      out := rt.Handle(ip, now, ops);
      forall k | k in runtimes && runtimes[k] != rt
        ensures runtimes[k].Valid() && runtimes[k].Counters() == old(runtimes[k].Counters())
      {
        assert Apart(runtimes[k], rt) && Apart(rt, runtimes[k]);
      }
    }

    method RecordMetric(domain: string, sm: M.Sample, sec: int)
      requires Valid() && sec >= 0
      modifies registry, Footprint(registry.sites)
      ensures runtimes == old(runtimes)
      ensures Valid() && AllCounters() == old(AllCounters())
      ensures registry.HistoryOf(domain) == old(registry.HistoryOf(domain)) + [M.Entry(sec, sm)]
      ensures forall d | d != domain :: registry.HistoryOf(d) == old(registry.HistoryOf(d))
    {
      hide Registry.Valid, Registry.HistoryOf, RuntimesValid, Store.Valid, Footprint, AllCounters;
      RuntimesApartFromRegistry(this, runtimes, registry);
      registry.RecordMetric(domain, sm, sec);
    }

    /** A request that reached the runtime of its site's domain. A refused request takes no
        ticket, and either way exactly one sample is recorded, for the site's domain. */
    method Answer(domain: string, ip: string, now: int, ops: seq<WriterOp>, latency: int, sec: int)
      returns (out: Outcome)
      requires Valid() && sec >= 0 && domain in runtimes
      modifies registry, Footprint(registry.sites)
      modifies runtimes[domain], runtimes[domain].pool, LimiterOf(runtimes[domain])
      ensures Valid()
      ensures Effect(runtimes, old(AllCounters()), AllCounters(), domain, ip, now, out)
      ensures out.Proxied? ==> out.status == StatusOf(ops) && out.bytes == BytesOf(ops)
      ensures registry.HistoryOf(domain) == old(registry.HistoryOf(domain)) + [M.Entry(sec, SampleOf(out, latency))]
      ensures forall d | d != domain :: registry.HistoryOf(d) == old(registry.HistoryOf(d))
    {
      hide Registry.Valid, Registry.HistoryOf, RuntimesValid, Store.Valid, Footprint, Effect, AllCounters;
      out := Pass(domain, ip, now, ops);
      var sm := match out
        case Proxied(_, status, bytes) => M.Sample(status, bytes, latency)
        case _ => M.Sample(429, 0, latency);
      RecordMetric(domain, sm, sec);
    }

    /** Carries a decision out. */
    method Dispatch(d: Decision, ip: string, now: int, ops: seq<WriterOp>, latency: int, sec: int) returns (out: Outcome)
      requires Valid() && sec >= 0 && (d.ToRuntime? ==> d.site.domain in runtimes)
      modifies registry, Footprint(registry.sites), RuntimeObjects(runtimes)
      ensures runtimes == old(runtimes)
      ensures Valid()
      ensures d.Early? ==>
                && out == d.out && AllCounters() == old(AllCounters())
                && (forall k :: registry.HistoryOf(k) == old(registry.HistoryOf(k)))
      ensures d.ToRuntime? ==>
                && Effect(runtimes, old(AllCounters()), AllCounters(), d.site.domain, ip, now, out)
                && (out.Proxied? ==> out.status == StatusOf(ops) && out.bytes == BytesOf(ops))
                && registry.HistoryOf(d.site.domain)
                   == old(registry.HistoryOf(d.site.domain)) + [M.Entry(sec, SampleOf(out, latency))]
                && (forall k | k != d.site.domain :: registry.HistoryOf(k) == old(registry.HistoryOf(k)))
      ensures old(Balanced()) ==> Balanced()
    {
      hide RuntimesValid, Registry.Valid, Store.Valid, Footprint, Registry.HistoryOf, Effect, AllCounters, Balanced;
      RuntimesApartFromRegistry(this, runtimes, registry);
      match d {
        case Early(o) => out := o;
        case ToRuntime(site) =>
          out := Answer(site.domain, ip, now, ops, latency, sec);
      }
      if d.ToRuntime? && old(Balanced()) {
        EffectIsOneAnswer(runtimes, old(AllCounters()), AllCounters(), d.site.domain, ip, now, out);
        BalanceMoved(this);
      }
    }

    /** One request: an early answer touches nothing, otherwise the runtime of the site's
        domain answers. `now` is the limiter's clock and `sec` the recorder's; `ops` is what
        the upstream's answer does to the response writer. */
    method ServeHTTP(req: Request, now: int, ops: seq<WriterOp>, latency: int, sec: int) returns (out: Outcome)
      requires Valid() && sec >= 0
      modifies registry, Footprint(registry.sites), RuntimeObjects(runtimes)
      ensures runtimes == old(runtimes)
      ensures Valid()
      ensures Decide(store.sites, stopping, runtimes.Keys, req).Early? ==>
                && out == Decide(store.sites, stopping, runtimes.Keys, req).out
                && AllCounters() == old(AllCounters())
                && (forall d :: registry.HistoryOf(d) == old(registry.HistoryOf(d)))
      ensures Decide(store.sites, stopping, runtimes.Keys, req).ToRuntime? ==>
                var domain := Decide(store.sites, stopping, runtimes.Keys, req).site.domain;
                && Effect(runtimes, old(AllCounters()), AllCounters(), domain, req.ip, now, out)
                && (out.Proxied? ==> out.status == StatusOf(ops) && out.bytes == BytesOf(ops))
                && registry.HistoryOf(domain)
                   == old(registry.HistoryOf(domain)) + [M.Entry(sec, SampleOf(out, latency))]
                && (out.Limited? ==> SampleOf(out, latency) == M.Sample(429, 0, latency))
                && (out.Proxied? ==> SampleOf(out, latency) == M.Sample(StatusOf(ops), BytesOf(ops), latency))
                && (forall d | d != domain :: registry.HistoryOf(d) == old(registry.HistoryOf(d)))
      ensures old(Balanced()) ==> Balanced()
      ensures old(PastValid()) ==> PastValid()
    {
      hide RuntimesValid, Registry.Valid, Store.Valid, Footprint, Registry.HistoryOf, Effect, AllCounters, Decide;
      hide Balanced, PastValid;
      RuntimesApartFromRegistry(this, runtimes, registry);
      PastApart(this);
      var d := Route(req);
      out := Dispatch(d, req.ip, now, ops, latency, sec);
      if old(PastValid()) {
        PastKept(this);
      }
    }
  }

  /** No published runtime is part of the metrics. */
  lemma PastApart(router: Router)
    ensures forall m: map<string, SiteRuntime> | m in router.published ::
              && RuntimeObjects(m) !! Footprint(router.registry.sites)
              && router.registry !in RuntimeObjects(m) && router !in RuntimeObjects(m)
  {
    forall m: map<string, SiteRuntime> | m in router.published
      ensures && RuntimeObjects(m) !! Footprint(router.registry.sites)
              && router.registry !in RuntimeObjects(m) && router !in RuntimeObjects(m)
    {
      hide RuntimeObjects, Footprint;
      RuntimesApartFromRegistry(router, m, router.registry);
    }
  }

  /** Within one runtime's life the proxied requests are shared out evenly over its upstreams:
      requests number lo to hi go floor or ceiling of (hi - lo) / k times to each of k. */
  lemma ProxiedSharedEvenly(rt: SiteRuntime, u: nat, lo: nat, hi: nat)
    requires rt.Valid() && u < |rt.pool.upstreams|
    requires lo <= hi <= rt.proxied && hi <= U.WRAP
    ensures var k, n := |rt.pool.upstreams|, hi - lo;
            n / k <= U.Occurrences(rt.pool.picks[lo..hi], u) <= n / k + if n % k > 0 then 1 else 0
  {
    U.PicksAreChosen(rt.pool, u, lo, hi);
    U.FairWithoutWrap(|rt.pool.upstreams|, u, lo, hi - lo);
  }

  /** A validated site that asks for a rate limit has a limiter with the capacity it names,
      so its admissions from any call i to any admitted call j of one address are bounded. */
  lemma ValidatedLimitIsEnforced(parse: U.UrlParser, rt: SiteRuntime, ip: string, i: nat, j: nat)
    requires rt.Valid() && Validate(parse, rt.site) == None && rt.site.rateLimit.enabled
    ensures rt.limiter != null
    ensures var calls, r := CallsOf(rt.limiter.trace, ip), rt.site.rateLimit;
            i <= j < |calls| && calls[j].ok ==>
              Admitted(calls[i..j + 1]) * NANOS <= (r.rps + r.burst) * NANOS + r.rps * (calls[j].time - calls[i].time)
  {
    hide Decided, CallsOf, Admitted, U.Pool.Valid, Validate;
    ValidIff(parse, rt.site);
    var calls := CallsOf(rt.limiter.trace, ip);
    assert Decided(rt.limiter.rps, rt.limiter.burst, calls);
    if i <= j < |calls| && calls[j].ok {
      AdmissionsFitWindow(rt.limiter.rps, rt.limiter.burst, calls, i, j);
    }
  }

  /** The runtimes that one name led to in successive published maps. */
  ghost function RuntimesOf(maps: seq<map<string, SiteRuntime>>, name: string): seq<SiteRuntime>
    requires forall m | m in maps :: name in m
  {
    seq(|maps|, g requires 0 <= g < |maps| => maps[g][name])
  }

  /** One address's calls at the limiter of each runtime. */
  ghost function LogsOf(rts: seq<SiteRuntime>, ip: string): (logs: seq<seq<Call>>)
    reads set rt | rt in rts && rt.limiter != null :: rt.limiter
    ensures |logs| == |rts|
    ensures forall g | 0 <= g < |rts| && rts[g].limiter != null :: logs[g] == CallsOf(rts[g].limiter.trace, ip)
  {
    if rts == [] then []
    else
      var limiter := rts[|rts| - 1].limiter;
      LogsOf(rts[..|rts| - 1], ip) + [if limiter == null then [] else CallsOf(limiter.trace, ip)]
  }

  /** Reloads number from + 1 to until of a router brought fresh limiters for a name whose rate
      configuration they left alone. If the requests of one address came one after the other
      with ordered clock readings, no window of time [lo, hi] saw more of them admitted than
      one capacity for each of these limiters plus the sustained rate. */
  lemma ReloadsAddBursts(router: Router, from: nat, until: nat, name: string, r: RateLimitConfig,
                         ip: string, lo: int, hi: int)
    requires router.PastValid()
    requires from <= until <= |router.published| && lo <= hi && r.enabled && r.rps > 0
    requires forall m: map<string, SiteRuntime> | m in router.published[from..until] ::
               name in m && m[name].site.rateLimit == r
    requires Ordered(Joined(LogsOf(RuntimesOf(router.published[from..until], name), ip)))
    ensures var rts := RuntimesOf(router.published[from..until], name);
            AdmittedBetween(Joined(LogsOf(rts, ip)), lo, hi) * NANOS
            <= (until - from) * CapacityOf(r) * NANOS + r.rps * (hi - lo)
  {
    hide Decided, CallsOf, Joined, AdmittedBetween, U.Pool.Valid, RuntimeObjects;
    var maps := router.published[from..until];
    var rts := RuntimesOf(maps, name);
    var logs := LogsOf(rts, ip);
    forall calls | calls in logs
      ensures Decided(r.rps, CapacityOf(r), calls)
    {
      var g :| 0 <= g < |logs| && logs[g] == calls;
      assert maps[g] in router.published && rts[g] == maps[g][name] && maps[g] in maps;
      assert rts[g].Valid();
    }
    LimitersAddBursts(r.rps, CapacityOf(r), logs, lo, hi);
  }

  /** A fresh pool and limiter for the site, or nothing if an upstream does not parse. */
  method NewRuntime(parse: U.UrlParser, s: Site) returns (rt: SiteRuntime?)
    ensures rt == null <==> !U.PoolBuilds(parse, s.upstreams)
    ensures rt != null ==>
              && fresh(rt) && fresh(rt.pool) && (rt.limiter != null ==> fresh(rt.limiter))
              && rt.Valid() && rt.site == s && Built(parse, rt)
              && (rt.limiter != null <==> s.rateLimit.enabled && s.rateLimit.rps > 0)
              && (rt.limiter != null ==>
                    && rt.limiter.rps == s.rateLimit.rps && rt.limiter.trace == []
                    && rt.limiter.burst == s.rateLimit.rps + if s.rateLimit.burst > 0 then s.rateLimit.burst else 0)
  {
    var pool := U.NewPool(parse, s.upstreams);
    if pool == null {
      return null;
    }
    var limiter: Limiter? := null;
    if s.rateLimit.enabled {
      limiter := NewLimiter(s.rateLimit.rps, s.rateLimit.burst);
    }
    rt := new SiteRuntime(s, pool, limiter);
  }

  /** Adds an enabled site; one without pool is left out. */
  method AddSite(parse: U.UrlParser, m: map<string, SiteRuntime>, ghost done: seq<Site>, s: Site)
    returns (next: map<string, SiteRuntime>)
    requires s.enabled && Represents(parse, m, done) && RuntimesValid(m)
    ensures Represents(parse, next, done + [s]) && RuntimesValid(next)
    ensures fresh(RuntimeObjects(next) - RuntimeObjects(m))
  {
    hide Represents, SiteRuntime.Valid;
    var rt := NewRuntime(parse, s);
    assert RuntimesValid(m);
    hide RuntimesValid;
    if rt == null {
      NotRoutableStep(parse, m, done, s);
      return m;
    }
    next := ClaimNames(m, s, rt);
    RoutableStep(parse, m, done, s, rt);
    ValidStep(m, Names(s), rt);
  }

  /** The domain and every alias lead to the one runtime. */
  method ClaimNames(m: map<string, SiteRuntime>, s: Site, rt: SiteRuntime) returns (next: map<string, SiteRuntime>)
    ensures next == Claim(m, Names(s), rt)
  {
    hide Claim, NamesOf;
    next := m[s.domain := rt];
    ClaimOne(m, s.domain, rt);
    assert [s.domain] + s.aliases[..0] == [s.domain];
    for j := 0 to |s.aliases|
      invariant next == Claim(m, NamesOf([s.domain] + s.aliases[..j]), rt)
    {
      ClaimNext(m, [s.domain] + s.aliases[..j], s.aliases[j], rt);
      next := next[s.aliases[j] := rt];
      assert [s.domain] + s.aliases[..j] + [s.aliases[j]] == [s.domain] + s.aliases[..j + 1];
    }
    assert s.aliases[..|s.aliases|] == s.aliases;
  }

  lemma ClaimOne(m: map<string, SiteRuntime>, d: string, rt: SiteRuntime)
    ensures Claim(m, NamesOf([d]), rt) == m[d := rt]
  {
  }

  lemma ClaimNext(m: map<string, SiteRuntime>, names: seq<string>, d: string, rt: SiteRuntime)
    ensures Claim(m, NamesOf(names + [d]), rt) == Claim(m, NamesOf(names), rt)[d := rt]
  {
    assert NamesOf(names + [d]) == NamesOf(names) + {d};
    hide NamesOf;
  }

  /** m is the runtime map of the site list, with nothing served yet. */
  ghost predicate Represents(parse: U.UrlParser, m: map<string, SiteRuntime>, sites: seq<Site>)
    reads set k | k in m :: m[k]
  {
    && m.Keys == Routes(parse, sites).Keys
    && (forall k | k in m :: m[k].site == Routes(parse, sites)[k] && Built(parse, m[k]))
    && Shares(parse, m, sites)
  }

  /** So a name has a runtime exactly if an enabled site whose upstreams all parse writes it, the
      runtime is that of the last such site, and its targets are what the upstreams parse to. */
  lemma RepresentsMeans(parse: U.UrlParser, m: map<string, SiteRuntime>, sites: seq<Site>, k: string)
    requires Represents(parse, m, sites)
    ensures k in m <==> exists i :: 0 <= i < |sites| && Routable(parse, sites[i]) && k in Names(sites[i])
    ensures k in m ==>
              && (exists i :: 0 <= i < |sites| && m[k].site == sites[i] && Routable(parse, sites[i]) && k in Names(sites[i])
                    && forall j | i < j < |sites| :: !(Routable(parse, sites[j]) && k in Names(sites[j])))
              && |m[k].pool.upstreams| == |m[k].site.upstreams|
              && (forall i | 0 <= i < |m[k].site.upstreams| ::
                    Some(m[k].pool.upstreams[i]) == U.ParseUpstream(parse, m[k].site.upstreams[i]))
              && m[k].proxied == 0 && m[k].limited == 0
  {
    hide Routable, Names, Routes, Shares, LastRoute;
    RoutesAreLastRoute(parse, sites, k);
    var i := LastRoute(parse, sites, k);
    if k in m {
      assert m[k].site == sites[i];
    }
  }

  /** Names share a runtime exactly when one site claimed both last. */
  ghost predicate Shares(parse: U.UrlParser, m: map<string, SiteRuntime>, sites: seq<Site>) {
    forall k, l | k in m && l in m ::
      m[k] == m[l] <==> LastRoute(parse, sites, k) == LastRoute(parse, sites, l)
  }

  /** The current map is sound, and its counters the same, as long as its objects are left alone. */
  twostate lemma RuntimesKept(router: Router)
    requires router.runtimes == old(router.runtimes) && old(RuntimesValid(router.runtimes))
    requires forall o | o in RuntimeObjects(router.runtimes) :: unchanged(o)
    ensures RuntimesValid(router.runtimes) && router.AllCounters() == old(router.AllCounters())
  {
    hide RuntimesValid;
    var m := router.runtimes;
    forall k | k in m
      ensures m[k].Counters() == old(m[k].Counters())
    {
      assert m[k] in RuntimeObjects(m) && m[k].pool in RuntimeObjects(m) && LimiterOf(m[k]) <= RuntimeObjects(m);
    }
  }

  /** Earlier maps are sound as long as their objects are left alone. */
  twostate lemma PastKept(router: Router)
    requires old(router.PastValid()) && RuntimesValid(router.runtimes)
    requires router.runtimes == old(router.runtimes) && router.published == old(router.published)
    requires forall m: map<string, SiteRuntime>, o | m in router.published && o in RuntimeObjects(m)
               && o !in RuntimeObjects(router.runtimes) :: unchanged(o)
    ensures router.PastValid()
  {
    hide RuntimesValid, RuntimeObjects;
    forall m: map<string, SiteRuntime> | m in router.published
      ensures RuntimesValid(m)
    {
      var g :| 0 <= g < |router.published| && router.published[g] == m;
      if g < |router.published| - 1 {
        assert RuntimeObjects(m) !! RuntimeObjects(router.runtimes);
      }
    }
  }

  /** A map of fresh runtimes can be added. */
  twostate lemma PastExtended(router: Router)
    requires old(router.PastValid()) && RuntimesValid(router.runtimes) && fresh(RuntimeObjects(router.runtimes))
    requires router.published == old(router.published) + [router.runtimes]
    requires forall m: map<string, SiteRuntime>, o | m in old(router.published) && o in RuntimeObjects(m) :: unchanged(o)
    ensures router.PastValid()
  {
    hide RuntimesValid;
    forall m: map<string, SiteRuntime> | m in router.published
      ensures RuntimesValid(m)
    {
      if m in old(router.published) {
        assert old(RuntimesValid(m));
      }
    }
  }

  /** Only the counters and the numbers of samples matter. */
  twostate lemma BalanceFramed(router: Router)
    requires old(router.Balanced()) && router.runtimes == old(router.runtimes) && router.base == old(router.base)
    requires router.AllCounters() == old(router.AllCounters())
    requires forall k | k in router.runtimes :: router.registry.HistoryOf(k) == old(router.registry.HistoryOf(k))
    ensures router.Balanced()
  {
    hide Balances, Registry.HistoryOf, Router.AllCounters;
    assert router.Since() == old(router.Since());
  }

  lemma Bumped(was: map<string, nat>, now: map<string, nat>, name: string)
    requires name in was && now.Keys == was.Keys
    requires forall k | k in was :: now[k] == was[k] + if k == name then 1 else 0
    ensures now == S.Bump(was, name)
  {
  }

  /** An answered request and its one sample keep the balance. */
  twostate lemma BalanceMoved(router: Router)
    requires old(router.Balanced()) && router.runtimes == old(router.runtimes) && router.base == old(router.base)
    requires exists name ::
               && OneAnswer(router.runtimes, old(router.AllCounters()), router.AllCounters(), name)
               && |router.registry.HistoryOf(name)| == old(|router.registry.HistoryOf(name)|) + 1
               && forall d | d != name :: router.registry.HistoryOf(d) == old(router.registry.HistoryOf(d))
    ensures router.Balanced()
  {
    hide Balances, Registry.HistoryOf;
    var m := router.runtimes;
    var name :| && OneAnswer(m, old(router.AllCounters()), router.AllCounters(), name)
                && |router.registry.HistoryOf(name)| == old(|router.registry.HistoryOf(name)|) + 1
                && forall d | d != name :: router.registry.HistoryOf(d) == old(router.registry.HistoryOf(d));
    assert Shared(m, old(router.AllCounters())) && Shared(m, router.AllCounters());
    hide Router.AllCounters;
    assert router.Based();
    var was := old(router.Since());
    Bumped(was, router.Since(), name);
    BalanceStep(m, old(router.AllCounters()), router.AllCounters(), was, name);
  }

  lemma StartsBalanced(router: Router, sites: seq<Site>)
    requires Represents(router.parse, router.runtimes, sites)
    requires router.base.Keys == router.runtimes.Keys
    requires forall k | k in router.runtimes :: router.base[k] == |router.registry.HistoryOf(k)|
    ensures router.Balanced()
  {
    hide Balances, Shares, Registry.HistoryOf, Routes;
    BalanceStarts(router.runtimes, router.AllCounters(), router.Since());
  }

  lemma NothingRepresented(parse: U.UrlParser)
    ensures Represents(parse, map[], []) && RuntimesValid(map[]) && RuntimeObjects(map[]) == {}
  {
  }

  lemma NotRoutableStep(parse: U.UrlParser, m: map<string, SiteRuntime>, done: seq<Site>, s: Site)
    requires Represents(parse, m, done) && !Routable(parse, s)
    ensures Represents(parse, m, done + [s])
  {
    RoutesStep(parse, done, s);
  }

  ghost predicate Apart(a: SiteRuntime, b: SiteRuntime) {
    a != b && a.pool != b.pool && (a.limiter != null ==> a.limiter != b.limiter)
  }

  lemma RoutableStep(parse: U.UrlParser, m: map<string, SiteRuntime>, done: seq<Site>, s: Site, rt: SiteRuntime)
    requires Represents(parse, m, done) && Routable(parse, s)
    requires rt.site == s && Built(parse, rt)
    requires forall k | k in m :: Apart(m[k], rt)
    ensures Represents(parse, Claim(m, Names(s), rt), done + [s])
  {
    hide Routable, Names, Routes, LastRoute, Shares;
    RoutesStep(parse, done, s);
    SharesStep(parse, m, done, s, rt);
  }

  lemma SharesStep(parse: U.UrlParser, m: map<string, SiteRuntime>, done: seq<Site>, s: Site, rt: SiteRuntime)
    requires Shares(parse, m, done) && Routable(parse, s)
    requires forall k | k in m :: m[k] != rt
    ensures Shares(parse, Claim(m, Names(s), rt), done + [s])
  {
    hide Routable, Names, Routes, LastRoute, Shares;
    var next := Claim(m, Names(s), rt);
    RoutesStep(parse, done, s);
    LastRouteBounded(parse, done);
    forall k, l | k in next && l in next
      ensures next[k] == next[l] <==> LastRoute(parse, done + [s], k) == LastRoute(parse, done + [s], l)
    {
      if k in m && l in m {
        SharesMeans(parse, m, done, k, l);
      }
    }
    SharesIf(parse, next, done + [s]);
  }

  lemma SharesMeans(parse: U.UrlParser, m: map<string, SiteRuntime>, sites: seq<Site>, k: string, l: string)
    requires Shares(parse, m, sites) && k in m && l in m
    ensures m[k] == m[l] <==> LastRoute(parse, sites, k) == LastRoute(parse, sites, l)
  {
  }

  lemma SharesIf(parse: U.UrlParser, m: map<string, SiteRuntime>, sites: seq<Site>)
    requires forall k, l | k in m && l in m ::
               m[k] == m[l] <==> LastRoute(parse, sites, k) == LastRoute(parse, sites, l)
    ensures Shares(parse, m, sites)
  {
  }

  lemma LastRouteBounded(parse: U.UrlParser, sites: seq<Site>)
    ensures forall k :: LastRoute(parse, sites, k) < |sites|
  {
    forall k ensures LastRoute(parse, sites, k) < |sites| {
      hide LastRoute;
    }
  }

  lemma ValidStep(m: map<string, SiteRuntime>, names: set<string>, rt: SiteRuntime)
    requires RuntimesValid(m) && rt.Valid()
    requires forall k | k in m :: Apart(m[k], rt)
    ensures RuntimesValid(Claim(m, names, rt))
    ensures forall o | o in RuntimeObjects(Claim(m, names, rt)) ::
              o in RuntimeObjects(m) || o == rt || o == rt.pool || o == rt.limiter
  {
    hide SiteRuntime.Valid;
  }

  // ---------------------------------------------------------------------------
  // The reload callback
  // ---------------------------------------------------------------------------

  lemma RoutedAreKept(parse: U.UrlParser, m: map<string, SiteRuntime>, sites: seq<Site>)
    requires Represents(parse, m, sites)
    ensures m.Keys <= Kept(sites)
  {
    KeptRoutes(parse, sites);
  }

  /** After the store has been replaced: new runtimes first, then the metrics of names that
      no enabled site claims are dropped and all others are left as they are. */
  method OnReload(router: Router, sites: seq<Site>)
    requires router.Valid()
    modifies router`runtimes, router`published, router`base, router.registry
    ensures router.Valid() && router.Balanced()
    ensures Represents(router.parse, router.runtimes, sites) && fresh(RuntimeObjects(router.runtimes))
    ensures router.published == old(router.published) + [router.runtimes]
    ensures old(router.PastValid()) ==> router.PastValid()
    ensures router.registry.sites.Keys == old(router.registry.sites).Keys * Kept(sites)
    ensures forall d :: router.registry.HistoryOf(d) == if d in Kept(sites) then old(router.registry.HistoryOf(d)) else []
  {
    hide RuntimesValid, Registry.Valid, Store.Valid, Registry.HistoryOf, Represents, Router.Balanced, Router.PastValid;
    hide Router.Valid;
    var keep := KeepNames(router, sites);
    router.Publish(sites);
    RoutedAreKept(router.parse, router.runtimes, sites);
    router.Prune(keep);
  }

  /** Gathering the names touches nothing. */
  method KeepNames(router: Router, sites: seq<Site>) returns (keep: set<string>)
    requires router.Valid()
    ensures router.Valid() && (old(router.PastValid()) ==> router.PastValid())
    ensures keep == Kept(sites) && forall d :: router.registry.HistoryOf(d) == old(router.registry.HistoryOf(d))
  {
    hide RuntimesValid, Registry.Valid, Store.Valid, Registry.HistoryOf, Router.PastValid;
    keep := NamesToKeep(sites);
    RuntimesApartFromRegistry(router, router.runtimes, router.registry);
    if old(router.PastValid()) {
      PastKept(router);
    }
  }

  method NamesToKeep(sites: seq<Site>) returns (keep: set<string>)
    ensures keep == Kept(sites)
  {
    hide Names, NamesOf;
    keep := {};
    for i := 0 to |sites|
      invariant keep == Kept(sites[..i])
    {
      assert sites[..i + 1][..i] == sites[..i];
      if sites[i].enabled {
        keep := AddNames(keep, sites[i]);
      }
    }
    assert sites[..|sites|] == sites;
  }

  method AddNames(keep: set<string>, s: Site) returns (r: set<string>)
    ensures r == keep + Names(s)
  {
    r := keep;
    var all := s.AllDomains();
    for j := 0 to |all|
      invariant r == keep + NamesOf(all[..j])
    {
      assert all[..j + 1] == all[..j] + [all[j]];
      r := r + {all[j]};
    }
    assert all[..|all|] == all;
    DomainIsName(s);
    r := r + {s.domain};
  }
}
