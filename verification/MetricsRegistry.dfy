/** The per-domain metrics registry, internal/metrics/metrics.go. */
module MetricsRegistry {
  import opened Metrics
  import opened MetricsSite
  import Text

  ghost function Footprint(m: map<string, SiteMetrics>): set<object> {
    (set d | d in m :: m[d] as object)
    + (set d | d in m :: m[d].buckets as object)
    + (set d | d in m :: m[d].latency as object)
  }

  ghost predicate Separate(m: map<string, SiteMetrics>) {
    forall d, e | d in m && e in m && d != e ::
      m[d] != m[e] && m[d].buckets != m[e].buckets && m[d].latency != m[e].latency
  }

  class Registry {
    var sites: map<string, SiteMetrics>

    ghost predicate Valid()
      reads this, Footprint(sites)
    {
      && Separate(sites)
      && forall d | d in sites :: sites[d].Valid()
    }

    /** The samples held for a domain. */
    ghost function HistoryOf(domain: string): seq<Entry>
      reads this, Footprint(sites)
    {
      if domain in sites then sites[domain].history else []
    }

    constructor ()
      ensures Valid() && sites == map[]
    {
      sites := map[];
    }

    /** The object of the domain; it is created only if there is none, and then it is empty. */
    method SiteFor(domain: string) returns (s: SiteMetrics)
      requires Valid()
      modifies this
      ensures Valid()
      ensures domain in sites && sites[domain] == s
      ensures domain in old(sites) ==> sites == old(sites)
      ensures domain !in old(sites) ==>
                && sites == old(sites)[domain := s]
                && fresh(s) && fresh(s.buckets) && fresh(s.latency) && s.history == []
      ensures fresh(Footprint(sites) - old(Footprint(sites)))
      ensures sites[domain] in Footprint(sites) && sites[domain].buckets in Footprint(sites)
              && sites[domain].latency in Footprint(sites)
      ensures forall d :: HistoryOf(d) == old(HistoryOf(d))
    {
      hide SiteMetrics.Valid;
      if domain in sites {
        return sites[domain];
      }
      s := new SiteMetrics();
      sites := sites[domain := s];
    }

    method RecordAt(domain: string, sm: Sample, nowSec: int)
      requires Valid() && nowSec >= 0 && domain in sites
      modifies sites[domain], sites[domain].buckets, sites[domain].latency
      ensures Valid()
      ensures HistoryOf(domain) == old(HistoryOf(domain)) + [Entry(nowSec, sm)]
      ensures forall d | d != domain :: HistoryOf(d) == old(HistoryOf(d))
    {
      hide SiteMetrics.Valid;
      sites[domain].Record(sm, nowSec);
      assert forall d | d in sites && d != domain :: sites[d].Valid();
    }

    /** One completed request is one sample of its own domain and of no other. */
    method RecordMetric(domain: string, sm: Sample, nowSec: int)
      requires Valid() && nowSec >= 0
      modifies this, Footprint(sites)
      ensures Valid() && fresh(Footprint(sites) - old(Footprint(sites)))
      ensures sites.Keys == old(sites).Keys + {domain}
      ensures forall d | d in old(sites) :: sites[d] == old(sites)[d]
      ensures HistoryOf(domain) == old(HistoryOf(domain)) + [Entry(nowSec, sm)]
      ensures forall d | d != domain :: HistoryOf(d) == old(HistoryOf(d))
    {
      hide SiteMetrics.Valid, Separate, Footprint, Valid, HistoryOf;
      var s := SiteFor(domain);
      RecordAt(domain, sm, nowSec);
    }

    /** Drops every domain that is not kept and leaves the others' samples alone. */
    method Prune(keep: set<string>)
      requires Valid()
      modifies this
      ensures Valid()
      ensures sites == map d | d in old(sites) && d in keep :: old(sites)[d]
      ensures sites.Keys == old(sites).Keys * keep
      ensures forall d :: HistoryOf(d) == if d in keep then old(HistoryOf(d)) else []
    {
      hide SiteMetrics.Valid;
      var todo := sites.Keys;
      ghost var was := sites;
      while todo != {}
        invariant todo <= was.Keys
        invariant sites == map d | d in was && (d in keep || d in todo) :: was[d]
        decreases todo
      {
        Text.SomeMember(todo);
        var d :| d in todo;
        todo := todo - {d};
        if d !in keep {
          sites := sites - {d};
        }
      }
    }
  }
}
