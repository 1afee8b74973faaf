# jobcloud: verified data plane and hot reload

jobcloud is a single-binary reverse proxy with an admin UI. This project models its in-memory
data plane and the protocol that feeds it from the sites directory, and proves properties of
both:

- the per-key token bucket (`RateLimit.dfy`) and the round-robin pool (`Upstream.dfy`);
- the metrics of one domain (`Metrics.dfy`, `Percentiles.dfy`, `MetricsSite.dfy`, with `Sums.dfy`
  for finite sums), the registry (`MetricsRegistry.dfy`), and `Record`/`Snapshot` as interleaved
  atomic steps (`RecordInterleaving.dfy`);
- site files, loader, store (`Config.dfy`) and atomic saving (`SiteFiles.dfy`);
- the store's index against the router's runtime map (`Routing.dfy`) and the request pipeline on
  the heap (`Router.dfy`);
- hot reload as step machines: disk changes, events, timer, loading and publication
  (`HotReload.dfy`), the event loop with its clock readings (`Debounce.dfy`), and that loop driving
  the reload machine (`TimedReload.dfy`);
- requests running while reloads publish and prune (`Publication.dfy`), what happens to their
  samples (`Conservation.dfy`), and these two together with the reload machine
  (`WholeProgram.dfy`);
- session cookies (`Auth.dfy`, `Decimal.dfy`) and the site form (`Form.dfy`).

Limiter, Pool, SiteMetrics (`metrics.Site`), Registry, Store, SiteRuntime, Router and Directory
are classes. A ghost history (`trace`, `picks`, `history`, `trail`) records what happened to them
and `Valid()` ties the fields to it; the router also remembers the runtime maps it has published,
its invariant `Balanced()` ties the samples since the last reload to the counters of its runtimes,
and `PastValid()` keeps the earlier ones sound. In the step machines an action that is impossible in a state leaves it unchanged, so a
theorem over all action sequences is a theorem over all runs. Clocks, replies of upstreams,
decoded file contents and failures of the file system are parameters; `net/url`'s parser, the
signature and the cookie encoding are function parameters.

`Text.dfy` says of each library operation on strings that is used what it computes.

Times in `RateLimit.dfy` and `Debounce.dfy` are integer nanoseconds, in `Metrics.dfy` whole
seconds. Tokens are scaled by 10^9.

## What turned out to hold only under a condition

- The sliding window is exact at every moment exactly if no sample whose second has left the
  window lands on a slot that is still in use (`Metrics.WindowsExactIff`); a clock reading that
  lags by less than a minute is always harmless, and `Metrics.LateSampleBreaksWindow` shows a
  minute's lag break it.
- Round robin stays within one choice across a wrap of the ticket counter exactly for pool sizes
  that divide 2^64 (`Upstream.AlwaysFairIffDividing`, and `Upstream.ThreeAreUnfair` for three).
- Store and router agree for every host exactly if no site that lost its domain to a later one
  keeps an alias (`Routing.AgreementIff`; `Routing.ValidSiteShadowed` is a list where they
  differ). Requests for a site whose pool cannot be built are served, by another site, exactly if
  a site whose pool builds writes its domain
  (`Routing.UnbuildablePoolFallsThrough`); `Routing.ServedByItselfIff` combines the two conditions,
  and `Routing.ValidSiteTakenOver` shows it happen to a valid site.
- A session cookie works exactly for names without a dot (`Auth.AdminSessionIff`).
- The saved name of a new site contains "..", which the UI later refuses, exactly if the domain
  ends in an odd number of dots (`SiteFiles.NewFileName`).
- A snapshot between whose loads of the two totals b Record calls began is sure to show no more
  errors than requests exactly for b = 0; otherwise the excess can be all of b
  (`RecordInterleaving.TornSnapshotIff`).
- Every run that comes to rest has published the current disk exactly if the watcher's and the
  UI's reloads exclude each other (`HotReload.ConvergesIffExclusive`), and only then is a request
  never served by a runtime more than one generation older than its site
  (`Publication.OneBehindIffExclusive`).
- The object registered for a domain holds all its recorded samples exactly if no prune dropped
  the domain after a recording for it or while a request held its object
  (`Conservation.SamplesSurviveIff`); `Conservation.DroppedDomainLosesSample` is a run that loses one.

Where code and documentation differ the model follows the code: the branch that starts the
debounce timer anew is never taken (`Debounce.TimerNeverEarly`); a reload begins no sooner than
200 ms after the last event, where the repository's README says within 200 ms; the recorded status
is the first header sent, informational ones included (`Router.CountReply`).

## Model

| member | source | states |
|---|---|---|
| RateLimit.RefilledIsLeastSlack | internal/proxy/ratelimit.go:62-73 | the tokens after refill are the minimum, over all earlier calls of the key, of what is left of the budget of the window starting there, whatever order the clock readings come in |
| RateLimit.BucketDecidesAsLog | internal/proxy/ratelimit.go:62-73 | comparing the two-number bucket with one token gives the same answer as checking every window of the full log |
| RateLimit.WithinBudgetIff | internal/proxy/ratelimit.go:62-73 | the full-log rule spelled out, window by window |
| RateLimit.NewLimiter | internal/proxy/ratelimit.go:34-46 | no limiter exactly for a non-positive rate; capacity is rate plus non-negative burst; the log starts empty |
| RateLimit.Limiter.Allow | internal/proxy/ratelimit.go:49-74 | a call is admitted exactly if, counting it, no window from an earlier call of this key to now has more admissions than the capacity plus rate times its length; the log grows by this call only, so other keys have no influence |
| RateLimit.Allow | internal/proxy/ratelimit.go:49-74 | as above; a nil limiter admits everything |
| RateLimit.AdmissionsFitWindow | internal/proxy/ratelimit.go:53-73 | admissions from any call to any later admitted call are at most capacity plus rate times the time between them, even with clock readings out of order |
| RateLimit.OrderedAdmissionsFitWindow | internal/proxy/ratelimit.go:53-73 | with ordered readings the bound holds for every window of consecutive calls, admitted at the end or not |
| RateLimit.PotentialNeverRises | internal/proxy/ratelimit.go:62-73 | tokens minus rate times last call never increases and pays one token per admission |
| RateLimit.DebtIsLag | internal/proxy/ratelimit.go:53-73 | tokens never exceed capacity and go below zero only by the rate times the lag of the last reading behind the latest one |
| RateLimit.TokensBounded | internal/proxy/ratelimit.go:53-73 | with lag at most D tokens stay between minus rate times D and capacity |
| RateLimit.OneLimiterFits | internal/proxy/ratelimit.go:53-73 | with ordered readings a decided log admits at most capacity plus rate times length in any window of time |
| RateLimit.BetweenAdds | internal/proxy/ratelimit.go:70-73 | admissions in a window of time are counted call by call |
| RateLimit.LimitersAddBursts | internal/proxy/ratelimit.go:41-46 | over n successive limiters used one after the other, at most n capacities plus rate times length |
| Upstream.NewPool | internal/proxy/upstream.go:21-31 | a pool is built exactly if every upstream parses, with the parsed targets in order and no ticket issued |
| Upstream.Pool.Next | internal/proxy/upstream.go:41-47 | ticket n goes to target (n mod 2^64) mod size; an empty pool issues no ticket |
| Upstream.PicksAreChosen | internal/proxy/upstream.go:41-47 | the picks recorded by a pool are those the fairness theorems count |
| Upstream.OccurrencesAdd | internal/proxy/upstream.go:45-46 | occurrences of an upstream are counted pick by pick |
| Upstream.FairWithoutWrap | internal/proxy/upstream.go:45-46 | L consecutive tickets below 2^64 give each of k targets floor or ceiling of L/k |
| Upstream.NearlyFairAcrossWraps | internal/proxy/upstream.go:45-46 | across w wraps of the counter two targets differ by at most w+1 choices |
| Upstream.ChosenAroundWrap | internal/proxy/upstream.go:45-46 | around the wrap the first r targets are chosen twice and the others not at all, r being 2^64 mod k |
| Upstream.AlwaysFairIffDividing | internal/proxy/upstream.go:45-46 | every window is fair within one exactly if k divides 2^64 |
| Upstream.ThreeAreUnfair | internal/proxy/upstream.go:45-46 | of three upstreams the first gets both tickets around the wrap |
| Metrics.SlotsInPlace | internal/metrics/metrics.go:83-87 | a used slot holds a second of its own residue class, not after the latest one, at which some sample was recorded |
| Metrics.SeriesSumsToWindow | internal/metrics/metrics.go:138-157 | for any ring of in-place slots the loop over slots and the loop over absolute seconds count the same requests |
| Metrics.TracksStep | internal/metrics/metrics.go:80-95 | a record that spares the live seconds keeps every slot a faithful record of its second in the window |
| Metrics.WindowExact | internal/metrics/metrics.go:137-147 | requests, bytes and errors of the last minute equal those of exactly the samples with a second in the last sixty |
| Metrics.SeriesExact | internal/metrics/metrics.go:149-157 | each entry of the series is the number of samples of that second |
| Metrics.OverwriteIsVisible | internal/metrics/metrics.go:83-87 | a record that overwrites a live second makes the next snapshot wrong |
| Metrics.WindowsExactIff | internal/metrics/metrics.go:74-147 | the window is exact after every prefix and at every later time if and only if no record overwrites a live second |
| Metrics.LateSampleBreaksWindow | internal/metrics/metrics.go:83-87 | a history of two samples, the second sixty seconds late, whose window is not exact |
| Metrics.ShortLagKeepsWindow | internal/metrics/metrics.go:74-95 | readings that lag the maximum by less than sixty seconds never do |
| Metrics.ErrorsWithinRequests | internal/metrics/metrics.go:137-147 | without any assumption on clocks, errors of the last minute are at most its requests |
| Metrics.WindowWithinTotal | internal/metrics/metrics.go:137-147 | and those are at most the samples recorded |
| Metrics.WeightIs | internal/metrics/metrics.go:65-95 | a sample weighs one request, its positive bytes, and one error for status 0 or from 500 on |
| Metrics.WeightsAdd | internal/metrics/metrics.go:65-95 | totals, the weight of a second and that of a window add up sample by sample |
| Metrics.MaxSecIs | internal/metrics/metrics.go:74 | the latest second of a history is one of its seconds and none is later |
| Metrics.ContributionIs | internal/metrics/metrics.go:137-147 | a slot counts in full if it was used and is at most 59 seconds old, ahead of the clock included, and else not at all |
| Percentiles.Sorted | internal/metrics/metrics.go:161-163 | the library's sort: an ordered permutation |
| Percentiles.PctIsPercentile | internal/metrics/metrics.go:175-184 | the estimate is an entry with at most floor(N·p/100) entries below it and more than that at or below it |
| Percentiles.PctAtTheEdges | internal/metrics/metrics.go:175-184 | zero for no entries, the greatest entry from 100 on |
| Percentiles.PercentileUnique | internal/metrics/metrics.go:175-184 | that condition determines the value |
| Percentiles.PercentilesOrdered | internal/metrics/metrics.go:164-166 | a higher percentile is never smaller |
| MetricsSite.RingHoldsLastLatencies | internal/metrics/metrics.go:97-102 | the used part of the latency ring is, as a multiset, the last min(n,1024) latencies |
| MetricsSite.MillisIs | internal/metrics/metrics.go:75-79 | a latency is stored in whole milliseconds rounded down, anything positive below one as one, and longer ones modulo 2^32 |
| MetricsSite.PercentileIsRecent | internal/metrics/metrics.go:97-102 | a percentile is the stored form of one of the last 1024 latencies |
| MetricsSite.SeriesTotal | internal/metrics/metrics.go:137-157 | the series adds up to the requests of the last minute for every history not ahead of the clock, in order or not |
| MetricsSite.HistogramMass | internal/metrics/metrics.go:104-105 | the status counts add up to the number of samples |
| MetricsSite.StatusCountAdds | internal/metrics/metrics.go:104-105 | a status is counted sample by sample |
| MetricsSite.SiteMetrics.AddTotals | internal/metrics/metrics.go:65-72 | lifetime totals grow by one request, the positive bytes and the error of the sample |
| MetricsSite.SiteMetrics.AddToBucket | internal/metrics/metrics.go:83-95 | only the slot of the sample's second changes, reset first if it held another second |
| MetricsSite.SiteMetrics.AddLatency | internal/metrics/metrics.go:98-102 | the oldest latency is replaced and the fill count saturates at 1024 |
| MetricsSite.SiteMetrics.Record | internal/metrics/metrics.go:64-107 | the history grows by this sample; totals, buckets, latency ring and histogram are those of the new history |
| MetricsSite.SiteMetrics.Snapshot | internal/metrics/metrics.go:127-173 | totals, last-minute aggregates, series, percentiles and status counts are those of the recorded history; each percentile is, in milliseconds, one of the last 1024 latencies |
| MetricsSite.SiteMetrics.LastMinute | internal/metrics/metrics.go:137-147 | the three aggregates are the sums over the slots in the window |
| MetricsSite.SiteMetrics.PerSecond | internal/metrics/metrics.go:149-157 | entry k shows the slot of second now-59+k if it still holds that second |
| MetricsSite.SiteMetrics.LatencyPercentiles | internal/metrics/metrics.go:159-167 | P50, P95 and P99 are percentiles of the last min(n,1024) latencies, in order, zero if there are none |
| RecordInterleaving.InvHolds | internal/metrics/metrics.go:64-107 | every step of every interleaving keeps totals equal to locked-in plus not yet locked-in samples |
| RecordInterleaving.TotalsAreLockedPlusAhead | internal/metrics/metrics.go:65-106 | at every moment the request total is the sum of status counts plus the calls between first add and lock, the error total likewise for error statuses, and errors are at most requests |
| RecordInterleaving.SnapshotsAreConsistent | internal/metrics/metrics.go:127-172 | in every snapshot errors are at most requests of the last minute and those at most the status counts; the request total as loaded plus the calls begun between its load and the lock is the status counts plus the calls in flight, and the same for errors; the error total exceeds the request total by at most the calls begun between the two loads |
| RecordInterleaving.ErrorsOvertake | internal/metrics/metrics.go:128-133 | for every b, a run in which b failing calls come between the loads of one snapshot, which shows b errors and no request |
| RecordInterleaving.TornSnapshotIff | internal/metrics/metrics.go:128-133 | snapshots between whose loads b calls began show no more errors than requests, in all runs, exactly for b = 0; an excess of b is reached for every b |
| MetricsRegistry.Registry.SiteFor | internal/metrics/metrics.go:198-213 | the domain's object, created empty only if there was none, all others untouched |
| MetricsRegistry.Registry.RecordMetric | internal/proxy/router.go:239-242 | one sample is added to the domain's history and to no other |
| MetricsRegistry.Registry.Prune | internal/metrics/metrics.go:228-236 | exactly the kept domains remain, with their samples |
| Config.ValidIff | internal/config/config.go:106-127 | a site is valid exactly if it has a non-blank domain, at least one upstream, only well-formed ones, and a positive rate and non-negative burst where limiting is on |
| Config.ValidUpstreamIff | internal/config/config.go:129-158 | well formed are texts with a scheme that parse to a URL with a host, and host:port pairs without one |
| Config.ReportedProblem | internal/config/config.go:106-127 | the first missing requirement is reported, and of malformed upstreams the first |
| Config.FirstInvalid | internal/config/config.go:113-117 | nothing is reported exactly if all upstreams are well formed; otherwise the first malformed one is |
| Text.ContainsIff | internal/config/config.go:131 | a part is contained if the text is the part with something before and after |
| Text.HasSuffixIff | internal/config/config.go:196 | a text ends in a suffix if it is something followed by it |
| Text.ToLowerIs | internal/config/config.go:291 | the capital letters become small, everything else stays |
| Text.LessIff | internal/config/config.go:208 | a proper prefix comes first, otherwise the first difference decides |
| Text.SpacesAre | internal/config/config.go:108 | the characters that count as white space |
| Text.TrimSpaceIff | internal/config/config.go:108 | trimming leaves what is between the white space at both ends |
| Config.BareUpstreamsDecidePool | internal/config/config.go:129-146 | of a valid site only upstreams without a scheme can still keep the pool from being built |
| Config.LoadSites | internal/config/config.go:186-211 | every valid site file is loaded and every broken one reported, in listing order; an unreadable directory gives no sites |
| Config.ReadIs | internal/config/config.go:213-214 | a name stands for the first entry that has it |
| Config.EntryLoads | internal/config/config.go:191-225 | an entry that is a directory or does not end in .yml or .yaml adds nothing; a valid document its site under the name of its file; a document that is not valid, a malformed or an unreadable file one error |
| Config.ListingLoads | internal/config/config.go:191-206 | sites and errors are added entry by entry, in listing order |
| Config.LoadedIff | internal/config/config.go:191-225 | loading yields exactly the sites of the site files whose text is a document that validates, in the order of their domains, and loaded plus reported files are all site files |
| Config.IndexIsLastClaim | internal/config/config.go:287-295 | the index maps a name to the last enabled site claiming it in any letter case |
| Config.LowerNamesIff | internal/config/config.go:290-294 | a site claims its lowercased domain and aliases |
| Config.NormaliseIs | internal/config/config.go:303-308 | a host without a colon is taken whole, otherwise what follows the last colon is cut off, and the rest is lowercased |
| Config.HostAndPort | internal/config/config.go:303-308 | a name with a port is the lowercased name |
| Config.Store.Replace | internal/config/config.go:286-300 | list and index are replaced together |
| Config.Store.Lookup | internal/config/config.go:303-313 | the last enabled site claiming the lowercased host, or the lowercased part before the host's last colon |
| Config.Store.Domains | internal/config/config.go:326-335 | every claimed name once, in ascending order |
| SiteFiles.NewFileName | internal/config/config.go:262-268 | no path separator; ".." occurs exactly if the domain ends in an odd number of dots |
| SiteFiles.TrailingDotsAre | internal/config/config.go:266 | what counts as the dots at the end of a domain |
| SiteFiles.FirstDotDot | internal/config/config.go:266 | the first two dots in a row become one underscore, what comes before stays and what comes after is treated alike |
| SiteFiles.OrdinaryName | internal/config/config.go:262-268 | a domain without two dots in a row keeps its lowercased letters, path separators becoming underscores |
| SiteFiles.DifferentNames | internal/config/config.go:262-268 | domains without these that differ in more than case get different names |
| SiteFiles.SaveOutcomeIff | internal/config/config.go:231-252 | a save succeeds exactly if the site is valid and every step works, else the first failing step is reported |
| SiteFiles.PutKeepsOrder | internal/config/config.go:244-247 | writing keeps the order of the listing and replaces or adds its own entry only |
| SiteFiles.SaveSite | internal/config/config.go:231-252 | fails exactly for an invalid site or where encoding, writing or renaming fails, and then leaves what is loaded as it was at every moment; otherwise the directory loads, at every moment, as before or as after, and afterwards the file loads as the saved site and all others as before |
| SiteFiles.TempInvisible | internal/config/config.go:244-247 | a temporary file, whole or partial, does not change what is loaded |
| Routing.RoutesAreLastRoute | internal/proxy/router.go:89-110 | the runtime map leads a name to the last enabled, pool-buildable site writing it verbatim |
| Routing.RoutableIff | internal/proxy/router.go:90-97 | routable are the enabled sites whose upstreams all parse, with http:// where they have no scheme |
| Routing.KeptIff | cmd/jobcloud/main.go:145-153 | the keep set is exactly the domains and aliases of the enabled sites |
| Routing.OwnDomainAgrees | internal/proxy/router.go:192-219 | a site found under its own domain is served by the runtime built from it |
| Routing.AliasAgreesIff | internal/proxy/router.go:192-219 | a site found under an alias is, exactly if no later routable site writes its domain |
| Routing.AgreementIff | internal/proxy/router.go:192-219 | both maps agree for all hosts exactly if no site lost its domain and kept an alias |
| Routing.ValidSiteShadowed | internal/config/config.go:286-312 | a list of two valid sites for which the two maps disagree |
| Routing.DistinctNamesAgree | internal/config/config.go:286-312 | lists without a name claimed twice always agree |
| Routing.UnbuildablePoolFallsThrough | internal/proxy/router.go:94-97 | a request for a site whose pool does not build is served exactly if a routable site writes its domain, and then by the last such site, in every list |
| Routing.ServedByItselfIff | internal/proxy/router.go:88-219 | every served request is served by the site it looked up exactly if no site lost its domain to a later one and kept a name, and none without a pool has its domain written by another |
| Routing.ValidSiteTakenOver | internal/config/config.go:129-146 | two valid sites of which the first serves the requests for the second |
| Routing.KeptRoutes | cmd/jobcloud/main.go:140-154 | every name with a runtime is in the keep set |
| Routing.LookedUpIsKept | cmd/jobcloud/main.go:145-153 | the domain of every site that can be looked up is in the keep set |
| Router.CountingWriter.WriteHeader | internal/proxy/router.go:255-261 | only the first header sets the status |
| Router.CountingWriter.Write | internal/proxy/router.go:263-270 | bytes add up and a body fixes the default status |
| Router.CountReply | internal/proxy/router.go:234-236 | the recorded status is the first header, else 200, and the bytes are those written |
| Router.BytesAdd | internal/proxy/router.go:263-270 | the bodies of a reply add up and its headers add nothing |
| Router.NewRuntime | internal/proxy/router.go:94-105 | a runtime exists exactly if the pool builds, with fresh pool and limiter, targets in order and nothing served |
| Router.SiteRuntime.Handle | internal/proxy/router.go:225-236 | refusals and admissions follow the full-log rule; tickets and limiter admissions equal the proxied requests; a refused request takes no ticket |
| Router.ProxiedSharedEvenly | internal/proxy/router.go:123-128 | over the proxied requests of a runtime the upstreams are shared within one |
| Router.ValidatedLimitIsEnforced | internal/proxy/router.go:102-104 | a valid site asking for a limit has a limiter that bounds each address's admissions by its configured rate and burst |
| Router.ReloadsAddBursts | internal/proxy/router.go:88-113 | the limiters of one name in successive published maps, its rate configuration unchanged: with requests one after the other, any window of time sees at most one capacity for each limiter plus rate times length |
| Router.PastExtended | internal/proxy/router.go:88-113 | publishing fresh runtimes keeps those of all earlier maps sound and apart |
| Router.BalanceStep | internal/proxy/router.go:225-242 | an answer of a runtime with one sample under one of its names keeps, for every runtime, the samples of all its names equal to its proxied and refused requests |
| Router.Router.Publish | internal/proxy/router.go:111-113 | the new map is added to the published ones with nothing served and no sample since; histories stay |
| Router.Router.Reload | internal/proxy/router.go:88-114 | the new map is that of the list, built of fresh unused runtimes, names sharing a runtime exactly if one site claimed both last |
| Router.Router.Route | internal/proxy/router.go:187-223 | the site is the one the store finds for the host; stopping, unknown host, redirect of a request without TLS where the site asks for it, filter, missing runtime, in this order |
| Router.DecideIff | internal/proxy/router.go:187-223 | for each answer the exact condition under which a request gets it |
| Router.AnsweredIs | internal/proxy/router.go:225-236 | a request is refused exactly if one more admission would exceed a window of this address's own calls; an admitted one goes to the upstream whose turn it is |
| Router.RepresentsMeans | internal/proxy/router.go:88-114 | a name has a runtime exactly if a routable site writes it, that of the last one, with the parsed upstreams as targets and nothing served |
| Router.Router.Pass | internal/proxy/router.go:217-235 | the decision moves the counters of the one runtime and leaves the metrics alone |
| Router.Router.Answer | internal/proxy/router.go:225-236 | and then exactly one sample is recorded, for the site's domain, 429 if refused |
| Router.Router.ServeHTTP | internal/proxy/router.go:185-237 | an early answer consumes neither tokens nor tickets nor samples; otherwise exactly the effects above, for the site found by the lookup; kept over all requests since a reload: for every runtime, the samples recorded under its names are its proxied plus its refused requests; the runtimes of all earlier maps stay sound |
| Router.Router.Prune | cmd/jobcloud/main.go:144-154 | metrics of names not kept go, all others and the runtimes with their counters stay |
| Router.NamesToKeep | cmd/jobcloud/main.go:145-153 | the keep set is the names of the enabled sites |
| Router.OnReload | cmd/jobcloud/main.go:140-155 | runtimes of the new list, then exactly the metrics of its names, with the count of samples per runtime starting at zero |
| HotReload.InvStep | internal/config/watcher.go:41-82 | every step keeps: either an event or the timer is pending, or what has been read and published is the current disk |
| HotReload.EventsArm | internal/config/watcher.go:45-57 | handling an event arms the timer exactly if it is relevant |
| HotReload.BusyWatcherWaits | internal/config/watcher.go:41-69 | a watcher that reloads handles no event and takes no timer |
| HotReload.Converged | internal/config/watcher.go:29-82 | with one reload at a time, once idle with no event and no timer, store and router hold what loading the current disk at once gives, although files are read one at a time |
| HotReload.OwnStepDescends | internal/config/watcher.go:41-82 | every own step of the program that does anything lowers the rank of the state |
| HotReload.Settles | internal/config/watcher.go:41-70 | once the disk stops changing, every schedule of the program's own steps is at most as long as the rank and can be extended exactly until the program is quiet |
| HotReload.EventuallyPublished | internal/config/watcher.go:41-82 | from every reachable state every schedule that cannot be extended, and none is longer than the rank, has published the current disk |
| HotReload.StaleWithoutExclusion | cmd/jobcloud/main.go:157-163 | without exclusion a run that ends idle on a stale list |
| HotReload.ConvergesIffExclusive | cmd/jobcloud/main.go:157-163 | all runs that come to rest have published the current disk if and only if reload sequences exclude each other, for every URL parser |
| Publication.AlwaysComplete | internal/proxy/router.go:88-114 | in every run, overlapping reloads included, the router's map is the whole map of one published list, and a request's site and runtime are those of published lists |
| Publication.BusySequenceWaits | cmd/jobcloud/main.go:157-163 | a reload sequence under way does not begin again |
| Publication.NeverMoreThanOneBehind | internal/proxy/router.go:111-113 | while reload sequences exclude each other the router is at most one generation behind the store, and so is the runtime of a request behind its site; with none under way the map is that of the store's list |
| Publication.OvertakenWithoutExclusion | cmd/jobcloud/main.go:157-163 | a run of two overlapping sequences in which a request pairs the third list with the runtime of the first |
| Publication.OneBehindIffExclusive | cmd/jobcloud/main.go:157-163 | the bound of one generation holds in all runs if and only if reload sequences exclude each other |
| Conservation.SamplesConserved | internal/metrics/metrics.go:198-236 | a domain every list keeps has one object holding exactly the samples of its completed recordings, whatever is interleaved, overlapping reloads included |
| Conservation.SamplesSurviveIff | internal/metrics/metrics.go:198-236 | after any run, overlapping reloads included, the object of a domain holds exactly the samples of its completed recordings, and requests about to record hold it, if and only if every prune of the run kept the domain or came before any recording for it with no request holding its object |
| Conservation.StaysAstray | internal/metrics/metrics.go:228-236 | the number of samples that the registered object misses, or will miss, never goes down |
| Conservation.DroppedDomainLosesSample | cmd/jobcloud/main.go:154 | a run from the start, with a valid site, that ends with the sample of its one request in no registered object |
| Conservation.RegistryBounded | internal/metrics/metrics.go:228-236 | while reload sequences exclude each other, between reloads the registry holds kept names and domains of requests in flight at the last prune; right after a prune kept names only |
| WholeProgram.RunProjects | cmd/jobcloud/main.go:138-163 | every run of reload machine and data plane together is a run of each |
| WholeProgram.NeverStuck | cmd/jobcloud/main.go:138-163 | in every reachable state that is not at rest some step of a reload or publication does something |
| WholeProgram.DataActs | cmd/jobcloud/main.go:138-163 | requests run as they do in the data plane alone |
| WholeProgram.ServesTheDisk | cmd/jobcloud/main.go:138-163 | at rest, under exclusion, requests are looked up in what the directory loads as, the runtime map is the map of that list, and the registry holds its names and at most the domains in flight at the last prune |
| WholeProgram.AtRestServedByOwner | cmd/jobcloud/main.go:138-163 | at rest a site of the directory whose pool builds has the runtime of its domain unless a later routable site writes that name |
| Debounce.Watch | internal/config/watcher.go:36-69 | the loop's log, timer and end follow the step function the theorems are about |
| Debounce.LogIsReceived | internal/config/watcher.go:41-69 | the log is the initial load and one entry for every relevant event received and every timer delivered; the loop runs until it receives a stop; the timer stands at 200 ms after the last relevant event |
| Debounce.PossibleIff | internal/config/watcher.go:41-69 | which inputs the loop can receive: any while it runs, a timer only when due |
| Debounce.EarlyTick | internal/config/watcher.go:62-65 | a timer delivered before the armed time would be started anew for what is left |
| Debounce.ReloadAfterEvents | internal/config/watcher.go:53-67 | a timer is delivered no sooner than 200 ms after every relevant event received before it |
| Debounce.TimerNeverEarly | internal/config/watcher.go:60-65 | a delivered timer always finds the armed time passed |
| Debounce.EveryEventServed | internal/config/watcher.go:45-67 | each handled event is followed by a reload at least 200 ms after the last event before it, or the timer is armed |
| Debounce.ReloadsApart | internal/config/watcher.go:53-67 | two reloads are at least 200 ms apart with a handled event between |
| Debounce.ReloadRate | internal/config/watcher.go:53-67 | at most floor(T/200 ms)+1 reloads in any period T |
| Debounce.ReloadsWithinEvents | internal/config/watcher.go:33-67 | never more reloads than handled events plus the initial one |
| TimedReload.RunProjects | internal/config/watcher.go:29-82 | every run of the event loop driving the reload machine is a run of each of the two |
| TimedReload.LoopReceives | internal/config/watcher.go:41-69 | a running loop that does not reload receives the first queued event, and a due timer, and both machines move |
| TimedReload.AroundActs | internal/config/watcher.go:29-82 | disk changes, saves and reload phases happen as they do to the reload machine alone |
| TimedReload.TimedConvergence | internal/config/watcher.go:29-82 | when no event is queued, no timer runs and nothing reloads, the current disk is published and the last entry of the loop's log is a reload at least 200 ms after every handled event |
| Decimal.ParseInverts | internal/auth/auth.go:154 | parsing inverts printing for all 64-bit integers |
| Decimal.ParseIntIs | internal/auth/auth.go:154 | one sign may come first and a value beyond 64 bits is refused |
| Decimal.ParseDigitsIff | internal/auth/auth.go:154 | nothing but a non-empty run of digits is read |
| Decimal.ParseDigitsAppend | internal/auth/auth.go:154 | each digit adds its value to ten times what came before |
| Decimal.PrintIs | internal/auth/auth.go:107 | a sign is printed for negative numbers only |
| Auth.New | internal/auth/auth.go:45-84 | succeeds exactly for a non-empty list without empty fields and a usable secret; the empty name is never an admin; otherwise the first offender is named, and the key file is only written on success |
| Auth.HashesAre | internal/auth/auth.go:49-55 | the lowercased names of the admins, each with the password of the last that has it |
| Auth.ResolveSecret | internal/auth/auth.go:64-84 | the configured secret if it has 32 characters, refused if shorter; without one the stored key of at least 32, else a generated one, stored, if there is randomness and the file can be written |
| Auth.SecretSurvivesRestart | internal/auth/auth.go:43-84 | a restart finds the same secret |
| Auth.AcceptedIff | internal/auth/auth.go:140-167 | a cookie is accepted for a user exactly if it carries the user, a future expiry and the signature of both |
| Auth.CookieCarries | internal/auth/auth.go:106-110 | an issued cookie carries the lowercased name, the second 24 hours later and the signature of both |
| Auth.CookieRoundTrip | internal/auth/auth.go:106-166 | an issued cookie yields the lowercased name until expiry exactly for configured names without a dot, and nothing otherwise |
| Auth.AdminSessionIff | internal/auth/auth.go:106-166 | for a configured admin the session works exactly if the name has no dot |
| Form.SplitWords | internal/ui/ui.go:426-435 | the words between runs of white space |
| Form.SplitLines | internal/ui/ui.go:437-447 | the trimmed, non-empty lines |
| Form.FieldsAfterGap | internal/ui/ui.go:426-435 | any white space before and after a word separates it |
| Form.NonEmptyAppend | internal/ui/ui.go:426-447 | empty pieces are dropped and the others keep their order |
| Form.LinesAdd | internal/ui/ui.go:437-447 | each line counts, trimmed, unless it is blank |
| Form.AliasesRoundTripIff | internal/ui/templates/site_form.html:16 | the alias list comes back through the one-line input exactly if it holds words |
| Form.OneLineAppend | internal/ui/templates/site_form.html:13-16 | a one-line input loses its line breaks and nothing else |
| Form.SubmittedIff | internal/ui/templates/site_form.html:21-48 | the browser holds back a form with an empty upstream field or a negative number |
| Form.WordsRoundTripIff | internal/ui/templates/site_form.html:16 | a rendered alias list comes back exactly if it holds non-empty names without white space |
| Form.LinesRoundTripIff | internal/ui/templates/site_form.html:21 | a rendered upstream list comes back, with either line end, exactly if it holds trimmed non-empty lines |
| Form.MergeForm | internal/ui/ui.go:380-398 | field by field: the form's fields replace those of the site; headers, certificate paths and file name stay, or are empty for a new site; an unreadable number keeps the old one, or zero |
| Form.FormRoundTripIff | internal/ui/ui.go:375-398 | submitting the unchanged form passes browser and validation and keeps the whole site exactly if the site is valid, its domain is one trimmed line, its lists survive rendering and no number is negative |
| Form.CreateOrUpdateSite | internal/ui/ui.go:375-417 | the merged site is saved or refused as SaveSite says; an unchanged form of such a site leaves a file that loads as that very site |

## Left out

- RateLimit.Limiter.Allow: exact arithmetic instead of float64, and no saturation of durations; buckets are values in the map, so the sharing of a bucket by pointer is not modelled.
- MetricsSite.SiteMetrics.Record: counters are unbounded, so the wrap of a bucket's uint32 after 2^32 requests in one second and of the lifetime totals after 2^64 is not modelled; the wrap of a latency in milliseconds is.
- MetricsSite.SiteMetrics.Snapshot: a sequential snapshot; the separate loads of the totals are in RecordInterleaving.
- Percentiles.Sorted: the library sort is a function with the library's contract.
- Config.LoadSites: the library sort is unstable; sites with equal domains are put in one fixed order.
- HotReload.Converged: assumes that reload sequences do not overlap and that every disk change queues a relevant event; event loss and overflow are not modelled.
- HotReload.EventuallyPublished: that the runtime goes on scheduling a goroutine that can run is not modelled; a schedule is any sequence of steps that do something.
- WholeProgram.ServesTheDisk: has one reload sequence for the watcher and one for the UI, and takes their exclusion as given.
- SiteFiles.SaveSite: a file's text is what the YAML decoder makes of it.
- Router.Router.ServeHTTP: one request at a time; the upstream's answer is a sequence of writer calls, panics and cancelled requests excluded; the exploit filters are one flag of the request.
- Router.Router.Reload: response headers and the rewriting of the outgoing request are not modelled.
- Auth.New: a failed write leaves the key file as it was; the bytes of a secret are characters; password checks are not modelled.
- Form.FormRoundTripIff: of the browser, the stripping of line breaks from one-line inputs and the refusal of negative numbers and of an empty upstream field are modelled; HTML escaping and a lone carriage return inside an upstream are not.
- Text.ToLower: ASCII letters only.
- Toggling a site in place through the UI (internal/ui/ui.go:325): published sites are immutable values here.
- The client address (internal/proxy/ratelimit.go:79-96) is a parameter of a request.
- Sockets, TLS, certificates (internal/acme/acme.go), listeners (internal/server/server.go), WebSocket upgrades, login page, dashboard rendering: no logic of the data plane.
- `Registry.SnapshotAll`, `DeleteSite`, `LoadGlobal`: the first is one Snapshot per registered domain, the second removes one file, and the third decodes one document; none keeps state across calls.
