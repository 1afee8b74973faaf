/** Site configurations, their loader and the in-memory store, internal/config/config.go. */
module Config {
  import opened Wrappers
  import Text
  import U = Upstream

  datatype TLSConfig = TLSConfig(auto: bool, certFile: string, keyFile: string)

  datatype RateLimitConfig = RateLimitConfig(enabled: bool, rps: int, burst: int)

  datatype Site = Site(
    filename: string,
    domain: string,
    aliases: seq<string>,
    upstreams: seq<string>,
    enabled: bool,
    tls: TLSConfig,
    httpToHttps: bool,
    webSocket: bool,
    blockCommonExploits: bool,
    rateLimit: RateLimitConfig,
    customHeaders: map<string, string>)
  {
    function AllDomains(): seq<string> {
      [domain] + aliases
    }
  }

  // ---------------------------------------------------------------------------
  // Validation
  // ---------------------------------------------------------------------------

  datatype SiteError =
    | DomainRequired
    | UpstreamRequired
    | InvalidUpstream(upstream: string)
    | RpsNotPositive
    | BurstNegative

  predicate ValidUpstream(parse: U.UrlParser, s: string) {
    if Text.Contains(s, "://") then
      parse(s).Some? && parse(s).value.host != ""
    else
      var i := Text.LastIndex(s, ':');
      i >= 0 && s[..i] != "" && s[i + 1..] != ""
  }

  /** Well formed are URLs with a scheme and a host, and host:port pairs. */
  lemma ValidUpstreamIff(parse: U.UrlParser, s: string)
    ensures ValidUpstream(parse, s)
            <==> if exists a, b :: s == a + "://" + b then parse(s).Some? && parse(s).value.host != ""
                 else exists host, port :: host != "" && port != "" && ':' !in port && s == host + ":" + port
  {
    hide Text.Contains, Text.LastIndex;
    Text.ContainsIff(s, "://");
    var i := Text.LastIndex(s, ':');
    if i >= 0 {
      assert s == s[..i] + ":" + s[i + 1..];
    }
    forall host, port | s == host + ":" + port && ':' !in port
      ensures i == |host| && s[..i] == host && s[i + 1..] == port
    {
      LastColon(s, host, port);
    }
  }

  lemma LastColon(s: string, name: string, port: string)
    requires s == name + ":" + port && ':' !in port
    ensures Text.LastIndex(s, ':') == |name| && s[..|name|] == name && s[|name| + 1..] == port
  {
    assert s[|name|] == ':' && s[|name|] in s;
    assert s[..|name|] == name && s[|name| + 1..] == port;
    assert forall j | |name| < j < |s| :: s[j] == port[j - |name| - 1];
    forall j | 0 <= j < |name| && s[j] == ':'
      ensures ':' in s[j + 1..]
    {
      assert s[j + 1..][|name| - j - 1] == ':';
    }
  }

  function FirstInvalid(parse: U.UrlParser, upstreams: seq<string>): (r: Option<string>)
    ensures r == None <==> forall u | u in upstreams :: ValidUpstream(parse, u)
    ensures r.Some? ==> FirstMalformed(parse, upstreams, r.value)
  {
    if upstreams == [] then None
    else if !ValidUpstream(parse, upstreams[0]) then Some(upstreams[0])
    else
      assert upstreams == [upstreams[0]] + upstreams[1..];
      var r := FirstInvalid(parse, upstreams[1..]);
      if r == None then r else FirstShifts(parse, upstreams, r.value); r
  }

  lemma FirstShifts(parse: U.UrlParser, upstreams: seq<string>, u: string)
    requires upstreams != [] && ValidUpstream(parse, upstreams[0])
    requires FirstMalformed(parse, upstreams[1..], u)
    ensures FirstMalformed(parse, upstreams, u)
  {
    hide ValidUpstream;
    var rest := upstreams[1..];
    var i :| 0 <= i < |rest| && u == rest[i] && !ValidUpstream(parse, u)
             && forall j | 0 <= j < i :: ValidUpstream(parse, rest[j]);
    assert u == upstreams[i + 1];
    assert forall j | 0 < j < i + 1 :: upstreams[j] == rest[j - 1];
  }

  /** u is the first malformed one of the upstreams. */
  ghost predicate FirstMalformed(parse: U.UrlParser, upstreams: seq<string>, u: string) {
    exists i :: 0 <= i < |upstreams| && u == upstreams[i] && !ValidUpstream(parse, u)
             && forall j | 0 <= j < i :: ValidUpstream(parse, upstreams[j])
  }

  function Validate(parse: U.UrlParser, s: Site): Option<SiteError> {
    if Text.TrimSpace(s.domain) == "" then Some(DomainRequired)
    else if |s.upstreams| == 0 then Some(UpstreamRequired)
    else
      var bad := FirstInvalid(parse, s.upstreams);
      if bad.Some? then Some(InvalidUpstream(bad.value))
      else if s.rateLimit.enabled && s.rateLimit.rps <= 0 then Some(RpsNotPositive)
      else if s.rateLimit.enabled && s.rateLimit.burst < 0 then Some(BurstNegative)
      else None
  }

  /** A site is valid exactly if it has a name, at least one upstream, only well-formed
      upstreams and, where limiting is asked for, a positive rate and no negative burst. */
  lemma ValidIff(parse: U.UrlParser, s: Site)
    ensures Validate(parse, s) == None <==>
            && (exists c :: c in s.domain && !Text.IsSpace(c))
            && s.upstreams != [] && (forall u | u in s.upstreams :: ValidUpstream(parse, u))
            && (s.rateLimit.enabled ==> s.rateLimit.rps > 0 && s.rateLimit.burst >= 0)
  {
    hide Text.IsSpace, Text.TrimSpace, ValidUpstream, FirstInvalid;
    Text.TrimSpaceEmptyIff(s.domain);
  }

  /** Otherwise the first of these that is missing is reported, and of several malformed
      upstreams the first. */
  lemma ReportedProblem(parse: U.UrlParser, s: Site)
    ensures var named := exists c :: c in s.domain && !Text.IsSpace(c);
            var formed := forall u | u in s.upstreams :: ValidUpstream(parse, u);
            var limit := s.rateLimit;
            match Validate(parse, s)
            case Some(DomainRequired) => !named
            case Some(UpstreamRequired) => named && s.upstreams == []
            case Some(InvalidUpstream(u)) => named && FirstMalformed(parse, s.upstreams, u)
            case Some(RpsNotPositive) => named && s.upstreams != [] && formed && limit.enabled && limit.rps <= 0
            case Some(BurstNegative) =>
              named && s.upstreams != [] && formed && limit.enabled && limit.rps > 0 && limit.burst < 0
            case None => named && s.upstreams != [] && formed
  {
    hide Text.IsSpace, Text.TrimSpace, ValidUpstream, FirstInvalid;
    Text.TrimSpaceEmptyIff(s.domain);
  }

  /** Of a validated site only the bare host:port upstreams can still keep the pool from
      being built: those with a scheme have been parsed already. */
  lemma BareUpstreamsDecidePool(parse: U.UrlParser, s: Site)
    requires Validate(parse, s) == None
    ensures U.PoolBuilds(parse, s.upstreams) <==>
            forall u | u in s.upstreams && !Text.Contains(u, "://") :: parse("http://" + u).Some?
  {
    forall u | u in s.upstreams && Text.Contains(u, "://")
      ensures U.ParseUpstream(parse, u).Some?
    {
      assert ValidUpstream(parse, u);
    }
    forall u | u in s.upstreams && !Text.Contains(u, "://")
      ensures U.ParseUpstream(parse, u) == parse("http://" + u)
    {
    }
  }

  /** A site with one name besides its aliases and one bare upstream. */
  function BareSite(domain: string, aliases: seq<string>, upstream: string): Site {
    Site("a.yml", domain, aliases, [upstream], true, TLSConfig(false, "", ""), false, false, false,
         RateLimitConfig(false, 0, 0), map[])
  }

  lemma BareUpstream(u: string, n: nat)
    requires n + 1 < |u| && u[n] == ':' && u[n + 1] != '/'
    requires forall i | 0 <= i < |u| && i != n :: u[i] != ':'
    ensures !Text.Contains(u, "://") && Text.LastIndex(u, ':') == n
  {
    hide Text.LastIndex;
    forall i: nat | i <= |u|
      ensures !Text.OccursAt(u, "://", i)
    {
      if i + 3 <= |u| {
        assert u[i..i + 3][0] == u[i] && u[i..i + 3][1] == u[i + 1];
      }
    }
    assert u[n] in u;
  }

  /** It is valid whatever the URL parser makes of the upstream. */
  lemma BareSiteIsValid(parse: U.UrlParser, domain: string, aliases: seq<string>, host: string, port: string)
    requires domain != "" && !Text.IsSpace(domain[0])
    requires host != "" && port != "" && ':' !in host && ':' !in port && '/' !in port
    ensures Validate(parse, BareSite(domain, aliases, host + ":" + port)) == None
    ensures U.ParseUpstream(parse, host + ":" + port) == parse("http://" + (host + ":" + port))
  {
    hide Text.IsSpace, Text.TrimSpace, FirstInvalid, Text.Contains, Text.LastIndex;
    var u := host + ":" + port;
    BareUpstream(u, |host|);
    assert u[..|host|] == host && u[|host| + 1..] == port;
    assert ValidUpstream(parse, u);
    assert domain[0] in domain;
    Text.TrimSpaceEmptyIff(domain);
  }

  // ---------------------------------------------------------------------------
  // The sites directory and its loader
  // ---------------------------------------------------------------------------

  /** What the YAML decoder makes of a file. */
  datatype Content = Malformed | Document(site: Site)

  datatype Body = Dir | File(content: Content)

  datatype DirEntry = DirEntry(name: string, body: Body)

  /** Entries in the order in which the directory is listed, or a directory that cannot be read. */
  datatype Disk = Unreadable | Readable(entries: seq<DirEntry>)

  datatype LoadError = DirError | ReadError(name: string) | YamlError(name: string) | Invalid(name: string, err: SiteError)

  predicate IsSiteFile(e: DirEntry) {
    !e.body.Dir? && (Text.HasSuffix(e.name, ".yml") || Text.HasSuffix(e.name, ".yaml"))
  }

  function Read(entries: seq<DirEntry>, name: string): Option<Body> {
    if entries == [] then None
    else if entries[0].name == name then Some(entries[0].body)
    else Read(entries[1..], name)
  }

  /** A name stands for the first entry that has it. */
  lemma {:induction false} ReadIs(entries: seq<DirEntry>, name: string)
    ensures Read(entries, name) == None <==> forall e | e in entries :: e.name != name
    ensures forall i | 0 <= i < |entries| && entries[i].name == name && (forall j | 0 <= j < i :: entries[j].name != name) ::
              Read(entries, name) == Some(entries[i].body)
    decreases |entries|
  {
    if entries == [] {
    } else {
      assert entries == [entries[0]] + entries[1..];
      ReadIs(entries[1..], name);
      forall i | 0 < i < |entries| && entries[i].name == name && (forall j | 0 <= j < i :: entries[j].name != name)
        ensures Read(entries, name) == Some(entries[i].body)
      {
        assert entries[1..][i - 1] == entries[i];
        assert forall j | 0 <= j < i - 1 :: entries[1..][j] == entries[j + 1];
      }
    }
  }

  function ReadDisk(disk: Disk, name: string): Option<Body> {
    if disk.Unreadable? then None else Read(disk.entries, name)
  }

  /** Reads, decodes and validates one file as it is on the disk now. */
  function LoadSiteFile(parse: U.UrlParser, disk: Disk, name: string): Result<Site, LoadError> {
    match ReadDisk(disk, name)
    case Some(File(Document(s))) =>
      var site := s.(filename := name);
      var err := Validate(parse, site);
      if err.Some? then Err(Invalid(name, err.value)) else Ok(site)
    case Some(File(Malformed)) => Err(YamlError(name))
    case _ => Err(ReadError(name))
  }

  /** The sites that a listing yields when its files are read from `disk`. */
  function LoadListed(parse: U.UrlParser, disk: Disk, listing: seq<DirEntry>): seq<Site> {
    if listing == [] then []
    else
      var rest := LoadListed(parse, disk, listing[1..]);
      if !IsSiteFile(listing[0]) then rest
      else
        match LoadSiteFile(parse, disk, listing[0].name)
        case Ok(s) => [s] + rest
        case Err(_) => rest
  }

  /** The errors reported for a listing, in its order. */
  function ErrorsListed(parse: U.UrlParser, disk: Disk, listing: seq<DirEntry>): seq<LoadError> {
    if listing == [] then []
    else
      var rest := ErrorsListed(parse, disk, listing[1..]);
      if !IsSiteFile(listing[0]) then rest
      else
        match LoadSiteFile(parse, disk, listing[0].name)
        case Ok(_) => rest
        case Err(err) => [err] + rest
  }

  predicate InDomainOrder(sites: seq<Site>) {
    |sites| < 2 || (!Text.Less(sites[1].domain, sites[0].domain) && InDomainOrder(sites[1..]))
  }

  /** That is, no site comes before one with a smaller domain. */
  lemma {:induction false} InDomainOrderIff(sites: seq<Site>)
    ensures InDomainOrder(sites)
            <==> forall i, j | 0 <= i < j < |sites| :: !Text.Less(sites[j].domain, sites[i].domain)
    decreases |sites|
  {
    hide Text.Less;
    if |sites| < 2 {
    } else {
      var rest := sites[1..];
      InDomainOrderIff(rest);
      assert forall i | 0 < i < |sites| :: sites[i] == rest[i - 1];
      assert forall i | 0 <= i < |rest| :: rest[i] == sites[i + 1];
      if InDomainOrder(sites) {
        forall j | 1 < j < |sites|
          ensures !Text.Less(sites[j].domain, sites[0].domain)
        {
          assert !Text.Less(rest[j - 1].domain, rest[0].domain);
          NotLessTransitive(sites[0].domain, sites[1].domain, sites[j].domain);
        }
      }
    }
  }

  lemma NotLessTransitive(a: string, b: string, c: string)
    requires !Text.Less(b, a) && !Text.Less(c, b)
    ensures !Text.Less(c, a)
  {
    hide Text.Less;
    Text.LessTotal(a, b);
    Text.LessTotal(b, c);
    if Text.Less(c, a) {
      if a != b {
        Text.LessTransitive(c, a, b);
      }
    }
  }

  function InsertByDomain(s: Site, sites: seq<Site>): (r: seq<Site>)
    requires InDomainOrder(sites)
    ensures InDomainOrder(r) && multiset(r) == multiset(sites) + multiset{s}
    ensures r != [] && (r[0] == s || (sites != [] && r[0] == sites[0]))
  {
    if sites == [] || Text.Less(s.domain, sites[0].domain) then
      assert sites != [] ==> !Text.Less(sites[0].domain, s.domain) by {
        if sites != [] {
          Text.LessAsymmetric(sites[0].domain, s.domain);
        }
      }
      [s] + sites
    else
      assert sites == [sites[0]] + sites[1..];
      [sites[0]] + InsertByDomain(s, sites[1..])
  }

  function SortByDomain(sites: seq<Site>): (r: seq<Site>)
    ensures InDomainOrder(r) && multiset(r) == multiset(sites)
  {
    if sites == [] then []
    else
      assert sites == sites[..|sites| - 1] + [sites[|sites| - 1]];
      InsertByDomain(sites[|sites| - 1], SortByDomain(sites[..|sites| - 1]))
  }

  /** What loading yields when the disk does not change meanwhile. */
  function LoadAll(parse: U.UrlParser, disk: Disk): seq<Site> {
    if disk.Unreadable? then [] else SortByDomain(LoadListed(parse, disk, disk.entries))
  }

  lemma {:induction false} LoadListedAppend(parse: U.UrlParser, disk: Disk, a: seq<DirEntry>, b: seq<DirEntry>)
    ensures LoadListed(parse, disk, a + b) == LoadListed(parse, disk, a) + LoadListed(parse, disk, b)
    ensures ErrorsListed(parse, disk, a + b) == ErrorsListed(parse, disk, a) + ErrorsListed(parse, disk, b)
    decreases |a|
  {
    hide LoadSiteFile, IsSiteFile;
    if a == [] {
      assert a + b == b;
    } else {
      assert (a + b)[1..] == a[1..] + b;
      LoadListedAppend(parse, disk, a[1..], b);
    }
  }

  lemma {:induction false} ListedIff(parse: U.UrlParser, disk: Disk, listing: seq<DirEntry>, s: Site)
    ensures s in LoadListed(parse, disk, listing)
            <==> exists e :: e in listing && IsSiteFile(e) && LoadSiteFile(parse, disk, e.name) == Ok(s)
    ensures |LoadListed(parse, disk, listing)| + |ErrorsListed(parse, disk, listing)| == SiteFileCount(listing)
    decreases |listing|
  {
    hide LoadSiteFile, IsSiteFile;
    if listing == [] {
    } else {
      ListedIff(parse, disk, listing[1..], s);
      assert listing == [listing[0]] + listing[1..];
    }
  }

  function SiteFileCount(listing: seq<DirEntry>): nat {
    if listing == [] then 0 else (if IsSiteFile(listing[0]) then 1 else 0) + SiteFileCount(listing[1..])
  }

  /** A site file is one that is no directory and ends in .yml or .yaml. */
  lemma SiteFileIff(e: DirEntry)
    ensures IsSiteFile(e) <==> e.body.File? && exists base :: e.name == base + ".yml" || e.name == base + ".yaml"
  {
    hide Text.HasSuffix;
    Text.HasSuffixIff(e.name, ".yml");
    Text.HasSuffixIff(e.name, ".yaml");
  }

  /** What one listed entry adds to the loaded sites and to the reported errors, its name being
      read from the disk: nothing unless it is a site file; the site of a valid document, under
      the name of its file; and one error for anything else. */
  lemma EntryLoads(parse: U.UrlParser, disk: Disk, e: DirEntry)
    ensures var sites, errs := LoadListed(parse, disk, [e]), ErrorsListed(parse, disk, [e]);
            if e.body.Dir? || !(exists base :: e.name == base + ".yml" || e.name == base + ".yaml") then
              sites == [] && errs == []
            else if disk.Unreadable? then sites == [] && errs == [ReadError(e.name)]
            else
              match Read(disk.entries, e.name)
              case Some(File(Document(d))) =>
                var s := d.(filename := e.name);
                if Validate(parse, s) == None then sites == [s] && errs == []
                else sites == [] && errs == [Invalid(e.name, Validate(parse, s).value)]
              case Some(File(Malformed)) => sites == [] && errs == [YamlError(e.name)]
              case _ => sites == [] && errs == [ReadError(e.name)]
  {
    hide Validate, IsSiteFile, Read;
    SiteFileIff(e);
    assert [e][1..] == [];
  }

  /** The listing is loaded entry by entry, in its order. */
  lemma ListingLoads(parse: U.UrlParser, disk: Disk, listing: seq<DirEntry>, e: DirEntry)
    ensures LoadListed(parse, disk, []) == [] && ErrorsListed(parse, disk, []) == []
    ensures LoadListed(parse, disk, listing + [e]) == LoadListed(parse, disk, listing) + LoadListed(parse, disk, [e])
    ensures ErrorsListed(parse, disk, listing + [e]) == ErrorsListed(parse, disk, listing) + ErrorsListed(parse, disk, [e])
  {
    hide LoadSiteFile, IsSiteFile;
    LoadListedAppend(parse, disk, listing, [e]);
  }

  /** e is a site file whose name reads as a valid document, and s is its site. */
  ghost predicate ValidFile(parse: U.UrlParser, entries: seq<DirEntry>, e: DirEntry, s: Site) {
    && e.body.File? && (exists base :: e.name == base + ".yml" || e.name == base + ".yaml")
    && (exists d :: Read(entries, e.name) == Some(File(Document(d))) && s == d.(filename := e.name))
    && Validate(parse, s) == None
  }

  lemma ValidFileIff(parse: U.UrlParser, entries: seq<DirEntry>, e: DirEntry, s: Site)
    ensures ValidFile(parse, entries, e, s) <==> IsSiteFile(e) && LoadSiteFile(parse, Readable(entries), e.name) == Ok(s)
  {
    hide Validate, IsSiteFile, Read;
    SiteFileIff(e);
    match Read(entries, e.name) {
      case Some(File(Document(d))) =>
      case _ =>
    }
  }

  /** Loading yields exactly the sites of the valid site files, whatever the other files hold,
      in the order of their domains; and every site file is either loaded or reported. */
  lemma LoadedIff(parse: U.UrlParser, entries: seq<DirEntry>, s: Site)
    ensures var sites := LoadAll(parse, Readable(entries));
            && (s in sites <==> exists e :: e in entries && ValidFile(parse, entries, e, s))
            && |sites| + |ErrorsListed(parse, Readable(entries), entries)| == SiteFileCount(entries)
            && (forall i, j | 0 <= i < j < |sites| :: !Text.Less(sites[j].domain, sites[i].domain))
  {
    hide LoadSiteFile, IsSiteFile, SortByDomain, LoadListed, ValidFile, Text.Less, InDomainOrder;
    var listed := LoadListed(parse, Readable(entries), entries);
    ListedIff(parse, Readable(entries), entries, s);
    assert s in multiset(listed) <==> s in multiset(SortByDomain(listed));
    assert |multiset(listed)| == |multiset(SortByDomain(listed))|;
    InDomainOrderIff(SortByDomain(listed));
    forall e | e in entries
      ensures ValidFile(parse, entries, e, s)
              <==> IsSiteFile(e) && LoadSiteFile(parse, Readable(entries), e.name) == Ok(s)
    {
      ValidFileIff(parse, entries, e, s);
    }
  }

  /** Loads every valid site file; a broken one is reported and skipped. */
  method LoadSites(parse: U.UrlParser, disk: Disk) returns (sites: seq<Site>, errs: seq<LoadError>)
    ensures sites == LoadAll(parse, disk)
    ensures disk.Unreadable? ==> errs == [DirError]
    ensures disk.Readable? ==> errs == ErrorsListed(parse, disk, disk.entries)
  {
    hide LoadSiteFile, IsSiteFile, SortByDomain;
    if disk.Unreadable? {
      return [], [DirError];
    }
    sites, errs := [], [];
    var entries := disk.entries;
    for i := 0 to |entries|
      invariant sites == LoadListed(parse, disk, entries[..i])
      invariant errs == ErrorsListed(parse, disk, entries[..i])
    {
      assert entries[..i + 1] == entries[..i] + [entries[i]];
      LoadListedAppend(parse, disk, entries[..i], [entries[i]]);
      if !IsSiteFile(entries[i]) {
        continue;
      }
      var r := LoadSiteFile(parse, disk, entries[i].name);
      if r.Err? {
        errs := errs + [r.error];
        continue;
      }
      sites := sites + [r.value];
    }
    assert entries[..|entries|] == entries;
    sites := SortByDomain(sites);
  }

  // ---------------------------------------------------------------------------
  // The store
  // ---------------------------------------------------------------------------

  ghost function LowerOf(names: seq<string>): set<string> {
    set d | d in names :: Text.ToLower(d)
  }

  ghost function LowerNames(s: Site): set<string> {
    LowerOf(s.AllDomains())
  }

  /** The lowercased domain and aliases. */
  lemma LowerNamesIff(s: Site, name: string)
    ensures name in LowerNames(s)
            <==> name == Text.ToLower(s.domain) || exists a :: a in s.aliases && name == Text.ToLower(a)
  {
    hide Text.ToLower;
    assert s.AllDomains()[0] == s.domain;
    assert forall d :: d in s.AllDomains() <==> d == s.domain || d in s.aliases;
  }

  /** Gives every one of the names to s. */
  ghost function Claim<T>(index: map<string, T>, names: set<string>, s: T): map<string, T> {
    index + map k | k in names :: s
  }

  /** The routing index of a site list: a later enabled site takes names from an earlier one. */
  ghost function Index(sites: seq<Site>): map<string, Site> {
    if sites == [] then map[]
    else
      var s := sites[|sites| - 1];
      var rest := Index(sites[..|sites| - 1]);
      if s.enabled then Claim(rest, LowerNames(s), s) else rest
  }

  lemma IndexStep(sites: seq<Site>, i: nat)
    requires i < |sites|
    ensures Index(sites[..i + 1])
            == if sites[i].enabled then Claim(Index(sites[..i]), LowerOf(sites[i].AllDomains()), sites[i]) else Index(sites[..i])
  {
    assert sites[..i + 1][..i] == sites[..i];
  }

  lemma ClaimStep(index: map<string, Site>, names: seq<string>, d: string, s: Site)
    ensures Claim(index, LowerOf(names + [d]), s) == Claim(index, LowerOf(names), s)[Text.ToLower(d) := s]
  {
    hide LowerOf;
    LowerOfAppend(names, d);
  }

  /** Position of the last enabled site claiming the lowercased name, or -1. */
  ghost function LastClaim(sites: seq<Site>, name: string): (i: int)
    ensures -1 <= i < |sites|
    ensures i >= 0 ==> sites[i].enabled && name in LowerNames(sites[i])
    ensures forall j | i < j < |sites| :: !(sites[j].enabled && name in LowerNames(sites[j]))
  {
    if sites == [] then -1
    else
      var n := |sites| - 1;
      if sites[n].enabled && name in LowerNames(sites[n]) then n else LastClaim(sites[..n], name)
  }

  lemma {:induction false} IndexIsLastClaim(sites: seq<Site>, name: string)
    ensures name in Index(sites) <==> LastClaim(sites, name) >= 0
    ensures name in Index(sites) ==> Index(sites)[name] == sites[LastClaim(sites, name)]
    decreases |sites|
  {
    if sites == [] {
    } else {
      IndexIsLastClaim(sites[..|sites| - 1], name);
    }
  }

  /** A Host header without its port, lowercased. */
  function Normalise(host: string): string {
    var i := Text.LastIndex(host, ':');
    Text.ToLower(if i >= 0 then host[..i] else host)
  }

  /** What follows the last colon of a host is cut off, */
  lemma NormaliseCuts(host: string, k: nat)
    requires k < |host| && host[k] == ':' && ':' !in host[k + 1..]
    ensures Normalise(host) == Text.ToLower(host[..k])
  {
    hide Text.ToLower, Text.LastIndex;
    assert host == host[..k] + ":" + host[k + 1..];
    LastColon(host, host[..k], host[k + 1..]);
  }

  /** and a host without a colon is taken whole. */
  lemma NormaliseIs(host: string)
    ensures ':' !in host ==> Normalise(host) == Text.ToLower(host)
    ensures forall k | 0 <= k < |host| && host[k] == ':' && ':' !in host[k + 1..] ::
              Normalise(host) == Text.ToLower(host[..k])
  {
    NoColon(host);
    hide Normalise, Text.ToLower;
    forall k | 0 <= k < |host| && host[k] == ':' && ':' !in host[k + 1..]
      ensures Normalise(host) == Text.ToLower(host[..k])
    {
      NormaliseCuts(host, k);
    }
  }

  lemma HostAndPort(name: string, port: string)
    requires ':' !in port
    ensures Normalise(name + ":" + port) == Text.ToLower(name)
  {
    hide Text.ToLower, Text.LastIndex;
    LastColon(name + ":" + port, name, port);
  }

  lemma NoColon(host: string)
    ensures ':' !in host ==> Normalise(host) == Text.ToLower(host)
  {
    hide Text.ToLower, Text.LastIndex;
  }

  class Store {
    var sites: seq<Site>
    var byDomain: map<string, Site>

    ghost predicate Valid()
      reads this
    {
      byDomain == Index(sites)
    }

    constructor ()
      ensures Valid() && sites == []
    {
      sites, byDomain := [], map[];
    }

    method Replace(sites: seq<Site>)
      modifies this
      ensures Valid() && this.sites == sites
    {
      hide Index, Claim, LowerOf;
      var idx: map<string, Site> := map[];
      EmptyIndex();
      for i := 0 to |sites|
        invariant idx == Index(sites[..i])
      {
        var site := sites[i];
        IndexStep(sites, i);
        if !site.enabled {
          continue;
        }
        var all := site.AllDomains();
        ghost var before := idx;
        ClaimNothing(before, site);
        for j := 0 to |all|
          invariant idx == Claim(before, LowerOf(all[..j]), site)
        {
          assert all[..j + 1] == all[..j] + [all[j]];
          ClaimStep(before, all[..j], all[j], site);
          idx := idx[Text.ToLower(all[j]) := site];
        }
        assert all[..|all|] == all;
      }
      assert sites[..|sites|] == sites;
      this.sites := sites;
      byDomain := idx;
    }

    /** The site of the last enabled claim to the host's name. */
    function Lookup(host: string): (r: Option<Site>)
      requires Valid()
      reads this
      ensures var i := LastClaim(sites, Normalise(host));
              r == if i >= 0 then Some(sites[i]) else None
      ensures ':' !in host ==> var i := LastClaim(sites, Text.ToLower(host)); r == if i >= 0 then Some(sites[i]) else None
      ensures forall k | 0 <= k < |host| && host[k] == ':' && ':' !in host[k + 1..] ::
                var i := LastClaim(sites, Text.ToLower(host[..k])); r == if i >= 0 then Some(sites[i]) else None
    {
      NormaliseIs(host);
      var i := Text.LastIndex(host, ':');
      var h := Text.ToLower(if i >= 0 then host[..i] else host);
      IndexIsLastClaim(sites, h);
      if h in byDomain then Some(byDomain[h]) else None
    }

    /** Every name some enabled site claims, once each and in order. */
    method Domains() returns (out: seq<string>)
      requires Valid()
      ensures Text.Ascending(out)
      ensures forall d :: d in out <==> LastClaim(sites, d) >= 0
    {
      hide LastClaim, Index, Text.Ascending, Text.Insert;
      Text.NothingAscends();
      out := [];
      var todo := byDomain.Keys;
      while todo != {}
        invariant todo <= byDomain.Keys
        invariant Text.Ascending(out)
        invariant forall d :: d in out <==> d in byDomain && d !in todo
        decreases todo
      {
        Text.SomeMember(todo);
        var d :| d in todo;
        todo := todo - {d};
        out := Text.Insert(d, out);
      }
      forall d ensures d in byDomain <==> LastClaim(sites, d) >= 0 {
        IndexIsLastClaim(sites, d);
      }
    }
  }

  lemma ClaimNothing(index: map<string, Site>, s: Site)
    ensures Claim(index, LowerOf([]), s) == index
  {
  }

  lemma EmptyIndex()
    ensures Index([]) == map[]
  {
  }

  lemma LowerOfAppend(names: seq<string>, d: string)
    ensures LowerOf(names + [d]) == LowerOf(names) + {Text.ToLower(d)}
  {
    assert d in names + [d];
    forall x | x in LowerOf(names) + {Text.ToLower(d)}
      ensures x in LowerOf(names + [d])
    {
      if x in LowerOf(names) {
        var e :| e in names && Text.ToLower(e) == x;
        assert e in names + [d];
      }
    }
  }
}
