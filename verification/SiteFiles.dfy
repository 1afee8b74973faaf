/** Saving a site to the directory, internal/config/config.go. */
module SiteFiles {
  import opened Wrappers
  import opened Config
  import Text
  import U = Upstream

  // ---------------------------------------------------------------------------
  // File names
  // ---------------------------------------------------------------------------

  function Replace(s: string, from: char, into: char): (r: string)
    ensures |r| == |s|
    ensures forall i | 0 <= i < |s| :: r[i] == if s[i] == from then into else s[i]
  {
    if s == [] then [] else [if s[0] == from then into else s[0]] + Replace(s[1..], from, into)
  }

  /** Replaces every "..", from the left and without overlaps. */
  function ReplaceDotDot(s: string): string {
    if |s| >= 2 && s[0] == '.' && s[1] == '.' then "_" + ReplaceDotDot(s[2..])
    else if s == [] then []
    else [s[0]] + ReplaceDotDot(s[1..])
  }

  lemma NoDotDotTail(s: string)
    requires s != [] && NoDotDot(s)
    ensures NoDotDot(s[1..]) && !(|s| >= 2 && s[0] == '.' && s[1] == '.')
  {
    assert forall i | 0 <= i < |s| - 1 :: s[1..][i] == s[i + 1];
  }

  /** A text without two dots in a row stays. */
  lemma {:induction false} NoDotDotStays(s: string)
    requires NoDotDot(s)
    ensures ReplaceDotDot(s) == s
    decreases |s|
  {
    if s == [] {
    } else {
      NoDotDotTail(s);
      hide NoDotDot;
      NoDotDotStays(s[1..]);
    }
  }

  /** The first two dots in a row become one underscore; the text before them stays and the text
      after them is treated alike. */
  lemma {:induction false} FirstDotDot(a: string, b: string)
    requires NoDotDot(a + ".")
    ensures ReplaceDotDot(a + ".." + b) == a + "_" + ReplaceDotDot(b)
    decreases |a|
  {
    var s := a + ".." + b;
    if a == "" {
      assert s[2..] == b && s[0] == '.' && s[1] == '.';
    } else {
      NoDotDotTail(a + ".");
      hide NoDotDot;
      assert (a + ".")[1..] == a[1..] + ".";
      assert s[1..] == a[1..] + ".." + b;
      assert s[0] == (a + ".")[0] && s[1] == (a + ".")[1];
      FirstDotDot(a[1..], b);
      assert a == [a[0]] + a[1..];
    }
  }

  function SanitizeFilename(domain: string): string {
    ReplaceDotDot(Replace(Replace(Text.ToLower(domain), '/', '_'), '\\', '_'))
  }

  function TrailingDots(s: string): nat {
    if s != [] && s[|s| - 1] == '.' then 1 + TrailingDots(s[..|s| - 1]) else 0
  }

  ghost predicate NoDotDot(s: string) {
    forall i | 0 <= i < |s| - 1 :: !(s[i] == '.' && s[i + 1] == '.')
  }

  lemma {:induction false} DotDotGone(s: string)
    ensures NoDotDot(ReplaceDotDot(s))
    ensures forall c | c in ReplaceDotDot(s) :: c == '_' || c in s
    ensures s != [] ==> ReplaceDotDot(s) != [] && ReplaceDotDot(s)[0] == if |s| >= 2 && s[0] == s[1] == '.' then '_' else s[0]
    decreases |s|
  {
    if |s| >= 2 && s[0] == '.' && s[1] == '.' {
      DotDotGone(s[2..]);
    } else if s != [] {
      DotDotGone(s[1..]);
    }
  }

  lemma {:induction false} TrailingDotsFront(c: char, t: string)
    ensures TrailingDots(t) <= |t|
    ensures TrailingDots([c] + t) == if TrailingDots(t) == |t| && c == '.' then |t| + 1 else TrailingDots(t)
    decreases |t|
  {
    if t == [] {
      assert ([c] + t)[..0] == [];
    } else {
      assert ([c] + t)[..|t|] == [c] + t[..|t| - 1];
      TrailingDotsFront(c, t[..|t| - 1]);
    }
  }

  /** The number of dots at the end. */
  lemma {:induction false} TrailingDotsAre(s: string)
    ensures TrailingDots(s) <= |s|
    ensures forall i | |s| - TrailingDots(s) <= i < |s| :: s[i] == '.'
    ensures TrailingDots(s) < |s| ==> s[|s| - TrailingDots(s) - 1] != '.'
    decreases |s|
  {
    if s == [] {
    } else {
      TrailingDotsAre(s[..|s| - 1]);
    }
  }

  ghost predicate EndsInDot(s: string) {
    s != [] && s[|s| - 1] == '.'
  }

  lemma EndsInDotFront(c: char, t: string)
    ensures EndsInDot([c] + t) <==> if t == "" then c == '.' else EndsInDot(t)
  {
  }

  /** A dot survives at the end exactly when the run of dots there has odd length. */
  lemma {:induction false} LastDotSurvives(s: string)
    ensures EndsInDot(ReplaceDotDot(s)) <==> TrailingDots(s) % 2 == 1
    decreases |s|
  {
    hide TrailingDots, NoDotDot, EndsInDot;
    if |s| >= 2 && s[0] == '.' && s[1] == '.' {
      LastDotAfterPair(s[2..]);
      assert s == ['.'] + (['.'] + s[2..]);
    } else if s != [] {
      LastDotSurvives(s[1..]);
      DotDotGone(s[1..]);
      EndsInDotFront(s[0], ReplaceDotDot(s[1..]));
      TrailingDotsFront(s[0], s[1..]);
      assert s == [s[0]] + s[1..];
      if |s| >= 2 && TrailingDots(s[1..]) == |s[1..]| {
        AllDots(s[1..]);
        assert s[1..][0] == s[1];
      }
    } else {
      NoTrailingDots();
    }
  }

  lemma {:induction false} LastDotAfterPair(t: string)
    ensures EndsInDot("_" + ReplaceDotDot(t)) <==> TrailingDots(['.'] + (['.'] + t)) % 2 == 1
    decreases |t| + 1
  {
    hide TrailingDots, NoDotDot, EndsInDot, ReplaceDotDot;
    LastDotSurvives(t);
    DotDotGone(t);
    EndsInDotFront('_', ReplaceDotDot(t));
    TrailingDotsFront('.', t);
    TrailingDotsFront('.', ['.'] + t);
    NoTrailingDots();
  }

  lemma NoTrailingDots()
    ensures TrailingDots("") == 0 && ReplaceDotDot("") == "" && !EndsInDot("")
  {
  }

  lemma {:induction false} AllDots(s: string)
    requires TrailingDots(s) == |s|
    ensures forall i | 0 <= i < |s| :: s[i] == '.'
    decreases |s|
  {
    if s == [] {
    } else {
      TrailingDotsFront('.', s[..|s| - 1]);
      AllDots(s[..|s| - 1]);
    }
  }

  lemma {:induction false} TrailingDotsOnly(s: string, t: string)
    requires |s| == |t| && forall i | 0 <= i < |s| :: s[i] == '.' <==> t[i] == '.'
    ensures TrailingDots(s) == TrailingDots(t)
    decreases |s|
  {
    if s == [] {
    } else {
      TrailingDotsOnly(s[..|s| - 1], t[..|t| - 1]);
    }
  }

  /** The name of a new site's file has no path separator, and it contains ".." (which the
      admin UI refuses) exactly when the domain ends in an odd number of dots. */
  lemma NewFileName(domain: string)
    ensures var name := SanitizeFilename(domain) + ".yml";
            && '/' !in name && '\\' !in name
            && (!NoDotDot(name) <==> TrailingDots(domain) % 2 == 1)
  {
    hide NoDotDot, ReplaceDotDot, TrailingDots;
    var cleaned := Replace(Replace(Text.ToLower(domain), '/', '_'), '\\', '_');
    assert '/' !in cleaned && '\\' !in cleaned;
    DotDotGone(cleaned);
    assert '/' !in ReplaceDotDot(cleaned) && '\\' !in ReplaceDotDot(cleaned);
    LastDotSurvives(cleaned);
    TrailingDotsOnly(domain, cleaned);
    AppendExtension(ReplaceDotDot(cleaned));
  }

  /** A domain without two dots in a row becomes its lowercased self with underscores for path
      separators, so domains that differ in more than letter case and have none of these
      become different names. */
  lemma OrdinaryName(domain: string)
    requires NoDotDot(domain)
    ensures |SanitizeFilename(domain)| == |domain|
    ensures forall i | 0 <= i < |domain| ::
              SanitizeFilename(domain)[i]
              == if domain[i] == '/' || domain[i] == '\\' then '_' else Text.ToLower(domain)[i]
  {
    hide Text.ToLower, Replace, ReplaceDotDot;
    var cleaned := Replace(Replace(Text.ToLower(domain), '/', '_'), '\\', '_');
    assert forall i | 0 <= i < |domain| :: cleaned[i] == '.' <==> domain[i] == '.';
    assert NoDotDot(cleaned);
    NoDotDotStays(cleaned);
  }

  lemma DifferentNames(a: string, b: string)
    requires NoDotDot(a) && NoDotDot(b) && Text.ToLower(a) != Text.ToLower(b)
    requires '/' !in a && '\\' !in a && '/' !in b && '\\' !in b
    ensures SanitizeFilename(a) != SanitizeFilename(b)
  {
    hide Text.ToLower, SanitizeFilename;
    OrdinaryName(a);
    OrdinaryName(b);
    assert SanitizeFilename(a) == Text.ToLower(a) && SanitizeFilename(b) == Text.ToLower(b);
  }

  lemma AppendExtension(base: string)
    requires NoDotDot(base)
    ensures !NoDotDot(base + ".yml") <==> EndsInDot(base)
  {
    var name := base + ".yml";
    assert |name| == |base| + 4;
    assert name[|base|] == '.' && name[|base| + 1] == 'y' && name[|base| + 2] == 'm' && name[|base| + 3] == 'l';
    assert forall i | 0 <= i < |base| :: name[i] == base[i];
    if EndsInDot(base) {
      assert name[|base| - 1] == '.' && name[|base| - 1 + 1] == '.';
    } else {
      assert forall i | |base| < i < |name| :: name[i] != '.';
    }
  }

  // ---------------------------------------------------------------------------
  // Directory contents
  // ---------------------------------------------------------------------------

  /** Writes or replaces one entry, keeping the listing order. */
  function Put(entries: seq<DirEntry>, e: DirEntry): seq<DirEntry> {
    if entries == [] then [e]
    else if entries[0].name == e.name then [e] + entries[1..]
    else if Text.Less(e.name, entries[0].name) then [e] + entries
    else [entries[0]] + Put(entries[1..], e)
  }

  function Drop(entries: seq<DirEntry>, name: string): seq<DirEntry> {
    if entries == [] then []
    else if entries[0].name == name then Drop(entries[1..], name)
    else [entries[0]] + Drop(entries[1..], name)
  }

  lemma {:induction false} ReadPut(entries: seq<DirEntry>, e: DirEntry, name: string)
    ensures Read(Put(entries, e), name) == if name == e.name then Some(e.body) else Read(entries, name)
    decreases |entries|
  {
    if entries == [] {
    } else {
      ReadPut(entries[1..], e, name);
    }
  }

  lemma {:induction false} ReadDrop(entries: seq<DirEntry>, gone: string, name: string)
    requires name != gone
    ensures Read(Drop(entries, gone), name) == Read(entries, name)
    decreases |entries|
  {
    if entries == [] {
    } else {
      ReadDrop(entries[1..], gone, name);
    }
  }

  lemma {:induction false} ReadDropped(entries: seq<DirEntry>, gone: string)
    ensures Read(Drop(entries, gone), gone) == None
    decreases |entries|
  {
    if entries == [] {
    } else {
      ReadDropped(entries[1..], gone);
    }
  }

  ghost predicate InNameOrder(entries: seq<DirEntry>) {
    forall i, j | 0 <= i < j < |entries| :: Text.Less(entries[i].name, entries[j].name)
  }

  lemma OrderedFront(x: DirEntry, s: seq<DirEntry>)
    ensures InNameOrder([x] + s) <==> InNameOrder(s) && forall y | y in s :: Text.Less(x.name, y.name)
  {
    hide Text.Less;
    var all := [x] + s;
    assert forall i | 0 <= i < |s| :: s[i] == all[i + 1];
    assert forall i | 0 < i < |all| :: all[i] == s[i - 1];
    if InNameOrder(all) {
      forall y | y in s
        ensures Text.Less(x.name, y.name)
      {
        var i :| 0 <= i < |s| && s[i] == y;
        assert all[0] == x && all[i + 1] == y;
      }
    }
  }

  /** Writing keeps the order of the listing and replaces or adds its own entry only. */
  lemma {:induction false} PutKeepsOrder(entries: seq<DirEntry>, e: DirEntry)
    requires InNameOrder(entries)
    ensures InNameOrder(Put(entries, e))
    ensures forall x :: x in Put(entries, e) <==> x == e || (x in entries && x.name != e.name)
    decreases |entries|
  {
    hide Text.Less, InNameOrder;
    if entries == [] {
      OrderedFront(e, []);
      NothingInOrder();
      assert [e] + [] == [e];
    } else {
      var first, rest := entries[0], entries[1..];
      assert entries == [first] + rest;
      OrderedFront(first, rest);
      Text.LessTotal(first.name, e.name);
      Text.LessAsymmetric(first.name, first.name);
      if first.name == e.name {
        OrderedFront(e, rest);
        forall x | x in rest
          ensures x.name != e.name
        {
          Text.LessAsymmetric(x.name, x.name);
        }
      } else if Text.Less(e.name, first.name) {
        forall x | x in entries
          ensures Text.Less(e.name, x.name) && x.name != e.name
        {
          Text.LessAsymmetric(e.name, e.name);
          if x != first {
            Text.LessTransitive(e.name, first.name, x.name);
          }
        }
        OrderedFront(e, entries);
      } else {
        PutKeepsOrder(rest, e);
        OrderedFront(first, Put(rest, e));
      }
    }
  }

  lemma NothingInOrder()
    ensures InNameOrder([])
  {
  }

  lemma {:induction false} DropPut(entries: seq<DirEntry>, e: DirEntry)
    ensures Drop(Put(entries, e), e.name) == Drop(entries, e.name)
    decreases |entries|
  {
    if entries == [] {
    } else {
      DropPut(entries[1..], e);
    }
  }

  predicate SiteName(name: string) {
    Text.HasSuffix(name, ".yml") || Text.HasSuffix(name, ".yaml")
  }

  /** Loading reads nothing but the site files of its listing. */
  lemma {:induction false} SameReads(parse: U.UrlParser, d1: Disk, d2: Disk, listing: seq<DirEntry>)
    requires forall n | SiteName(n) :: ReadDisk(d1, n) == ReadDisk(d2, n)
    ensures LoadListed(parse, d1, listing) == LoadListed(parse, d2, listing)
    decreases |listing|
  {
    hide LoadSiteFile, ReadDisk;
    if listing == [] {
    } else {
      SameReads(parse, d1, d2, listing[1..]);
      if IsSiteFile(listing[0]) {
        SameFile(parse, d1, d2, listing[0].name);
      }
    }
  }

  lemma SameFile(parse: U.UrlParser, d1: Disk, d2: Disk, name: string)
    requires ReadDisk(d1, name) == ReadDisk(d2, name)
    ensures LoadSiteFile(parse, d1, name) == LoadSiteFile(parse, d2, name)
  {
    hide ReadDisk;
  }

  lemma {:induction false} ListingIgnores(parse: U.UrlParser, disk: Disk, listing: seq<DirEntry>, e: DirEntry)
    requires !SiteName(e.name)
    ensures LoadListed(parse, disk, Put(listing, e)) == LoadListed(parse, disk, listing)
    ensures LoadListed(parse, disk, Drop(listing, e.name)) == LoadListed(parse, disk, listing)
    decreases |listing|
  {
    hide LoadSiteFile, SiteName;
    if listing == [] {
    } else {
      ListingIgnores(parse, disk, listing[1..], e);
    }
    assert LoadListed(parse, disk, [e] + listing) == LoadListed(parse, disk, listing) by {
      assert ([e] + listing)[1..] == listing;
      assert !IsSiteFile(e) by {
        NotSiteFile(e);
      }
    }
    if listing != [] && listing[0].name == e.name {
      NotSiteFile(e);
      NotSiteFile(listing[0]);
    }
  }

  lemma NotSiteFile(e: DirEntry)
    requires !SiteName(e.name)
    ensures !IsSiteFile(e)
  {
  }

  lemma TempIsNoSite(name: string)
    ensures !SiteName(name + ".tmp")
  {
    SuffixEnds(name + ".tmp", ".yml");
    SuffixEnds(name + ".tmp", ".yaml");
  }

  lemma SuffixEnds(s: string, suffix: string)
    requires s != [] && suffix != []
    ensures Text.HasSuffix(s, suffix) ==> s[|s| - 1] == suffix[|suffix| - 1]
  {
    assert Text.HasSuffix(s, suffix) ==> s[|s| - |suffix|..][|suffix| - 1] == s[|s| - 1];
  }

  // ---------------------------------------------------------------------------
  // Saving
  // ---------------------------------------------------------------------------

  class Directory {
    var entries: seq<DirEntry>
    /** Every content the directory has gone through. */
    ghost var trail: seq<seq<DirEntry>>

    constructor (entries: seq<DirEntry>)
      ensures this.entries == entries && trail == []
    {
      this.entries, trail := entries, [];
    }

    /** Writing is not atomic: a partly written file can be seen, and left behind by a
        failure. */
    method WriteFile(name: string, content: Content, fate: WriteFate)
      modifies this
      ensures fate == NotCreated ==> entries == old(entries) && trail == old(trail)
      ensures fate == CutShort ==>
                && entries == Put(old(entries), DirEntry(name, File(Malformed)))
                && trail == old(trail) + [entries]
      ensures fate == Written ==>
                && entries == Put(Put(old(entries), DirEntry(name, File(Malformed))), DirEntry(name, File(content)))
                && trail == old(trail) + [Put(old(entries), DirEntry(name, File(Malformed))), entries]
    {
      if fate == NotCreated {
        return;
      }
      entries := Put(entries, DirEntry(name, File(Malformed)));
      trail := trail + [entries];
      if fate == CutShort {
        return;
      }
      entries := Put(entries, DirEntry(name, File(content)));
      trail := trail + [entries];
    }

    method Rename(name: string, target: string, body: Body)
      requires Read(entries, name) == Some(body)
      modifies this
      ensures entries == Put(Drop(old(entries), name), DirEntry(target, body))
      ensures trail == old(trail) + [entries]
    {
      entries := Put(Drop(entries, name), DirEntry(target, body));
      trail := trail + [entries];
    }
  }

  datatype WriteFate = Written | NotCreated | CutShort

  /** What the encoder and the file system make of a save. */
  datatype Fate = Fate(marshals: bool, write: WriteFate, renames: bool)

  datatype SaveError = NotValid(err: SiteError) | NotMarshalled | NotWritten | NotRenamed

  function SaveOutcome(parse: U.UrlParser, s: Site, fate: Fate): Option<SaveError> {
    var err := Validate(parse, s);
    if err.Some? then Some(NotValid(err.value))
    else if !fate.marshals then Some(NotMarshalled)
    else if fate.write != Written then Some(NotWritten)
    else if !fate.renames then Some(NotRenamed)
    else None
  }

  /** A save succeeds exactly if the site is valid and every step works; otherwise the first step
      that does not is reported. */
  lemma SaveOutcomeIff(parse: U.UrlParser, s: Site, fate: Fate)
    ensures SaveOutcome(parse, s, fate) == None
            <==> Validate(parse, s) == None && fate.marshals && fate.write.Written? && fate.renames
    ensures match SaveOutcome(parse, s, fate)
            case Some(NotValid(err)) => Validate(parse, s) == Some(err)
            case Some(NotMarshalled) => Validate(parse, s) == None && !fate.marshals
            case Some(NotWritten) => Validate(parse, s) == None && fate.marshals && !fate.write.Written?
            case Some(NotRenamed) => Validate(parse, s) == None && fate.marshals && fate.write.Written? && !fate.renames
            case None => true
  {
    hide Validate;
  }

  function Loaded(parse: U.UrlParser, entries: seq<DirEntry>): seq<Site> {
    LoadAll(parse, Readable(entries))
  }

  /** Saves through a temporary file. At every moment the directory loads either as it did
      before or as it does after; in the end the saved file loads as the saved site, and every
      other site file as before. A save that fails, at whatever step, never changes what is
      loaded. */
  method SaveSite(dir: Directory, parse: U.UrlParser, s: Site, fate: Fate) returns (r: Result<string, SaveError>)
    modifies dir
    ensures r.Err? <==> SaveOutcome(parse, s, fate).Some?
    ensures r.Err? ==> Some(r.error) == SaveOutcome(parse, s, fate)
    ensures r.Err? && (r.error.NotValid? || r.error.NotMarshalled?) ==>
              dir.entries == old(dir.entries) && dir.trail == old(dir.trail)
    ensures r.Err? ==> Loaded(parse, dir.entries) == Loaded(parse, old(dir.entries))
    ensures old(dir.trail) <= dir.trail
    ensures forall i | |old(dir.trail)| <= i < |dir.trail| ::
              || Loaded(parse, dir.trail[i]) == Loaded(parse, old(dir.entries))
              || (r.Ok? && Loaded(parse, dir.trail[i]) == Loaded(parse, dir.entries))
    ensures r.Ok? ==>
              && r.value == (if s.filename == "" then SanitizeFilename(s.domain) + ".yml" else s.filename)
              && dir.entries == Put(Drop(old(dir.entries), r.value + ".tmp"), DirEntry(r.value, File(Document(s))))
              && LoadSiteFile(parse, Readable(dir.entries), r.value) == Ok(s.(filename := r.value))
              && Read(dir.entries, r.value + ".tmp") == None
              && (forall n | SiteName(n) && n != r.value ::
                    LoadSiteFile(parse, Readable(dir.entries), n) == LoadSiteFile(parse, Readable(old(dir.entries)), n))
  {
    hide Loaded, SiteName, Put, Drop, Read, SanitizeFilename, Validate, LoadSiteFile;
    var err := Validate(parse, s);
    if err.Some? {
      return Err(NotValid(err.value));
    }
    var name := s.filename;
    if name == "" {
      name := SanitizeFilename(s.domain) + ".yml";
    }
    if !fate.marshals {
      return Err(NotMarshalled);
    }
    var tmp := name + ".tmp";
    ghost var was := dir.entries;
    TempIsNoSite(name);
    TempInvisible(parse, was, tmp, File(Malformed));
    TempInvisible(parse, Put(was, DirEntry(tmp, File(Malformed))), tmp, File(Document(s)));
    dir.WriteFile(tmp, Document(s), fate.write);
    if fate.write != Written {
      return Err(NotWritten);
    }
    if !fate.renames {
      return Err(NotRenamed);
    }
    ReadPut(Put(was, DirEntry(tmp, File(Malformed))), DirEntry(tmp, File(Document(s))), tmp);
    dir.Rename(tmp, name, File(Document(s)));
    DropPut(Put(was, DirEntry(tmp, File(Malformed))), DirEntry(tmp, File(Document(s))));
    DropPut(was, DirEntry(tmp, File(Malformed)));
    r := Ok(name);
    SavedFileLoads(parse, was, name, s);
    assert name + ".tmp" != name;
    ReadDropped(was, tmp);
    ReadPut(Drop(was, tmp), DirEntry(name, File(Document(s))), tmp);
  }

  lemma SavedFileLoads(parse: U.UrlParser, was: seq<DirEntry>, name: string, s: Site)
    requires Validate(parse, s) == None
    ensures var now := Put(Drop(was, name + ".tmp"), DirEntry(name, File(Document(s))));
            && LoadSiteFile(parse, Readable(now), name) == Ok(s.(filename := name))
            && (forall n | SiteName(n) && n != name ::
                  LoadSiteFile(parse, Readable(now), n) == LoadSiteFile(parse, Readable(was), n))
  {
    var tmp := name + ".tmp";
    var e := DirEntry(name, File(Document(s)));
    var now := Put(Drop(was, tmp), e);
    hide SiteName, Put, Drop, Read, Validate;
    TempIsNoSite(name);
    ReadPut(Drop(was, tmp), e, name);
    ValidateIgnoresFilename(parse, s, name);
    forall n | SiteName(n) && n != name
      ensures LoadSiteFile(parse, Readable(now), n) == LoadSiteFile(parse, Readable(was), n)
    {
      ReadPut(Drop(was, tmp), e, n);
      ReadDrop(was, tmp, n);
      SameFile(parse, Readable(now), Readable(was), n);
    }
  }

  lemma ValidateIgnoresFilename(parse: U.UrlParser, s: Site, name: string)
    ensures Validate(parse, s.(filename := name)) == Validate(parse, s)
  {
    hide FirstInvalid, Text.TrimSpace;
  }

  lemma TempInvisible(parse: U.UrlParser, entries: seq<DirEntry>, tmp: string, body: Body)
    requires !SiteName(tmp)
    ensures Loaded(parse, Put(entries, DirEntry(tmp, body))) == Loaded(parse, entries)
  {
    hide SiteName, Put, Read, SortByDomain;
    var e := DirEntry(tmp, body);
    ListingIgnores(parse, Readable(Put(entries, e)), entries, e);
    forall n | SiteName(n)
      ensures ReadDisk(Readable(Put(entries, e)), n) == ReadDisk(Readable(entries), n)
    {
      ReadPut(entries, e, n);
    }
    SameReads(parse, Readable(Put(entries, e)), Readable(entries), entries);
  }
}
