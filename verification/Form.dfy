/** The site form of the admin UI and its submission, internal/ui/ui.go and
    internal/ui/templates/site_form.html. */
module Form {
  import opened Wrappers
  import opened Config
  import opened SiteFiles
  import Decimal
  import Text
  import U = Upstream

  // ---------------------------------------------------------------------------
  // Words and lines
  // ---------------------------------------------------------------------------

  function Join(items: seq<string>, sep: string): string {
    if items == [] then ""
    else if |items| == 1 then items[0]
    else items[0] + sep + Join(items[1..], sep)
  }

  predicate NoSpace(s: string) {
    forall c | c in s :: !Text.IsSpace(c)
  }

  /** Length of the word at the start. */
  function WordLength(s: string): (n: nat)
    ensures n <= |s| && NoSpace(s[..n]) && (n < |s| ==> Text.IsSpace(s[n]))
  {
    if s == [] || Text.IsSpace(s[0]) then 0
    else
      var n := WordLength(s[1..]);
      assert s[..n + 1] == [s[0]] + s[1..][..n];
      n + 1
  }

  /** The words between runs of white space. */
  function Fields(s: string): seq<string> {
    if s == [] then []
    else
      var n := WordLength(s);
      if n == 0 then Fields(s[1..]) else [s[..n]] + Fields(s[n..])
  }

  /** The pieces between occurrences of c; there is always at least one. */
  function Split(s: string, c: char): (r: seq<string>)
    ensures r != []
  {
    if s == [] then [""]
    else
      var rest := Split(s[1..], c);
      if s[0] == c then [""] + rest else [[s[0]] + rest[0]] + rest[1..]
  }

  function NonEmpty(items: seq<string>): seq<string> {
    if items == [] then []
    else NonEmpty(items[..|items| - 1]) + if items[|items| - 1] == "" then [] else [items[|items| - 1]]
  }

  function Trimmed(items: seq<string>): (r: seq<string>)
    ensures |r| == |items|
    ensures forall i | 0 <= i < |items| :: r[i] == Text.TrimSpace(items[i])
  {
    seq(|items|, i requires 0 <= i < |items| => Text.TrimSpace(items[i]))
  }

  function WordsOf(s: string): seq<string> {
    NonEmpty(Fields(s))
  }

  function LinesOf(s: string): seq<string> {
    NonEmpty(Trimmed(Split(s, '\n')))
  }

  lemma NonEmptyStep(items: seq<string>, i: nat)
    requires i < |items|
    ensures NonEmpty(items[..i + 1]) == NonEmpty(items[..i]) + if items[i] == "" then [] else [items[i]]
  {
    assert items[..i + 1][..i] == items[..i];
  }

  method SplitWords(s: string) returns (out: seq<string>)
    ensures out == WordsOf(s)
  {
    var fields := Fields(s);
    hide Fields;
    out := [];
    for i := 0 to |fields|
      invariant out == NonEmpty(fields[..i])
    {
      NonEmptyStep(fields, i);
      if fields[i] != "" {
        out := out + [fields[i]];
      }
    }
    assert fields[..|fields|] == fields;
  }

  method SplitLines(s: string) returns (out: seq<string>)
    ensures out == LinesOf(s)
  {
    hide Split, Text.TrimSpace;
    var lines := Split(s, '\n');
    ghost var trimmed := Trimmed(lines);
    out := [];
    for i := 0 to |lines|
      invariant out == NonEmpty(trimmed[..i])
    {
      var l := Text.TrimSpace(lines[i]);
      NonEmptyStep(trimmed, i);
      if l != "" {
        out := out + [l];
      }
    }
    assert trimmed[..|lines|] == trimmed;
  }

  // ---------------------------------------------------------------------------
  // Which lists survive
  // ---------------------------------------------------------------------------

  predicate IsWord(s: string) {
    s != "" && NoSpace(s)
  }

  predicate IsLine(s: string) {
    s != "" && Text.TrimSpace(s) == s && '\n' !in s
  }

  lemma {:induction false} NonEmptyAll(items: seq<string>)
    ensures forall x :: x in NonEmpty(items) <==> x in items && x != ""
    ensures (forall x | x in items :: x != "") ==> NonEmpty(items) == items
    decreases |items|
  {
    if items == [] {
    } else {
      var n := |items| - 1;
      NonEmptyAll(items[..n]);
      assert items == items[..n] + [items[n]];
      if forall x | x in items :: x != "" {
        assert forall x | x in items[..n] :: x in items;
        assert forall x | x in items[..n] :: x != "";
        assert items[n] in items;
      }
    }
  }

  /** And keeps the order. */
  lemma NonEmptyAppend(items: seq<string>, x: string)
    ensures NonEmpty([]) == []
    ensures NonEmpty(items + [x]) == if x == "" then NonEmpty(items) else NonEmpty(items) + [x]
  {
    assert (items + [x])[..|items|] == items;
  }

  lemma {:induction false} FieldsAreWords(s: string)
    ensures forall x | x in Fields(s) :: IsWord(x)
    decreases |s|
  {
    if s == [] {
    } else {
      var n := WordLength(s);
      if n == 0 {
        FieldsAreWords(s[1..]);
      } else {
        FieldsAreWords(s[n..]);
      }
    }
  }

  lemma {:induction false} WordLengthOf(w: string, tail: string)
    requires NoSpace(w) && (tail == "" || Text.IsSpace(tail[0]))
    ensures WordLength(w + tail) == |w|
    decreases |w|
  {
    if w == "" {
      assert w + tail == tail;
    } else {
      assert (w + tail)[1..] == w[1..] + tail;
      WordLengthOf(w[1..], tail);
    }
  }

  lemma FieldsStep(w: string, rest: string)
    requires IsWord(w)
    ensures Fields(w) == [w] && Fields(w + (" " + rest)) == [w] + Fields(rest)
  {
    hide WordLength, NoSpace;
    var tail := " " + rest;
    WordLengthOf(w, "");
    WordLengthOf(w, tail);
    WordLengthOf("", tail);
    assert w + "" == w && "" + tail == tail && tail[1..] == rest;
    assert (w + tail)[..|w|] == w && (w + tail)[|w|..] == tail;
    assert Fields(tail) == Fields(rest);
    assert w[..|w|] == w && Fields(w[|w|..]) == [];
  }

  /** Whatever white space comes before and after a word, the word is one field. */
  lemma {:induction false} FieldsAfterGap(gap: string, w: string, rest: string)
    requires forall c | c in gap :: Text.IsSpace(c)
    requires IsWord(w) && (rest == "" || Text.IsSpace(rest[0]))
    ensures Fields(gap) == [] && Fields(gap + w + rest) == [w] + Fields(rest)
    decreases |gap|
  {
    var s := gap + w + rest;
    if gap == "" {
      WordLengthOf(w, rest);
      assert s == w + rest;
      assert s[..|w|] == w && s[|w|..] == rest;
    } else {
      assert gap[0] in gap;
      assert s[0] == gap[0] && s[1..] == gap[1..] + w + rest;
      assert forall c | c in gap[1..] :: c in gap;
      FieldsAfterGap(gap[1..], w, rest);
    }
  }

  lemma {:induction false} FieldsOfJoin(words: seq<string>)
    requires forall w | w in words :: IsWord(w)
    ensures Fields(Join(words, " ")) == words
    decreases |words|
  {
    hide IsWord, Fields;
    if words == [] {
      NoFields();
    } else {
      assert words[0] in words;
      assert forall x | x in words[1..] :: x in words;
      assert words == [words[0]] + words[1..];
      FieldsOfJoin(words[1..]);
      var rest := Join(words[1..], " ");
      FieldsStep(words[0], rest);
      assert |words| > 1 ==> Join(words, " ") == words[0] + (" " + rest);
    }
  }

  lemma NoFields()
    ensures Fields("") == []
  {
  }

  /** A word list rendered with spaces comes back unchanged exactly if it holds words. */
  lemma WordsRoundTripIff(words: seq<string>)
    ensures WordsOf(Join(words, " ")) == words <==> forall w | w in words :: IsWord(w)
  {
    hide Join, Fields, NonEmpty, IsWord;
    FieldsAreWords(Join(words, " "));
    NonEmptyAll(Fields(Join(words, " ")));
    if forall w | w in words :: IsWord(w) {
      FieldsOfJoin(words);
      WordsAreNonEmpty();
    }
  }

  lemma WordsAreNonEmpty()
    ensures forall w :: IsWord(w) ==> w != ""
  {
  }

  lemma {:induction false} SplitAtFirst(l: string, tail: string, c: char)
    requires c !in l
    ensures Split(l + [c] + tail, c) == [l] + Split(tail, c)
    decreases |l|
  {
    var s := l + [c] + tail;
    if l == "" {
      assert s[1..] == tail;
    } else {
      assert s[1..] == l[1..] + [c] + tail;
      assert l == [l[0]] + l[1..];
      SplitAtFirst(l[1..], tail, c);
      var rest := [l[1..]] + Split(tail, c);
      assert rest[1..] == Split(tail, c);
    }
  }

  lemma {:induction false} SplitNone(l: string, c: char)
    requires c !in l
    ensures Split(l, c) == [l]
    decreases |l|
  {
    if l == "" {
    } else {
      assert l == [l[0]] + l[1..];
      SplitNone(l[1..], c);
    }
  }

  lemma {:induction false} PiecesHaveNone(s: string, c: char)
    ensures forall p | p in Split(s, c) :: c !in p
    decreases |s|
  {
    if s == "" {
    } else {
      PiecesHaveNone(s[1..], c);
    }
  }

  /** Line by line: a line counts, trimmed, unless it is blank. */
  lemma {:induction false} LinesAdd(l: string, rest: string)
    requires '\n' !in l
    ensures LinesOf(l) == if Text.TrimSpace(l) == "" then [] else [Text.TrimSpace(l)]
    ensures LinesOf(l + ['\n'] + rest) == LinesOf(l) + LinesOf(rest)
  {
    hide Text.TrimSpace, Split;
    SplitNone(l, '\n');
    SplitAtFirst(l, rest, '\n');
    var first, more := Text.TrimSpace(l), Trimmed(Split(rest, '\n'));
    assert Trimmed([l]) == [first];
    assert Trimmed([l] + Split(rest, '\n')) == [first] + more;
    NonEmptyFront(first, []);
    NonEmptyFront(first, more);
    assert [first] + [] == [first];
  }

  lemma {:induction false} NonEmptyFront(x: string, items: seq<string>)
    ensures NonEmpty([x] + items) == (if x == "" then [] else [x]) + NonEmpty(items)
    decreases |items|
  {
    if items == [] {
      assert [x] + items == [x] && [x][..0] == [];
    } else {
      var n := |items| - 1;
      assert ([x] + items)[..n + 1] == [x] + items[..n];
      NonEmptyFront(x, items[..n]);
    }
  }

  lemma TrimOfLine(l: string)
    requires IsLine(l)
    ensures Text.TrimSpace(l + "\r") == l
  {
    var left := Text.TrimLeft(l);
    assert left == l by {
      TrimSpaceShorter(l);
    }
    assert !Text.IsSpace(l[0]) && Text.TrimRight(l) == l;
    assert (l + "\r")[0] == l[0];
    assert Text.TrimLeft(l + "\r") == l + "\r";
    assert (l + "\r")[..|l|] == l;
  }

  lemma TrimSpaceShorter(s: string)
    ensures |Text.TrimSpace(s)| <= |Text.TrimLeft(s)| <= |s|
    ensures |Text.TrimLeft(s)| == |s| ==> Text.TrimLeft(s) == s
  {
    assert s[0..] == s;
  }

  lemma {:induction false} TrimmedLinesOfJoin(lines: seq<string>, eol: string)
    requires eol == "\n" || eol == "\r\n"
    requires lines != [] && forall l | l in lines :: IsLine(l)
    ensures Trimmed(Split(Join(lines, eol), '\n')) == lines
    decreases |lines|
  {
    hide IsLine, Text.TrimSpace, Split;
    var l := lines[0];
    LineFacts(l);
    if |lines| == 1 {
      SplitNone(l, '\n');
      assert Join(lines, eol) == l;
    } else {
      var rest := Join(lines[1..], eol);
      TrimmedLinesOfJoin(lines[1..], eol);
      var piece := if eol == "\n" then l else l + "\r";
      assert Join(lines, eol) == piece + ['\n'] + rest;
      assert '\n' !in piece;
      SplitAtFirst(piece, rest, '\n');
      var pieces := [piece] + Split(rest, '\n');
      assert pieces[1..] == Split(rest, '\n');
      assert Trimmed(pieces) == [l] + lines[1..];
    }
  }

  lemma LineFacts(l: string)
    requires IsLine(l)
    ensures l != "" && '\n' !in l && Text.TrimSpace(l) == l && Text.TrimSpace(l + "\r") == l
  {
    TrimOfLine(l);
  }

  lemma {:induction false} TrimLeftFixed(s: string)
    requires s == "" || !Text.IsSpace(s[0])
    ensures Text.TrimLeft(s) == s
  {
  }

  lemma {:induction false} TrimRightFixed(s: string)
    requires s == "" || !Text.IsSpace(s[|s| - 1])
    ensures Text.TrimRight(s) == s
  {
  }

  lemma TrimSpaceIdempotent(s: string)
    ensures var t := Text.TrimSpace(s); Text.TrimSpace(t) == t
  {
    var left := Text.TrimLeft(s);
    var t := Text.TrimRight(left);
    hide Text.TrimLeft, Text.TrimRight, Text.IsSpace;
    assert t != "" ==> t[0] == left[0];
    TrimLeftFixed(t);
    TrimRightFixed(t);
  }

  lemma TrimSpaceKeepsOut(s: string, c: char)
    requires c !in s
    ensures c !in Text.TrimSpace(s)
  {
    var left := Text.TrimLeft(s);
    var t := Text.TrimRight(left);
    hide Text.TrimLeft, Text.TrimRight, Text.IsSpace;
    assert c !in s[|s| - |left|..];
    assert c !in left[..|t|];
  }

  lemma LinesAreLines(s: string)
    ensures forall x | x in LinesOf(s) :: IsLine(x)
  {
    hide NonEmpty, Split, Text.TrimSpace;
    PiecesHaveNone(s, '\n');
    var pieces := Split(s, '\n');
    NonEmptyAll(Trimmed(pieces));
    forall x | x in LinesOf(s)
      ensures IsLine(x)
    {
      assert x in Trimmed(pieces);
      var i :| 0 <= i < |pieces| && Trimmed(pieces)[i] == x;
      assert pieces[i] in pieces;
      TrimSpaceIdempotent(pieces[i]);
      TrimSpaceKeepsOut(pieces[i], '\n');
    }
  }

  /** A line list rendered with either line end comes back unchanged exactly if it holds
      trimmed, non-empty lines. */
  lemma LinesRoundTripIff(lines: seq<string>, eol: string)
    requires eol == "\n" || eol == "\r\n"
    ensures LinesOf(Join(lines, eol)) == lines <==> forall l | l in lines :: IsLine(l)
  {
    hide NonEmpty, IsLine;
    LinesAreLines(Join(lines, eol));
    if forall l | l in lines :: IsLine(l) {
      if lines == [] {
        EmptyText();
      } else {
        TrimmedLinesOfJoin(lines, eol);
        NonEmptyAll(lines);
        LinesAreNonEmpty();
      }
    }
  }

  lemma EmptyText()
    ensures LinesOf("") == []
  {
    assert Text.TrimSpace("") == "";
    assert Trimmed([""])[0] == "";
    assert Trimmed([""])[..0] == [];
  }

  lemma LinesAreNonEmpty()
    ensures forall l :: IsLine(l) ==> l != ""
  {
  }

  // ---------------------------------------------------------------------------
  // The form
  // ---------------------------------------------------------------------------

  /** The submitted fields; a missing one reads as the empty string. */
  datatype FormData = FormData(
    domain: string, aliases: string, upstreams: string,
    enabled: string, httpToHttps: string, webSocket: string, blockCommonExploits: string,
    tlsAuto: string, rlEnabled: string, rlRps: string, rlBurst: string)

  const NEW_SITE := Site("", "", [], [], false, TLSConfig(false, "", ""), false, false, false,
                         RateLimitConfig(false, 0, 0), map[])

  /** The site that a submission saves: the existing one, or a blank one, with the form's
      fields set one after the other. A number that does not parse leaves the old value. */
  method MergeForm(existing: Option<Site>, form: FormData) returns (site: Site)
    ensures site == Merged(if existing.Some? then existing.value else NEW_SITE, form)
    ensures site.domain == Text.TrimSpace(form.domain)
    ensures site.aliases == WordsOf(form.aliases) && site.upstreams == LinesOf(form.upstreams)
    ensures (site.enabled <==> form.enabled == "on") && (site.httpToHttps <==> form.httpToHttps == "on")
    ensures (site.webSocket <==> form.webSocket == "on") && (site.blockCommonExploits <==> form.blockCommonExploits == "on")
    ensures (site.tls.auto <==> form.tlsAuto == "on") && (site.rateLimit.enabled <==> form.rlEnabled == "on")
    ensures match Decimal.ParseInt(form.rlRps)
            case Some(n) => site.rateLimit.rps == n
            case None => site.rateLimit.rps == if existing.Some? then existing.value.rateLimit.rps else 0
    ensures match Decimal.ParseInt(form.rlBurst)
            case Some(n) => site.rateLimit.burst == n
            case None => site.rateLimit.burst == if existing.Some? then existing.value.rateLimit.burst else 0
    ensures existing.Some? ==>
              && site.filename == existing.value.filename && site.customHeaders == existing.value.customHeaders
              && site.tls.certFile == existing.value.tls.certFile && site.tls.keyFile == existing.value.tls.keyFile
    ensures existing == None ==>
              site.filename == "" && site.customHeaders == map[] && site.tls.certFile == "" && site.tls.keyFile == ""
  {
    hide Text.TrimSpace, WordsOf, LinesOf, Decimal.ParseInt;
    site := NEW_SITE;
    if existing.Some? {
      site := existing.value;
    }
    site := MergeLists(site, form);
    site := MergeChecks(site, form);
    site := MergeLimit(site, form);
  }

  method MergeLists(existing: Site, form: FormData) returns (site: Site)
    ensures site == existing.(domain := Text.TrimSpace(form.domain),
                              aliases := WordsOf(form.aliases), upstreams := LinesOf(form.upstreams))
  {
    hide Text.TrimSpace, WordsOf, LinesOf;
    site := existing.(domain := Text.TrimSpace(form.domain));
    var aliases := SplitWords(form.aliases);
    site := site.(aliases := aliases);
    var upstreams := SplitLines(form.upstreams);
    site := site.(upstreams := upstreams);
  }

  method MergeChecks(existing: Site, form: FormData) returns (site: Site)
    ensures site == existing.(enabled := form.enabled == "on", httpToHttps := form.httpToHttps == "on",
                              webSocket := form.webSocket == "on", blockCommonExploits := form.blockCommonExploits == "on",
                              tls := existing.tls.(auto := form.tlsAuto == "on"))
  {
    site := existing.(enabled := form.enabled == "on");
    site := site.(httpToHttps := form.httpToHttps == "on");
    site := site.(webSocket := form.webSocket == "on");
    site := site.(blockCommonExploits := form.blockCommonExploits == "on");
    site := site.(tls := site.tls.(auto := form.tlsAuto == "on"));
  }

  method MergeLimit(existing: Site, form: FormData) returns (site: Site)
    ensures site == existing.(rateLimit := MergedLimit(existing.rateLimit, form))
  {
    hide Decimal.ParseInt;
    site := existing.(rateLimit := existing.rateLimit.(enabled := form.rlEnabled == "on"));
    var rps := Decimal.ParseInt(form.rlRps);
    if rps.Some? {
      site := site.(rateLimit := site.rateLimit.(rps := rps.value));
    }
    var burst := Decimal.ParseInt(form.rlBurst);
    if burst.Some? {
      site := site.(rateLimit := site.rateLimit.(burst := burst.value));
    }
  }

  function MergedLimit(limit: RateLimitConfig, form: FormData): RateLimitConfig {
    var rps := Decimal.ParseInt(form.rlRps);
    var burst := Decimal.ParseInt(form.rlBurst);
    RateLimitConfig(form.rlEnabled == "on",
                    if rps.Some? then rps.value else limit.rps, if burst.Some? then burst.value else limit.burst)
  }

  function Merged(site: Site, form: FormData): Site {
    site.(
      domain := Text.TrimSpace(form.domain),
      aliases := WordsOf(form.aliases),
      upstreams := LinesOf(form.upstreams),
      enabled := form.enabled == "on",
      httpToHttps := form.httpToHttps == "on",
      webSocket := form.webSocket == "on",
      blockCommonExploits := form.blockCommonExploits == "on",
      tls := site.tls.(auto := form.tlsAuto == "on"),
      rateLimit := MergedLimit(site.rateLimit, form))
  }

  function Box(checked: bool): string {
    if checked then "on" else ""
  }

  /** A one-line text input has no line breaks; the browser strips them from its value. */
  function OneLine(s: string): (r: string)
    ensures '\n' !in r && '\r' !in r
    ensures '\n' !in s && '\r' !in s ==> r == s
  {
    if s == [] then []
    else
      assert '\n' !in s && '\r' !in s ==> '\n' !in s[1..] && '\r' !in s[1..];
      (if s[0] == '\n' || s[0] == '\r' then [] else [s[0]]) + OneLine(s[1..])
  }

  lemma OneLineAppend(s: string, c: char)
    ensures OneLine("") == ""
    ensures OneLine([c] + s) == if c == '\n' || c == '\r' then OneLine(s) else [c] + OneLine(s)
  {
    assert ([c] + s)[1..] == s;
  }

  /** What the browser submits for the unchanged form of an existing site, whose domain is
      read-only: nothing for a negative number or without an upstream. */
  function Submitted(site: Site, eol: string): Option<FormData> {
    var upstreams := Join(site.upstreams, eol);
    if upstreams == "" || site.rateLimit.rps < 0 || site.rateLimit.burst < 0 then None
    else Some(FormData(
                OneLine(site.domain), OneLine(Join(site.aliases, " ")), upstreams,
                Box(site.enabled), Box(site.httpToHttps), Box(site.webSocket), Box(site.blockCommonExploits),
                Box(site.tls.auto), Box(site.rateLimit.enabled),
                Decimal.Print(site.rateLimit.rps), Decimal.Print(site.rateLimit.burst)))
  }

  lemma SubmittedIff(site: Site, eol: string)
    ensures Submitted(site, eol) == None
            <==> Join(site.upstreams, eol) == "" || site.rateLimit.rps < 0 || site.rateLimit.burst < 0
  {
  }

  lemma {:induction false} JoinedWords(words: seq<string>)
    requires forall w | w in words :: IsWord(w)
    ensures OneLine(Join(words, " ")) == Join(words, " ")
  {
    hide OneLine;
    WordsHaveNoBreaks(words);
  }

  lemma {:induction false} WordsHaveNoBreaks(words: seq<string>)
    requires forall w | w in words :: IsWord(w)
    ensures '\n' !in Join(words, " ") && '\r' !in Join(words, " ")
    decreases |words|
  {
    if words == [] {
    } else {
      assert words[0] in words;
      assert forall w | w in words[1..] :: w in words;
      assert Text.IsSpace('\n') && Text.IsSpace('\r');
      WordsHaveNoBreaks(words[1..]);
    }
  }

  lemma AliasesRoundTripIff(words: seq<string>)
    ensures WordsOf(OneLine(Join(words, " "))) == words <==> forall w | w in words :: IsWord(w)
  {
    hide Join, Fields, NonEmpty, IsWord, OneLine;
    FieldsAreWords(OneLine(Join(words, " ")));
    NonEmptyAll(Fields(OneLine(Join(words, " "))));
    if forall w | w in words :: IsWord(w) {
      JoinedWords(words);
      WordsRoundTripIff(words);
    }
  }

  lemma DomainRoundTripIff(domain: string)
    ensures Text.TrimSpace(OneLine(domain)) == domain
            <==> Text.TrimSpace(domain) == domain && '\n' !in domain && '\r' !in domain
  {
    hide Text.TrimSpace, OneLine;
    TrimSpaceKeepsOut(OneLine(domain), '\n');
    TrimSpaceKeepsOut(OneLine(domain), '\r');
  }

  lemma JoinedLines(lines: seq<string>, eol: string)
    requires forall l | l in lines :: IsLine(l)
    ensures Join(lines, eol) == "" <==> lines == []
  {
    if lines != [] {
      assert IsLine(lines[0]);
    }
  }

  /** The unchanged form changes exactly what its three text fields do not carry. */
  lemma UnchangedFields(site: Site, eol: string)
    requires Submitted(site, eol).Some?
    requires site.rateLimit.rps <= Decimal.MAX_INT64 && site.rateLimit.burst <= Decimal.MAX_INT64
    ensures var form := Submitted(site, eol).value;
            Merged(site, form) == site.(domain := Text.TrimSpace(OneLine(site.domain)),
                                        aliases := WordsOf(OneLine(Join(site.aliases, " "))),
                                        upstreams := LinesOf(Join(site.upstreams, eol)))
  {
    hide Decimal.Print, Decimal.ParseInt, WordsOf, LinesOf, Join, Text.TrimSpace, OneLine;
    Decimal.ParseInverts(site.rateLimit.rps);
    Decimal.ParseInverts(site.rateLimit.burst);
  }

  /** The domain is one trimmed line, the aliases are words and the upstreams trimmed lines. */
  ghost predicate SurvivesRendering(site: Site) {
    && Text.TrimSpace(site.domain) == site.domain && '\n' !in site.domain && '\r' !in site.domain
    && (forall a | a in site.aliases :: IsWord(a))
    && (forall u | u in site.upstreams :: IsLine(u))
  }

  /** Submitting the unchanged form passes the browser and the validation and keeps the site,
      headers, certificate paths and file name included, exactly if the site is valid, its text
      fields survive rendering and no number is negative. */
  lemma FormRoundTripIff(parse: U.UrlParser, site: Site, eol: string)
    requires eol == "\n" || eol == "\r\n"
    requires site.rateLimit.rps <= Decimal.MAX_INT64 && site.rateLimit.burst <= Decimal.MAX_INT64
    ensures var form := Submitted(site, eol);
            form.Some? && Validate(parse, Merged(site, form.value)) == None && Merged(site, form.value) == site
            <==>
            && Validate(parse, site) == None && SurvivesRendering(site)
            && site.rateLimit.rps >= 0 && site.rateLimit.burst >= 0
  {
    hide WordsOf, LinesOf, Join, IsWord, IsLine, Text.TrimSpace, OneLine, Merged;
    DomainRoundTripIff(site.domain);
    AliasesRoundTripIff(site.aliases);
    LinesRoundTripIff(site.upstreams, eol);
    if forall u | u in site.upstreams :: IsLine(u) {
      JoinedLines(site.upstreams, eol);
    }
    if Submitted(site, eol).Some? {
      UnchangedFields(site, eol);
    }
    ValidHasUpstream(parse, site);
  }

  lemma ValidHasUpstream(parse: U.UrlParser, site: Site)
    ensures Validate(parse, site) == None ==> site.upstreams != []
  {
  }

  // ---------------------------------------------------------------------------
  // Saving what was submitted
  // ---------------------------------------------------------------------------

  /** Merges a submission and saves the result. If what was submitted is the unchanged form of
      a valid site that survives rendering, and the file system does its part, the site's file
      loads afterwards as that very site. */
  method CreateOrUpdateSite(dir: Directory, parse: U.UrlParser, existing: Option<Site>, form: FormData, fate: Fate)
    returns (r: Result<string, SaveError>)
    modifies dir
    ensures var site := Merged(if existing.Some? then existing.value else NEW_SITE, form);
            && (r.Err? <==> SaveOutcome(parse, site, fate).Some?)
            && (r.Err? ==> Some(r.error) == SaveOutcome(parse, site, fate)
                           && Loaded(parse, dir.entries) == Loaded(parse, old(dir.entries)))
            && (r.Ok? ==>
                  && LoadSiteFile(parse, Readable(dir.entries), r.value) == Ok(site.(filename := r.value))
                  && (forall n | SiteName(n) && n != r.value ::
                        LoadSiteFile(parse, Readable(dir.entries), n) == LoadSiteFile(parse, Readable(old(dir.entries)), n)))
    ensures forall eol | existing.Some? && Unchanged(parse, existing.value, form, eol) && fate == Fate(true, Written, true) ::
              && r == Ok(existing.value.filename)
              && LoadSiteFile(parse, Readable(dir.entries), r.value) == Ok(existing.value)
  {
    hide Merged, Loaded, LoadSiteFile, SiteName, Unchanged, Validate;
    var site := MergeForm(existing, form);
    forall eol | existing.Some? && Unchanged(parse, existing.value, form, eol)
      ensures site == existing.value && Validate(parse, site) == None && site.filename != ""
    {
      UnchangedIsKept(parse, existing.value, form, eol);
    }
    assert site.filename != "" ==> site.(filename := site.filename) == site;
    r := SaveSite(dir, parse, site, fate);
  }

  /** The form is the unchanged one of a stored site that comes back. */
  ghost predicate Unchanged(parse: U.UrlParser, site: Site, form: FormData, eol: string) {
    && (eol == "\n" || eol == "\r\n") && Submitted(site, eol) == Some(form)
    && site.filename != "" && Validate(parse, site) == None && SurvivesRendering(site)
    && site.rateLimit.rps <= Decimal.MAX_INT64 && site.rateLimit.burst <= Decimal.MAX_INT64
  }

  lemma UnchangedIsKept(parse: U.UrlParser, site: Site, form: FormData, eol: string)
    requires Unchanged(parse, site, form, eol)
    ensures Merged(site, form) == site && Validate(parse, site) == None && site.filename != ""
  {
    hide Merged, Validate, SurvivesRendering;
    FormRoundTripIff(parse, site, eol);
  }
}
