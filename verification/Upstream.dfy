/** Round-robin over the upstreams of a site, internal/proxy/upstream.go. */
module Upstream {
  import opened Wrappers
  import Text

  /** The ticket counter is a uint64. */
  const WRAP: int := 0x1_0000_0000_0000_0000

  datatype Url = Url(scheme: string, host: string, path: string)

  /** net/url's Parse. */
  type UrlParser = string -> Option<Url>

  function ParseUpstream(parse: UrlParser, raw: string): Option<Url> {
    parse(if Text.Contains(raw, "://") then raw else "http://" + raw)
  }

  predicate PoolBuilds(parse: UrlParser, upstreams: seq<string>) {
    forall u | u in upstreams :: ParseUpstream(parse, u).Some?
  }

  class Pool {
    const upstreams: seq<Url>
    var next: int
    /** Index of the upstream chosen by each ticket so far. */
    ghost var picks: seq<nat>

    ghost predicate Valid()
      reads this
    {
      && next == |picks| % WRAP
      && (forall i | 0 <= i < |picks| :: upstreams != [] && picks[i] == (i % WRAP) % |upstreams|)
    }

    constructor (upstreams: seq<Url>)
      ensures Valid() && this.upstreams == upstreams && picks == []
    {
      this.upstreams, next, picks := upstreams, 0, [];
    }

    /** Ticket number |picks|, counted modulo 2^64, goes to upstream number ticket % size.
        An empty pool hands out no ticket. */
    method Next() returns (target: Option<Url>)
      requires Valid()
      modifies this
      ensures Valid()
      ensures upstreams == [] ==> target == None && picks == old(picks)
      ensures upstreams != [] ==>
                var n := (|old(picks)| % WRAP) % |upstreams|;
                target == Some(upstreams[n]) && picks == old(picks) + [n]
    {
      if |upstreams| == 0 {
        return None;
      }
      next := (next + 1) % WRAP;
      var n := (next - 1) % WRAP;
      CounterStep(|picks|);
      picks := picks + [n % |upstreams|];
      return Some(upstreams[n % |upstreams|]);
    }
  }

  lemma CounterStep(n: nat)
    ensures (n % WRAP + 1) % WRAP == (n + 1) % WRAP
    ensures ((n + 1) % WRAP - 1) % WRAP == n % WRAP
  {
  }

  /** A pool is built exactly when every upstream parses. */
  method NewPool(parse: UrlParser, upstreams: seq<string>) returns (p: Pool?)
    ensures p == null <==> !PoolBuilds(parse, upstreams)
    ensures p != null ==>
              && fresh(p) && p.Valid() && p.picks == []
              && |p.upstreams| == |upstreams|
              && (forall i | 0 <= i < |upstreams| :: ParseUpstream(parse, upstreams[i]) == Some(p.upstreams[i]))
              && forall i | 0 <= i < |upstreams| ::
                   Some(p.upstreams[i])
                   == parse(if exists a, b :: upstreams[i] == a + "://" + b then upstreams[i] else "http://" + upstreams[i])
  {
    hide Text.Contains;
    var urls: seq<Url> := [];
    for i := 0 to |upstreams|
      invariant |urls| == i
      invariant forall j | 0 <= j < i :: ParseUpstream(parse, upstreams[j]) == Some(urls[j])
    {
      var u := ParseUpstream(parse, upstreams[i]);
      if u.None? {
        assert upstreams[i] in upstreams;
        return null;
      }
      urls := urls + [u.value];
    }
    p := new Pool(urls);
    forall i | 0 <= i < |upstreams|
      ensures ParseUpstream(parse, upstreams[i])
              == parse(if exists a, b :: upstreams[i] == a + "://" + b then upstreams[i] else "http://" + upstreams[i])
    {
      Text.ContainsIff(upstreams[i], "://");
    }
  }

  // ---------------------------------------------------------------------------
  // Fairness
  // ---------------------------------------------------------------------------

  function Mod(n: int, k: int): int
    requires k > 0
  {
    n % k
  }

  /** How often upstream u of k is chosen by `len` consecutive tickets from `start` on,
      the ticket counter wrapping at 2^64. */
  ghost function Chosen(k: nat, u: nat, start: nat, len: nat): nat
    requires k > 0
  {
    if len == 0 then 0
    else Chosen(k, u, start, len - 1) + if Mod(Mod(start + len - 1, WRAP), k) == u then 1 else 0
  }

  /** How many of 0, 1, ..., n-1 are congruent to u modulo k. */
  ghost function Residues(k: nat, u: nat, n: nat): nat
    requires k > 0
  {
    if n == 0 then 0 else Residues(k, u, n - 1) + if Mod(n - 1, k) == u then 1 else 0
  }

  lemma MulGap(x: int, k: int)
    requires k > 0
    ensures x >= 1 ==> x * k >= k
    ensures x <= -1 ==> x * k <= -k
  {
  }

  lemma QuotientUnique(k: int, q: int, r: int, q': int, r': int)
    requires 0 <= r < k && 0 <= r' < k
    requires q * k + r == q' * k + r'
    ensures q == q' && r == r'
  {
    MulGap(q - q', k);
    assert (q - q') * k == r' - r;
  }

  lemma ModOf(k: int, n: int, q: int, r: int)
    requires 0 <= r < k && n == q * k + r
    ensures Mod(n, k) == r
  {
    QuotientUnique(k, q, r, n / k, n % k);
  }

  /** The quotient and remainder of n, as witnesses. */
  lemma Divide(n: nat, k: int) returns (q: nat, r: nat)
    requires k > 0
    ensures n == q * k + r && r < k && q == n / k && r == n % k == Mod(n, k)
  {
    q, r := n / k, n % k;
  }

  lemma {:induction false} ResiduesClosedForm(k: nat, u: nat, n: nat, q: nat, r: nat)
    requires u < k && r < k && n == q * k + r
    ensures Residues(k, u, n) == q + if u < r then 1 else 0
    decreases n
  {
    hide Mod;
    if r > 0 {
      ResiduesClosedForm(k, u, n - 1, q, r - 1);
      ModOf(k, n - 1, q, r - 1);
    } else if q > 0 {
      MulGap(q, k);
      assert (q - 1) * k == q * k - k;
      ResiduesClosedForm(k, u, n - 1, q - 1, k - 1);
      ModOf(k, n - 1, q - 1, k - 1);
    }
  }

  /** Among L = m * k + s consecutive numbers a residue occurs m times, or once more if s > 0. */
  lemma ResiduesInSegment(k: nat, u: nat, a: nat, b: nat, m: nat, s: nat)
    requires u < k && a <= b && s < k && b - a == m * k + s
    ensures m <= Residues(k, u, b) - Residues(k, u, a) <= m + if s > 0 then 1 else 0
  {
    hide *;
    var qa, ra := Divide(a, k);
    var qb, rb := Divide(b, k);
    ResiduesClosedForm(k, u, a, qa, ra);
    ResiduesClosedForm(k, u, b, qb, rb);
    SegmentQuotient(k, a, b, m, s, qa, ra, qb, rb);
  }

  lemma SegmentQuotient(k: int, a: int, b: int, m: int, s: int, qa: int, ra: int, qb: int, rb: int)
    requires 0 <= s < k && b - a == m * k + s
    requires 0 <= ra < k && a == qa * k + ra
    requires 0 <= rb < k && b == qb * k + rb
    ensures if ra <= rb then qb - qa == m && rb - ra == s else qb - qa == m + 1 && rb - ra == s - k
  {
    assert (m + qa) * k == m * k + qa * k;
    assert (m + qa + 1) * k == (m + qa) * k + k;
    if s + ra < k {
      QuotientUnique(k, qb, rb, m + qa, s + ra);
    } else {
      QuotientUnique(k, qb, rb, m + qa + 1, s + ra - k);
    }
  }

  lemma {:induction false} ChosenWithoutWrap(k: nat, u: nat, start: nat, len: nat)
    requires u < k && start + len <= WRAP
    ensures Chosen(k, u, start, len) == Residues(k, u, start + len) - Residues(k, u, start)
    decreases len
  {
    hide Mod;
    if len == 0 {
    } else {
      ChosenWithoutWrap(k, u, start, len - 1);
      ModOf(WRAP, start + len - 1, 0, start + len - 1);
    }
  }

  /** Tickets that do not cross 2^64 are shared out evenly: each upstream gets the floor or
      the ceiling of len / k. */
  lemma FairWithoutWrap(k: nat, u: nat, start: nat, len: nat)
    requires u < k && start + len <= WRAP
    ensures len / k <= Chosen(k, u, start, len) <= len / k + if len % k > 0 then 1 else 0
  {
    hide *;
    var m, s := Divide(len, k);
    ChosenWithoutWrap(k, u, start, len);
    ResiduesInSegment(k, u, start, start + len, m, s);
  }

  lemma {:induction false} ChosenSplits(k: nat, u: nat, start: nat, a: nat, b: nat)
    requires k > 0
    ensures Chosen(k, u, start, a + b) == Chosen(k, u, start, a) + Chosen(k, u, start + a, b)
    decreases b
  {
    hide Mod;
    if b == 0 {
    } else {
      ChosenSplits(k, u, start, a, b - 1);
    }
  }

  lemma {:induction false} ChosenPeriodic(k: nat, u: nat, start: nat, len: nat)
    requires k > 0
    ensures Chosen(k, u, start + WRAP, len) == Chosen(k, u, start, len)
    decreases len
  {
    hide Mod;
    if len == 0 {
    } else {
      ChosenPeriodic(k, u, start, len - 1);
      var q, r := Divide(start + len - 1, WRAP);
      ModOf(WRAP, start + WRAP + len - 1, q + 1, r);
    }
  }

  /** Across w wraps of the counter two upstreams differ by at most w + 1 choices. */
  lemma {:induction false} NearlyFairAcrossWraps(k: nat, u: nat, v: nat, start: nat, len: nat, wraps: nat)
    requires u < k && v < k && start < WRAP
    requires start + len <= (wraps + 1) * WRAP
    ensures Chosen(k, u, start, len) <= Chosen(k, v, start, len) + wraps + 1
    decreases wraps
  {
    hide *;
    if start + len <= WRAP {
      FairWithoutWrap(k, u, start, len);
      FairWithoutWrap(k, v, start, len);
    } else {
      var first := WRAP - start;
      ChosenSplits(k, u, start, first, len - first);
      ChosenSplits(k, v, start, first, len - first);
      FairWithoutWrap(k, u, start, first);
      FairWithoutWrap(k, v, start, first);
      ChosenPeriodic(k, u, 0, len - first);
      ChosenPeriodic(k, v, 0, len - first);
      NearlyFairAcrossWraps(k, u, v, 0, len - first, wraps - 1);
    }
  }

  /** When k divides 2^64 a wrap goes unnoticed. */
  lemma {:induction false} ChosenWhenDividing(k: nat, u: nat, start: nat, len: nat, c: nat)
    requires u < k && WRAP == c * k
    ensures Chosen(k, u, start, len) == Residues(k, u, start + len) - Residues(k, u, start)
    decreases len
  {
    hide Mod;
    if len == 0 {
    } else {
      ChosenWhenDividing(k, u, start, len - 1, c);
      var n := start + len - 1;
      var q, r := Divide(n, WRAP);
      var q', r' := Divide(r, k);
      assert q * (c * k) == (q * c) * k;
      assert (q * c + q') * k == (q * c) * k + q' * k;
      ModOf(k, n, q * c + q', r');
    }
  }

  /** Every window of tickets is shared out within one. */
  ghost predicate AlwaysFair(k: nat)
    requires k > 0
  {
    forall u: nat, v: nat, start: nat, len: nat | u < k && v < k ::
      Chosen(k, u, start, len) <= Chosen(k, v, start, len) + 1
  }

  lemma ChosenAroundWrap(k: nat, u: nat, q: nat, r: nat)
    requires 0 < r < k && WRAP == q * k + r && u < k
    ensures Chosen(k, u, WRAP - r, 2 * r) == if u < r then 2 else 0
  {
    hide *;
    MulGap(q, k);
    ChosenSplits(k, u, WRAP - r, r, r);
    ChosenPeriodic(k, u, 0, r);
    ChosenWithoutWrap(k, u, WRAP - r, r);
    ChosenWithoutWrap(k, u, 0, r);
    ResiduesClosedForm(k, u, WRAP, q, r);
    ResiduesClosedForm(k, u, WRAP - r, q, 0);
    ResiduesClosedForm(k, u, r, 0, r);
    ResiduesClosedForm(k, u, 0, 0, 0);
  }

  /** Round robin is fair across wraps exactly for pool sizes that divide 2^64: otherwise
      the residues below r = 2^64 mod k are served twice around the wrap before residue r. */
  lemma AlwaysFairIffDividing(k: nat)
    requires 0 < k < WRAP
    ensures AlwaysFair(k) <==> WRAP % k == 0
  {
    hide Chosen, Residues, Mod;
    var c, r := Divide(WRAP, k);
    if r == 0 {
      forall u: nat, v: nat, start: nat, len: nat | u < k && v < k
        ensures Chosen(k, u, start, len) <= Chosen(k, v, start, len) + 1
      {
        var m, s := Divide(len, k);
        ChosenWhenDividing(k, u, start, len, c);
        ChosenWhenDividing(k, v, start, len, c);
        ResiduesInSegment(k, u, start, start + len, m, s);
        ResiduesInSegment(k, v, start, start + len, m, s);
      }
    } else {
      ChosenAroundWrap(k, 0, c, r);
      ChosenAroundWrap(k, r, c, r);
    }
  }

  /** So three upstreams are not: the first is chosen twice in a row around the wrap. */
  lemma ThreeAreUnfair()
    ensures !AlwaysFair(3)
    ensures Chosen(3, 0, WRAP - 1, 2) == 2 && Chosen(3, 1, WRAP - 1, 2) == 0
  {
    hide Chosen;
    var q := WRAP / 3;
    ChosenAroundWrap(3, 0, q, 1);
    ChosenAroundWrap(3, 1, q, 1);
    AlwaysFairIffDividing(3);
  }

  /** The tickets handed out by a pool are those Chosen counts. */
  lemma {:induction false} PicksAreChosen(p: Pool, u: nat, lo: nat, hi: nat)
    requires p.Valid() && p.upstreams != [] && lo <= hi <= |p.picks|
    ensures Occurrences(p.picks[lo..hi], u) == Chosen(|p.upstreams|, u, lo, hi - lo)
    decreases hi
  {
    if lo >= hi {
    } else {
      assert p.picks[lo..hi][..hi - 1 - lo] == p.picks[lo..hi - 1];
      PicksAreChosen(p, u, lo, hi - 1);
    }
  }

  /** Occurrences are counted entry by entry, and so are choices ticket by ticket. */
  lemma OccurrencesAdd(s: seq<nat>, v: nat, u: nat)
    ensures Occurrences([], u) == 0
    ensures Occurrences(s + [v], u) == Occurrences(s, u) + if v == u then 1 else 0
  {
    assert (s + [v])[..|s|] == s;
  }

  ghost function Occurrences(s: seq<nat>, u: nat): nat {
    if s == [] then 0 else Occurrences(s[..|s| - 1], u) + if s[|s| - 1] == u then 1 else 0
  }
}
