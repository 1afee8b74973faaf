/** The string operations the program takes from its standard library, on ASCII letters. */
module Text {
  predicate OccursAt(s: string, part: string, i: nat) {
    i + |part| <= |s| && s[i..i + |part|] == part
  }

  predicate Contains(s: string, part: string) {
    exists i: nat | i <= |s| :: OccursAt(s, part, i)
  }

  lemma ContainsIff(s: string, part: string)
    ensures Contains(s, part) <==> exists a, b :: s == a + part + b
  {
    if Contains(s, part) {
      var i: nat :| i <= |s| && OccursAt(s, part, i);
      assert s == s[..i] + part + s[i + |part|..];
    }
    forall a, b | s == a + part + b
      ensures Contains(s, part)
    {
      assert OccursAt(s, part, |a|);
    }
  }

  predicate HasSuffix(s: string, suffix: string) {
    |s| >= |suffix| && s[|s| - |suffix|..] == suffix
  }

  lemma HasSuffixIff(s: string, suffix: string)
    ensures HasSuffix(s, suffix) <==> exists a :: s == a + suffix
  {
    if HasSuffix(s, suffix) {
      assert s == s[..|s| - |suffix|] + suffix;
    }
  }

  /** Index of the last c, or -1. */
  function LastIndex(s: string, c: char): (i: int)
    ensures -1 <= i < |s|
    ensures i >= 0 ==> s[i] == c && c !in s[i + 1..]
    ensures i < 0 ==> c !in s
  {
    if s == [] then -1
    else if s[|s| - 1] == c then |s| - 1
    else
      assert s == s[..|s| - 1] + [s[|s| - 1]];
      var i := LastIndex(s[..|s| - 1], c);
      assert i >= 0 ==> s[i + 1..] == s[..|s| - 1][i + 1..] + [s[|s| - 1]];
      i
  }

  function LowerChar(c: char): char {
    if 'A' <= c <= 'Z' then (c as int + 32) as char else c
  }

  function ToLower(s: string): (r: string)
    ensures |r| == |s|
    ensures forall i | 0 <= i < |s| :: r[i] == LowerChar(s[i])
  {
    if s == [] then [] else [LowerChar(s[0])] + ToLower(s[1..])
  }

  const UPPER: string := "ABCDEFGHIJKLMNOPQRSTUVWXYZ"
  const LOWER: string := "abcdefghijklmnopqrstuvwxyz"

  /** The capital letters become the small ones, everything else stays. */
  lemma ToLowerIs(s: string)
    ensures |ToLower(s)| == |s|
    ensures forall i, k | 0 <= i < |s| && 0 <= k < 26 && s[i] == UPPER[k] :: ToLower(s)[i] == LOWER[k]
    ensures forall i | 0 <= i < |s| && s[i] !in UPPER :: ToLower(s)[i] == s[i]
  {
    assert forall k | 0 <= k < 26 :: UPPER[k] as int == 65 + k && LOWER[k] as int == 97 + k;
    forall c: char | 'A' <= c <= 'Z'
      ensures c in UPPER
    {
      assert UPPER[c as int - 65] == c;
    }
  }

  lemma ToLowerIdempotent(s: string)
    ensures ToLower(ToLower(s)) == ToLower(s)
  {
    assert forall i | 0 <= i < |s| :: ToLower(ToLower(s))[i] == ToLower(s)[i];
  }

  /** The order of strings by their characters. */
  predicate Less(a: string, b: string) {
    b != [] && (a == [] || a[0] < b[0] || (a[0] == b[0] && Less(a[1..], b[1..])))
  }

  lemma {:induction false} LessAsymmetric(a: string, b: string)
    ensures !(Less(a, b) && Less(b, a))
    decreases |a|
  {
    if a != [] && b != [] && a[0] == b[0] {
      LessAsymmetric(a[1..], b[1..]);
    }
  }

  lemma {:induction false} LessTotal(a: string, b: string)
    ensures Less(a, b) || Less(b, a) || a == b
    decreases |a|
  {
    if a != [] && b != [] && a[0] == b[0] {
      LessTotal(a[1..], b[1..]);
    }
  }

  /** The first difference is at k, and a has the smaller character there. */
  predicate SmallerAt(a: string, b: string, k: int) {
    0 <= k < |a| && k < |b| && a[..k] == b[..k] && a[k] < b[k]
  }

  lemma SmallerAtNext(a: string, b: string, k: nat)
    requires a != [] && b != [] && a[0] == b[0]
    ensures SmallerAt(a, b, k + 1) <==> SmallerAt(a[1..], b[1..], k)
  {
    if k < |a[1..]| && k < |b[1..]| {
      assert a[..k + 1] == [a[0]] + a[1..][..k] && b[..k + 1] == [b[0]] + b[1..][..k];
    }
  }

  lemma PrefixNext(a: string, b: string)
    requires a != [] && b != [] && a[0] == b[0]
    ensures a < b <==> a[1..] < b[1..]
  {
    assert a == [a[0]] + a[1..] && b == [b[0]] + b[1..];
    if |a| < |b| {
      assert b[..|a|] == [b[0]] + b[1..][..|a| - 1];
    }
  }

  /** A proper prefix comes first, and otherwise the first difference decides. */
  lemma {:induction false} LessIff(a: string, b: string)
    ensures Less(a, b) <==> a < b || exists k :: SmallerAt(a, b, k)
    decreases |a|
  {
    if a == [] || b == [] {
    } else if a[0] != b[0] {
      FirstDiffers(a, b);
    } else {
      hide SmallerAt;
      LessIff(a[1..], b[1..]);
      PrefixNext(a, b);
      NotSmallerYet(a, b);
      if exists k :: SmallerAt(a[1..], b[1..], k) {
        var k :| SmallerAt(a[1..], b[1..], k);
        SmallerAtNext(a, b, k);
      }
      if exists k :: SmallerAt(a, b, k) {
        var k :| SmallerAt(a, b, k);
        SmallerAtNext(a, b, k - 1);
      }
    }
  }

  lemma NotSmallerYet(a: string, b: string)
    requires a != [] && b != [] && a[0] == b[0]
    ensures forall k | k <= 0 :: !SmallerAt(a, b, k)
    ensures forall k | k < 0 :: !SmallerAt(a[1..], b[1..], k)
  {
  }

  lemma FirstDiffers(a: string, b: string)
    requires a != [] && b != [] && a[0] != b[0]
    ensures Less(a, b) <==> a < b || exists k :: SmallerAt(a, b, k)
  {
    if a[0] < b[0] {
      assert SmallerAt(a, b, 0);
    }
    forall k | 0 < k < |a| && k < |b|
      ensures a[..k] != b[..k]
    {
      assert a[..k][0] != b[..k][0];
    }
  }

  lemma {:induction false} LessTransitive(a: string, b: string, c: string)
    requires Less(a, b) && Less(b, c)
    ensures Less(a, c)
    decreases |a|
  {
    if a != [] && b != [] && c != [] && a[0] == b[0] == c[0] {
      LessTransitive(a[1..], b[1..], c[1..]);
    }
  }

  /** White space as Unicode defines it. */
  predicate IsSpace(c: char) {
    var n := c as int;
    || (9 <= n <= 13) || n == 32 || n == 0x85 || n == 0xA0 || n == 0x1680
    || (0x2000 <= n <= 0x200A) || n == 0x2028 || n == 0x2029 || n == 0x202F || n == 0x205F || n == 0x3000
  }

  const SPACES: set<int> := {
    0x09, 0x0A, 0x0B, 0x0C, 0x0D, 0x20, 0x85, 0xA0, 0x1680,
    0x2000, 0x2001, 0x2002, 0x2003, 0x2004, 0x2005, 0x2006, 0x2007, 0x2008, 0x2009, 0x200A,
    0x2028, 0x2029, 0x202F, 0x205F, 0x3000}

  lemma SpacesAre(c: char)
    ensures IsSpace(c) <==> c as int in SPACES
  {
  }

  function TrimLeft(s: string): (r: string)
    ensures r == [] || !IsSpace(r[0])
    ensures |r| <= |s| && r == s[|s| - |r|..]
    ensures forall i | 0 <= i < |s| - |r| :: IsSpace(s[i])
  {
    if s != [] && IsSpace(s[0]) then TrimLeft(s[1..]) else s
  }

  function TrimRight(s: string): (r: string)
    ensures r == [] || !IsSpace(r[|r| - 1])
    ensures r <= s
    ensures forall i | |r| <= i < |s| :: IsSpace(s[i])
  {
    if s != [] && IsSpace(s[|s| - 1]) then TrimRight(s[..|s| - 1]) else s
  }

  function TrimSpace(s: string): string {
    TrimRight(TrimLeft(s))
  }

  /** r is what is left of s when white space is taken away at both ends. */
  ghost predicate IsTrimmed(s: string, lead: string, r: string, tail: string) {
    && s == lead + r + tail
    && (forall c | c in lead :: IsSpace(c)) && (forall c | c in tail :: IsSpace(c))
    && (r != "" ==> !IsSpace(r[0]) && !IsSpace(r[|r| - 1]))
  }

  lemma TrimSpaceTrims(s: string) returns (lead: string, tail: string)
    ensures IsTrimmed(s, lead, TrimSpace(s), tail)
  {
    hide IsSpace, TrimLeft, TrimRight;
    var left := TrimLeft(s);
    var t := TrimRight(left);
    lead, tail := s[..|s| - |left|], left[|t|..];
    assert left == t + tail;
    assert s == lead + left;
    assert forall i | 0 <= i < |lead| :: lead[i] == s[i];
    assert forall i | 0 <= i < |tail| :: tail[i] == left[|t| + i];
    assert t != "" ==> t[0] == left[0];
  }

  lemma TrimSpaceIff(s: string, r: string)
    ensures r == TrimSpace(s) <==> exists lead, tail :: IsTrimmed(s, lead, r, tail)
  {
    hide TrimSpace, IsTrimmed;
    var lead, tail := TrimSpaceTrims(s);
    forall lead', tail' | IsTrimmed(s, lead', r, tail')
      ensures r == TrimSpace(s)
    {
      TrimUnique(s, lead, TrimSpace(s), tail, lead', r, tail');
    }
  }

  lemma TrimUnique(s: string, lead: string, t: string, tail: string, lead': string, r: string, tail': string)
    requires IsTrimmed(s, lead, t, tail) && IsTrimmed(s, lead', r, tail')
    ensures t == r
  {
    hide IsSpace;
    assert forall i | 0 <= i < |lead| :: s[i] == lead[i];
    assert forall i | 0 <= i < |t| :: s[|lead| + i] == t[i];
    assert forall i | 0 <= i < |tail| :: s[|lead| + |t| + i] == tail[i];
    assert forall i | 0 <= i < |lead'| :: s[i] == lead'[i];
    assert forall i | 0 <= i < |r| :: s[|lead'| + i] == r[i];
    assert forall i | 0 <= i < |tail'| :: s[|lead'| + |r| + i] == tail'[i];
    if t != "" && r != "" {
      assert s[|lead|] == t[0] && s[|lead'|] == r[0];
      assert s[|lead| + |t| - 1] == t[|t| - 1] && s[|lead'| + |r| - 1] == r[|r| - 1];
      assert |lead| == |lead'| && |t| == |r|;
      assert t == s[|lead|..|lead| + |t|] && r == s[|lead|..|lead| + |t|];
    }
  }

  lemma {:induction false} TrimSpaceEmptyIff(s: string)
    ensures TrimSpace(s) == "" <==> !(exists c :: c in s && !IsSpace(c))
  {
    var left := TrimLeft(s);
    var t := TrimRight(left);
    if t == "" {
      assert left == "";
    } else {
      assert t[|t| - 1] == left[|t| - 1] == s[|s| - |left| + |t| - 1];
      assert t[|t| - 1] in s && !IsSpace(t[|t| - 1]);
    }
  }

  // ---------------------------------------------------------------------------
  // Sorted names
  // ---------------------------------------------------------------------------

  predicate Ascending(s: seq<string>) {
    |s| < 2 || (Less(s[0], s[1]) && Ascending(s[1..]))
  }

  /** Adds a new name to an ordered list. */
  function Insert(x: string, s: seq<string>): (r: seq<string>)
    requires Ascending(s) && x !in s
    ensures Ascending(r) && forall y :: y in r <==> y == x || y in s
    ensures r != [] && (r[0] == x || (s != [] && r[0] == s[0]))
  {
    if s == [] || Less(x, s[0]) then [x] + s
    else
      LessTotal(x, s[0]);
      assert s == [s[0]] + s[1..];
      var rest := Insert(x, s[1..]);
      assert s[1..] != [] ==> s[1..][0] == s[1];
      [s[0]] + rest
  }

  lemma NothingAscends()
    ensures Ascending([])
  {
  }

  lemma SomeMember(s: set<string>)
    requires s != {}
    ensures exists d :: d in s
  {
    assert (forall d :: d !in s) ==> s == {};
  }
}
