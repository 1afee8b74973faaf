/** Decimal printing and parsing of 64-bit integers, as fmt and strconv do it. */
module Decimal {
  import opened Wrappers

  const MAX_INT64: int := 0x7fff_ffff_ffff_ffff
  const MIN_INT64: int := -0x8000_0000_0000_0000

  function Digit(d: nat): char
    requires d < 10
  {
    ('0' as int + d) as char
  }

  function Digits(n: nat): (s: string)
    ensures s != []
    ensures forall i | 0 <= i < |s| :: '0' <= s[i] <= '9'
    ensures |s| > 1 ==> s[0] != '0'
    ensures s[0] == '0' ==> n == 0
  {
    if n < 10 then [Digit(n)] else Digits(n / 10) + [Digit(n % 10)]
  }

  function Print(i: int): string {
    if i < 0 then "-" + Digits(-i) else Digits(i)
  }

  /** Only negative numbers have a sign. */
  lemma PrintIs(i: int)
    ensures Print(i) != "" && (Print(i)[0] == '-' <==> i < 0)
    ensures i < 0 ==> Print(i) == "-" + Print(-i)
  {
  }

  function ParseDigits(s: string): Option<nat> {
    if s == [] || !('0' <= s[|s| - 1] <= '9') then None
    else
      var d: nat := s[|s| - 1] as int - '0' as int;
      if |s| == 1 then Some(d)
      else
        match ParseDigits(s[..|s| - 1])
        case None => None
        case Some(n) => Some(10 * n + d)
  }

  /** An optional sign, then digits; out of range is an error. */
  function ParseInt(s: string): Option<int> {
    var negative := s != [] && s[0] == '-';
    var digits := if s != [] && (s[0] == '-' || s[0] == '+') then s[1..] else s;
    match ParseDigits(digits)
    case None => None
    case Some(n) =>
      var i: int := if negative then 0 - n else n;
      if MIN_INT64 <= i <= MAX_INT64 then Some(i) else None
  }

  /** Digits are read from the left, each adding its value to ten times what came before it. */
  lemma ParseDigitsAppend(s: string, c: char)
    ensures ParseDigits("") == None
    ensures '0' <= c <= '9' ==>
              ParseDigits(s + [c])
              == if s == [] then Some(c as int - 48)
                 else if ParseDigits(s).Some? then Some(10 * ParseDigits(s).value + c as int - 48) else None
    ensures !('0' <= c <= '9') ==> ParseDigits(s + [c]) == None
  {
    assert (s + [c])[..|s|] == s;
  }

  /** Nothing but digits is read. */
  lemma {:induction false} ParseDigitsIff(s: string)
    ensures ParseDigits(s).Some? <==> s != [] && forall i | 0 <= i < |s| :: '0' <= s[i] <= '9'
    decreases |s|
  {
    if |s| <= 1 {
    } else {
      ParseDigitsIff(s[..|s| - 1]);
    }
  }

  /** One sign may come first; a value that does not fit 64 bits is refused. */
  lemma ParseIntIs(s: string)
    ensures s == "" || (s[0] != '+' && s[0] != '-') ==> ParseInt(s) == Fitting(ParseDigits(s), 1)
    ensures ParseInt("+" + s) == Fitting(ParseDigits(s), 1)
    ensures ParseInt("-" + s) == Fitting(ParseDigits(s), -1)
  {
    hide ParseDigits;
    assert ("+" + s)[1..] == s && ("-" + s)[1..] == s;
  }

  ghost function Fitting(n: Option<nat>, sign: int): Option<int> {
    if n.Some? && -0x8000_0000_0000_0000 <= n.value * sign <= 0x7fff_ffff_ffff_ffff then Some(n.value * sign) else None
  }

  lemma {:induction false} ParseDigitsInverts(n: nat)
    ensures ParseDigits(Digits(n)) == Some(n)
    decreases n
  {
    if n >= 10 {
      ParseDigitsInverts(n / 10);
      assert Digits(n)[..|Digits(n)| - 1] == Digits(n / 10);
    }
  }

  lemma ParseInverts(i: int)
    requires MIN_INT64 <= i <= MAX_INT64
    ensures ParseInt(Print(i)) == Some(i)
  {
    hide Digits, ParseDigits;
    var n := if i < 0 then -i else i;
    ParseDigitsInverts(n);
    var digits := Digits(n);
    assert '0' <= digits[0] <= '9';
    if i < 0 {
      assert Print(i)[1..] == digits;
    }
  }
}
