/** Session cookies of the admin UI, internal/auth/auth.go. */
module Auth {
  import opened Wrappers
  import Decimal
  import Text

  /** 24 hours, in seconds. */
  const SESSION_MAX_AGE: int := 86_400

  /** The keyed signature and the cookie encoding, base64url without padding. */
  datatype Crypto = Crypto(sign: string -> string, encode: string -> string, decode: string -> Option<string>)

  /** Signatures are base64url text, so they have no dot, and decoding inverts encoding
      (section 5 of RFC 4648). */
  ghost predicate Sound(c: Crypto) {
    && (forall p :: '.' !in c.sign(p))
    && (forall s :: c.decode(c.encode(s)) == Some(s))
  }

  datatype Admin = Admin(username: string, passwordHash: string)

  datatype AuthError = NoAdmins | EmptyField(username: string) | SecretTooShort | NoRandomness | KeyNotWritten

  datatype Manager = Manager(admins: map<string, string>, crypto: Crypto)

  /** The password hashes by lowercased name; a later admin replaces an earlier one. */
  function HashesOf(admins: seq<Admin>): map<string, string> {
    if admins == [] then map[]
    else
      var a := admins[|admins| - 1];
      HashesOf(admins[..|admins| - 1])[Text.ToLower(a.username) := a.passwordHash]
  }

  /** The last admin of a name decides its password. */
  lemma {:induction false} HashesAre(admins: seq<Admin>, name: string)
    ensures name in HashesOf(admins) <==> exists i :: 0 <= i < |admins| && Text.ToLower(admins[i].username) == name
    ensures forall i | 0 <= i < |admins| && Text.ToLower(admins[i].username) == name
              && (forall j | i < j < |admins| :: Text.ToLower(admins[j].username) != name) ::
              name in HashesOf(admins) && HashesOf(admins)[name] == admins[i].passwordHash
    decreases |admins|
  {
    hide Text.ToLower;
    if admins == [] {
    } else {
      var n := |admins| - 1;
      HashesAre(admins[..n], name);
      assert forall i | 0 <= i < n :: admins[..n][i] == admins[i];
    }
  }

  const MIN_SECRET := 32

  /** The secret and the content of the key file afterwards: the configured secret, else the
      stored one, else a generated one that is stored. */
  function ResolveSecret(configured: string, keyFile: Option<string>, generated: Option<string>, writable: bool)
    : (r: Result<(string, Option<string>), AuthError>)
    ensures r.Err? <==>
              if configured != "" then |configured| < MIN_SECRET
              else (keyFile == None || |keyFile.value| < MIN_SECRET) && (generated == None || !writable)
    ensures configured != "" && |configured| >= 32 ==> r == Ok((configured, keyFile))
    ensures configured != "" && |configured| < 32 ==> r == Err(SecretTooShort)
    ensures configured == "" && keyFile.Some? && |keyFile.value| >= 32 ==> r == Ok((keyFile.value, keyFile))
    ensures configured == "" && (keyFile == None || |keyFile.value| < 32) ==>
              r == match generated
                   case None => Err(NoRandomness)
                   case Some(key) => if writable then Ok((key, Some(key))) else Err(KeyNotWritten)
  {
    if configured != "" then
      if |configured| < MIN_SECRET then Err(SecretTooShort) else Ok((configured, keyFile))
    else if keyFile.Some? && |keyFile.value| >= MIN_SECRET then Ok((keyFile.value, keyFile))
    else if generated == None then Err(NoRandomness)
    else if !writable then Err(KeyNotWritten)
    else Ok((generated.value, generated))
  }

  /** Whatever would be generated or could be written then, a restart finds the same secret,
      so sessions survive it. */
  lemma SecretSurvivesRestart(configured: string, keyFile: Option<string>, generated: Option<string>, writable: bool,
                              generated': Option<string>, writable': bool)
    requires generated.Some? ==> |generated.value| >= MIN_SECRET
    requires ResolveSecret(configured, keyFile, generated, writable).Ok?
    ensures var first := ResolveSecret(configured, keyFile, generated, writable);
            ResolveSecret(configured, first.value.1, generated', writable') == first
  {
  }

  /** Fails on the first admin with an empty field, or if there is no usable secret; afterwards
      no session can belong to the empty name, which stands for "not authenticated". */
  method New(admins: seq<Admin>, configured: string, keyFile: Option<string>, generated: Option<string>, writable: bool,
             keyed: string -> Crypto) returns (r: Result<Manager, AuthError>, stored: Option<string>)
    ensures var secret := ResolveSecret(configured, keyFile, generated, writable);
            && (r.Ok? <==> admins != [] && (forall a | a in admins :: a.username != "" && a.passwordHash != "") && secret.Ok?)
            && (r.Ok? ==>
                  && r.value == Manager(HashesOf(admins), keyed(secret.value.0)) && "" !in r.value.admins
                  && stored == secret.value.1)
            && (r.Err? ==> stored == keyFile)
            && (admins == [] ==> r == Err(NoAdmins))
            && (r.Err? && admins != [] && (forall a | a in admins :: a.username != "" && a.passwordHash != "") ==>
                  r.error == secret.error)
            && (admins != [] && !(forall a | a in admins :: a.username != "" && a.passwordHash != "") ==>
                  exists k :: 0 <= k < |admins| && r == Err(EmptyField(admins[k].username))
                    && (admins[k].username == "" || admins[k].passwordHash == "")
                    && forall j | 0 <= j < k :: admins[j].username != "" && admins[j].passwordHash != "")
  {
    stored := keyFile;
    if |admins| == 0 {
      return Err(NoAdmins), stored;
    }
    var hashes := map[];
    for i := 0 to |admins|
      invariant hashes == HashesOf(admins[..i])
      invariant forall j | 0 <= j < i :: admins[j].username != "" && admins[j].passwordHash != ""
      invariant "" !in hashes
    {
      var a := admins[i];
      if a.username == "" || a.passwordHash == "" {
        assert a in admins;
        return Err(EmptyField(a.username)), stored;
      }
      assert admins[..i + 1][..i] == admins[..i];
      hashes := hashes[Text.ToLower(a.username) := a.passwordHash];
    }
    assert admins[..|admins|] == admins;
    var secret := ResolveSecret(configured, keyFile, generated, writable);
    if secret.Err? {
      return Err(secret.error), stored;
    }
    return Ok(Manager(hashes, keyed(secret.value.0))), secret.value.1;
  }

  /** The cookie value issued at second `now`. */
  function CookieFor(m: Manager, username: string, now: int): string {
    var payload := Text.ToLower(username) + "." + Decimal.Print(now + SESSION_MAX_AGE);
    m.crypto.encode(payload + "." + m.crypto.sign(payload))
  }

  /** Splits at the first c. */
  function Cut(s: string, c: char): (r: Option<(string, string)>)
    ensures r == None <==> c !in s
    ensures r.Some? ==> s == r.value.0 + [c] + r.value.1 && c !in r.value.0
  {
    if s == [] then None
    else if s[0] == c then Some(([], s[1..]))
    else
      match Cut(s[1..], c)
      case None => None
      case Some((a, b)) =>
        assert s == [s[0]] + a + [c] + b;
        Some(([s[0]] + a, b))
  }

  /** Three parts at the first two dots, the last part keeping any further dots. */
  function SplitInThree(s: string): Option<(string, string, string)> {
    match Cut(s, '.')
    case None => None
    case Some((a, rest)) =>
      match Cut(rest, '.')
      case None => None
      case Some((b, c)) => Some((a, b, c))
  }

  /** The user of a valid session at second `now`, or the empty string. */
  function Authenticated(m: Manager, cookie: Option<string>, now: int): string {
    if cookie == None then ""
    else
      var raw := m.crypto.decode(cookie.value);
      if raw == None then ""
      else
        var parts := SplitInThree(raw.value);
        if parts == None then "" else Check(m, parts.value.0, parts.value.1, parts.value.2, now)
  }

  function Check(m: Manager, username: string, expStr: string, sig: string, now: int): string {
    var exp := Decimal.ParseInt(expStr);
    if exp == None || now >= exp.value then ""
    else if sig != m.crypto.sign(username + "." + expStr) then ""
    else if username !in m.admins then ""
    else username
  }

  // ---------------------------------------------------------------------------
  // Splitting
  // ---------------------------------------------------------------------------

  lemma {:induction false} CutUnique(a: string, b: string, c: char)
    requires c !in a
    ensures Cut(a + [c] + b, c) == Some((a, b))
    decreases |a|
  {
    var s := a + [c] + b;
    if a == [] {
      assert s[1..] == b;
    } else {
      assert s[1..] == a[1..] + [c] + b;
      CutUnique(a[1..], b, c);
      assert a == [a[0]] + a[1..];
    }
  }

  lemma SplitUnique(a: string, b: string, c: string)
    requires '.' !in a && '.' !in b
    ensures SplitInThree(a + "." + b + "." + c) == Some((a, b, c))
  {
    hide Cut;
    assert a + "." + b + "." + c == a + "." + (b + "." + c);
    CutUnique(a, b + "." + c, '.');
    CutUnique(b, c, '.');
  }

  /** Text after the first dot stays after the first dot. */
  lemma {:induction false} CutPrefix(s: string, tail: string)
    requires '.' in s
    ensures var r := Cut(s, '.'); r.Some? && Cut(s + tail, '.') == Some((r.value.0, r.value.1 + tail))
    decreases |s|
  {
    assert (s + tail)[1..] == s[1..] + tail;
    if s[0] != '.' {
      assert s == [s[0]] + s[1..];
      CutPrefix(s[1..], tail);
    }
  }

  lemma DottedNameSplits(u: string, e: string, g: string)
    requires '.' in u
    ensures var parts := SplitInThree(u + "." + e + "." + g); parts.Some? && '.' in parts.value.2
  {
    hide Cut;
    var tail := "." + (e + "." + g);
    assert u + "." + e + "." + g == u + tail;
    CutPrefix(u, tail);
    var b := Cut(u, '.').value.1;
    assert (e + "." + g)[|e|] == '.';
    if '.' in b {
      CutPrefix(b, tail);
      assert '.' in tail;
    } else {
      assert b + tail == b + "." + (e + "." + g);
      CutUnique(b, e + "." + g, '.');
    }
  }

  // ---------------------------------------------------------------------------
  // The cookie
  // ---------------------------------------------------------------------------

  /** Exactly which cookies are accepted for user u: those that carry u, an expiry in the
      future and the signature of both. */
  lemma AcceptedIff(m: Manager, value: string, now: int, u: string)
    requires u != ""
    ensures Authenticated(m, Some(value), now) == u
            <==> exists e ::
                   && '.' !in u && '.' !in e && u in m.admins
                   && Decimal.ParseInt(e).Some? && now < Decimal.ParseInt(e).value
                   && m.crypto.decode(value) == Some(u + "." + e + "." + m.crypto.sign(u + "." + e))
  {
    hide Decimal.ParseInt;
    if Authenticated(m, Some(value), now) == u {
      var raw := m.crypto.decode(value).value;
      var (a, e, g) := SplitInThree(raw).value;
      assert raw == u + "." + e + "." + g;
    }
    forall e |
      && '.' !in u && '.' !in e && u in m.admins
      && Decimal.ParseInt(e).Some? && now < Decimal.ParseInt(e).value
      && m.crypto.decode(value) == Some(u + "." + e + "." + m.crypto.sign(u + "." + e))
      ensures Authenticated(m, Some(value), now) == u
    {
      SplitUnique(u, e, m.crypto.sign(u + "." + e));
    }
  }

  /** An issued cookie carries the lowercased name, the second 24 hours later and the signature
      of both. */
  lemma CookieCarries(m: Manager, username: string, now: int)
    requires Sound(m.crypto)
    ensures var payload := Text.ToLower(username) + "." + Decimal.Print(now + 24 * 60 * 60);
            m.crypto.decode(CookieFor(m, username, now)) == Some(payload + "." + m.crypto.sign(payload))
  {
    hide Decimal.Print, Text.ToLower;
  }

  /** An issued cookie authenticates its user, lowercased, until it expires, exactly if that
      name is a configured one without a dot; a name with a dot never gets in. */
  lemma CookieRoundTrip(m: Manager, username: string, issued: int, now: int)
    requires Sound(m.crypto)
    requires 0 <= issued <= Decimal.MAX_INT64 - SESSION_MAX_AGE
    ensures var u := Text.ToLower(username);
            Authenticated(m, Some(CookieFor(m, username, issued)), now)
            == if '.' !in u && u in m.admins && now < issued + SESSION_MAX_AGE then u else ""
  {
    var u := Text.ToLower(username);
    var e := Decimal.Print(issued + SESSION_MAX_AGE);
    var g := m.crypto.sign(u + "." + e);
    Decimal.ParseInverts(issued + SESSION_MAX_AGE);
    assert '.' !in e;
    assert m.crypto.decode(CookieFor(m, username, issued)) == Some(u + "." + e + "." + g);
    hide Decimal.Print, Decimal.ParseInt, SplitInThree, Text.ToLower, CookieFor, Check;
    if '.' in u {
      DottedNameSplits(u, e, g);
      var parts := SplitInThree(u + "." + e + "." + g).value;
      DottedSignatureFails(m, parts.0, parts.1, parts.2, now);
    } else {
      SplitUnique(u, e, g);
      assert Authenticated(m, Some(CookieFor(m, username, issued)), now) == Check(m, u, e, g, now);
      CheckIssued(m, u, e, issued + SESSION_MAX_AGE, now);
    }
  }

  lemma DottedSignatureFails(m: Manager, u: string, e: string, sig: string, now: int)
    requires Sound(m.crypto) && '.' in sig
    ensures Check(m, u, e, sig, now) == ""
  {
  }

  lemma CheckIssued(m: Manager, u: string, e: string, exp: int, now: int)
    requires Decimal.ParseInt(e) == Some(exp)
    ensures Check(m, u, e, m.crypto.sign(u + "." + e), now) == if u in m.admins && now < exp then u else ""
  {
    hide Decimal.ParseInt;
  }

  lemma {:induction false} ConfiguredIsAdmin(admins: seq<Admin>, a: Admin)
    requires a in admins
    ensures Text.ToLower(a.username) in HashesOf(admins)
    decreases |admins|
  {
    var n := |admins| - 1;
    if admins[n] == a {
    } else {
      assert admins == admins[..n] + [admins[n]];
      ConfiguredIsAdmin(admins[..n], a);
    }
  }

  /** For a configured admin the session works before expiry if and only if the name has no dot. */
  lemma AdminSessionIff(m: Manager, admins: seq<Admin>, a: Admin, issued: int, now: int)
    requires Sound(m.crypto) && m.admins == HashesOf(admins) && a in admins && a.username != ""
    requires 0 <= issued <= Decimal.MAX_INT64 - SESSION_MAX_AGE && now < issued + SESSION_MAX_AGE
    ensures Authenticated(m, Some(CookieFor(m, a.username, issued)), now) == Text.ToLower(a.username)
            <==> '.' !in a.username
  {
    CookieRoundTrip(m, a.username, issued, now);
    ConfiguredIsAdmin(admins, a);
    var u := Text.ToLower(a.username);
    assert '.' in a.username ==> '.' in u by {
      if '.' in a.username {
        var i :| 0 <= i < |a.username| && a.username[i] == '.';
        assert u[i] == '.';
      }
    }
    assert '.' in u ==> '.' in a.username by {
      if '.' in u {
        var i :| 0 <= i < |u| && u[i] == '.';
        assert a.username[i] == '.';
      }
    }
    hide Text.ToLower, CookieFor, Authenticated;
  }
}
