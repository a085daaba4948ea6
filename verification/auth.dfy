/** Token storage and the client-side JWT checks of `src/lib/auth.ts`.

    A JSON Web Token (RFC 7519) is three dot-separated segments; the middle
    one is the claims set, encoded with the URL-safe base64 alphabet of
    section 5 of RFC 4648 and carrying the expiry time in seconds in its
    `exp` claim (section 4.1.4 of RFC 7519). The code decodes the segment
    with the browser's `atob`, which accepts only the standard alphabet of
    section 4 of RFC 4648. `atob` is modelled as its alphabet check followed
    by an abstract rest; `JSON.parse` is an abstract partial decoder. */
module Auth {
  import opened Types
  import opened Text

  /** The storage key the token lives under. */
  const TokenKey: string := "naruen_jwt"

  // ---------------------------------------------------------------------------
  // Storage

  /** Where the code runs: on the server there is no window and no storage;
      in the browser there is a string-to-string local storage. */
  datatype Env = Server | Browser(storage: map<string, string>)

  /** `getToken`: nothing on the server; the stored value in the browser. */
  function GetToken(env: Env): (t: Option<string>)
    ensures env.Server? ==> t.None?
    ensures env.Browser? ==> (t.Some? <==> TokenKey in env.storage)
    ensures env.Browser? && t.Some? ==> t.value == env.storage[TokenKey]
  {
    match env
    case Server => None
    case Browser(storage) => if TokenKey in storage then Some(storage[TokenKey]) else None
  }

  /** `setToken`: writes the token under its key. It has no window check, so
      on the server the storage access throws; that is `None`. */
  function SetToken(env: Env, token: string): (r: Option<Env>)
    ensures env.Server? <==> r.None?
    ensures env.Browser? ==> r == Some(Browser(env.storage[TokenKey := token]))
  {
    match env
    case Server => None
    case Browser(storage) => Some(Browser(storage[TokenKey := token]))
  }

  /** `clearToken`: removes the key; throws on the server like `setToken`. */
  function ClearToken(env: Env): (r: Option<Env>)
    ensures env.Server? <==> r.None?
    ensures env.Browser? ==> r == Some(Browser(env.storage - {TokenKey}))
  {
    match env
    case Server => None
    case Browser(storage) => Some(Browser(storage - {TokenKey}))
  }

  /** What is set is what is read back, what is cleared reads as nothing,
      and no other stored key is touched. */
  lemma StorageRoundTrip(storage: map<string, string>, token: string)
    ensures GetToken(SetToken(Browser(storage), token).value) == Some(token)
    ensures GetToken(ClearToken(Browser(storage)).value).None?
    ensures forall k :: k != TokenKey && k in storage ==>
      k in SetToken(Browser(storage), token).value.storage &&
      SetToken(Browser(storage), token).value.storage[k] == storage[k]
    ensures forall k :: k != TokenKey ==>
      (k in ClearToken(Browser(storage)).value.storage <==> k in storage)
  {
  }

  // ---------------------------------------------------------------------------
  // Decoding

  /** The number `payload.exp` converts to: a finite value or NaN (when the
      claim is missing or not numeric). */
  datatype Exp = Finite(seconds: real) | NotANumber

  /** What `JSON.parse` returns, as far as the checks look at it: `null`, or
      any other value with its `exp` converted to a number. */
  datatype Payload = NullPayload | Value(exp: Exp)

  /** Characters `atob` accepts: the standard base64 alphabet, padding, and
      ASCII white space (which it strips). */
  predicate AtobChar(c: char)
  {
    || ('A' <= c <= 'Z') || ('a' <= c <= 'z') || ('0' <= c <= '9')
    || c == '+' || c == '/' || c == '='
    || c == ' ' || c == '\t' || c == '\n' || c == '\U{000C}' || c == '\r'
  }

  predicate AtobAlphabet(s: string)
  {
    forall i :: 0 <= i < |s| ==> AtobChar(s[i])
  }

  /** `atob`: any character outside its alphabet makes it throw (`None`);
      otherwise `rest` stands for its remaining checks and the decoding. */
  function Atob(s: string, rest: string -> Option<string>): (r: Option<string>)
    ensures !AtobAlphabet(s) ==> r.None?
    ensures AtobAlphabet(s) ==> r == rest(s)
  {
    if AtobAlphabet(s) then rest(s) else None
  }

  /** The dot-separated segments of a token. */
  function Segments(token: string): (parts: seq<string>)
    ensures |parts| >= 1
  {
    Split(token, ".")
  }

  /** The step both checks share: three segments, the middle one decoded by
      `decode64` and then parsed; `None` when any step fails. */
  function PayloadOf(token: string, decode64: string -> Option<string>,
                     parse: string -> Option<Payload>): (p: Option<Payload>)
    ensures |Segments(token)| != 3 ==> p.None?
    ensures |Segments(token)| == 3 && decode64(Segments(token)[1]).None? ==> p.None?
    ensures |Segments(token)| == 3 && decode64(Segments(token)[1]).Some? ==>
      p == parse(decode64(Segments(token)[1]).value)
  {
    var parts := Segments(token);
    if |parts| != 3 then None
    else match decode64(parts[1])
      case None => None
      case Some(json) => parse(json)
  }

  /** The expiry decision on a decoded payload at `now` (milliseconds): a
      failed decode and a `null` payload count as expired (the property access
      throws); otherwise expired exactly when `exp * 1000 < now`, which NaN
      never is. */
  function ExpiredBy(p: Option<Payload>, now: real): (expired: bool)
    ensures p.None? || p == Some(NullPayload) ==> expired
    ensures p.Some? && p.value.Value? && p.value.exp.NotANumber? ==> !expired
    ensures p.Some? && p.value.Value? && p.value.exp.Finite? ==>
      (expired <==> p.value.exp.seconds * 1000.0 < now)
  {
    match p
    case None => true
    case Some(NullPayload) => true
    case Some(Value(NotANumber)) => false
    case Some(Value(Finite(seconds))) => seconds * 1000.0 < now
  }

  function StandardAtob(rest: string -> Option<string>): string -> Option<string>
  {
    s => Atob(s, rest)
  }

  /** `isTokenExpired` as written: the middle segment goes straight to `atob`. */
  function IsTokenExpired(token: string, now: real, rest: string -> Option<string>,
                          parse: string -> Option<Payload>): (expired: bool)
    ensures |Segments(token)| != 3 ==> expired
    ensures var p := PayloadOf(token, StandardAtob(rest), parse);
      && (p.None? || p == Some(NullPayload) ==> expired)
      && (p.Some? && p.value.Value? && p.value.exp.NotANumber? ==> !expired)
      && (p.Some? && p.value.Value? && p.value.exp.Finite? ==> (expired <==> p.value.exp.seconds * 1000.0 < now))
  {
    ExpiredBy(PayloadOf(token, StandardAtob(rest), parse), now)
  }

  /** `getTokenPayload`: the parsed payload, or nothing when any step fails
      or it parses to `null`. */
  function GetTokenPayload(token: string, rest: string -> Option<string>,
                           parse: string -> Option<Payload>): (p: Option<Payload>)
    ensures p.Some? ==> p.value.Value? && PayloadOf(token, StandardAtob(rest), parse) == p
    ensures p.None? ==> PayloadOf(token, StandardAtob(rest), parse) in {None, Some(NullPayload)}
  {
    var decoded := PayloadOf(token, StandardAtob(rest), parse);
    if decoded == Some(NullPayload) then None else decoded
  }

  /** A token without a payload is always expired, at any time. */
  lemma NoPayloadMeansExpired(token: string, now: real, rest: string -> Option<string>,
                              parse: string -> Option<Payload>)
    requires GetTokenPayload(token, rest, parse).None?
    ensures IsTokenExpired(token, now, rest, parse)
  {
  }

  /** A payload without a numeric expiry never expires, however late. */
  lemma MissingExpiryNeverExpires(token: string, now: real, rest: string -> Option<string>,
                                  parse: string -> Option<Payload>)
    requires PayloadOf(token, StandardAtob(rest), parse) == Some(Value(NotANumber))
    ensures !IsTokenExpired(token, now, rest, parse)
    ensures GetTokenPayload(token, rest, parse).Some?
  {
  }

  /** Expiry is monotone in time: once expired, a token stays expired. */
  lemma ExpiryMonotone(token: string, now: real, later: real, rest: string -> Option<string>,
                       parse: string -> Option<Payload>)
    requires now <= later
    requires IsTokenExpired(token, now, rest, parse)
    ensures IsTokenExpired(token, later, rest, parse)
  {
  }

  // ---------------------------------------------------------------------------
  // The URL-safe alphabet

  /** The two characters of the URL-safe alphabet that the standard one lacks. */
  predicate UrlOnly(c: char)
  {
    c == '-' || c == '_'
  }

  /** Characters of an unpadded URL-safe base64 segment. */
  predicate UrlChar(c: char)
  {
    ('A' <= c <= 'Z') || ('a' <= c <= 'z') || ('0' <= c <= '9') || UrlOnly(c)
  }

  /** As written, a token whose claims segment uses either URL-safe character
      counts as expired, whatever its `exp`. */
  lemma UrlSafePayloadCountsExpired(token: string, now: real, rest: string -> Option<string>,
                                    parse: string -> Option<Payload>, i: nat)
    requires |Segments(token)| == 3
    requires i < |Segments(token)[1]| && UrlOnly(Segments(token)[1][i])
    ensures IsTokenExpired(token, now, rest, parse)
  {
    assert !AtobChar(Segments(token)[1][i]);
  }

  /** Section 5 of RFC 4648 to section 4: `-` becomes `+` and `_` becomes `/`. */
  function FromUrlSafe(s: string): (r: string)
    ensures |r| == |s|
    ensures forall i :: 0 <= i < |s| ==>
      r[i] == (if s[i] == '-' then '+' else if s[i] == '_' then '/' else s[i])
  {
    seq(|s|, i requires 0 <= i < |s| => if s[i] == '-' then '+' else if s[i] == '_' then '/' else s[i])
  }

  function UrlSafeAtob(rest: string -> Option<string>): string -> Option<string>
  {
    s => Atob(FromUrlSafe(s), rest)
  }

  /** The expiry check with the claims segment translated to the standard
      alphabet before `atob`. */
  function IsTokenExpiredUrlSafe(token: string, now: real, rest: string -> Option<string>,
                                 parse: string -> Option<Payload>): (expired: bool)
    ensures |Segments(token)| != 3 ==> expired
    ensures var p := PayloadOf(token, UrlSafeAtob(rest), parse);
      && (p.None? || p == Some(NullPayload) ==> expired)
      && (p.Some? && p.value.Value? && p.value.exp.NotANumber? ==> !expired)
      && (p.Some? && p.value.Value? && p.value.exp.Finite? ==> (expired <==> p.value.exp.seconds * 1000.0 < now))
  {
    ExpiredBy(PayloadOf(token, UrlSafeAtob(rest), parse), now)
  }

  /** After translation, every URL-safe segment passes `atob`'s alphabet check,
      so the outcome rests on the payload alone. */
  lemma UrlSafeDecodes(s: string, rest: string -> Option<string>)
    requires forall i :: 0 <= i < |s| ==> UrlChar(s[i])
    ensures AtobAlphabet(FromUrlSafe(s))
    ensures UrlSafeAtob(rest)(s) == rest(FromUrlSafe(s))
  {
  }

  /** The corrected check agrees with the original on every token the
      original could read: translation changes nothing without `-` or `_`. */
  lemma UrlSafeAgreesOnStandardTokens(token: string, now: real, rest: string -> Option<string>,
                                      parse: string -> Option<Payload>)
    requires |Segments(token)| == 3
    requires forall i :: 0 <= i < |Segments(token)[1]| ==> !UrlOnly(Segments(token)[1][i])
    ensures IsTokenExpiredUrlSafe(token, now, rest, parse) == IsTokenExpired(token, now, rest, parse)
  {
    assert FromUrlSafe(Segments(token)[1]) == Segments(token)[1];
  }

  /** With the correction, a well-formed token whose claims decode to a
      future expiry is live, whichever characters its segment uses. */
  lemma UrlSafeLiveToken(token: string, now: real, rest: string -> Option<string>,
                         parse: string -> Option<Payload>, json: string, seconds: real)
    requires |Segments(token)| == 3
    requires forall i :: 0 <= i < |Segments(token)[1]| ==> UrlChar(Segments(token)[1][i])
    requires rest(FromUrlSafe(Segments(token)[1])) == Some(json)
    requires parse(json) == Some(Value(Finite(seconds))) && now <= seconds * 1000.0
    ensures !IsTokenExpiredUrlSafe(token, now, rest, parse)
  {
    UrlSafeDecodes(Segments(token)[1], rest);
  }
}
