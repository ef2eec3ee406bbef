/** The request utilities: the session token (`userId:expiry.signature`, not
    a JSON Web Token despite the class name), the registration validators and
    the `Authorization: Bearer` header reader.

    A `std::string` is a sequence of bytes, and so is every `string` here:
    one `char` per byte, so a character that UTF-8 encodes in two bytes is
    two `char`s. */
module Utils {
  import opened Wrappers
  import opened Text

  // ------------------------------------------------------------ tokens

  const SECONDS_PER_HOUR: int := 3600

  /** The expiry `generateToken` writes: now plus the configured number of
      hours. */
  function Expiry(now: int, expirationHours: int): int
  {
    now + expirationHours * SECONDS_PER_HOUR
  }

  /** `generateToken`: the payload `userId:expiry`, a dot, then the signature.
      The HMAC-SHA256 of the payload and its base64 text are the parameter
      `signature`; the clock and the configured lifetime are parameters too. */
  function GenerateToken(userId: string, now: int, expirationHours: int, signature: string): (token: string)
    ensures StartsWith(token, userId + ":")
    ensures |token| > |signature| && token[|token| - |signature|..] == signature
  {
    var payload := userId + ":" + Show(Expiry(now, expirationHours));
    var token := payload + "." + signature;
    assert token[..|userId + ":"|] == userId + ":";
    token
  }

  /** The expiry text of a payload, read by `std::stoll`. */
  function ExpiryOf(payload: string): Option<int>
  {
    ParseLeadingInt(After(payload, ':'), INT64_MIN, INT64_MAX)
  }

  /** `verifyToken` at time `now`: the user id is the text before the first
      ':' of the text before the first '.'; the rest of that prefix must read
      as a 64-bit integer (`std::stoll`) that is not before `now`. The
      signature after the dot is never examined. Each of the four failures
      happens exactly when the checks before it pass and its own fails. */
  function VerifyToken(token: string, now: int): (r: Result<string>)
    ensures '.' !in token <==> r == Failure(TokenNoDot)
    ensures var p := Before(token, '.');
      r == Failure(TokenNoColon) <==> '.' in token && ':' !in p
    ensures var p := Before(token, '.');
      r == Failure(TokenBadExpiry) <==> '.' in token && ':' in p && ExpiryOf(p).None?
    ensures var p := Before(token, '.');
      r == Failure(Expired) <==> '.' in token && ':' in p && ExpiryOf(p).Some? && now > ExpiryOf(p).value
    ensures var p := Before(token, '.');
      r.Success? <==> '.' in token && ':' in p && ExpiryOf(p).Some? && now <= ExpiryOf(p).value
    ensures r.Success? ==> r.value == Before(Before(token, '.'), ':')
    ensures r.Success? ==> ':' !in r.value && '.' !in r.value
    ensures r.Success? ==> StartsWith(token, r.value + ":")
  {
    match IndexOf(token, '.')
    case None => Failure(TokenNoDot)
    case Some(dot) =>
      var r := VerifyPayload(token[..dot], now);
      if r.Success? then PrefixOfPrefix(token, dot, |r.value| + 1); r else r
  }

  lemma PrefixOfPrefix(s: string, m: nat, n: nat)
    requires n <= m <= |s|
    ensures s[..m][..n] == s[..n]
  {
  }

  /** The checks `verifyToken` makes on the text before the first '.'. */
  function VerifyPayload(payload: string, now: int): (r: Result<string>)
    ensures r == Failure(TokenNoColon) <==> ':' !in payload
    ensures r == Failure(TokenBadExpiry) <==> ':' in payload && ExpiryOf(payload).None?
    ensures r == Failure(Expired) <==> ':' in payload && ExpiryOf(payload).Some? && now > ExpiryOf(payload).value
    ensures r.Success? <==> ':' in payload && ExpiryOf(payload).Some? && now <= ExpiryOf(payload).value
    ensures r.Success? ==> r.value == Before(payload, ':')
    ensures r.Success? ==> ':' !in r.value && |r.value| < |payload| && payload[..|r.value| + 1] == r.value + ":"
    ensures r.Success? && '.' !in payload ==> '.' !in r.value
  {
    match IndexOf(payload, ':')
    case None => Failure(TokenNoColon)
    case Some(colon) =>
      assert Before(payload, ':') == payload[..colon];
      assert ExpiryOf(payload) == ParseLeadingInt(payload[colon + 1..], INT64_MIN, INT64_MAX);
      match ParseLeadingInt(payload[colon + 1..], INT64_MIN, INT64_MAX)
      case None => Failure(TokenBadExpiry)
      case Some(expiry) =>
        if now > expiry then Failure(Expired)
        else
          UserPrefix(payload, colon);
          Success(payload[..colon])
  }

  /** The text before the first ':' has no ':', is followed by one, and has
      no '.' when the payload has none. */
  lemma UserPrefix(payload: string, colon: nat)
    requires colon < |payload| && payload[colon] == ':' && ':' !in payload[..colon]
    ensures payload[..colon + 1] == payload[..colon] + ":"
    ensures '.' !in payload ==> '.' !in payload[..colon]
  {
    assert forall i :: 0 <= i < colon ==> payload[..colon][i] == payload[i];
  }

  /** A token issued for an id without ':' or '.' verifies as that id until
      its expiry, and is refused as expired after it. */
  lemma TokenRoundTrip(userId: string, issued: int, expirationHours: int, signature: string, now: int)
    requires ':' !in userId && '.' !in userId
    requires INT64_MIN <= Expiry(issued, expirationHours) <= INT64_MAX
    ensures now <= Expiry(issued, expirationHours) ==>
      VerifyToken(GenerateToken(userId, issued, expirationHours, signature), now) == Success(userId)
    ensures now > Expiry(issued, expirationHours) ==>
      VerifyToken(GenerateToken(userId, issued, expirationHours, signature), now) == Failure(Expired)
  {
    var expiry := Show(Expiry(issued, expirationHours));
    var payload := userId + ":" + expiry;
    var token := payload + "." + signature;
    assert token == GenerateToken(userId, issued, expirationHours, signature);
    assert token[|payload|] == '.';
    assert '.' !in token[..|payload|] by {
      assert token[..|payload|] == payload;
    }
    assert IndexOf(token, '.') == Some(|payload|);
    assert token[..|payload|] == payload;
    assert payload[|userId|] == ':';
    assert payload[..|userId|] == userId;
    assert IndexOf(payload, ':') == Some(|userId|);
    assert payload[|userId| + 1..] == expiry + "";
    ParseShow(Expiry(issued, expirationHours), "", INT64_MIN, INT64_MAX);
  }

  /** The signature is not checked: any two tokens with the same payload get
      the same verdict. */
  lemma SignatureIgnored(payload: string, sig1: string, sig2: string, now: int)
    requires '.' !in payload
    ensures VerifyToken(payload + "." + sig1, now) == VerifyToken(payload + "." + sig2, now)
  {
    var t1 := payload + "." + sig1;
    var t2 := payload + "." + sig2;
    assert t1[|payload|] == '.' && t1[..|payload|] == payload;
    assert t2[|payload|] == '.' && t2[..|payload|] == payload;
    assert IndexOf(t1, '.') == Some(|payload|);
    assert IndexOf(t2, '.') == Some(|payload|);
  }

  // ------------------------------------------------------------ validation

  predicate EmailLocalChar(c: char) { IsAlnum(c) || c == '.' || c == '_' || c == '%' || c == '+' || c == '-' }

  predicate EmailDomainChar(c: char) { IsAlnum(c) || c == '.' || c == '-' }

  /** `email` splits as local part, '@' at `at`, domain, '.' at `dot`, and a
      top-level part: the pattern `[a-zA-Z0-9._%+-]+@[a-zA-Z0-9.-]+\.[a-zA-Z]{2,}`
      matched against the whole string. */
  predicate EmailSplitsAt(email: string, at: int, dot: int)
  {
    && 0 < at && at + 1 < dot && dot + 2 < |email|
    && email[at] == '@' && email[dot] == '.'
    && (forall i | 0 <= i < at :: EmailLocalChar(email[i]))
    && (forall i | at < i < dot :: EmailDomainChar(email[i]))
    && (forall i | dot < i < |email| :: IsLetter(email[i]))
  }

  /** What the regular expression accepts: some split exists. */
  ghost predicate EmailShape(email: string)
  {
    exists at, dot :: EmailSplitsAt(email, at, dot)
  }

  /** `validateEmail`: only one split can work, at the first '@' and the last
      '.', since neither character class admits '@' and the top-level part
      admits no '.'. */
  function ValidateEmail(email: string): (r: bool)
    ensures r <==> EmailShape(email)
  {
    match IndexOf(email, '@')
    case None => false
    case Some(at) =>
      match LastIndexOf(email, '.')
      case None => false
      case Some(dot) =>
        var ok := EmailSplitsAt(email, at, dot);
        assert EmailShape(email) ==> ok by {
          if EmailShape(email) {
            var a, d :| EmailSplitsAt(email, a, d);
            assert forall i | 0 <= i < a :: email[i] != '@';
            assert a == at;
            assert forall i | d < i < |email| :: email[i] != '.';
            assert d == dot;
          }
        }
        ok
  }

  predicate UsernameChar(c: char) { IsAlnum(c) || c == '_' }

  /** `validateUsername`: 3 to 20 characters, each a letter, digit or '_'. */
  method ValidateUsername(username: string) returns (ok: bool)
    ensures ok <==> 3 <= |username| <= 20 && forall i :: 0 <= i < |username| ==> UsernameChar(username[i])
  {
    if |username| < 3 || |username| > 20 {
      return false;
    }
    var i := 0;
    while i < |username|
      invariant 0 <= i <= |username|
      invariant forall j :: 0 <= j < i ==> UsernameChar(username[j])
    {
      if !UsernameChar(username[i]) {
        return false;
      }
      i := i + 1;
    }
    return true;
  }

  const MIN_PASSWORD_LENGTH: nat := 6

  /** `validatePassword`: six bytes or more (`length()` counts bytes), nothing
      else is checked. */
  function ValidatePassword(password: string): (ok: bool)
    ensures ok <==> |password| >= 6
  {
    |password| >= MIN_PASSWORD_LENGTH
  }

  // ------------------------------------------------------------ headers

  /** Request headers. cpprest compares header names without regard to
      letter case, so the table is keyed by the lower-cased name. */
  type Headers = map<string, string>

  /** The header named `name`, in any letter case. */
  function Header(headers: Headers, name: string): (r: Option<string>)
    ensures r.Some? <==> Lower(name) in headers
    ensures r.Some? ==> r.value == headers[Lower(name)]
  {
    if Lower(name) in headers then Some(headers[Lower(name)]) else None
  }

  /** Two spellings that differ only in letter case find the same header. */
  lemma HeaderIgnoresCase(headers: Headers, a: string, b: string)
    requires Lower(a) == Lower(b)
    ensures Header(headers, a) == Header(headers, b)
  {
  }

  const AUTHORIZATION: string := "Authorization"
  const BEARER: string := "Bearer "

  /** `Request::extractToken` (and the identical
      `Authentication::extractToken`): the header text after a leading
      "Bearer ". */
  function ExtractToken(headers: Headers): (r: Result<string>)
    ensures Header(headers, AUTHORIZATION).None? <==> r == Failure(MissingHeader)
    ensures r.Success? <==>
      Header(headers, AUTHORIZATION).Some? && StartsWith(Header(headers, AUTHORIZATION).value, BEARER)
    ensures r.Success? ==> Header(headers, AUTHORIZATION).value == BEARER + r.value
  {
    match Header(headers, AUTHORIZATION)
    case None => Failure(MissingHeader)
    case Some(h) =>
      if |h| < |BEARER| || h[..|BEARER|] != BEARER then Failure(InvalidFormat)
      else
        assert h == h[..|BEARER|] + h[|BEARER|..];
        Success(h[|BEARER|..])
  }

  /** Whatever follows "Bearer " comes back out unchanged. */
  lemma BearerRoundTrip(headers: Headers, token: string)
    requires Header(headers, AUTHORIZATION) == Some(BEARER + token)
    ensures ExtractToken(headers) == Success(token)
  {
    assert (BEARER + token)[..|BEARER|] == BEARER;
  }

  /** A client that spells the header `authorization` is read the same way. */
  lemma LowerCaseAuthorization(token: string)
    ensures ExtractToken(map["authorization" := BEARER + token]) == Success(token)
  {
    assert Lower(AUTHORIZATION) == "authorization";
    BearerRoundTrip(map["authorization" := BEARER + token], token);
  }
}
