/** The open-banking client of `banking_itau.py`: the PKCE verifier and
    challenge (RFC 7636), the authorization request URL (section 4.1.1 of
    RFC 6749 with section 4.3 of RFC 7636), the token exchange (section 4.1.3
    of RFC 6749 with section 4.5 of RFC 7636) and the two bearer-authenticated
    reads. The bank's HTTP endpoints, SHA-256, the clock and the random source
    are parameters. */
module ItauClient {
  import opened Wrappers
  import Text
  import Base64Url
  import Calendar
  import QueryString

  type byte = Base64Url.byte
  type Param = QueryString.Param

  const RedirectUri := "http://localhost:5000/callback"
  const Scope := "openid accounts transactions"
  const AccountsPath := "/open-banking/accounts/v1/accounts"

  /** `secrets.token_urlsafe(n)` over the `n` random bytes it draws. */
  function TokenUrlSafe(entropy: seq<byte>): string {
    Base64Url.EncodeUnpadded(entropy)
  }

  /** `generate_code_verifier`: `token_urlsafe(32)`. The result is a code
      verifier as section 4.1 of RFC 7636 demands: 43 characters, all of
      them unreserved, and it carries all 32 random bytes. */
  function GenerateCodeVerifier(entropy: seq<byte>): (v: string)
    requires |entropy| == 32
    ensures |v| == 43 && Base64Url.IsUrlSafe(v)
    ensures Base64Url.Decode(v) == Some(entropy)
  {
    Base64Url.DecodeEncode(entropy);
    TokenUrlSafe(entropy)
  }

  /** `generate_code_challenge`: the padded base64url text of the verifier's
      SHA-256 digest, with every `=` removed. It is URL-safe, has no `=`, is
      43 characters for a 32-byte digest and decodes to the digest. */
  function CodeChallenge(sha256: string -> seq<byte>, verifier: string): (c: string)
    ensures Base64Url.IsUrlSafe(c) && '=' !in c
    ensures |c| == (4 * |sha256(verifier)| + 2) / 3
    ensures |sha256(verifier)| == 32 ==> |c| == 43
    ensures Base64Url.Decode(c) == Some(sha256(verifier))
  {
    var digest := sha256(verifier);
    var u := Base64Url.EncodeUnpadded(digest);
    Base64Url.StripPaddingIsUnpadded(digest);
    Base64Url.DecodeEncode(digest);
    assert |u| == (4 * |digest| + 2) / 3;
    assert |digest| == 32 ==> |u| == 130 / 3 == 43;
    assert '=' !in u by {
      forall i | 0 <= i < |u| ensures u[i] != '=' { assert Base64Url.IsUrlSafeChar(u[i]); }
    }
    Text.ReplaceAll(Base64Url.Encode(digest), "=", "")
  }

  /** The check of section 4.6 of RFC 7636 for method S256, as the
      authorization server performs it: BASE64URL(SHA256(verifier)), unpadded,
      equals the challenge it was given. */
  predicate S256Accepts(sha256: string -> seq<byte>, verifier: string, challenge: string) {
    Base64Url.EncodeUnpadded(sha256(verifier)) == challenge
  }

  /** The authorization request parameters, in the order of `auth_params`. */
  function AuthParams(clientId: string, challenge: string, state: string): seq<Param> {
    [("client_id", clientId), ("response_type", "code"), ("scope", Scope),
     ("redirect_uri", RedirectUri), ("code_challenge", challenge),
     ("code_challenge_method", "S256"), ("state", state)]
  }

  function AuthorizePrefix(authUrl: string): string {
    authUrl + "/authorize?"
  }

  /** The URL `get_auth_url` returns. */
  function AuthorizeUrl(authUrl: string, clientId: string, challenge: string, state: string): string {
    AuthorizePrefix(authUrl) + QueryString.Join(AuthParams(clientId, challenge, state))
  }

  /** The query part of a URL that starts with `prefix`. */
  function QueryAfter(url: string, prefix: string): string
    requires |prefix| <= |url|
  {
    url[|prefix|..]
  }

  lemma UrlSafeHasNoSeparators(s: string)
    requires Base64Url.IsUrlSafe(s)
    ensures '&' !in s && '=' !in s && ' ' !in s
  {
    forall i | 0 <= i < |s| ensures s[i] != '&' && s[i] != '=' && s[i] != ' ' {
      assert Base64Url.IsUrlSafeChar(s[i]);
    }
  }

  /** The four fixed parameters of the authorization request are plain. */
  lemma ResponseTypePlain()
    ensures QueryString.Plain(("response_type", "code"))
  {
  }

  lemma ScopePlain()
    ensures QueryString.Plain(("scope", Scope))
  {
  }

  lemma RedirectUriPlain()
    ensures QueryString.Plain(("redirect_uri", RedirectUri))
  {
  }

  lemma ChallengeMethodPlain()
    ensures QueryString.Plain(("code_challenge_method", "S256"))
  {
  }

  lemma AuthParamsUnambiguous(clientId: string, challenge: string, state: string)
    requires '&' !in clientId
    requires Base64Url.IsUrlSafe(challenge) && Base64Url.IsUrlSafe(state)
    ensures QueryString.Unambiguous(AuthParams(clientId, challenge, state))
  {
    UrlSafeHasNoSeparators(challenge);
    UrlSafeHasNoSeparators(state);
    ResponseTypePlain();
    ScopePlain();
    RedirectUriPlain();
    ChallengeMethodPlain();
    var params := AuthParams(clientId, challenge, state);
    assert QueryString.Plain(params[0]) && QueryString.Plain(params[4]) && QueryString.Plain(params[6]);
    forall i | 0 <= i < |params| ensures QueryString.Plain(params[i]) {
    }
  }

  lemma AuthParamsDistinct(clientId: string, challenge: string, state: string)
    ensures DistinctKeys(AuthParams(clientId, challenge, state))
  {
    var params := AuthParams(clientId, challenge, state);
    assert params[2].0[1] != params[6].0[1];
  }

  /** The authorization URL starts with the authorize endpoint, its query reads
      back as the seven parameters in order, `response_type=code` and
      `code_challenge_method=S256` occur exactly once each, and the scope keeps
      its literal spaces. This holds whenever the client id has no `&`; the
      challenge and the state are URL-safe by construction. */
  lemma AuthorizeUrlReadsBack(authUrl: string, clientId: string, challenge: string, state: string)
    requires '&' !in clientId
    requires Base64Url.IsUrlSafe(challenge) && Base64Url.IsUrlSafe(state)
    ensures var url := AuthorizeUrl(authUrl, clientId, challenge, state);
      && Text.StartsWith(url, AuthorizePrefix(authUrl))
      && var q := QueryString.Parse(QueryAfter(url, AuthorizePrefix(authUrl)));
      && q == AuthParams(clientId, challenge, state)
      && QueryString.CountKey(q, "response_type") == 1
      && QueryString.Lookup(q, "response_type") == Some("code")
      && QueryString.CountKey(q, "code_challenge_method") == 1
      && QueryString.Lookup(q, "code_challenge_method") == Some("S256")
      && QueryString.Lookup(q, "code_challenge") == Some(challenge)
      && QueryString.Lookup(q, "scope") == Some("openid accounts transactions")
  {
    var params := AuthParams(clientId, challenge, state);
    AuthParamsUnambiguous(clientId, challenge, state);
    QueryString.ParseJoin(params);
    AuthParamsDistinct(clientId, challenge, state);
    QueryString.KeyAt(params, 1);
    QueryString.KeyAt(params, 2);
    QueryString.KeyAt(params, 4);
    QueryString.KeyAt(params, 5);
    var url := AuthorizeUrl(authUrl, clientId, challenge, state);
    assert QueryAfter(url, AuthorizePrefix(authUrl)) == QueryString.Join(params);
  }

  /** The form body of the token request, in the order of `data`. */
  function TokenForm(clientId: string, clientSecret: string, code: string, verifier: string): seq<Param> {
    [("grant_type", "authorization_code"), ("client_id", clientId),
     ("client_secret", clientSecret), ("code", code),
     ("redirect_uri", RedirectUri), ("code_verifier", verifier)]
  }

  /** The token form carries the verifier under `code_verifier`. */
  lemma TokenFormCarriesVerifier(clientId: string, clientSecret: string, code: string, verifier: string)
    ensures QueryString.Lookup(TokenForm(clientId, clientSecret, code, verifier), "code_verifier") == Some(verifier)
  {
    var form := TokenForm(clientId, clientSecret, code, verifier);
    assert form[2].0[1] != form[5].0[1];
    assert DistinctKeys(form);
    QueryString.KeyAt(form, 5);
  }

  /** PKCE binds the token request to the authorization request: the verifier
      the token request carries passes the server's S256 check against the
      challenge the authorization URL carried. */
  lemma PkceBinding(sha256: string -> seq<byte>, authUrl: string, clientId: string,
                    clientSecret: string, code: string, verifier: string, state: string)
    requires '&' !in clientId && Base64Url.IsUrlSafe(state)
    ensures var url := AuthorizeUrl(authUrl, clientId, CodeChallenge(sha256, verifier), state);
      var q := QueryString.Parse(QueryAfter(url, AuthorizePrefix(authUrl)));
      var form := TokenForm(clientId, clientSecret, code, verifier);
      && QueryString.Lookup(q, "code_challenge").Some?
      && QueryString.Lookup(form, "code_verifier").Some?
      && S256Accepts(sha256, QueryString.Lookup(form, "code_verifier").value,
                     QueryString.Lookup(q, "code_challenge").value)
  {
    var challenge := CodeChallenge(sha256, verifier);
    AuthorizeUrlReadsBack(authUrl, clientId, challenge, state);
    Base64Url.StripPaddingIsUnpadded(sha256(verifier));
    TokenFormCarriesVerifier(clientId, clientSecret, code, verifier);
  }

  datatype PostRequest = PostRequest(url: string, form: seq<Param>)
  datatype GetRequest = GetRequest(url: string, headers: seq<Param>, params: seq<Param>)

  /** A token endpoint response: its status and the two fields read from its
      JSON body (`None` where the key is absent). */
  datatype TokenResponse = TokenResponse(status: int, accessToken: Option<string>, expiresIn: Option<int>)

  /** An API response: its status and its JSON body, kept as text. */
  datatype ApiResponse = ApiResponse(status: int, body: string)

  /** What a GET method returns for the bank's answer: the body on status 200,
      None on any other status, and the exception of a failed request. */
  function BodyOn200(answer: Outcome<ApiResponse>): (r: Outcome<Option<string>>)
    ensures answer.Raised? <==> r.Raised?
    ensures answer.Raised? ==> r.exception == answer.exception
    ensures answer.Returned? ==> (r.value.Some? <==> answer.value.status == 200)
    ensures answer.Returned? && r.value.Some? ==> r.value.value == answer.value.body
  {
    match answer
    case Raised(e) => Raised(e)
    case Returned(response) => Returned(if response.status == 200 then Some(response.body) else None)
  }

  /** The end of the range of `datetime`, in seconds counted from 0001-01-01
      00:00:00: the end of 9999-12-31. */
  const DatetimeEnd: int := 3652059 * 86400

  /** An instant, in those seconds, that a `datetime` can hold. */
  predicate InDatetimeRange(t: int) {
    0 <= t < DatetimeEnd
  }

  /** `DatetimeEnd` counts the seconds of every day up to and including
      9999-12-31, the last day `datetime` holds: its ordinal is the number of
      days up to it. */
  lemma DatetimeEndIsLastDay()
    ensures Calendar.Valid(Calendar.Date(9999, 12, 31))
    ensures Calendar.Ordinal(Calendar.Date(9999, 12, 31)) * 86400 == DatetimeEnd
  {
  }

  /** How `get_accounts` judges the stored token at time `now`. */
  datatype TokenState =
    | NoToken       // `not self.access_token`: absent or empty
    | Incomparable  // token set but no expiry: `now >= None` raises TypeError
    | Expired       // `now >= token_expires`
    | Usable

  function CheckToken(accessToken: Option<string>, expires: Option<int>, now: int): TokenState {
    if accessToken.None? || accessToken.value == "" then NoToken
    else if expires.None? then Incomparable
    else if now >= expires.value then Expired
    else Usable
  }

  /** A token obtained at `issuedAt` with lifetime `lifetime` is usable exactly
      while the clock is before `issuedAt + lifetime` (and the token is not
      empty); once expired it stays expired. */
  lemma TokenLifetime(token: string, issuedAt: int, lifetime: int, now: int, later: int)
    requires now <= later
    ensures var expires := Some(issuedAt + lifetime);
      && (CheckToken(Some(token), expires, now) == Usable <==> token != "" && now < issuedAt + lifetime)
      && (CheckToken(Some(token), expires, now) == Expired ==> CheckToken(Some(token), expires, later) == Expired)
      && (CheckToken(Some(token), expires, later) == Usable ==> CheckToken(Some(token), expires, now) == Usable)
  {
  }

  /** The text an f-string gives the stored token: Python prints `None`. */
  function TokenText(accessToken: Option<string>): string {
    if accessToken.Some? then accessToken.value else "None"
  }

  function AuthHeaders(accessToken: Option<string>): seq<Param> {
    [("Authorization", "Bearer " + TokenText(accessToken)), ("Content-Type", "application/json")]
  }

  /** The default `fromBookingDate`: today less 30 days as `YYYY-MM-DD`;
      `None` where the subtraction overflows `datetime`. It names exactly the
      date thirty days before `today`. */
  function DefaultFromDate(today: Calendar.Date): (r: Option<string>)
    requires Calendar.Valid(today)
    ensures r.Some? <==> Calendar.Ordinal(today) > 30
    ensures r.Some? ==> var e := Calendar.Parse(r.value);
      e.Some? && Calendar.Ordinal(e.value) == Calendar.Ordinal(today) - 30
  {
    Calendar.MinusDaysOrdinal(today, 30);
    match Calendar.MinusDays(today, 30) {
      case None => None
      case Some(d) => Calendar.ParseFormat(d); Some(Calendar.Format(d))
    }
  }

  /** `if not x`: an omitted or empty date argument takes its default. */
  predicate Omitted(arg: Option<string>) {
    arg.None? || arg.value == ""
  }

  class ItauOpenBanking {
    const clientId: string
    const clientSecret: string
    const baseUrl: string
    const authUrl: string
    /** `None` while the attribute has never been assigned. */
    var codeVerifier: Option<string>
    var accessToken: Option<string>
    /** Seconds counted from 0001-01-01 00:00:00, the clock `now` is read in. */
    var tokenExpires: Option<int>

    /** `__init__`: the credentials and fixed endpoints; no token, no expiry,
        and no verifier attribute yet. */
    constructor (clientId: string, clientSecret: string)
      ensures this.clientId == clientId && this.clientSecret == clientSecret
      ensures baseUrl == "https://api.itau.com.br" && authUrl == "https://sts.itau.com.br"
      ensures codeVerifier == None && accessToken == None && tokenExpires == None
    {
      this.clientId := clientId;
      this.clientSecret := clientSecret;
      baseUrl := "https://api.itau.com.br";
      authUrl := "https://sts.itau.com.br";
      codeVerifier := None;
      accessToken := None;
      tokenExpires := None;
    }

    /** `get_auth_url`: draws a fresh verifier, stores it (replacing any
        earlier one) and returns the authorization URL that carries its
        challenge and a fresh state. */
    method GetAuthUrl(verifierEntropy: seq<byte>, stateEntropy: seq<byte>, sha256: string -> seq<byte>)
      returns (url: string)
      requires |verifierEntropy| == 32 && |stateEntropy| == 16
      modifies this`codeVerifier
      ensures codeVerifier == Some(GenerateCodeVerifier(verifierEntropy))
      ensures url == AuthorizeUrl(authUrl, clientId, CodeChallenge(sha256, codeVerifier.value),
                                  TokenUrlSafe(stateEntropy))
      ensures Base64Url.IsUrlSafe(TokenUrlSafe(stateEntropy)) && |TokenUrlSafe(stateEntropy)| == 22
    {
      var verifier := GenerateCodeVerifier(verifierEntropy);
      var challenge := CodeChallenge(sha256, verifier);
      codeVerifier := Some(verifier);
      var state := TokenUrlSafe(stateEntropy);
      var query := QueryString.Join(AuthParams(clientId, challenge, state));
      url := authUrl + "/authorize?" + query;
    }

    /** `exchange_code_for_token`: posts the code and the stored verifier. On
        status 200 it stores the token and its absolute expiry and returns
        True; on any other status it returns False and changes nothing.
        Without a stored verifier it raises before posting; a failed POST
        raises and changes nothing. A 200 body without `expires_in`, or one
        whose expiry leaves the range of `datetime`, raises after the token
        has been stored. */
    method ExchangeCodeForToken(code: string, now: int, bank: PostRequest -> Outcome<TokenResponse>)
      returns (result: Outcome<bool>, sent: Option<PostRequest>)
      modifies this`accessToken, this`tokenExpires
      ensures codeVerifier.None? ==>
        && result == Raised(AttributeError) && sent == None
        && accessToken == old(accessToken) && tokenExpires == old(tokenExpires)
      ensures codeVerifier.Some? ==>
        sent == Some(PostRequest(authUrl + "/token", TokenForm(clientId, clientSecret, code, codeVerifier.value)))
      ensures codeVerifier.Some? && bank(sent.value).Raised? ==>
        && result == Raised(bank(sent.value).exception)
        && accessToken == old(accessToken) && tokenExpires == old(tokenExpires)
      ensures codeVerifier.Some? && bank(sent.value).Returned? ==> var r := bank(sent.value).value;
        && (r.status != 200 ==>
              result == Returned(false) && accessToken == old(accessToken) && tokenExpires == old(tokenExpires))
        && (r.status == 200 && r.accessToken.None? ==>
              result == Raised(KeyError) && accessToken == old(accessToken) && tokenExpires == old(tokenExpires))
        && (r.status == 200 && r.accessToken.Some? && r.expiresIn.None? ==>
              result == Raised(KeyError) && accessToken == r.accessToken && tokenExpires == old(tokenExpires))
        && (r.status == 200 && r.accessToken.Some? && r.expiresIn.Some?
            && !InDatetimeRange(now + r.expiresIn.value) ==>
              result == Raised(OverflowError) && accessToken == r.accessToken && tokenExpires == old(tokenExpires))
        && (r.status == 200 && r.accessToken.Some? && r.expiresIn.Some?
            && InDatetimeRange(now + r.expiresIn.value) ==>
              && result == Returned(true) && accessToken == r.accessToken
              && tokenExpires == Some(now + r.expiresIn.value))
    {
      if codeVerifier.None? {
        return Raised(AttributeError), None;
      }
      var request := PostRequest(authUrl + "/token", TokenForm(clientId, clientSecret, code, codeVerifier.value));
      sent := Some(request);
      var answer := bank(request);
      if answer.Raised? {
        return Raised(answer.exception), sent;
      }
      var response := answer.value;
      if response.status == 200 {
        if response.accessToken.None? {
          return Raised(KeyError), sent;
        }
        accessToken := response.accessToken;
        if response.expiresIn.None? {
          return Raised(KeyError), sent;
        }
        var expires := now + response.expiresIn.value;
        if !InDatetimeRange(expires) {
          return Raised(OverflowError), sent;
        }
        tokenExpires := Some(expires);
        result := Returned(true);
      } else {
        result := Returned(false);
      }
    }

    /** `get_accounts`: without a usable token it returns None and sends
        nothing; otherwise it sends one bearer-authenticated GET and returns the
        body on 200 and None on any other status; a failed GET raises. */
    method GetAccounts(now: int, bank: GetRequest -> Outcome<ApiResponse>)
      returns (result: Outcome<Option<string>>, sent: Option<GetRequest>)
      ensures sent.Some? <==> CheckToken(accessToken, tokenExpires, now) == Usable
      ensures CheckToken(accessToken, tokenExpires, now) in {NoToken, Expired} ==> result == Returned(None)
      ensures CheckToken(accessToken, tokenExpires, now) == Incomparable ==> result == Raised(TypeError)
      ensures sent.Some? ==>
        && sent.value == GetRequest(baseUrl + AccountsPath, AuthHeaders(accessToken), [])
        && result == BodyOn200(bank(sent.value))
    {
      if accessToken.None? || accessToken.value == "" {
        return Returned(None), None;
      }
      if tokenExpires.None? {
        return Raised(TypeError), None;
      }
      if now >= tokenExpires.value {
        return Returned(None), None;
      }
      var request := GetRequest(baseUrl + AccountsPath, AuthHeaders(accessToken), []);
      sent := Some(request);
      var answer := bank(request);
      if answer.Raised? {
        return Raised(answer.exception), sent;
      }
      if answer.value.status == 200 {
        result := Returned(Some(answer.value.body));
      } else {
        result := Returned(None);
      }
    }

    /** `get_transactions`: fills omitted dates with today less 30 days and
        today, sends one bearer-authenticated GET whatever the token's state,
        and returns the body on 200 and None otherwise; a failed GET raises. */
    method GetTransactions(accountId: string, fromDate: Option<string>, toDate: Option<string>,
                           today: Calendar.Date, bank: GetRequest -> Outcome<ApiResponse>)
      returns (result: Outcome<Option<string>>, sent: Option<GetRequest>)
      requires Calendar.Valid(today)
      ensures Omitted(fromDate) && DefaultFromDate(today).None? ==>
        result == Raised(OverflowError) && sent == None
      ensures !(Omitted(fromDate) && DefaultFromDate(today).None?) ==>
        && (var from := if Omitted(fromDate) then DefaultFromDate(today).value else fromDate.value;
            var to := if Omitted(toDate) then Calendar.Format(today) else toDate.value;
            sent == Some(GetRequest(baseUrl + AccountsPath + "/" + accountId + "/transactions",
                                    AuthHeaders(accessToken),
                                    [("fromBookingDate", from), ("toBookingDate", to)])))
        && result == BodyOn200(bank(sent.value))
    {
      var from: string;
      if Omitted(fromDate) {
        var back := DefaultFromDate(today);
        if back.None? {
          return Raised(OverflowError), None;
        }
        from := back.value;
      } else {
        from := fromDate.value;
      }
      var to := if Omitted(toDate) then Calendar.Format(today) else toDate.value;
      var request := GetRequest(baseUrl + AccountsPath + "/" + accountId + "/transactions",
                                AuthHeaders(accessToken),
                                [("fromBookingDate", from), ("toBookingDate", to)]);
      sent := Some(request);
      var answer := bank(request);
      if answer.Raised? {
        return Raised(answer.exception), sent;
      }
      if answer.value.status == 200 {
        result := Returned(Some(answer.value.body));
      } else {
        result := Returned(None);
      }
    }
  }
}
