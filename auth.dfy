/** The token and identity helpers of the chat client: credential checks,
    the claim sets of user and server tokens, name-based user ids and
    the webhook-signature check. The cryptographic primitives and the
    wall clock are inputs. */
module Auth {
  import opened Wrappers
  import opened Utf8
  import opened Decimal
  import Hex
  import Uuid

  const DefaultBaseUrl: string := "https://chat.stream-io-api.com"

  /** How long a user token is valid: 14 days, in seconds. */
  const TokenLifetime: u64 := 14 * 24 * 60 * 60

  /** An HMAC-SHA-256 tag: 32 bytes. */
  type Digest = s: seq<byte> | |s| == 32 witness seq(32, i => 0)

  /** A claim set: claim names to string values. */
  type Claims = map<string, string>

  /** The foreign primitives the helpers call, as given functions:
      - hmacSha256(key, message): HMAC (RFC 2104) over SHA-256;
      - signJws(claims, key): the compact signed token of the claims under
        an HMAC-SHA-256 key made from these bytes, or None when signing fails;
        the source serialises a hash map whose key order is random, so its
        token text is not a function of the claim set alone, as it is here;
      - uuidV5(namespace, name): the name-based UUID of RFC 4122, section 4.3. */
  datatype Primitives = Primitives(
    hmacSha256: (seq<byte>, seq<byte>) -> Digest,
    signJws: (Claims, seq<byte>) -> Option<string>,
    uuidV5: (Uuid.Uuid, seq<byte>) -> Uuid.Uuid)

  /** A reading of the wall clock as seconds since the Unix epoch, or the
      error `duration_since(UNIX_EPOCH)` gives for a time before it. */
  datatype Clock = SinceEpoch(secs: u64) | BeforeEpoch

  datatype AuthError =
    | EmptyCredentials   // "API key or secret is empty"
    | EmptyUserId        // "User ID is empty"
    | ClockBeforeEpoch   // "Time error: ..."
    | SigningFailed      // "Signing error: ..."

  /** The client's configuration; its HTTP connection pool is not modelled. */
  datatype StreamChatClient = StreamChatClient(
    apiKey: string,
    apiSecret: string,
    baseUrl: string,
    authToken: string)

  /** `StreamChatClient::initialize`: rejects an empty key or secret, and
      otherwise keeps both as given, with no auth token yet. */
  function Initialize(apiKey: string, apiSecret: string): (r: Result<StreamChatClient, AuthError>)
    ensures r.Err? <==> apiKey == [] || apiSecret == []
    ensures r.Err? ==> r.error == EmptyCredentials
    ensures r.Ok? ==> && r.value.apiKey == apiKey && r.value.apiSecret == apiSecret
                      && r.value.authToken == [] && r.value.baseUrl == DefaultBaseUrl
  {
    if apiKey == [] || apiSecret == [] then Err(EmptyCredentials)
    else Ok(StreamChatClient(apiKey, apiSecret, DefaultBaseUrl, []))
  }

  /** The claims of a user token issued at `iat`. */
  function UserClaims(userId: string, iat: u64): (c: Claims)
    ensures c.Keys == {"user_id", "iat", "exp"} && c["user_id"] == userId
    ensures forall k :: k in c.Keys - {"user_id"} ==> c[k] != [] && forall i :: 0 <= i < |c[k]| ==> '0' <= c[k][i] <= '9'
  {
    map["user_id" := userId,
        "iat" := ToString(iat),
        "exp" := ToString(WrappingAdd(iat, TokenLifetime))]
  }

  /** The claims of a server token issued at `iat`. */
  function ServerClaims(iat: u64): (c: Claims)
    ensures c.Keys == {"server", "iat"} && c["server"] == "true"
    ensures c["iat"] != [] && forall i :: 0 <= i < |c["iat"]| ==> '0' <= c["iat"][i] <= '9'
  {
    map["server" := "true", "iat" := ToString(iat)]
  }

  /** The outcome of signing `claims` with the client's secret. */
  function Signed(prims: Primitives, claims: Claims, secret: string): Result<string, AuthError>
  {
    match prims.signJws(claims, Encode(secret))
    case Some(token) => Ok(token)
    case None => Err(SigningFailed)
  }

  /** `create_user_token`: an empty user id fails before anything is built
      or signed; otherwise the claim map is filled in one insert at a time,
      and the token is the signature of exactly that map. */
  method CreateUserToken(client: StreamChatClient, userId: string, clock: Clock, prims: Primitives)
    returns (r: Result<string, AuthError>)
    ensures userId == [] ==> r == Err(EmptyUserId)
    ensures userId != [] && clock.BeforeEpoch? ==> r == Err(ClockBeforeEpoch)
    ensures userId != [] && clock.SinceEpoch? ==>
              r == Signed(prims, UserClaims(userId, clock.secs), client.apiSecret)
  {
    if userId == [] {
      return Err(EmptyUserId);
    }
    var claims: Claims := map[];
    claims := claims["user_id" := userId];
    if clock.BeforeEpoch? {
      return Err(ClockBeforeEpoch);
    }
    var now := clock.secs;
    claims := claims["iat" := ToString(now)];
    var expiration := WrappingAdd(now, TokenLifetime);
    claims := claims["exp" := ToString(expiration)];
    var token := prims.signJws(claims, Encode(client.apiSecret));
    if token.None? {
      return Err(SigningFailed);
    }
    r := Ok(token.value);
  }

  /** `create_server_token`: the claim map marks the token as the
      server's and records when it was issued; nothing else. */
  method CreateServerToken(client: StreamChatClient, clock: Clock, prims: Primitives)
    returns (r: Result<string, AuthError>)
    ensures clock.BeforeEpoch? ==> r == Err(ClockBeforeEpoch)
    ensures clock.SinceEpoch? ==> r == Signed(prims, ServerClaims(clock.secs), client.apiSecret)
  {
    var claims: Claims := map[];
    claims := claims["server" := "true"];
    if clock.BeforeEpoch? {
      return Err(ClockBeforeEpoch);
    }
    var now := clock.secs;
    claims := claims["iat" := ToString(now)];
    var token := prims.signJws(claims, Encode(client.apiSecret));
    if token.None? {
      return Err(SigningFailed);
    }
    r := Ok(token.value);
  }

  /** A user token's claims are exactly `user_id`, `iat` and `exp`; the
      user id is the one given; `iat` reads back as the issue time and,
      unless the 64-bit sum wraps, `exp` reads back as 14 days later. */
  lemma UserClaimsContents(userId: string, iat: u64)
    ensures UserClaims(userId, iat).Keys == {"user_id", "iat", "exp"}
    ensures UserClaims(userId, iat)["user_id"] == userId
    ensures Parse(UserClaims(userId, iat)["iat"]) == Some(iat)
    ensures iat + TokenLifetime < U64Limit ==>
              Parse(UserClaims(userId, iat)["exp"]) == Some(iat + 1209600)
  {
    ParseToString(iat);
    ParseToString(WrappingAdd(iat, TokenLifetime));
  }

  /** A user token expires after it is issued exactly when the 64-bit
      expiry sum does not wrap; a wrapped `exp` lies before `iat`. */
  lemma UserTokenLifetime(userId: string, iat: u64)
    ensures var c := UserClaims(userId, iat);
      && Parse(c["iat"]).Some? && Parse(c["exp"]).Some?
      && (Parse(c["exp"]).value > Parse(c["iat"]).value <==> iat + TokenLifetime < U64Limit)
      && (iat + TokenLifetime >= U64Limit ==> Parse(c["exp"]).value < Parse(c["iat"]).value)
  {
    ParseToString(iat);
    ParseToString(WrappingAdd(iat, TokenLifetime));
  }

  /** A server token's claims are exactly `server` = "true" and `iat`:
      no user id and no expiry. */
  lemma ServerClaimsContents(iat: u64)
    ensures ServerClaims(iat).Keys == {"server", "iat"}
    ensures ServerClaims(iat)["server"] == "true"
    ensures "user_id" !in ServerClaims(iat) && "exp" !in ServerClaims(iat)
    ensures Parse(ServerClaims(iat)["iat"]) == Some(iat)
  {
    ParseToString(iat);
  }

  /** `generate_user_id`: the name-based UUID of the username's bytes in
      the DNS namespace, parsed from its text form, written hyphenated. */
  function GenerateUserId(prims: Primitives, username: string): (id: string)
    ensures |id| == 36
    ensures forall i :: 0 <= i < 36 && Uuid.IsHyphenPosition(i) ==> id[i] == '-'
    ensures forall i :: 0 <= i < 36 && !Uuid.IsHyphenPosition(i) ==> id[i] in Hex.LowerDigits
  {
    Uuid.DnsNamespaceParses();
    var namespace := Uuid.ParseHyphenated(Uuid.DnsNamespaceText).value;
    var u := prims.uuidV5(namespace, Encode(username));
    Uuid.ToStringShape(u);
    Uuid.ToString(u)
  }

  /** The id depends on the username only through the UUID derived from
      its bytes in the DNS namespace: two usernames get the same id
      exactly when they get the same name-based UUID. */
  lemma UserIdDeterminedByName(prims: Primitives, a: string, b: string)
    ensures GenerateUserId(prims, a) == GenerateUserId(prims, b)
        <==> prims.uuidV5(Uuid.DnsNamespace, Encode(a)) == prims.uuidV5(Uuid.DnsNamespace, Encode(b))
  {
    Uuid.DnsNamespaceParses();
    var ua, ub := prims.uuidV5(Uuid.DnsNamespace, Encode(a)), prims.uuidV5(Uuid.DnsNamespace, Encode(b));
    if Uuid.ToString(ua) == Uuid.ToString(ub) {
      Uuid.ToStringInjective(ua, ub);
    }
  }

  /** Distinct usernames are distinct names to hash, so their ids differ
      unless the name-based UUIDs collide. */
  lemma DistinctUsernamesDistinctNames(a: string, b: string)
    requires a != b
    ensures Encode(a) != Encode(b)
  {
    DecodeEncode(a);
    DecodeEncode(b);
  }

  /** A MAC computation in progress (`Hmac<Sha256>`): the key it was made
      with and the bytes fed to it so far. */
  class Mac {
    const key: seq<byte>
    var message: seq<byte>

    /** `Hmac::new_from_slice`; HMAC accepts keys of any length. */
    constructor NewFromSlice(key: seq<byte>)
      ensures this.key == key && message == []
    {
      this.key := key;
      message := [];
    }

    /** `Mac::update`. */
    method Update(data: seq<byte>)
      modifies this
      ensures message == old(message) + data
    {
      message := message + data;
    }

    /** `Mac::finalize`: the tag of everything fed so far. */
    function Finalize(prims: Primitives): (tag: Digest)
      reads this
      ensures tag == prims.hmacSha256(key, message)
    {
      prims.hmacSha256(key, message)
    }
  }

  /** The signature a webhook body must carry: the lowercase hex of its
      HMAC-SHA-256 tag under the secret. */
  function ExpectedSignature(prims: Primitives, body: seq<byte>, apiSecret: string): (s: string)
    ensures |s| == 64
  {
    Hex.Encode(prims.hmacSha256(Encode(apiSecret), body))
  }

  /** `verify_webhook`: accepts exactly the signature whose bytes are the
      expected lowercase hex tag. */
  method VerifyWebhook(body: seq<byte>, signature: seq<byte>, apiSecret: string, prims: Primitives)
    returns (ok: bool)
    ensures ok <==> signature == Encode(ExpectedSignature(prims, body, apiSecret))
  {
    var mac := new Mac.NewFromSlice(Encode(apiSecret));
    mac.Update(body);
    assert mac.message == body;
    var expected := Hex.Encode(mac.Finalize(prims));
    assert expected == ExpectedSignature(prims, body, apiSecret);
    var signatureText := Decode(signature).GetOr("");
    ok := expected == signatureText;
    assert ok <==> Decode(signature) == Some(expected) by {
      assert |expected| == 64;
    }
    DecodeIff(signature, expected);
  }

  /** Bytes that are not UTF-8 are never a valid signature. */
  lemma InvalidUtf8Rejected(prims: Primitives, body: seq<byte>, signature: seq<byte>, apiSecret: string)
    requires Decode(signature).None?
    ensures signature != Encode(ExpectedSignature(prims, body, apiSecret))
  {
    DecodeEncode(ExpectedSignature(prims, body, apiSecret));
  }

  /** A signature made under another secret is rejected whenever the two
      secrets give the body different tags. */
  lemma OtherSecretRejected(prims: Primitives, body: seq<byte>, secret: string, other: string)
    requires prims.hmacSha256(Encode(secret), body) != prims.hmacSha256(Encode(other), body)
    ensures Encode(ExpectedSignature(prims, body, secret)) != Encode(ExpectedSignature(prims, body, other))
  {
    var s, t := ExpectedSignature(prims, body, secret), ExpectedSignature(prims, body, other);
    if Encode(s) == Encode(t) {
      DecodeEncode(s);
      DecodeEncode(t);
      Hex.EncodeInjective(prims.hmacSha256(Encode(secret), body), prims.hmacSha256(Encode(other), body));
    }
  }

  /** A valid signature is exactly 64 bytes, one per hex digit. */
  lemma SignatureLength(prims: Primitives, body: seq<byte>, apiSecret: string)
    ensures |Encode(ExpectedSignature(prims, body, apiSecret))| == 64
  {
    var s := ExpectedSignature(prims, body, apiSecret);
    assert forall i :: 0 <= i < |s| ==> s[i] as int < 0x80;
    EncodeAsciiLength(s);
  }

  lemma {:induction false} EncodeAsciiLength(s: string)
    requires forall i :: 0 <= i < |s| ==> s[i] as int < 0x80
    ensures |Encode(s)| == |s|
  {
    if s != [] {
      EncodeAsciiLength(s[1..]);
    }
  }
}
