/**
 * The request for the recommended shard count: the `Authorization` header
 * built from the configured token, and the outcome of the `GET /gateway/bot`
 * call. The network call itself is not modelled; its response is an input.
 */
module Session {
  import opened Wrappers
  import opened Errors

  const ApiBase: string := "https://discordapp.com/api"
  const ApiVersion: string := "8"
  const GatewayBotUrl: string := ApiBase + "/v" + ApiVersion + "/gateway/bot"

  /** ECMAScript `\s`: the WhiteSpace and LineTerminator code points. */
  predicate IsWhitespace(ch: char)
  {
    var c := ch as int;
    c == 0x09 || c == 0x0A || c == 0x0B || c == 0x0C || c == 0x0D || c == 0x20
    || c == 0xA0 || c == 0x1680 || (0x2000 <= c <= 0x200A) || c == 0x2028 || c == 0x2029
    || c == 0x202F || c == 0x205F || c == 0x3000 || c == 0xFEFF
  }

  /** `/^Bot/i`: the first three characters spell "bot" in any letter case. */
  predicate StartsWithBot(s: string)
  {
    |s| >= 3 && (s[0] == 'B' || s[0] == 'b') && (s[1] == 'O' || s[1] == 'o') && (s[2] == 'T' || s[2] == 't')
  }

  /** `\s*` at the front: drops the longest run of leading whitespace. */
  function SkipWhitespace(s: string): (r: string)
    ensures |r| <= |s| && r == s[|s| - |r|..]
    ensures forall i :: 0 <= i < |s| - |r| ==> IsWhitespace(s[i])
    ensures r == [] || !IsWhitespace(r[0])
  {
    if s != [] && IsWhitespace(s[0]) then SkipWhitespace(s[1..]) else s
  }

  /** The token with the case-insensitive pattern `^Bot\s*` replaced by
      nothing: one leading "bot" (any case) and the whitespace after it are
      removed; anything else is left as it is. */
  function StripBotPrefix(token: string): (r: string)
    ensures !StartsWithBot(token) ==> r == token
    ensures StartsWithBot(token) ==>
      && |r| <= |token| - 3 && r == token[|token| - |r|..]
      && (forall i :: 3 <= i < |token| - |r| ==> IsWhitespace(token[i]))
      && (r == [] || !IsWhitespace(r[0]))
  {
    if StartsWithBot(token) then SkipWhitespace(token[3..]) else token
  }

  /** The `Authorization` header value sent with the request. */
  function AuthorizationHeader(token: string): (h: string)
    ensures |h| >= 4 && h[..4] == "Bot "
    ensures !StartsWithBot(token) ==> h[4..] == token
    ensures StartsWithBot(token) ==> |h[4..]| <= |token| - 3 && h[4..] == token[|token| - |h[4..]|..]
  {
    "Bot " + StripBotPrefix(token)
  }

  lemma {:induction false} SkipWhitespaceAppend(w: string, t: string)
    requires forall i :: 0 <= i < |w| ==> IsWhitespace(w[i])
    requires t == [] || !IsWhitespace(t[0])
    ensures SkipWhitespace(w + t) == t
  {
    if w != [] {
      assert (w + t)[1..] == w[1..] + t;
      SkipWhitespaceAppend(w[1..], t);
    } else {
      assert w + t == t;
    }
  }

  /** A token written with a "Bot" prefix in any letter case and any whitespace
      after it yields the same header as the bare token. */
  lemma HeaderNormalisesPrefix(prefix: string, spaces: string, token: string)
    requires |prefix| == 3 && StartsWithBot(prefix)
    requires forall i :: 0 <= i < |spaces| ==> IsWhitespace(spaces[i])
    requires !StartsWithBot(token) && (token == [] || !IsWhitespace(token[0]))
    ensures AuthorizationHeader(prefix + spaces + token) == AuthorizationHeader(token) == "Bot " + token
  {
    var s := prefix + spaces + token;
    assert StartsWithBot(s);
    assert s[3..] == spaces + token;
    SkipWhitespaceAppend(spaces, token);
  }

  /** The pattern does not ask for whitespace after "Bot": a token that merely
      begins with those letters loses them too. */
  lemma HeaderStripsBareBot()
    ensures AuthorizationHeader("Botany") == "Bot any"
  {
    assert "Bot" + "" + "any" == "Botany";
    HeaderNormalisesPrefix("Bot", "", "any");
  }

  /** Only one prefix is stripped: a second "Bot" after the whitespace stays. */
  lemma HeaderStripsOnePrefix()
    ensures AuthorizationHeader("bot  Bot x") == "Bot Bot x"
  {
    var s := "bot  Bot x";
    assert StartsWithBot(s);
    assert s[3..] == "  " + "Bot x";
    SkipWhitespaceAppend("  ", "Bot x");
    assert StripBotPrefix(s) == "Bot x";
  }

  datatype Request = Request(url: string, authorization: string)

  /** A response to the request: its HTTP status and the `shards` field of its
      JSON body. */
  datatype Response = Response(status: nat, shards: nat)
  {
    /** `res.ok`: a 2xx status. */
    predicate Ok() { 200 <= status <= 299 }
  }

  /** The request `_fetchSessionEndpoint` sends, or the error thrown before
      sending when no token is configured. */
  function SessionRequest(token: Option<string>): (r: Result<Request, Error>)
    ensures r.Failure? <==> token == None || token == Some([])
    ensures r.Failure? ==> r.error == NoToken
    ensures r.Success? ==> r.value.url == GatewayBotUrl
    ensures r.Success? ==> r.value.authorization == AuthorizationHeader(token.value)
  {
    match token
    case None => Failure(NoToken)
    case Some(t) => if t == [] then Failure(NoToken) else Success(Request(GatewayBotUrl, AuthorizationHeader(t)))
  }

  /** The recommended shard count `_fetchSessionEndpoint` resolves to, given the
      response the upstream service would send. */
  function RecommendedShards(token: Option<string>, response: Response): (r: Result<nat, Error>)
    ensures r.Success? <==> SessionRequest(token).Success? && response.Ok()
    ensures r.Success? ==> r.value == response.shards
    ensures SessionRequest(token).Failure? ==> r == Failure(NoToken)
    ensures SessionRequest(token).Success? && !response.Ok() ==> r == Failure(UpstreamResponse(response.status))
  {
    match SessionRequest(token)
    case Failure(e) => Failure(e)
    case Success(_) => if response.Ok() then Success(response.shards) else Failure(UpstreamResponse(response.status))
  }
}
