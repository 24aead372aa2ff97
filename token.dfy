/**
 * The token that carries a secret's store id and its key through the URL
 * (`id~escapedKey`), and the link the publish handler builds around it.
 */
module Token {
  import opened Wrappers
  import opened Text

  /** `tokenSeparator`. */
  const Separator: char := '~'

  datatype TokenParts = TokenParts(id: string, key: string)

  datatype TokenError = MalformedToken

  /** `strings.Join([]string{id, key}, tokenSeparator)`. */
  function JoinToken(id: string, key: string): (t: string)
    ensures Count(t, Separator) == Count(id, Separator) + Count(key, Separator) + 1
  {
    assert Join([key], Separator) == key;
    CountConcat(id, [Separator] + key, Separator);
    CountConcat([Separator], key, Separator);
    assert Join([id, key], Separator) == id + ([Separator] + key);
    Join([id, key], Separator)
  }

  /**
   * `splitToken`: split on the separator and accept only exactly two pieces.
   * It succeeds exactly when the token holds one separator, and then the two
   * parts are what lies before and after it; empty parts are accepted.
   */
  function SplitToken(t: string): (r: Result<TokenParts, TokenError>)
    ensures r.Success? <==> Count(t, Separator) == 1
    ensures r.Success? ==> Separator !in r.value.id && Separator !in r.value.key
    ensures r.Success? ==> t == r.value.id + [Separator] + r.value.key
  {
    var parts := Split(t, Separator);
    if |parts| != 2 then Failure(MalformedToken)
    else
      JoinSplit(t, Separator);
      Success(TokenParts(parts[0], parts[1]))
  }

  /** A token built from separator-free parts parses back into the same parts. */
  lemma TokenRoundTrip(id: string, key: string)
    requires Separator !in id && Separator !in key
    ensures SplitToken(JoinToken(id, key)) == Success(TokenParts(id, key))
  {
    SplitJoin([id, key], Separator);
  }

  /** A part that holds the separator makes the joined token unparseable. */
  lemma {:induction false} SeparatorInPartBreaksToken(id: string, key: string)
    requires Separator in id || Separator in key
    ensures SplitToken(JoinToken(id, key)).Failure?
  {
    CountZero(id, Separator);
    CountZero(key, Separator);
    CountConcat(id, [Separator] + key, Separator);
    CountConcat([Separator], key, Separator);
    assert Join([key], Separator) == key;
    assert JoinToken(id, key) == id + ([Separator] + key);
  }

  /** Link settings of the publish handler: `proto`, `hostOverride` and `urlPrefix`. */
  datatype LinkConfig = LinkConfig(proto: string, hostOverride: string, urlPrefix: string)

  /** The scheme, defaulting to "http". */
  function Scheme(cfg: LinkConfig): string {
    if cfg.proto == "" then "http" else cfg.proto
  }

  /** The host override when set, the request's host otherwise. */
  function Host(cfg: LinkConfig, requestHost: string): string {
    if cfg.hostOverride != "" then cfg.hostOverride else requestHost
  }

  /** The path between the host and the token: the URL prefix as a directory, when there is one. */
  function PrefixPath(urlPrefix: string): string {
    if urlPrefix == "" then "" else urlPrefix + "/"
  }

  /** `url.JoinPath(proto + "://" + host + "/", urlPrefix, token)`. */
  function Link(cfg: LinkConfig, requestHost: string, token: string): (link: string)
    ensures |token| < |link| && link[|link| - |token| - 1] == '/' && link[|link| - |token|..] == token
  {
    Scheme(cfg) + "://" + Host(cfg, requestHost) + "/" + PrefixPath(cfg.urlPrefix) + token
  }

  /** The last path segment of a link: what follows its last `/`. */
  function LastSegment(link: string): string {
    var parts := Split(link, '/');
    parts[|parts| - 1]
  }

  /**
   * The link starts with the scheme ("http" when none is configured) and the
   * host (the override when it is set), and a token without `/` is its last
   * path segment.
   */
  lemma {:induction false} LinkShape(cfg: LinkConfig, requestHost: string, token: string)
    requires '/' !in token
    ensures var origin := (if cfg.proto == "" then "http" else cfg.proto) + "://"
                          + (if cfg.hostOverride != "" then cfg.hostOverride else requestHost) + "/";
            |origin| <= |Link(cfg, requestHost, token)| &&
            Link(cfg, requestHost, token)[..|origin|] == origin
    ensures LastSegment(Link(cfg, requestHost, token)) == token
  {
    var link := Link(cfg, requestHost, token);
    if cfg.urlPrefix == "" {
      var x := Scheme(cfg) + "://" + Host(cfg, requestHost);
      assert link == x + ['/'] + token;
      SplitLastPiece(x, token, '/');
    } else {
      var x := Scheme(cfg) + "://" + Host(cfg, requestHost) + "/" + cfg.urlPrefix;
      assert link == x + ['/'] + token;
      SplitLastPiece(x, token, '/');
    }
  }
}
