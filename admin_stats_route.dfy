/**
  GET /api/admin/stats: an ordered chain of early returns. The authorization header is
  checked first, then the configured password, then the secret comparison, and only
  then are the statistics read.
*/
module AdminStatsRoute {

  import opened Wrappers
  import opened Text
  import opened Utf8
  import opened SecureCompare
  import Db

  const BearerPrefix := "Bearer "
  /** The placeholder value the example configuration ships with. */
  const PlaceholderPassword := "your-secure-password-here"

  const MissingHeaderError := "Missing or invalid authorization header"
  const ConfigurationError := "Server configuration error"
  const UnauthorizedError := "Unauthorized"
  const StatsError := "Failed to retrieve statistics"

  datatype Body = ErrorBody(error: string) | StatsBody(stats: Db.Stats)
  datatype Reply = Reply(status: nat, body: Body)

  /** `authHeader && authHeader.startsWith('Bearer ')`. */
  predicate HeaderWellFormed(authorization: Option<string>) {
    authorization.Some? && authorization.value != "" && StartsWith(authorization.value, BearerPrefix)
  }

  /** `adminPassword && adminPassword !== 'your-secure-password-here'`. */
  predicate PasswordConfigured(adminPassword: Option<string>) {
    adminPassword.Some? && adminPassword.value != "" && adminPassword.value != PlaceholderPassword
  }

  /** `authHeader.replace('Bearer ', '')`. */
  function Token(header: string): string {
    ReplaceFirst(header, BearerPrefix, "")
  }

  /** The token of a well-formed header is everything after its 7-character prefix. */
  lemma TokenIsSuffix(header: string)
    requires StartsWith(header, BearerPrefix)
    ensures Token(header) == header[7..]
  {
    ReplacePrefix(header, BearerPrefix);
  }

  /**
    The handler. `stats` stands for what `getStats()` returns or throws at the moment the
    handler would call it. Statistics are served exactly when the header is well formed,
    the password is configured, the token equals the password up to trailing NUL
    characters, and reading the statistics succeeds.
  */
  function Get(authorization: Option<string>, adminPassword: Option<string>, stats: Result<Db.Stats, string>): (r: Reply)
    ensures r.status == 200 <==>
      HeaderWellFormed(authorization) && PasswordConfigured(adminPassword) &&
      StripNul(authorization.value[7..]) == StripNul(adminPassword.value) && stats.Ok?
    ensures r.status == 200 ==> r.body == StatsBody(stats.value)
    ensures r.status != 200 ==> r.body.ErrorBody? && (r.status == 401 || r.status == 500)
  {
    if !HeaderWellFormed(authorization) then
      Reply(401, ErrorBody(MissingHeaderError))
    else
      var token := Token(authorization.value);
      TokenIsSuffix(authorization.value);
      if !PasswordConfigured(adminPassword) then
        Reply(500, ErrorBody(ConfigurationError))
      else
        SecureEqualIffStripNul(token, adminPassword.value);
        if !SecureEqual(token, adminPassword.value) then
          Reply(401, ErrorBody(UnauthorizedError))
        else
          match stats
          case Ok(s) => Reply(200, StatsBody(s))
          case Err(_) => Reply(500, ErrorBody(StatsError))
  }

  /** A missing or malformed header is refused with 401 before the password is looked at. */
  lemma HeaderCheckedFirst(authorization: Option<string>, p1: Option<string>, p2: Option<string>,
                           s1: Result<Db.Stats, string>, s2: Result<Db.Stats, string>)
    requires !HeaderWellFormed(authorization)
    ensures Get(authorization, p1, s1) == Get(authorization, p2, s2) == Reply(401, ErrorBody(MissingHeaderError))
  {
  }

  /**
    An unset, empty or placeholder password answers 500 whatever the token is: the
    comparison is never reached.
  */
  lemma MisconfigurationFailsClosed(h1: string, h2: string, adminPassword: Option<string>,
                                    s1: Result<Db.Stats, string>, s2: Result<Db.Stats, string>)
    requires StartsWith(h1, BearerPrefix) && StartsWith(h2, BearerPrefix)
    requires !PasswordConfigured(adminPassword)
    ensures Get(Some(h1), adminPassword, s1) == Get(Some(h2), adminPassword, s2) == Reply(500, ErrorBody(ConfigurationError))
  {
  }

  /** A well-formed header whose token does not match a configured password gets 401 `Unauthorized`. */
  lemma MismatchUnauthorized(header: string, adminPassword: string, stats: Result<Db.Stats, string>)
    requires StartsWith(header, BearerPrefix) && PasswordConfigured(Some(adminPassword))
    requires StripNul(header[7..]) != StripNul(adminPassword)
    ensures Get(Some(header), Some(adminPassword), stats) == Reply(401, ErrorBody(UnauthorizedError))
  {
    TokenIsSuffix(header);
    SecureEqualIffStripNul(header[7..], adminPassword);
  }

  /** A token that matches, up to trailing NUL characters, with a failing statistics read gets 500. */
  lemma StatsFailureIs500(header: string, adminPassword: string, error: string)
    requires StartsWith(header, BearerPrefix) && PasswordConfigured(Some(adminPassword))
    requires StripNul(header[7..]) == StripNul(adminPassword)
    ensures Get(Some(header), Some(adminPassword), Err(error)) == Reply(500, ErrorBody(StatsError))
  {
    TokenIsSuffix(header);
    SecureEqualIffStripNul(header[7..], adminPassword);
  }

  /** The configured password followed by NUL characters is accepted as the token. */
  lemma NulPaddedTokenAccepted(adminPassword: string, k: nat, stats: Db.Stats)
    requires PasswordConfigured(Some(adminPassword))
    ensures Get(Some(BearerPrefix + adminPassword + seq(k, _ => NUL)), Some(adminPassword), Ok(stats)) ==
            Reply(200, StatsBody(stats))
  {
    var header := BearerPrefix + adminPassword + seq(k, _ => NUL);
    assert StartsWith(header, BearerPrefix);
    assert header[7..] == adminPassword + seq(k, _ => NUL);
    StripNulOfPadded(adminPassword, k);
  }
}
