/** The link service (services/url_service.py): resolving a short code for
    a caller whose proxy flag is already known, and creating a link after
    the code, duplicate and window checks. */
module UrlService {
  import opened Core
  import opened UrlRepository
  import Access

  const CodeTaken := Error(409, "Short code already in use")
  const DuplicateUrl := Error(409, "URL already added by this user")
  const InvertedWindowError := Error(422, "valid_from must be earlier than valid_until")

  /** The columns `resolve_redirect` asks for. */
  const ResolveFields: seq<string> :=
    ["original_url", "valid_from", "valid_until", "password", "expires_at", "allow_proxy"]

  /** The row the repository hands back for `code`, as a link (`None` for
      an unknown code). The projection carries exactly the requested
      columns of that link. */
  function FetchLink(s: LinkStore, code: string, fields: seq<string>): (r: Option<Link>)
    requires Valid(s)
    requires |fields| > 0 && forall f | f in fields :: f in Columns
    ensures r.None? <==> code !in s.links
    ensures r.Some? ==> r.value == s.links[code]
  {
    match FetchrowByShortcode(s, code, fields)
    case Err(_) => None
    case Ok(None) => None
    case Ok(Some(_)) => Some(s.links[code])
  }

  /** `resolve_redirect` with a caller-supplied proxy flag: the decision
      chain on the stored link, so a refused caller gets exactly the error
      the chain names (404, proxy 403, 401, 410 or a window 403). Nothing
      is written. */
  function ResolveRedirect(s: LinkStore, code: string, password: Option<string>, isProxy: Option<bool>,
                           verify: (string, string) -> bool, now: Timestamp): (r: Result<string>)
    requires Valid(s)
    ensures r == Access.Decide(if code in s.links then Some(s.links[code]) else None, isProxy, password, verify, now)
    ensures code !in s.links ==> r == Err(Access.NotFound)
    ensures r.Ok? <==> code in s.links && Access.Admits(s.links[code], isProxy, password, verify, now)
    ensures r.Ok? ==> r.value == s.links[code].originalUrl
    ensures isProxy != Some(true) ==> r != Err(Access.ProxyDenied)
    ensures code in s.links && Access.ProxyBlocked(s.links[code], isProxy) ==> r == Err(Access.ProxyDenied)
  {
    assert forall f | f in ResolveFields :: f in Columns;
    Access.Decide(FetchLink(s, code, ResolveFields), isProxy, password, verify, now)
  }

  /** Both window bounds set and the start not before the end. Equal bounds
      count as inverted; a one-sided window never does. */
  predicate InvertedWindow(validFrom: Option<TimeOfDay>, validUntil: Option<TimeOfDay>) {
    validFrom.Some? && validUntil.Some? && validFrom.value >= validUntil.value
  }

  /** `create_short_url`, storing the password it is given: 409 for a
      taken code, then 409 for a URL the user already shortened, then 422
      for an inverted window; otherwise the repository's insert with the
      arguments unchanged, whose id is returned. On every error the table
      is left as it was (the result carries no table). */
  function CreateShortUrl(s: LinkStore, userId: int, originalUrl: string, shortCode: string,
                          password: Option<string>, validFrom: Option<TimeOfDay>,
                          validUntil: Option<TimeOfDay>, allowProxy: bool, now: Timestamp): (r: Result<Inserted>)
    requires Valid(s)
    ensures ShortcodeExists(s, shortCode) ==> r == Err(CodeTaken)
    ensures !ShortcodeExists(s, shortCode) && ExistsByUserAndUrl(s, userId, originalUrl) ==> r == Err(DuplicateUrl)
    ensures (!ShortcodeExists(s, shortCode) && !ExistsByUserAndUrl(s, userId, originalUrl)
             && InvertedWindow(validFrom, validUntil)) ==> r == Err(InvertedWindowError)
    ensures r.Ok? <==>
      !ShortcodeExists(s, shortCode) && !ExistsByUserAndUrl(s, userId, originalUrl) && !InvertedWindow(validFrom, validUntil)
    ensures r.Ok? ==>
      && Valid(r.value.store)
      && r.value.store.links.Keys == s.links.Keys + {shortCode}
      && r.value.store.links[shortCode] ==
           NewLink(r.value.id, userId, originalUrl, shortCode, password, validFrom, validUntil, allowProxy, now)
      && (forall c | c in s.links :: r.value.store.links[c] == s.links[c])
  {
    if ShortcodeExists(s, shortCode) then Err(CodeTaken)
    else if ExistsByUserAndUrl(s, userId, originalUrl) then Err(DuplicateUrl)
    else if InvertedWindow(validFrom, validUntil) then Err(InvertedWindowError)
    else Add(s, userId, originalUrl, shortCode, password, validFrom, validUntil, allowProxy, now)
  }

  /** Every stored window is well formed. */
  ghost predicate WindowsWellFormed(s: LinkStore) {
    forall c | c in s.links :: !InvertedWindow(s.links[c].validFrom, s.links[c].validUntil)
  }

  /** Links created through the service never carry an inverted window. */
  lemma CreateKeepsWindowsWellFormed(s: LinkStore, userId: int, originalUrl: string, shortCode: string,
                                     password: Option<string>, validFrom: Option<TimeOfDay>,
                                     validUntil: Option<TimeOfDay>, allowProxy: bool, now: Timestamp)
    requires Valid(s) && WindowsWellFormed(s)
    requires CreateShortUrl(s, userId, originalUrl, shortCode, password, validFrom, validUntil, allowProxy, now).Ok?
    ensures WindowsWellFormed(CreateShortUrl(s, userId, originalUrl, shortCode, password, validFrom, validUntil, allowProxy, now).value.store)
  {
  }

  /** Creating the same link twice: the second attempt finds its own code
      and fails 409, so creation is never silently repeated. */
  lemma CreateTwiceRefused(s: LinkStore, userId: int, originalUrl: string, shortCode: string,
                           password: Option<string>, validFrom: Option<TimeOfDay>,
                           validUntil: Option<TimeOfDay>, allowProxy: bool, now: Timestamp, later: Timestamp)
    requires Valid(s)
    requires CreateShortUrl(s, userId, originalUrl, shortCode, password, validFrom, validUntil, allowProxy, now).Ok?
    ensures var t := CreateShortUrl(s, userId, originalUrl, shortCode, password, validFrom, validUntil, allowProxy, now).value.store;
      CreateShortUrl(t, userId, originalUrl, shortCode, password, validFrom, validUntil, allowProxy, later) == Err(CodeTaken)
  {
  }

  /** A fresh, unprotected, proxy-friendly link without a window resolves
      to its URL for every caller during its whole lifetime, from its
      creation instant up to and including its expiry instant. */
  lemma CreateThenResolveOpen(s: LinkStore, userId: int, originalUrl: string, shortCode: string,
                              now: Timestamp, at: Timestamp, isProxy: Option<bool>,
                              password: Option<string>, verify: (string, string) -> bool)
    requires Valid(s)
    requires CreateShortUrl(s, userId, originalUrl, shortCode, None, None, None, true, now).Ok?
    requires now <= at <= now + DefaultLifetime
    ensures var t := CreateShortUrl(s, userId, originalUrl, shortCode, None, None, None, true, now).value.store;
      ResolveRedirect(t, shortCode, password, isProxy, verify, at) == Ok(originalUrl)
  {
  }

  /** A password as the resolvers expect it stored: `hash` is the hashing
      function and `verify` its checker, with `verify(p, hash(p))` for the
      passwords in question. */
  function StoredPassword(password: Option<string>, hash: string -> string): (r: Option<string>)
    ensures r.Some? <==> password.Some?
    ensures r.Some? ==> r.value == hash(password.value)
  {
    if password.Some? then Some(hash(password.value)) else None
  }

  /** `create_short_url` corrected: the password is hashed before it is
      stored, as routers/url.py:22 and registration do, so that the
      resolvers' `verify_hash` can accept it. The checks and their order
      are the service's own, exactly as in `CreateShortUrl`. */
  function CreateShortUrlHashed(s: LinkStore, userId: int, originalUrl: string, shortCode: string,
                                password: Option<string>, validFrom: Option<TimeOfDay>,
                                validUntil: Option<TimeOfDay>, allowProxy: bool, now: Timestamp,
                                hash: string -> string): (r: Result<Inserted>)
    requires Valid(s)
    ensures r.Ok? <==>
      !ShortcodeExists(s, shortCode) && !ExistsByUserAndUrl(s, userId, originalUrl) && !InvertedWindow(validFrom, validUntil)
    ensures r.Err? ==> r == CreateShortUrl(s, userId, originalUrl, shortCode, password, validFrom, validUntil, allowProxy, now)
    ensures r.Ok? ==>
      && Valid(r.value.store)
      && r.value.store.links.Keys == s.links.Keys + {shortCode}
      && r.value.store.links[shortCode].password == StoredPassword(password, hash)
      && r.value.store.links[shortCode].originalUrl == originalUrl
      && r.value.store.links[shortCode].expiresAt == now + DefaultLifetime
      && r.value.store.links[shortCode].validFrom == validFrom
      && r.value.store.links[shortCode].validUntil == validUntil
      && r.value.store.links[shortCode].allowProxy == allowProxy
  {
    CreateShortUrl(s, userId, originalUrl, shortCode, StoredPassword(password, hash),
                   validFrom, validUntil, allowProxy, now)
  }

  /** The creation/resolution round trip with hashing: a link protected
      with a non-empty password `p` opens, for a caller it does not block,
      with `p` itself, at any instant of its lifetime inside its window. */
  lemma HashedPasswordRoundTrip(s: LinkStore, userId: int, originalUrl: string, shortCode: string,
                                p: string, validFrom: Option<TimeOfDay>, validUntil: Option<TimeOfDay>,
                                allowProxy: bool, now: Timestamp, at: Timestamp, isProxy: Option<bool>,
                                hash: string -> string, verify: (string, string) -> bool)
    requires Valid(s)
    requires CreateShortUrlHashed(s, userId, originalUrl, shortCode, Some(p), validFrom, validUntil, allowProxy, now, hash).Ok?
    requires p != "" && verify(p, hash(p))
    requires now <= at <= now + DefaultLifetime
    requires validFrom.Some? ==> validFrom.value <= TimeOf(at)
    requires validUntil.Some? ==> TimeOf(at) <= validUntil.value
    requires allowProxy || isProxy != Some(true)
    ensures var t := CreateShortUrlHashed(s, userId, originalUrl, shortCode, Some(p), validFrom, validUntil, allowProxy, now, hash).value.store;
      ResolveRedirect(t, shortCode, Some(p), isProxy, verify, at) == Ok(originalUrl)
  {
  }

  /** As written, `create_short_url` stores the password as given, so
      whenever the hash checker does not accept a password against itself,
      the owner's own password is refused with 401 "Invalid password". */
  lemma PlainPasswordRefused(s: LinkStore, userId: int, originalUrl: string, shortCode: string,
                             p: string, now: Timestamp, isProxy: Option<bool>,
                             verify: (string, string) -> bool)
    requires Valid(s)
    requires CreateShortUrl(s, userId, originalUrl, shortCode, Some(p), None, None, true, now).Ok?
    requires p != "" && !verify(p, p)
    ensures var t := CreateShortUrl(s, userId, originalUrl, shortCode, Some(p), None, None, true, now).value.store;
      ResolveRedirect(t, shortCode, Some(p), isProxy, verify, now) == Err(Access.InvalidPassword)
  {
  }

  /** A concrete instance: with the hash `"h:" + p` and its checker, a link
      created with password "pw" on an empty table refuses "pw". */
  lemma PlainPasswordCounterexample()
    ensures var hash := (p: string) => "h:" + p;
      var verify := (p: string, h: string) => h == hash(p);
      var t := CreateShortUrl(Empty, 1, "http://a.example", "abc", Some("pw"), None, None, true, 0).value.store;
      && CreateShortUrl(Empty, 1, "http://a.example", "abc", Some("pw"), None, None, true, 0).Ok?
      && ResolveRedirect(t, "abc", Some("pw"), None, verify, 0) == Err(Access.InvalidPassword)
      && ResolveRedirect(
           CreateShortUrlHashed(Empty, 1, "http://a.example", "abc", Some("pw"), None, None, true, 0, hash).value.store,
           "abc", Some("pw"), None, verify, 0) == Ok("http://a.example")
  {
    var hash := (p: string) => "h:" + p;
    var verify := (p: string, h: string) => h == hash(p);
    EmptyValid();
    assert !verify("pw", "pw") by {
      assert hash("pw")[0] == 'h';
    }
    PlainPasswordRefused(Empty, 1, "http://a.example", "abc", "pw", 0, None, verify);
    HashedPasswordRoundTrip(Empty, 1, "http://a.example", "abc", "pw", None, None, true, 0, 0, None, hash, verify);
  }
}
