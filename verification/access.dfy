/** The access decision every redirect path applies to a fetched link row:
    not found, proxy, password, expiry, then the daily window, each failing
    with its own status and message. The same chain is written out in
    services/redirect_service.py, services/url_service.py and
    routers/url.py; this module states it once. */
module Access {
  import opened Core
  import opened UrlRepository

  const NotFound := Error(404, "Short code not found")
  const ProxyDenied := Error(403, "Access denied: proxy detected")
  const PasswordRequired := Error(401, "Password required")
  const InvalidPassword := Error(401, "Invalid password")
  const LinkExpired := Error(410, "Link expired")
  const NotYetAllowed := Error(403, "Access not yet allowed")
  const WindowClosed := Error(403, "Access time window closed")

  /** `is_proxy and not row["allow_proxy"]`: only a caller positively
      flagged as a proxy is turned away, and only by a link that forbids
      proxies. */
  predicate ProxyBlocked(l: Link, isProxy: Option<bool>) {
    isProxy == Some(true) && !l.allowProxy
  }

  /** `row["password"]` is truthy: a stored, non-empty password hash. */
  predicate PasswordProtected(l: Link) {
    Truthy(l.password)
  }

  /** `row["expires_at"] < now`: strictly past the expiry instant. */
  predicate Expired(l: Link, now: Timestamp) {
    l.expiresAt < now
  }

  /** Before the start of the daily window (a `TIME` value is always truthy,
      so only a missing bound imposes nothing). */
  predicate TooEarly(l: Link, now: Timestamp) {
    l.validFrom.Some? && TimeOf(now) < l.validFrom.value
  }

  /** After the end of the daily window. */
  predicate TooLate(l: Link, now: Timestamp) {
    l.validUntil.Some? && TimeOf(now) > l.validUntil.value
  }

  /** The password step: nothing to check on an unprotected link; otherwise
      a missing or empty password is "required" and one the hash does not
      verify is "invalid". */
  function PasswordCheck(l: Link, password: Option<string>, verify: (string, string) -> bool): Option<Error> {
    if !PasswordProtected(l) then None
    else if !Truthy(password) then Some(PasswordRequired)
    else if !verify(password.value, l.password.value) then Some(InvalidPassword)
    else None
  }

  /** Every check passes. */
  predicate Admits(l: Link, isProxy: Option<bool>, password: Option<string>,
                   verify: (string, string) -> bool, now: Timestamp) {
    && !ProxyBlocked(l, isProxy)
    && PasswordCheck(l, password, verify).None?
    && !Expired(l, now)
    && !TooEarly(l, now)
    && !TooLate(l, now)
  }

  /** The decision on a fetched row (`None` when the code is unknown). The
      result is the target URL exactly when the row exists and every check
      passes; otherwise it is the error of the earliest failing check, so
      an unknown code is 404 whatever else holds, and a blocked proxy gets
      403 before any password question is asked. Expiry and the window are
      looked at only once the password step has passed. */
  function Decide(row: Option<Link>, isProxy: Option<bool>, password: Option<string>,
                  verify: (string, string) -> bool, now: Timestamp): (r: Result<string>)
    ensures row.None? ==> r == Err(NotFound)
    ensures r.Ok? <==> row.Some? && Admits(row.value, isProxy, password, verify, now)
    ensures r.Ok? ==> r.value == row.value.originalUrl
    ensures row.Some? && ProxyBlocked(row.value, isProxy) ==> r == Err(ProxyDenied)
    ensures row.Some? && !ProxyBlocked(row.value, isProxy) && PasswordCheck(row.value, password, verify).Some? ==>
      r == Err(PasswordCheck(row.value, password, verify).value)
    ensures r == Err(LinkExpired) <==>
      row.Some? && !ProxyBlocked(row.value, isProxy) && PasswordCheck(row.value, password, verify).None?
      && Expired(row.value, now)
    ensures r.Err? ==> r.error in {NotFound, ProxyDenied, PasswordRequired, InvalidPassword,
                                   LinkExpired, NotYetAllowed, WindowClosed}
  {
    if row.None? then Err(NotFound)
    else
      var l := row.value;
      if ProxyBlocked(l, isProxy) then Err(ProxyDenied)
      else if PasswordProtected(l) && !Truthy(password) then Err(PasswordRequired)
      else if PasswordProtected(l) && !verify(password.value, l.password.value) then Err(InvalidPassword)
      else if Expired(l, now) then Err(LinkExpired)
      else if TooEarly(l, now) then Err(NotYetAllowed)
      else if TooLate(l, now) then Err(WindowClosed)
      else Ok(l.originalUrl)
  }

  /** One step of the chain: whether it fails, and with what. */
  datatype Check = Check(fails: bool, error: Error)

  /** The chain for an existing row, each step judged on its own. */
  function Checklist(l: Link, isProxy: Option<bool>, password: Option<string>,
                     verify: (string, string) -> bool, now: Timestamp): seq<Check> {
    [ Check(ProxyBlocked(l, isProxy), ProxyDenied),
      Check(PasswordProtected(l) && !Truthy(password), PasswordRequired),
      Check(PasswordProtected(l) && Truthy(password) && !verify(password.value, l.password.value), InvalidPassword),
      Check(Expired(l, now), LinkExpired),
      Check(TooEarly(l, now), NotYetAllowed),
      Check(TooLate(l, now), WindowClosed) ]
  }

  /** The error of the first failing step, if any. */
  function FirstFailure(cs: seq<Check>): Option<Error> {
    if |cs| == 0 then None
    else if cs[0].fails then Some(cs[0].error)
    else FirstFailure(cs[1..])
  }

  /** The nested conditions of `Decide` are the ordered checklist: the
      answer is 404 for a missing row, else the error of the first failing
      check, else the target URL. */
  lemma DecideFollowsChecklist(row: Option<Link>, isProxy: Option<bool>, password: Option<string>,
                               verify: (string, string) -> bool, now: Timestamp)
    ensures Decide(row, isProxy, password, verify, now) ==
      if row.None? then Err(NotFound)
      else match FirstFailure(Checklist(row.value, isProxy, password, verify, now))
        case Some(e) => Err(e)
        case None => Ok(row.value.originalUrl)
  {
    if row.Some? {
      var cs := Checklist(row.value, isProxy, password, verify, now);
      forall i | 0 <= i < 6
        ensures FirstFailure(cs[i..]) == if cs[i].fails then Some(cs[i].error) else FirstFailure(cs[i + 1..])
      {
        assert cs[i..][0] == cs[i] && cs[i..][1..] == cs[i + 1..];
      }
      assert FirstFailure(cs[6..]) == None;
      assert cs[0..] == cs;
      assert |cs| == 6;
      assert FirstFailure(cs[5..]) == (if TooLate(row.value, now) then Some(WindowClosed) else None);
    }
  }

  /** Expiry is strict: at the expiry instant itself the link is not yet
      gone, and one microsecond later it is (once the earlier checks pass). */
  lemma ExpiryBoundary(l: Link, isProxy: Option<bool>, password: Option<string>,
                       verify: (string, string) -> bool)
    ensures Decide(Some(l), isProxy, password, verify, l.expiresAt) != Err(LinkExpired)
    ensures !ProxyBlocked(l, isProxy) && PasswordCheck(l, password, verify).None? ==>
      Decide(Some(l), isProxy, password, verify, l.expiresAt + 1) == Err(LinkExpired)
  {
  }

  /** Both ends of the daily window are inclusive: at exactly `valid_from`
      the link is not "not yet allowed", and at exactly `valid_until` it is
      not "closed". Past the ends, with everything before passing, those
      are the answers. */
  lemma WindowBoundsInclusive(l: Link, isProxy: Option<bool>, password: Option<string>,
                              verify: (string, string) -> bool, now: Timestamp)
    ensures l.validFrom.Some? && TimeOf(now) == l.validFrom.value ==>
      Decide(Some(l), isProxy, password, verify, now) != Err(NotYetAllowed)
    ensures l.validUntil.Some? && TimeOf(now) == l.validUntil.value ==>
      Decide(Some(l), isProxy, password, verify, now) != Err(WindowClosed)
    ensures !ProxyBlocked(l, isProxy) && PasswordCheck(l, password, verify).None? && !Expired(l, now) ==>
      (Decide(Some(l), isProxy, password, verify, now) == Err(NotYetAllowed) <==> TooEarly(l, now))
    ensures !ProxyBlocked(l, isProxy) && PasswordCheck(l, password, verify).None? && !Expired(l, now)
            && !TooEarly(l, now) ==>
      (Decide(Some(l), isProxy, password, verify, now) == Err(WindowClosed) <==> TooLate(l, now))
  {
  }

  /** On a protected link that does not block the caller, a missing or
      empty password is "required", a wrong one "invalid", and a right one
      gets past the password step to whatever comes next. */
  lemma PasswordOutcomes(l: Link, isProxy: Option<bool>, password: Option<string>,
                         verify: (string, string) -> bool, now: Timestamp)
    requires PasswordProtected(l) && !ProxyBlocked(l, isProxy)
    ensures !Truthy(password) ==> Decide(Some(l), isProxy, password, verify, now) == Err(PasswordRequired)
    ensures Truthy(password) && !verify(password.value, l.password.value) ==>
      Decide(Some(l), isProxy, password, verify, now) == Err(InvalidPassword)
    ensures Truthy(password) && verify(password.value, l.password.value) ==>
      Decide(Some(l), isProxy, password, verify, now).Ok? ||
      Decide(Some(l), isProxy, password, verify, now).error.status != 401
  {
  }

  /** Without a positive proxy flag (no lookup, or "not a proxy") the proxy
      rule never fires. */
  lemma UnflaggedCallerNeverProxyDenied(row: Option<Link>, isProxy: Option<bool>, password: Option<string>,
                                        verify: (string, string) -> bool, now: Timestamp)
    requires isProxy != Some(true)
    ensures Decide(row, isProxy, password, verify, now) != Err(ProxyDenied)
  {
  }

  /** A link with no password, no window, proxies allowed and not yet
      expired resolves for every caller. */
  lemma OpenLinkResolves(l: Link, isProxy: Option<bool>, password: Option<string>,
                         verify: (string, string) -> bool, now: Timestamp)
    requires !PasswordProtected(l) && l.validFrom.None? && l.validUntil.None? && l.allowProxy
    requires now <= l.expiresAt
    ensures Decide(Some(l), isProxy, password, verify, now) == Ok(l.originalUrl)
  {
  }
}
