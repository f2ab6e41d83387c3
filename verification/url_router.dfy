/** The router that predates the services (routers/url.py): link creation
    on top of the function-style table access, and an inline redirect that
    enriches the caller with the older address helpers and records no
    click. */
module UrlRouter {
  import opened Core
  import opened UrlRepository
  import IpTable
  import IpService
  import IpDatabase
  import UrlDatabase
  import UrlService
  import Access
  import RedirectService

  /** The body of `POST /api/url/add` (`UrlAddReq`), with the URL already in
      its string form. */
  datatype UrlAddReq = UrlAddReq(
    originalUrl: string,
    shortCode: string,
    password: Option<string>,
    validFrom: Option<TimeOfDay>,
    validUntil: Option<TimeOfDay>,
    allowProxy: bool)

  /** The answer of `add` and the table afterwards. */
  datatype Added = Added(result: Result<string>, store: LinkStore)

  /** `add`: the password, when given, is hashed before `url_add`; any status
      other than 201 becomes an error carrying that status and message. */
  function Add(s: LinkStore, userId: int, data: UrlAddReq, hash: string -> string,
               urlparse: string -> UrlDatabase.ParsedUrl, now: Timestamp): (r: Added)
    requires Valid(s)
    ensures Valid(r.store)
    ensures var a := UrlDatabase.UrlAdd(s, userId, data.originalUrl, data.shortCode,
                                        UrlService.StoredPassword(data.password, hash),
                                        data.validFrom, data.validUntil, data.allowProxy, urlparse, now);
      && r.store == a.store
      && (r.result.Ok? <==> a.status == 201)
      && (r.result.Ok? ==> r.result.value == UrlDatabase.AddedMessage)
      && (r.result.Err? ==> r.result.error == Error(a.status, a.message) && r.store == s)
    ensures r.result.Ok? ==>
      && data.shortCode in r.store.links
      && r.store.links[data.shortCode].password == UrlService.StoredPassword(data.password, hash)
  {
    var a := UrlDatabase.UrlAdd(s, userId, data.originalUrl, data.shortCode,
                                UrlService.StoredPassword(data.password, hash),
                                data.validFrom, data.validUntil, data.allowProxy, urlparse, now);
    if a.status != 201 then Added(Err(Error(a.status, a.message)), a.store)
    else Added(Ok(a.message), a.store)
  }

  const MissingClientIp := Error(400, "Missing client IP")
  const InvalidIp := Error(400, "Invalid IP address")

  /** The columns the inline redirect asks for. */
  const RouterFields: seq<string> :=
    ["original_url", "valid_from", "valid_until", "password", "expires_at", "allow_proxy"]

  /** What the router cannot compute itself: `ip_address` (the canonical
      address, or `None` for a `ValueError`), `is_loopback`, the enrichment
      provider, `float()` and `verify_hash`. */
  datatype Env = Env(
    parseIp: string -> Option<string>,
    isLoopback: string -> bool,
    lookup: string -> Option<IpTable.Reply>,
    parseFloat: string -> Option<real>,
    verify: (string, string) -> bool)

  /** The caller's proxy flag (`None` when the address was not looked at),
      the address table afterwards and the provider requests made. */
  datatype Probed = Probed(result: Result<Option<bool>>, ips: IpTable.IpStore, fetches: nat)

  /** `ip_add` followed by `ip_fetchrow(ip, "is_proxy")` for a non-loopback
      caller; a loopback caller is not looked at. This computes the same
      flag, table and request count as the service's `is_proxy`. */
  function ProxyFlag(ips: IpTable.IpStore, address: string, env: Env): (r: Probed)
    requires IpTable.Valid(ips)
    ensures IpTable.Valid(r.ips)
    ensures env.isLoopback(address) ==> r == Probed(Ok(None), ips, 0)
    ensures !env.isLoopback(address) ==>
      var p := IpService.IsProxy(ips, address, env.lookup, env.parseFloat);
      && r.ips == p.store
      && r.fetches == p.fetches
      && (r.result.Ok? <==> p.result.Ok?)
      && (r.result.Ok? ==> r.result.value == Some(p.result.value))
      && (r.result.Err? ==> r.result.error == InternalError)
  {
    if env.isLoopback(address) then Probed(Ok(None), ips, 0)
    else
      var a := IpDatabase.IpAdd(ips, address, env.lookup, env.parseFloat);
      match a.result
      case Err(e) => Probed(Err(e), ips, a.fetches)
      case Ok(t) =>
        var f := IpDatabase.IpFetchrow(t, address, ["is_proxy"], env.lookup, env.parseFloat);
        var n: nat := a.fetches + f.fetches;
        match f.result
        case Err(e) => Probed(Err(e), f.store, n)
        case Ok(None) => Probed(Ok(None), f.store, n)
        case Ok(Some(row)) =>
          assert "is_proxy" in row;
          Probed(Ok(Some(row["is_proxy"] == Bool(true))), f.store, n)
  }

  /** The answer of the inline redirect, the address table afterwards and
      the provider requests made. */
  datatype Answer = Answer(result: Result<string>, ips: IpTable.IpStore, fetches: nat)

  /** `redirect`: 400 for a missing or empty client host, 400 for a host
      that is not an address (both before any lookup), then the caller's
      flag, then the decision chain on the code's row. The link table is
      only read and no click is recorded. */
  function Redirect(links: LinkStore, ips: IpTable.IpStore, code: string, host: Option<string>,
                    password: Option<string>, env: Env, now: Timestamp): (r: Answer)
    requires Valid(links) && IpTable.Valid(ips)
    ensures IpTable.Valid(r.ips)
    ensures !Truthy(host) ==> r == Answer(Err(MissingClientIp), ips, 0)
    ensures Truthy(host) && env.parseIp(host.value).None? ==> r == Answer(Err(InvalidIp), ips, 0)
    ensures Truthy(host) && env.parseIp(host.value).Some? ==>
      var p := ProxyFlag(ips, env.parseIp(host.value).value, env);
      && r.ips == p.ips
      && r.fetches == p.fetches
      && (p.result.Err? ==> r.result == Err(InternalError))
      && (p.result.Ok? ==>
            r.result == Access.Decide(if code in links.links then Some(links.links[code]) else None,
                                      p.result.value, password, env.verify, now))
  {
    if !Truthy(host) then Answer(Err(MissingClientIp), ips, 0)
    else match env.parseIp(host.value)
      case None => Answer(Err(InvalidIp), ips, 0)
      case Some(address) =>
        var p := ProxyFlag(ips, address, env);
        match p.result
        case Err(e) => Answer(Err(e), p.ips, p.fetches)
        case Ok(isProxy) =>
          assert forall f | f in RouterFields :: f in Columns;
          var row := UrlService.FetchLink(links, code, RouterFields);
          Answer(Access.Decide(row, isProxy, password, env.verify, now), p.ips, p.fetches)
  }

  /** The inline redirect and the redirect service give the same answer and
      leave the same address table for every caller whose host parses,
      given the same provider and password checker; they differ only in
      that the service records a click. */
  lemma RouterAgreesWithService(w: RedirectService.World, code: string, password: Option<string>,
                                host: string, userAgent: string, senv: RedirectService.Env,
                                parseIp: string -> Option<string>, now: Timestamp)
    requires RedirectService.Valid(w)
    requires host != "" && parseIp(host).Some?
    ensures var env := Env(parseIp, senv.isLoopback, senv.lookup, senv.parseFloat, senv.verify);
      var a := Redirect(w.links, w.ips, code, Some(host), password, env, now);
      var o := RedirectService.ResolveRedirect(w, code, password, parseIp(host).value, userAgent, senv, now);
      a.result == o.result && a.ips == o.world.ips && a.fetches == o.fetches
  {
  }

  /** What a successful `add` stores under the new code. */
  lemma AddedLink(s: LinkStore, userId: int, data: UrlAddReq, hash: string -> string,
                  urlparse: string -> UrlDatabase.ParsedUrl, created: Timestamp)
    requires Valid(s)
    requires Add(s, userId, data, hash, urlparse, created).result.Ok?
    ensures var t := Add(s, userId, data, hash, urlparse, created).store;
      && Valid(t)
      && data.shortCode in t.links
      && t.links[data.shortCode].password == UrlService.StoredPassword(data.password, hash)
      && t.links[data.shortCode].expiresAt == created + DefaultLifetime
      && t.links[data.shortCode].validFrom == data.validFrom
      && t.links[data.shortCode].validUntil == data.validUntil
      && t.links[data.shortCode].allowProxy == data.allowProxy
  {
    var a := UrlDatabase.UrlAdd(s, userId, data.originalUrl, data.shortCode,
                                UrlService.StoredPassword(data.password, hash),
                                data.validFrom, data.validUntil, data.allowProxy, urlparse, created);
    assert a.status == 201;
  }

  /** Unlike the service path, the router hashes the password it stores, so
      the owner's password opens the link it has just created (inside the
      link's lifetime, with no window and proxies allowed). */
  lemma AddedPasswordOpensLink(s: LinkStore, userId: int, data: UrlAddReq, hash: string -> string,
                               urlparse: string -> UrlDatabase.ParsedUrl, created: Timestamp,
                               ips: IpTable.IpStore, host: string, env: Env, now: Timestamp)
    requires Valid(s) && IpTable.Valid(ips)
    requires Add(s, userId, data, hash, urlparse, created).result.Ok?
    requires data.password.Some? && data.password.value != ""
    requires env.verify(data.password.value, hash(data.password.value))
    requires data.validFrom.None? && data.validUntil.None? && data.allowProxy
    requires now <= created + DefaultLifetime
    requires host != "" && env.parseIp(host).Some?
    requires ProxyFlag(ips, env.parseIp(host).value, env).result.Ok?
    ensures var t := Add(s, userId, data, hash, urlparse, created).store;
      Redirect(t, ips, data.shortCode, Some(host), data.password, env, now).result
        == Ok(t.links[data.shortCode].originalUrl)
  {
    AddedLink(s, userId, data, hash, urlparse, created);
    var t := Add(s, userId, data, hash, urlparse, created).store;
    var flag := ProxyFlag(ips, env.parseIp(host).value, env).result.value;
    HashedLinkAdmits(t.links[data.shortCode], flag, data.password.value, hash, env.verify, now);
    AdmittedRedirects(t, ips, data.shortCode, host, data.password, env, now);
  }

  /** A link holding the hash of the offered password, with no window and
      proxies allowed, admits every caller before its expiry. */
  lemma HashedLinkAdmits(l: Link, flag: Option<bool>, password: string, hash: string -> string,
                         verify: (string, string) -> bool, now: Timestamp)
    requires l.password == Some(hash(password)) && password != "" && verify(password, hash(password))
    requires l.validFrom.None? && l.validUntil.None? && l.allowProxy
    requires now <= l.expiresAt
    ensures Access.Admits(l, flag, Some(password), verify, now)
  {
  }

  /** A caller whose host parses and whose flag is known is sent to the
      target of any link that admits it. */
  lemma AdmittedRedirects(links: LinkStore, ips: IpTable.IpStore, code: string, host: string,
                          password: Option<string>, env: Env, now: Timestamp)
    requires Valid(links) && IpTable.Valid(ips)
    requires host != "" && env.parseIp(host).Some?
    requires ProxyFlag(ips, env.parseIp(host).value, env).result.Ok?
    requires code in links.links
    requires Access.Admits(links.links[code], ProxyFlag(ips, env.parseIp(host).value, env).result.value,
                           password, env.verify, now)
    ensures Redirect(links, ips, code, Some(host), password, env, now).result == Ok(links.links[code].originalUrl)
  {
  }
}
