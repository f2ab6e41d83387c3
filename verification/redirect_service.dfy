/** The redirect service (services/redirect_service.py): enrich the caller's
    address, run the decision chain on the short code's row, and record one
    click when, and only when, the redirect succeeds. */
module RedirectService {
  import opened Core
  import opened UrlRepository
  import IpTable
  import IpService
  import opened ClickRepository
  import ClickService
  import UrlService
  import Access

  /** The three tables the service touches. */
  datatype World = World(links: LinkStore, ips: IpTable.IpStore, clicks: seq<Click>)

  ghost predicate Valid(w: World) {
    UrlRepository.Valid(w.links) && IpTable.Valid(w.ips)
  }

  /** What the service cannot compute itself: the loopback test, the
      enrichment provider, `float()`, the password checker and the
      user-agent parser. */
  datatype Env = Env(
    isLoopback: string -> bool,
    lookup: string -> Option<IpTable.Reply>,
    parseFloat: string -> Option<real>,
    verify: (string, string) -> bool,
    parse: string -> ClickService.UserAgent)

  /** The answer, the tables afterwards and the provider requests made. */
  datatype Outcome = Outcome(result: Result<string>, world: World, fetches: nat)

  /** The columns `resolve_redirect` asks for. */
  const RedirectFields: seq<string> :=
    ["id", "original_url", "valid_from", "valid_until", "password", "expires_at", "allow_proxy"]

  /** The caller's proxy flag and record id, the address table after
      enrichment and the requests made; `None` flag and id for a loopback
      caller. */
  datatype Caller = Caller(isProxy: Option<bool>, ipId: Option<int>, ips: IpTable.IpStore, fetches: nat)

  /** Enrichment of a non-loopback caller: `is_proxy` (which stores the
      address on first sight), then the caller's record id. A failed lookup
      escapes as an internal error, and it is the only way enrichment fails.
      This is the corrected enrichment: the code as written asks the address
      service for a `get_ip_id` it does not have (`ResolveRedirectAsWritten`);
      here the id is `IpService.GetIpId` on the table `is_proxy` left. */
  function Enrich(ips: IpTable.IpStore, address: string, env: Env): (r: Result<Caller>)
    requires IpTable.Valid(ips)
    ensures env.isLoopback(address) ==> r == Ok(Caller(None, None, ips, 0))
    ensures !env.isLoopback(address) ==>
      var p := IpService.IsProxy(ips, address, env.lookup, env.parseFloat);
      && (r.Ok? <==> p.result.Ok?)
      && (r.Ok? ==> r.value == Caller(Some(p.result.value), IpService.GetIpId(p.store, address), p.store, p.fetches))
    ensures r.Err? <==> !env.isLoopback(address) && !IpTable.ExistsByAddress(ips, address) && env.lookup(address).None?
    ensures r.Ok? && !env.isLoopback(address) ==>
      IpTable.FindById(r.value.ips, r.value.ipId) == IpTable.Find(r.value.ips, address)
    ensures r.Ok? ==> IpTable.Valid(r.value.ips) && r.value.fetches <= 1
  {
    if env.isLoopback(address) then Ok(Caller(None, None, ips, 0))
    else
      var p := IpService.IsProxy(ips, address, env.lookup, env.parseFloat);
      match p.result
      case Err(e) => Err(e)
      case Ok(flag) => Ok(Caller(Some(flag), IpService.GetIpId(p.store, address), p.store, p.fetches))
  }

  /** `resolve_redirect`. Enrichment comes first, so an unknown code is
      answered 404 only after a non-loopback caller has been looked up.
      The answer is the decision chain on the row with the caller's flag;
      on success exactly one click is appended, with the link's id and the
      caller's record id, and on every failure no click is written. The
      link table is never written. */
  function ResolveRedirect(w: World, code: string, password: Option<string>, address: string,
                           userAgent: string, env: Env, now: Timestamp): (r: Outcome)
    requires Valid(w)
    ensures Valid(r.world)
    ensures r.world.links == w.links
    ensures Enrich(w.ips, address, env).Err? ==> r == Outcome(Err(InternalError), w, 1)
    ensures Enrich(w.ips, address, env).Ok? ==>
      var c := Enrich(w.ips, address, env).value;
      && r.world.ips == c.ips
      && r.fetches == c.fetches
      && r.result == Access.Decide(if code in w.links.links then Some(w.links.links[code]) else None,
                                   c.isProxy, password, env.verify, now)
    ensures r.result.Err? ==> r.world.clicks == w.clicks
    ensures r.result.Ok? ==>
      && code in w.links.links
      && r.result.value == w.links.links[code].originalUrl
      && |r.world.clicks| == |w.clicks| + 1
      && r.world.clicks[..|w.clicks|] == w.clicks
      && r.world.clicks[|w.clicks|].urlId == w.links.links[code].id
      && r.world.clicks[|w.clicks|].ip == Enrich(w.ips, address, env).value.ipId
      && r.world.clicks[|w.clicks|].clickedAt == now
  {
    match Enrich(w.ips, address, env)
    case Err(e) => Outcome(Err(e), w, 1)
    case Ok(c) =>
      assert forall f | f in RedirectFields :: f in Columns;
      var row := UrlService.FetchLink(w.links, code, RedirectFields);
      var w' := w.(ips := c.ips);
      match Access.Decide(row, c.isProxy, password, env.verify, now)
      case Err(e) => Outcome(Err(e), w', c.fetches)
      case Ok(url) =>
        var clicks := ClickService.InsertClick(w.clicks, row.value.id, userAgent, c.ipId, env.parse, now);
        Outcome(Ok(url), w'.(clicks := clicks), c.fetches)
  }

  /** An unknown code is 404 whatever the password, unless the caller is
      a new remote address the provider cannot answer for, which is 500
      before the code is looked at. A remote caller's address has been
      stored by the time the 404 is given. */
  lemma UnknownCodeNotFound(w: World, code: string, password: Option<string>, address: string,
                            userAgent: string, env: Env, now: Timestamp)
    requires Valid(w)
    requires code !in w.links.links
    ensures var r := ResolveRedirect(w, code, password, address, userAgent, env, now);
      r.result == if Enrich(w.ips, address, env).Ok? then Err(Access.NotFound) else Err(InternalError)
    ensures Enrich(w.ips, address, env).Ok? && !env.isLoopback(address) ==>
      IpTable.ExistsByAddress(ResolveRedirect(w, code, password, address, userAgent, env, now).world.ips, address)
  {
  }

  /** A loopback caller is not looked up, gets no proxy flag and no record
      id, and is never refused as a proxy. */
  lemma LoopbackSkipsEnrichment(w: World, code: string, password: Option<string>, address: string,
                                userAgent: string, env: Env, now: Timestamp)
    requires Valid(w)
    requires env.isLoopback(address)
    ensures var r := ResolveRedirect(w, code, password, address, userAgent, env, now);
      && r.fetches == 0
      && r.world.ips == w.ips
      && r.result != Err(Access.ProxyDenied)
      && (r.result.Ok? ==> r.world.clicks[|w.clicks|].ip == None)
  {
  }

  /** Clicks are counted exactly: across any resolution the log grows by
      one when the answer is the target URL and by none otherwise. */
  lemma ClickCountMatchesSuccess(w: World, code: string, password: Option<string>, address: string,
                                 userAgent: string, env: Env, now: Timestamp)
    requires Valid(w)
    ensures var r := ResolveRedirect(w, code, password, address, userAgent, env, now);
      |r.world.clicks| == |w.clicks| + (if r.result.Ok? then 1 else 0)
  {
  }

  /** A link with no password, no time window, proxies allowed and not
      past its expiry at `now`. */
  predicate OpenAt(l: Link, now: Timestamp) {
    l.password.None? && l.validFrom.None? && l.validUntil.None? && l.allowProxy && now <= l.expiresAt
  }

  /** A link with no password, no window, proxies allowed and not past its
      expiry resolves for every caller whose enrichment succeeds: a
      loopback caller, an address already stored, or one the provider
      answers for. Any other caller gets 500. */
  lemma OpenLinkAlwaysResolves(w: World, code: string, password: Option<string>, address: string,
                               userAgent: string, env: Env, now: Timestamp)
    requires Valid(w)
    requires code in w.links.links && OpenAt(w.links.links[code], now)
    ensures var r := ResolveRedirect(w, code, password, address, userAgent, env, now);
      r.result == if Enrich(w.ips, address, env).Ok? then Ok(w.links.links[code].originalUrl) else Err(InternalError)
  {
  }

  /** A remote caller's click carries the id of the caller's own address
      record, so the statistics' join on `clicks.ip` finds that record and
      counts the click under its country and proxy flag. */
  lemma ClickJoinsCaller(w: World, code: string, password: Option<string>, address: string,
                         userAgent: string, env: Env, now: Timestamp)
    requires Valid(w)
    requires !env.isLoopback(address)
    ensures var r := ResolveRedirect(w, code, password, address, userAgent, env, now);
      r.result.Ok? ==>
        var rec := IpTable.FindById(r.world.ips, r.world.clicks[|w.clicks|].ip);
        rec.Some? && rec.value.address == address && rec.value in r.world.ips.records
  {
  }

  /** `resolve_redirect` as written. The address service has no `get_ip_id`,
      so for a non-loopback caller the attribute lookup raises right after
      `is_proxy` has run (and stored a new address): the answer is an
      internal error, the link is never read and no click is written. A
      loopback caller skips both calls and is served as by the corrected
      `ResolveRedirect`. */
  function ResolveRedirectAsWritten(w: World, code: string, password: Option<string>, address: string,
                                    userAgent: string, env: Env, now: Timestamp): (r: Outcome)
    requires Valid(w)
    ensures Valid(r.world)
    ensures r.world.links == w.links
    ensures env.isLoopback(address) ==> r == ResolveRedirect(w, code, password, address, userAgent, env, now)
  {
    if env.isLoopback(address) then ResolveRedirect(w, code, password, address, userAgent, env, now)
    else
      var p := IpService.IsProxy(w.ips, address, env.lookup, env.parseFloat);
      Outcome(Err(InternalError), w.(ips := p.store), p.fetches)
  }

  /** The discrepancy: as written, every non-loopback caller gets 500 and
      no click is recorded, even for an open link that the corrected
      service resolves for that same caller. */
  lemma RemoteCallerFailsAsWritten(w: World, code: string, password: Option<string>, address: string,
                                   userAgent: string, env: Env, now: Timestamp)
    requires Valid(w)
    requires !env.isLoopback(address)
    ensures var r := ResolveRedirectAsWritten(w, code, password, address, userAgent, env, now);
      && r.result == Err(InternalError)
      && r.world.clicks == w.clicks
      && r.world.ips == IpService.IsProxy(w.ips, address, env.lookup, env.parseFloat).store
    ensures code in w.links.links && OpenAt(w.links.links[code], now) && IpTable.ExistsByAddress(w.ips, address) ==>
      && ResolveRedirect(w, code, password, address, userAgent, env, now).result.Ok?
      && ResolveRedirectAsWritten(w, code, password, address, userAgent, env, now).result.Err?
  {
    if code in w.links.links && OpenAt(w.links.links[code], now) {
      OpenLinkAlwaysResolves(w, code, password, address, userAgent, env, now);
    }
  }
}
