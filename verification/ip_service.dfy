/** The enrichment cache (services/ip_service.py): an address is looked up
    with the external provider the first time it is seen, stored, and from
    then on answered from the table without ever being refreshed. The
    provider is the `lookup` parameter; `None` stands for a request or
    decoding failure, which the code does not catch. */
module IpService {
  import opened Core
  import opened IpTable

  /** The table after `ensure_ip` (or the escaped exception) and the number
      of provider requests made. */
  datatype Ensured = Ensured(result: Result<IpStore>, fetches: nat)

  /** `ensure_ip`: nothing happens, and nothing is fetched, for a known
      address; an unknown one is fetched once and, if the lookup succeeds,
      stored as exactly one new record built from the reply. */
  function EnsureIp(s: IpStore, address: string, lookup: string -> Option<Reply>,
                    parseFloat: string -> Option<real>): (r: Ensured)
    requires Valid(s)
    ensures ExistsByAddress(s, address) ==> r == Ensured(Ok(s), 0)
    ensures !ExistsByAddress(s, address) ==> r.fetches == 1
    ensures r.result.Err? <==> !ExistsByAddress(s, address) && lookup(address).None?
    ensures r.result.Err? ==> r.result.error == InternalError
    ensures r.result.Ok? ==> Valid(r.result.value) && ExistsByAddress(r.result.value, address)
    ensures r.result.Ok? && !ExistsByAddress(s, address) ==>
      r.result.value.records == s.records + [IpRecord(s.nextId, address, Enrich(lookup(address).value, parseFloat))]
  {
    if ExistsByAddress(s, address) then Ensured(Ok(s), 0)
    else
      match lookup(address)
      case None => Ensured(Err(InternalError), 1)
      case Some(reply) => Ensured(Add(s, address, Enrich(reply, parseFloat)), 1)
  }

  /** The answer of `is_proxy`, the table afterwards, and the provider
      requests made. */
  datatype Probe = Probe(result: Result<bool>, store: IpStore, fetches: nat)

  /** `is_proxy`: `ensure_ip`, then the stored flag. For a known address
      that is the flag stored when it was first seen, whatever the provider
      would say now; for a new one it is "proxy or hosting" from the
      single lookup. */
  function IsProxy(s: IpStore, address: string, lookup: string -> Option<Reply>,
                   parseFloat: string -> Option<real>): (r: Probe)
    requires Valid(s)
    ensures Valid(r.store)
    ensures r.fetches == if ExistsByAddress(s, address) then 0 else 1
    ensures ExistsByAddress(s, address) ==> r == Probe(Ok(Find(s, address).value.info.isProxy), s, 0)
    ensures !ExistsByAddress(s, address) ==>
      && (r.result.Ok? <==> lookup(address).Some?)
      && (r.result.Ok? ==> r.result.value == (lookup(address).value.proxy || lookup(address).value.hosting))
    ensures r.result.Err? ==> r.store == s
    ensures r.result.Ok? ==> Find(r.store, address).Some? && r.result.value == Find(r.store, address).value.info.isProxy
  {
    var e := EnsureIp(s, address, lookup, parseFloat);
    match e.result
    case Err(err) => Probe(Err(err), s, e.fetches)
    case Ok(t) =>
      assert !ExistsByAddress(s, address) ==> Find(t, address).value == t.records[|s.records|] by {
        if !ExistsByAddress(s, address) {
          IndexOfDistinct(t, |s.records|);
        }
      }
      Probe(Ok(Find(t, address).value.info.isProxy), t, e.fetches)
  }

  /** The caller's record id, which `resolve_redirect` asks for right after
      `is_proxy`. The service class defines no such method; this is the
      evident intent, the `id` column of the address's row. It is the key
      the statistics join a click on, so looking it up again by id gives
      back the caller's own record. */
  function GetIpId(s: IpStore, address: string): (r: Option<int>)
    requires Valid(s)
    ensures r.Some? <==> ExistsByAddress(s, address)
    ensures r.Some? ==> FindById(s, r) == Find(s, address)
  {
    match Find(s, address)
    case None => None
    case Some(rec) =>
      Some(rec.id)
  }

  /** `ensure_ip` is idempotent: once it has stored an address, a second
      call changes nothing and asks the provider nothing, whatever the
      provider would answer. */
  lemma EnsureIpIdempotent(s: IpStore, address: string, lookup: string -> Option<Reply>,
                           parseFloat: string -> Option<real>, lookup2: string -> Option<Reply>)
    requires Valid(s)
    requires EnsureIp(s, address, lookup, parseFloat).result.Ok?
    ensures var t := EnsureIp(s, address, lookup, parseFloat).result.value;
      EnsureIp(t, address, lookup2, parseFloat) == Ensured(Ok(t), 0)
  {
  }

  /** The cached flag is never refreshed: after a successful `is_proxy`,
      every later call answers the same flag without a lookup, even if the
      provider's classification has changed. */
  lemma ProxyFlagNeverRefreshed(s: IpStore, address: string, lookup: string -> Option<Reply>,
                                parseFloat: string -> Option<real>, later: string -> Option<Reply>)
    requires Valid(s)
    requires IsProxy(s, address, lookup, parseFloat).result.Ok?
    ensures var p := IsProxy(s, address, lookup, parseFloat);
      IsProxy(p.store, address, later, parseFloat) == Probe(p.result, p.store, 0)
  {
  }
}
