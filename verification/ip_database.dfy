/** The older, function-style access to the `ip_addresses` table
    (database/ips.py), used by the inline redirect of routers/url.py. Its
    insert-if-absent repeats the enrichment of the service; the column
    allow-list is the table's own column list. */
module IpDatabase {
  import opened Core
  import opened IpTable
  import IpService

  /** `ip_exists`. */
  function IpExists(s: IpStore, address: string): (b: bool)
    requires Valid(s)
    ensures b <==> exists i | 0 <= i < |s.records| :: s.records[i].address == address
  {
    ExistsByAddress(s, address)
  }

  /** `ip_add`: returns at once, without a lookup, for a stored address;
      otherwise one lookup and one new record whose proxy flag is the
      provider's "proxy or hosting". */
  function IpAdd(s: IpStore, address: string, lookup: string -> Option<Reply>,
                 parseFloat: string -> Option<real>): (r: IpService.Ensured)
    requires Valid(s)
    ensures IpExists(s, address) ==> r == IpService.Ensured(Ok(s), 0)
    ensures !IpExists(s, address) ==> r.fetches == 1 && (r.result.Ok? <==> lookup(address).Some?)
    ensures r.result.Ok? ==> Valid(r.result.value)
    ensures r.result.Ok? && !IpExists(s, address) ==>
      && |r.result.value.records| == |s.records| + 1
      && Find(r.result.value, address).Some?
      && (Find(r.result.value, address).value.info.isProxy <==>
            lookup(address).value.proxy || lookup(address).value.hosting)
  {
    var r := IpService.EnsureIp(s, address, lookup, parseFloat);
    assert r.result.Ok? && !IpExists(s, address) ==> Find(r.result.value, address).value == r.result.value.records[|s.records|] by {
      if r.result.Ok? && !IpExists(s, address) {
        IndexOfDistinct(r.result.value, |s.records|);
      }
    }
    r
  }

  /** The answer of `ip_fetchrow`, the table afterwards and the lookups
      made. */
  datatype Fetched = Fetched(result: Result<Option<Row>>, store: IpStore, fetches: nat)

  /** `ip_fetchrow`: `None` for an empty field list, with nothing fetched.
      Otherwise the address is first added if absent; the requested names
      outside the column list are dropped, and the row holds exactly the
      surviving columns of the address's record. When no name survives the
      statement has an empty select list, which PostgreSQL accepts, and the
      answer is the empty row. */
  function IpFetchrow(s: IpStore, address: string, fields: seq<string>, lookup: string -> Option<Reply>,
                      parseFloat: string -> Option<real>): (r: Fetched)
    requires Valid(s)
    ensures |fields| == 0 ==> r == Fetched(Ok(None), s, 0)
    ensures Valid(r.store)
    ensures |fields| > 0 ==> r.fetches == IpAdd(s, address, lookup, parseFloat).fetches
    ensures |fields| > 0 ==> (r.result.Err? <==> IpAdd(s, address, lookup, parseFloat).result.Err?)
    ensures r.result.Ok? && |fields| > 0 ==>
      && r.result.value.Some?
      && Find(r.store, address).Some?
      && r.result.value.value.Keys == (set f | f in fields && f in Columns)
      && forall f | f in r.result.value.value :: r.result.value.value[f] == Column(Find(r.store, address).value, f)
  {
    if |fields| == 0 then Fetched(Ok(None), s, 0)
    else
      var e := IpAdd(s, address, lookup, parseFloat);
      match e.result
      case Err(err) => Fetched(Err(err), s, e.fetches)
      case Ok(t) =>
        var kept := KeepAllowed(fields, Columns);
        var rec := Find(t, address).value;
        Fetched(Ok(Some(map f | f in kept :: Column(rec, f))), t, e.fetches)
  }

  /** Names that are not columns are dropped silently: a list of them only
      still stores the address and answers the empty row. */
  lemma UnknownFieldsGiveEmptyRow(s: IpStore, address: string, fields: seq<string>,
                                  lookup: string -> Option<Reply>, parseFloat: string -> Option<real>)
    requires Valid(s)
    requires |fields| > 0 && forall f | f in fields :: f !in Columns
    requires IpAdd(s, address, lookup, parseFloat).result.Ok?
    ensures IpFetchrow(s, address, fields, lookup, parseFloat).result == Ok(Some(map[]))
    ensures IpExists(IpFetchrow(s, address, fields, lookup, parseFloat).store, address)
  {
  }

  /** `ip_delete`: that address's record goes; every other address keeps
      its record. */
  function IpDelete(s: IpStore, address: string): (r: IpStore)
    requires Valid(s)
    ensures Valid(r)
    ensures !IpExists(r, address)
    ensures forall x | x != address :: Find(r, x) == Find(s, x)
  {
    Remove(s, address)
  }
}
