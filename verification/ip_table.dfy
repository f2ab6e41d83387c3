/** The `ip_addresses` table behind the enrichment cache: one record per
    address, created from the enrichment provider's answer and never
    updated. The plain queries of repositories/ip_repository.py are the
    operations here. */
module IpTable {
  import opened Core

  /** The fields the code reads from the provider's JSON answer for one
      address. Coordinates arrive as text and go through `float()`. */
  datatype Reply = Reply(
    timezone: Option<string>,
    provider: Option<string>,
    country: Option<string>,
    region: Option<string>,
    city: Option<string>,
    latitude: string,
    longitude: string,
    proxy: bool,
    hosting: bool)

  /** What is stored about an address. */
  datatype Info = Info(
    timezone: Option<string>,
    provider: Option<string>,
    country: Option<string>,
    region: Option<string>,
    city: Option<string>,
    latitude: Option<real>,
    longitude: Option<real>,
    isProxy: bool)

  datatype IpRecord = IpRecord(id: nat, address: string, info: Info)

  /** The table in insertion order, and the next `SERIAL` id. */
  datatype IpStore = IpStore(records: seq<IpRecord>, nextId: nat)

  const Empty := IpStore([], 1)

  /** `ip_address` is unique, ids are unique and below `nextId`. */
  ghost predicate Valid(s: IpStore) {
    && s.nextId >= 1
    && (forall i | 0 <= i < |s.records| :: 1 <= s.records[i].id < s.nextId)
    && (forall i, j | 0 <= i < j < |s.records| ::
          s.records[i].address != s.records[j].address && s.records[i].id != s.records[j].id)
  }

  /** Position of the first record satisfying `matches`. */
  function IndexWhere(records: seq<IpRecord>, matches: IpRecord -> bool): (r: Option<nat>)
    ensures r.Some? ==> r.value < |records| && matches(records[r.value])
    ensures r.Some? ==> forall i | 0 <= i < r.value :: !matches(records[i])
    ensures r.None? <==> forall i | 0 <= i < |records| :: !matches(records[i])
  {
    if |records| == 0 then None
    else if matches(records[0]) then Some(0)
    else match IndexWhere(records[1..], matches)
      case None => None
      case Some(k) =>
        assert forall i | 1 <= i < k + 1 :: records[i] == records[1..][i - 1];
        Some(k + 1)
  }

  /** Position of the record for `address`. */
  function IndexOf(records: seq<IpRecord>, address: string): Option<nat> {
    IndexWhere(records, (r: IpRecord) => r.address == address)
  }

  /** `exists_by_address` / `ip_exists`. */
  predicate ExistsByAddress(s: IpStore, address: string) {
    IndexOf(s.records, address).Some?
  }

  /** The record stored for an address. */
  function Find(s: IpStore, address: string): (r: Option<IpRecord>)
    requires Valid(s)
    ensures r.Some? <==> ExistsByAddress(s, address)
    ensures r.Some? ==> r.value in s.records && r.value.address == address
  {
    match IndexOf(s.records, address)
    case None => None
    case Some(i) => Some(s.records[i])
  }

  /** The record with primary key `id` (the target of a `LEFT JOIN ... ON
      c.ip = i.id`). */
  function FindById(s: IpStore, id: Option<int>): (r: Option<IpRecord>)
    ensures r.Some? ==> id.Some? && r.value in s.records && r.value.id == id.value
    ensures id.Some? && (exists i | 0 <= i < |s.records| :: s.records[i].id == id.value) ==> r.Some?
  {
    if id.None? then None
    else match IndexWhere(s.records, (r: IpRecord) => r.id == id.value)
      case None => None
      case Some(i) => Some(s.records[i])
  }

  /** `float(lat)`, `float(lon)` inside one `try`: if either fails both
      coordinates are `None`. */
  function ParseCoordinates(latitude: string, longitude: string, parseFloat: string -> Option<real>):
    (r: (Option<real>, Option<real>))
    ensures r.0.None? <==> r.1.None?
    ensures r.0.Some? <==> parseFloat(latitude).Some? && parseFloat(longitude).Some?
    ensures r.0.Some? ==> r.0 == parseFloat(latitude) && r.1 == parseFloat(longitude)
  {
    var lat := parseFloat(latitude);
    if lat.None? then (None, None)
    else
      var lon := parseFloat(longitude);
      if lon.None? then (None, None) else (lat, lon)
  }

  /** The stored form of a reply: location and network fields copied, the
      coordinates parsed, and the proxy flag set when the provider detects
      either a proxy or a hosting network. */
  function Enrich(reply: Reply, parseFloat: string -> Option<real>): (info: Info)
    ensures info.isProxy <==> reply.proxy || reply.hosting
    ensures info.country == reply.country && info.city == reply.city && info.region == reply.region
    ensures info.timezone == reply.timezone && info.provider == reply.provider
    ensures info.latitude.None? <==> info.longitude.None?
  {
    var coords := ParseCoordinates(reply.latitude, reply.longitude, parseFloat);
    Info(reply.timezone, reply.provider, reply.country, reply.region, reply.city,
         coords.0, coords.1, reply.proxy || reply.hosting)
  }

  /** `INSERT INTO ip_addresses`: refused by the unique constraint when the
      address is stored already; otherwise one record appended under a
      fresh id. */
  function Add(s: IpStore, address: string, info: Info): (r: Result<IpStore>)
    requires Valid(s)
    ensures r.Ok? <==> !ExistsByAddress(s, address)
    ensures r.Err? ==> r.error == InternalError
    ensures r.Ok? ==>
      && Valid(r.value)
      && r.value.records == s.records + [IpRecord(s.nextId, address, info)]
      && Find(r.value, address) == Some(IpRecord(s.nextId, address, info))
  {
    if ExistsByAddress(s, address) then Err(InternalError)
    else
      var t := IpStore(s.records + [IpRecord(s.nextId, address, info)], s.nextId + 1);
      IndexOfDistinct(t, |s.records|);
      Ok(t)
  }

  /** The column names of `ip_addresses`. */
  const Columns: set<string> :=
    {"id", "ip_address", "timezone", "provider", "country", "region", "city",
     "latitude", "longitude", "is_proxy"}

  function Column(r: IpRecord, name: string): Value
    requires name in Columns
  {
    if name == "id" then Int(r.id)
    else if name == "ip_address" then Text(r.address)
    else if name == "timezone" then TextOrNull(r.info.timezone)
    else if name == "provider" then TextOrNull(r.info.provider)
    else if name == "country" then TextOrNull(r.info.country)
    else if name == "region" then TextOrNull(r.info.region)
    else if name == "city" then TextOrNull(r.info.city)
    else if name == "latitude" then RealOrNull(r.info.latitude)
    else if name == "longitude" then RealOrNull(r.info.longitude)
    else Bool(r.info.isProxy)
  }

  /** `DELETE FROM ip_addresses WHERE ip_address = $1`: the record of that
      address goes, every other address keeps its record. */
  function Remove(s: IpStore, address: string): (r: IpStore)
    requires Valid(s)
    ensures Valid(r)
    ensures !ExistsByAddress(r, address)
    ensures forall x | x != address :: Find(r, x) == Find(s, x)
  {
    match IndexOf(s.records, address)
    case None => s
    case Some(i) =>
      RemoveAtKeepsOthers(s, i);
      IpStore(RemoveAt(s.records, i), s.nextId)
  }

  /** With unique addresses, the search finds the one position holding an
      address. */
  lemma IndexOfDistinct(s: IpStore, k: nat)
    requires Valid(s) && k < |s.records|
    ensures IndexOf(s.records, s.records[k].address) == Some(k)
  {
  }

  /** The records without position `i`, each at its shifted place. */
  function RemoveAt(records: seq<IpRecord>, i: nat): (r: seq<IpRecord>)
    requires i < |records|
    ensures |r| == |records| - 1
    ensures forall k | 0 <= k < |r| :: r[k] == records[if k < i then k else k + 1]
  {
    records[..i] + records[i + 1..]
  }

  lemma RemoveAtKeepsOthers(s: IpStore, i: nat)
    requires Valid(s) && i < |s.records|
    ensures var t := IpStore(RemoveAt(s.records, i), s.nextId);
      && Valid(t)
      && !ExistsByAddress(t, s.records[i].address)
      && forall x | x != s.records[i].address :: Find(t, x) == Find(s, x)
  {
    var t := IpStore(RemoveAt(s.records, i), s.nextId);
    assert Valid(t);
    forall x | x != s.records[i].address ensures Find(t, x) == Find(s, x) {
      RemoveAtKeepsOne(s, i, x);
    }
  }

  /** Removing the record at `i` leaves the lookup of any other address
      as it was. */
  lemma RemoveAtKeepsOne(s: IpStore, i: nat, x: string)
    requires Valid(s) && i < |s.records| && x != s.records[i].address
    requires Valid(IpStore(RemoveAt(s.records, i), s.nextId))
    ensures Find(IpStore(RemoveAt(s.records, i), s.nextId), x) == Find(s, x)
  {
    var t := IpStore(RemoveAt(s.records, i), s.nextId);
    var o := IndexOf(s.records, x);
    if o.Some? {
      var j := o.value;
      var k := if j < i then j else j - 1;
      assert t.records[k] == s.records[j];
      IndexOfDistinct(t, k);
    } else {
      assert forall k | 0 <= k < |t.records| :: t.records[k].address != x;
    }
  }
}
