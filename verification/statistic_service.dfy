/** The statistics endpoints' service (services/statistic_service.py):
    a link's statistics are shown only to its owner, and only for a code
    that exists. */
module StatisticService {
  import opened Core
  import opened UrlRepository
  import IpTable
  import opened ClickRepository
  import opened ClickService

  const CodeNotFound := Error(404, "Short code not found")
  const NotOwner := Error(403, "You do not have permission to see the statistics of this URL")

  /** `_resolve_url_id`: fetches `id` and `user_id` of the code's row; 404
      when there is none, 403 when another user owns it, else the link id. */
  function ResolveUrlId(s: LinkStore, userId: int, code: string): (r: Result<int>)
    requires Valid(s)
    ensures r.Ok? <==> code in s.links && s.links[code].userId == userId
    ensures r.Ok? ==> r.value == s.links[code].id
    ensures code !in s.links ==> r == Err(CodeNotFound)
    ensures code in s.links && s.links[code].userId != userId ==> r == Err(NotOwner)
  {
    var fields := ["id", "user_id"];
    assert forall f | f in fields :: f in Columns;
    match FetchrowByShortcode(s, code, fields)
    case Err(e) => Err(e)
    case Ok(None) => Err(CodeNotFound)
    case Ok(Some(row)) =>
      assert "id" in fields && "user_id" in fields;
      if row["user_id"] != Int(userId) then Err(NotOwner)
      else if row["id"].Int? then Ok(row["id"].i)
      else Err(InternalError)
  }

  /** `get_browsers_stats`, `get_os_stats` and `get_devices_stats`: the
      owner's dictionary for one column, grouped over this very link's
      clicks in the period. */
  function FieldStatistics(s: LinkStore, clicks: seq<Click>, userId: int, code: string, f: Field,
                           period: Option<string>, now: Timestamp): (r: Result<map<string, Totals>>)
    requires Valid(s)
    ensures r.Ok? <==> code in s.links && s.links[code].userId == userId
    ensures code !in s.links ==> r == Err(CodeNotFound)
    ensures code in s.links && s.links[code].userId != userId ==> r == Err(NotOwner)
    ensures r.Ok? ==> GroupedDict(FieldObs(Select(clicks, s.links[code].id, ResolveSince(period, now)), f), r.value)
  {
    match ResolveUrlId(s, userId, code)
    case Err(e) => Err(e)
    case Ok(id) => Ok(FieldStatsDict(clicks, id, f, period, now))
  }

  /** `get_countries_stats`: the owner's dictionary by country, grouped
      over this very link's clicks in the period. */
  function CountriesStatistics(s: LinkStore, clicks: seq<Click>, ips: IpTable.IpStore, userId: int, code: string,
                               period: Option<string>, now: Timestamp): (r: Result<map<string, Totals>>)
    requires Valid(s)
    ensures r.Ok? <==> code in s.links && s.links[code].userId == userId
    ensures code !in s.links ==> r == Err(CodeNotFound)
    ensures code in s.links && s.links[code].userId != userId ==> r == Err(NotOwner)
    ensures r.Ok? ==> GroupedDict(CountryObs(Select(clicks, s.links[code].id, ResolveSince(period, now)), ips), r.value)
  {
    match ResolveUrlId(s, userId, code)
    case Err(e) => Err(e)
    case Ok(id) => Ok(CountriesStatsDict(clicks, ips, id, period, now))
  }

  /** `get_guests_stats`: the owner's three counts over this very link's
      clicks in the period. */
  function GuestsStatistics(s: LinkStore, clicks: seq<Click>, ips: IpTable.IpStore, userId: int, code: string,
                            period: Option<string>, now: Timestamp): (r: Result<map<string, int>>)
    requires Valid(s)
    ensures r.Ok? <==> code in s.links && s.links[code].userId == userId
    ensures code !in s.links ==> r == Err(CodeNotFound)
    ensures code in s.links && s.links[code].userId != userId ==> r == Err(NotOwner)
    ensures r.Ok? ==>
      && r.value.Keys == {"total", "unique", "proxy"}
      && r.value["total"] == |Select(clicks, s.links[code].id, ResolveSince(period, now))|
      && r.value["unique"] == |IpSet(CallerObs(Select(clicks, s.links[code].id, ResolveSince(period, now))))|
      && r.value["proxy"] == |IpSet(ProxyObs(Select(clicks, s.links[code].id, ResolveSince(period, now)), ips))|
      && 0 <= r.value["proxy"] <= r.value["unique"] <= r.value["total"]
  {
    match ResolveUrlId(s, userId, code)
    case Err(e) => Err(e)
    case Ok(id) => Ok(GuestsStatsDict(clicks, ips, id, period, now))
  }

  /** Another user learns nothing about a link beyond its existence: every
      statistics call answers 403 for it. */
  lemma OthersSeeNoStatistics(s: LinkStore, clicks: seq<Click>, ips: IpTable.IpStore, userId: int, code: string,
                              f: Field, period: Option<string>, now: Timestamp)
    requires Valid(s)
    requires code in s.links && s.links[code].userId != userId
    ensures FieldStatistics(s, clicks, userId, code, f, period, now) == Err(NotOwner)
    ensures CountriesStatistics(s, clicks, ips, userId, code, period, now) == Err(NotOwner)
    ensures GuestsStatistics(s, clicks, ips, userId, code, period, now) == Err(NotOwner)
  {
  }
}
