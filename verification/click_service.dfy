/** Recording clicks and shaping statistics (services/click_service.py):
    the device class read from the user agent, the reporting periods, and
    the dictionaries the statistics endpoints answer with. */
module ClickService {
  import opened Core
  import opened IpTable
  import opened ClickRepository

  /** What the user-agent parser reports; the parser itself is supplied by
      the caller. */
  datatype UserAgent = UserAgent(
    browserFamily: string,
    osFamily: string,
    isMobile: bool,
    isTablet: bool,
    isPc: bool,
    isBot: bool)

  const Phone := "phone"
  const Tablet := "tablet"
  const Computer := "computer"
  const Bot := "bot"

  /** The device class: the first of mobile, tablet, PC and bot that the
      parser reports, or none. */
  function DeviceClass(ua: UserAgent): (d: Option<string>)
    ensures ua.isMobile ==> d == Some(Phone)
    ensures !ua.isMobile && ua.isTablet ==> d == Some(Tablet)
    ensures !ua.isMobile && !ua.isTablet && ua.isPc ==> d == Some(Computer)
    ensures !ua.isMobile && !ua.isTablet && !ua.isPc && ua.isBot ==> d == Some(Bot)
    ensures d.None? <==> !ua.isMobile && !ua.isTablet && !ua.isPc && !ua.isBot
  {
    if ua.isMobile then Some(Phone)
    else if ua.isTablet then Some(Tablet)
    else if ua.isPc then Some(Computer)
    else if ua.isBot then Some(Bot)
    else None
  }

  /** `family or None`: an empty family is stored as null. */
  function FamilyOrNull(family: string): (r: Option<string>)
    ensures r.None? <==> family == ""
    ensures r.Some? ==> r.value == family
  {
    if family == "" then None else Some(family)
  }

  /** `insert_click`: parses the user agent and appends one click with the
      browser and OS families (null when empty) and the device class. */
  function InsertClick(clicks: seq<Click>, urlId: int, userAgent: string, ip: Option<int>,
                       parse: string -> UserAgent, now: Timestamp): (r: seq<Click>)
    ensures |r| == |clicks| + 1 && r[..|clicks|] == clicks
    ensures var c := r[|clicks|];
      && c.urlId == urlId && c.ip == ip && c.clickedAt == now
      && c.browser == FamilyOrNull(parse(userAgent).browserFamily)
      && c.os == FamilyOrNull(parse(userAgent).osFamily)
      && c.device == DeviceClass(parse(userAgent))
  {
    var ua := parse(userAgent);
    ClickRepository.Add(clicks, urlId, ip, FamilyOrNull(ua.browserFamily), DeviceClass(ua), FamilyOrNull(ua.osFamily), now)
  }

  /** A click recorded through `insert_click` never stores an empty string
      in a grouped column, and its device is one of the four classes. */
  lemma InsertedClickColumns(clicks: seq<Click>, urlId: int, userAgent: string, ip: Option<int>,
                             parse: string -> UserAgent, now: Timestamp)
    ensures var c := InsertClick(clicks, urlId, userAgent, ip, parse, now)[|clicks|];
      && c.browser != Some("") && c.os != Some("")
      && (c.device.Some? ==> c.device.value in {Phone, Tablet, Computer, Bot})
  {
  }

  /** The reporting periods. */
  const Day := "day"
  const Week := "week"
  const Month := "month"

  /** `_resolve_since`: the start of the last day, week (7 days) or month
      (30 days) before `now`; any other period, or none, means no bound. */
  function ResolveSince(period: Option<string>, now: Timestamp): (r: Option<Timestamp>)
    ensures r.Some? <==> period.Some? && period.value in {Day, Week, Month}
    ensures period == Some(Day) ==> r == Some(now - MicrosPerDay)
    ensures period == Some(Week) ==> r == Some(now - 7 * MicrosPerDay)
    ensures period == Some(Month) ==> r == Some(now - 30 * MicrosPerDay)
    ensures r.Some? ==> r.value < now
  {
    if period == Some(Day) then Some(now - Days(1))
    else if period == Some(Week) then Some(now - Days(7))
    else if period == Some(Month) then Some(now - Days(30))
    else None
  }

  /** The periods are nested: the day's clicks are among the week's, the
      week's among the month's, and the month's among all. */
  lemma PeriodsNested(clicks: seq<Click>, urlId: int, now: Timestamp)
    ensures |Select(clicks, urlId, ResolveSince(Some(Day), now))| <= |Select(clicks, urlId, ResolveSince(Some(Week), now))|
    ensures |Select(clicks, urlId, ResolveSince(Some(Week), now))| <= |Select(clicks, urlId, ResolveSince(Some(Month), now))|
    ensures |Select(clicks, urlId, ResolveSince(Some(Month), now))| <= |Select(clicks, urlId, None)|
  {
    SelectNarrower(clicks, urlId, ResolveSince(Some(Day), now), ResolveSince(Some(Week), now));
    SelectNarrower(clicks, urlId, ResolveSince(Some(Week), now), ResolveSince(Some(Month), now));
    SelectNarrower(clicks, urlId, ResolveSince(Some(Month), now), None);
  }

  /** One entry of a statistics dictionary. */
  datatype Totals = Totals(total: nat, unique: nat)

  const Unknown := "unknown"

  /** `key or "unknown"`: null and the empty string both become
      `"unknown"`. */
  function Label(key: Option<string>): (r: string)
    ensures Truthy(key) ==> r == key.value
    ensures !Truthy(key) ==> r == Unknown
  {
    if Truthy(key) then key.value else Unknown
  }

  /** Two keys share a label only when they are equal or both merge into
      `"unknown"`. */
  lemma LabelCollision(a: Option<string>, b: Option<string>)
    requires Label(a) == Label(b)
    ensures a == b || ((!Unambiguous(a) || a.None?) && (!Unambiguous(b) || b.None?))
  {
  }

  /** No row after row `i` carries the same label. */
  predicate LastWithLabel(rows: seq<StatRow>, i: int)
    requires 0 <= i < |rows|
  {
    forall j | i < j < |rows| :: Label(rows[j].key) != Label(rows[i].key)
  }

  /** The dict comprehension over the rows: one entry per label, and when
      two rows share a label the later row's counts win. */
  function ToDict(rows: seq<StatRow>): (d: map<string, Totals>)
    ensures forall i | 0 <= i < |rows| :: Label(rows[i].key) in d
    ensures forall l | l in d :: exists i | 0 <= i < |rows| :: Label(rows[i].key) == l && d[l] == Totals(rows[i].total, rows[i].unique)
    ensures forall i | 0 <= i < |rows| && LastWithLabel(rows, i) :: d[Label(rows[i].key)] == Totals(rows[i].total, rows[i].unique)
  {
    if |rows| == 0 then map[]
    else
      var init := rows[..|rows| - 1];
      var last := rows[|rows| - 1];
      var d := ToDict(init);
      DictStep(rows, d);
      LastWins(rows, d);
      d[Label(last.key) := Totals(last.total, last.unique)]
  }

  /** One step of the comprehension, for the winning rows: if in `d` every
      label maps to the last earlier row carrying it, then after entering
      the last row every label maps to the last row carrying it. */
  lemma LastWins(rows: seq<StatRow>, d: map<string, Totals>)
    requires |rows| > 0
    requires var init := rows[..|rows| - 1];
      forall i | 0 <= i < |init| && LastWithLabel(init, i) ::
        Label(init[i].key) in d && d[Label(init[i].key)] == Totals(init[i].total, init[i].unique)
    ensures var e := d[Label(rows[|rows| - 1].key) := Totals(rows[|rows| - 1].total, rows[|rows| - 1].unique)];
      forall i | 0 <= i < |rows| && LastWithLabel(rows, i) ::
        Label(rows[i].key) in e && e[Label(rows[i].key)] == Totals(rows[i].total, rows[i].unique)
  {
    var init := rows[..|rows| - 1];
    var last := rows[|rows| - 1];
    var e := d[Label(last.key) := Totals(last.total, last.unique)];
    forall i | 0 <= i < |rows| && LastWithLabel(rows, i)
      ensures Label(rows[i].key) in e && e[Label(rows[i].key)] == Totals(rows[i].total, rows[i].unique)
    {
      if i < |init| {
        LastInPrefix(rows, i);
      }
    }
  }

  /** A row of the prefix that wins its label among all rows wins it in the
      prefix too, and its label is not the last row's. */
  lemma LastInPrefix(rows: seq<StatRow>, i: int)
    requires 0 <= i < |rows| - 1 && LastWithLabel(rows, i)
    ensures LastWithLabel(rows[..|rows| - 1], i)
    ensures rows[..|rows| - 1][i] == rows[i]
    ensures Label(rows[|rows| - 1].key) != Label(rows[i].key)
  {
    var init := rows[..|rows| - 1];
    forall j | i < j < |init| ensures Label(init[j].key) != Label(init[i].key) {
      assert init[j] == rows[j];
    }
  }

  /** One step of the comprehension: if `d` is the dictionary of all but
      the last row, entering the last row gives the dictionary of all rows. */
  lemma DictStep(rows: seq<StatRow>, d: map<string, Totals>)
    requires |rows| > 0
    requires var init := rows[..|rows| - 1];
      && (forall i | 0 <= i < |init| :: Label(init[i].key) in d)
      && (forall l | l in d :: exists i | 0 <= i < |init| :: Label(init[i].key) == l && d[l] == Totals(init[i].total, init[i].unique))
    ensures var e := d[Label(rows[|rows| - 1].key) := Totals(rows[|rows| - 1].total, rows[|rows| - 1].unique)];
      && (forall i | 0 <= i < |rows| :: Label(rows[i].key) in e)
      && (forall l | l in e :: exists i | 0 <= i < |rows| :: Label(rows[i].key) == l && e[l] == Totals(rows[i].total, rows[i].unique))
  {
    var init := rows[..|rows| - 1];
    var last := rows[|rows| - 1];
    var e := d[Label(last.key) := Totals(last.total, last.unique)];
    assert forall i | 0 <= i < |init| :: rows[i] == init[i];
    forall l | l in e
      ensures exists i | 0 <= i < |rows| :: Label(rows[i].key) == l && e[l] == Totals(rows[i].total, rows[i].unique)
    {
      if l == Label(last.key) {
        assert Label(rows[|rows| - 1].key) == l;
      } else {
        var i :| 0 <= i < |init| && Label(init[i].key) == l && d[l] == Totals(init[i].total, init[i].unique);
        assert rows[i] == init[i];
      }
    }
  }

  /** Keys that no label merges: neither empty nor literally "unknown". */
  predicate Unambiguous(key: Option<string>) {
    key != Some("") && key != Some(Unknown)
  }

  /** Distinct unambiguous keys have distinct labels. */
  lemma LabelsApart(a: Option<string>, b: Option<string>)
    requires a != b && Unambiguous(a) && Unambiguous(b)
    ensures Label(a) != Label(b)
  {
    if Label(a) == Label(b) {
      LabelCollision(a, b);
    }
  }

  /** A row with a label no earlier row has adds its own entry: in a
      dictionary holding one entry per earlier row, entering the new row
      keeps every earlier entry and grows the dictionary by one. */
  lemma FreshEntry(rows: seq<StatRow>, d: map<string, Totals>)
    requires |rows| > 0
    requires var init := rows[..|rows| - 1];
      && (forall i | 0 <= i < |init| :: Label(init[i].key) in d && d[Label(init[i].key)] == Totals(init[i].total, init[i].unique))
      && (forall l | l in d :: exists i | 0 <= i < |init| :: Label(init[i].key) == l)
      && |d| == |init|
      && (forall i | 0 <= i < |init| :: Label(init[i].key) != Label(rows[|rows| - 1].key))
    ensures var last := rows[|rows| - 1];
      var e := d[Label(last.key) := Totals(last.total, last.unique)];
      && (forall i | 0 <= i < |rows| :: e[Label(rows[i].key)] == Totals(rows[i].total, rows[i].unique))
      && |e| == |rows|
  {
    var init := rows[..|rows| - 1];
    var last := rows[|rows| - 1];
    var key := Label(last.key);
    assert key !in d;
    forall i | 0 <= i < |rows| ensures d[key := Totals(last.total, last.unique)][Label(rows[i].key)] == Totals(rows[i].total, rows[i].unique) {
      if i < |init| {
        assert rows[i] == init[i];
      }
    }
  }

  /** When the rows' keys are distinct and none is merged with null by
      `or "unknown"`, every row keeps its own entry. */
  lemma {:induction false} ToDictKeepsEveryRow(rows: seq<StatRow>)
    requires DistinctKeys(rows)
    requires forall i | 0 <= i < |rows| :: Unambiguous(rows[i].key)
    ensures forall i | 0 <= i < |rows| :: ToDict(rows)[Label(rows[i].key)] == Totals(rows[i].total, rows[i].unique)
    ensures |ToDict(rows)| == |rows|
    decreases |rows|
  {
    if |rows| > 0 {
      var init := rows[..|rows| - 1];
      var last := rows[|rows| - 1];
      PrefixApart(rows);
      ToDictKeepsEveryRow(init);
      assert ToDict(rows) == ToDict(init)[Label(last.key) := Totals(last.total, last.unique)];
      FreshEntry(rows, ToDict(init));
    }
  }

  /** Dropping the last row keeps the keys distinct and unambiguous, and
      the dropped row's label differs from every remaining one. */
  lemma PrefixApart(rows: seq<StatRow>)
    requires |rows| > 0
    requires DistinctKeys(rows)
    requires forall i | 0 <= i < |rows| :: Unambiguous(rows[i].key)
    ensures var init := rows[..|rows| - 1];
      && DistinctKeys(init)
      && (forall i | 0 <= i < |init| :: Unambiguous(init[i].key))
      && (forall i | 0 <= i < |init| :: Label(init[i].key) != Label(rows[|rows| - 1].key))
  {
    var init := rows[..|rows| - 1];
    var last := rows[|rows| - 1];
    assert forall i | 0 <= i < |init| :: rows[i] == init[i];
    forall i | 0 <= i < |init| ensures Label(init[i].key) != Label(last.key) {
      LabelsApart(init[i].key, last.key);
    }
  }

  /** The merge is real: a null group followed by an empty-string group
      leaves only the second group's counts under "unknown". */
  lemma UnknownGroupsCollide()
    ensures ToDict([StatRow(None, 5, 3), StatRow(Some(""), 2, 2)]) == map["unknown" := Totals(2, 2)]
  {
    var rows := [StatRow(None, 5, 3), StatRow(Some(""), 2, 2)];
    assert rows[..1] == [StatRow(None, 5, 3)];
    assert rows[..1][..0] == [];
  }

  /** The counts of group `k`. */
  function GroupTotals(obs: seq<Obs>, k: Option<string>): Totals {
    Totals(Count(obs, k), Unique(obs, k))
  }

  /** What a statistics dictionary built from the grouped observations
      `obs` holds: the label of every observed key is present; every entry
      holds the counts of a group carrying its label; a label no other key
      shares holds its own group's counts; and unique never exceeds total.
      Only `"unknown"` can be claimed by several groups (null, the empty
      string, and the literal `"unknown"`). */
  ghost predicate GroupedDict(obs: seq<Obs>, d: map<string, Totals>) {
    && (forall i | 0 <= i < |obs| :: Label(obs[i].key) in d)
    && (forall l | l in d :: exists i | 0 <= i < |obs| :: Label(obs[i].key) == l && d[l] == GroupTotals(obs, obs[i].key))
    && (forall i | 0 <= i < |obs| && Label(obs[i].key) != Unknown :: d[Label(obs[i].key)] == GroupTotals(obs, obs[i].key))
    && (forall l | l in d :: d[l].unique <= d[l].total)
  }

  /** The facts about grouped rows that the dictionary relies on: one row
      per occurring key, holding that group's counts. */
  ghost predicate GroupRows(obs: seq<Obs>, rows: seq<StatRow>) {
    && DistinctKeys(rows)
    && KeysOf(rows) == KeySet(obs)
    && forall i | 0 <= i < |rows| :: rows[i].total == Count(obs, rows[i].key) && rows[i].unique == Unique(obs, rows[i].key)
  }

  /** The comprehension over grouped rows is the grouped dictionary. */
  lemma DictOfGroups(obs: seq<Obs>, rows: seq<StatRow>)
    requires GroupRows(obs, rows)
    ensures GroupedDict(obs, ToDict(rows))
  {
    var d := ToDict(rows);
    forall i | 0 <= i < |obs| ensures Label(obs[i].key) in d {
      var j := ObservedKeyHasRow(obs, rows, i);
    }
    forall l | l in d ensures exists i | 0 <= i < |obs| :: Label(obs[i].key) == l && d[l] == GroupTotals(obs, obs[i].key) {
      var j :| 0 <= j < |rows| && Label(rows[j].key) == l && d[l] == Totals(rows[j].total, rows[j].unique);
      var i := RowKeyObserved(obs, rows, j);
    }
    forall i | 0 <= i < |obs| && Label(obs[i].key) != Unknown
      ensures d[Label(obs[i].key)] == GroupTotals(obs, obs[i].key)
    {
      var j := ObservedKeyHasRow(obs, rows, i);
      assert LastWithLabel(rows, j);
    }
    forall l | l in d ensures d[l].unique <= d[l].total {
      var j :| 0 <= j < |rows| && Label(rows[j].key) == l && d[l] == Totals(rows[j].total, rows[j].unique);
      UniqueAtMostTotal(obs, rows[j].key);
    }
  }

  /** Every observed key has its row. */
  lemma ObservedKeyHasRow(obs: seq<Obs>, rows: seq<StatRow>, i: int) returns (j: int)
    requires GroupRows(obs, rows) && 0 <= i < |obs|
    ensures 0 <= j < |rows| && rows[j].key == obs[i].key
  {
    assert obs[i] in obs;
    KeysOfMembership(rows, obs[i].key);
    j :| 0 <= j < |rows| && rows[j].key == obs[i].key;
  }

  /** Every row's key is observed. */
  lemma RowKeyObserved(obs: seq<Obs>, rows: seq<StatRow>, j: int) returns (i: int)
    requires GroupRows(obs, rows) && 0 <= j < |rows|
    ensures 0 <= i < |obs| && obs[i].key == rows[j].key
  {
    KeysOfMembership(rows, rows[j].key);
    var o :| o in obs && o.key == rows[j].key;
    i :| 0 <= i < |obs| && obs[i] == o;
  }

  /** `get_field_stats` of the service: the grouped rows of the period as a
      dictionary keyed by label. */
  function FieldStatsDict(clicks: seq<Click>, urlId: int, f: Field, period: Option<string>, now: Timestamp): (d: map<string, Totals>)
    ensures GroupedDict(FieldObs(Select(clicks, urlId, ResolveSince(period, now)), f), d)
  {
    var sel := Select(clicks, urlId, ResolveSince(period, now));
    var rows := GetFieldStats(clicks, urlId, f, ResolveSince(period, now));
    FieldKeys(sel, f);
    DictOfGroups(FieldObs(sel, f), rows);
    ToDict(rows)
  }

  /** `get_countries_stats` of the service: the grouped rows of the period
      by country as a dictionary keyed by label; a click whose caller has
      no record is counted under `"unknown"`. */
  function CountriesStatsDict(clicks: seq<Click>, ips: IpStore, urlId: int, period: Option<string>, now: Timestamp): (d: map<string, Totals>)
    ensures GroupedDict(CountryObs(Select(clicks, urlId, ResolveSince(period, now)), ips), d)
    ensures (exists c | c in Select(clicks, urlId, ResolveSince(period, now)) :: FindById(ips, c.ip).None?) ==> Unknown in d
  {
    var sel := Select(clicks, urlId, ResolveSince(period, now));
    var rows := GetCountriesStats(clicks, ips, urlId, ResolveSince(period, now));
    DictOfGroups(CountryObs(sel, ips), rows);
    UnjoinedCountedAsUnknown(sel, ips, ToDict(rows));
    ToDict(rows)
  }

  /** In a grouped dictionary by country, a click without a matching
      record puts `"unknown"` among the labels. */
  lemma UnjoinedCountedAsUnknown(sel: seq<Click>, ips: IpStore, d: map<string, Totals>)
    requires GroupedDict(CountryObs(sel, ips), d)
    ensures (exists c | c in sel :: FindById(ips, c.ip).None?) ==> Unknown in d
  {
    if exists c | c in sel :: FindById(ips, c.ip).None? {
      var c :| c in sel && FindById(ips, c.ip).None?;
      var i :| 0 <= i < |sel| && sel[i] == c;
      assert Label(CountryObs(sel, ips)[i].key) == Unknown;
    }
  }

  /** `dict(row) if row else {}`. */
  function GuestsDict(row: Option<GuestRow>): (d: map<string, int>)
    ensures row.None? ==> d == map[]
    ensures row.Some? ==>
      && d.Keys == {"total", "unique", "proxy"}
      && d["total"] == row.value.total && d["unique"] == row.value.unique && d["proxy"] == row.value.proxy
  {
    match row
    case None => map[]
    case Some(g) => map["total" := g.total, "unique" := g.unique, "proxy" := g.proxy]
  }

  /** `get_guests_stats` of the service: always the three counts, since the
      aggregate always yields its row: the clicks of the period, their
      distinct callers and their distinct flagged callers, so
      `proxy <= unique <= total`. */
  function GuestsStatsDict(clicks: seq<Click>, ips: IpStore, urlId: int, period: Option<string>, now: Timestamp): (d: map<string, int>)
    ensures d.Keys == {"total", "unique", "proxy"}
    ensures var sel := Select(clicks, urlId, ResolveSince(period, now));
      && d["total"] == |sel|
      && d["unique"] == |IpSet(CallerObs(sel))|
      && d["proxy"] == |IpSet(ProxyObs(sel, ips))|
    ensures 0 <= d["proxy"] <= d["unique"] <= d["total"]
  {
    GuestsDict(GetGuestsStats(clicks, ips, urlId, ResolveSince(period, now)))
  }
}
