/** The click log and its aggregate queries (repositories/click_repository.py).
    The log is append-only. Each statistics query selects one link's clicks
    from an optional starting instant on, groups them by one dimension,
    counts rows (`COUNT(*)`) and distinct non-null caller ids
    (`COUNT(DISTINCT ip)`), and orders the groups by count, descending. */
module ClickRepository {
  import opened Core
  import opened IpTable

  /** One row of `clicks` as the repository writes it. `ip` is the caller's
      `ip_addresses` id, or `None` when no id was resolved. */
  datatype Click = Click(
    urlId: int,
    ip: Option<int>,
    browser: Option<string>,
    device: Option<string>,
    os: Option<string>,
    clickedAt: Timestamp)

  /** `add`: the log with exactly one click appended (its `clicked_at` is
      the insertion time), every earlier click unchanged. */
  function Add(clicks: seq<Click>, urlId: int, ip: Option<int>, browser: Option<string>,
               device: Option<string>, os: Option<string>, now: Timestamp): (r: seq<Click>)
    ensures |r| == |clicks| + 1
    ensures r[..|clicks|] == clicks
    ensures r[|clicks|] == Click(urlId, ip, browser, device, os, now)
  {
    clicks + [Click(urlId, ip, browser, device, os, now)]
  }

  /** `WHERE url_id = $1 AND ($2 IS NULL OR clicked_at >= $2)`: the lower
      bound is inclusive, and no bound selects every click of the link. */
  predicate Selected(c: Click, urlId: int, since: Option<Timestamp>) {
    c.urlId == urlId && (since.None? || c.clickedAt >= since.value)
  }

  /** The selected clicks, in log order. */
  function Select(clicks: seq<Click>, urlId: int, since: Option<Timestamp>): (r: seq<Click>)
    ensures forall c :: c in r <==> c in clicks && Selected(c, urlId, since)
    ensures |r| <= |clicks|
  {
    if |clicks| == 0 then []
    else if Selected(clicks[0], urlId, since) then [clicks[0]] + Select(clicks[1..], urlId, since)
    else Select(clicks[1..], urlId, since)
  }

  /** Selecting from a log with one more click selects that click too, if
      it qualifies. */
  lemma {:induction false} SelectAppend(clicks: seq<Click>, c: Click, urlId: int, since: Option<Timestamp>)
    ensures Select(clicks + [c], urlId, since) ==
      Select(clicks, urlId, since) + (if Selected(c, urlId, since) then [c] else [])
    decreases |clicks|
  {
    if |clicks| == 0 {
      assert [c][1..] == [];
    } else {
      assert (clicks + [c])[1..] == clicks[1..] + [c];
      SelectAppend(clicks[1..], c, urlId, since);
    }
  }

  /** What a grouping query sees of one click: its group key and its
      caller id. */
  datatype Obs = Obs(key: Option<string>, ip: Option<int>)

  /** The distinct non-null caller ids among `obs`: `COUNT(DISTINCT ip)` is
      the size of this set. */
  function IpSet(obs: seq<Obs>): (r: set<int>)
    ensures |r| <= |obs|
    ensures forall i | 0 <= i < |obs| && obs[i].ip.Some? :: obs[i].ip.value in r
    ensures forall x | x in r :: exists i | 0 <= i < |obs| :: obs[i].ip == Some(x)
  {
    if |obs| == 0 then {}
    else
      var rest := IpSet(obs[1..]);
      assert forall i | 1 <= i < |obs| :: obs[i] == obs[1..][i - 1];
      if obs[0].ip.Some? then {obs[0].ip.value} + rest else rest
  }

  /** `IpSet` of a log with one more observation. */
  lemma {:induction false} IpSetAppend(obs: seq<Obs>, o: Obs)
    ensures IpSet(obs + [o]) == IpSet(obs) + (if o.ip.Some? then {o.ip.value} else {})
    decreases |obs|
  {
    if |obs| > 0 {
      assert (obs + [o])[1..] == obs[1..] + [o];
      IpSetAppend(obs[1..], o);
    } else {
      assert [o][1..] == [];
    }
  }

  /** The observations of group `k`. */
  function WithKey(obs: seq<Obs>, k: Option<string>): (r: seq<Obs>)
    ensures forall o :: o in r <==> o in obs && o.key == k
    ensures |r| <= |obs|
  {
    if |obs| == 0 then []
    else if obs[0].key == k then [obs[0]] + WithKey(obs[1..], k)
    else WithKey(obs[1..], k)
  }

  /** `COUNT(*)` of group `k`. */
  function Count(obs: seq<Obs>, k: Option<string>): nat {
    |WithKey(obs, k)|
  }

  /** `COUNT(DISTINCT ip)` of group `k`. */
  function Unique(obs: seq<Obs>, k: Option<string>): nat {
    |IpSet(WithKey(obs, k))|
  }

  /** The group keys that occur. */
  function KeySet(obs: seq<Obs>): set<Option<string>> {
    set o | o in obs :: o.key
  }

  /** The occurring group keys, each once. */
  function Keys(obs: seq<Obs>): (r: seq<Option<string>>)
    ensures forall k :: k in r <==> k in KeySet(obs)
    ensures forall i, j | 0 <= i < j < |r| :: r[i] != r[j]
  {
    if |obs| == 0 then []
    else
      var rest := Keys(obs[1..]);
      assert forall o | o in obs[1..] :: o in obs;
      assert forall o | o in obs && o != obs[0] :: o in obs[1..];
      if obs[0].key in rest then rest else [obs[0].key] + rest
  }

  /** One result row of a grouping query. */
  datatype StatRow = StatRow(key: Option<string>, total: nat, unique: nat)

  /** The group row of `k`. */
  function RowOf(obs: seq<Obs>, k: Option<string>): StatRow {
    StatRow(k, Count(obs, k), Unique(obs, k))
  }

  function RowsFor(obs: seq<Obs>, keys: seq<Option<string>>): (r: seq<StatRow>)
    ensures |r| == |keys|
    ensures forall i | 0 <= i < |keys| :: r[i] == RowOf(obs, keys[i])
  {
    if |keys| == 0 then [] else [RowOf(obs, keys[0])] + RowsFor(obs, keys[1..])
  }

  function TotalSum(rows: seq<StatRow>): nat {
    if |rows| == 0 then 0 else rows[0].total + TotalSum(rows[1..])
  }

  /** `ORDER BY total DESC`. */
  ghost predicate SortedByTotalDesc(rows: seq<StatRow>) {
    forall i, j | 0 <= i < j < |rows| :: rows[i].total >= rows[j].total
  }

  /** The keys the rows carry. */
  function KeysOf(rows: seq<StatRow>): set<Option<string>> {
    if |rows| == 0 then {} else {rows[0].key} + KeysOf(rows[1..])
  }

  /** A key is among the rows' keys exactly when some row carries it. */
  lemma {:induction false} KeysOfMembership(rows: seq<StatRow>, k: Option<string>)
    ensures k in KeysOf(rows) <==> exists i | 0 <= i < |rows| :: rows[i].key == k
    decreases |rows|
  {
    if |rows| > 0 {
      KeysOfMembership(rows[1..], k);
      if exists i | 0 <= i < |rows| :: rows[i].key == k {
        var i :| 0 <= i < |rows| && rows[i].key == k;
        if i > 0 {
          assert rows[1..][i - 1].key == k;
        }
      }
      if exists i | 0 <= i < |rows[1..]| :: rows[1..][i].key == k {
        var i :| 0 <= i < |rows[1..]| && rows[1..][i].key == k;
        assert rows[i + 1].key == k;
      }
    }
  }

  ghost predicate DistinctKeys(rows: seq<StatRow>) {
    forall i, j | 0 <= i < j < |rows| :: rows[i].key != rows[j].key
  }

  /** A row whose key the rest do not carry can lead them. */
  lemma ConsDistinct(a: StatRow, t: seq<StatRow>)
    requires DistinctKeys(t) && a.key !in KeysOf(t)
    ensures DistinctKeys([a] + t)
  {
    forall j | 0 < j < |[a] + t| ensures a.key != ([a] + t)[j].key {
      KeysOfMembership(t, a.key);
      assert ([a] + t)[j] == t[j - 1];
    }
    forall i, j | 0 < i < j < |[a] + t| ensures ([a] + t)[i].key != ([a] + t)[j].key {
      assert ([a] + t)[i] == t[i - 1] && ([a] + t)[j] == t[j - 1];
    }
  }

  /** The tail of rows with distinct keys has distinct keys, none of them
      the head's. */
  lemma DistinctTail(rows: seq<StatRow>)
    requires |rows| > 0 && DistinctKeys(rows)
    ensures DistinctKeys(rows[1..]) && rows[0].key !in KeysOf(rows[1..])
  {
    var rest := rows[1..];
    forall i, j | 0 <= i < j < |rest| ensures rest[i].key != rest[j].key {
      assert rest[i] == rows[i + 1] && rest[j] == rows[j + 1];
    }
    KeysOfMembership(rest, rows[0].key);
    forall i | 0 <= i < |rest| ensures rest[i].key != rows[0].key {
      assert rest[i] == rows[i + 1];
    }
  }

  /** A row no smaller than every row of a sorted sequence can lead it. */
  lemma ConsSorted(a: StatRow, t: seq<StatRow>)
    requires SortedByTotalDesc(t)
    requires forall e | e in t :: a.total >= e.total
    ensures SortedByTotalDesc([a] + t)
  {
    forall i, j | 0 <= i < j < |[a] + t| ensures ([a] + t)[i].total >= ([a] + t)[j].total {
      if i > 0 {
        assert ([a] + t)[i] == t[i - 1] && ([a] + t)[j] == t[j - 1];
      } else {
        assert ([a] + t)[j] == t[j - 1] && t[j - 1] in t;
      }
    }
  }

  /** In a sorted sequence no row exceeds the first. */
  lemma HeadIsMax(rows: seq<StatRow>)
    requires SortedByTotalDesc(rows) && |rows| > 0
    ensures forall e | e in rows :: rows[0].total >= e.total
  {
    forall e | e in rows ensures rows[0].total >= e.total {
      var k :| 0 <= k < |rows| && rows[k] == e;
      assert k == 0 || rows[0].total >= rows[k].total;
    }
  }

  /** A bound on every row of `rest` and on `x` bounds every row of a
      sequence holding exactly those rows. */
  lemma BoundByMultiset(bound: int, rest: seq<StatRow>, x: StatRow, tail: seq<StatRow>)
    requires forall e | e in rest :: bound >= e.total
    requires bound >= x.total
    requires multiset(tail) == multiset(rest) + multiset{x}
    ensures forall e | e in tail :: bound >= e.total
  {
    forall e | e in tail ensures bound >= e.total {
      assert e in multiset(tail);
      if e != x {
        assert e in multiset(rest);
      }
    }
  }

  /** Places `x` before the first row with a smaller total. */
  function Insert(x: StatRow, rows: seq<StatRow>): (r: seq<StatRow>)
    requires SortedByTotalDesc(rows)
    ensures SortedByTotalDesc(r)
    ensures multiset(r) == multiset(rows) + multiset{x}
  {
    if |rows| == 0 then [x]
    else if x.total >= rows[0].total then
      HeadIsMax(rows);
      ConsSorted(x, rows);
      [x] + rows
    else
      var rest := rows[1..];
      assert rows == [rows[0]] + rest;
      HeadIsMax(rows);
      var tail := Insert(x, rest);
      BoundByMultiset(rows[0].total, rest, x, tail);
      ConsSorted(rows[0], tail);
      [rows[0]] + tail
  }

  /** Insertion sort by total, largest first. */
  function SortByTotal(rows: seq<StatRow>): (r: seq<StatRow>)
    ensures SortedByTotalDesc(r)
    ensures multiset(r) == multiset(rows)
  {
    if |rows| == 0 then []
    else
      assert rows == [rows[0]] + rows[1..];
      Insert(rows[0], SortByTotal(rows[1..]))
  }

  /** Insertion adds the row's total to the sum of totals. */
  lemma {:induction false} InsertTotal(x: StatRow, rows: seq<StatRow>)
    requires SortedByTotalDesc(rows)
    ensures TotalSum(Insert(x, rows)) == x.total + TotalSum(rows)
    decreases |rows|
  {
    if |rows| > 0 && x.total < rows[0].total {
      InsertTotal(x, rows[1..]);
      assert Insert(x, rows)[1..] == Insert(x, rows[1..]);
    } else if |rows| > 0 {
      assert Insert(x, rows)[1..] == rows;
    }
  }

  /** Insertion adds the row's key to the keys, and keeps them distinct
      when that key is new. */
  lemma {:induction false} InsertKeys(x: StatRow, rows: seq<StatRow>)
    requires SortedByTotalDesc(rows)
    ensures KeysOf(Insert(x, rows)) == KeysOf(rows) + {x.key}
    ensures DistinctKeys(rows) && x.key !in KeysOf(rows) ==> DistinctKeys(Insert(x, rows))
    decreases |rows|
  {
    var r := Insert(x, rows);
    if |rows| == 0 {
    } else if x.total >= rows[0].total {
      assert r[1..] == rows;
      if DistinctKeys(rows) && x.key !in KeysOf(rows) {
        ConsDistinct(x, rows);
      }
    } else {
      var rest := rows[1..];
      InsertKeys(x, rest);
      var tail := Insert(x, rest);
      assert r[1..] == tail;
      if DistinctKeys(rows) && x.key !in KeysOf(rows) {
        DistinctTail(rows);
        ConsDistinct(rows[0], tail);
      }
    }
  }

  /** Sorting keeps the sum of totals, the set of keys and their
      distinctness. */
  lemma {:induction false} SortFacts(rows: seq<StatRow>)
    ensures TotalSum(SortByTotal(rows)) == TotalSum(rows)
    ensures KeysOf(SortByTotal(rows)) == KeysOf(rows)
    ensures DistinctKeys(rows) ==> DistinctKeys(SortByTotal(rows))
    decreases |rows|
  {
    if |rows| > 0 {
      var rest := rows[1..];
      var sorted := SortByTotal(rest);
      assert SortByTotal(rows) == Insert(rows[0], sorted);
      SortFacts(rest);
      InsertTotal(rows[0], sorted);
      InsertKeys(rows[0], sorted);
      assert TotalSum(rows) == rows[0].total + TotalSum(rest);
      assert KeysOf(rows) == {rows[0].key} + KeysOf(rest);
      if DistinctKeys(rows) {
        DistinctTail(rows);
      }
    }
  }

  /** A group never has more distinct callers than clicks. */
  lemma UniqueAtMostTotal(obs: seq<Obs>, k: Option<string>)
    ensures Unique(obs, k) <= Count(obs, k)
  {
  }

  /** A key that does not occur has an empty group. */
  lemma CountAbsent(obs: seq<Obs>, k: Option<string>)
    requires k !in KeySet(obs)
    ensures Count(obs, k) == 0
  {
    if |WithKey(obs, k)| > 0 {
      assert WithKey(obs, k)[0] in WithKey(obs, k);
    }
  }

  /** Summed over distinct keys, the group sizes of `[o] + rest` exceed
      those of `rest` by one exactly when `o`'s key is among them. */
  lemma {:induction false} TotalSumCons(o: Obs, rest: seq<Obs>, keys: seq<Option<string>>)
    requires forall i, j | 0 <= i < j < |keys| :: keys[i] != keys[j]
    ensures TotalSum(RowsFor([o] + rest, keys)) ==
      TotalSum(RowsFor(rest, keys)) + (if o.key in keys then 1 else 0)
    decreases |keys|
  {
    if |keys| > 0 {
      var obs := [o] + rest;
      assert obs[1..] == rest;
      TotalSumCons(o, rest, keys[1..]);
      assert RowsFor(obs, keys)[1..] == RowsFor(obs, keys[1..]);
      assert RowsFor(rest, keys)[1..] == RowsFor(rest, keys[1..]);
      assert o.key in keys <==> o.key == keys[0] || o.key in keys[1..];
    }
  }

  /** The group totals add up to the number of selected clicks. */
  lemma {:induction false} TotalsSumToCount(obs: seq<Obs>)
    ensures TotalSum(RowsFor(obs, Keys(obs))) == |obs|
    decreases |obs|
  {
    if |obs| > 0 {
      var o := obs[0];
      var rest := obs[1..];
      assert obs == [o] + rest;
      TotalsSumToCount(rest);
      var ks := Keys(rest);
      TotalSumCons(o, rest, ks);
      if o.key !in ks {
        assert Keys(obs) == [o.key] + ks;
        assert RowsFor(obs, Keys(obs))[1..] == RowsFor(obs, ks);
        assert o.key !in KeySet(rest);
        CountAbsent(rest, o.key);
        assert WithKey(obs, o.key) == [o] + WithKey(rest, o.key);
      }
    }
  }

  /** The rows of distinct keys carry exactly those keys, distinctly. */
  lemma {:induction false} RowsForKeys(obs: seq<Obs>, keys: seq<Option<string>>)
    ensures KeysOf(RowsFor(obs, keys)) == set k | k in keys
    decreases |keys|
  {
    if |keys| > 0 {
      RowsForKeys(obs, keys[1..]);
      assert RowsFor(obs, keys)[1..] == RowsFor(obs, keys[1..]);
      assert forall k | k in keys :: k == keys[0] || k in keys[1..];
    }
  }

  /** The unsorted rows of the occurring keys: exactly those keys, each
      once, totals adding up to the number of observations. */
  lemma UnsortedFacts(obs: seq<Obs>)
    ensures KeysOf(RowsFor(obs, Keys(obs))) == KeySet(obs)
    ensures DistinctKeys(RowsFor(obs, Keys(obs)))
    ensures TotalSum(RowsFor(obs, Keys(obs))) == |obs|
  {
    TotalsSumToCount(obs);
    RowsForKeys(obs, Keys(obs));
  }

  /** Every sorted row is the group row of its key. */
  lemma SortedRowsAreGroupRows(obs: seq<Obs>, i: int)
    requires 0 <= i < |SortByTotal(RowsFor(obs, Keys(obs)))|
    ensures SortByTotal(RowsFor(obs, Keys(obs)))[i] == RowOf(obs, SortByTotal(RowsFor(obs, Keys(obs)))[i].key)
  {
    var unsorted := RowsFor(obs, Keys(obs));
    var e := SortByTotal(unsorted)[i];
    assert e in multiset(SortByTotal(unsorted));
    assert e in unsorted;
  }

  /** A grouping query: one row per occurring key with its click count and
      distinct-caller count, every occurring key present exactly once, the
      counts summing to the number of clicks, rows ordered by count,
      largest first (ties in no promised order). */
  function GroupStats(obs: seq<Obs>): (rows: seq<StatRow>)
    ensures SortedByTotalDesc(rows)
    ensures forall i | 0 <= i < |rows| ::
      && rows[i].total == Count(obs, rows[i].key)
      && rows[i].unique == Unique(obs, rows[i].key)
      && rows[i].unique <= rows[i].total
    ensures KeysOf(rows) == KeySet(obs)
    ensures DistinctKeys(rows)
    ensures TotalSum(rows) == |obs|
  {
    var unsorted := RowsFor(obs, Keys(obs));
    UnsortedFacts(obs);
    SortFacts(unsorted);
    var rows := SortByTotal(unsorted);
    forall i | 0 <= i < |rows|
      ensures rows[i].total == Count(obs, rows[i].key) && rows[i].unique == Unique(obs, rows[i].key)
      ensures rows[i].unique <= rows[i].total
    {
      SortedRowsAreGroupRows(obs, i);
      UniqueAtMostTotal(obs, rows[i].key);
    }
    rows
  }

  /** The dimensions `get_field_stats` is called with. */
  datatype Field = Browser | Os | Device

  function FieldOf(c: Click, f: Field): Option<string> {
    match f
    case Browser => c.browser
    case Os => c.os
    case Device => c.device
  }

  function FieldObs(clicks: seq<Click>, f: Field): (r: seq<Obs>)
    ensures |r| == |clicks|
    ensures forall i | 0 <= i < |clicks| :: r[i] == Obs(FieldOf(clicks[i], f), clicks[i].ip)
  {
    seq(|clicks|, i requires 0 <= i < |clicks| => Obs(FieldOf(clicks[i], f), clicks[i].ip))
  }

  /** The observations carry exactly the selected clicks' column values. */
  lemma FieldKeys(sel: seq<Click>, f: Field)
    ensures KeySet(FieldObs(sel, f)) == set c | c in sel :: FieldOf(c, f)
  {
    var obs := FieldObs(sel, f);
    forall c | c in sel ensures FieldOf(c, f) in KeySet(obs) {
      var i :| 0 <= i < |sel| && sel[i] == c;
      assert obs[i] in obs;
    }
    forall o | o in obs ensures o.key in set c | c in sel :: FieldOf(c, f) {
      var i :| 0 <= i < |obs| && obs[i] == o;
      assert sel[i] in sel;
    }
  }

  /** `get_field_stats`: the link's selected clicks grouped by one stored
      column. Each row counts the selected clicks whose column holds the
      row's key (`None` is the SQL null group), every value that occurs
      has its row, the counts add up to the number of selected clicks, and
      rows come largest first. */
  function GetFieldStats(clicks: seq<Click>, urlId: int, f: Field, since: Option<Timestamp>): (rows: seq<StatRow>)
    ensures SortedByTotalDesc(rows)
    ensures DistinctKeys(rows)
    ensures TotalSum(rows) == |Select(clicks, urlId, since)|
    ensures forall i | 0 <= i < |rows| ::
      && rows[i].total == Count(FieldObs(Select(clicks, urlId, since), f), rows[i].key)
      && rows[i].unique == Unique(FieldObs(Select(clicks, urlId, since), f), rows[i].key)
      && rows[i].unique <= rows[i].total
    ensures KeysOf(rows) == set c | c in Select(clicks, urlId, since) :: FieldOf(c, f)
  {
    var sel := Select(clicks, urlId, since);
    FieldKeys(sel, f);
    GroupStats(FieldObs(sel, f))
  }

  /** The country of a click's caller through `LEFT JOIN ip_addresses i ON
      c.ip = i.id`: `None` when the click has no id, no record matches, or
      the record has no country. */
  function CountryOf(ips: IpStore, ip: Option<int>): Option<string> {
    match FindById(ips, ip)
    case None => None
    case Some(rec) => rec.info.country
  }

  function CountryObs(clicks: seq<Click>, ips: IpStore): (r: seq<Obs>)
    ensures |r| == |clicks|
    ensures forall i | 0 <= i < |clicks| :: r[i] == Obs(CountryOf(ips, clicks[i].ip), clicks[i].ip)
  {
    seq(|clicks|, i requires 0 <= i < |clicks| => Obs(CountryOf(ips, clicks[i].ip), clicks[i].ip))
  }

  /** `get_countries_stats`: the link's selected clicks grouped by the
      joined record's country; clicks without a matching record land in
      the null group. */
  function GetCountriesStats(clicks: seq<Click>, ips: IpStore, urlId: int, since: Option<Timestamp>): (rows: seq<StatRow>)
    ensures SortedByTotalDesc(rows)
    ensures DistinctKeys(rows)
    ensures TotalSum(rows) == |Select(clicks, urlId, since)|
    ensures forall i | 0 <= i < |rows| ::
      && rows[i].total == Count(CountryObs(Select(clicks, urlId, since), ips), rows[i].key)
      && rows[i].unique == Unique(CountryObs(Select(clicks, urlId, since), ips), rows[i].key)
      && rows[i].unique <= rows[i].total
    ensures KeysOf(rows) == KeySet(CountryObs(Select(clicks, urlId, since), ips))
    ensures forall c | c in clicks && Selected(c, urlId, since) && FindById(ips, c.ip).None? :: None in KeysOf(rows)
  {
    var sel := Select(clicks, urlId, since);
    UnjoinedInNullGroup(sel, ips);
    GroupStats(CountryObs(sel, ips))
  }

  /** A click whose caller has no record contributes to the null group. */
  lemma UnjoinedInNullGroup(sel: seq<Click>, ips: IpStore)
    ensures forall c | c in sel && FindById(ips, c.ip).None? :: None in KeySet(CountryObs(sel, ips))
  {
    var obs := CountryObs(sel, ips);
    forall c | c in sel && FindById(ips, c.ip).None? ensures None in KeySet(obs) {
      var i :| 0 <= i < |sel| && sel[i] == c;
      assert obs[i].key == None && obs[i] in obs;
    }
  }

  /** The single row of the guests query. */
  datatype GuestRow = GuestRow(total: nat, unique: nat, proxy: nat)

  /** Every selected click with its caller id; the key is irrelevant. */
  function CallerObs(clicks: seq<Click>): (r: seq<Obs>)
    ensures |r| == |clicks|
    ensures forall i | 0 <= i < |clicks| :: r[i] == Obs(None, clicks[i].ip)
  {
    seq(|clicks|, i requires 0 <= i < |clicks| => Obs(None, clicks[i].ip))
  }

  /** Whether the record joined to a caller id is flagged as a proxy. */
  predicate JoinedProxy(ips: IpStore, ip: Option<int>) {
    FindById(ips, ip).Some? && FindById(ips, ip).value.info.isProxy
  }

  /** `CASE WHEN i.is_proxy THEN c.ip END` per selected click. */
  function ProxyObs(clicks: seq<Click>, ips: IpStore): (r: seq<Obs>)
    ensures |r| == |clicks|
    ensures forall i | 0 <= i < |clicks| ::
      r[i] == Obs(None, if JoinedProxy(ips, clicks[i].ip) then clicks[i].ip else None)
  {
    seq(|clicks|, i requires 0 <= i < |clicks| =>
      Obs(None, if JoinedProxy(ips, clicks[i].ip) then clicks[i].ip else None))
  }

  /** Dropping some caller ids (to null) can only shrink the distinct set. */
  lemma NulledIpsSubset(a: seq<Obs>, b: seq<Obs>)
    requires |a| == |b|
    requires forall i | 0 <= i < |a| :: a[i].ip.Some? ==> a[i].ip == b[i].ip
    ensures IpSet(a) <= IpSet(b)
  {
  }

  /** `get_guests_stats`: an aggregate without `GROUP BY`, so there is
      always exactly one row. `total` counts the selected clicks, `unique`
      their distinct callers and `proxy` the distinct callers whose joined
      record is flagged, so `proxy <= unique <= total`. */
  function GetGuestsStats(clicks: seq<Click>, ips: IpStore, urlId: int, since: Option<Timestamp>): (r: Option<GuestRow>)
    ensures r.Some?
    ensures r.value.total == |Select(clicks, urlId, since)|
    ensures r.value.unique == |IpSet(CallerObs(Select(clicks, urlId, since)))|
    ensures r.value.proxy == |IpSet(ProxyObs(Select(clicks, urlId, since), ips))|
    ensures r.value.proxy <= r.value.unique <= r.value.total
  {
    var sel := Select(clicks, urlId, since);
    var callers := IpSet(CallerObs(sel));
    var proxies := IpSet(ProxyObs(sel, ips));
    NulledIpsSubset(ProxyObs(sel, ips), CallerObs(sel));
    SubsetCard(proxies, callers);
    Some(GuestRow(|sel|, |callers|, |proxies|))
  }

  lemma CallerObsAppend(sel: seq<Click>, c: Click)
    ensures CallerObs(sel + [c]) == CallerObs(sel) + [Obs(None, c.ip)]
  {
  }

  /** Recording a click on the link moves the guests summary for the
      unbounded period by exactly one click, and by one distinct caller
      exactly when the caller id is new. */
  lemma AddClickGuestEffect(clicks: seq<Click>, ips: IpStore, urlId: int, ip: Option<int>,
                            browser: Option<string>, device: Option<string>, os: Option<string>, now: Timestamp)
    ensures var before := GetGuestsStats(clicks, ips, urlId, None).value;
      var after := GetGuestsStats(Add(clicks, urlId, ip, browser, device, os, now), ips, urlId, None).value;
      && after.total == before.total + 1
      && after.unique == before.unique + (if ip.Some? && ip.value !in IpSet(CallerObs(Select(clicks, urlId, None))) then 1 else 0)
  {
    var c := Click(urlId, ip, browser, device, os, now);
    SelectAppend(clicks, c, urlId, None);
    var sel := Select(clicks, urlId, None);
    var sel' := Select(clicks + [c], urlId, None);
    assert sel' == sel + [c];
    CallerObsAppend(sel, c);
    IpSetAppend(CallerObs(sel), Obs(None, ip));
    var before := IpSet(CallerObs(sel));
    var after := IpSet(CallerObs(sel'));
    if ip.Some? && ip.value !in before {
      assert after == before + {ip.value};
    } else {
      assert after == before;
    }
    assert GetGuestsStats(clicks, ips, urlId, None).value.unique == |before|;
    assert GetGuestsStats(clicks + [c], ips, urlId, None).value.unique == |after|;
  }

  /** A bound no earlier than another: `since` is later than `earlier`
      when `earlier` is unbounded, or both are instants in that order. */
  predicate NoEarlier(since: Option<Timestamp>, earlier: Option<Timestamp>) {
    earlier.None? || (since.Some? && since.value >= earlier.value)
  }

  /** A later lower bound selects no more clicks. */
  lemma {:induction false} SelectNarrower(clicks: seq<Click>, urlId: int, since: Option<Timestamp>, earlier: Option<Timestamp>)
    requires NoEarlier(since, earlier)
    ensures |Select(clicks, urlId, since)| <= |Select(clicks, urlId, earlier)|
    decreases |clicks|
  {
    if |clicks| > 0 {
      SelectNarrower(clicks[1..], urlId, since, earlier);
    }
  }
}
