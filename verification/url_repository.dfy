/** The link store (repositories/url_repository.py over the `urls` table):
    a map from short code to link row, with the table's uniqueness
    constraints kept as an invariant. */
module UrlRepository {
  import opened Core
  import Text

  /** One row of `urls`. `validFrom`/`validUntil` are the daily window,
      `expiresAt` the instant after which the link is gone. */
  datatype Link = Link(
    id: nat,
    userId: int,
    originalUrl: string,
    shortCode: string,
    createdAt: Timestamp,
    expiresAt: Timestamp,
    password: Option<string>,
    validFrom: Option<TimeOfDay>,
    validUntil: Option<TimeOfDay>,
    allowProxy: bool)

  /** The column default of `expires_at`: thirty days after insertion. */
  const DefaultLifetime: int := Days(30)

  /** The table: rows keyed by short code, and the next `SERIAL` id. */
  datatype LinkStore = LinkStore(links: map<string, Link>, nextId: nat)

  const Empty := LinkStore(map[], 1)

  /** The table's constraints: `short_code` unique (it is the key), ids
      unique and issued below `nextId`, `(user_id, original_url)` unique. */
  ghost predicate Valid(s: LinkStore) {
    && s.nextId >= 1
    && (forall c | c in s.links :: s.links[c].shortCode == c && 1 <= s.links[c].id < s.nextId)
    && (forall c, d | c in s.links && d in s.links && c != d ::
          && s.links[c].id != s.links[d].id
          && (s.links[c].userId != s.links[d].userId || s.links[c].originalUrl != s.links[d].originalUrl))
  }

  lemma EmptyValid()
    ensures Valid(Empty)
  {
  }

  /** The column names of `urls`. */
  const Columns: set<string> :=
    {"id", "user_id", "original_url", "short_code", "created_at", "expires_at",
     "password", "valid_from", "valid_until", "allow_proxy"}

  /** The cell of column `name` in row `l`. */
  function Column(l: Link, name: string): Value
    requires name in Columns
  {
    if name == "id" then Int(l.id)
    else if name == "user_id" then Int(l.userId)
    else if name == "original_url" then Text(l.originalUrl)
    else if name == "short_code" then Text(l.shortCode)
    else if name == "created_at" then Int(l.createdAt)
    else if name == "expires_at" then Int(l.expiresAt)
    else if name == "password" then TextOrNull(l.password)
    else if name == "valid_from" then IntOrNull(if l.validFrom.Some? then Some(l.validFrom.value as int) else None)
    else if name == "valid_until" then IntOrNull(if l.validUntil.Some? then Some(l.validUntil.value as int) else None)
    else Bool(l.allowProxy)
  }

  /** `dict(row)` of `SELECT <fields> FROM urls ...`: one entry per listed
      column. */
  function Project(l: Link, fields: seq<string>): Row
    requires forall f | f in fields :: f in Columns
  {
    map f | f in fields :: Column(l, f)
  }

  /** `shortcode_exists`: whether some row carries the code. */
  function ShortcodeExists(s: LinkStore, code: string): (b: bool)
    requires Valid(s)
    ensures b <==> exists c | c in s.links :: s.links[c].shortCode == code
  {
    code in s.links
  }

  /** The codes of the rows owned by `userId`. */
  function OwnedCodes(s: LinkStore, userId: int): set<string> {
    set c | c in s.links && s.links[c].userId == userId
  }

  /** `fetch_by_user_id`: the rows owned by `userId` (the query has no
      `ORDER BY`, so the model returns a set). */
  function FetchByUserId(s: LinkStore, userId: int): (r: set<Link>)
    requires Valid(s)
    ensures forall l | l in r :: l.userId == userId && l.shortCode in s.links && s.links[l.shortCode] == l
    ensures forall c | c in s.links && s.links[c].userId == userId :: s.links[c] in r
  {
    set c | c in OwnedCodes(s, userId) :: s.links[c]
  }

  /** `exists_by_user_and_url`: whether `userId` already owns a row for
      `url`, i.e. whether their own rows include one with that URL. */
  function ExistsByUserAndUrl(s: LinkStore, userId: int, url: string): (b: bool)
    requires Valid(s)
    ensures b <==> exists l | l in FetchByUserId(s, userId) :: l.originalUrl == url
  {
    var b := exists c | c in s.links :: s.links[c].userId == userId && s.links[c].originalUrl == url;
    assert b ==> exists l | l in FetchByUserId(s, userId) :: l.originalUrl == url by {
      if b {
        var c :| c in s.links && s.links[c].userId == userId && s.links[c].originalUrl == url;
        assert s.links[c] in FetchByUserId(s, userId);
      }
    }
    b
  }

  /** A successful insertion: the new table and the `RETURNING id` value. */
  datatype Inserted = Inserted(store: LinkStore, id: nat)

  /** The row `add` writes; `created_at` and `expires_at` take their column
      defaults. */
  function NewLink(id: nat, userId: int, originalUrl: string, shortCode: string,
                   password: Option<string>, validFrom: Option<TimeOfDay>,
                   validUntil: Option<TimeOfDay>, allowProxy: bool, now: Timestamp): Link
  {
    Link(id, userId, originalUrl, shortCode, now, now + DefaultLifetime,
         password, validFrom, validUntil, allowProxy)
  }

  /** `add`: `INSERT ... RETURNING id`. The insert raises, and changes
      nothing, when it would break a uniqueness constraint; otherwise it
      adds exactly one row under a fresh id and keeps every other row. */
  function Add(s: LinkStore, userId: int, originalUrl: string, shortCode: string,
               password: Option<string>, validFrom: Option<TimeOfDay>,
               validUntil: Option<TimeOfDay>, allowProxy: bool, now: Timestamp): (r: Result<Inserted>)
    requires Valid(s)
    ensures r.Ok? <==> !ShortcodeExists(s, shortCode) && !ExistsByUserAndUrl(s, userId, originalUrl)
    ensures r.Err? ==> r.error == InternalError
    ensures r.Ok? ==>
      && Valid(r.value.store)
      && ShortcodeExists(r.value.store, shortCode)
      && r.value.store.links.Keys == s.links.Keys + {shortCode}
      && (forall c | c in s.links :: r.value.store.links[c] == s.links[c] && s.links[c].id != r.value.id)
      && r.value.store.links[shortCode] ==
           NewLink(r.value.id, userId, originalUrl, shortCode, password, validFrom, validUntil, allowProxy, now)
  {
    if shortCode in s.links || ExistsByUserAndUrl(s, userId, originalUrl) then Err(InternalError)
    else
      var l := NewLink(s.nextId, userId, originalUrl, shortCode, password, validFrom, validUntil, allowProxy, now);
      InsertValid(s, l);
      Ok(Inserted(LinkStore(s.links[shortCode := l], s.nextId + 1), s.nextId))
  }

  /** Inserting a row with a fresh code, a fresh id and a fresh
      `(user_id, original_url)` pair keeps the constraints. */
  lemma InsertValid(s: LinkStore, l: Link)
    requires Valid(s)
    requires l.shortCode !in s.links && l.id == s.nextId >= 1
    requires !ExistsByUserAndUrl(s, l.userId, l.originalUrl)
    ensures Valid(LinkStore(s.links[l.shortCode := l], s.nextId + 1))
  {
    forall c | c in s.links && s.links[c].userId == l.userId ensures s.links[c].originalUrl != l.originalUrl {
      assert s.links[c] in FetchByUserId(s, l.userId);
    }
  }

  /** `fetchrow_by_shortcode`: `None` for an empty field list (without any
      query), the query's failure for a name that is not a column, `None`
      for an unknown code, and otherwise the requested columns of the row. */
  function FetchrowByShortcode(s: LinkStore, code: string, fields: seq<string>): (r: Result<Option<Row>>)
    requires Valid(s)
    ensures |fields| == 0 ==> r == Ok(None)
    ensures r.Err? <==> |fields| > 0 && exists f | f in fields :: f !in Columns
    ensures r.Err? ==> r.error == InternalError
    ensures r.Ok? && |fields| > 0 ==> (r.value.None? <==> !ShortcodeExists(s, code))
    ensures r.Ok? && r.value.Some? ==>
      && code in s.links
      && r.value.value.Keys == (set f | f in fields)
      && forall f | f in fields :: r.value.value[f] == Column(s.links[code], f)
  {
    if |fields| == 0 then Ok(None)
    else if exists f | f in fields :: f !in Columns then Err(InternalError)
    else if code !in s.links then Ok(None)
    else Ok(Some(Project(s.links[code], fields)))
  }

  /** The outcome of a bulk delete: the new table and the count read back
      from the command tag. */
  datatype Deleted = Deleted(store: LinkStore, count: nat)

  /** `delete_by_user_id`: removes every row of `userId`, keeps every other
      row unchanged, and returns the count parsed from `"DELETE n"`, which
      is the number of rows removed. */
  function DeleteByUserId(s: LinkStore, userId: int): (r: Result<Deleted>)
    requires Valid(s)
    ensures r.Ok?
    ensures r.value.count == |OwnedCodes(s, userId)|
    ensures Valid(r.value.store)
    ensures FetchByUserId(r.value.store, userId) == {}
    ensures forall c :: c in r.value.store.links <==> c in s.links && s.links[c].userId != userId
    ensures forall c | c in r.value.store.links :: r.value.store.links[c] == s.links[c]
  {
    var removed := OwnedCodes(s, userId);
    var t := s.(links := s.links - removed);
    Text.DeleteTagRoundTrip(|removed|);
    match Text.ParseRowCount(Text.DeleteTag(|removed|))
    case Err(e) => Err(e)
    case Ok(n) => Ok(Deleted(t, n))
  }

  /** `delete_by_shortcode`: removes the row with that code, if any, and
      nothing else. */
  function DeleteByShortcode(s: LinkStore, code: string): (r: LinkStore)
    requires Valid(s)
    ensures Valid(r)
    ensures !ShortcodeExists(r, code)
    ensures forall c | c in s.links && c != code :: c in r.links && r.links[c] == s.links[c]
    ensures forall c | c in r.links :: c in s.links
  {
    s.(links := s.links - {code})
  }

  /** Deleting one user's rows leaves another user's rows as they were. */
  lemma DeleteByUserIdKeepsOthers(s: LinkStore, userId: int, other: int)
    requires Valid(s)
    requires other != userId
    ensures DeleteByUserId(s, userId).Ok?
    ensures FetchByUserId(DeleteByUserId(s, userId).value.store, other) == FetchByUserId(s, other)
  {
    var t := DeleteByUserId(s, userId).value.store;
    forall l | l in FetchByUserId(s, other) ensures l in FetchByUserId(t, other) {
      assert t.links[l.shortCode] == l;
    }
  }
}
