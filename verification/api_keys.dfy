/** The `api_keys` table as the repository sees it
    (repositories/apikey_repository.py): at most one key per user and no key
    shared by two users, kept as an invariant. Keys are stored hashed. */
module ApiKeyRepository {
  import opened Core

  /** One row: its owner, the hashed key and the active flag. */
  datatype KeyRow = KeyRow(userId: int, key: string, isActive: bool)

  /** The table's uniqueness constraints: `user_id` and `key` are both
      unique. */
  ghost predicate Valid(rows: seq<KeyRow>) {
    forall i, j | 0 <= i < j < |rows| :: rows[i].userId != rows[j].userId && rows[i].key != rows[j].key
  }

  /** `exists_by_id`: the user has a key row, active or not. */
  function ExistsById(rows: seq<KeyRow>, userId: int): (b: bool)
    ensures b <==> exists i | 0 <= i < |rows| :: rows[i].userId == userId
  {
    if |rows| == 0 then false
    else rows[0].userId == userId || ExistsById(rows[1..], userId)
  }

  /** `validate`: the owner of the row holding this hashed key, if that row
      is active; `None` for an unknown or a deactivated key. */
  function Validate(rows: seq<KeyRow>, hashedKey: string): (r: Option<int>)
    ensures r.Some? <==> exists i | 0 <= i < |rows| :: rows[i].key == hashedKey && rows[i].isActive
    ensures r.Some? ==> exists i | 0 <= i < |rows| ::
      rows[i].key == hashedKey && rows[i].isActive && rows[i].userId == r.value
  {
    if |rows| == 0 then None
    else if rows[0].key == hashedKey && rows[0].isActive then Some(rows[0].userId)
    else
      var r := Validate(rows[1..], hashedKey);
      assert r.Some? ==> exists i | 1 <= i < |rows| ::
        rows[i].key == hashedKey && rows[i].isActive && rows[i].userId == r.value by {
        if r.Some? {
          var i :| 0 <= i < |rows[1..]| && rows[1..][i].key == hashedKey && rows[1..][i].isActive
                   && rows[1..][i].userId == r.value;
          assert rows[i + 1] == rows[1..][i];
        }
      }
      assert (exists i | 0 <= i < |rows| :: rows[i].key == hashedKey && rows[i].isActive) ==> r.Some? by {
        if exists i | 0 <= i < |rows| :: rows[i].key == hashedKey && rows[i].isActive {
          var i :| 0 <= i < |rows| && rows[i].key == hashedKey && rows[i].isActive;
          assert i >= 1 && rows[1..][i - 1] == rows[i];
        }
      }
      r
  }

  /** Under the constraints a key names at most one row, so `validate`
      answers the owner of exactly the row that holds it. */
  lemma ValidateNamesHolder(rows: seq<KeyRow>, i: int)
    requires Valid(rows)
    requires 0 <= i < |rows| && rows[i].isActive
    ensures Validate(rows, rows[i].key) == Some(rows[i].userId)
  {
    assert forall j | 0 <= j < |rows| && rows[j].key == rows[i].key :: j == i;
  }

  /** The rows with the user's key replaced and reactivated: `ON CONFLICT
      (user_id) DO UPDATE SET key = EXCLUDED.key, is_active = TRUE`. */
  function Replace(rows: seq<KeyRow>, userId: int, hashedKey: string): (r: seq<KeyRow>)
    ensures |r| == |rows|
    ensures forall i | 0 <= i < |rows| ::
      r[i] == if rows[i].userId == userId then KeyRow(userId, hashedKey, true) else rows[i]
  {
    if |rows| == 0 then []
    else
      [if rows[0].userId == userId then KeyRow(userId, hashedKey, true) else rows[0]]
        + Replace(rows[1..], userId, hashedKey)
  }

  /** Whether a user other than `userId` holds the key. */
  predicate HeldByOther(rows: seq<KeyRow>, userId: int, hashedKey: string) {
    exists i | 0 <= i < |rows| :: rows[i].key == hashedKey && rows[i].userId != userId
  }

  /** `upsert`: a new user gets a new active row; a user with a row has its
      key replaced and the row reactivated. A key already held by another
      user violates the key's uniqueness, which `ON CONFLICT (user_id)` does
      not absorb, and the statement fails with nothing changed. Afterwards
      the user has exactly one row, holding the new key, active, and every
      other user's row is as before. */
  function Upsert(rows: seq<KeyRow>, userId: int, hashedKey: string): (r: Result<seq<KeyRow>>)
    requires Valid(rows)
    ensures r.Err? <==> HeldByOther(rows, userId, hashedKey)
    ensures r.Err? ==> r.error == InternalError
    ensures r.Ok? ==>
      && Valid(r.value)
      && ExistsById(r.value, userId)
      && (forall i | 0 <= i < |r.value| && r.value[i].userId == userId ::
            r.value[i] == KeyRow(userId, hashedKey, true))
      && (forall i | 0 <= i < |r.value| && r.value[i].userId != userId :: r.value[i] in rows)
      && (forall i | 0 <= i < |rows| && rows[i].userId != userId :: rows[i] in r.value)
  {
    if HeldByOther(rows, userId, hashedKey) then Err(InternalError)
    else if ExistsById(rows, userId) then
      var t := Replace(rows, userId, hashedKey);
      assert forall i | 0 <= i < |rows| && rows[i].userId != userId :: rows[i] == t[i];
      Ok(t)
    else
      var t := rows + [KeyRow(userId, hashedKey, true)];
      assert t[|rows|].userId == userId;
      assert forall i | 0 <= i < |rows| :: t[i] == rows[i];
      Ok(t)
  }

  /** After `upsert(u, k)`, `validate(k)` answers `u`. */
  lemma UpsertThenValidate(rows: seq<KeyRow>, userId: int, hashedKey: string)
    requires Valid(rows)
    requires Upsert(rows, userId, hashedKey).Ok?
    ensures Validate(Upsert(rows, userId, hashedKey).value, hashedKey) == Some(userId)
  {
    var t := Upsert(rows, userId, hashedKey).value;
    var i :| 0 <= i < |t| && t[i].userId == userId;
    ValidateNamesHolder(t, i);
  }

  /** A new key revokes the old one: after `upsert(u, k)` and then
      `upsert(u, k2)` with `k2 != k`, the old key validates for nobody. */
  lemma ReplacedKeyRevoked(rows: seq<KeyRow>, userId: int, k: string, k2: string)
    requires Valid(rows)
    requires k2 != k
    requires Upsert(rows, userId, k).Ok?
    requires Upsert(Upsert(rows, userId, k).value, userId, k2).Ok?
    ensures Validate(Upsert(Upsert(rows, userId, k).value, userId, k2).value, k) == None
  {
    var t := Upsert(rows, userId, k).value;
    var t2 := Upsert(t, userId, k2).value;
    forall i | 0 <= i < |t2| ensures t2[i].key != k {
      if t2[i].userId != userId {
        var j :| 0 <= j < |t| && t[j] == t2[i];
        var m :| 0 <= m < |t| && t[m].userId == userId;
        assert t[m].key == k;
        assert j != m;
      }
    }
  }
}

/** The API-key service (services/apikey_service.py). Key generation and
    hashing come from the configuration and are parameters here. */
module ApiKeyService {
  import opened Core
  import opened ApiKeyRepository

  const InvalidKey := Error(401, "Invalid or expired api-key")

  /** `generate_akey`: stores the hashed half of the generated pair for the
      user and hands out the plain half. */
  function GenerateAkey(rows: seq<KeyRow>, userId: int, generated: (string, string)): (r: Result<(string, seq<KeyRow>)>)
    requires Valid(rows)
    ensures r.Ok? <==> Upsert(rows, userId, generated.1).Ok?
    ensures r.Ok? ==>
      && r.value.0 == generated.0
      && Valid(r.value.1)
      && Validate(r.value.1, generated.1) == Some(userId)
  {
    match Upsert(rows, userId, generated.1)
    case Err(e) => Err(e)
    case Ok(t) =>
      UpsertThenValidate(rows, userId, generated.1);
      Ok((generated.0, t))
  }

  /** `validate_akey`: the owner of the active row holding the key's hash;
      401 when there is none, and also when the owner id is 0, which the
      truthiness test treats like a missing answer. */
  function ValidateAkey(rows: seq<KeyRow>, key: string, hash: string -> string): (r: Result<int>)
    ensures r.Ok? <==> Validate(rows, hash(key)).Some? && Validate(rows, hash(key)).value != 0
    ensures r.Err? ==> r.error == InvalidKey
    ensures r.Ok? ==> exists i | 0 <= i < |rows| ::
      rows[i].key == hash(key) && rows[i].isActive && rows[i].userId == r.value
  {
    match Validate(rows, hash(key))
    case None => Err(InvalidKey)
    case Some(u) => if u == 0 then Err(InvalidKey) else Ok(u)
  }

  /** `has_akey`: the user has a key row, whether or not it is active. */
  function HasAkey(rows: seq<KeyRow>, userId: int): (b: bool)
    ensures b <==> exists i | 0 <= i < |rows| :: rows[i].userId == userId
  {
    ExistsById(rows, userId)
  }

  /** The handed-out key works: when the generated pair is a key and its
      hash, `validate_akey` on the plain key answers the user (any id but
      0); and a regenerated key makes the earlier one fail with 401. */
  lemma GeneratedKeyValidates(rows: seq<KeyRow>, userId: int, generated: (string, string),
                              hash: string -> string, again: (string, string))
    requires Valid(rows)
    requires generated.1 == hash(generated.0) && again.1 == hash(again.0)
    requires userId != 0
    requires GenerateAkey(rows, userId, generated).Ok?
    ensures var t := GenerateAkey(rows, userId, generated).value.1;
      ValidateAkey(t, generated.0, hash) == Ok(userId)
    ensures var t := GenerateAkey(rows, userId, generated).value.1;
      again.1 != generated.1 && GenerateAkey(t, userId, again).Ok? ==>
        ValidateAkey(GenerateAkey(t, userId, again).value.1, generated.0, hash) == Err(InvalidKey)
  {
    var t := GenerateAkey(rows, userId, generated).value.1;
    if again.1 != generated.1 && GenerateAkey(t, userId, again).Ok? {
      ReplacedKeyRevoked(rows, userId, generated.1, again.1);
    }
  }
}
