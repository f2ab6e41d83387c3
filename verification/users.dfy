/** Registration and login (services/user_service.py) over the `users`
    table, whose queries (repositories/user_repository.py) are plain reads
    and one insert. E-mail addresses are unique and ids are fresh; the
    password is stored hashed. Hashing and checking come from the
    configuration and are parameters here. */
module UserService {
  import opened Core

  /** One row of `users`; `password` holds the hash. */
  datatype User = User(id: int, name: string, email: string, password: string)

  /** The table and the next value of its id sequence. */
  datatype UserStore = UserStore(users: seq<User>, nextId: int)

  /** `email` is unique and every id was drawn from the sequence and is
      therefore below its next value and distinct. */
  ghost predicate Valid(s: UserStore) {
    && s.nextId >= 1
    && (forall i | 0 <= i < |s.users| :: 1 <= s.users[i].id < s.nextId)
    && (forall i, j | 0 <= i < j < |s.users| ::
          s.users[i].email != s.users[j].email && s.users[i].id != s.users[j].id)
  }

  const EmailTaken := Error(409, "User with this email already exists")
  const UserNotFound := Error(404, "User not found")
  const IncorrectPassword := Error(401, "Incorrect password")

  /** `exists_by_email`: a scan of the rows for the address. */
  function ExistsByEmail(users: seq<User>, email: string): (b: bool)
    ensures b <==> exists i | 0 <= i < |users| :: users[i].email == email
  {
    if |users| == 0 then false
    else users[0].email == email || ExistsByEmail(users[1..], email)
  }

  /** `get_password_by_email`: the id and stored hash of the user with this
      address, if any. */
  function GetPasswordByEmail(users: seq<User>, email: string): (r: Option<(int, string)>)
    ensures r.None? <==> forall i | 0 <= i < |users| :: users[i].email != email
    ensures r.Some? ==> exists i | 0 <= i < |users| ::
      users[i].email == email && r.value == (users[i].id, users[i].password)
  {
    if |users| == 0 then None
    else if users[0].email == email then Some((users[0].id, users[0].password))
    else
      var r := GetPasswordByEmail(users[1..], email);
      assert r.Some? ==> exists i | 1 <= i < |users| ::
        users[i].email == email && r.value == (users[i].id, users[i].password) by {
        if r.Some? {
          var i :| 0 <= i < |users[1..]| && users[1..][i].email == email
                   && r.value == (users[1..][i].id, users[1..][i].password);
          assert users[i + 1] == users[1..][i];
        }
      }
      assert r.None? ==> forall i | 0 <= i < |users| :: users[i].email != email by {
        if r.None? {
          forall i | 1 <= i < |users| ensures users[i].email != email {
            assert users[i] == users[1..][i - 1];
          }
        }
      }
      r
  }

  /** The answer of `register_user` and the table afterwards. */
  datatype Registered = Registered(result: Result<int>, store: UserStore)

  /** `register_user`: 409 with nothing added for a known address;
      otherwise one new user with a fresh id and the hash of the password,
      whose id is returned; every earlier user is kept. */
  function Register(s: UserStore, name: string, email: string, password: string,
                    hash: string -> string): (r: Registered)
    requires Valid(s)
    ensures Valid(r.store)
    ensures r.result.Err? <==> ExistsByEmail(s.users, email)
    ensures r.result.Err? ==> r.result.error == EmailTaken && r.store == s
    ensures r.result.Ok? ==>
      && r.store.users == s.users + [User(r.result.value, name, email, hash(password))]
      && forall i | 0 <= i < |s.users| :: s.users[i].id != r.result.value
  {
    if ExistsByEmail(s.users, email) then Registered(Err(EmailTaken), s)
    else
      var u := User(s.nextId, name, email, hash(password));
      Registered(Ok(s.nextId), UserStore(s.users + [u], s.nextId + 1))
  }

  /** `login_user`: 404 for an unknown address, 401 when the password does
      not match the stored hash, otherwise the user's id. */
  function Login(s: UserStore, email: string, password: string,
                 verify: (string, string) -> bool): (r: Result<int>)
    requires Valid(s)
    ensures r == Err(UserNotFound) <==> !ExistsByEmail(s.users, email)
    ensures r == Err(IncorrectPassword) <==>
      exists i | 0 <= i < |s.users| :: s.users[i].email == email && !verify(password, s.users[i].password)
    ensures r.Ok? <==>
      exists i | 0 <= i < |s.users| :: s.users[i].email == email && verify(password, s.users[i].password)
    ensures r.Ok? ==> exists i | 0 <= i < |s.users| :: s.users[i].email == email && s.users[i].id == r.value
  {
    match GetPasswordByEmail(s.users, email)
    case None => Err(UserNotFound)
    case Some(row) =>
      var i :| 0 <= i < |s.users| && s.users[i].email == email && row == (s.users[i].id, s.users[i].password);
      assert forall j | 0 <= j < |s.users| && s.users[j].email == email :: j == i;
      if !verify(password, row.1) then Err(IncorrectPassword) else Ok(row.0)
  }

  /** Registration and login fit together: when the checker accepts a
      password against its own hash, the password just registered logs in
      as the new user, and a second registration with the address fails. */
  lemma RegisterThenLogin(s: UserStore, name: string, email: string, password: string,
                          hash: string -> string, verify: (string, string) -> bool, name2: string, password2: string)
    requires Valid(s)
    requires verify(password, hash(password))
    requires Register(s, name, email, password, hash).result.Ok?
    ensures var r := Register(s, name, email, password, hash);
      Login(r.store, email, password, verify) == Ok(r.result.value)
    ensures var r := Register(s, name, email, password, hash);
      Register(r.store, name2, email, password2, hash) == Registered(Err(EmailTaken), r.store)
  {
    var r := Register(s, name, email, password, hash);
    var t := r.store;
    var n := |s.users|;
    assert t.users[n].email == email;
    assert forall j | 0 <= j < |t.users| && t.users[j].email == email :: j == n;
  }
}
