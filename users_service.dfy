/**
 * `UsersService` (Simplebank.Application/Services/UsersService.cs):
 * looking a user up, registering a user, and logging in.
 *
 * Hashing a password, checking a password against a hash, and issuing a
 * token are done by providers outside this model; they are parameters
 * here, and a lemma that needs a property of them states it as a requirement.
 */
module UsersService {
  import opened Wrappers
  import opened Domain
  import opened Ledger
  import opened Transactions

  /** The first user satisfying `p` (`FirstOrDefaultAsync`), or none. */
  function FirstWhere(users: seq<User>, p: User -> bool): (r: Option<User>)
    ensures r.None? <==> forall i :: 0 <= i < |users| ==> !p(users[i])
    ensures r.Some? ==> exists i ::
      0 <= i < |users| && users[i] == r.value && p(r.value) && forall j :: 0 <= j < i ==> !p(users[j])
    decreases |users|
  {
    if users == [] then None
    else if p(users[0]) then Some(users[0])
    else
      var r := FirstWhere(users[1..], p);
      assert forall i :: 1 <= i < |users| ==> users[i] == users[1..][i - 1];
      r
  }

  /** `UsersRepository.GetByLoginAsync`. */
  function ByLogin(users: seq<User>, login: string): Option<User> {
    FirstWhere(users, (u: User) => u.login == login)
  }

  /** `UsersRepository.GetByEmailAsync`. */
  function ByEmail(users: seq<User>, email: string): Option<User> {
    FirstWhere(users, (u: User) => u.email == email)
  }

  /** `GetByIdAsync`: the user with that primary key, without the password, or `UserNotFound`. */
  function GetById(users: seq<User>, id: Guid): (r: Result<UserDto, Error>)
    ensures r.Failure? <==> forall i :: 0 <= i < |users| ==> users[i].id != id
    ensures r.Failure? ==> r.error == UserNotFound(id)
    ensures r.Success? ==> exists i :: 0 <= i < |users| && users[i].id == id && r.value == ToDto(users[i])
  {
    match FirstWhere(users, (u: User) => u.id == id)
    case None => Failure(UserNotFound(id))
    case Some(u) => Success(ToDto(u))
  }

  /** The lookups by login and by email together find a user exactly when the unique indexes would refuse one. */
  lemma LookupsMatchUniqueIndexes(users: seq<User>, login: string, email: string)
    ensures ByLogin(users, login).Some? || ByEmail(users, email).Some? <==> LoginOrEmailTaken(users, login, email)
  {
    if LoginOrEmailTaken(users, login, email) {
      var i :| 0 <= i < |users| && (users[i].login == login || users[i].email == email);
      if users[i].login == login {
        assert ((u: User) => u.login == login)(users[i]);
      } else {
        assert ((u: User) => u.email == email)(users[i]);
      }
    }
  }

  /**
   * What `CreateAsync` does to the tables once its transaction has begun:
   * refuse a taken login, then a taken email, otherwise store the user
   * with the hash of the password and return it without the password.
   */
  function CreateSpec(t: Tables, login: string, name: string, email: string, password: string,
                      createHash: string -> string): (r: (Tables, Result<UserDto, Error>))
    ensures r.1.Failure? <==> LoginOrEmailTaken(t.users, login, email)
    ensures r.1.Failure? ==> r.0 == t && r.1.error == UserAlreadyExists(login, email)
    ensures r.1.Success? ==>
      && r.1.value == UserDto(t.nextId, login, name, email)
      && r.0 == t.(users := t.users + [User(t.nextId, login, name, email, createHash(password))], nextId := t.nextId + 1)
    ensures Consistent(t) ==> Consistent(r.0)
  {
    LookupsMatchUniqueIndexes(t.users, login, email);
    if ByLogin(t.users, login).Some? then (t, Failure(UserAlreadyExists(login, email)))
    else if ByEmail(t.users, email).Some? then (t, Failure(UserAlreadyExists(login, email)))
    else
      match InsertUser(t, User(0, login, name, email, createHash(password)))
      case (t', Success(u)) => (t', Success(ToDto(u)))
      case (_, Failure(_)) => (t, Failure(UserAlreadyExists(login, email)))
  }

  /** A registered user can be read back by the id they were given. */
  lemma CreatedUserCanBeRead(t: Tables, login: string, name: string, email: string, password: string,
                             createHash: string -> string)
    requires Consistent(t)
    requires CreateSpec(t, login, name, email, password, createHash).1.Success?
    ensures var r := CreateSpec(t, login, name, email, password, createHash);
      GetById(r.0.users, r.1.value.id) == Success(r.1.value)
  {
    var r := CreateSpec(t, login, name, email, password, createHash);
    var users := r.0.users;
    var last := |users| - 1;
    assert users[last].id == t.nextId;
    forall j | 0 <= j < last
      ensures users[j].id != t.nextId
    {
      assert users[j] == t.users[j];
    }
    var found := FirstWhere(users, (u: User) => u.id == t.nextId);
    assert ((u: User) => u.id == t.nextId)(users[last]);
    var i :| 0 <= i < |users| && users[i] == found.value && found.value.id == t.nextId;
    assert i == last;
  }

  /**
   * `LoginAsync`: find the user by login, check the password against the
   * stored hash, and issue a token for the user's id.
   */
  function Login(users: seq<User>, login: string, password: string,
                 verifyPassword: (string, string) -> bool, generateToken: Guid -> string): (r: Result<string, Error>)
    ensures ByLogin(users, login).None? ==> r == Failure(LoginNotFound(login))
    ensures ByLogin(users, login).Some? && !verifyPassword(password, ByLogin(users, login).value.password)
      ==> r == Failure(IncorrectPassword(login))
    ensures ByLogin(users, login).Some? && verifyPassword(password, ByLogin(users, login).value.password)
      ==> r == Success(generateToken(ByLogin(users, login).value.id))
    ensures r.Success? ==> exists i ::
      && 0 <= i < |users| && users[i].login == login
      && verifyPassword(password, users[i].password) && r.value == generateToken(users[i].id)
  {
    match ByLogin(users, login)
    case None => Failure(LoginNotFound(login))
    case Some(u) =>
      if !verifyPassword(password, u.password) then Failure(IncorrectPassword(login))
      else Success(generateToken(u.id))
  }

  /**
   * Registering and then logging in with the same password yields a token
   * for the new user, provided the password provider accepts every
   * password against its own hash.
   */
  lemma {:induction false} RegisterThenLogin(t: Tables, login: string, name: string, email: string, password: string,
                                             createHash: string -> string, verifyPassword: (string, string) -> bool,
                                             generateToken: Guid -> string)
    requires forall p :: verifyPassword(p, createHash(p))
    requires CreateSpec(t, login, name, email, password, createHash).1.Success?
    ensures var r := CreateSpec(t, login, name, email, password, createHash);
      Login(r.0.users, login, password, verifyPassword, generateToken) == Success(generateToken(t.nextId))
  {
    var r := CreateSpec(t, login, name, email, password, createHash);
    var users := r.0.users;
    var last := |users| - 1;
    forall j | 0 <= j < last
      ensures users[j].login != login
    {
      assert users[j] == t.users[j];
    }
    assert ((u: User) => u.login == login)(users[last]);
    var found := ByLogin(users, login);
    var i :| 0 <= i < |users| && users[i] == found.value && found.value.login == login;
    assert i == last;
  }

  /** A wrong password is refused whatever token the provider would issue. */
  lemma WrongPasswordIsRefused(users: seq<User>, login: string, password: string,
                               verifyPassword: (string, string) -> bool, generateToken: Guid -> string)
    requires forall i :: 0 <= i < |users| && users[i].login == login ==> !verifyPassword(password, users[i].password)
    ensures Login(users, login, password, verifyPassword, generateToken).Failure?
  {
  }

  /** `CreateAsync`, inside its transaction. */
  method Create(db: Store, uow: UnitOfWork, login: string, name: string, email: string, password: string,
                createHash: string -> string) returns (r: Result<UserDto, Error>)
    requires db.Valid() && uow.Valid() && uow.db == db
    modifies db, uow
    ensures db.Valid() && uow.Valid()
    ensures old(uow.transaction).Some? ==>
      && r == Failure(AlreadyStarted) && db.Snapshot() == old(db.Snapshot())
      && uow.transaction == old(uow.transaction) && uow.log == old(uow.log)
    ensures old(uow.transaction).None? ==>
      && (db.Snapshot(), r) == CreateSpec(old(db.Snapshot()), login, name, email, password, createHash)
      && uow.transaction.None?
      && uow.log == old(uow.log) + [BeginOp, if r.Success? then CommitOp else RollbackOp]
  {
    ghost var before := db.Snapshot();
    var begun := uow.Begin();
    if begun.Fail? {
      return Failure(begun.error);
    }
    if ByLogin(db.users, login).Some? {
      r := Failure(UserAlreadyExists(login, email));
    } else if ByEmail(db.users, email).Some? {
      r := Failure(UserAlreadyExists(login, email));
    } else {
      var added := db.AddUser(User(0, login, name, email, createHash(password)));
      r := if added.Success? then Success(ToDto(added.value)) else Failure(UserAlreadyExists(login, email));
    }
    assert (db.Snapshot(), r) == CreateSpec(before, login, name, email, password, createHash);
    Conclude(uow, r.Success?);
  }
}
