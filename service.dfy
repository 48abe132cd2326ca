/** The user service: creation with username-then-email uniqueness checks,
    lookups, update with the "changed and already taken" checks, and delete.
    `Create`, `Update` and `Delete` are the specification of one call each, as
    a function from the table before to the outcome and the table after; the
    class `UserService` performs the same calls against a `UserRepository`
    and is proved to agree with them. */
module Service {
  import opened Wrappers
  import opened Decimal
  import opened Repository

  /** The three ways a service call fails. The source throws one kind of
      exception carrying a message; `Message` is that message. */
  datatype ServiceError =
    | UsernameExists(username: string)
    | EmailExists(email: string)
    | NotFound(id: int)

  const UsernameExistsPrefix := "用户名已存在: "
  const EmailExistsPrefix := "邮箱已存在: "
  const NotFoundPrefix := "用户不存在，ID: "

  function Message(e: ServiceError): string {
    match e
    case UsernameExists(u) => UsernameExistsPrefix + u
    case EmailExists(m) => EmailExistsPrefix + m
    case NotFound(id) => NotFoundPrefix + IntToString(id)
  }

  /** A message names its error: nothing is lost when only the text travels
      on to the caller. */
  lemma MessageInjective(e1: ServiceError, e2: ServiceError)
    requires Message(e1) == Message(e2)
    ensures e1 == e2
  {
    var m := Message(e1);
    match e1
    case UsernameExists(u) =>
      assert m[0] == '用' && m[2] == '名';
      assert m[|UsernameExistsPrefix|..] == u;
      if e2.UsernameExists? {
        assert m[|UsernameExistsPrefix|..] == e2.username;
      }
    case EmailExists(x) =>
      assert m[0] == '邮';
      assert m[|EmailExistsPrefix|..] == x;
      if e2.EmailExists? {
        assert m[|EmailExistsPrefix|..] == e2.email;
      }
    case NotFound(id) =>
      assert m[0] == '用' && m[2] == '不';
      var t := IntToString(id);
      assert m[|NotFoundPrefix|..] == t;
      if e2.NotFound? {
        assert m[|NotFoundPrefix|..] == IntToString(e2.id);
        IntToStringInjective(id, e2.id);
      }
  }

  /** The result of one call and the table it leaves behind. */
  datatype Outcome<+T> = Outcome(result: Result<T, ServiceError>, after: Db)

  /** `createUser`: username checked first, then email, then the record is
      saved under a fresh id. */
  function Create(db: Db, user: UserDetails): (out: Outcome<User>)
    ensures out.result.Failure? <==> out.after == db
    ensures out.after.nextId >= db.nextId
  {
    if ExistsByUsername(db, user.username) then
      Outcome(Failure(UsernameExists(user.username)), db)
    else if ExistsByEmail(db, user.email) then
      Outcome(Failure(EmailExists(user.email)), db)
    else
      var (saved, db') := Saved(db, None, user);
      Outcome(Success(saved), db')
  }

  /** `updateUser`: look the record up or fail; reject a username (email) that
      differs from the record's current one and is already stored; otherwise
      replace the three fields of the record, keeping its id. */
  function Update(db: Db, id: int, userDetails: UserDetails): (out: Outcome<User>)
    ensures out.after.nextId == db.nextId
    ensures out.result.Failure? ==> out.after == db
  {
    match FindById(db, id)
    case None =>
      Outcome(Failure(NotFound(id)), db)
    case Some(user) =>
      if user.username != userDetails.username && ExistsByUsername(db, userDetails.username) then
        Outcome(Failure(UsernameExists(userDetails.username)), db)
      else if user.email != userDetails.email && ExistsByEmail(db, userDetails.email) then
        Outcome(Failure(EmailExists(userDetails.email)), db)
      else
        var (saved, db') := Saved(db, Some(user.id), userDetails);
        Outcome(Success(saved), db')
  }

  /** `deleteUser`: fail unless a record has the id, otherwise remove it. */
  function Delete(db: Db, id: int): (out: Outcome<()>)
    ensures out.after.nextId == db.nextId
    ensures out.result.Failure? ==> out.after == db
  {
    if !ExistsById(db, id) then Outcome(Failure(NotFound(id)), db)
    else Outcome(Success(()), Deleted(db, id))
  }

  // ---------------------------------------------------------------------------
  // createUser

  /** A username already stored is rejected first, whatever the email. */
  lemma CreateUsernameTaken(db: Db, user: UserDetails)
    requires ExistsByUsername(db, user.username)
    ensures Create(db, user) == Outcome(Failure(UsernameExists(user.username)), db)
    ensures Message(Create(db, user).result.error) == "用户名已存在: " + user.username
  {
  }

  /** The email error arises exactly when the username is free and the email
      is stored, and the table is then unchanged. */
  lemma CreateEmailTaken(db: Db, user: UserDetails)
    ensures (Create(db, user).result == Failure(EmailExists(user.email)))
              <==> !ExistsByUsername(db, user.username) && ExistsByEmail(db, user.email)
    ensures Create(db, user).result == Failure(EmailExists(user.email)) ==>
              Create(db, user).after == db && Message(Create(db, user).result.error) == "邮箱已存在: " + user.email
  {
  }

  /** A creation succeeds exactly when username and email are both free; it
      then adds exactly one record, under an id no record had, holding the
      payload's fields, and every other record stays as it was. */
  lemma CreateAddsOneRecord(db: Db, user: UserDetails)
    requires Valid(db)
    ensures Create(db, user).result.Success? <==> !ExistsByUsername(db, user.username) && !ExistsByEmail(db, user.email)
    ensures Create(db, user).result.Success? ==>
              var u := Create(db, user).result.value;
              var after := Create(db, user).after;
              && u.id !in db.users
              && u.username == user.username && u.email == user.email && u.name == user.name
              && after.users.Keys == db.users.Keys + {u.id}
              && |after.users| == |db.users| + 1
              && FindById(after, u.id) == Some(u)
              && (forall id :: id in db.users ==> FindById(after, id) == FindById(db, id))
  {
  }

  /** Uniqueness of usernames and emails survives every creation, successful
      or not. */
  lemma CreatePreservesValid(db: Db, user: UserDetails)
    requires Valid(db)
    ensures Valid(Create(db, user).after)
  {
  }

  // ---------------------------------------------------------------------------
  // updateUser

  /** Another record (not the one with id `id`) holds `username`. */
  predicate UsernameHeldByOther(db: Db, id: int, username: string) {
    exists k :: k in db.users && k != id && db.users[k].username == username
  }

  /** Another record (not the one with id `id`) holds `email`. */
  predicate EmailHeldByOther(db: Db, id: int, email: string) {
    exists k :: k in db.users && k != id && db.users[k].email == email
  }

  /** An update of a missing id fails with the not-found error and writes
      nothing. */
  lemma UpdateNotFound(db: Db, id: int, userDetails: UserDetails)
    requires id !in db.users
    ensures Update(db, id, userDetails) == Outcome(Failure(NotFound(id)), db)
    ensures Message(Update(db, id, userDetails).result.error) == "用户不存在，ID: " + IntToString(id)
  {
  }

  /** On a stored id, the "differs from current and already stored" test is
      the same as "held by a different record": an update is refused for its
      username (email) exactly when another record holds it. */
  lemma UpdateDuplicates(db: Db, id: int, userDetails: UserDetails)
    requires Valid(db) && id in db.users
    ensures (Update(db, id, userDetails).result == Failure(UsernameExists(userDetails.username)))
              <==> UsernameHeldByOther(db, id, userDetails.username)
    ensures (Update(db, id, userDetails).result == Failure(EmailExists(userDetails.email)))
              <==> !UsernameHeldByOther(db, id, userDetails.username) && EmailHeldByOther(db, id, userDetails.email)
    ensures (Update(db, id, userDetails).result.Success?)
              <==> !UsernameHeldByOther(db, id, userDetails.username) && !EmailHeldByOther(db, id, userDetails.email)
  {
  }

  /** Keeping the record's own username (email) never draws the duplicate
      username (email) error, and keeping both always succeeds. */
  lemma UpdateSelfExemption(db: Db, id: int, userDetails: UserDetails)
    requires Valid(db) && id in db.users
    ensures userDetails.username == db.users[id].username ==>
              !(Update(db, id, userDetails).result.Failure? && Update(db, id, userDetails).result.error.UsernameExists?)
    ensures userDetails.email == db.users[id].email ==>
              !(Update(db, id, userDetails).result.Failure? && Update(db, id, userDetails).result.error.EmailExists?)
    ensures userDetails.username == db.users[id].username && userDetails.email == db.users[id].email ==>
              Update(db, id, userDetails).result.Success?
  {
  }

  /** A successful update keeps the id, sets username, email and name from
      the new details, and leaves every other record and the id counter as
      they were. */
  lemma UpdateReplacesFields(db: Db, id: int, userDetails: UserDetails)
    requires Valid(db)
    ensures Update(db, id, userDetails).result.Success? ==>
              var u := Update(db, id, userDetails).result.value;
              var after := Update(db, id, userDetails).after;
              && id in db.users
              && u == User(id, userDetails.username, userDetails.email, userDetails.name)
              && after.users.Keys == db.users.Keys
              && after.users[id] == u
              && (forall k :: k in db.users && k != id ==> after.users[k] == db.users[k])
  {
  }

  /** Uniqueness of usernames and emails survives every update, successful
      or not. */
  lemma UpdatePreservesValid(db: Db, id: int, userDetails: UserDetails)
    requires Valid(db)
    ensures Valid(Update(db, id, userDetails).after)
  {
  }

  // ---------------------------------------------------------------------------
  // deleteUser

  /** Deleting a missing id fails with the not-found error and deletes
      nothing; deleting a stored id removes that record and no other, after
      which it is no longer found. */
  lemma DeleteRemovesRecord(db: Db, id: int)
    ensures id !in db.users ==>
              Delete(db, id) == Outcome(Failure(NotFound(id)), db)
    ensures id in db.users ==>
              && Delete(db, id).result.Success?
              && Delete(db, id).after.users.Keys == db.users.Keys - {id}
              && |Delete(db, id).after.users| == |db.users| - 1
              && FindById(Delete(db, id).after, id) == None
              && (forall k :: k in db.users && k != id ==> FindById(Delete(db, id).after, k) == FindById(db, k))
  {
  }

  /** A second delete of the same id fails. */
  lemma DeleteTwiceFails(db: Db, id: int)
    ensures Delete(Delete(db, id).after, id).result == Failure(NotFound(id))
  {
  }

  lemma DeletePreservesValid(db: Db, id: int)
    requires Valid(db)
    ensures Valid(Delete(db, id).after)
  {
  }

  /** Ids are never reused: a record created after a deletion never gets the
      deleted id. */
  lemma DeletedIdNotReused(db: Db, id: int, user: UserDetails)
    requires Valid(db) && id in db.users
    ensures var out := Create(Delete(db, id).after, user);
            out.result.Success? ==> out.result.value.id != id
  {
  }

  // ---------------------------------------------------------------------------
  // The service object

  class UserService {
    const repository: UserRepository

    constructor (repository: UserRepository)
      ensures this.repository == repository
    {
      this.repository := repository;
    }

    method CreateUser(user: UserDetails) returns (r: Result<User, ServiceError>)
      modifies repository
      ensures Outcome(r, repository.Snapshot()) == Create(old(repository.Snapshot()), user)
      ensures Valid(old(repository.Snapshot())) ==> Valid(repository.Snapshot())
    {
      ghost var before := repository.Snapshot();
      if ExistsByUsername(repository.Snapshot(), user.username) {
        return Failure(UsernameExists(user.username));
      }
      if ExistsByEmail(repository.Snapshot(), user.email) {
        return Failure(EmailExists(user.email));
      }
      var saved := repository.Save(None, user);
      r := Success(saved);
      if Valid(before) {
        CreatePreservesValid(before, user);
      }
    }

    function GetUserById(id: int): (r: Option<User>)
      reads repository
      ensures r.Some? <==> id in repository.users
      ensures r.Some? ==> r.value == repository.users[id]
    {
      FindById(repository.Snapshot(), id)
    }

    function GetUserByUsername(username: string): (r: Option<User>)
      requires Valid(repository.Snapshot())
      reads repository
      ensures r.Some? <==> ExistsByUsername(repository.Snapshot(), username)
      ensures forall id :: id in repository.users && repository.users[id].username == username ==>
                r == Some(repository.users[id])
    {
      FindByUsernameSpec(repository.Snapshot(), username);
      FindByUsername(repository.Snapshot(), username)
    }

    function GetAllUsers(): (r: seq<User>)
      requires Valid(repository.Snapshot())
      reads repository
      ensures forall u :: u in r <==> u.id in repository.users && repository.users[u.id] == u
      ensures |r| == |repository.users|
      ensures forall i, j :: 0 <= i < j < |r| ==> r[i].id < r[j].id
    {
      FindAllContents(repository.Snapshot());
      FindAll(repository.Snapshot())
    }

    method UpdateUser(id: int, userDetails: UserDetails) returns (r: Result<User, ServiceError>)
      modifies repository
      ensures Outcome(r, repository.Snapshot()) == Update(old(repository.Snapshot()), id, userDetails)
      ensures Valid(old(repository.Snapshot())) ==> Valid(repository.Snapshot())
    {
      ghost var before := repository.Snapshot();
      var found := FindById(repository.Snapshot(), id);
      if found.None? {
        return Failure(NotFound(id));
      }
      var user := found.value;
      if user.username != userDetails.username && ExistsByUsername(repository.Snapshot(), userDetails.username) {
        return Failure(UsernameExists(userDetails.username));
      }
      if user.email != userDetails.email && ExistsByEmail(repository.Snapshot(), userDetails.email) {
        return Failure(EmailExists(userDetails.email));
      }
      user := user.(username := userDetails.username, email := userDetails.email, name := userDetails.name);
      var saved := repository.Save(Some(user.id), UserDetails(user.username, user.email, user.name));
      r := Success(saved);
      if Valid(before) {
        UpdatePreservesValid(before, id, userDetails);
      }
    }

    method DeleteUser(id: int) returns (r: Result<(), ServiceError>)
      modifies repository
      ensures Outcome(r, repository.Snapshot()) == Delete(old(repository.Snapshot()), id)
      ensures Valid(old(repository.Snapshot())) ==> Valid(repository.Snapshot())
    {
      if !ExistsById(repository.Snapshot(), id) {
        return Failure(NotFound(id));
      }
      repository.DeleteById(id);
      r := Success(());
    }
  }
}
