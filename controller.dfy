/** The HTTP layer: each handler turns what the service returned into a
    status code and the response envelope `{success, message?, data?, count?}`. */
module Controller {
  import opened Wrappers
  import opened Decimal
  import opened Repository
  import opened Service

  const OK := 200
  const CREATED := 201
  const BAD_REQUEST := 400
  const NOT_FOUND := 404

  /** The `data` entry of an envelope: absent, one user, or a list of users. */
  datatype Data = NoData | OneUser(user: User) | UserList(users: seq<User>)

  datatype Envelope = Envelope(success: bool, message: Option<string>, data: Data, count: Option<nat>)

  datatype Response = Response(status: int, body: Envelope)

  /** The rule every handler keeps: `success` is true exactly on 200 and 201,
      false exactly on 400 and 404, and no other status is produced. */
  predicate Consistent(r: Response) {
    && (r.body.success <==> r.status == OK || r.status == CREATED)
    && (!r.body.success <==> r.status == BAD_REQUEST || r.status == NOT_FOUND)
  }

  /** A failure response: status 400, the service's message verbatim. */
  predicate RejectsWith(r: Response, e: ServiceError) {
    r == Response(BAD_REQUEST, Envelope(false, Some(Message(e)), NoData, None))
  }

  /** `POST /api/users`. */
  function CreateUser(outcome: Result<User, ServiceError>): (r: Response)
    ensures Consistent(r)
    ensures r.status == CREATED <==> outcome.Success?
    ensures outcome.Success? ==> r.body == Envelope(true, Some("用户创建成功"), OneUser(outcome.value), None)
    ensures outcome.Failure? ==> RejectsWith(r, outcome.error)
  {
    match outcome
    case Success(created) => Response(CREATED, Envelope(true, Some("用户创建成功"), OneUser(created), None))
    case Failure(e) => Response(BAD_REQUEST, Envelope(false, Some(Message(e)), NoData, None))
  }

  /** `GET /api/users/{id}`. */
  function GetUserById(id: int, found: Option<User>): (r: Response)
    ensures Consistent(r)
    ensures found.Some? ==> r == Response(OK, Envelope(true, None, OneUser(found.value), None))
    ensures found.None? ==> r == Response(NOT_FOUND, Envelope(false, Some("用户不存在，ID: " + IntToString(id)), NoData, None))
  {
    match found
    case Some(user) => Response(OK, Envelope(true, None, OneUser(user), None))
    case None => Response(NOT_FOUND, Envelope(false, Some("用户不存在，ID: " + IntToString(id)), NoData, None))
  }

  /** `GET /api/users/username/{username}`. */
  function GetUserByUsername(username: string, found: Option<User>): (r: Response)
    ensures Consistent(r)
    ensures found.Some? ==> r == Response(OK, Envelope(true, None, OneUser(found.value), None))
    ensures found.None? ==> r == Response(NOT_FOUND, Envelope(false, Some("用户不存在，用户名: " + username), NoData, None))
  {
    match found
    case Some(user) => Response(OK, Envelope(true, None, OneUser(user), None))
    case None => Response(NOT_FOUND, Envelope(false, Some("用户不存在，用户名: " + username), NoData, None))
  }

  /** `GET /api/users`: never fails; `count` is the length of `data`. */
  function GetAllUsers(users: seq<User>): (r: Response)
    ensures Consistent(r) && r.status == OK && r.body.success
    ensures r.body.data == UserList(users) && r.body.count == Some(|users|)
    ensures r.body.message.None?
  {
    Response(OK, Envelope(true, None, UserList(users), Some(|users|)))
  }

  /** `PUT /api/users/{id}`. */
  function UpdateUser(outcome: Result<User, ServiceError>): (r: Response)
    ensures Consistent(r)
    ensures r.status == OK <==> outcome.Success?
    ensures outcome.Success? ==> r.body == Envelope(true, Some("用户更新成功"), OneUser(outcome.value), None)
    ensures outcome.Failure? ==> RejectsWith(r, outcome.error)
  {
    match outcome
    case Success(updated) => Response(OK, Envelope(true, Some("用户更新成功"), OneUser(updated), None))
    case Failure(e) => Response(BAD_REQUEST, Envelope(false, Some(Message(e)), NoData, None))
  }

  /** `DELETE /api/users/{id}`: the success envelope has no `data`. */
  function DeleteUser(outcome: Result<(), ServiceError>): (r: Response)
    ensures Consistent(r)
    ensures r.status == OK <==> outcome.Success?
    ensures outcome.Success? ==> r.body == Envelope(true, Some("用户删除成功"), NoData, None)
    ensures outcome.Failure? ==> RejectsWith(r, outcome.error)
  {
    match outcome
    case Success(_) => Response(OK, Envelope(true, Some("用户删除成功"), NoData, None))
    case Failure(e) => Response(BAD_REQUEST, Envelope(false, Some(Message(e)), NoData, None))
  }

  /** A 400 response determines the service error behind it: two failures
      whose responses agree are the same failure. */
  lemma RejectionNamesError(r: Response, e1: ServiceError, e2: ServiceError)
    requires RejectsWith(r, e1) && RejectsWith(r, e2)
    ensures e1 == e2
  {
    MessageInjective(e1, e2);
  }

  // ---------------------------------------------------------------------------
  // End to end: the handlers over the service's specification

  const TestUser := UserDetails("testuser", "test@example.com", "Test")

  /** On an empty table: creating "testuser" answers 201 with an assigned id;
      creating "testuser" again answers 400 naming "testuser"; id 999 is not
      found by get (404), update (400, naming 999) or delete (400). */
  lemma EmptyTableScenario(other: UserDetails)
    requires other.username == "testuser"
    ensures var first := Create(EmptyDb, TestUser);
            && CreateUser(first.result).status == CREATED
            && first.result.value.id == 1 && first.result.value.username == "testuser"
            && var second := Create(first.after, other);
               && CreateUser(second.result).status == BAD_REQUEST
               && CreateUser(second.result).body.message == Some("用户名已存在: testuser")
               && second.after == first.after
    ensures GetUserById(999, FindById(EmptyDb, 999)).status == NOT_FOUND
    ensures var upd := Update(EmptyDb, 999, TestUser);
            UpdateUser(upd.result) == Response(BAD_REQUEST, Envelope(false, Some("用户不存在，ID: 999"), NoData, None))
    ensures DeleteUser(Delete(EmptyDb, 999).result).status == BAD_REQUEST
  {
    var first := Create(EmptyDb, TestUser);
    assert 1 in first.after.users && first.after.users[1].username == other.username;
    var second := Create(first.after, other);
    assert second.result == Failure(UsernameExists("testuser"));
    assert Message(second.result.error) == "用户名已存在: testuser";
    assert IntToString(999) == "999" by {
      assert DigitChar(9) == '9';
      assert NatToString(99) == "99";
    }
    assert Update(EmptyDb, 999, TestUser).result == Failure(NotFound(999));
    assert Message(NotFound(999)) == "用户不存在，ID: 999";
  }

  /** Deleting the same stored id twice: 200 the first time, 400 the second. */
  lemma DeleteTwiceScenario(db: Db, id: int)
    requires id in db.users
    ensures DeleteUser(Delete(db, id).result).status == OK
    ensures DeleteUser(Delete(Delete(db, id).after, id).result) ==
              Response(BAD_REQUEST, Envelope(false, Some("用户不存在，ID: " + IntToString(id)), NoData, None))
  {
  }

  /** Listing an empty table answers 200 with an empty list and count 0. */
  lemma ListEmptyScenario()
    ensures GetAllUsers(FindAll(EmptyDb)) == Response(OK, Envelope(true, None, UserList([]), Some(0)))
  {
  }
}
