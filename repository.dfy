/** The persistence port the service depends on (`existsByUsername`,
    `existsByEmail`, `existsById`, `findById`, `findByUsername`, `findAll`,
    `save`, `deleteById`), realised as an in-memory table keyed by id with an
    id counter. The queries are functions of a `Db` value; the store whose
    state the service changes is the class `UserRepository`. */
module Repository {
  import opened Wrappers

  /** A stored user record. */
  datatype User = User(id: int, username: string, email: string, name: string)

  /** The editable fields of a user: a creation payload (which carries no id)
      or the new details of an update. */
  datatype UserDetails = UserDetails(username: string, email: string, name: string)

  /** The table: records keyed by id, and the next id to hand out. */
  datatype Db = Db(users: map<int, User>, nextId: nat)

  const EmptyDb := Db(map[], 1)

  /** Every record sits under its own id, every id was handed out before
      (ids start at 1), and no two records share a username or an email. */
  ghost predicate Valid(db: Db) {
    && 1 <= db.nextId
    && (forall id :: id in db.users ==> db.users[id].id == id && 1 <= id < db.nextId)
    && (forall a, b :: a in db.users && b in db.users && db.users[a].username == db.users[b].username ==> a == b)
    && (forall a, b :: a in db.users && b in db.users && db.users[a].email == db.users[b].email ==> a == b)
  }

  lemma EmptyDbValid()
    ensures Valid(EmptyDb) && |EmptyDb.users| == 0
  {
  }

  predicate ExistsByUsername(db: Db, username: string) {
    exists id :: id in db.users && db.users[id].username == username
  }

  predicate ExistsByEmail(db: Db, email: string) {
    exists id :: id in db.users && db.users[id].email == email
  }

  predicate ExistsById(db: Db, id: int) {
    id in db.users
  }

  function FindById(db: Db, id: int): Option<User> {
    if id in db.users then Some(db.users[id]) else None
  }

  /** The records whose ids lie in [0, n), in ascending id order. */
  function Listing(users: map<int, User>, n: int): seq<User>
    decreases n
  {
    if n <= 0 then []
    else Listing(users, n - 1) + (if n - 1 in users then [users[n - 1]] else [])
  }

  /** `findAll`: every stored record, in ascending id order. */
  function FindAll(db: Db): seq<User> {
    Listing(db.users, db.nextId)
  }

  /** The first record of `s` holding `username`, if any. */
  function FirstWithUsername(s: seq<User>, username: string): (r: Option<User>)
    ensures r.Some? ==> r.value in s && r.value.username == username
    ensures r.None? <==> forall i :: 0 <= i < |s| ==> s[i].username != username
  {
    if s == [] then None
    else if s[0].username == username then Some(s[0])
    else FirstWithUsername(s[1..], username)
  }

  /** `findByUsername`: the record holding `username`, looked up in `findAll`
      order (under `Valid` there is at most one). */
  function FindByUsername(db: Db, username: string): Option<User> {
    FirstWithUsername(FindAll(db), username)
  }

  /** `save`: an entity without an id is inserted under a fresh id taken from
      the counter; an entity with an id replaces the record under that id. */
  function Saved(db: Db, id: Option<int>, details: UserDetails): (User, Db) {
    match id
    case None =>
      var u := User(db.nextId, details.username, details.email, details.name);
      (u, Db(db.users[u.id := u], db.nextId + 1))
    case Some(k) =>
      var u := User(k, details.username, details.email, details.name);
      (u, db.(users := db.users[k := u]))
  }

  /** `deleteById`. */
  function Deleted(db: Db, id: int): Db {
    db.(users := db.users - {id})
  }

  // ---------------------------------------------------------------------------
  // What the queries return

  /** Everything listed is a stored record, and every stored record with an id
      in [0, n) is listed. */
  lemma {:induction false} ListingMembers(users: map<int, User>, n: int)
    ensures forall u :: u in Listing(users, n) ==> exists id :: 0 <= id < n && id in users && users[id] == u
    ensures forall id :: id in users && 0 <= id < n ==> users[id] in Listing(users, n)
    decreases n
  {
    if n > 0 {
      ListingMembers(users, n - 1);
    }
  }

  /** With records under their own ids, a listing is strictly ascending by id
      and holds only ids below `n`. */
  lemma {:induction false} ListingAscending(users: map<int, User>, n: int)
    requires forall id :: id in users ==> users[id].id == id
    ensures forall i :: 0 <= i < |Listing(users, n)| ==> Listing(users, n)[i].id < n
    ensures forall i, j :: 0 <= i < j < |Listing(users, n)| ==> Listing(users, n)[i].id < Listing(users, n)[j].id
    decreases n
  {
    if n > 0 {
      ListingAscending(users, n - 1);
    }
  }

  /** A listing holds one entry per stored id in [0, n). */
  lemma {:induction false} ListingLength(users: map<int, User>, n: int)
    ensures |Listing(users, n)| == |set id | id in users && 0 <= id < n|
    decreases n
  {
    if n <= 0 {
      assert (set id | id in users && 0 <= id < n) == {};
    } else {
      ListingLength(users, n - 1);
      var below := set id | id in users && 0 <= id < n - 1;
      if n - 1 in users {
        assert (set id | id in users && 0 <= id < n) == below + {n - 1};
      } else {
        assert (set id | id in users && 0 <= id < n) == below;
      }
    }
  }

  /** `findAll` returns exactly the stored records, once each, in ascending id
      order. */
  lemma FindAllContents(db: Db)
    requires Valid(db)
    ensures forall u :: u in FindAll(db) <==> u.id in db.users && db.users[u.id] == u
    ensures |FindAll(db)| == |db.users|
    ensures forall i, j :: 0 <= i < j < |FindAll(db)| ==> FindAll(db)[i].id < FindAll(db)[j].id
  {
    ListingMembers(db.users, db.nextId);
    ListingAscending(db.users, db.nextId);
    ListingLength(db.users, db.nextId);
    assert (set id | id in db.users && 0 <= id < db.nextId) == db.users.Keys;
  }

  /** `findAll` on the empty table is the empty list. */
  lemma FindAllEmpty()
    ensures FindAll(EmptyDb) == []
  {
  }

  /** `findByUsername` finds the record holding the name exactly when one
      exists, and then it is that record. */
  lemma FindByUsernameSpec(db: Db, username: string)
    requires Valid(db)
    ensures FindByUsername(db, username).Some? <==> ExistsByUsername(db, username)
    ensures forall id :: id in db.users && db.users[id].username == username ==>
              FindByUsername(db, username) == Some(db.users[id])
  {
    var r := FindByUsername(db, username);
    FindAllContents(db);
    if r.Some? {
      assert db.users[r.value.id].username == username;
    }
    forall id | id in db.users && db.users[id].username == username
      ensures r == Some(db.users[id])
    {
      assert db.users[id] in FindAll(db);
      assert db.users[r.value.id].username == db.users[id].username;
    }
  }

  // ---------------------------------------------------------------------------
  // The store

  /** The in-memory store behind the port. */
  class UserRepository {
    var users: map<int, User>
    var nextId: nat

    function Snapshot(): Db
      reads this
    {
      Db(users, nextId)
    }

    constructor ()
      ensures Snapshot() == EmptyDb && Valid(Snapshot())
    {
      users, nextId := map[], 1;
    }

    method Save(id: Option<int>, details: UserDetails) returns (saved: User)
      modifies this
      ensures (saved, Snapshot()) == Saved(old(Snapshot()), id, details)
    {
      match id
      case None =>
        saved := User(nextId, details.username, details.email, details.name);
        users, nextId := users[nextId := saved], nextId + 1;
      case Some(k) =>
        saved := User(k, details.username, details.email, details.name);
        users := users[k := saved];
    }

    method DeleteById(id: int)
      modifies this
      ensures Snapshot() == Deleted(old(Snapshot()), id)
    {
      users := users - {id};
    }
  }
}
