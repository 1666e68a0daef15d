/** The user directory of the server: lookup, creation without any email
    check, partial update with its email-collision rules, and deletion. */
module UserService {
  import opened Results
  import opened Entities
  import opened Tables
  import opened Database
  import opened Seqs

  /** Every table but the user table is untouched. */
  predicate OnlyUsersChanged(db: Db, db': Db)
  {
    db'.items == db.items && db'.bookings == db.bookings && db'.requests == db.requests && db'.comments == db.comments
  }

  /** Stored addresses are pairwise distinct. */
  ghost predicate DistinctEmails(db: Db)
  {
    forall a, b :: a in db.users.rows && b in db.users.rows && a != b ==> db.users.rows[a].email != db.users.rows[b].email
  }

  function GetAllUsers(db: Db): (r: seq<User>)
    ensures |r| == |db.users.rows|
    ensures forall u :: u in r <==> u in db.users.rows.Values
    ensures forall u :: multiset(r)[u] == Occurrences(db.users.rows, u)
  {
    FindAll(db.users)
  }

  function GetUserById(db: Db, id: int): (r: Result<User>)
    ensures r.Ok? <==> id in db.users.rows
    ensures r.Ok? ==> r.value == db.users.rows[id]
    ensures r.Fail? ==> r.error == UserNotFound
  {
    OrElse(db.users.Get(id), UserNotFound)
  }

  /** Stores a new user under the next identity; nothing is checked. */
  function CreateUser(db: Db, name: string, email: string): (r: (Db, User))
    ensures var (db', u) := r;
            && u.id == db.users.nextId && u.name == name && u.email == email
            && db'.users.rows.Keys == db.users.rows.Keys + {u.id}
            && db'.users.rows[u.id] == u
            && (forall k :: k in db.users.rows && k != u.id ==> db'.users.rows[k] == db.users.rows[k])
            && OnlyUsersChanged(db, db')
  {
    var u := User(db.users.nextId, name, email);
    (db.(users := db.users.Insert(u)), u)
  }

  /** Partial update. A present name is applied; a present address must be
      a new one that no user holds, and repeating one's own address is
      rejected as a duplicate too. */
  function UpdateUser(db: Db, id: int, patch: UserPatch): (r: Result<(Db, User)>)
    ensures id !in db.users.rows ==> r == Fail(UserNotFound)
    ensures id in db.users.rows && patch.email.Some? && patch.email.value == db.users.rows[id].email
            ==> r == Fail(DuplicateData)
    ensures id in db.users.rows && patch.email.Some? && EmailTaken(db.users.rows, patch.email.value) ==> r == Fail(DuplicateData)
    ensures r.Ok? <==> id in db.users.rows && (patch.email.Some? ==> !EmailTaken(db.users.rows, patch.email.value))
    ensures r.Ok? ==>
              var (db', u) := r.value;
              var before := db.users.rows[id];
              && u.id == before.id
              && u.name == (if patch.name.Some? then patch.name.value else before.name)
              && u.email == (if patch.email.Some? then patch.email.value else before.email)
              && db'.users.rows == db.users.rows[id := u]
              && db'.users.nextId == db.users.nextId
              && OnlyUsersChanged(db, db')
  {
    var user :- OrElse(db.users.Get(id), UserNotFound);
    var named := if patch.name.Some? then user.(name := patch.name.value) else user;
    var updated :- match patch.email
      case None => Ok(named)
      case Some(e) =>
        if user.email != e then
          if EmailTaken(db.users.rows, e) then Fail(DuplicateData) else Ok(named.(email := e))
        else Fail(DuplicateData);
    Ok((db.(users := db.users.Put(id, updated)), updated))
  }

  /** Removes the user if present; a missing id is left alone. */
  function DeleteUser(db: Db, id: int): (db': Db)
    ensures db'.users.rows.Keys == db.users.rows.Keys - {id}
    ensures forall k :: k in db'.users.rows ==> db'.users.rows[k] == db.users.rows[k]
    ensures id !in db.users.rows ==> db' == db
    ensures OnlyUsersChanged(db, db')
  {
    if id in db.users.rows then db.(users := db.users.Remove(id)) else db
  }

  // ---- Properties across operations ----

  /** A user's own address counts as taken, so the two rejection branches
      of an update are one condition: the address is held by someone. */
  lemma OwnEmailIsTaken(db: Db, id: int)
    requires id in db.users.rows
    ensures EmailTaken(db.users.rows, db.users.rows[id].email)
  {
  }

  /** An update keeps stored addresses pairwise distinct. */
  lemma UpdateKeepsEmailsDistinct(db: Db, id: int, patch: UserPatch)
    requires DistinctEmails(db)
    requires UpdateUser(db, id, patch).Ok?
    ensures DistinctEmails(UpdateUser(db, id, patch).value.0)
  {
    var (db', u) := UpdateUser(db, id, patch).value;
    forall a, b | a in db'.users.rows && b in db'.users.rows && a != b
      ensures db'.users.rows[a].email != db'.users.rows[b].email
    {
      if patch.email.Some? {
        if a == id {
          assert !EmailTaken(db.users.rows, u.email);
        } else if b == id {
          assert !EmailTaken(db.users.rows, u.email);
        }
      }
    }
  }

  /** The service makes no uniqueness check on creation: a second user with
      an address already on file is stored next to the first. */
  lemma CreateAcceptsTakenEmail(db: Db, name: string, email: string)
    requires db.users.Valid()
    requires EmailTaken(db.users.rows, email)
    ensures var (db', u) := CreateUser(db, name, email);
            exists k :: k in db'.users.rows && k != u.id && db'.users.rows[k].email == u.email
  {
    var (db', u) := CreateUser(db, name, email);
    var k :| k in db.users.rows && db.users.rows[k].email == email;
    assert db'.users.rows[k].email == u.email;
  }

  /** A created user joins the directory listing: the listing gains that
      user once and nothing else. */
  lemma CreatedUserIsListed(db: Db, name: string, email: string)
    requires db.users.Valid()
    ensures var (db', u) := CreateUser(db, name, email);
            multiset(GetAllUsers(db')) == multiset(GetAllUsers(db)) + multiset{u}
  {
    var (db', u) := CreateUser(db, name, email);
    assert db'.users.rows == db.users.rows[u.id := u];
    ListedOnceMore(db.users.rows, u.id, u, _ => true, GetAllUsers(db), GetAllUsers(db'));
  }

  /** After a deletion the user is not found. */
  lemma DeletedUserIsNotFound(db: Db, id: int)
    ensures GetUserById(DeleteUser(db, id), id) == Fail(UserNotFound)
  {
  }
}
