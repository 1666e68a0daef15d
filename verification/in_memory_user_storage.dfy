/** The in-memory user store: a map from id to user and an id counter
    starting at 0. Creation validates the address; every write keeps the
    stored addresses pairwise distinct. */
module InMemoryUserStorage {
  import opened Results
  import opened Entities
  import opened Tables
  import opened Text
  import opened Seqs

  type UserStore = Table<User>

  const EmptyStore: UserStore := Table(map[], 0)

  /** The store's invariant: every key is below the counter and is the id
      of the user stored under it, and addresses are pairwise distinct. */
  ghost predicate Inv(s: UserStore)
  {
    && s.Valid()
    && (forall k :: k in s.rows ==> s.rows[k].id == k)
    && (forall a, b :: a in s.rows && b in s.rows && a != b ==> s.rows[a].email != s.rows[b].email)
  }

  /** A syntactically acceptable address: present, not blank, with an '@'. */
  predicate WellFormedEmail(email: Option<string>)
  {
    email.Some? && !IsBlank(email.value) && '@' in email.value
  }

  function GetAllUsers(s: UserStore): (r: seq<User>)
    ensures |r| == |s.rows|
    ensures forall u :: u in r <==> u in s.rows.Values
    ensures forall u :: multiset(r)[u] == Occurrences(s.rows, u)
  {
    FindAll(s)
  }

  function GetUserById(s: UserStore, id: int): (r: Result<User>)
    ensures r.Ok? <==> id in s.rows
    ensures r.Ok? ==> r.value == s.rows[id]
    ensures r.Fail? ==> r.error == UserNotFound
  {
    OrElse(s.Get(id), UserNotFound)
  }

  /** Creation takes the next id before validating, so the counter advances
      even when the user is rejected. A taken address is reported before a
      malformed one. */
  function CreateUser(s: UserStore, name: string, email: Option<string>): (r: (UserStore, Result<User>))
    ensures r.0.nextId == s.nextId + 1
    ensures email.Some? && EmailTaken(s.rows, email.value) ==> r.1 == Fail(DuplicateData)
    ensures !(email.Some? && EmailTaken(s.rows, email.value)) && !WellFormedEmail(email) ==> r.1 == Fail(Condition)
    ensures r.1.Ok? <==> WellFormedEmail(email) && !EmailTaken(s.rows, email.value)
    ensures r.1.Fail? ==> r.0.rows == s.rows
    ensures r.1.Ok? ==>
              && r.1.value == User(s.nextId, name, email.value)
              && r.0.rows == s.rows[s.nextId := r.1.value]
  {
    var id := s.nextId;
    var counted := s.(nextId := s.nextId + 1);
    if email.Some? && EmailTaken(s.rows, email.value) then (counted, Fail(DuplicateData))
    else if email.None? || IsBlank(email.value) then (counted, Fail(Condition))
    else if '@' !in email.value then (counted, Fail(Condition))
    else
      var u := User(id, name, email.value);
      (counted.(rows := s.rows[id := u]), Ok(u))
  }

  /** Partial update. A present address must not be held by any user, the
      updated one included. The stored record's id is reset to its key
      before anything is checked. */
  function UpdateUser(s: UserStore, id: int, patch: UserPatch): (r: Result<(UserStore, User)>)
    ensures id !in s.rows ==> r == Fail(UserNotFound)
    ensures id in s.rows && patch.email.Some? && EmailTaken(s.rows, patch.email.value) ==> r == Fail(DuplicateData)
    ensures r.Ok? <==> id in s.rows && (patch.email.Some? ==> !EmailTaken(s.rows, patch.email.value))
    ensures r.Ok? ==>
              var (s', u) := r.value;
              var before := s.rows[id];
              && u.id == id
              && u.name == (if patch.name.Some? then patch.name.value else before.name)
              && u.email == (if patch.email.Some? then patch.email.value else before.email)
              && s'.rows == s.rows[id := u]
              && s'.nextId == s.nextId
  {
    var stored :- OrElse(s.Get(id), UserNotFound);
    var stored := stored.(id := id);
    var withEmail :- match patch.email
      case None => Ok(stored)
      case Some(e) => if EmailTaken(s.rows, e) then Fail(DuplicateData) else Ok(stored.(email := e));
    var u := if patch.name.Some? then withEmail.(name := patch.name.value) else withEmail;
    Ok((s.Put(id, u), u))
  }

  function DeleteUser(s: UserStore, id: int): (r: Result<UserStore>)
    ensures r.Ok? <==> id in s.rows
    ensures r.Fail? ==> r.error == UserNotFound
    ensures r.Ok? ==> r.value.rows.Keys == s.rows.Keys - {id}
    ensures r.Ok? ==> forall k :: k in r.value.rows ==> r.value.rows[k] == s.rows[k]
    ensures r.Ok? ==> r.value.nextId == s.nextId
  {
    var _ :- OrElse(s.Get(id), UserNotFound);
    Ok(s.Remove(id))
  }

  // ---- The invariant is kept ----

  lemma EmptyStoreInv()
    ensures Inv(EmptyStore)
  {
  }

  /** A create, accepted or not, keeps the invariant; an accepted one adds
      exactly one user. */
  lemma CreateKeepsInv(s: UserStore, name: string, email: Option<string>)
    requires Inv(s)
    ensures Inv(CreateUser(s, name, email).0)
    ensures CreateUser(s, name, email).1.Ok? ==> |CreateUser(s, name, email).0.rows| == |s.rows| + 1
  {
    var (s', r) := CreateUser(s, name, email);
    if r.Ok? {
      assert s.nextId !in s.rows;
      forall a, b | a in s'.rows && b in s'.rows && a != b
        ensures s'.rows[a].email != s'.rows[b].email
      {
        if a == s.nextId {
          assert !EmailTaken(s.rows, email.value);
          assert b in s.rows;
        } else if b == s.nextId {
          assert !EmailTaken(s.rows, email.value);
          assert a in s.rows;
        }
      }
    }
  }

  /** An accepted update keeps the invariant. */
  lemma UpdateKeepsInv(s: UserStore, id: int, patch: UserPatch)
    requires Inv(s)
    requires UpdateUser(s, id, patch).Ok?
    ensures Inv(UpdateUser(s, id, patch).value.0)
  {
    var (s', u) := UpdateUser(s, id, patch).value;
    forall a, b | a in s'.rows && b in s'.rows && a != b
      ensures s'.rows[a].email != s'.rows[b].email
    {
      if patch.email.Some? {
        if a == id {
          assert !EmailTaken(s.rows, u.email);
          assert b in s.rows;
        } else if b == id {
          assert !EmailTaken(s.rows, u.email);
          assert a in s.rows;
        }
      }
    }
  }

  lemma DeleteKeepsInv(s: UserStore, id: int)
    requires Inv(s)
    requires DeleteUser(s, id).Ok?
    ensures Inv(DeleteUser(s, id).value)
  {
  }

  /** An accepted user is found under its id and joins the listing once. */
  lemma AcceptedUserIsListed(s: UserStore, name: string, email: Option<string>)
    requires Inv(s)
    requires CreateUser(s, name, email).1.Ok?
    ensures var (s', r) := CreateUser(s, name, email);
            && GetUserById(s', r.value.id) == Ok(r.value)
            && multiset(GetAllUsers(s')) == multiset(GetAllUsers(s)) + multiset{r.value}
  {
    var (s', r) := CreateUser(s, name, email);
    var u := r.value;
    assert s.nextId !in s.rows;
    ListedOnceMore(s.rows, s.nextId, u, _ => true, GetAllUsers(s), GetAllUsers(s'));
  }

  /** Resubmitting one's own address is rejected: it is held by the user
      being updated. */
  lemma OwnEmailIsRejected(s: UserStore, id: int, name: Option<string>)
    requires id in s.rows
    ensures UpdateUser(s, id, UserPatch(name, Some(s.rows[id].email))) == Fail(DuplicateData)
  {
  }

  /** An update that only renames changes nothing but that user's name. */
  lemma RenameChangesOnlyName(s: UserStore, id: int, name: string)
    requires Inv(s)
    requires id in s.rows
    ensures UpdateUser(s, id, UserPatch(Some(name), None)).Ok?
    ensures var (s', u) := UpdateUser(s, id, UserPatch(Some(name), None)).value;
            && u == s.rows[id].(name := name)
            && s'.rows.Keys == s.rows.Keys
            && (forall k :: k in s.rows && k != id ==> s'.rows[k] == s.rows[k])
  {
  }
}
