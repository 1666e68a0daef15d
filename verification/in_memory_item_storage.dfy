/** The in-memory item store of the pre-split application: a map from id
    to item and an id counter starting at 0, with availability supplied
    as a string and a search that compares whole fields. */
module InMemoryItemStorage {
  import opened Results
  import opened Entities
  import opened Tables
  import opened Seqs
  import opened Text

  type ItemStore = Table<Item>

  const EmptyStore: ItemStore := Table(map[], 0)

  /** The item a client submits. Every field may be missing; availability
      is text, and the request is the id of an attached request object. */
  datatype ItemInput = ItemInput(
    name: Option<string>,
    description: Option<string>,
    available: Option<string>,
    request: Option<int>)

  /** The store's invariant: keys are below the counter and are the ids of
      the items stored under them. */
  ghost predicate Inv(s: ItemStore)
  {
    s.Valid() && forall k :: k in s.rows ==> s.rows[k].id == k
  }

  /** The availability an update asks for: only the exact words "true" and
      "false" mean anything. */
  function FlagUpdate(current: bool, text: Option<string>): (b: bool)
    ensures text == Some("true") ==> b
    ensures text == Some("false") ==> !b
    ensures text != Some("true") && text != Some("false") ==> b == current
  {
    if text == Some("true") then true
    else if text == Some("false") then false
    else current
  }

  /** Creation rejects a missing or empty name and a missing description
      before taking an id; a missing availability is rejected after the id
      is taken. `toFlag` is the mapper's reading of the availability text. */
  function CreateItem(s: ItemStore, owner: User, input: ItemInput, toFlag: string -> bool): (r: (ItemStore, Result<Item>))
    ensures input.name.None? || |input.name.value| == 0 || input.description.None? ==> r == (s, Fail(Condition))
    ensures input.name.Some? && |input.name.value| > 0 && input.description.Some?
            ==> r.0.nextId == s.nextId + 1
    ensures input.name.Some? && |input.name.value| > 0 && input.description.Some? && input.available.None?
            ==> r == (s.(nextId := s.nextId + 1), Fail(Condition))
    ensures r.1.Ok? <==> input.name.Some? && |input.name.value| > 0 && input.description.Some? && input.available.Some?
    ensures r.1.Fail? ==> r.0.rows == s.rows
    ensures r.1.Ok? ==>
              var item := r.1.value;
              && item.id == s.nextId
              && item.owner == owner.id
              && item.name == input.name.value && item.description == input.description.value
              && item.available == toFlag(input.available.value)
              && item.request == (if input.request.None? then BlankRequest else LinkedTo(input.request.value))
              && r.0.rows == s.rows[s.nextId := item]
  {
    if input.name.None? || |input.name.value| == 0 || input.description.None? then (s, Fail(Condition))
    else
      var id := s.nextId;
      var counted := s.(nextId := s.nextId + 1);
      var request := if input.request.None? then BlankRequest else LinkedTo(input.request.value);
      if input.available.None? then (counted, Fail(Condition))
      else
        var item := Item(id, input.name.value, input.description.value, toFlag(input.available.value), owner.id, request);
        (counted.(rows := s.rows[id := item]), Ok(item))
  }

  /** Owner-checked partial update. The owner check reads the stored item
      before its presence is checked, so a missing id is a null
      dereference rather than ItemNotFound. */
  function UpdateItem(s: ItemStore, user: User, id: int, patch: ItemInput): (r: Result<(ItemStore, Item)>)
    ensures id !in s.rows ==> r == Fail(NullDereference)
    ensures id in s.rows && s.rows[id].owner != user.id ==> r == Fail(UserNotFound)
    ensures r.Ok? <==> id in s.rows && s.rows[id].owner == user.id
    ensures r.Ok? ==>
              var (s', item) := r.value;
              var before := s.rows[id];
              && item.id == id
              && item.name == (if patch.name.Some? then patch.name.value else before.name)
              && item.description == (if patch.description.Some? then patch.description.value else before.description)
              && (patch.available == Some("true") ==> item.available)
              && (patch.available == Some("false") ==> !item.available)
              && (patch.available != Some("true") && patch.available != Some("false") ==> item.available == before.available)
              && item.owner == before.owner && item.request == before.request
              && s'.rows == s.rows[id := item]
              && s'.nextId == s.nextId
  {
    if id !in s.rows then Fail(NullDereference)
    else
      var stored := s.rows[id];
      if user.id != stored.owner then Fail(UserNotFound)
      else
        var item := stored.(
          id := id,
          name := if patch.name.Some? then patch.name.value else stored.name,
          description := if patch.description.Some? then patch.description.value else stored.description,
          available := FlagUpdate(stored.available, patch.available));
        Ok((s.(rows := s.rows[id := item]), item))
  }

  function GetItemById(s: ItemStore, id: int): (r: Result<Item>)
    ensures r.Ok? <==> id in s.rows
    ensures r.Ok? ==> r.value == s.rows[id]
    ensures r.Fail? ==> r.error == ItemNotFound
  {
    OrElse(s.Get(id), ItemNotFound)
  }

  /** The items of `userId`. */
  function GetAllItems(s: ItemStore, userId: int): (r: seq<Item>)
    ensures forall i :: i in r <==> i in s.rows.Values && i.owner == userId
    ensures forall i :: multiset(r)[i] == if i.owner == userId then Occurrences(s.rows, i) else 0
  {
    Filter(FindAll(s), (i: Item) => i.owner == userId)
  }

  /** Search: empty or all-whitespace text finds nothing; otherwise the
      available items whose whole name or whole description equals the
      text, ignoring case. */
  function SearchItems(s: ItemStore, text: string): (r: seq<Item>)
    ensures IsBlank(text) ==> r == []
    ensures !IsBlank(text) ==>
              forall i :: i in r <==> && i in s.rows.Values && i.available
                                      && (EqualsIgnoreCase(i.name, text) || EqualsIgnoreCase(i.description, text))
    ensures !IsBlank(text) ==>
              forall i :: multiset(r)[i] == if i.available && (EqualsIgnoreCase(i.name, text) || EqualsIgnoreCase(i.description, text))
                                            then Occurrences(s.rows, i) else 0
  {
    if |text| == 0 || IsBlank(text) then []
    else Filter(FindAll(s), (i: Item) => i.available && (EqualsIgnoreCase(i.name, text) || EqualsIgnoreCase(i.description, text)))
  }

  // ---- Properties across operations ----

  lemma EmptyStoreInv()
    ensures Inv(EmptyStore)
  {
  }

  /** Creation keeps the invariant whatever it decides; an accepted item is
      found again under its id. */
  lemma CreateKeepsInv(s: ItemStore, owner: User, input: ItemInput, toFlag: string -> bool)
    requires Inv(s)
    ensures Inv(CreateItem(s, owner, input, toFlag).0)
    ensures var (s', r) := CreateItem(s, owner, input, toFlag);
            r.Ok? ==> GetItemById(s', r.value.id) == Ok(r.value) && |s'.rows| == |s.rows| + 1
  {
    var (s', r) := CreateItem(s, owner, input, toFlag);
    if r.Ok? {
      assert s.nextId !in s.rows;
    }
  }

  /** An accepted item joins its owner's listing once. */
  lemma AcceptedItemIsListed(s: ItemStore, owner: User, input: ItemInput, toFlag: string -> bool)
    requires Inv(s)
    requires CreateItem(s, owner, input, toFlag).1.Ok?
    ensures var (s', r) := CreateItem(s, owner, input, toFlag);
            multiset(GetAllItems(s', owner.id)) == multiset(GetAllItems(s, owner.id)) + multiset{r.value}
  {
    var (s', r) := CreateItem(s, owner, input, toFlag);
    assert s.nextId !in s.rows;
    assert s'.rows == s.rows[s.nextId := r.value];
    ListedOnceMore(s.rows, s.nextId, r.value, (i: Item) => i.owner == owner.id,
                   GetAllItems(s, owner.id), GetAllItems(s', owner.id));
  }

  lemma UpdateKeepsInv(s: ItemStore, user: User, id: int, patch: ItemInput)
    requires Inv(s)
    requires UpdateItem(s, user, id, patch).Ok?
    ensures Inv(UpdateItem(s, user, id, patch).value.0)
  {
  }

  /** A rejected availability after the name checks still uses up an id:
      the next accepted item skips it. */
  lemma RejectedCreateSkipsId(s: ItemStore, owner: User, input: ItemInput, retry: ItemInput, toFlag: string -> bool)
    requires input.name.Some? && |input.name.value| > 0 && input.description.Some? && input.available.None?
    requires retry.name.Some? && |retry.name.value| > 0 && retry.description.Some? && retry.available.Some?
    ensures var (s1, _) := CreateItem(s, owner, input, toFlag);
            var (_, r) := CreateItem(s1, owner, retry, toFlag);
            r.Ok? && r.value.id == s.nextId + 1
  {
  }

  /** Whole-field matching: every item found has a name or a description
      exactly as long as the text. */
  lemma {:induction false} FoundItemsMatchWholeField(s: ItemStore, text: string)
    ensures forall i :: i in SearchItems(s, text) ==> |i.name| == |text| || |i.description| == |text|
  {
    if !IsBlank(text) {
      forall i | i in SearchItems(s, text)
        ensures |i.name| == |text| || |i.description| == |text|
      {
        assert EqualsIgnoreCase(i.name, text) || EqualsIgnoreCase(i.description, text);
      }
    }
  }

  /** An available item whose name differs from the text only in case is
      found, whoever owns it. */
  lemma NameIgnoringCaseIsFound(s: ItemStore, id: int, text: string)
    requires id in s.rows && s.rows[id].available
    requires !IsBlank(text)
    requires EqualsIgnoreCase(s.rows[id].name, text)
    ensures s.rows[id] in SearchItems(s, text)
  {
    assert s.rows[id] in s.rows.Values;
  }
}
