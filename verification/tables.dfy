/** A keyed table with an identity counter: the shape shared by the
    relational repositories of the server (ids from 1) and the in-memory
    storages (ids from 0). */
module Tables {
  import opened Results
  import Seqs

  datatype Table<T> = Table(rows: map<int, T>, nextId: int) {

    /** Every key was handed out by the counter. */
    predicate Valid()
    {
      forall k :: k in rows ==> k < nextId
    }

    /** `findById`: the row stored under `id`, if any. */
    function Get(id: int): (r: Option<T>)
      ensures r.Some? <==> id in rows
      ensures r.Some? ==> r.value == rows[id]
    {
      if id in rows then Some(rows[id]) else None
    }

    /** Stores `v` under the next identity and advances the counter. */
    function Insert(v: T): (t: Table<T>)
      ensures t.rows.Keys == rows.Keys + {nextId}
      ensures t.rows[nextId] == v
      ensures forall k :: k in rows && k != nextId ==> t.rows[k] == rows[k]
      ensures t.nextId == nextId + 1
      ensures Valid() ==> t.Valid() && |t.rows| == |rows| + 1
    {
      Table(rows[nextId := v], nextId + 1)
    }

    /** Overwrites the row under an existing key (`save` of a loaded entity). */
    function Put(id: int, v: T): (t: Table<T>)
      requires id in rows
      ensures t.rows.Keys == rows.Keys
      ensures t.rows[id] == v
      ensures forall k :: k in rows && k != id ==> t.rows[k] == rows[k]
      ensures t.nextId == nextId
      ensures Valid() ==> t.Valid()
    {
      Table(rows[id := v], nextId)
    }

    /** Drops the row under `id`, if any. */
    function Remove(id: int): (t: Table<T>)
      ensures t.rows.Keys == rows.Keys - {id}
      ensures forall k :: k in t.rows ==> t.rows[k] == rows[k]
      ensures t.nextId == nextId
      ensures Valid() ==> t.Valid()
    {
      Table(rows - {id}, nextId)
    }
  }

  /** All rows of a table (`findAll`): one entry per stored row. */
  function FindAll<T(==,!new)>(t: Table<T>): (r: seq<T>)
    ensures |r| == |t.rows|
    ensures forall x :: x in r <==> x in t.rows.Values
    ensures forall x :: multiset(r)[x] == Seqs.Occurrences(t.rows, x)
  {
    Seqs.Rows(t.rows)
  }
}
