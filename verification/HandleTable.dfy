/** The daemon's handle tables: 64-bit handles, handed out upwards from 1, never twice. */
module HandleTables {
  import opened Basics
  import opened Bytes

  datatype Table<T> = Table(nextId: nat, entries: map<nat, T>)

  function EmptyTable<T>(): Table<T> {
    Table(1, map[])
  }

  ghost predicate ValidTable<T>(t: Table<T>) {
    1 <= t.nextId && forall id :: id in t.entries ==> 1 <= id < t.nextId
  }

  function InsertIn<T>(t: Table<T>, value: T): Table<T> {
    Table(t.nextId + 1, t.entries[t.nextId := value])
  }

  function RemoveFrom<T>(t: Table<T>, id: nat): Table<T> {
    Table(t.nextId, t.entries - {id})
  }

  function GetFrom<T>(t: Table<T>, id: nat): Option<T> {
    if id in t.entries then Some(t.entries[id]) else None
  }

  datatype TableOp<T> = OpInsert(value: T) | OpRemove(id: nat)

  function Apply<T>(t: Table<T>, op: TableOp<T>): Table<T> {
    match op
    case OpInsert(value) => InsertIn(t, value)
    case OpRemove(id) => RemoveFrom(t, id)
  }

  function Run<T>(t: Table<T>, ops: seq<TableOp<T>>): Table<T>
    decreases ops
  {
    if ops == [] then t else Run(Apply(t, ops[0]), ops[1..])
  }

  /** Over any run, a handle already issued is bound to what it was issued for or to
      nothing; once unbound it stays unbound; and 0 is never bound. */
  lemma {:induction false} HandlesNeverRebound<T>(t: Table<T>, ops: seq<TableOp<T>>, id: nat)
    requires ValidTable(t)
    ensures var t' := Run(t, ops);
            && ValidTable(t') && t.nextId <= t'.nextId && GetFrom(t', 0).None?
            && (id < t.nextId && GetFrom(t, id).None? ==> GetFrom(t', id).None?)
            && (id < t.nextId && GetFrom(t', id).Some? ==> GetFrom(t', id) == GetFrom(t, id))
    decreases ops
  {
    if ops != [] {
      HandlesNeverRebound(Apply(t, ops[0]), ops[1..], id);
    }
  }

  class HandleTable<T> {
    var nextId: u64
    var entries: map<nat, T>

    ghost function View(): Table<T>
      reads this
    {
      Table(nextId, entries)
    }

    constructor ()
      ensures View() == EmptyTable<T>() && ValidTable(View()) && nextId == 1 && entries == map[]
    {
      nextId := 1;
      entries := map[];
    }

    method Insert(value: T) returns (id: u64)
      requires ValidTable(View()) && nextId + 1 < TWO_64
      modifies this
      ensures id == old(nextId) && id !in old(entries) && id != 0
      ensures View() == InsertIn(old(View()), value) && ValidTable(View())
      ensures nextId == id + 1 && entries == old(entries)[id := value]
    {
      id := nextId;
      nextId := nextId + 1;
      entries := entries[id := value];
    }

    method Remove(id: u64) returns (r: Option<T>)
      requires ValidTable(View())
      modifies this
      ensures r == GetFrom(old(View()), id)
      ensures View() == RemoveFrom(old(View()), id) && ValidTable(View())
      ensures nextId == old(nextId) && id !in entries && forall i :: i != id ==> (i in entries <==> i in old(entries))
      ensures forall i :: i in entries ==> entries[i] == old(entries)[i]
      ensures if id in old(entries) then r == Some(old(entries)[id]) else r == None
    {
      if id in entries {
        r := Some(entries[id]);
        entries := entries - {id};
      } else {
        r := None;
        assert entries - {id} == entries;
      }
    }

    method Get(id: u64) returns (r: Option<T>)
      ensures r == GetFrom(View(), id)
      ensures if id in entries then r == Some(entries[id]) else r == None
    {
      return if id in entries then Some(entries[id]) else None;
    }
  }
}
