/**
  The users table as the service sees it through its repository: rows in the
  order an unfiltered `find()` returns them, looked up, updated and deleted
  by id. `Table` is an independent view of the same rows as a map from id to
  columns; the lemmas at the end relate every row operation to the matching
  map operation.
 */
module Repository {
  import opened Entity

  /** The rows of the users table, in the order `find()` returns them. */
  type Store = seq<User>

  /** The ids present in the table. */
  function Ids(st: Store): set<int>
  {
    set u | u in st :: u.id
  }

  /** No two rows share an id (the primary-key constraint). */
  predicate UniqueIds(st: Store)
  {
    forall i, j :: 0 <= i < j < |st| ==> st[i].id != st[j].id
  }

  /** The ids of a non-empty table are the first row's id and the ids of the rest. */
  lemma IdsOfCons(st: Store)
    requires |st| > 0
    ensures Ids(st) == {st[0].id} + Ids(st[1..])
  {
    assert st == [st[0]] + st[1..];
  }

  /** The row with the given id, if there is one (`findOneBy({ id })`). */
  function FindOneBy(st: Store, id: int): (r: Option<User>)
    ensures r.Some? <==> id in Ids(st)
    ensures r.Some? ==> r.value in st && r.value.id == id
  {
    if |st| == 0 then None
    else
      IdsOfCons(st);
      if st[0].id == id then Some(st[0])
      else FindOneBy(st[1..], id)
  }

  /** One row after `update(id, p)` has passed over it. */
  function Touch(u: User, id: int, p: Patch): User
  {
    if u.id == id then User(u.id, Apply(u.fields, p)) else u
  }

  /** The table after `update(id, p)`: every row with that id gets the body's columns. */
  function UpdateWhere(st: Store, id: int, p: Patch): (r: Store)
    ensures |r| == |st|
    ensures forall k :: 0 <= k < |st| ==> r[k].id == st[k].id
    ensures forall k :: 0 <= k < |st| && st[k].id != id ==> r[k] == st[k]
    ensures forall k :: 0 <= k < |st| && st[k].id == id ==> r[k].fields == Apply(st[k].fields, p)
  {
    if |st| == 0 then []
    else [Touch(st[0], id, p)] + UpdateWhere(st[1..], id, p)
  }

  /** `update(id, p)` neither adds nor drops an id, and each row keeps its id. */
  lemma UpdateWhereIds(st: Store, id: int, p: Patch)
    ensures Ids(UpdateWhere(st, id, p)) == Ids(st)
    ensures id !in Ids(st) ==> UpdateWhere(st, id, p) == st
    ensures forall u :: u in UpdateWhere(st, id, p) ==> u.id in Ids(st)
  {
    var written := UpdateWhere(st, id, p);
    forall u | u in written
      ensures u.id in Ids(st)
    {
      var k :| 0 <= k < |written| && written[k] == u;
      assert st[k] in st;
    }
    forall u | u in st
      ensures u.id in Ids(written)
    {
      var k :| 0 <= k < |st| && st[k] == u;
      assert written[k] in written;
    }
  }

  /** Re-reading an id after `update(id, p)` gives the row it had before, with the body's columns written over it. */
  lemma FindOneByAfterUpdate(st: Store, id: int, p: Patch)
    requires id in Ids(st)
    ensures FindOneBy(UpdateWhere(st, id, p), id) == Some(User(id, Apply(FindOneBy(st, id).value.fields, p)))
  {
    UpdateWhereMatchesTable(st, id, p);
    FindOneByMatchesTable(st, id);
    FindOneByMatchesTable(UpdateWhere(st, id, p), id);
  }

  /** The table after writing `to` into the id column of every row whose id is `from`; no other column changes. */
  function RenameWhere(st: Store, from: int, to: int): (r: Store)
    ensures |r| == |st|
    ensures forall k :: 0 <= k < |st| ==> r[k].fields == st[k].fields
    ensures forall k :: 0 <= k < |st| && st[k].id != from ==> r[k] == st[k]
    ensures forall k :: 0 <= k < |st| && st[k].id == from ==> r[k].id == to
  {
    if |st| == 0 then []
    else
      var head := if st[0].id == from then User(to, st[0].fields) else st[0];
      [head] + RenameWhere(st[1..], from, to)
  }

  /** Writing the same id back, or renaming an id no row has, leaves the table as it was. */
  lemma RenameWhereNoop(st: Store, from: int, to: int)
    requires from == to || from !in Ids(st)
    ensures RenameWhere(st, from, to) == st
  {
    var r := RenameWhere(st, from, to);
    forall k | 0 <= k < |st|
      ensures r[k] == st[k]
    {
      assert st[k] in st;
    }
  }

  /** Renaming a present id to a fresh one moves it: the old id is gone, the new one is there, every other id stays. */
  lemma RenameWhereMoves(st: Store, from: int, to: int)
    requires from in Ids(st) && to !in Ids(st)
    ensures Ids(RenameWhere(st, from, to)) == Ids(st) - {from} + {to}
  {
    var r := RenameWhere(st, from, to);
    forall u | u in r
      ensures u.id in Ids(st) - {from} + {to}
    {
      var k :| 0 <= k < |r| && r[k] == u;
      assert st[k] in st;
    }
    forall x | x in Ids(st) - {from} + {to}
      ensures x in Ids(r)
    {
      var v :| v in st && v.id == (if x == to then from else x);
      var k :| 0 <= k < |st| && st[k] == v;
      assert r[k] in r;
    }
  }

  /** Renaming onto an id no row has keeps the primary key. */
  lemma RenameWhereUnique(st: Store, from: int, to: int)
    requires UniqueIds(st) && to !in Ids(st)
    ensures UniqueIds(RenameWhere(st, from, to))
  {
    var r := RenameWhere(st, from, to);
    forall i, j | 0 <= i < j < |r|
      ensures r[i].id != r[j].id
    {
      assert st[i] in st && st[j] in st;
    }
  }

  /** In the map view, renaming a present id to a fresh one moves its entry to the new key. */
  lemma {:induction false} RenameWhereMatchesTable(st: Store, from: int, to: int)
    requires from in Ids(st) && to !in Ids(st)
    ensures Table(RenameWhere(st, from, to)) == (Table(st) - {from})[to := Table(st)[from]]
    decreases |st|, 2
  {
    IdsOfCons(st);
    if st[0].id == from {
      RenameHeadMatchesTable(st, from, to);
    } else {
      RenameTailMatchesTable(st, from, to);
    }
  }

  /** The step of `RenameWhereMatchesTable` where the first row is the one renamed. */
  lemma RenameHeadMatchesTable(st: Store, from: int, to: int)
    requires |st| > 0 && st[0].id == from && to !in Ids(st)
    ensures Table(RenameWhere(st, from, to)) == (Table(st) - {from})[to := Table(st)[from]]
    decreases |st|, 1
  {
    IdsOfCons(st);
    if from in Ids(st[1..]) {
      RenameHeadAgain(st, from, to);
    } else {
      RenameOnlyHead(st, from, to);
    }
  }

  /** Renaming when the first row and some later row have the id: the first row's columns win. */
  lemma RenameHeadAgain(st: Store, from: int, to: int)
    requires |st| > 0 && st[0].id == from && to !in Ids(st) && from in Ids(st[1..])
    ensures Table(RenameWhere(st, from, to)) == (Table(st) - {from})[to := Table(st)[from]]
    decreases |st|, 0
  {
    IdsOfCons(st);
    RenameWhereMatchesTable(st[1..], from, to);
    var r := RenameWhere(st, from, to);
    var t := Table(st[1..]);
    var f := st[0].fields;
    assert Table(r) == ((t - {from})[to := t[from]])[to := f] by {
      assert r[1..] == RenameWhere(st[1..], from, to);
    }
    assert Table(st) == t[from := f];
    MoveOverMoved(Table(r), Table(st), t, from, to, f);
  }

  /** Renaming when only the first row has the id: the rest of the table is untouched. */
  lemma RenameOnlyHead(st: Store, from: int, to: int)
    requires |st| > 0 && st[0].id == from && from !in Ids(st[1..]) && to != from
    ensures Table(RenameWhere(st, from, to)) == (Table(st) - {from})[to := Table(st)[from]]
  {
    var r := RenameWhere(st, from, to);
    RenameWhereNoop(st[1..], from, to);
    assert r == [User(to, st[0].fields)] + st[1..];
    assert r[1..] == st[1..];
    MoveFresh(Table(st[1..]), from, to, st[0].fields);
  }

  /** The step of `RenameWhereMatchesTable` where the first row keeps its id. */
  lemma RenameTailMatchesTable(st: Store, from: int, to: int)
    requires |st| > 0 && st[0].id != from && to !in Ids(st) && from in Ids(st[1..])
    ensures Table(RenameWhere(st, from, to)) == (Table(st) - {from})[to := Table(st)[from]]
    decreases |st|, 0
  {
    var r := RenameWhere(st, from, to);
    IdsOfCons(st);
    RenameWhereMatchesTable(st[1..], from, to);
    var t := Table(st[1..]);
    assert r[1..] == RenameWhere(st[1..], from, to);
    assert Table(r) == ((t - {from})[to := t[from]])[st[0].id := st[0].fields];
    MoveCommutes(t, from, to, st[0].id, st[0].fields);
  }

  /** Moving an entry whose key was just overwritten moves the new value. */
  lemma MoveOverMoved(renamed: map<int, Fields>, before: map<int, Fields>, t: map<int, Fields>, from: int, to: int, f: Fields)
    requires from != to && from in t
    requires renamed == ((t - {from})[to := t[from]])[to := f]
    requires before == t[from := f]
    ensures renamed == (before - {from})[to := before[from]]
  {
  }

  /** Moving an entry that was only just written under a key the map lacked. */
  lemma MoveFresh(t: map<int, Fields>, from: int, to: int, f: Fields)
    requires from !in t && from != to
    ensures t[to := f] == (t[from := f] - {from})[to := t[from := f][from]]
  {
  }

  /** Moving one entry and writing a third key commute. */
  lemma MoveCommutes(t: map<int, Fields>, from: int, to: int, k: int, f: Fields)
    requires from in t && k != from && k != to && from != to
    ensures ((t - {from})[to := t[from]])[k := f] == (t[k := f] - {from})[to := t[k := f][from]]
  {
  }

  /**
    `update(id, body)` for a body that sets the id column to `target` as well
    as some columns. The primary key refuses to move a row onto an id another
    row holds, and then nothing is written (`None`). Otherwise keeping the id
    is the plain update, an absent id changes nothing, and a present id ends
    up as `target` carrying the patched columns, with every other entry of
    the map view untouched and the primary key kept.
   */
  function UpdateSettingId(st: Store, id: int, target: int, p: Patch): (r: Option<Store>)
    ensures r.None? <==> id in Ids(st) && target != id && target in Ids(st)
    ensures r.Some? && target == id ==> r.value == UpdateWhere(st, id, p)
    ensures r.Some? && id !in Ids(st) ==> r.value == st
    ensures r.Some? && id in Ids(st) ==> Ids(r.value) == Ids(st) - {id} + {target}
    ensures r.Some? && id in Ids(st) ==>
              Table(r.value) == (Table(st) - {id})[target := Apply(Table(st)[id], p)]
    ensures r.Some? ==> (id in Ids(r.value) <==> id in Ids(st) && target == id)
    ensures r.Some? && UniqueIds(st) ==> UniqueIds(r.value)
  {
    if id in Ids(st) && target != id && target in Ids(st) then None
    else
      var patched := UpdateWhere(st, id, p);
      var r := RenameWhere(patched, id, target);
      UpdateWhereIds(st, id, p);
      assert UniqueIds(st) ==> UniqueIds(patched) by {
        if UniqueIds(st) {
          forall i, j | 0 <= i < j < |patched|
            ensures patched[i].id != patched[j].id
          {
          }
        }
      }
      if target == id || id !in Ids(st) then
        RenameWhereNoop(patched, id, target);
        assert id in Ids(st) ==> Table(r) == (Table(st) - {id})[target := Apply(Table(st)[id], p)] by {
          if id in Ids(st) {
            UpdateWhereMatchesTable(st, id, p);
            PutOverRemoved(Table(r), Table(st), id, Apply(Table(st)[id], p));
          }
        }
        Some(r)
      else
        RenameWhereMoves(patched, id, target);
        assert Table(r) == (Table(st) - {id})[target := Apply(Table(st)[id], p)] by {
          UpdateWhereMatchesTable(st, id, p);
          RenameWhereMatchesTable(patched, id, target);
          MoveWritten(Table(r), Table(patched), Table(st), id, target, Apply(Table(st)[id], p));
        }
        assert UniqueIds(patched) ==> UniqueIds(r) by {
          if UniqueIds(patched) {
            RenameWhereUnique(patched, id, target);
          }
        }
        Some(r)
  }

  /** Writing a key over a map is writing it over the map with that key removed. */
  lemma PutOverRemoved(written: map<int, Fields>, t: map<int, Fields>, id: int, f: Fields)
    requires written == t[id := f]
    ensures written == (t - {id})[id := f]
  {
  }

  /** Overwriting an entry and then moving it is moving the new value. */
  lemma MoveWritten(moved: map<int, Fields>, written: map<int, Fields>, t: map<int, Fields>, id: int, target: int, f: Fields)
    requires written == t[id := f]
    requires moved == (written - {id})[target := written[id]]
    ensures moved == (t - {id})[target := f]
  {
  }

  /** The outcome of `delete(id)`: the remaining rows and the number of rows affected. */
  datatype DeleteResult = DeleteResult(rest: Store, affected: nat)

  /** The table after `delete(id)`: every row with that id is gone, the others keep their order. */
  function DeleteWhere(st: Store, id: int): (r: DeleteResult)
    ensures r.affected == |st| - |r.rest|
    ensures forall u :: u in r.rest <==> u in st && u.id != id
    ensures r.affected == 0 ==> r.rest == st
  {
    if |st| == 0 then DeleteResult([], 0)
    else
      var tail := DeleteWhere(st[1..], id);
      if st[0].id == id then DeleteResult(tail.rest, tail.affected + 1)
      else DeleteResult([st[0]] + tail.rest, tail.affected)
  }

  /** `delete(id)` affects no row exactly when the id is absent, and afterwards the id is absent. */
  lemma DeleteWhereIds(st: Store, id: int)
    ensures Ids(DeleteWhere(st, id).rest) == Ids(st) - {id}
    ensures DeleteWhere(st, id).affected == 0 <==> id !in Ids(st)
  {
    var r := DeleteWhere(st, id);
    if r.affected != 0 {
      assert |r.rest| < |st|;
      assert id in Ids(st) by {
        if id !in Ids(st) {
          assert forall u :: u in st ==> u in r.rest;
          DeleteWhereKeepsAll(st, id);
        }
      }
    }
  }

  /** Deleting an id the table does not hold leaves the table as it was. */
  lemma {:induction false} DeleteWhereKeepsAll(st: Store, id: int)
    requires id !in Ids(st)
    ensures DeleteWhere(st, id).rest == st
  {
    if |st| > 0 {
      IdsOfCons(st);
      DeleteWhereKeepsAll(st[1..], id);
    }
  }

  /** Deleting rows keeps the primary-key constraint. */
  lemma {:induction false} DeleteWhereUnique(st: Store, id: int)
    requires UniqueIds(st)
    ensures UniqueIds(DeleteWhere(st, id).rest)
  {
    if |st| > 0 {
      DeleteWhereUnique(st[1..], id);
      var tail := DeleteWhere(st[1..], id).rest;
      if st[0].id != id {
        var rest := [st[0]] + tail;
        forall j | 0 < j < |rest|
          ensures rest[0].id != rest[j].id
        {
          assert rest[j] in tail;
          assert rest[j] in st[1..];
        }
      }
    }
  }

  /** The table as a map from id to columns; where ids repeat, the first row wins, as in `FindOneBy`. */
  function Table(st: Store): (t: map<int, Fields>)
    ensures t.Keys == Ids(st)
  {
    if |st| == 0 then map[]
    else
      IdsOfCons(st);
      Table(st[1..])[st[0].id := st[0].fields]
  }

  /** `FindOneBy` reads the row the map view holds for that id. */
  lemma {:induction false} FindOneByMatchesTable(st: Store, id: int)
    ensures FindOneBy(st, id) == (if id in Table(st) then Some(User(id, Table(st)[id])) else None)
  {
    if |st| > 0 && st[0].id != id {
      FindOneByMatchesTable(st[1..], id);
    }
  }

  /** Under the primary-key constraint, the row at index `k` is the one `FindOneBy` returns for its id. */
  lemma {:induction false} FindOneByAt(st: Store, k: int)
    requires UniqueIds(st)
    requires 0 <= k < |st|
    ensures FindOneBy(st, st[k].id) == Some(st[k])
  {
    if k > 0 {
      assert st[0].id != st[k].id;
      assert st[1..][k - 1] == st[k];
      FindOneByAt(st[1..], k - 1);
    }
  }

  /** Updating by id in the table is overwriting that key of the map with the patched columns. */
  lemma {:induction false} UpdateWhereMatchesTable(st: Store, id: int, p: Patch)
    ensures Table(UpdateWhere(st, id, p))
         == (if id in Table(st) then Table(st)[id := Apply(Table(st)[id], p)] else Table(st))
  {
    if |st| > 0 {
      var r := UpdateWhere(st, id, p);
      assert r[1..] == UpdateWhere(st[1..], id, p);
      UpdateWhereMatchesTable(st[1..], id, p);
    }
  }

  /** Deleting by id in the table is removing that key from the map. */
  lemma {:induction false} DeleteWhereMatchesTable(st: Store, id: int)
    ensures Table(DeleteWhere(st, id).rest) == Table(st) - {id}
  {
    if |st| > 0 {
      var t := Table(st[1..]);
      var tail := DeleteWhere(st[1..], id).rest;
      DeleteWhereMatchesTable(st[1..], id);
      assert Table(tail) == t - {id};
      if st[0].id == id {
        PutThenRemove(t, id, st[0].fields);
      } else {
        var rest := [st[0]] + tail;
        assert rest[1..] == tail;
        RemoveThenPut(t, id, st[0].id, st[0].fields);
      }
    }
  }

  /** Removing a key forgets whatever was just written under it. */
  lemma PutThenRemove(t: map<int, Fields>, id: int, f: Fields)
    ensures t[id := f] - {id} == t - {id}
  {
  }

  /** Removing one key and writing another commute. */
  lemma RemoveThenPut(t: map<int, Fields>, id: int, k: int, f: Fields)
    requires k != id
    ensures (t - {id})[k := f] == t[k := f] - {id}
  {
  }

  /** Under the primary-key constraint, the first row's id occurs nowhere else. */
  lemma HeadIdNotInTail(st: Store)
    requires UniqueIds(st)
    requires |st| > 0
    ensures st[0].id !in Ids(st[1..])
  {
    forall u | u in st[1..]
      ensures u.id != st[0].id
    {
      var j :| 0 <= j < |st[1..]| && st[1..][j] == u;
      assert st[j + 1] == u;
    }
  }

  /** Under the primary-key constraint, deleting an existing id removes exactly the one row that has it. */
  lemma {:induction false} DeleteWhereAt(st: Store, k: int)
    requires UniqueIds(st)
    requires 0 <= k < |st|
    ensures DeleteWhere(st, st[k].id) == DeleteResult(st[..k] + st[k + 1..], 1)
  {
    var id := st[k].id;
    if k == 0 {
      HeadIdNotInTail(st);
      DeleteWhereKeepsAll(st[1..], id);
      assert st[..0] + st[1..] == st[1..];
    } else {
      var tail := st[1..];
      assert st[0].id != id;
      assert tail[k - 1] == st[k];
      UniqueTail(st);
      DeleteWhereAt(tail, k - 1);
      SpliceCons(st, k);
    }
  }

  /** The rows after the first keep the primary-key constraint. */
  lemma UniqueTail(st: Store)
    requires UniqueIds(st)
    requires |st| > 0
    ensures UniqueIds(st[1..])
  {
  }

  /** Dropping index `k` from a table is keeping its first row and dropping index `k - 1` from the rest. */
  lemma SpliceCons(st: Store, k: int)
    requires 0 < k < |st|
    ensures [st[0]] + (st[1..][..k - 1] + st[1..][k..]) == st[..k] + st[k + 1..]
  {
    assert st[1..][..k - 1] == st[1..k];
    assert st[1..][k..] == st[k + 1..];
  }

  /** Appending a row with a fresh id adds exactly that key to the map. */
  lemma {:induction false} AppendMatchesTable(st: Store, u: User)
    requires u.id !in Ids(st)
    ensures Table(st + [u]) == Table(st)[u.id := u.fields]
  {
    if |st| == 0 {
      assert (st + [u])[1..] == [];
    } else {
      IdsOfCons(st);
      assert (st + [u])[1..] == st[1..] + [u];
      AppendMatchesTable(st[1..], u);
    }
  }
}
