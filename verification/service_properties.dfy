/**
  Properties of the cache-aside accessor that relate several calls: what a
  write does to the table seen as a map, repeated reads, removing twice, and
  traces of calls. The main result, `CacheIsTransparent`, says that along
  any sequence of calls the service with its cache answers exactly what the
  same service without a cache would answer.
 */
module ServiceProperties {
  import opened Entity
  import opened Repository
  import opened UserService

  /** A second `findAll` with nothing in between is a hit and returns the same list. */
  lemma FindAllIdempotent(s: State)
    ensures var first := FindAll(s);
            var second := FindAll(first.next);
            && first.next.cache.Some?
            && second.value == first.value
            && second.next == first.next
  {
  }

  /** A cached empty list is a hit like any other snapshot: it is returned and nothing is read or written. */
  lemma EmptySnapshotIsHit(s: State)
    requires s.cache == Some([])
    ensures FindAll(s) == Reply([], s)
  {
  }

  /** After the key expires, `findAll` reads the table again and caches what it read. */
  lemma ExpireThenFindAllRereads(s: State)
    ensures FindAll(Expire(s)).value == s.store
    ensures FindAll(Expire(s)).next.cache == Some(s.store)
  {
  }

  /** A created user is in the list the next `findAll` returns, with the body's columns. */
  lemma CreateThenFindAll(s: State, p: Patch, defaults: Fields)
    ensures var c := Create(s, p, defaults);
            var listed := FindAll(c.next).value;
            && listed == c.next.store
            && User(s.nextId, Apply(defaults, p)) in listed
  {
    var c := Create(s, p, defaults);
    assert c.next.store[|s.store|] == c.value;
  }

  /** In the map view, `create` adds the fresh id and leaves every other entry as it was. */
  lemma CreateMatchesTable(s: State, p: Patch, defaults: Fields)
    requires Valid(s)
    ensures Table(Create(s, p, defaults).next.store) == Table(s.store)[s.nextId := Apply(defaults, p)]
  {
    AppendMatchesTable(s.store, Create(s, p, defaults).value);
  }

  /**
    In the map view, a successful `update` overwrites the present columns of
    the target entry and nothing else, and returns what the table now holds
    for that id.
   */
  lemma UpdateMatchesTable(s: State, id: int, p: Patch)
    requires id in Ids(s.store)
    ensures var r := Update(s, id, p);
            && r.value.Ok?
            && Table(r.next.store) == Table(s.store)[id := Apply(Table(s.store)[id], p)]
            && r.value.value == User(id, Apply(Table(s.store)[id], p))
  {
    var r := Update(s, id, p);
    var written := UpdateWhere(s.store, id, p);
    UpdateWhereMatchesTable(s.store, id, p);
    FindOneByMatchesTable(written, id);
  }

  /**
    Under the primary key, a successful `update` replaces the one row with
    that id in place: same position, same id, patched columns; every other
    row and the order are untouched.
   */
  lemma UpdateInPlace(s: State, k: int, p: Patch)
    requires Valid(s)
    requires 0 <= k < |s.store|
    ensures var u := s.store[k];
            Update(s, u.id, p).next.store == s.store[k := User(u.id, Apply(u.fields, p))]
  {
    var u := s.store[k];
    var written := UpdateWhere(s.store, u.id, p);
    forall j | 0 <= j < |s.store|
      ensures written[j] == s.store[k := User(u.id, Apply(u.fields, p))][j]
    {
      if j != k {
        assert s.store[j].id != u.id;
      }
    }
  }

  /** In the map view, a successful `remove` deletes the id and leaves every other entry as it was. */
  lemma RemoveMatchesTable(s: State, id: int)
    ensures Table(Remove(s, id).next.store) == Table(s.store) - {id}
  {
    DeleteWhereMatchesTable(s.store, id);
    DeleteWhereIds(s.store, id);
  }

  /** Under the primary key, removing an existing id drops exactly its row and keeps the order of the rest. */
  lemma RemoveAt(s: State, k: int)
    requires Valid(s)
    requires 0 <= k < |s.store|
    ensures Remove(s, s.store[k].id).next.store == s.store[..k] + s.store[k + 1..]
  {
    DeleteWhereAt(s.store, k);
  }

  /** Removing the same id twice: the second call fails with `NotFound` and changes nothing. */
  lemma RemoveTwiceFails(s: State, id: int)
    ensures var once := Remove(s, id);
            Remove(once.next, id) == Reply(Err(NotFound(id)), once.next)
  {
  }

  /**
    The corrected `update`, whose body cannot write the id column, keeps a
    cached snapshot equal to the table whether it succeeds or fails, so the
    next `findAll` returns the table as it is now.
   */
  lemma UpdateKeepsCacheCoherent(s: State, id: int, p: Patch)
    requires Inv(s)
    ensures var r := Update(s, id, p);
            Inv(r.next) && FindAll(r.next).value == r.next.store
  {
  }

  /**
    `update` as written, with a body that renames an existing row to a fresh
    id: the table changes, the call still fails with `NotFound`, the key is
    not cleared, and the next `findAll` returns the snapshot from before the
    write instead of the table.
   */
  lemma RenamingUpdateLeavesStaleCache(s: State, id: int, target: int, p: Patch)
    requires Inv(s) && s.cache.Some?
    requires id in Ids(s.store) && target != id && target !in Ids(s.store)
    ensures var r := UpdateAsWritten(s, id, UpdateBody(Some(target), p));
            && r.value == Err(NotFound(id))
            && !Coherent(r.next)
            && FindAll(r.next).value == s.store
            && FindAll(r.next).value != r.next.store
  {
    var r := UpdateAsWritten(s, id, UpdateBody(Some(target), p));
    assert target in Ids(r.next.store);
    assert Ids(r.next.store) != Ids(s.store);
  }

  /**
    The concrete trace of the stale-cache defect in `update`: create a user (id 1), list the
    users (the list is cached), send `update(1, {id: 2})` as written, list
    again. The last list is the cached one and no longer matches the table.
   */
  lemma RenamingUpdateTrace(defaults: Fields)
    ensures var created := Create(Initial, NoChange, defaults);
            var listed := FindAll(created.next);
            var renamed := UpdateAsWritten(listed.next, 1, UpdateBody(Some(2), NoChange));
            && renamed.value == Err(NotFound(1))
            && FindAll(renamed.next).value == [User(1, defaults)]
            && FindAll(renamed.next).value != renamed.next.store
  {
    var created := Create(Initial, NoChange, defaults);
    ApplyNoChange(defaults);
    assert created.value == User(1, defaults);
    assert created.next == State([User(1, defaults)], 2, None);
    var listed := FindAll(created.next);
    assert listed.next == State([User(1, defaults)], 2, Some([User(1, defaults)]));
    assert Ids(listed.next.store) == {1};
    RenamingUpdateLeavesStaleCache(listed.next, 1, 2, NoChange);
  }

  /** One call a client can make, or the cache backend's own expiry of the key. */
  datatype Op =
    | FindAllOp
    | CreateOp(body: Patch)
    | UpdateOp(id: int, body: Patch)
    | RemoveOp(id: int)
    | ExpireOp

  /** What the client observes from one call. */
  datatype Output =
    | Listed(users: seq<User>)
    | Created(user: User)
    | Updated(updated: Result<User>)
    | Removed(removed: Result<()>)
    | Expired

  /** One step of the service; `defaults` are the table's column defaults used by `create`. */
  function Exec(s: State, op: Op, defaults: Fields): Reply<Output>
  {
    match op
    case FindAllOp => var r := FindAll(s); Reply(Listed(r.value), r.next)
    case CreateOp(p) => var r := Create(s, p, defaults); Reply(Created(r.value), r.next)
    case UpdateOp(id, p) => var r := Update(s, id, p); Reply(Updated(r.value), r.next)
    case RemoveOp(id) => var r := Remove(s, id); Reply(Removed(r.value), r.next)
    case ExpireOp => Reply(Expired, Expire(s))
  }

  /** No write ever puts a snapshot under the key: it either clears the key or, on failure, leaves the state alone. */
  lemma WritesNeverRefresh(s: State, op: Op, defaults: Fields)
    requires op.CreateOp? || op.UpdateOp? || op.RemoveOp?
    ensures var r := Exec(s, op, defaults);
            r.next.cache.None? || r.next == s
  {
  }

  /** Every step keeps the table's primary key, the id counter ahead of the table, and the cache coherent. */
  lemma ExecPreservesInv(s: State, op: Op, defaults: Fields)
    requires Inv(s)
    ensures Inv(Exec(s, op, defaults).next)
  {
  }

  /** The same step taken by a service without a cache: every call goes to the table. */
  function Bypass(s: State, op: Op, defaults: Fields): Reply<Output>
  {
    var r := Exec(s.(cache := None), op, defaults);
    Reply(r.value, r.next.(cache := None))
  }

  /** From a coherent state, one step with the cache is observably the same as one step without it. */
  lemma ExecMatchesBypass(s: State, op: Op, defaults: Fields)
    requires Inv(s)
    ensures Exec(s, op, defaults).value == Bypass(s, op, defaults).value
    ensures Exec(s, op, defaults).next.(cache := None) == Bypass(s, op, defaults).next
  {
  }

  /** The outputs of a sequence of calls, and the state it ends in. */
  function Run(s: State, ops: seq<Op>, defaults: Fields): Reply<seq<Output>>
    decreases |ops|
  {
    if |ops| == 0 then Reply([], s)
    else
      var first := Exec(s, ops[0], defaults);
      var rest := Run(first.next, ops[1..], defaults);
      Reply([first.value] + rest.value, rest.next)
  }

  /** The outputs of the same sequence of calls made to the service without a cache. */
  function RunBypass(s: State, ops: seq<Op>, defaults: Fields): Reply<seq<Output>>
    decreases |ops|
  {
    if |ops| == 0 then Reply([], s.(cache := None))
    else
      var first := Bypass(s, ops[0], defaults);
      var rest := RunBypass(first.next, ops[1..], defaults);
      Reply([first.value] + rest.value, rest.next)
  }

  /** Any sequence of calls keeps the invariant. */
  lemma {:induction false} RunPreservesInv(s: State, ops: seq<Op>, defaults: Fields)
    requires Inv(s)
    ensures Inv(Run(s, ops, defaults).next)
    decreases |ops|
  {
    if |ops| > 0 {
      ExecPreservesInv(s, ops[0], defaults);
      RunPreservesInv(Exec(s, ops[0], defaults).next, ops[1..], defaults);
    }
  }

  /**
    The cache is invisible to a client making calls one at a time: from a
    coherent state, every sequence of calls, including expiries at any point,
    yields the same outputs as the service without a cache, and ends in the
    same table and id counter.
   */
  lemma {:induction false} CacheIsTransparent(s: State, ops: seq<Op>, defaults: Fields)
    requires Inv(s)
    ensures Run(s, ops, defaults).value == RunBypass(s, ops, defaults).value
    ensures Run(s, ops, defaults).next.(cache := None) == RunBypass(s, ops, defaults).next
    decreases |ops|
  {
    if |ops| > 0 {
      var first := Exec(s, ops[0], defaults);
      var other := Bypass(s, ops[0], defaults);
      ExecMatchesBypass(s, ops[0], defaults);
      ExecPreservesInv(s, ops[0], defaults);
      CacheIsTransparent(first.next, ops[1..], defaults);
      assert other.next == first.next.(cache := None);
      if |ops| > 1 {
        assert Bypass(other.next, ops[1], defaults) == Bypass(first.next, ops[1], defaults);
      }
    }
  }

  /** From the initial state, whatever calls came before, `findAll` returns the table as it is now. */
  lemma ReachableFindAllIsFresh(ops: seq<Op>, defaults: Fields)
    ensures var s := Run(Initial, ops, defaults).next;
            FindAll(s).value == s.store
  {
    RunPreservesInv(Initial, ops, defaults);
  }
}
