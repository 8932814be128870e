/**
  The cache-aside accessor `UserService` as a state machine over the users
  table and the single cache key `'all_users'`.

  Each operation is a pure transition: it takes the current `State` and
  returns what the caller receives together with the next `State`. A
  failure (`NotFound`, or `DuplicateEntry` from the database) is a value,
  not an exception, and carries the state the failed call leaves behind.
  TTL expiry, which the cache backend performs on its own, is the separate
  transition `Expire`.
 */
module UserService {
  import opened Entity
  import opened Repository

  /** The cache key `'all_users'`: absent, or holding a snapshot of the user list. An empty list is a hit. */
  type CacheSlot = Option<seq<User>>

  /** The table, the next id the table will generate, and the cache key. */
  datatype State = State(store: Store, nextId: int, cache: CacheSlot)

  /**
    `NotFound` is the `NotFoundException` the service raises itself;
    `DuplicateEntry` is the table's primary-key violation, which only a body
    that rewrites the id can provoke.
   */
  datatype Error = NotFound(id: int) | DuplicateEntry(id: int)

  datatype Result<+T> = Ok(value: T) | Err(error: Error)

  /** What the caller receives and the state the call leaves behind. */
  datatype Reply<+T> = Reply(value: T, next: State)

  /** An empty table whose auto-increment starts at 1, with nothing cached. */
  const Initial: State := State([], 1, None)

  /** The table keeps its primary key, and every id in it was handed out by the counter. */
  predicate Valid(s: State)
  {
    && UniqueIds(s.store)
    && forall u :: u in s.store ==> u.id < s.nextId
  }

  /** A cached snapshot, when there is one, is the current content of the table. */
  predicate Coherent(s: State)
  {
    s.cache.Some? ==> s.cache.value == s.store
  }

  predicate Inv(s: State)
  {
    Valid(s) && Coherent(s)
  }

  /**
    `findAll`: a hit returns the snapshot and touches nothing; a miss reads
    the whole table, stores it under the key and returns it.
   */
  function FindAll(s: State): (r: Reply<seq<User>>)
    ensures r.next.store == s.store && r.next.nextId == s.nextId
    ensures r.next.cache == Some(r.value)
    ensures s.cache.Some? ==> r.value == s.cache.value && r.next == s
    ensures s.cache.None? ==> r.value == s.store
  {
    match s.cache
    case Some(cached) => Reply(cached, s)
    case None => Reply(s.store, s.(cache := Some(s.store)))
  }

  /**
    `create`: build a row from the body (columns the body leaves out take the
    table's column defaults), save it under a freshly generated id, then
    clear the key.
   */
  function Create(s: State, p: Patch, defaults: Fields): (r: Reply<User>)
    ensures r.value.id == s.nextId && r.value.fields == Apply(defaults, p)
    ensures r.next.store == s.store + [r.value]
    ensures r.next.nextId > s.nextId
    ensures r.next.cache == None
    ensures Valid(s) ==> r.value.id !in Ids(s.store) && Valid(r.next)
  {
    var saved := User(s.nextId, Apply(defaults, p));
    Reply(saved, State(s.store + [saved], s.nextId + 1, None))
  }

  /**
    `update`: write the body's columns into the row with that id, re-read the
    row, fail with `NotFound` if it is missing, otherwise clear the key and
    return the re-read row. The failure happens before the key is cleared.
   */
  function Update(s: State, id: int, p: Patch): (r: Reply<Result<User>>)
    ensures r.value.Ok? <==> id in Ids(s.store)
    ensures r.value.Err? ==> r.value.error == NotFound(id) && r.next == s
    ensures r.value.Ok? ==>
              && r.value.value.id == id
              && FindOneBy(r.next.store, id) == Some(r.value.value)
              && r.next.nextId == s.nextId
              && r.next.cache == None
    ensures r.value.Ok? ==> r.value.value.fields == Apply(FindOneBy(s.store, id).value.fields, p)
    ensures Valid(s) ==> Valid(r.next)
  {
    var written := UpdateWhere(s.store, id, p);
    UpdateWhereIds(s.store, id, p);
    assert id in Ids(s.store) ==> FindOneBy(written, id) == Some(User(id, Apply(FindOneBy(s.store, id).value.fields, p))) by {
      if id in Ids(s.store) {
        FindOneByAfterUpdate(s.store, id, p);
      }
    }
    match FindOneBy(written, id)
    case None => Reply(Err(NotFound(id)), s.(store := written))
    case Some(updated) => Reply(Ok(updated), State(written, s.nextId, None))
  }

  /**
    `update` exactly as written, for a body that may carry an `id`: the
    write at users.service.ts:48 puts the body's `id` into the id column too.
    A rename onto an id another row holds is refused by the primary key and
    changes nothing. A rename onto a fresh id moves the row, advances the
    auto-increment past it, and then the re-read of the old id finds nothing:
    the call fails with `NotFound` although the table changed, and the key is
    not cleared.
   */
  function UpdateAsWritten(s: State, id: int, b: UpdateBody): (r: Reply<Result<User>>)
    ensures b.id.None? || b.id == Some(id) ==> r == Update(s, id, b.columns)
    ensures r.value.Ok? <==> id in Ids(s.store) && (b.id.None? || b.id == Some(id))
    ensures r.value.Err? ==> r.next.cache == s.cache
    ensures id !in Ids(s.store) ==> r == Reply(Err(NotFound(id)), s)
    ensures id in Ids(s.store) && b.id.Some? && b.id.value != id && b.id.value in Ids(s.store) ==>
              r == Reply(Err(DuplicateEntry(b.id.value)), s)
    ensures id in Ids(s.store) && b.id.Some? && b.id.value != id && b.id.value !in Ids(s.store) ==>
              && r.value == Err(NotFound(id))
              && Ids(r.next.store) == Ids(s.store) - {id} + {b.id.value}
              && FindOneBy(r.next.store, b.id.value)
                 == Some(User(b.id.value, Apply(FindOneBy(s.store, id).value.fields, b.columns)))
              && Table(r.next.store) == (Table(s.store) - {id})[b.id.value := Apply(Table(s.store)[id], b.columns)]
    ensures Valid(s) ==> Valid(r.next)
  {
    var target := Pick(b.id, id);
    assert target == id <==> b.id.None? || b.id == Some(id);
    match UpdateSettingId(s.store, id, target, b.columns)
    case None => Reply(Err(DuplicateEntry(target)), s)
    case Some(written) =>
      var renamed := id in Ids(s.store) && target != id;
      var counter := if renamed && target >= s.nextId then target + 1 else s.nextId;
      assert Valid(s) ==> Valid(State(written, counter, s.cache)) by {
        if Valid(s) {
          ValidAfterWrite(s, written, target, counter);
        }
      }
      assert renamed ==> FindOneBy(written, target)
                         == Some(User(target, Apply(FindOneBy(s.store, id).value.fields, b.columns))) by {
        if renamed {
          FindOneByMatchesTable(s.store, id);
          FindOneByMatchesTable(written, target);
        }
      }
      assert FindOneBy(written, id).Some? <==> id in Ids(s.store) && target == id;
      match FindOneBy(written, id)
      case None => Reply(Err(NotFound(id)), State(written, counter, s.cache))
      case Some(updated) => Reply(Ok(updated), State(written, counter, None))
  }

  /** A write that keeps the primary key and only introduces an id below the new counter keeps the state valid. */
  lemma ValidAfterWrite(s: State, written: Store, target: int, counter: int)
    requires Valid(s)
    requires UniqueIds(written)
    requires Ids(written) <= Ids(s.store) + {target}
    requires target in Ids(written) ==> target in Ids(s.store) || target < counter
    requires s.nextId <= counter
    ensures Valid(State(written, counter, s.cache))
  {
    forall u | u in written
      ensures u.id < counter
    {
      assert u.id in Ids(written);
      if u.id in Ids(s.store) {
        var v :| v in s.store && v.id == u.id;
      }
    }
  }

  /**
    `remove`: delete the rows with that id, fail with `NotFound` if no row was
    affected, otherwise clear the key. The failure happens before the key is
    cleared.
   */
  function Remove(s: State, id: int): (r: Reply<Result<()>>)
    ensures r.value.Ok? <==> id in Ids(s.store)
    ensures r.value.Err? ==> r.value.error == NotFound(id) && r.next == s
    ensures r.value.Ok? ==> r.next.cache == None && r.next.nextId == s.nextId
    ensures id !in Ids(r.next.store)
    ensures forall u :: u in r.next.store <==> u in s.store && u.id != id
    ensures Valid(s) ==> Valid(r.next)
  {
    var result := DeleteWhere(s.store, id);
    DeleteWhereIds(s.store, id);
    assert UniqueIds(s.store) ==> UniqueIds(result.rest) by {
      if UniqueIds(s.store) {
        DeleteWhereUnique(s.store, id);
      }
    }
    if result.affected == 0 then Reply(Err(NotFound(id)), s.(store := result.rest))
    else Reply(Ok(()), State(result.rest, s.nextId, None))
  }

  /** The cache backend drops the key once its time-to-live has passed. */
  function Expire(s: State): (r: State)
    ensures r.cache.None?
    ensures r.store == s.store && r.nextId == s.nextId
  {
    s.(cache := None)
  }
}
