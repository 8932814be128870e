/**
  The user record and the partial bodies that `create` and `update` receive.

  A stored user has a store-generated numeric `id` and four columns
  (`name`, `email`, `age`, `role`). A request body is a `Partial<User>`:
  each column is either present or absent, which is what `Patch` spells out.
 */
module Entity {

  /** A value that may be absent. */
  datatype Option<+T> = None | Some(value: T)

  /** The columns of a user row other than its generated id. */
  datatype Fields = Fields(name: string, email: string, age: int, role: string)

  /** A row of the users table. */
  datatype User = User(id: int, fields: Fields)

  /** A partial set of columns: a present column overwrites, an absent one is left alone. */
  datatype Patch = Patch(
    name: Option<string>,
    email: Option<string>,
    age: Option<int>,
    role: Option<string>)

  /**
    An `update` body as the controller passes it on: the columns, and
    possibly an `id`, which `update` writes like any other column.
   */
  datatype UpdateBody = UpdateBody(id: Option<int>, columns: Patch)

  /** The body with no column present. */
  const NoChange: Patch := Patch(None, None, None, None)

  /** The patched value of one column. */
  function Pick<T>(column: Option<T>, current: T): T
  {
    match column
    case Some(v) => v
    case None => current
  }

  /** The columns `f` after writing the columns present in `p`. */
  function Apply(f: Fields, p: Patch): (r: Fields)
    ensures p.name.Some? ==> r.name == p.name.value
    ensures p.email.Some? ==> r.email == p.email.value
    ensures p.age.Some? ==> r.age == p.age.value
    ensures p.role.Some? ==> r.role == p.role.value
    ensures p.name.None? ==> r.name == f.name
    ensures p.email.None? ==> r.email == f.email
    ensures p.age.None? ==> r.age == f.age
    ensures p.role.None? ==> r.role == f.role
  {
    Fields(Pick(p.name, f.name), Pick(p.email, f.email), Pick(p.age, f.age), Pick(p.role, f.role))
  }

  /** Writing the same body twice leaves the row as writing it once. */
  lemma ApplyIdempotent(f: Fields, p: Patch)
    ensures Apply(Apply(f, p), p) == Apply(f, p)
  {
  }

  /** A body with no column present changes nothing. */
  lemma ApplyNoChange(f: Fields)
    ensures Apply(f, NoChange) == f
  {
  }
}
