/** The `users` table and `UserRepository` of `app/repositories/users.py`.
    Rows are kept in insertion order; `nextId` is the PostgreSQL sequence
    behind the integer primary key, and the `unique=True` index on `email`
    (`app/models/user.py`) is what turns a duplicate insert into an
    `IntegrityError`. */
module UsersRepo {
  import opened Wrappers
  import Hasher

  datatype User = User(
    id: int,
    fullname: string,
    email: string,
    passwordHash: Hasher.PasswordHash,
    createdAt: int)

  datatype Table = Table(rows: seq<User>, nextId: int)

  /** What the database guarantees: distinct emails and distinct ids, every
      id drawn from the sequence before its current value. */
  ghost predicate Valid(t: Table) {
    && (forall i, j :: 0 <= i < j < |t.rows| ==> t.rows[i].email != t.rows[j].email)
    && (forall i, j :: 0 <= i < j < |t.rows| ==> t.rows[i].id != t.rows[j].id)
    && 1 <= t.nextId
    && (forall i :: 0 <= i < |t.rows| ==> 1 <= t.rows[i].id < t.nextId)
  }

  const Empty: Table := Table([], 1)

  lemma EmptyValid()
    ensures Valid(Empty)
  {
  }

  /** The first row satisfying `p`, scanning in order. */
  function FindFirst(rows: seq<User>, p: User -> bool): (r: Option<User>)
    ensures r.Some? ==> r.value in rows && p(r.value)
    ensures r.None? <==> forall u :: u in rows ==> !p(u)
  {
    if |rows| == 0 then None
    else if p(rows[0]) then Some(rows[0])
    else
      var r := FindFirst(rows[1..], p);
      assert forall u :: u in rows ==> u == rows[0] || u in rows[1..];
      r
  }

  /** `get_by_email`: the user registered under `email`, or `None`. */
  function GetByEmail(t: Table, email: string): (r: Option<User>)
    ensures r.Some? ==> r.value in t.rows && r.value.email == email
    ensures r.None? <==> forall u :: u in t.rows ==> u.email != email
  {
    FindFirst(t.rows, (u: User) => u.email == email)
  }

  /** `get_by_id`, which the bearer gate calls; `users.py` does not define
      it, so it is the lookup by primary key the call implies. */
  function GetById(t: Table, id: int): (r: Option<User>)
    ensures r.Some? ==> r.value in t.rows && r.value.id == id
    ensures r.None? <==> forall u :: u in t.rows ==> u.id != id
  {
    FindFirst(t.rows, (u: User) => u.id == id)
  }

  /** In a valid table the email lookup finds THE user with that email. */
  lemma GetByEmailUnique(t: Table, u: User)
    requires Valid(t) && u in t.rows
    ensures GetByEmail(t, u.email) == Some(u)
  {
    var r := GetByEmail(t, u.email).value;
    var i :| 0 <= i < |t.rows| && t.rows[i] == u;
    var j :| 0 <= j < |t.rows| && t.rows[j] == r;
    assert t.rows[i].email == t.rows[j].email;
    assert i == j;
  }

  /** In a valid table the id lookup finds THE user with that id. */
  lemma GetByIdUnique(t: Table, u: User)
    requires Valid(t) && u in t.rows
    ensures GetById(t, u.id) == Some(u)
  {
    var r := GetById(t, u.id).value;
    var i :| 0 <= i < |t.rows| && t.rows[i] == u;
    var j :| 0 <= j < |t.rows| && t.rows[j] == r;
    assert t.rows[i].id == t.rows[j].id;
    assert i == j;
  }

  /** `create`: inserts a user with the next id and returns it; when the
      email is taken the insert fails, the transaction is rolled back and
      `None` is returned. A PostgreSQL sequence is not transactional, so the
      failed insert still consumes an id. */
  function Create(t: Table, fullname: string, email: string, passwordHash: Hasher.PasswordHash, now: int): (r: (Table, Option<User>))
    ensures r.1.None? <==> exists u :: u in t.rows && u.email == email
    ensures r.1.None? ==> r.0.rows == t.rows
    ensures r.1.Some? ==> r.0.rows == t.rows + [r.1.value]
    ensures r.1.Some? ==> r.1.value.fullname == fullname && r.1.value.email == email
                          && r.1.value.passwordHash == passwordHash && r.1.value.createdAt == now
    ensures Valid(t) ==> Valid(r.0)
  {
    var nextId := t.nextId + 1;
    if GetByEmail(t, email).Some? then
      (Table(t.rows, nextId), None)
    else
      var u := User(t.nextId, fullname, email, passwordHash, now);
      (Table(t.rows + [u], nextId), Some(u))
  }

  /** Inserting never hides an existing user from the id lookup. */
  lemma CreateKeepsUsers(t: Table, fullname: string, email: string, passwordHash: Hasher.PasswordHash, now: int, id: int)
    requires GetById(t, id).Some?
    ensures GetById(Create(t, fullname, email, passwordHash, now).0, id).Some?
  {
    var u := GetById(t, id).value;
    assert u in Create(t, fullname, email, passwordHash, now).0.rows;
  }
}
