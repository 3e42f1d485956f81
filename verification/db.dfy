/**
 Model of the `DB` class of the user authentication service.

 The SQL engine and the ORM session are replaced by an in-memory state:
   - `schema`: the attribute names of the `User` mapping, a parameter of the model;
   - `session`: the user records in insertion order, as the session sees them
     (queries autoflush, so they see changes that are not yet committed);
   - `committed`: the records as of the last `commit()`.
 A record maps every schema attribute to a value. The source's exceptions
 become the `Error` kinds of a `Result`.
*/
module UserDb {
  import opened Wrappers

  /** A column value: SQL NULL (Python's None), an integer or a string. */
  datatype Value = Null | Int(number: int) | Text(text: string)

  /** One `User` row: attribute name to value. */
  type Record = map<string, Value>

  /** Keyword arguments, in the order the caller wrote them. */
  type Pairs = seq<(string, Value)>

  /** The exceptions the source raises or lets through, each the exact class raised. */
  datatype Error = NoResultFound | InvalidRequestError | ValueError
  {
    /**
     Caught by `except InvalidRequestError`: in SQLAlchemy `NoResultFound` is a
     subclass of `InvalidRequestError`, so a handler for the latter catches both.
    */
    predicate IsInvalidRequest() {
      this == InvalidRequestError || this == NoResultFound
    }
  }

  datatype Result<+T> = Ok(value: T) | Err(error: Error)

  datatype Db = Db(schema: set<string>, session: seq<Record>, committed: seq<Record>)

  /** The new state together with what the operation returned or raised. */
  datatype Outcome<+T> = Outcome(db: Db, result: Result<T>)

  /** The new state together with the record `add_user` returns. */
  datatype Added = Added(db: Db, user: Record)

  const IdColumn: string := "id"
  const EmailColumn: string := "email"
  const HashedPasswordColumn: string := "hashed_password"

  /** The columns `add_user` and `update_user` rely on. */
  const RequiredColumns: set<string> := {IdColumn, EmailColumn, HashedPasswordColumn}

  /** Every record, in the session and as committed, has exactly the schema's attributes. */
  predicate Valid(db: Db) {
    && RequiredColumns <= db.schema
    && (forall j :: 0 <= j < |db.session| ==> db.session[j].Keys == db.schema)
    && (forall j :: 0 <= j < |db.committed| ==> db.committed[j].Keys == db.schema)
  }

  /** Python keyword arguments never repeat a name. */
  predicate DistinctNames(kw: Pairs) {
    forall j, k :: 0 <= j < k < |kw| ==> kw[j].0 != kw[k].0
  }

  /** Every keyword names an attribute of the schema. */
  predicate AllKnown(schema: set<string>, kw: Pairs) {
    forall k :: 0 <= k < |kw| ==> kw[k].0 in schema
  }

  /** `filter_by(**kw)` keeps a record when it equals every pair (conjunction). */
  predicate Matches(user: Record, kw: Pairs) {
    forall k :: 0 <= k < |kw| ==> kw[k].0 in user && user[kw[k].0] == kw[k].1
  }

  /** Some keyword is called `name`. */
  ghost predicate Named(kw: Pairs, name: string) {
    exists k :: 0 <= k < |kw| && kw[k].0 == name
  }

  /** `after` is `before` with every pair of `kw` set and every other attribute kept. */
  ghost predicate Assigned(before: Record, after: Record, kw: Pairs) {
    && after.Keys == before.Keys
    && (forall k :: 0 <= k < |kw| ==> kw[k].0 in after && after[kw[k].0] == kw[k].1)
    && (forall a :: a in before && !Named(kw, a) ==> a in after && after[a] == before[a])
  }

  /** Records `i` of `after` is record `i` of `before` with `kw` set; all other records are equal. */
  ghost predicate UpdatedAt(before: seq<Record>, after: seq<Record>, i: nat, kw: Pairs) {
    && |after| == |before|
    && i < |before|
    && Assigned(before[i], after[i], kw)
    && (forall j :: 0 <= j < |before| && j != i ==> after[j] == before[j])
  }

  /** The keyword arguments of `find_user_by(id=userId)`. */
  function ById(userId: Value): Pairs {
    [(IdColumn, userId)]
  }

  /** The integer id of a record, if it has one. */
  function IdOf(user: Record): Option<int> {
    if IdColumn in user && user[IdColumn].Int? then Some(user[IdColumn].number) else None
  }

  /** The position of the first record at or after `from` that matches `kw`. */
  function FirstMatchFrom(records: seq<Record>, kw: Pairs, from: nat): (r: Option<nat>)
    requires from <= |records|
    ensures r.Some? ==>
      && from <= r.value < |records|
      && Matches(records[r.value], kw)
      && forall j :: from <= j < r.value ==> !Matches(records[j], kw)
    ensures r.None? ==> forall j :: from <= j < |records| ==> !Matches(records[j], kw)
    decreases |records| - from
  {
    if from == |records| then None
    else if Matches(records[from], kw) then Some(from)
    else FirstMatchFrom(records, kw, from + 1)
  }

  /** The largest integer id among `records`, or `None` when no record has one. */
  function MaxId(records: seq<Record>): (r: Option<int>)
    ensures r.None? ==> forall j :: 0 <= j < |records| ==> IdOf(records[j]).None?
    ensures r.Some? ==> forall j :: 0 <= j < |records| && IdOf(records[j]).Some? ==> IdOf(records[j]).value <= r.value
    ensures r.Some? ==> exists j :: 0 <= j < |records| && IdOf(records[j]) == r
    decreases |records|
  {
    if records == [] then None
    else
      var init := records[..|records| - 1];
      var rest := MaxId(init);
      assert forall j :: 0 <= j < |init| ==> init[j] == records[j];
      match IdOf(records[|records| - 1])
      case None => rest
      case Some(id) =>
        if rest.None? || rest.value < id then Some(id) else rest
  }

  /**
   The id the store gives a new row: one more than the largest integer id in
   use, or 1 when there is none. This is what SQLite does for an integer
   primary key below its 64-bit maximum, so the new id differs from every
   existing one, and it is not positive when every stored id is below zero.
  */
  function NextId(records: seq<Record>): (n: int)
    ensures forall j :: 0 <= j < |records| && IdOf(records[j]).Some? ==> IdOf(records[j]).value < n
    ensures (forall j :: 0 <= j < |records| ==> IdOf(records[j]).None?) ==> n == 1
    ensures (exists j :: 0 <= j < |records| && IdOf(records[j]).Some?) ==>
      exists j :: 0 <= j < |records| && IdOf(records[j]) == Some(n - 1)
  {
    match MaxId(records)
    case None => 1
    case Some(largest) => largest + 1
  }

  /**
   `add_user(email, hashed_password)`: a new record with a fresh id, the given
   email and hashed password and every other attribute NULL, appended and
   committed, and returned.
  */
  function AddUser(db: Db, email: string := "", hashedPassword: string := ""): (r: Added)
    requires Valid(db)
    ensures Valid(r.db) && r.db.schema == db.schema
    ensures r.db.session == db.session + [r.user]
    ensures r.db.committed == r.db.session
    ensures r.user.Keys == db.schema
    ensures r.user[EmailColumn] == Text(email) && r.user[HashedPasswordColumn] == Text(hashedPassword)
    ensures IdOf(r.user).Some?
    ensures forall j :: 0 <= j < |db.session| ==> db.session[j][IdColumn] != r.user[IdColumn]
    ensures forall a :: a in r.user && a !in RequiredColumns ==> r.user[a] == Null
  {
    var id := NextId(db.session);
    var user := map a | a in db.schema ::
      if a == IdColumn then Int(id)
      else if a == EmailColumn then Text(email)
      else if a == HashedPasswordColumn then Text(hashedPassword)
      else Null;
    var session := db.session + [user];
    Added(Db(db.schema, session, session), user)
  }

  /**
   `find_user_by(**kw)`: `InvalidRequestError` when a keyword is not an
   attribute of `User`; otherwise the first record in insertion order that
   equals every pair, or `NoResultFound` when there is none. The store is not
   changed.
  */
  function FindUserBy(db: Db, kw: Pairs): (r: Result<Record>)
    ensures r != Err(ValueError)
    ensures r == Err(InvalidRequestError) <==> !AllKnown(db.schema, kw)
    ensures r == Err(NoResultFound) <==>
      AllKnown(db.schema, kw) && forall j :: 0 <= j < |db.session| ==> !Matches(db.session[j], kw)
    ensures r.Ok? ==>
      exists i :: 0 <= i < |db.session| && db.session[i] == r.value && Matches(r.value, kw)
        && forall j :: 0 <= j < i ==> !Matches(db.session[j], kw)
    ensures (r.Err? && r.error.IsInvalidRequest()) <==>
      !AllKnown(db.schema, kw) || forall j :: 0 <= j < |db.session| ==> !Matches(db.session[j], kw)
  {
    if !AllKnown(db.schema, kw) then Err(InvalidRequestError)
    else match FirstMatchFrom(db.session, kw, 0)
      case Some(i) => Ok(db.session[i])
      case None => Err(NoResultFound)
  }

  /** The position of the first keyword that is not an attribute of the schema. */
  function FirstUnknown(schema: set<string>, kw: Pairs): (k: nat)
    requires !AllKnown(schema, kw)
    ensures k < |kw| && kw[k].0 !in schema
    ensures AllKnown(schema, kw[..k])
  {
    if kw[0].0 !in schema then 0
    else
      var k := 1 + FirstUnknown(schema, kw[1..]);
      assert kw[..k] == [kw[0]] + kw[1..][..k - 1];
      k
  }

  /** The state of the record when the attribute loop of `update_user` stops. */
  datatype Applied = Applied(user: Record, complete: bool)

  /** Setting the first pair and then the rest assigns all of them. */
  lemma AssignedCons(user: Record, after: Record, kw: Pairs)
    requires |kw| > 0 && DistinctNames(kw) && kw[0].0 in user
    requires Assigned(user[kw[0].0 := kw[0].1], after, kw[1..])
    ensures Assigned(user, after, kw)
  {
    var rest := kw[1..];
    forall k | 0 <= k < |kw|
      ensures kw[k].0 in after && after[kw[k].0] == kw[k].1
    {
      if k > 0 {
        assert kw[k] == rest[k - 1];
      }
    }
    forall a | a in user && !Named(kw, a)
      ensures a in after && after[a] == user[a]
    {
      assert a != kw[0].0;
    }
  }

  /**
   The attribute loop of `update_user`: set each pair in order and stop at the
   first name that is not an attribute, leaving the pairs before it set.
  */
  function SetAttributes(schema: set<string>, user: Record, kw: Pairs): (r: Applied)
    requires user.Keys == schema
    requires DistinctNames(kw)
    ensures r.complete <==> AllKnown(schema, kw)
    ensures r.complete ==> Assigned(user, r.user, kw)
    ensures !r.complete ==> Assigned(user, r.user, kw[..FirstUnknown(schema, kw)])
  {
    if kw == [] then Applied(user, true)
    else if kw[0].0 !in schema then Applied(user, false)
    else
      var (name, value) := kw[0];
      var r := SetAttributes(schema, user[name := value], kw[1..]);
      assert r.complete ==> Assigned(user, r.user, kw) by {
        if r.complete {
          AssignedCons(user, r.user, kw);
        }
      }
      assert !r.complete ==> Assigned(user, r.user, kw[..FirstUnknown(schema, kw)]) by {
        if !r.complete {
          var n := FirstUnknown(schema, kw[1..]);
          assert FirstUnknown(schema, kw) == n + 1;
          var prefix := kw[..n + 1];
          assert prefix[1..] == kw[1..][..n];
          AssignedCons(user, r.user, prefix);
        }
      }
      r
  }

  /**
   `update_user(user_id, **kw)` as written. The record is looked up with
   `find_user_by(id=user_id)`, so an unknown id raises `NoResultFound` and
   changes nothing. The pairs are then set on the in-memory record one by one;
   at the first name that is not an attribute `ValueError` is raised before the
   commit, so the pairs before it stay set in the session and nothing is
   committed. When every name is known, all pairs are set and committed.
  */
  function UpdateUser(db: Db, userId: Value := Null, kw: Pairs := []): (r: Outcome<()>)
    requires Valid(db)
    requires DistinctNames(kw)
    ensures Valid(r.db) && r.db.schema == db.schema
    ensures r.result == Err(NoResultFound) <==> FindUserBy(db, ById(userId)) == Err(NoResultFound)
    ensures match FirstMatchFrom(db.session, ById(userId), 0)
      case None => r == Outcome(db, Err(NoResultFound))
      case Some(i) =>
        if AllKnown(db.schema, kw) then
          && r.result == Ok(())
          && UpdatedAt(db.session, r.db.session, i, kw)
          && r.db.committed == r.db.session
        else
          && r.result == Err(ValueError)
          && UpdatedAt(db.session, r.db.session, i, kw[..FirstUnknown(db.schema, kw)])
          && r.db.committed == db.committed
  {
    match FirstMatchFrom(db.session, ById(userId), 0)
    case None => Outcome(db, Err(NoResultFound))
    case Some(i) =>
      var applied := SetAttributes(db.schema, db.session[i], kw);
      var session := db.session[i := applied.user];
      if applied.complete then Outcome(Db(db.schema, session, session), Ok(()))
      else Outcome(Db(db.schema, session, db.committed), Err(ValueError))
  }

  /**
   `update_user` with the evident intent that a rejected update leaves no
   trace: the names are validated before any of them is set, so an error
   leaves the whole store as it was, and a successful update is the same as
   the source's.
  */
  function UpdateUserAtomic(db: Db, userId: Value := Null, kw: Pairs := []): (r: Outcome<()>)
    requires Valid(db)
    requires DistinctNames(kw)
    ensures r.result == UpdateUser(db, userId, kw).result
    ensures r.result.Ok? ==> r.db == UpdateUser(db, userId, kw).db
    ensures r.result.Err? ==> r.db == db
  {
    match FirstMatchFrom(db.session, ById(userId), 0)
    case None => Outcome(db, Err(NoResultFound))
    case Some(_) =>
      if !AllKnown(db.schema, kw) then Outcome(db, Err(ValueError))
      else UpdateUser(db, userId, kw)
  }

  /** When `update_user` stops at an unknown name, the known names after it have not been set. */
  lemma UpdateStopsAtUnknown(db: Db, userId: Value, kw: Pairs, i: nat, k: nat)
    requires Valid(db) && DistinctNames(kw)
    requires FirstMatchFrom(db.session, ById(userId), 0) == Some(i)
    requires !AllKnown(db.schema, kw)
    requires FirstUnknown(db.schema, kw) < k < |kw| && kw[k].0 in db.schema
    ensures UpdateUser(db, userId, kw).result == Err(ValueError)
    ensures UpdateUser(db, userId, kw).db.session[i][kw[k].0] == db.session[i][kw[k].0]
  {
    var n := FirstUnknown(db.schema, kw);
    var after := UpdateUser(db, userId, kw).db.session;
    assert !Named(kw[..n], kw[k].0) by {
      forall j | 0 <= j < n ensures kw[..n][j].0 != kw[k].0 {
        assert kw[..n][j] == kw[j];
      }
    }
    assert Assigned(db.session[i], after[i], kw[..n]);
  }

  /** After `add_user(e, h)`, `find_user_by(email=e)` finds a record whose email is `e`. */
  lemma AddThenFindByEmail(db: Db, email: string, hashedPassword: string)
    requires Valid(db)
    ensures var added := AddUser(db, email, hashedPassword);
            var found := FindUserBy(added.db, [(EmailColumn, Text(email))]);
            found.Ok? && found.value[EmailColumn] == Text(email)
  {
    var added := AddUser(db, email, hashedPassword);
    var kw := [(EmailColumn, Text(email))];
    var last := |added.db.session| - 1;
    assert added.db.session[last] == added.user;
    assert Matches(added.db.session[last], kw);
    assert AllKnown(added.db.schema, kw);
    var found := FindUserBy(added.db, kw);
    assert found.Ok?;
    assert Matches(found.value, kw) && kw[0] == (EmailColumn, Text(email));
  }

  /** The record `add_user` returns is the one `find_user_by(id=...)` finds with its fresh id. */
  lemma AddThenFindById(db: Db, email: string, hashedPassword: string)
    requires Valid(db)
    ensures var added := AddUser(db, email, hashedPassword);
            FindUserBy(added.db, ById(added.user[IdColumn])) == Ok(added.user)
  {
    var added := AddUser(db, email, hashedPassword);
    var kw := ById(added.user[IdColumn]);
    var last := |added.db.session| - 1;
    assert added.db.session[last] == added.user;
    assert Matches(added.db.session[last], kw);
    forall j | 0 <= j < last ensures !Matches(added.db.session[j], kw) {
      assert added.db.session[j] == db.session[j];
      assert db.session[j][IdColumn] != added.user[IdColumn];
      assert kw[0] == (IdColumn, added.user[IdColumn]);
    }
  }

  /**
   As written, a rejected `update_user` is committed by the next commit: the
   session keeps the pairs set before the unknown name, and `add_user` commits
   the whole session. Here the email change of a failed update ends up committed.
  */
  lemma PartialUpdateCommittedByLaterAdd(db: Db, alice: Record)
    requires alice == map[IdColumn := Int(1), EmailColumn := Text("a@x"), HashedPasswordColumn := Text("h")]
    requires db == Db(RequiredColumns, [alice], [alice])
    ensures var failed := UpdateUser(db, Int(1), [(EmailColumn, Text("b@x")), ("nickname", Text("n"))]);
            && failed.result == Err(ValueError)
            && failed.db.committed == db.committed
            && AddUser(failed.db, "c@x", "h2").db.committed[0][EmailColumn] == Text("b@x")
            && db.committed[0][EmailColumn] == Text("a@x")
  {
    var kw := [(EmailColumn, Text("b@x")), ("nickname", Text("n"))];
    assert Matches(db.session[0], ById(Int(1)));
    assert kw[1].0 !in RequiredColumns;
    assert FirstUnknown(db.schema, kw) == 1;
    assert kw[..1] == [(EmailColumn, Text("b@x"))];
  }

  /** After a successful `update_user(user_id, **kw)`, `find_user_by(**kw)` succeeds. */
  lemma UpdateThenFind(db: Db, userId: Value, kw: Pairs)
    requires Valid(db) && DistinctNames(kw)
    requires AllKnown(db.schema, kw)
    requires FindUserBy(db, ById(userId)).Ok?
    ensures UpdateUser(db, userId, kw).result == Ok(())
    ensures FindUserBy(UpdateUser(db, userId, kw).db, kw).Ok?
  {
    var i := FirstMatchFrom(db.session, ById(userId), 0).value;
    var after := UpdateUser(db, userId, kw).db;
    assert Assigned(db.session[i], after.session[i], kw);
    assert Matches(after.session[i], kw);
  }

  /** An update whose first name is not an attribute leaves the whole store exactly as it was. */
  lemma UpdateFirstNameUnknown(db: Db, userId: Value, kw: Pairs)
    requires Valid(db) && DistinctNames(kw)
    requires |kw| > 0 && kw[0].0 !in db.schema
    ensures UpdateUser(db, userId, kw).result.Err?
    ensures UpdateUser(db, userId, kw).db == db
  {
    var r := UpdateUser(db, userId, kw);
    match FirstMatchFrom(db.session, ById(userId), 0)
    case None =>
    case Some(i) =>
      assert FirstUnknown(db.schema, kw) == 0;
      assert kw[..0] == [];
      assert Assigned(db.session[i], r.db.session[i], []);
      assert r.db.session[i] == db.session[i];
      assert r.db.session == db.session;
  }
}
