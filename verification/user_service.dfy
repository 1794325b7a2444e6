/**
 * The orchestration layer (`UserService`): normalises and validates emails,
 * runs the uniqueness pre-check before a create and before an update that sets
 * a new email, merges partial updates, and turns raw library failures into
 * "try again later" errors.
 *
 * Each operation takes the table and one `Driver` per gateway call it may
 * make, and reports the gateway calls it made, in order, with the
 * transaction each one left behind.
 */
module UserService {
  import opened Wrappers
  import opened Text
  import opened Errors
  import opened Transactions
  import opened Store
  import opened UserDao

  /** The bean validator's verdict on a value for the `email` property of `User`. */
  type Validator = string -> bool

  const NotValidEmail: string := "Not valid email"

  function AlreadyCreatedMessage(email: string): string {
    "User with " + email + " already created"
  }

  /** A gateway call the service made, with its arguments. */
  datatype DaoCall =
    | CheckCall(email: string)
    | CreateCall(user: User)
    | ReadCall(id: int)
    | UpdateCall(entity: Entity)
    | DeleteByIdCall(id: int)
    | DeleteByEmailCall(email: string)

  datatype Call = Call(op: DaoCall, tx: TxRef)

  /** A service call's result, the table afterwards, and the gateway calls in the order they were made. */
  datatype Reply<T> = Reply(result: Result<T, Exc>, rows: Rows, calls: seq<Call>)

  /** Every transaction the gateway opened was committed or rolled back. */
  predicate AllSettled(calls: seq<Call>) {
    forall i :: 0 <= i < |calls| ==> Settled(calls[i].tx)
  }

  lemma AllSettledConcat(a: seq<Call>, b: seq<Call>)
    ensures AllSettled(a + b) <==> AllSettled(a) && AllSettled(b)
  {
    var ab := a + b;
    assert forall i :: 0 <= i < |a| ==> ab[i] == a[i];
    assert forall i :: |a| <= i < |ab| ==> ab[i] == b[i - |a|];
    if AllSettled(ab) {
      forall i | 0 <= i < |b|
        ensures Settled(b[i].tx)
      {
        assert ab[|a| + i] == b[i];
      }
    }
  }

  function DbErrorMessage(operation: string): string {
    "Database error while " + operation + " user. Try again later."
  }

  /** `dbError`: an IllegalStateException naming the operation, keeping the failure as its cause. */
  function DbError(operation: string, cause: Exc): (e: Exc)
    ensures e.IllegalState? && e.cause == Some(cause)
  {
    IllegalState(DbErrorMessage(operation), Some(cause))
  }

  /**
   * The two `catch` clauses around a gateway call: IllegalArgument- and
   * IllegalStateExceptions go through unchanged, a HibernateException is
   * wrapped by `dbError`.
   */
  function Rethrow(operation: string, e: Exc): (r: Exc)
    ensures IsClassified(r)
    ensures IsClassified(e) ==> r == e
    ensures IsRaw(e) ==> r == IllegalState(DbErrorMessage(operation), Some(e))
  {
    if IsRaw(e) then DbError(operation, e) else e
  }

  /** `mailValid`: normalise, then ask the validator. */
  function MailValid(email: string, valid: Validator): (r: Result<(), Exc>)
    ensures r.Ok? <==> valid(Normalize(email))
    ensures r.Err? ==> r.error == IllegalArgument(NotValidEmail)
  {
    if valid(Normalize(email)) then Ok(()) else Err(IllegalArgument(NotValidEmail))
  }

  /**
   * `mailValidAndUnique`: validate, then ask the gateway whether the email is
   * free. The message quotes the argument as given.
   */
  function MailValidAndUnique(rows: Rows, email: string, valid: Validator, check: Driver): (r: Reply<()>)
    ensures r.rows == rows
    ensures AllSettled(r.calls)
    ensures r.result.Ok? <==>
              valid(Normalize(email)) && check.failure.None? && !KeyTaken(rows, Normalize(email), None)
  {
    var normalized := Normalize(email);
    NormalizeIdempotent(email);
    var validity := MailValid(normalized, valid);
    if validity.Err? then
      Reply(Err(validity.error), rows, [])
    else
      var o := MailUniqueCheck(rows, normalized, check);
      var calls := [Call(CheckCall(normalized), o.tx)];
      assert o.result.Ok? ==> (o.result.value <==> !KeyTaken(rows, normalized, None));
      if o.result.Err? then
        Reply(Err(o.result.error), rows, calls)
      else if o.result.value then
        Reply(Ok(()), rows, calls)
      else
        Reply(Err(IllegalArgument(AlreadyCreatedMessage(email))), rows, calls)
  }

  /** `saveUser`: normalise the email, validate and pre-check it, then create the user. */
  function SaveUser(rows: Rows, name: string, email: string, age: int, valid: Validator, check: Driver, write: Driver)
    : (r: Reply<Entity>)
    ensures AllSettled(r.calls)
    ensures r.result.Err? ==> IsClassified(r.result.error) && r.rows == rows
    ensures r.result.Ok? ==>
              && r.result.value.user == User(name, Some(Normalize(email)), age)
              && r.result.value.id.Some?
              && r.result.value.id.value !in rows
              && r.rows == rows[r.result.value.id.value := r.result.value.user]
  {
    var normalized := Normalize(email);
    NormalizeIdempotent(email);
    NormalizeIsLowerCase(email);
    var pre := MailValidAndUnique(rows, normalized, valid, check);
    if pre.result.Err? then
      Reply(Err(Rethrow("creating", pre.result.error)), rows, pre.calls)
    else
      var user := User(name, Some(normalized), age);
      var o := Create(rows, user, write);
      var calls := pre.calls + [Call(CreateCall(user), o.tx)];
      if o.result.Err? then
        Reply(Err(Rethrow("creating", o.result.error)), o.rows, calls)
      else
        Reply(Ok(o.result.value), o.rows, calls)
  }

  /** `readUser`: delegate to `read`, wrapping raw failures. */
  function ReadUser(rows: Rows, id: int, drv: Driver): (r: Reply<Entity>)
    ensures r.rows == rows
    ensures AllSettled(r.calls) && |r.calls| == 1 && r.calls[0].op == ReadCall(id)
    ensures r.result.Ok? <==> id in rows && drv.failure.None?
    ensures r.result.Ok? ==> r.result.value == Entity(Some(id), rows[id])
    ensures r.result.Err? ==> IsClassified(r.result.error)
    ensures id !in rows && drv.failure.None? ==> r.result == Err(IllegalArgument(ReadMissingMessage))
    ensures drv.failure.Some? ==> r.result == Err(Rethrow("reading", Catch(drv.failure.value.fault)))
  {
    var o := Read(rows, id, drv);
    var calls := [Call(ReadCall(id), o.tx)];
    match o.result
    case Err(e) => Reply(Err(Rethrow("reading", e)), rows, calls)
    case Ok(user) => Reply(Ok(user), rows, calls)
  }

  /** The fields an update sets: each given one replaces the stored value, the others stay. */
  function Merge(u: User, name: Option<string>, email: Option<string>, age: Option<int>): (m: User)
    ensures m.name == (if name.Some? then name.value else u.name)
    ensures m.email == (if email.Some? then email else u.email)
    ensures m.age == (if age.Some? then age.value else u.age)
  {
    var named := if name.Some? then u.(name := name.value) else u;
    var mailed := if email.Some? then named.(email := email) else named;
    if age.Some? then mailed.(age := age.value) else mailed
  }

  /** The gateway `update` of the merged object, wrapping raw failures. */
  function WriteBack(rows: Rows, e: Entity, write: Driver): (r: Reply<Entity>)
    requires e.id.Some? && e.id.value in rows
    ensures |r.calls| == 1 && r.calls[0].op == UpdateCall(e) && Settled(r.calls[0].tx)
    ensures r.result.Err? ==> IsClassified(r.result.error) && r.rows == rows
    ensures r.result.Ok? <==>
              write.failure.None? && e.user.email.Some? && !KeyTaken(rows, ToLower(e.user.email.value), e.id)
    ensures r.result.Ok? ==> r.result.value == e && r.rows == rows[e.id.value := e.user]
  {
    var o := Update(rows, e, write);
    var calls := [Call(UpdateCall(e), o.tx)];
    if o.result.Err? then
      Reply(Err(Rethrow("updating", o.result.error)), o.rows, calls)
    else
      Reply(Ok(o.result.value), o.rows, calls)
  }

  /**
   * `updateUser`: read the user, set the given fields (a new email is
   * normalised, validated and pre-checked first), and write the object back.
   */
  function UpdateUser(rows: Rows, id: int, name: Option<string>, email: Option<string>, age: Option<int>,
                      valid: Validator, read: Driver, check: Driver, write: Driver): (r: Reply<Entity>)
    ensures AllSettled(r.calls)
    ensures 1 <= |r.calls| && r.calls[0].op == ReadCall(id)
    ensures r.result.Err? ==> r.rows == rows
    ensures r.result.Ok? ==>
              && id in rows
              && r.result.value ==
                 Entity(Some(id), Merge(rows[id], name, if email.Some? then Some(Normalize(email.value)) else None, age))
              && r.rows == rows[id := r.result.value.user]
  {
    var o := Read(rows, id, read);
    var calls := [Call(ReadCall(id), o.tx)];
    if o.result.Err? then
      Reply(Err(Rethrow("updating", o.result.error)), rows, calls)
    else
      var rest := SetFields(rows, id, name, email, age, valid, check, write);
      AllSettledConcat(calls, rest.calls);
      Reply(rest.result, rest.rows, calls + rest.calls)
  }

  /**
   * The part of `updateUser` after a successful `read`. The pre-check sits
   * outside the `try`, so its raw failures are not wrapped.
   */
  function SetFields(rows: Rows, id: int, name: Option<string>, email: Option<string>, age: Option<int>,
                     valid: Validator, check: Driver, write: Driver): (r: Reply<Entity>)
    requires id in rows
    ensures AllSettled(r.calls)
    ensures r.result.Err? ==> r.rows == rows
    ensures r.result.Ok? ==>
              && r.result.value ==
                 Entity(Some(id), Merge(rows[id], name, if email.Some? then Some(Normalize(email.value)) else None, age))
              && r.rows == rows[id := r.result.value.user]
  {
    if email.Some? then
      var normalized := Normalize(email.value);
      var pre := MailValidAndUnique(rows, normalized, valid, check);
      if pre.result.Err? then
        Reply(Err(pre.result.error), rows, pre.calls)
      else
        var w := WriteBack(rows, Entity(Some(id), Merge(rows[id], name, Some(normalized), age)), write);
        AllSettledConcat(pre.calls, w.calls);
        Reply(w.result, w.rows, pre.calls + w.calls)
    else
      WriteBack(rows, Entity(Some(id), Merge(rows[id], name, None, age)), write)
  }

  /** `removeUserById`: delegate to `deleteById`, wrapping raw failures. */
  function RemoveUserById(rows: Rows, id: int, drv: Driver): (r: Reply<()>)
    ensures AllSettled(r.calls) && |r.calls| == 1 && r.calls[0].op == DeleteByIdCall(id)
    ensures r.result.Ok? <==> id in rows && drv.failure.None?
    ensures r.result.Ok? ==> r.rows.Keys == rows.Keys - {id}
    ensures forall k :: k in r.rows ==> k in rows && r.rows[k] == rows[k]
    ensures r.result.Err? ==> IsClassified(r.result.error) && r.rows == rows
    ensures id !in rows && drv.failure.None? ==> r.result == Err(IllegalArgument(DeleteMissingMessage(id)))
    ensures drv.failure.Some? ==> r.result == Err(Rethrow("deleting", Catch(drv.failure.value.fault)))
  {
    var o := DeleteById(rows, id, drv);
    var calls := [Call(DeleteByIdCall(id), o.tx)];
    match o.result
    case Err(e) => Reply(Err(Rethrow("deleting", e)), o.rows, calls)
    case Ok(_) => Reply(Ok(()), o.rows, calls)
  }

  /**
   * `removeUserByEmail`: normalise and validate the email, then hand the
   * normalised value to `deleteByEmail`. No uniqueness check is made.
   */
  function RemoveUserByEmail(rows: Rows, email: string, valid: Validator, drv: Driver): (r: Reply<()>)
    ensures AllSettled(r.calls)
    ensures r.result.Err? ==> IsClassified(r.result.error)
    ensures forall k :: k in r.rows ==> k in rows && r.rows[k] == rows[k]
    ensures forall k :: k in rows && k !in r.rows ==> EmailMatches(rows[k], Normalize(email))
    ensures valid(Normalize(email)) ==> |r.calls| == 1 && r.calls[0].op == DeleteByEmailCall(Normalize(email))
  {
    var normalized := Normalize(email);
    NormalizeIdempotent(email);
    var validity := MailValid(normalized, valid);
    if validity.Err? then
      Reply(Err(validity.error), rows, [])
    else
      var o := DeleteByEmail(rows, normalized, drv);
      var calls := [Call(DeleteByEmailCall(normalized), o.tx)];
      if o.result.Err? then
        Reply(Err(Rethrow("deleting", o.result.error)), o.rows, calls)
      else
        Reply(Ok(()), o.rows, calls)
  }
}
