/**
 * The persistence gateway (`UserDaoImpl`): six operations over the `users`
 * table, each run in its own transaction, with the library's failures
 * classified into the exceptions callers see.
 *
 * Every operation is `Run` applied to the operation's `Body`: what the work
 * does on a healthy driver. `Run` adds the protocol all six methods share:
 * begin, work, commit, the three `catch` clauses and the `finally` rollback.
 */
module UserDao {
  import opened Wrappers
  import opened Text
  import opened Ids
  import opened Errors
  import opened Transactions
  import opened Store

  const EmailAlreadyUsed: string := "That email is already used"
  const FieldCannotBeEmpty: string := "That field can't be empty"
  const ConstraintViolationInDb: string := "Constraint violation in db"
  const WrongData: string := "Wrong data"

  /** `read` leaves the logger's `{}` placeholder in its message instead of the id. */
  const ReadMissingMessage: string := "User with id={} is not existed"

  /** `deleteById` puts the id between the braces, with its sign when it is negative. */
  function DeleteMissingMessage(id: int): string {
    "User with id={" + IntToString(id) + "} is not existed"
  }

  /** What the library reports when `merge` is given an id whose row is gone. */
  const StaleRowMessage: string := "Row was updated or deleted by another transaction"

  /** `handleConstraintViolation`: the SQL state picks the exception; it never returns normally. */
  function HandleConstraintViolation(state: Option<string>): (e: Exc)
    ensures IsClassified(e)
    ensures e == IllegalState(EmailAlreadyUsed, None) <==> state == Some(UniqueViolation)
    ensures e == IllegalArgument(FieldCannotBeEmpty) <==> state == Some(NotNullViolation)
    ensures e == IllegalState(ConstraintViolationInDb, None) <==>
              state != Some(UniqueViolation) && state != Some(NotNullViolation)
  {
    if state == Some(UniqueViolation) then IllegalState(EmailAlreadyUsed, None)
    else if state == Some(NotNullViolation) then IllegalArgument(FieldCannotBeEmpty)
    else IllegalState(ConstraintViolationInDb, None)
  }

  /** `handleJdbcException`: malformed data becomes "Wrong data", anything else is re-thrown as is. */
  function HandleJdbcException(state: Option<string>): (e: Exc)
    ensures e == IllegalArgument(WrongData) <==> state == Some(InvalidTextRepresentation)
    ensures e != IllegalArgument(WrongData) ==> e == Jdbc(state)
  {
    if state == Some(InvalidTextRepresentation) then IllegalArgument(WrongData) else Jdbc(state)
  }

  /** The three `catch` clauses, tried in order: constraint violation, other JDBC failure, other Hibernate failure. */
  function Catch(f: Fault): (e: Exc)
    ensures IsRaw(e) <==>
              f.HibernateFailure? || (f.JdbcFailure? && f.sqlState != Some(InvalidTextRepresentation))
    ensures e.Jdbc? ==> f == JdbcFailure(e.sqlState)
    ensures e.Hibernate? ==> f == HibernateFailure(e.message)
    ensures e.IllegalState? ==> f.ConstraintViolation? && e.cause.None?
  {
    match f
    case ConstraintViolation(state) => HandleConstraintViolation(state)
    case JdbcFailure(state) => HandleJdbcException(state)
    case HibernateFailure(m) => Hibernate(m)
  }

  /** What an operation's work does when the driver does not fail. */
  datatype Body<T> =
    | Commit(value: T, after: Rows)  // commit the new table, then return `value`
    | CommitThenThrow(error: Exc)    // commit (nothing changed), then throw `error`
    | Return(value: T)               // return without committing
    | Raise(fault: Fault)            // the database rejects the work

  /** What a gateway call leaves behind: its result, the committed table and the transaction handle. */
  datatype Outcome<T> = Outcome(result: Result<T, Exc>, rows: Rows, tx: TxRef)

  /**
   * The transaction protocol of every gateway method: a failure at begin
   * leaves the handle `null`; any failure is classified by `Catch`; only a
   * successful commit publishes the new table; and the `finally` block rolls
   * back whatever is still rollback-eligible.
   */
  function Run<T>(rows: Rows, drv: Driver, body: Body<T>): (o: Outcome<T>)
    ensures Settled(o.tx)
    ensures o.tx.NullTx? <==> FailsAt(drv, AtBegin)
    ensures o.tx == Tx(Committed) <==> drv.failure.None? && (body.Commit? || body.CommitThenThrow?)
    ensures o.rows == (if o.tx == Tx(Committed) && body.Commit? then body.after else rows)
    ensures o.result.Ok? <==> (drv.failure.None? && body.Commit?) || (ReachesWork(drv) && body.Return?)
    ensures o.result.Ok? ==> o.result.value == body.value
    ensures !ReachesWork(drv) ==> o.result == Err(Catch(drv.failure.value.fault))
    ensures ReachesWork(drv) && body.Raise? ==> o.result == Err(Catch(body.fault))
    ensures drv.failure.None? && body.CommitThenThrow? ==> o.result == Err(body.error)
    ensures FailsAt(drv, AtCommit) && (body.Commit? || body.CommitThenThrow?) ==>
              o.result == Err(Catch(drv.failure.value.fault))
  {
    if FailsAt(drv, AtBegin) then
      Outcome(Err(Catch(drv.failure.value.fault)), rows, NullTx)
    else if FailsAt(drv, AtWork) then
      Outcome(Err(Catch(drv.failure.value.fault)), rows, SafeRollback(Tx(Active), drv.rollbackFails))
    else
      match body
      case Raise(f) =>
        Outcome(Err(Catch(f)), rows, SafeRollback(Tx(Active), drv.rollbackFails))
      case Return(v) =>
        Outcome(Ok(v), rows, SafeRollback(Tx(Active), drv.rollbackFails))
      case Commit(v, after) =>
        if drv.failure.Some? then
          Outcome(Err(Catch(drv.failure.value.fault)), rows, SafeRollback(Tx(FailedCommit), drv.rollbackFails))
        else
          Outcome(Ok(v), after, SafeRollback(Tx(Committed), drv.rollbackFails))
      case CommitThenThrow(e) =>
        if drv.failure.Some? then
          Outcome(Err(Catch(drv.failure.value.fault)), rows, SafeRollback(Tx(FailedCommit), drv.rollbackFails))
        else
          Outcome(Err(e), rows, SafeRollback(Tx(Committed), drv.rollbackFails))
  }

  /** The constraint the database reports when `u` is written to any row but `except`, if any. */
  function Violation(rows: Rows, u: User, except: Option<nat>): (f: Option<Fault>)
    ensures f.None? <==> u.email.Some? && !KeyTaken(rows, ToLower(u.email.value), except)
    ensures f == Some(ConstraintViolation(Some(NotNullViolation))) <==> u.email.None?
    ensures f == Some(ConstraintViolation(Some(UniqueViolation))) <==>
              u.email.Some? && KeyTaken(rows, ToLower(u.email.value), except)
    ensures f.Some? ==> f.value.ConstraintViolation?
  {
    if u.email.None? then Some(ConstraintViolation(Some(NotNullViolation)))
    else if KeyTaken(rows, ToLower(u.email.value), except) then Some(ConstraintViolation(Some(UniqueViolation)))
    else None
  }

  function CreateBody(rows: Rows, u: User): Body<Entity> {
    match Violation(rows, u, None)
    case Some(f) => Raise(f)
    case None =>
      var id := FreshId(rows.Keys);
      Commit(Entity(Some(id), u), rows[id := u])
  }

  /** `create`: `persist` the user, which inserts it under a fresh id. */
  function Create(rows: Rows, u: User, drv: Driver): (o: Outcome<Entity>)
    ensures Settled(o.tx)
    ensures o.result.Ok? <==>
              drv.failure.None? && u.email.Some? && !KeyTaken(rows, ToLower(u.email.value), None)
    ensures o.result.Ok? ==>
              && o.result.value.user == u
              && o.result.value.id.Some?
              && o.result.value.id.value !in rows
              && (forall k :: k in rows ==> k < o.result.value.id.value)
              && o.rows == rows[o.result.value.id.value := u]
              && o.tx == Tx(Committed)
    ensures o.result.Err? ==> o.rows == rows && o.tx != Tx(Committed)
    ensures ReachesWork(drv) && u.email.None? ==> o.result == Err(IllegalArgument(FieldCannotBeEmpty))
    ensures ReachesWork(drv) && u.email.Some? && KeyTaken(rows, ToLower(u.email.value), None) ==>
              o.result == Err(IllegalState(EmailAlreadyUsed, None))
  {
    Run(rows, drv, CreateBody(rows, u))
  }

  function ReadBody(rows: Rows, id: int): Body<Entity> {
    if id in rows then Commit(Entity(Some(id), rows[id]), rows)
    else CommitThenThrow(IllegalArgument(ReadMissingMessage))
  }

  /**
   * `read`: load the row with this id inside a read-only transaction. The
   * id is any `Long`; a negative one names no row.
   */
  function Read(rows: Rows, id: int, drv: Driver): (o: Outcome<Entity>)
    ensures Settled(o.tx)
    ensures o.rows == rows
    ensures o.result.Ok? <==> id in rows && drv.failure.None?
    ensures o.result.Ok? ==> o.result.value == Entity(Some(id), rows[id]) && o.tx == Tx(Committed)
    ensures id !in rows && drv.failure.None? ==>
              o.result == Err(IllegalArgument(ReadMissingMessage)) && o.tx == Tx(Committed)
  {
    Run(rows, drv, ReadBody(rows, id))
  }

  function UpdateBody(rows: Rows, e: Entity): Body<Entity> {
    match e.id
    case None =>
      // `merge` of an object without id inserts a copy; the argument keeps its null id.
      (match Violation(rows, e.user, None)
       case Some(f) => Raise(f)
       case None => Commit(e, rows[FreshId(rows.Keys) := e.user]))
    case Some(i) =>
      if i !in rows then Raise(HibernateFailure(StaleRowMessage))
      else
        match Violation(rows, e.user, Some(i))
        case Some(f) => Raise(f)
        case None => Commit(e, rows[i := e.user])
  }

  /** `update`: `merge` the object, overwriting every field of its row, and return the argument. */
  function Update(rows: Rows, e: Entity, drv: Driver): (o: Outcome<Entity>)
    ensures Settled(o.tx)
    ensures o.result.Ok? ==> o.result.value == e && o.tx == Tx(Committed)
    ensures o.result.Err? ==> o.rows == rows
    ensures e.id.Some? && e.id.value in rows ==>
              (o.result.Ok? <==>
                 drv.failure.None? && e.user.email.Some? &&
                 !KeyTaken(rows, ToLower(e.user.email.value), e.id))
    ensures e.id.Some? && o.result.Ok? ==> e.id.value in rows && o.rows == rows[e.id.value := e.user]
    ensures e.id.None? && o.result.Ok? ==>
              exists k: nat :: k !in rows && o.rows == rows[k := e.user]
    ensures e.id.Some? && e.id.value !in rows && ReachesWork(drv) ==>
              o.result == Err(Hibernate(StaleRowMessage))
    ensures ReachesWork(drv) && e.user.email.None? && (e.id.None? || e.id.value in rows) ==>
              o.result == Err(IllegalArgument(FieldCannotBeEmpty))
    ensures ReachesWork(drv) && e.user.email.Some? && (e.id.None? || e.id.value in rows) &&
            KeyTaken(rows, ToLower(e.user.email.value), e.id) ==>
              o.result == Err(IllegalState(EmailAlreadyUsed, None))
  {
    Run(rows, drv, UpdateBody(rows, e))
  }

  function DeleteByIdBody(rows: Rows, id: int): Body<()> {
    if id in rows then Commit((), rows - {id})
    else CommitThenThrow(IllegalArgument(DeleteMissingMessage(id)))
  }

  /** `deleteById`: remove the row with this id, or commit and throw when there is none (any negative id included). */
  function DeleteById(rows: Rows, id: int, drv: Driver): (o: Outcome<()>)
    ensures Settled(o.tx)
    ensures o.result.Ok? <==> id in rows && drv.failure.None?
    ensures o.result.Ok? ==> o.rows.Keys == rows.Keys - {id} && o.tx == Tx(Committed)
    ensures forall k :: k in o.rows ==> k in rows && o.rows[k] == rows[k]
    ensures o.result.Err? ==> o.rows == rows
    ensures id !in rows && drv.failure.None? ==>
              o.result == Err(IllegalArgument(DeleteMissingMessage(id))) && o.tx == Tx(Committed)
  {
    Run(rows, drv, DeleteByIdBody(rows, id))
  }

  /** Without an `ORDER BY` the database may pick any match; the model removes the least id. */
  function DeleteByEmailBody(rows: Rows, email: string): Body<()> {
    var m := Matching(rows, email);
    if m == {} then Return(()) else Commit((), rows - {Least(m)})
  }

  /**
   * `deleteByEmail`: remove one row whose lower-cased email equals `email`
   * exactly as given. A miss is not an error: nothing is committed and the
   * `finally` block rolls the transaction back.
   */
  function DeleteByEmail(rows: Rows, email: string, drv: Driver): (o: Outcome<()>)
    ensures Settled(o.tx)
    ensures forall k :: k in o.rows ==> k in rows && o.rows[k] == rows[k]
    ensures forall k :: k in rows && k !in o.rows ==> EmailMatches(rows[k], email)
    ensures |o.rows| == |rows| || |o.rows| == |rows| - 1
    ensures Matching(rows, email) == {} ==>
              o.rows == rows && o.tx != Tx(Committed) && (o.result.Ok? <==> ReachesWork(drv))
    ensures Matching(rows, email) != {} ==>
              (o.result.Ok? <==> drv.failure.None?) && (o.result.Ok? ==> |o.rows| == |rows| - 1)
    ensures o.result.Err? ==> drv.failure.Some? && o.rows == rows && o.result.error == Catch(drv.failure.value.fault)
  {
    Run(rows, drv, DeleteByEmailBody(rows, email))
  }

  /**
   * `mailUniqueCheck`: true when no row's lower-cased email equals the
   * trimmed, lower-cased argument. Read-only.
   */
  function MailUniqueCheck(rows: Rows, email: string, drv: Driver): (o: Outcome<bool>)
    ensures Settled(o.tx)
    ensures o.rows == rows
    ensures o.result.Ok? <==> drv.failure.None?
    ensures o.result.Ok? ==>
              (o.result.value <==> forall id :: id in rows ==> !EmailMatches(rows[id], Normalize(email)))
  {
    Run(rows, drv, Commit(!KeyTaken(rows, Normalize(email), None), rows))
  }
}
