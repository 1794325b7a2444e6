/**
 * The transaction handle every gateway operation holds, the driver behaviour
 * it runs against, and the rollback done in every `finally` block.
 */
module Transactions {
  import opened Wrappers
  import opened Errors

  /** The states of Hibernate's `TransactionStatus` a gateway call can end in or pass through. */
  datatype TxStatus = Active | Committed | FailedCommit | RolledBack | FailedRollback

  /** The gateway's `transaction` variable: `null` until `beginTransaction` returns. */
  datatype TxRef = NullTx | Tx(status: TxStatus)

  /** `transaction != null && transaction.getStatus().canRollback()`. */
  predicate CanRollback(t: TxRef) {
    t.Tx? && (t.status.Active? || t.status.FailedCommit?)
  }

  /** Nothing is left open: no transaction, or one that committed or went through a rollback. */
  predicate Settled(t: TxRef) {
    t.NullTx? || t.status.Committed? || t.status.RolledBack? || t.status.FailedRollback?
  }

  /**
   * `safeRollback`: roll back only what is still rollback-eligible. The
   * result type has no error case: a failing rollback is logged and
   * swallowed, and only changes the final status.
   */
  function SafeRollback(t: TxRef, rollbackFails: bool): (r: TxRef)
    ensures Settled(r)
    ensures !CanRollback(r)
    ensures !CanRollback(t) ==> r == t
    ensures CanRollback(t) ==> r.Tx? && (r.status.RolledBack? || r.status.FailedRollback?)
    ensures CanRollback(t) ==> (r == Tx(FailedRollback) <==> rollbackFails)
  {
    if CanRollback(t) then
      if rollbackFails then Tx(FailedRollback) else Tx(RolledBack)
    else
      t
  }

  /** Where a driver failure strikes: opening the session or beginning, the work, or the commit. */
  datatype Stage = AtBegin | AtWork | AtCommit

  datatype Failure = Failure(fault: Fault, stage: Stage)

  /**
   * What the session factory and the database do during one gateway call,
   * beyond the table's own constraints: at most one failure, and whether the
   * clean-up rollback throws.
   */
  datatype Driver = Driver(failure: Option<Failure>, rollbackFails: bool)

  const Healthy: Driver := Driver(None, false)

  predicate FailsAt(d: Driver, s: Stage) {
    d.failure.Some? && d.failure.value.stage == s
  }

  /** The driver lets the work run: it fails at the commit or not at all. */
  predicate ReachesWork(d: Driver) {
    d.failure.None? || d.failure.value.stage.AtCommit?
  }
}
