/**
 * The exceptions of the two layers, as closed datatypes: what the persistence
 * library raises into the gateway (`Fault`) and what leaves the gateway or
 * the service (`Exc`).
 */
module Errors {
  import opened Wrappers

  /** SQLSTATE codes, from Appendix A of the PostgreSQL documentation. */
  const UniqueViolation: string := "23505"
  const NotNullViolation: string := "23502"
  const InvalidTextRepresentation: string := "22P02"

  /**
   * A failure raised by the persistence library, before classification. The
   * SQL state is `None` when the exception carries no `SQLException` or the
   * `SQLException` carries no state.
   */
  datatype Fault =
    | ConstraintViolation(sqlState: Option<string>)  // ConstraintViolationException
    | JdbcFailure(sqlState: Option<string>)          // any other JDBCException
    | HibernateFailure(message: string)              // any other HibernateException

  /** An exception thrown out of the gateway or the service. */
  datatype Exc =
    | IllegalArgument(message: string)
    | IllegalState(message: string, cause: Option<Exc>)
    | Jdbc(sqlState: Option<string>)  // a JDBCException re-thrown unchanged
    | Hibernate(message: string)      // a HibernateException re-thrown unchanged

  /** IllegalArgumentException or IllegalStateException: a classified failure. */
  predicate IsClassified(e: Exc) {
    e.IllegalArgument? || e.IllegalState?
  }

  /** A HibernateException (JDBCException is one) that nobody has classified. */
  predicate IsRaw(e: Exc) {
    e.Jdbc? || e.Hibernate?
  }
}
