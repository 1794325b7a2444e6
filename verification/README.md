# UserApp: the user gateway and the user service

A Dafny model of the two layers of UserApp that hold its behaviour:

- `UserDaoImpl`, the persistence gateway over the `users` table. It has six
  operations: `create`, `read`, `update`, `deleteById`, `deleteByEmail` and
  `mailUniqueCheck`. Each one runs in its own transaction and shares the same
  `try`/`catch`/`finally` protocol. That protocol classifies the library's
  failures through `handleConstraintViolation` and `handleJdbcException`, and
  always finishes with `safeRollback`.
- `UserService`, the layer above it. It trims and lower-cases emails and asks
  a bean validator about them. It runs a uniqueness pre-check before `create`
  and before an `update` that sets a new email; the two removals delete
  without a check. It merges partial updates and wraps raw library failures
  into "Database error while … user. Try again later."

The table is a finite map from ids to users (`Store.Rows`). The model
enforces the two schema constraints that the gateway's error handling relies
on:

- an email may not be `null` (SQL state 23502);
- `lower(email)` must be unique (SQL state 23505).

Every other way the database or the library can fail is a parameter. A
`Transactions.Driver` says whether one gateway call fails, with which fault,
and at which stage: at `beginTransaction`, during the work, or at `commit`.
It also says whether the clean-up rollback throws. Each service operation
takes one driver per gateway call it may make. It reports the gateway calls
it made, in order, with the transaction each one left behind. The bean
validator is also a parameter: a predicate on the normalised email.

Layout, one module per file:

| file | module | what |
|---|---|---|
| wrappers.dfy | `Wrappers` | `Option`, `Result` |
| text.dfy | `Text` | `trim`, ASCII `toLowerCase`, the normalised email, decimal ids |
| ids.dfy | `Ids` | least element, fresh identity value |
| errors.dfy | `Errors` | SQL states, library faults, the exceptions callers see |
| transactions.dfy | `Transactions` | transaction status, `safeRollback`, failure drivers |
| store.dfy | `Store` | users, the table, the `lower(email)` condition, the schema constraints |
| user_dao.dfy | `UserDao` | the six gateway operations over one shared protocol `Run` |
| dao_properties.dfy | `DaoProperties` | round trips and invariants across gateway calls |
| user_service.dfy | `UserService` | the five service operations and the two email checks |
| service_properties.dfy | `ServiceProperties` | what the service promises, case by case, and its scenarios |

Where the repository's tests expect something the code does not do, the model
follows the code:

- `read` of a missing id throws "User with id={} is not existed". The `{}` is
  left in place; it is never replaced by the id.
- `deleteByEmail` of an unknown email throws nothing. It only rolls back.
- A JDBC failure in the gateway that is neither a constraint violation
  (classified by `handleConstraintViolation`) nor SQL state 22P02 (which
  becomes "Wrong data") is re-thrown as it is. The gateway never produces a
  "Database error" message; only the service does.

## Model

| member | source | states |
|---|---|---|
| `Text.NormalizeIsTrimmedLowerCase` | src/main/java/org/example/service/UserService.java:103 | the normalised email is a trim of the lower-cased input (blanks are removed only at its ends) and holds no upper-case letter |
| `Text.TrimToLowerCommute` | src/main/java/org/example/dao/UserDaoImpl.java:156 | trimming then lower-casing equals lower-casing then trimming, for every string |
| `Text.NormalizeIdempotent` | src/main/java/org/example/service/UserService.java:110-112 | normalising an already normalised email changes nothing, so the repeated normalisation in `mailValidAndUnique`, `mailValid` and `mailUniqueCheck` is harmless |
| `Text.NormalizeIgnoresCaseAndPadding` | src/main/java/org/example/service/UserService.java:25 | emails that differ only in letter case and surrounding blanks normalise to the same value |
| `Text.TrimIdempotent` | src/main/java/org/example/service/UserService.java:62 | trimming twice is trimming once |
| `Text.NormalizeFixesNormalForm` | src/main/java/org/example/service/UserService.java:103 | a string with no upper-case letters and no outer blanks is its own normal form |
| `Text.ParseNatToString` | src/main/java/org/example/dao/UserDaoImpl.java:102 | the decimal rendering of an id reads back as that id |
| `Ids.FreshId` | src/test/java/org/example/dao/UserDaoImplTest.java:62-66 | the model's stand-in for the identity column: an id above every id in use, and 1 on an empty table (see "Left out" for how it differs) |
| `Ids.Least` | src/main/java/org/example/dao/UserDaoImpl.java:125-129 | the model's stand-in for the row `setMaxResults(1)` picks without `ORDER BY`: an element of the matching ids no larger than any other |
| `Transactions.SafeRollback` | src/main/java/org/example/dao/UserDaoImpl.java:180-189 | rolls back only a non-null, rollback-eligible transaction; afterwards no transaction is left open, and a rollback that throws is swallowed |
| `Store.WellFormedMatchesAtMostOne` | src/main/java/org/example/dao/UserDaoImpl.java:125-129 | under the unique `lower(email)` index at most one row matches an email |
| `UserDao.HandleConstraintViolation` | src/main/java/org/example/dao/UserDaoImpl.java:191-205 | 23505 yields "That email is already used" and 23502 yields "That field can't be empty", each if and only if; any other state yields "Constraint violation in db" |
| `UserDao.HandleJdbcException` | src/main/java/org/example/dao/UserDaoImpl.java:207-218 | 22P02 becomes "Wrong data" if and only if it is that state; any other failure is re-thrown unchanged |
| `UserDao.Catch` | src/main/java/org/example/dao/UserDaoImpl.java:28-34 | the three catch clauses: exactly the non-constraint library failures other than 22P02 escape raw, and each escapes unchanged |
| `UserDao.Run` | src/main/java/org/example/dao/UserDaoImpl.java:20-39 | the shared protocol: a failure at begin leaves the handle null; only a successful commit publishes the new table; every failure goes through the three catch clauses; the transaction ends settled |
| `UserDao.Violation` | src/test/java/org/example/dao/UserDaoImplTest.java:33-38 | the database's own enforcement of the schema: a null email is reported as 23502 before uniqueness is looked at; otherwise 23505 if and only if another row holds the lower-cased email |
| `UserDao.Create` | src/main/java/org/example/dao/UserDaoImpl.java:20-39 | succeeds if and only if the driver is healthy, the email is present and no row holds it in any letter case; the new row sits under a fresh id and the table is otherwise unchanged |
| `UserDao.Read` | src/main/java/org/example/dao/UserDaoImpl.java:42-67 | for any `Long` id: returns the stored row if and only if it exists and the driver is healthy; a missing id, any negative one included, commits and throws "User with id={} is not existed" |
| `UserDao.Update` | src/main/java/org/example/dao/UserDaoImpl.java:72-91 | `merge` overwrites every field of the row and returns the argument; an object without id is inserted under a new key; a missing id is a stale-row library failure; constraints are checked against the other rows |
| `UserDao.DeleteById` | src/main/java/org/example/dao/UserDaoImpl.java:94-118 | for any `Long` id: succeeds if and only if the id exists and the driver is healthy, removing exactly that row; a missing id, any negative one included, commits and throws a message naming the id |
| `UserDao.DeleteByEmail` | src/main/java/org/example/dao/UserDaoImpl.java:121-147 | removes at most one row, and only a row whose lower-cased email equals the argument; with no match nothing is committed and nothing is thrown |
| `UserDao.MailUniqueCheck` | src/main/java/org/example/dao/UserDaoImpl.java:149-178 | read-only; true if and only if no row's lower-cased email equals the normalised argument |
| `DaoProperties.RollbackFailureIsSwallowed` | src/main/java/org/example/dao/UserDaoImpl.java:186-188 | a throwing rollback never changes an operation's result or the table |
| `DaoProperties.CreateThenRead` | src/test/java/org/example/dao/UserDaoImplTest.java:90-96 | what `create` stored, `read` returns under the new id |
| `DaoProperties.CreateSameEmailIgnoringCase` | src/test/java/org/example/dao/UserDaoImplTest.java:70-79 | a second user whose email differs only in letter case is refused with "That email is already used" |
| `DaoProperties.UpdateThenRead` | src/test/java/org/example/dao/UserDaoImplTest.java:120-136 | after `update`, `read` of the id returns every field of the written object |
| `DaoProperties.DeleteThenRead` | src/test/java/org/example/dao/UserDaoImplTest.java:204-214 | after `deleteById` the id reads as missing and every other id reads as before |
| `DaoProperties.DeleteMissingMessageNamesId` | src/main/java/org/example/dao/UserDaoImpl.java:102 | the numeral between the braces of the `deleteById` message reads back as the requested id, its sign included |
| `DaoProperties.NegativeIdIsMissing` | src/main/java/org/example/dao/UserDaoImpl.java:47-52 | no row has a negative id: `read` throws the missing-id message, and `deleteById` commits nothing and throws the message naming that id |
| `DaoProperties.DeleteMissingMessageNegativeExample` | src/main/java/org/example/dao/UserDaoImpl.java:102 | for the id -5 the message is "User with id={-5} is not existed" |
| `DaoProperties.CreatePreservesWellFormed` | src/main/java/org/example/dao/UserDaoImpl.java:20-39 | `create` keeps both schema constraints |
| `DaoProperties.UpdatePreservesWellFormed` | src/main/java/org/example/dao/UserDaoImpl.java:72-91 | `update` keeps both schema constraints |
| `DaoProperties.DeleteByIdPreservesWellFormed` | src/main/java/org/example/dao/UserDaoImpl.java:94-118 | `deleteById` keeps both schema constraints |
| `DaoProperties.DeleteByEmailPreservesWellFormed` | src/main/java/org/example/dao/UserDaoImpl.java:121-147 | `deleteByEmail` keeps both schema constraints |
| `DaoProperties.DeleteByEmailRemovesTheMatch` | src/test/java/org/example/dao/UserDaoImplTest.java:227-238 | in a well-formed table a successful `deleteByEmail` leaves no row with that email |
| `DaoProperties.DeleteByEmailUpperCaseMisses` | src/main/java/org/example/dao/UserDaoImpl.java:125-127 | the gateway lower-cases only the column, so an argument containing an upper-case letter matches nothing and commits nothing |
| `DaoProperties.MailUniqueCheckAfterCreate` | src/test/java/org/example/dao/UserDaoImplTest.java:250-255 | once a user is created, its email is no longer unique, in any case or padding |
| `DaoProperties.FirstCreateGetsIdOne` | src/test/java/org/example/dao/UserDaoImplTest.java:90-92 | on an empty table the first user gets id 1, as after the tests' `TRUNCATE … RESTART IDENTITY` |
| `UserService.DbError` | src/main/java/org/example/service/UserService.java:118-120 | an IllegalStateException that keeps the failure as its cause |
| `UserService.Rethrow` | src/main/java/org/example/service/UserService.java:30-35 | IllegalArgument- and IllegalStateExceptions pass through unchanged; raw library failures are wrapped with the operation's name; the caller never sees a raw one |
| `UserService.MailValid` | src/main/java/org/example/service/UserService.java:102-108 | accepts if and only if the validator accepts the normalised email, and otherwise throws "Not valid email" |
| `UserService.MailValidAndUnique` | src/main/java/org/example/service/UserService.java:110-116 | leaves the table alone; succeeds if and only if the email is valid, the check's transaction is healthy and no row holds the normalised email |
| `UserService.SaveUser` | src/main/java/org/example/service/UserService.java:23-36 | every error is an IllegalArgument- or IllegalStateException and leaves the table unchanged; a success stores the user with the normalised email under a fresh id |
| `UserService.ReadUser` | src/main/java/org/example/service/UserService.java:38-47 | for any `Long` id: returns the stored row if and only if it exists and the transaction is healthy; raw failures are wrapped with "reading" |
| `UserService.Merge` | src/main/java/org/example/service/UserService.java:60-66 | each given field replaces the stored one; each absent field is kept |
| `UserService.UpdateUser` | src/main/java/org/example/service/UserService.java:49-76 | for any `Long` id: `read` comes first; a failure leaves the table unchanged; a success stores the merged user under the same id |
| `UserService.SetFields` | src/main/java/org/example/service/UserService.java:60-75 | after a successful read: a failure leaves the table unchanged, a success stores the merged user, with a new email normalised, and every transaction ends settled |
| `UserService.WriteBack` | src/main/java/org/example/service/UserService.java:68-75 | the write-back succeeds if and only if its transaction is healthy, the email is present and no other row holds it; it then stores the object under its id; failures reach the caller classified |
| `UserService.RemoveUserById` | src/main/java/org/example/service/UserService.java:78-87 | for any `Long` id: succeeds if and only if the id exists and the transaction is healthy, removing exactly that row; raw failures are wrapped with "deleting" |
| `UserService.RemoveUserByEmail` | src/main/java/org/example/service/UserService.java:89-100 | errors reach the caller classified; only rows holding the normalised email can disappear, and no other row changes; a valid email leads to exactly one `deleteByEmail`, of the normalised value, and no check |
| `ServiceProperties.MailValidAndUniqueRejectsInvalid` | src/main/java/org/example/service/UserService.java:102-108 | an email the validator rejects is refused before any gateway call |
| `ServiceProperties.MailValidAndUniqueChecksOnce` | src/main/java/org/example/service/UserService.java:110-116 | a valid email costs one check of the normalised value; a taken email is reported quoting the argument; a failing check surfaces as the gateway classified it |
| `ServiceProperties.SaveUserSucceedsIff` | src/main/java/org/example/service/UserService.java:23-36 | `saveUser` succeeds if and only if the email is valid and free and neither transaction fails |
| `ServiceProperties.SaveUserRejectsInvalid` | src/test/java/org/example/service/UserServiceTest.java:60-65 | an invalid email is refused with no gateway call, so `create` never runs |
| `ServiceProperties.SaveUserRejectsTaken` | src/test/java/org/example/service/UserServiceTest.java:38-42 | a taken email is refused with "User with … already created", after one check and without `create` |
| `ServiceProperties.SaveUserWrapsCheckFailure` | src/main/java/org/example/service/UserService.java:26-35 | a raw library failure in the pre-check is wrapped with "creating", and a failure the gateway classified passes through unchanged; `create` is never called and the table is unchanged |
| `ServiceProperties.SaveUserWrapsCreateFailure` | src/test/java/org/example/service/UserServiceTest.java:51-58 | a raw library failure in `create` is wrapped with "creating", keeping the failure as its cause; a failure the gateway classified passes through unchanged |
| `ServiceProperties.SaveUserCalls` | src/main/java/org/example/service/UserService.java:26-28 | after a passed pre-check exactly one `create` follows, of the user with the normalised email |
| `ServiceProperties.SaveThenRead` | src/main/java/org/example/service/UserService.java:23-47 | what `saveUser` returned, `readUser` returns |
| `ServiceProperties.SaveTwiceSameNormalizedEmail` | src/main/java/org/example/service/UserService.java:25-26 | a second save whose email normalises to the same value is refused by the pre-check |
| `ServiceProperties.UpdateUserMissing` | src/main/java/org/example/service/UserService.java:51-58 | a missing id is reported as `read` reported it, and nothing else is called |
| `ServiceProperties.UpdateUserReadFailure` | src/main/java/org/example/service/UserService.java:51-58 | a failing `read` ends the call; a raw library failure is wrapped with "updating", and a failure the gateway classified passes through unchanged |
| `ServiceProperties.UpdateUserRejectsInvalid` | src/main/java/org/example/service/UserService.java:61-63 | a new email the validator rejects is refused with "Not valid email" after the read, with no check and no write |
| `ServiceProperties.UpdateUserCheckFailureNotWrapped` | src/main/java/org/example/service/UserService.java:61-65 | the pre-check of a new email runs outside both `try` blocks, so a database failure there, raw ones included, is not wrapped |
| `ServiceProperties.UpdateOwnEmailFails` | src/main/java/org/example/service/UserService.java:61-65 | the pre-check does not exclude the user's own row, so setting the email the user already has is refused |
| `ServiceProperties.UpdateUserWithNewEmail` | src/main/java/org/example/service/UserService.java:49-76 | read, check and update are called in that order, and the update carries the merged object; the write fails only when its transaction fails; a raw library failure there is wrapped with "updating", and a classified one passes through unchanged |
| `ServiceProperties.UpdateUserWithoutEmail` | src/main/java/org/example/service/UserService.java:60-75 | with no new email no check is made; in a well-formed table the write-back fails only when its transaction fails |
| `ServiceProperties.UpdateWithNothingIsRead` | src/main/java/org/example/service/UserService.java:49-76 | an update that sets no field returns what `readUser` returns and leaves the table as it was |
| `ServiceProperties.UpdateThenReadUser` | src/main/java/org/example/service/UserService.java:49-76 | after a successful `updateUser`, `readUser` returns the updated user |
| `ServiceProperties.RemoveUserByEmailRejectsInvalid` | src/main/java/org/example/service/UserService.java:89-93 | an invalid email is refused and the table is untouched |
| `ServiceProperties.RemoveUserByEmailRemovesTheUser` | src/main/java/org/example/service/UserService.java:89-93 | the service normalises before deleting, so in a well-formed table the user with that email is gone in any case or padding |
| `ServiceProperties.RemoveUserByEmailWrapsDbFailure` | src/main/java/org/example/service/UserService.java:94-99 | when a row matches, or the failure comes before the work, a failing delete transaction reaches the caller through the service's rethrow: a raw library failure is wrapped with "deleting", a classified one passes unchanged; the table is left alone |
| `ServiceProperties.RemoveUserByEmailMissIgnoresCommitFailure` | src/main/java/org/example/dao/UserDaoImpl.java:130-145 | when no row matches nothing is committed, so a failure at commit goes unseen: the call succeeds and the table is unchanged |
| `ServiceProperties.SaveUserKeepsClassifiedFailure` | src/main/java/org/example/service/UserService.java:30-31 | a unique violation during `create` reaches the caller as "That email is already used", unwrapped |
| `ServiceProperties.NegativeIdIsMissingForService` | src/main/java/org/example/service/UserService.java:78-87 | a negative id names no user: `readUser` reports it missing, and `removeUserById` reports it with its sign and leaves the table alone |
| `ServiceProperties.UpdateUserNegativeId` | src/main/java/org/example/service/UserService.java:49-58 | `updateUser` of a negative id stops at the read, which reports it missing |
| `ServiceProperties.RemoveThenRead` | src/main/java/org/example/service/UserService.java:78-87 | after `removeUserById`, `readUser` of the id reports it missing |
| `ServiceProperties.NormalizeUpperCaseExample` | src/test/java/org/example/service/UserServiceTest.java:67-74 | "ASDF@mail.ru" normalises to "asdf@mail.ru" |
| `ServiceProperties.SaveUserNormalizesEmail` | src/test/java/org/example/service/UserServiceTest.java:67-74 | saving with "ASDF@mail.ru" returns the user with "asdf@mail.ru" |
| `ServiceProperties.SaveUserInvalidEmailNeverCreates` | src/test/java/org/example/service/UserServiceTest.java:60-65 | "exampleOfInvalidEmail", rejected by the validator once normalised, is refused with "Not valid email" and no `create` is called |
| `ServiceProperties.SaveUserWithoutEmail` | src/test/java/org/example/service/UserServiceTest.java:76-79 | an empty email is refused when the validator rejects it |
| `ServiceProperties.UpdateUserChangesProvidedFields` | src/test/java/org/example/service/UserServiceTest.java:81-95 | updating user 2 with every field given writes back exactly those fields under id 2 |

## Left out

- `Main`, `InputUtil` and `HibernateUtil` are the console front end and the session factory set-up. They are not part of this model.
- Logging (log4j) has no effect on results and is not modelled.
- Closing the session by try-with-resources is left out. A failure while closing is not modelled.
- The bean validator's rules for an email are a parameter, because the annotations on `User` are not part of this model. The scenario lemmas hold for any validator that gives the stated verdicts.
- Null `name` and `age`, and a `null` email argument to the service, are left out. The table model carries only the email's nullability, which the 23502 path needs.
- `create` of an object that already has an id is left out. `persist` of a detached object throws in the library, and the service never does this.
- `UserDao.Update`: `merge` of an id whose row is gone is modelled as a stale-row library failure. Older library versions insert a new row instead, and the version in use is not part of this model.
- `Ids.FreshId`: stands in for the identity sequence by taking one past the largest id in use. A real sequence never goes back, so after the top row is deleted the model hands out that id again where the database would give the next value; likewise the model restarts at 1 on any emptied table.
- `DaoProperties.FirstCreateGetsIdOne`: holds for the model on any empty table, whereas the database gives id 1 only on a fresh table or after `TRUNCATE … RESTART IDENTITY`, as the tests do.
- `Ids.Least`: which row `setMaxResults(1)` picks without an `ORDER BY` is up to the database. The least id is the model's choice, not a promise of the program, so `UserDao.DeleteByEmail` promises only "one matching row".
- A `null` id is left out: the library rejects it before any row is looked up.
- Letter case is folded only for ASCII letters. `toLowerCase` and PostgreSQL's `lower` depend on locale and Unicode tables, which are not modelled.
- Check constraints, column lengths, malformed values and connectivity loss are not computed from the data. Each reaches the model only as a driver failure with its SQL state.
- Flush timing inside a transaction is not modelled. A constraint violation is raised during the work, before the commit.
- Concurrency between sessions is not modelled: each call sees the table as the previous call left it.
