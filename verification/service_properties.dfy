/**
 * What the service promises its callers, call by call: which inputs are
 * rejected before the database is touched, which failures are wrapped, the
 * order of the gateway calls, and the round trips through the table.
 */
module ServiceProperties {
  import opened Wrappers
  import opened Text
  import opened Errors
  import opened Transactions
  import opened Store
  import opened UserDao
  import opened UserService
  import DaoProperties

  /** An email the validator rejects is refused before any gateway call. */
  lemma MailValidAndUniqueRejectsInvalid(rows: Rows, email: string, valid: Validator, check: Driver)
    requires !valid(Normalize(email))
    ensures MailValidAndUnique(rows, email, valid, check) == Reply(Err(IllegalArgument(NotValidEmail)), rows, [])
  {
    NormalizeIdempotent(email);
  }

  /**
   * A valid email costs exactly one uniqueness check, of the normalised
   * value; a taken email is reported with the argument as given, and a
   * failing check surfaces as the gateway classified it.
   */
  lemma MailValidAndUniqueChecksOnce(rows: Rows, email: string, valid: Validator, check: Driver)
    requires valid(Normalize(email))
    ensures var r := MailValidAndUnique(rows, email, valid, check);
            && |r.calls| == 1
            && r.calls[0].op == CheckCall(Normalize(email))
            && (check.failure.Some? ==> r.result == Err(Catch(check.failure.value.fault)))
            && (check.failure.None? && KeyTaken(rows, Normalize(email), None) ==>
                  r.result == Err(IllegalArgument(AlreadyCreatedMessage(email))))
  {
    NormalizeIdempotent(email);
  }

  /** `saveUser` succeeds exactly when the email is valid and free and neither transaction fails. */
  lemma SaveUserSucceedsIff(rows: Rows, name: string, email: string, age: int, valid: Validator,
                            check: Driver, write: Driver)
    ensures SaveUser(rows, name, email, age, valid, check, write).result.Ok? <==>
              && valid(Normalize(email))
              && check.failure.None?
              && write.failure.None?
              && !KeyTaken(rows, Normalize(email), None)
  {
    NormalizeIdempotent(email);
    NormalizeIsLowerCase(email);
  }

  /** An invalid email: rejected, nothing asked of the gateway. */
  lemma SaveUserRejectsInvalid(rows: Rows, name: string, email: string, age: int, valid: Validator,
                               check: Driver, write: Driver)
    requires !valid(Normalize(email))
    ensures SaveUser(rows, name, email, age, valid, check, write) ==
              Reply(Err(IllegalArgument(NotValidEmail)), rows, [])
  {
    NormalizeIdempotent(email);
  }

  /**
   * A taken email: the pre-check refuses it, quoting the normalised email,
   * and `create` is never called.
   */
  lemma SaveUserRejectsTaken(rows: Rows, name: string, email: string, age: int, valid: Validator,
                             check: Driver, write: Driver)
    requires valid(Normalize(email)) && check.failure.None?
    requires KeyTaken(rows, Normalize(email), None)
    ensures var r := SaveUser(rows, name, email, age, valid, check, write);
            && r.result == Err(IllegalArgument(AlreadyCreatedMessage(Normalize(email))))
            && r.rows == rows
            && |r.calls| == 1 && r.calls[0].op == CheckCall(Normalize(email))
  {
    NormalizeIdempotent(email);
    MailValidAndUniqueChecksOnce(rows, Normalize(email), valid, check);
  }

  /**
   * A database failure in the pre-check of `saveUser` goes through
   * `Rethrow`: a raw one is wrapped as "Database error while creating user",
   * one the gateway classified passes unchanged. `create` is never called.
   */
  lemma SaveUserWrapsCheckFailure(rows: Rows, name: string, email: string, age: int, valid: Validator,
                                  check: Driver, write: Driver)
    requires valid(Normalize(email)) && check.failure.Some?
    ensures var r := SaveUser(rows, name, email, age, valid, check, write);
            && r.result == Err(Rethrow("creating", Catch(check.failure.value.fault)))
            && r.rows == rows
            && |r.calls| == 1
  {
    NormalizeIdempotent(email);
    MailValidAndUniqueChecksOnce(rows, Normalize(email), valid, check);
  }

  /** A database failure in `create` goes through `Rethrow` the same way. */
  lemma SaveUserWrapsCreateFailure(rows: Rows, name: string, email: string, age: int, valid: Validator,
                                   check: Driver, write: Driver)
    requires valid(Normalize(email)) && check.failure.None? && !KeyTaken(rows, Normalize(email), None)
    requires write.failure.Some?
    ensures SaveUser(rows, name, email, age, valid, check, write).result ==
              Err(Rethrow("creating", Catch(write.failure.value.fault)))
  {
    NormalizeIdempotent(email);
    NormalizeIsLowerCase(email);
  }

  /** A passed pre-check is followed by exactly one `create`, of the user with the normalised email. */
  lemma SaveUserCalls(rows: Rows, name: string, email: string, age: int, valid: Validator,
                      check: Driver, write: Driver)
    requires valid(Normalize(email)) && check.failure.None? && !KeyTaken(rows, Normalize(email), None)
    ensures var r := SaveUser(rows, name, email, age, valid, check, write);
            && |r.calls| == 2
            && r.calls[0].op == CheckCall(Normalize(email))
            && r.calls[1].op == CreateCall(User(name, Some(Normalize(email)), age))
  {
    NormalizeIdempotent(email);
    var n := Normalize(email);
    MailValidAndUniqueChecksOnce(rows, n, valid, check);
    var pre := MailValidAndUnique(rows, n, valid, check);
    assert pre.result.Ok?;
    var user := User(name, Some(n), age);
    assert SaveUser(rows, name, email, age, valid, check, write).calls ==
           pre.calls + [Call(CreateCall(user), Create(rows, user, write).tx)];
  }

  /** What `saveUser` returned, `readUser` returns. */
  lemma SaveThenRead(rows: Rows, name: string, email: string, age: int, valid: Validator,
                     check: Driver, write: Driver)
    requires SaveUser(rows, name, email, age, valid, check, write).result.Ok?
    ensures var r := SaveUser(rows, name, email, age, valid, check, write);
            var saved := r.result.value;
            ReadUser(r.rows, saved.id.value, Healthy).result == Ok(saved)
  {
  }

  /**
   * Saving a second user whose email normalises to the same value is
   * refused by the pre-check, whatever the letter case and padding.
   */
  lemma SaveTwiceSameNormalizedEmail(rows: Rows, n1: string, e1: string, a1: int, n2: string, e2: string, a2: int,
                                     valid: Validator, c1: Driver, w1: Driver, c2: Driver, w2: Driver)
    requires SaveUser(rows, n1, e1, a1, valid, c1, w1).result.Ok?
    requires Normalize(e2) == Normalize(e1)
    requires c2.failure.None?
    ensures SaveUser(SaveUser(rows, n1, e1, a1, valid, c1, w1).rows, n2, e2, a2, valid, c2, w2).result ==
              Err(IllegalArgument(AlreadyCreatedMessage(Normalize(e2))))
  {
    var first := SaveUser(rows, n1, e1, a1, valid, c1, w1);
    var id := first.result.value.id.value;
    SaveUserSucceedsIff(rows, n1, e1, a1, valid, c1, w1);
    NormalizeIsLowerCase(e1);
    assert EmailMatches(first.rows[id], Normalize(e2));
    SaveUserRejectsTaken(first.rows, n2, e2, a2, valid, c2, w2);
  }

  /** A missing id: `updateUser` reports it as `read` did and calls nothing else. */
  lemma UpdateUserMissing(rows: Rows, id: int, name: Option<string>, email: Option<string>, age: Option<int>,
                          valid: Validator, read: Driver, check: Driver, write: Driver)
    requires id !in rows && read.failure.None?
    ensures var r := UpdateUser(rows, id, name, email, age, valid, read, check, write);
            && r.result == Err(IllegalArgument(ReadMissingMessage))
            && r.rows == rows
            && |r.calls| == 1
  {
  }

  /**
   * A failing `read` ends the call: a raw failure is wrapped as "Database
   * error while updating user", a classified one passes unchanged.
   */
  lemma UpdateUserReadFailure(rows: Rows, id: int, name: Option<string>, email: Option<string>, age: Option<int>,
                              valid: Validator, read: Driver, check: Driver, write: Driver)
    requires read.failure.Some?
    ensures var r := UpdateUser(rows, id, name, email, age, valid, read, check, write);
            && r.result == Err(Rethrow("updating", Catch(read.failure.value.fault)))
            && r.rows == rows
            && |r.calls| == 1
  {
  }

  /** A new email the validator rejects ends the update after the read: nothing is checked or written. */
  lemma UpdateUserRejectsInvalid(rows: Rows, id: int, name: Option<string>, email: string, age: Option<int>,
                                 valid: Validator, read: Driver, check: Driver, write: Driver)
    requires id in rows && read.failure.None?
    requires !valid(Normalize(email))
    ensures var r := UpdateUser(rows, id, name, Some(email), age, valid, read, check, write);
            && r.result == Err(IllegalArgument(NotValidEmail))
            && r.rows == rows
            && |r.calls| == 1
  {
    NormalizeIdempotent(email);
  }

  /**
   * The pre-check of a new email runs outside both `try` blocks: a database
   * failure there reaches the caller as the gateway classified it, raw
   * exceptions included, and not as "Database error while updating user".
   */
  lemma UpdateUserCheckFailureNotWrapped(rows: Rows, id: int, name: Option<string>, email: string, age: Option<int>,
                                         valid: Validator, read: Driver, check: Driver, write: Driver)
    requires id in rows && read.failure.None?
    requires valid(Normalize(email)) && check.failure.Some?
    ensures var r := UpdateUser(rows, id, name, Some(email), age, valid, read, check, write);
            && r.result == Err(Catch(check.failure.value.fault))
            && |r.calls| == 2
            && r.calls[1].op == CheckCall(Normalize(email))
  {
    NormalizeIdempotent(email);
    MailValidAndUniqueChecksOnce(rows, Normalize(email), valid, check);
  }

  /**
   * The pre-check does not exclude the user's own row, so "changing" the
   * email to the one already stored, in any case or padding, is refused.
   */
  lemma UpdateOwnEmailFails(rows: Rows, id: int, name: Option<string>, email: string, age: Option<int>,
                            valid: Validator, read: Driver, check: Driver, write: Driver)
    requires id in rows && read.failure.None?
    requires valid(Normalize(email)) && check.failure.None?
    requires EmailMatches(rows[id], Normalize(email))
    ensures var r := UpdateUser(rows, id, name, Some(email), age, valid, read, check, write);
            && r.result == Err(IllegalArgument(AlreadyCreatedMessage(Normalize(email))))
            && r.rows == rows
            && |r.calls| == 2
  {
    NormalizeIdempotent(email);
    MailValidAndUniqueChecksOnce(rows, Normalize(email), valid, check);
  }

  /**
   * With a free, valid new email the user is written back once, after the
   * read and the pre-check, and the write succeeds unless its transaction fails.
   */
  lemma UpdateUserWithNewEmail(rows: Rows, id: int, name: Option<string>, email: string, age: Option<int>,
                               valid: Validator, read: Driver, check: Driver, write: Driver)
    requires id in rows && read.failure.None?
    requires valid(Normalize(email)) && check.failure.None? && !KeyTaken(rows, Normalize(email), None)
    ensures var r := UpdateUser(rows, id, name, Some(email), age, valid, read, check, write);
            && |r.calls| == 3
            && r.calls[1].op == CheckCall(Normalize(email))
            && r.calls[2].op == UpdateCall(Entity(Some(id), Merge(rows[id], name, Some(Normalize(email)), age)))
            && (r.result.Ok? <==> write.failure.None?)
            && (write.failure.Some? ==> r.result == Err(Rethrow("updating", Catch(write.failure.value.fault))))
  {
    NormalizeIdempotent(email);
    NormalizeIsLowerCase(email);
    MailValidAndUniqueChecksOnce(rows, Normalize(email), valid, check);
  }

  /**
   * Without a new email no pre-check is made; in a table that satisfies the
   * schema the write-back then succeeds unless its transaction fails.
   */
  lemma UpdateUserWithoutEmail(rows: Rows, id: int, name: Option<string>, age: Option<int>,
                               valid: Validator, read: Driver, check: Driver, write: Driver)
    requires WellFormed(rows)
    requires id in rows && read.failure.None?
    ensures var r := UpdateUser(rows, id, name, None, age, valid, read, check, write);
            && |r.calls| == 2
            && r.calls[1].op == UpdateCall(Entity(Some(id), Merge(rows[id], name, None, age)))
            && (r.result.Ok? <==> write.failure.None?)
  {
    var m := Merge(rows[id], name, None, age);
    assert !KeyTaken(rows, ToLower(m.email.value), Some(id));
  }

  /** An update that changes nothing writes back the stored row: the table is unchanged. */
  lemma UpdateWithNothingIsRead(rows: Rows, id: int, valid: Validator, check: Driver)
    requires WellFormed(rows)
    requires id in rows
    ensures var r := UpdateUser(rows, id, None, None, None, valid, Healthy, check, Healthy);
            && r.result == ReadUser(rows, id, Healthy).result
            && r.rows == rows
  {
    UpdateUserWithoutEmail(rows, id, None, None, valid, Healthy, check, Healthy);
  }

  /** After a successful `updateUser`, `readUser` returns the merged user. */
  lemma UpdateThenReadUser(rows: Rows, id: int, name: Option<string>, email: Option<string>, age: Option<int>,
                           valid: Validator, read: Driver, check: Driver, write: Driver)
    requires UpdateUser(rows, id, name, email, age, valid, read, check, write).result.Ok?
    ensures var r := UpdateUser(rows, id, name, email, age, valid, read, check, write);
            ReadUser(r.rows, id, Healthy).result == r.result
  {
  }

  /** An invalid email: `removeUserByEmail` refuses it and leaves the table alone. */
  lemma RemoveUserByEmailRejectsInvalid(rows: Rows, email: string, valid: Validator, drv: Driver)
    requires !valid(Normalize(email))
    ensures RemoveUserByEmail(rows, email, valid, drv) == Reply(Err(IllegalArgument(NotValidEmail)), rows, [])
  {
    NormalizeIdempotent(email);
  }

  /**
   * The service normalises before deleting, so in a well-formed table the
   * user stored under that email is gone afterwards, whatever the letter
   * case and padding of the argument.
   */
  lemma RemoveUserByEmailRemovesTheUser(rows: Rows, email: string, valid: Validator)
    requires WellFormed(rows)
    requires valid(Normalize(email))
    ensures var r := RemoveUserByEmail(rows, email, valid, Healthy);
            && r.result == Ok(())
            && Matching(r.rows, Normalize(email)) == {}
            && |r.calls| == 1
            && r.calls[0].op == DeleteByEmailCall(Normalize(email))
  {
    NormalizeIdempotent(email);
    var n := Normalize(email);
    if Matching(rows, n) != {} {
      DaoProperties.DeleteByEmailRemovesTheMatch(rows, n, Healthy);
    }
  }

  /**
   * A failing `deleteByEmail` transaction reaches the caller through
   * `Rethrow("deleting", …)` when a row matches or the failure comes before
   * the work; the table is left alone.
   */
  lemma RemoveUserByEmailWrapsDbFailure(rows: Rows, email: string, valid: Validator, drv: Driver)
    requires valid(Normalize(email)) && drv.failure.Some?
    requires Matching(rows, Normalize(email)) != {} || !ReachesWork(drv)
    ensures RemoveUserByEmail(rows, email, valid, drv).result ==
              Err(Rethrow("deleting", Catch(drv.failure.value.fault)))
    ensures RemoveUserByEmail(rows, email, valid, drv).rows == rows
  {
    NormalizeIdempotent(email);
  }

  /** With no matching row nothing is committed, so a failure at commit goes unnoticed. */
  lemma RemoveUserByEmailMissIgnoresCommitFailure(rows: Rows, email: string, valid: Validator, drv: Driver)
    requires valid(Normalize(email))
    requires Matching(rows, Normalize(email)) == {}
    requires FailsAt(drv, AtCommit)
    ensures RemoveUserByEmail(rows, email, valid, drv).result == Ok(())
    ensures RemoveUserByEmail(rows, email, valid, drv).rows == rows
  {
    NormalizeIdempotent(email);
  }

  /**
   * A failure the gateway classified is not wrapped: a unique violation in
   * `create` reaches the caller as "That email is already used".
   */
  lemma SaveUserKeepsClassifiedFailure(rows: Rows, name: string, email: string, age: int, valid: Validator,
                                       check: Driver, stage: Stage, rollbackFails: bool)
    requires valid(Normalize(email)) && check.failure.None? && !KeyTaken(rows, Normalize(email), None)
    ensures var write := Driver(Some(Failure(ConstraintViolation(Some(UniqueViolation)), stage)), rollbackFails);
            SaveUser(rows, name, email, age, valid, check, write).result ==
              Err(IllegalState(EmailAlreadyUsed, None))
  {
    var write := Driver(Some(Failure(ConstraintViolation(Some(UniqueViolation)), stage)), rollbackFails);
    SaveUserWrapsCreateFailure(rows, name, email, age, valid, check, write);
  }

  /** A negative id names no user: `readUser` and `removeUserById` report it missing, the latter with its sign. */
  lemma NegativeIdIsMissingForService(rows: Rows, id: int, drv: Driver)
    requires id < 0 && drv.failure.None?
    ensures ReadUser(rows, id, drv).result == Err(IllegalArgument(ReadMissingMessage))
    ensures RemoveUserById(rows, id, drv).result == Err(IllegalArgument(DeleteMissingMessage(id)))
    ensures RemoveUserById(rows, id, drv).rows == rows
  {
  }

  /** `updateUser` of a negative id stops at the read, which reports it missing. */
  lemma UpdateUserNegativeId(rows: Rows, id: int, name: Option<string>, email: Option<string>, age: Option<int>,
                             valid: Validator, check: Driver, write: Driver)
    requires id < 0
    ensures var r := UpdateUser(rows, id, name, email, age, valid, Healthy, check, write);
            && r.result == Err(IllegalArgument(ReadMissingMessage))
            && r.rows == rows
            && |r.calls| == 1
  {
    UpdateUserMissing(rows, id, name, email, age, valid, Healthy, check, write);
  }

  /** After `removeUserById`, `readUser` of that id reports it missing. */
  lemma RemoveThenRead(rows: Rows, id: int, drv: Driver)
    requires RemoveUserById(rows, id, drv).result.Ok?
    ensures ReadUser(RemoveUserById(rows, id, drv).rows, id, Healthy).result == Err(IllegalArgument(ReadMissingMessage))
  {
  }

  /** The email of the service's scenarios is already normalised. */
  lemma NormalizeLowerCaseExample()
    ensures Normalize("asdf@mail.ru") == "asdf@mail.ru"
  {
    NormalizeFixesNormalForm("asdf@mail.ru");
  }

  /** Its upper-case spelling normalises to it. */
  lemma NormalizeUpperCaseExample()
    ensures Normalize("ASDF@mail.ru") == "asdf@mail.ru"
  {
    var upper := "ASDF@mail.ru";
    assert IsTrimRange(upper, 0, |upper|);
    TrimOfRange(upper, 0, |upper|);
    assert upper[0..|upper|] == upper;
    assert ToLower(upper) == "asdf@mail.ru";
  }

  /** Saving with an upper-case email stores and returns the lower-cased one. */
  lemma SaveUserNormalizesEmail(rows: Rows, valid: Validator)
    requires valid("asdf@mail.ru")
    requires !KeyTaken(rows, "asdf@mail.ru", None)
    ensures var r := SaveUser(rows, "name", "ASDF@mail.ru", 12, valid, Healthy, Healthy);
            && r.result.Ok?
            && r.result.value.user == User("name", Some("asdf@mail.ru"), 12)
  {
    NormalizeUpperCaseExample();
    NormalizeLowerCaseExample();
    SaveUserSucceedsIff(rows, "name", "ASDF@mail.ru", 12, valid, Healthy, Healthy);
  }

  /** An empty email never reaches the gateway when the validator rejects it. */
  lemma SaveUserWithoutEmail(rows: Rows, valid: Validator, check: Driver, write: Driver)
    requires !valid("")
    ensures SaveUser(rows, "name", "", 12, valid, check, write) == Reply(Err(IllegalArgument(NotValidEmail)), rows, [])
  {
    SaveUserRejectsInvalid(rows, "name", "", 12, valid, check, write);
  }

  /** Updating user 2 with every field given writes back exactly those fields under id 2. */
  lemma UpdateUserChangesProvidedFields(rows: Rows, valid: Validator)
    requires rows == map[2 := User("Old", Some("old@ex.com"), 25)]
    requires valid("new@ex.com")
    ensures var r := UpdateUser(rows, 2, Some("New"), Some("new@ex.com"), Some(26), valid, Healthy, Healthy, Healthy);
            && |r.calls| == 3
            && r.calls[2].op == UpdateCall(Entity(Some(2), User("New", Some("new@ex.com"), 26)))
            && r.result == Ok(Entity(Some(2), User("New", Some("new@ex.com"), 26)))
  {
    NormalizeFixesNormalForm("new@ex.com");
    assert !EmailMatches(rows[2], "new@ex.com");
    assert !KeyTaken(rows, "new@ex.com", None);
    UpdateUserWithNewEmail(rows, 2, Some("New"), "new@ex.com", Some(26), valid, Healthy, Healthy, Healthy);
  }

  /** A mixed-case email without an at sign normalises to its lower-case spelling. */
  lemma NormalizeInvalidExample()
    ensures Normalize("exampleOfInvalidEmail") == "exampleofinvalidemail"
  {
    var given := "exampleOfInvalidEmail";
    assert IsTrimRange(given, 0, |given|);
    TrimOfRange(given, 0, |given|);
    assert given[0..|given|] == given;
    assert ToLower(given) == "exampleofinvalidemail";
  }

  /** An email the validator rejects never reaches `create`. */
  lemma SaveUserInvalidEmailNeverCreates(rows: Rows, valid: Validator, check: Driver, write: Driver)
    requires !valid("exampleofinvalidemail")
    ensures var r := SaveUser(rows, "name", "exampleOfInvalidEmail", 12, valid, check, write);
            && r.result == Err(IllegalArgument(NotValidEmail))
            && r.rows == rows
            && forall j :: 0 <= j < |r.calls| ==> !r.calls[j].op.CreateCall?
  {
    NormalizeInvalidExample();
    SaveUserRejectsInvalid(rows, "name", "exampleOfInvalidEmail", 12, valid, check, write);
  }
}
