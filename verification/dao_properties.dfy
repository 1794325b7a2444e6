/**
 * Properties relating several gateway calls: round trips through the table,
 * the schema constraints every write preserves, and the rollback that never
 * decides an outcome.
 */
module DaoProperties {
  import opened Wrappers
  import opened Text
  import opened Errors
  import opened Transactions
  import opened Store
  import opened UserDao

  /** A failing clean-up rollback changes only the final status, never the result or the table. */
  lemma RollbackFailureIsSwallowed<T>(rows: Rows, failure: Option<Failure>, body: Body<T>)
    ensures var quiet := Run(rows, Driver(failure, false), body);
            var loud := Run(rows, Driver(failure, true), body);
            && loud.result == quiet.result
            && loud.rows == quiet.rows
            && (loud.tx == quiet.tx || (loud.tx == Tx(FailedRollback) && quiet.tx == Tx(RolledBack)))
  {
  }

  /** What `create` stored, `read` returns: same name, email and age under the new id. */
  lemma CreateThenRead(rows: Rows, u: User, drv: Driver)
    requires Create(rows, u, drv).result.Ok?
    ensures var saved := Create(rows, u, drv).result.value;
            Read(Create(rows, u, drv).rows, saved.id.value, Healthy).result == Ok(Entity(saved.id, u))
  {
  }

  /** A second user whose email differs only in letter case hits the unique index. */
  lemma CreateSameEmailIgnoringCase(rows: Rows, first: User, second: User, d1: Driver, d2: Driver)
    requires Create(rows, first, d1).result.Ok?
    requires second.email.Some?
    requires EqualIgnoringCase(first.email.value, second.email.value)
    requires ReachesWork(d2)
    ensures Create(Create(rows, first, d1).rows, second, d2).result == Err(IllegalState(EmailAlreadyUsed, None))
  {
    var o := Create(rows, first, d1);
    var id := o.result.value.id.value;
    ToLowerSameIffEqualIgnoringCase(first.email.value, second.email.value);
    assert EmailMatches(o.rows[id], ToLower(second.email.value));
    assert KeyTaken(o.rows, ToLower(second.email.value), None);
  }

  /** After `update`, `read` of that id returns every field of the written object. */
  lemma UpdateThenRead(rows: Rows, e: Entity, drv: Driver)
    requires e.id.Some?
    requires Update(rows, e, drv).result.Ok?
    ensures Read(Update(rows, e, drv).rows, e.id.value, Healthy).result == Ok(e)
  {
  }

  /** After `deleteById`, that id is gone for `read` and every other id reads as before. */
  lemma DeleteThenRead(rows: Rows, id: int, drv: Driver, other: int)
    requires DeleteById(rows, id, drv).result.Ok?
    requires other != id
    ensures Read(DeleteById(rows, id, drv).rows, id, Healthy).result == Err(IllegalArgument(ReadMissingMessage))
    ensures Read(DeleteById(rows, id, drv).rows, other, Healthy).result == Read(rows, other, Healthy).result
  {
  }

  /** No row has a negative id: `read` and `deleteById` report one as missing, the latter naming it. */
  lemma NegativeIdIsMissing(rows: Rows, id: int, drv: Driver)
    requires id < 0 && drv.failure.None?
    ensures Read(rows, id, drv).result == Err(IllegalArgument(ReadMissingMessage))
    ensures DeleteById(rows, id, drv) == Outcome(Err(IllegalArgument(DeleteMissingMessage(id))), rows, Tx(Committed))
  {
  }

  /** The message for the id -5 keeps the sign. */
  lemma DeleteMissingMessageNegativeExample()
    ensures DeleteMissingMessage(-5) == "User with id={-5} is not existed"
  {
  }

  /** The id inside the `deleteById` message reads back as the requested id, its sign included. */
  lemma DeleteMissingMessageNamesId(id: int)
    ensures var msg := DeleteMissingMessage(id);
            var numeral := msg[14..|msg| - 16];
            && IsNumeral(numeral)
            && ParseInt(numeral) == id
  {
    var msg := DeleteMissingMessage(id);
    assert msg[14..|msg| - 16] == IntToString(id);
    ParseIntToString(id);
  }

  lemma CreatePreservesWellFormed(rows: Rows, u: User, drv: Driver)
    requires WellFormed(rows)
    ensures WellFormed(Create(rows, u, drv).rows)
  {
  }

  lemma UpdatePreservesWellFormed(rows: Rows, e: Entity, drv: Driver)
    requires WellFormed(rows)
    ensures WellFormed(Update(rows, e, drv).rows)
  {
    var o := Update(rows, e, drv);
    if o.result.Ok? && e.id.None? {
      var k: nat :| k !in rows && o.rows == rows[k := e.user];
    }
  }

  lemma DeleteByIdPreservesWellFormed(rows: Rows, id: int, drv: Driver)
    requires WellFormed(rows)
    ensures WellFormed(DeleteById(rows, id, drv).rows)
  {
  }

  lemma DeleteByEmailPreservesWellFormed(rows: Rows, email: string, drv: Driver)
    requires WellFormed(rows)
    ensures WellFormed(DeleteByEmail(rows, email, drv).rows)
  {
  }

  /** In a well-formed table, a successful `deleteByEmail` leaves no row with that email. */
  lemma DeleteByEmailRemovesTheMatch(rows: Rows, email: string, drv: Driver)
    requires WellFormed(rows)
    requires Matching(rows, email) != {}
    requires drv.failure.None?
    ensures Matching(DeleteByEmail(rows, email, drv).rows, email) == {}
  {
    var o := DeleteByEmail(rows, email, drv);
    WellFormedMatchesAtMostOne(rows, email);
    var gone :| gone in rows && gone !in o.rows;
    forall k | k in o.rows ensures !EmailMatches(o.rows[k], email) {
      assert Matching(rows, email) == {gone};
    }
  }

  /**
   * `deleteByEmail` compares the lower-cased column with the argument as
   * given, so an argument holding an upper-case letter never matches.
   */
  lemma DeleteByEmailUpperCaseMisses(rows: Rows, email: string, drv: Driver, i: nat)
    requires i < |email| && IsUpper(email[i])
    ensures DeleteByEmail(rows, email, drv).rows == rows
    ensures DeleteByEmail(rows, email, drv).tx != Tx(Committed)
  {
    forall k | k in rows ensures !EmailMatches(rows[k], email) {
      if rows[k].email.Some? {
        var lowered := ToLower(rows[k].email.value);
        assert i < |lowered| ==> !IsUpper(lowered[i]);
      }
    }
    assert Matching(rows, email) == {};
  }

  /** Once a user is created, its email is no longer unique, in any case or padding. */
  lemma MailUniqueCheckAfterCreate(rows: Rows, u: User, drv: Driver, email: string)
    requires Create(rows, u, drv).result.Ok?
    requires Normalize(email) == ToLower(u.email.value)
    ensures MailUniqueCheck(Create(rows, u, drv).rows, email, Healthy).result == Ok(false)
  {
    var o := Create(rows, u, drv);
    assert EmailMatches(o.rows[o.result.value.id.value], Normalize(email));
  }

  /** On an empty table, as after `TRUNCATE … RESTART IDENTITY`, the first user gets id 1. */
  lemma FirstCreateGetsIdOne(u: User)
    requires u.email.Some?
    ensures Create(map[], u, Healthy).result == Ok(Entity(Some(1), u))
  {
  }
}
