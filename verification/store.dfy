/**
 * The `users` table: rows keyed by id, with the two constraints the schema
 * declares on the email column (not null, unique on `lower(email)`).
 */
module Store {
  import opened Wrappers
  import opened Text

  /** One row: the `User` entity's persistent fields. `email` may be `null` in a `User` object. */
  datatype User = User(name: string, email: Option<string>, age: int)

  /** A `User` object together with its id, which stays `null` until it is persisted. */
  datatype Entity = Entity(id: Option<nat>, user: User)

  type Rows = map<nat, User>

  /** The query condition `lower(u.email) = :e`; a `null` email matches nothing. */
  predicate EmailMatches(u: User, key: string) {
    u.email.Some? && ToLower(u.email.value) == key
  }

  /** Ids of the rows matching `lower(u.email) = key`. */
  function Matching(rows: Rows, key: string): (ids: set<nat>)
    ensures forall id :: id in ids <==> id in rows && EmailMatches(rows[id], key)
  {
    set id | id in rows && EmailMatches(rows[id], key)
  }

  /** A row other than `except` already holds `key` in the unique index on `lower(email)`. */
  predicate KeyTaken(rows: Rows, key: string, except: Option<nat>) {
    exists id :: id in rows && Some(id) != except && EmailMatches(rows[id], key)
  }

  /** Both schema constraints hold: every email is present and no two rows share a lower-cased email. */
  ghost predicate WellFormed(rows: Rows) {
    && (forall id :: id in rows ==> rows[id].email.Some?)
    && (forall i, j :: i in rows && j in rows && i != j && rows[i].email.Some? ==>
          !EmailMatches(rows[j], ToLower(rows[i].email.value)))
  }

  /** In a well-formed table at most one row holds any key. */
  lemma WellFormedMatchesAtMostOne(rows: Rows, key: string)
    requires WellFormed(rows)
    ensures |Matching(rows, key)| <= 1
  {
    var m := Matching(rows, key);
    if m != {} {
      var i :| i in m;
      assert forall j :: j in m ==> j == i;
      assert m == {i};
    }
  }
}
