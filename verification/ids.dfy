/**
 * Identifier arithmetic over finite sets of ids: the least element (which row
 * a one-row query picks) and a fresh id (what the store's identity column
 * hands out next).
 */
module Ids {

  predicate IsLeast(m: nat, s: set<nat>) {
    m in s && forall x :: x in s ==> m <= x
  }

  predicate IsGreatest(m: nat, s: set<nat>) {
    m in s && forall x :: x in s ==> x <= m
  }

  lemma {:induction false} LeastExists(s: set<nat>)
    requires s != {}
    ensures exists m :: IsLeast(m, s)
    decreases |s|
  {
    var x :| x in s;
    if s - {x} != {} {
      LeastExists(s - {x});
      assert forall y :: y in s ==> y == x || y in s - {x};
      var m :| IsLeast(m, s - {x});
      if m < x {
        assert IsLeast(m, s);
      } else {
        assert IsLeast(x, s);
      }
    } else {
      assert s == {x};
      assert IsLeast(x, s);
    }
  }

  lemma {:induction false} GreatestExists(s: set<nat>)
    requires s != {}
    ensures exists m :: IsGreatest(m, s)
    decreases |s|
  {
    var x :| x in s;
    if s - {x} != {} {
      GreatestExists(s - {x});
      assert forall y :: y in s ==> y == x || y in s - {x};
      var m :| IsGreatest(m, s - {x});
      if m > x {
        assert IsGreatest(m, s);
      } else {
        assert IsGreatest(x, s);
      }
    } else {
      assert s == {x};
      assert IsGreatest(x, s);
    }
  }

  function Least(s: set<nat>): (m: nat)
    requires s != {}
    ensures IsLeast(m, s)
  {
    LeastExists(s);
    var m :| IsLeast(m, s);
    m
  }

  function Greatest(s: set<nat>): (m: nat)
    requires s != {}
    ensures IsGreatest(m, s)
  {
    GreatestExists(s);
    var m :| IsGreatest(m, s);
    m
  }

  /**
   * The model's stand-in for the identity column's next value when the
   * table holds `used`: one past the largest, starting at 1. Unlike a
   * sequence it does not remember ids freed by deletes.
   */
  function FreshId(used: set<nat>): (id: nat)
    ensures id !in used
    ensures 1 <= id
    ensures forall x :: x in used ==> x < id
    ensures used == {} ==> id == 1
  {
    if used == {} then 1 else Greatest(used) + 1
  }
}
