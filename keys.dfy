/**
 * Least and greatest element of a finite set of row ids.
 * The store uses them for `.first()` (which orders by primary key) and for `order_by('-id')`.
 */
module Keys {

  /** `k` is the smallest element of `s`. */
  predicate IsLeast(k: nat, s: set<nat>)
  {
    k in s && forall j :: j in s ==> k <= j
  }

  /** `k` is the largest element of `s`. */
  predicate IsGreatest(k: nat, s: set<nat>)
  {
    k in s && forall j :: j in s ==> j <= k
  }

  lemma {:induction false} LeastExists(s: set<nat>)
    requires s != {}
    ensures exists k :: IsLeast(k, s)
  {
    var x :| x in s;
    if s != {x} {
      LeastExists(s - {x});
      var m :| IsLeast(m, s - {x});
      var least := if x < m then x else m;
      forall j | j in s
        ensures least <= j
      {
        if j != x { assert j in s - {x}; }
      }
      assert IsLeast(least, s);
    } else {
      assert IsLeast(x, s);
    }
  }

  lemma {:induction false} GreatestExists(s: set<nat>)
    requires s != {}
    ensures exists k :: IsGreatest(k, s)
  {
    var x :| x in s;
    if s != {x} {
      GreatestExists(s - {x});
      var m :| IsGreatest(m, s - {x});
      var greatest := if m < x then x else m;
      forall j | j in s
        ensures j <= greatest
      {
        if j != x { assert j in s - {x}; }
      }
      assert IsGreatest(greatest, s);
    } else {
      assert IsGreatest(x, s);
    }
  }

  /** The smallest id in `s`. */
  function MinKey(s: set<nat>): (k: nat)
    requires s != {}
    ensures k in s
    ensures forall j :: j in s ==> k <= j
  {
    LeastExists(s);
    var k :| IsLeast(k, s);
    k
  }

  /** The largest id in `s`. */
  function MaxKey(s: set<nat>): (k: nat)
    requires s != {}
    ensures k in s
    ensures forall j :: j in s ==> j <= k
  {
    GreatestExists(s);
    var k :| IsGreatest(k, s);
    k
  }
}
