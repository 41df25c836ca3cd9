/** Chains of links: a partial function whose iteration may end or run forever. */
module Chains {

  /** Following links from `x` meets an element without one within `n` steps. */
  ghost predicate EndsWithin<T>(m: map<T, T>, x: T, n: nat) {
    x !in m || (n > 0 && EndsWithin(m, m[x], n - 1))
  }

  ghost predicate Ends<T>(m: map<T, T>, x: T) {
    exists n: nat :: EndsWithin(m, x, n)
  }

  ghost predicate AllEnd<T(!new)>(m: map<T, T>) {
    forall x :: Ends(m, x)
  }

  /** Following `n` links from `x` leads to `y`. */
  ghost predicate Leads<T>(m: map<T, T>, x: T, y: T, n: nat) {
    if n == 0 then x == y else x in m && Leads(m, m[x], y, n - 1)
  }

  ghost predicate Reaches<T>(m: map<T, T>, x: T, y: T) {
    exists n: nat :: Leads(m, x, y, n)
  }

  lemma {:induction false} LeadsEnds<T>(m: map<T, T>, x: T, y: T, n: nat, k: nat)
    requires Leads(m, x, y, n) && EndsWithin(m, x, k)
    ensures n <= k && EndsWithin(m, y, k - n)
    decreases n
  {
    if n > 0 {
      LeadsEnds(m, m[x], y, n - 1, k - 1);
    }
  }

  /** A cycle never ends. */
  lemma {:induction false} CycleRuns<T>(m: map<T, T>, x: T, n: nat, k: nat)
    requires n > 0 && Leads(m, x, x, n)
    ensures !EndsWithin(m, x, k)
    decreases k
  {
    if EndsWithin(m, x, k) {
      LeadsEnds(m, x, x, n, k);
      CycleRuns(m, x, n, k - n);
    }
  }

  lemma {:induction false} LeadsUpdated<T>(m: map<T, T>, id: T, s: T, x: T, n: nat)
    requires Leads(m - {id}, x, id, n)
    ensures Leads(m[id := s], x, id, n)
    decreases n
  {
    if n > 0 {
      LeadsUpdated(m, id, s, (m - {id})[x], n - 1);
    }
  }

  /** A chain that ends without the changed element is not affected by the change. */
  lemma {:induction false} EndsAside<T>(m: map<T, T>, id: T, s: T, x: T, n: nat)
    requires EndsWithin(m, x, n) && !Reaches(m - {id}, x, id)
    ensures EndsWithin(m[id := s], x, n)
    decreases n
  {
    assert Leads(m - {id}, x, x, 0);
    assert x != id;
    if x in m {
      var y := m[x];
      if Reaches(m - {id}, y, id) {
        var k: nat :| Leads(m - {id}, y, id, k);
        assert Leads(m - {id}, x, id, k + 1);
      }
      EndsAside(m, id, s, y, n - 1);
    }
  }

  lemma {:induction false} EndsThrough<T>(m: map<T, T>, id: T, s: T, x: T, n: nat, k: nat)
    requires EndsWithin(m, x, n) && EndsWithin(m[id := s], id, k)
    ensures EndsWithin(m[id := s], x, n + k)
    decreases n
  {
    if x == id {
      EndsMore(m[id := s], id, k, n + k);
    } else if x in m {
      EndsThrough(m, id, s, m[x], n - 1, k);
    }
  }

  lemma {:induction false} EndsMore<T>(m: map<T, T>, x: T, n: nat, k: nat)
    requires EndsWithin(m, x, n) && n <= k
    ensures EndsWithin(m, x, k)
    decreases n
  {
    if x in m {
      EndsMore(m, m[x], n - 1, k - 1);
    }
  }

  /** Giving `id` the link `s` keeps all chains finite exactly when `s` does not lead back to `id`. */
  lemma UpdateEnds<T(!new)>(m: map<T, T>, id: T, s: T)
    requires AllEnd(m)
    ensures AllEnd(m[id := s]) <==> !Reaches(m - {id}, s, id)
  {
    var m' := m[id := s];
    if Reaches(m - {id}, s, id) {
      var n: nat :| Leads(m - {id}, s, id, n);
      LeadsUpdated(m, id, s, s, n);
      assert Leads(m', id, id, n + 1);
      forall k: nat
        ensures !EndsWithin(m', id, k)
      {
        CycleRuns(m', id, n + 1, k);
      }
      assert !Ends(m', id);
    } else {
      assert Ends(m, s);
      var k: nat :| EndsWithin(m, s, k);
      EndsAside(m, id, s, s, k);
      assert EndsWithin(m', id, k + 1);
      forall x
        ensures Ends(m', x)
      {
        assert Ends(m, x);
        var n: nat :| EndsWithin(m, x, n);
        EndsThrough(m, id, s, x, n, k + 1);
      }
    }
  }

  /** What an element links to does not matter for reaching it. */
  lemma ReachesWithout<T>(m: map<T, T>, x: T, id: T)
    ensures Reaches(m, x, id) <==> Reaches(m - {id}, x, id)
  {
    if Reaches(m, x, id) {
      var n: nat :| Leads(m, x, id, n);
      LeadsFirst(m, x, id, n);
    }
    if Reaches(m - {id}, x, id) {
      var n: nat :| Leads(m - {id}, x, id, n);
      LeadsMore(m, x, id, n);
    }
  }

  lemma {:induction false} LeadsFirst<T>(m: map<T, T>, x: T, id: T, n: nat)
    requires Leads(m, x, id, n)
    ensures Reaches(m - {id}, x, id)
    decreases n
  {
    if x == id {
      assert Leads(m - {id}, x, id, 0);
    } else {
      LeadsFirst(m, m[x], id, n - 1);
      var k: nat :| Leads(m - {id}, m[x], id, k);
      assert Leads(m - {id}, x, id, k + 1);
    }
  }

  lemma {:induction false} LeadsMore<T>(m: map<T, T>, x: T, id: T, n: nat)
    requires Leads(m - {id}, x, id, n)
    ensures Leads(m, x, id, n)
    decreases n
  {
    if n > 0 {
      LeadsMore(m, m[x], id, n - 1);
    }
  }

  /** An element nothing links to is reached from nowhere else. */
  lemma {:induction false} Unlinked<T>(m: map<T, T>, id: T, s: T, n: nat)
    requires s != id && forall x | x in m :: m[x] != id
    ensures !Leads(m, s, id, n)
    decreases n
  {
    if n > 0 && s in m {
      Unlinked(m, id, m[s], n - 1);
    }
  }

  lemma NotReached<T>(m: map<T, T>, id: T, s: T)
    requires s != id && forall x | x in m :: m[x] != id
    ensures !Reaches(m, s, id)
  {
    forall n: nat
      ensures !Leads(m, s, id, n)
    {
      Unlinked(m, id, s, n);
    }
  }

  /** A new element that nothing links to may link anywhere else. */
  lemma NewLink<T(!new)>(m: map<T, T>, id: T, s: T)
    requires AllEnd(m) && id !in m && s != id && forall x | x in m :: m[x] != id
    ensures AllEnd(m[id := s])
  {
    NotReached(m, id, s);
    assert m - {id} == m;
    UpdateEnds(m, id, s);
  }

  lemma {:induction false} RemoveEnds<T>(m: map<T, T>, id: T, x: T, n: nat)
    requires EndsWithin(m, x, n)
    ensures EndsWithin(m - {id}, x, n)
    decreases n
  {
    if x in m - {id} {
      RemoveEnds(m, id, m[x], n - 1);
    }
  }

  /** Dropping a link keeps all chains finite. */
  lemma RemoveAllEnd<T(!new)>(m: map<T, T>, id: T)
    requires AllEnd(m)
    ensures AllEnd(m - {id})
  {
    forall x
      ensures Ends(m - {id}, x)
    {
      assert Ends(m, x);
      var n: nat :| EndsWithin(m, x, n);
      RemoveEnds(m, id, x, n);
    }
  }
}
