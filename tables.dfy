/** SQL tables with a primary key, modelled as maps from the key to the rest of the row. */
module Tables {
  import opened Wrappers

  /** `SELECT ... WHERE key = k`: the row, if there is one. */
  function Lookup<K, V>(m: map<K, V>, k: K): (r: Option<V>)
    ensures r.Some? <==> k in m
    ensures r.Some? ==> r.value == m[k]
  {
    if k in m then Some(m[k]) else None
  }

  /** A non-empty finite set of naturals has a largest element. */
  lemma {:induction false} MaxExists(s: set<nat>)
    requires s != {}
    ensures exists m :: m in s && forall x :: x in s ==> x <= m
    decreases |s|
  {
    var y :| y in s;
    var rest := s - {y};
    assert forall x :: x in s ==> x == y || x in rest;
    if rest != {} {
      MaxExists(rest);
      var m :| m in rest && forall x :: x in rest ==> x <= m;
      if y > m {
        assert forall x :: x in s ==> x <= y;
      } else {
        assert forall x :: x in s ==> x <= m;
      }
    } else {
      assert forall x :: x in s ==> x == y;
    }
  }

  /** The largest element of a non-empty set. */
  function Max(s: set<nat>): (r: nat)
    requires s != {}
    ensures r in s && forall x :: x in s ==> x <= r
  {
    MaxExists(s);
    var m :| m in s && forall x :: x in s ==> x <= m;
    m
  }

  /** `SELECT MAX(...)`, read as 0 when no row qualifies. */
  function MaxOrZero(s: set<nat>): (r: nat)
    ensures s == {} ==> r == 0
    ensures s != {} ==> r in s && forall x :: x in s ==> x <= r
  {
    if s == {} then 0 else Max(s)
  }

  /** The union of `f(k)` over the keys `ks`. */
  function UnionOver<T>(f: nat -> set<T>, ks: set<nat>): set<T> {
    set k, x | k in ks && x in f(k) :: x
  }

  /** Adding a key adds its set to the union. */
  lemma UnionOverAdd<T>(f: nat -> set<T>, ks: set<nat>, k: nat)
    ensures UnionOver(f, ks + {k}) == UnionOver(f, ks) + f(k)
  {
  }

  /** Whatever belongs to the set of a key belongs to the union. */
  lemma UnionOverMember<T>(f: nat -> set<T>, ks: set<nat>, k: nat, x: T)
    requires k in ks && x in f(k)
    ensures x in UnionOver(f, ks)
  {
  }
}
