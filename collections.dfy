/** Facts about sequences used as enumerations of sets. */
module Collections {

  /** No element occurs twice: what an enumeration of a set looks like. */
  predicate Distinct<T(==)>(s: seq<T>) {
    forall i, j | 0 <= i < j < |s| :: s[i] != s[j]
  }

  function Elements<T>(s: seq<T>): set<T> {
    set x | x in s
  }

  lemma ElementsAppend<T>(a: seq<T>, b: seq<T>)
    ensures Elements(a + b) == Elements(a) + Elements(b)
  {
  }

  lemma {:induction false} DistinctCardinality<T>(s: seq<T>)
    requires Distinct(s)
    ensures |Elements(s)| == |s|
  {
    if s != [] {
      var rest := s[1..];
      assert Distinct(rest) by {
        forall i, j | 0 <= i < j < |rest| ensures rest[i] != rest[j] {
          assert rest[i] == s[i + 1] && rest[j] == s[j + 1];
        }
      }
      DistinctCardinality(rest);
      assert Elements(s) == Elements(rest) + {s[0]};
      assert s[0] !in Elements(rest);
    }
  }

  /** A subset is no larger than its superset. */
  lemma SubsetCardinality<T>(a: set<T>, b: set<T>)
    requires a <= b
    ensures |a| <= |b|
  {
    assert b == a + (b - a);
  }

  /** `m.get(k, default)`. */
  function Lookup<K, V>(m: map<K, V>, k: K, default: V): V {
    if k in m then m[k] else default
  }

  /** Growing a set in two steps adds as many elements as growing it in one. */
  lemma DifferenceCardinality<T>(a: set<T>, b: set<T>, c: set<T>)
    requires a <= b <= c
    ensures |c - a| == |c - b| + |b - a|
  {
    assert c - a == (c - b) + (b - a);
    assert (c - b) !! (b - a);
  }

  /** Some enumeration of a set, in the order Python iterates it (which the model leaves open). */
  method Enumerate<T(==)>(S: set<T>) returns (s: seq<T>)
    ensures Distinct(s) && Elements(s) == S
  {
    s := [];
    var rest := S;
    while rest != {}
      invariant Distinct(s)
      invariant Elements(s) + rest == S && Elements(s) !! rest
      decreases |rest|
    {
      var x :| x in rest;
      s := s + [x];
      rest := rest - {x};
    }
  }
}
