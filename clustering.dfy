/**
 * `clusterness` of `citegraph.explore`: how many pairs of a paper's included
 * neighbours are neighbours of each other, over `n * (n + 1) / 2`.
 *
 * The source enumerates a Python set, in an order it does not control; the
 * method takes that enumeration as a sequence. `ClusternessOf` is the same
 * value stated on the set, and `ClusternessOrderFree` proves the two agree for
 * every enumeration once the neighbour map is symmetric.
 */
module Clustering {
  import opened PaperSource
  import opened Collections

  /** The merged successor and predecessor multimap of the explorer. */
  type Neighbors = map<PaperId, set<PaperId>>

  /** `are_neighbors(src, dst)`: `dst in neighbors.get(src, [])`. */
  predicate AreNeighbors(nb: Neighbors, src: PaperId, dst: PaperId) {
    src in nb && dst in nb[src]
  }

  ghost predicate Symmetric(nb: Neighbors) {
    forall a, b | AreNeighbors(nb, a, b) :: AreNeighbors(nb, b, a)
  }

  /** How many elements of `t` are neighbours of `x`. */
  function CountNeighbors(nb: Neighbors, x: PaperId, t: seq<PaperId>): (n: nat)
    ensures n <= |t|
  {
    if t == [] then 0
    else CountNeighbors(nb, x, t[..|t| - 1]) + (if AreNeighbors(nb, x, t[|t| - 1]) then 1 else 0)
  }

  /** `closed_triplets`: the pairs `i < j` of the enumeration with `s[j]` a neighbour of `s[i]`. */
  function ClosedPairs(nb: Neighbors, s: seq<PaperId>): nat {
    if s == [] then 0 else CountNeighbors(nb, s[0], s[1..]) + ClosedPairs(nb, s[1..])
  }

  /** `total_possible_triplets`: `n * (n + 1) / 2`, a true division. */
  function PossiblePairs(n: nat): real {
    (n * (n + 1)) as real / 2.0
  }

  /** The value `clusterness` computes for the enumeration `s`. */
  function ClusternessOfSeq(nb: Neighbors, s: seq<PaperId>): real {
    if |s| == 0 then 1.0 else ClosedPairs(nb, s) as real / PossiblePairs(|s|)
  }

  /** `clusterness(neighbors_in_graph, neighbors)`, with the set enumerated as `inGraph`. */
  method Clusterness(inGraph: seq<PaperId>, nb: Neighbors) returns (c: real)
    ensures c == ClusternessOfSeq(nb, inGraph)
  {
    var n := |inGraph|;
    if n == 0 {
      return 1.0;
    }
    var closed := 0;
    for i := 0 to n
      invariant closed + ClosedPairs(nb, inGraph[i..]) == ClosedPairs(nb, inGraph)
    {
      ghost var base := closed;
      for j := 0 to n
        invariant closed == base + CountAfter(nb, inGraph, i, j)
      {
        CountAfterStep(nb, inGraph, i, j);
        if i < j && AreNeighbors(nb, inGraph[i], inGraph[j]) {
          closed := closed + 1;
        }
      }
      ClosedPairsUnfold(nb, inGraph, i);
    }
    assert inGraph[n..] == [];
    c := closed as real / PossiblePairs(n);
  }

  /** How many of `s[..j]` after position `i` are neighbours of `s[i]`. */
  function CountAfter(nb: Neighbors, s: seq<PaperId>, i: nat, j: nat): nat
    requires i < |s| && j <= |s|
  {
    if j <= i + 1 then 0 else CountNeighbors(nb, s[i], s[i + 1..j])
  }

  /** Looking at one more position `j` of the inner loop. */
  lemma CountAfterStep(nb: Neighbors, s: seq<PaperId>, i: nat, j: nat)
    requires i < |s| && j < |s|
    ensures CountAfter(nb, s, i, j + 1) ==
      CountAfter(nb, s, i, j) + (if i < j && AreNeighbors(nb, s[i], s[j]) then 1 else 0)
  {
    if i < j {
      var t := s[i + 1..j + 1];
      assert t[..|t| - 1] == s[i + 1..j] && t[|t| - 1] == s[j];
    }
  }

  /** The pairs of `s[i..]`: those starting at `s[i]`, then those of `s[i + 1..]`. */
  lemma ClosedPairsUnfold(nb: Neighbors, s: seq<PaperId>, i: nat)
    requires i < |s|
    ensures ClosedPairs(nb, s[i..]) == CountNeighbors(nb, s[i], s[i + 1..|s|]) + ClosedPairs(nb, s[i + 1..])
  {
    assert s[i..][1..] == s[i + 1..] == s[i + 1..|s|];
  }

  /** `2 * closed_triplets <= n * (n - 1)`. */
  lemma {:induction false} ClosedPairsBound(nb: Neighbors, s: seq<PaperId>)
    ensures 2 * ClosedPairs(nb, s) <= |s| * (|s| - 1)
  {
    if s != [] {
      ClosedPairsBound(nb, s[1..]);
      PairsStep(CountNeighbors(nb, s[0], s[1..]), ClosedPairs(nb, s[1..]), |s| - 1);
    }
  }

  /** Adding one element with at most `m` new pairs to `m` elements keeps the triangular bound. */
  lemma PairsStep(added: nat, pairs: nat, m: nat)
    requires added <= m && 2 * pairs <= m * (m - 1)
    ensures 2 * (added + pairs) <= (m + 1) * (m + 1 - 1)
  {
    assert (m + 1) * (m + 1 - 1) == 2 * m + m * (m - 1);
  }

  /** A count of at most `n * (n - 1) / 2` pairs, over `n * (n + 1) / 2`, lies in [0, 1). */
  lemma HalfPairsBelowPossible(closed: nat, n: nat)
    requires n > 0
    requires 2 * closed <= n * (n - 1)
    ensures 0.0 <= closed as real / PossiblePairs(n) < 1.0
  {
    var p := n * (n + 1);
    assert p - n * (n - 1) == 2 * n;
    assert 2 * closed < p;
    var total := PossiblePairs(n);
    assert total == p as real / 2.0;
    assert closed as real < total;
    RatioBelowOne(closed as real, total);
  }

  lemma RatioBelowOne(a: real, b: real)
    requires 0.0 <= a < b
    ensures 0.0 <= a / b < 1.0
  {
  }

  /** The source's value is 1 for no included neighbour and lies in [0, 1) otherwise. */
  lemma ClusternessBounds(nb: Neighbors, s: seq<PaperId>)
    ensures |s| == 0 ==> ClusternessOfSeq(nb, s) == 1.0
    ensures |s| > 0 ==> 0.0 <= ClusternessOfSeq(nb, s) < 1.0
  {
    if |s| > 0 {
      ClosedPairsBound(nb, s);
      HalfPairsBelowPossible(ClosedPairs(nb, s), |s|);
    }
  }

  /** An element of a non-empty set. */
  ghost function Pick(S: set<PaperId>): (x: PaperId)
    requires S != {}
    ensures x in S
  {
    var x :| x in S; x
  }

  /** How many elements of `T` are neighbours of `x`. */
  function Degree(nb: Neighbors, x: PaperId, T: set<PaperId>): nat {
    |set y | y in T && AreNeighbors(nb, x, y)|
  }

  /** The pairs of `S` that are neighbours, counted by removing one element at a time. */
  ghost function PairsIn(nb: Neighbors, S: set<PaperId>): nat
    decreases |S|
  {
    if S == {} then 0
    else
      var x := Pick(S);
      Degree(nb, x, S - {x}) + PairsIn(nb, S - {x})
  }

  /** The clusterness of a set of included neighbours, independent of any enumeration. */
  ghost function ClusternessOf(nb: Neighbors, S: set<PaperId>): real {
    if S == {} then 1.0 else PairsIn(nb, S) as real / PossiblePairs(|S|)
  }

  lemma DegreeSplit(nb: Neighbors, x: PaperId, T: set<PaperId>, z: PaperId)
    requires z in T
    ensures Degree(nb, x, T) == Degree(nb, x, T - {z}) + (if AreNeighbors(nb, x, z) then 1 else 0)
  {
    var all := set y | y in T && AreNeighbors(nb, x, y);
    var rest := set y | y in T - {z} && AreNeighbors(nb, x, y);
    if AreNeighbors(nb, x, z) {
      assert all == rest + {z};
      assert z !in rest;
    } else {
      assert all == rest;
    }
  }

  /** With a symmetric neighbour map, `PairsIn` may remove ANY element first. */
  lemma {:induction false} PairsInRemove(nb: Neighbors, S: set<PaperId>, x: PaperId)
    requires Symmetric(nb)
    requires x in S
    ensures PairsIn(nb, S) == Degree(nb, x, S - {x}) + PairsIn(nb, S - {x})
    decreases |S|
  {
    var y := Pick(S);
    if y != x {
      var both := S - {x} - {y};
      assert S - {y} - {x} == both;
      PairsInRemove(nb, S - {y}, x);
      PairsInRemove(nb, S - {x}, y);
      DegreeSplit(nb, y, S - {y}, x);
      DegreeSplit(nb, x, S - {x}, y);
      assert S - {y} - {x} == S - {x} - {y};
      assert AreNeighbors(nb, x, y) <==> AreNeighbors(nb, y, x);
    }
  }

  lemma {:induction false} CountNeighborsIsDegree(nb: Neighbors, x: PaperId, t: seq<PaperId>)
    requires Distinct(t)
    ensures CountNeighbors(nb, x, t) == Degree(nb, x, Elements(t))
  {
    if t != [] {
      var init := t[..|t| - 1];
      var last := t[|t| - 1];
      assert Distinct(init);
      CountNeighborsIsDegree(nb, x, init);
      assert Elements(t) == Elements(init) + {last};
      assert last !in Elements(init);
      DegreeSplit(nb, x, Elements(t), last);
      assert Elements(t) - {last} == Elements(init);
    }
  }

  lemma {:induction false} ClosedPairsIsPairsIn(nb: Neighbors, s: seq<PaperId>)
    requires Symmetric(nb)
    requires Distinct(s)
    ensures ClosedPairs(nb, s) == PairsIn(nb, Elements(s))
  {
    if s != [] {
      var rest := s[1..];
      assert Distinct(rest) by {
        forall i, j | 0 <= i < j < |rest| ensures rest[i] != rest[j] {
          assert rest[i] == s[i + 1] && rest[j] == s[j + 1];
        }
      }
      ClosedPairsIsPairsIn(nb, rest);
      CountNeighborsIsDegree(nb, s[0], rest);
      assert Elements(rest) == Elements(s) - {s[0]};
      PairsInRemove(nb, Elements(s), s[0]);
    }
  }

  /**
   * For a symmetric neighbour map, `clusterness` over any enumeration of a set
   * is the set's own value: the enumeration order does not matter.
   */
  lemma ClusternessOrderFree(nb: Neighbors, s: seq<PaperId>)
    requires Symmetric(nb)
    requires Distinct(s)
    ensures ClusternessOfSeq(nb, s) == ClusternessOf(nb, Elements(s))
  {
    DistinctCardinality(s);
    ClosedPairsIsPairsIn(nb, s);
  }

  /** Two enumerations of one set give the same clusterness. */
  lemma ClusternessEnumerationsAgree(nb: Neighbors, s: seq<PaperId>, t: seq<PaperId>)
    requires Symmetric(nb)
    requires Distinct(s) && Distinct(t) && Elements(s) == Elements(t)
    ensures ClusternessOfSeq(nb, s) == ClusternessOfSeq(nb, t)
  {
    ClusternessOrderFree(nb, s);
    ClusternessOrderFree(nb, t);
  }

  /** `2 * PairsIn(S) <= |S| * (|S| - 1)`. */
  lemma {:induction false} PairsInBound(nb: Neighbors, S: set<PaperId>)
    ensures 2 * PairsIn(nb, S) <= |S| * (|S| - 1)
    decreases |S|
  {
    if S != {} {
      var x := Pick(S);
      PairsInBound(nb, S - {x});
      var m := |S| - 1;
      var rest := S - {x};
      assert |rest| == m;
      SubsetCardinality((set y | y in rest && AreNeighbors(nb, x, y)), rest);
      assert PairsIn(nb, S) == Degree(nb, x, rest) + PairsIn(nb, rest);
      PairsStep(Degree(nb, x, rest), PairsIn(nb, rest), m);
    }
  }

  /** The set value is 1 for the empty set and lies in [0, 1) otherwise. */
  lemma ClusternessOfBounds(nb: Neighbors, S: set<PaperId>)
    ensures S == {} ==> ClusternessOf(nb, S) == 1.0
    ensures S != {} ==> 0.0 <= ClusternessOf(nb, S) < 1.0
  {
    if S != {} {
      PairsInBound(nb, S);
      HalfPairsBelowPossible(PairsIn(nb, S), |S|);
    }
  }

  /** A single included neighbour has no pair to close: its clusterness is 0. */
  lemma ClusternessOfSingleton(nb: Neighbors, x: PaperId)
    ensures ClusternessOf(nb, {x}) == 0.0
  {
    assert Pick({x}) == x;
    assert {x} - {x} == {};
    assert (set y | y in {} && AreNeighbors(nb, x, y)) == {};
    assert Degree(nb, x, {}) == 0;
    assert PairsIn(nb, {x}) == 0;
    assert PossiblePairs(1) == 1.0;
  }
}
