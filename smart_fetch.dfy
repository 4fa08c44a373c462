/**
 * `smart_fetch` of `citegraph.explore`: a best-first exploration of the
 * citation graph. The function's local dictionaries and counters are the
 * fields of an `Explorer`; its inner functions are the explorer's methods,
 * each proved against a pure definition of what it computes.
 */
module SmartFetch {
  import opened Wrappers
  import opened Collections
  import opened PaperSource
  import opened Model
  import opened Semapi
  import opened Clustering
  import opened Explore

  /** `FAILURE_LIMIT`: the loop gives up once more requests than this have failed. */
  const FailureLimit := 10

  /** `Infty` as the float the distance sums are made of. */
  const InftyReal: real := Infty as real

  /** `distance_to_root`: a distance for each paper reached so far. */
  type Distances = map<PaperId, real>

  predicate NonNegative(dist: Distances) {
    forall k | k in dist :: dist[k] >= 0.0
  }

  /** The ids of a list of papers. */
  function Ids(ps: seq<Paper>): set<PaperId> {
    set p | p in ps :: p.id
  }

  lemma IdsSnoc(ps: seq<Paper>)
    requires ps != []
    ensures Ids(ps) == Ids(ps[..|ps| - 1]) + {ps[|ps| - 1].id}
  {
    assert forall p | p in ps :: p in ps[..|ps| - 1] || p == ps[|ps| - 1];
  }

  // ---------------------------------------------------------------------------
  // The neighbour multimap
  // ---------------------------------------------------------------------------

  /** `update_multimap(map, k, v)`: add `v` to the set under `k`, creating it if needed. */
  function UpdateMultimap(m: Neighbors, k: PaperId, v: PaperId): Neighbors {
    m[k := Lookup(m, k, {}) + {v}]
  }

  /** `add_ref(src, dst)`: record the citation in both directions. */
  function AddRefMap(m: Neighbors, src: PaperId, dst: PaperId): Neighbors {
    UpdateMultimap(UpdateMultimap(m, dst, src), src, dst)
  }

  /** `add_ref` adds exactly the edge and its reverse, so it keeps the multimap symmetric. */
  lemma AddRefMapNeighbors(m: Neighbors, src: PaperId, dst: PaperId)
    ensures forall a, b :: AreNeighbors(AddRefMap(m, src, dst), a, b) <==>
      AreNeighbors(m, a, b) || (a == src && b == dst) || (a == dst && b == src)
    ensures Symmetric(m) ==> Symmetric(AddRefMap(m, src, dst))
  {
  }

  /**
   * The neighbour updates of one loop of `update_graph`: every paper of `ps` is
   * linked with `cur`, as the citing side (`add_ref(citing, cur)`) or as the cited one.
   */
  function LinkAll(m: Neighbors, cur: PaperId, ps: seq<Paper>, citing: bool): Neighbors {
    if ps == [] then m
    else
      var acc := LinkAll(m, cur, ps[..|ps| - 1], citing);
      var p := ps[|ps| - 1];
      if citing then AddRefMap(acc, p.id, cur) else AddRefMap(acc, cur, p.id)
  }

  /** After the loop, `cur` and each paper of `ps` are neighbours both ways, and nothing else was added. */
  lemma {:induction false} LinkAllNeighbors(m: Neighbors, cur: PaperId, ps: seq<Paper>, citing: bool)
    ensures forall a, b :: AreNeighbors(LinkAll(m, cur, ps, citing), a, b) <==>
      AreNeighbors(m, a, b) || (a == cur && b in Ids(ps)) || (b == cur && a in Ids(ps))
    ensures Symmetric(m) ==> Symmetric(LinkAll(m, cur, ps, citing))
  {
    if ps != [] {
      var init := ps[..|ps| - 1];
      var p := ps[|ps| - 1];
      LinkAllNeighbors(m, cur, init, citing);
      IdsSnoc(ps);
      var acc := LinkAll(m, cur, init, citing);
      if citing {
        AddRefMapNeighbors(acc, p.id, cur);
      } else {
        AddRefMapNeighbors(acc, cur, p.id);
      }
    }
  }

  // ---------------------------------------------------------------------------
  // The pool of discovered papers
  // ---------------------------------------------------------------------------

  /** `nodes[p.id] = p` for each paper of `ps` in order: a later paper with the same id wins. */
  function InsertPapers(nodes: map<PaperId, Paper>, ps: seq<Paper>): map<PaperId, Paper> {
    if ps == [] then nodes
    else InsertPapers(nodes, ps[..|ps| - 1])[ps[|ps| - 1].id := ps[|ps| - 1]]
  }

  /**
   * Every inserted paper is in the pool under its id, nothing else is added,
   * a paper whose id is not inserted keeps its entry, and keys stay the ids of their papers.
   */
  lemma {:induction false} InsertPapersContents(nodes: map<PaperId, Paper>, ps: seq<Paper>)
    ensures InsertPapers(nodes, ps).Keys == nodes.Keys + Ids(ps)
    ensures forall k | k in nodes && k !in Ids(ps) :: InsertPapers(nodes, ps)[k] == nodes[k]
    ensures (forall k | k in nodes :: nodes[k].id == k) ==>
      forall k | k in InsertPapers(nodes, ps) :: InsertPapers(nodes, ps)[k].id == k
  {
    if ps != [] {
      InsertPapersContents(nodes, ps[..|ps| - 1]);
      IdsSnoc(ps);
    }
  }

  // ---------------------------------------------------------------------------
  // Distance relaxation
  // ---------------------------------------------------------------------------

  /**
   * The relaxation of `update_graph` for the reference `cur -> cited`: first try
   * to reach `cur` through `cited`, then `cited` through `cur`, with the edge
   * costs of `edge_disinterest` in the respective direction.
   */
  function Relax(dist: Distances, cur: Paper, cited: Paper): Distances {
    var best0 := Lookup(dist, cur.id, InftyReal);
    var toCur := Lookup(dist, cited.id, InftyReal) + EdgeDisinterest(cited, cur);
    var dist1 := if toCur < best0 then dist[cur.id := toCur] else dist;
    var best := if toCur < best0 then toCur else best0;
    var toCited := best + EdgeDisinterest(cur, cited);
    if toCited < Lookup(dist1, cited.id, InftyReal) then dist1[cited.id := toCited] else dist1
  }

  /**
   * A relaxation never raises a distance, only gives a distance to the edge's
   * two ends, keeps distances non-negative, and leaves neither end improvable
   * through the other. Between two papers not reached yet it changes nothing.
   */
  lemma RelaxProperties(dist: Distances, cur: Paper, cited: Paper)
    ensures forall k | k in dist :: k in Relax(dist, cur, cited) && Relax(dist, cur, cited)[k] <= dist[k]
    ensures forall k | k in Relax(dist, cur, cited) :: k in dist || k == cur.id || k == cited.id
    ensures NonNegative(dist) ==> NonNegative(Relax(dist, cur, cited))
    ensures var r := Relax(dist, cur, cited);
      cur.id in r && cited.id in r ==>
        r[cited.id] <= r[cur.id] + EdgeDisinterest(cur, cited) &&
        r[cur.id] <= r[cited.id] + EdgeDisinterest(cited, cur)
    ensures cur.id !in dist && cited.id !in dist ==> Relax(dist, cur, cited) == dist
  {
    var dc := EdgeDisinterest(cur, cited);
    var dr := EdgeDisinterest(cited, cur);
    assert dc >= 1.0 && dr >= 1.0;
  }

  /** The relaxations of the reference loop of `update_graph`, in order. */
  function RelaxAll(dist: Distances, cur: Paper, refs: seq<Paper>): Distances {
    if refs == [] then dist else Relax(RelaxAll(dist, cur, refs[..|refs| - 1]), cur, refs[|refs| - 1])
  }

  /** The whole loop never raises a distance, reaches only `cur` and its references, and keeps distances non-negative. */
  lemma {:induction false} RelaxAllProperties(dist: Distances, cur: Paper, refs: seq<Paper>)
    ensures forall k | k in dist :: k in RelaxAll(dist, cur, refs) && RelaxAll(dist, cur, refs)[k] <= dist[k]
    ensures forall k | k in RelaxAll(dist, cur, refs) :: k in dist || k == cur.id || k in Ids(refs)
    ensures NonNegative(dist) ==> NonNegative(RelaxAll(dist, cur, refs))
  {
    if refs != [] {
      var init := refs[..|refs| - 1];
      RelaxAllProperties(dist, cur, init);
      RelaxProperties(RelaxAll(dist, cur, init), cur, refs[|refs| - 1]);
      IdsSnoc(refs);
    }
  }

  /** A distance of 0, a root's, stays 0 while distances stay non-negative. */
  lemma RelaxAllKeepsZero(dist: Distances, cur: Paper, refs: seq<Paper>, k: PaperId)
    requires NonNegative(dist) && k in dist && dist[k] == 0.0
    ensures k in RelaxAll(dist, cur, refs) && RelaxAll(dist, cur, refs)[k] == 0.0
  {
    RelaxAllProperties(dist, cur, refs);
  }

  // ---------------------------------------------------------------------------
  // The explorer
  // ---------------------------------------------------------------------------

  /** The keys of the pool are the ids of their papers. */
  predicate KeyedById(nodes: map<PaperId, Paper>) {
    forall k | k in nodes :: nodes[k].id == k
  }

  /**
   * What `update_graph` does to the pool, the multimap and the distances: the pool
   * gains exactly the citing and cited papers' ids, the multimap stays symmetric,
   * and distances never rise and stay non-negative.
   */
  lemma UpdateGraphEffect(nodes: map<PaperId, Paper>, nb: Neighbors, dist: Distances, cur: PaperAndRefs)
    requires KeyedById(nodes) && Symmetric(nb) && NonNegative(dist)
    ensures var nodes' := InsertPapers(InsertPapers(nodes, cur.citations), cur.references);
      KeyedById(nodes') && nodes'.Keys == nodes.Keys + Ids(cur.citations) + Ids(cur.references)
    ensures Symmetric(LinkAll(LinkAll(nb, cur.paper.id, cur.citations, true), cur.paper.id, cur.references, false))
    ensures var dist' := RelaxAll(dist, cur.paper, cur.references);
      NonNegative(dist') && forall k | k in dist :: k in dist' && dist'[k] <= dist[k]
  {
    InsertPapersContents(nodes, cur.citations);
    InsertPapersContents(InsertPapers(nodes, cur.citations), cur.references);
    LinkAllNeighbors(nb, cur.paper.id, cur.citations, true);
    LinkAllNeighbors(LinkAll(nb, cur.paper.id, cur.citations, true), cur.paper.id, cur.references, false);
    RelaxAllProperties(dist, cur.paper, cur.references);
  }

  /** The pool after `update_graph` on each of `roots`, in order. */
  function NodesAfter(nodes: map<PaperId, Paper>, roots: seq<PaperAndRefs>): map<PaperId, Paper> {
    if roots == [] then nodes
    else
      var cur := roots[|roots| - 1];
      InsertPapers(InsertPapers(NodesAfter(nodes, roots[..|roots| - 1]), cur.citations), cur.references)
  }

  /** The neighbour multimap after `update_graph` on each of `roots`, in order. */
  function LinksAfter(nb: Neighbors, roots: seq<PaperAndRefs>): Neighbors {
    if roots == [] then nb
    else
      var cur := roots[|roots| - 1];
      LinkAll(LinkAll(LinksAfter(nb, roots[..|roots| - 1]), cur.paper.id, cur.citations, true), cur.paper.id, cur.references, false)
  }

  /** The distances after `update_graph` on each of `roots`, in order. */
  function DistancesAfter(dist: Distances, roots: seq<PaperAndRefs>): Distances {
    if roots == [] then dist
    else
      var cur := roots[|roots| - 1];
      RelaxAll(DistancesAfter(dist, roots[..|roots| - 1]), cur.paper, cur.references)
  }

  /** The ids of the papers that cite or are cited by one of `roots`. */
  function LinkedIds(roots: seq<PaperAndRefs>): set<PaperId> {
    if roots == [] then {}
    else
      var cur := roots[|roots| - 1];
      LinkedIds(roots[..|roots| - 1]) + Ids(cur.citations) + Ids(cur.references)
  }

  /** Whether one of `a`, `b` is a root and the other cites or is cited by it. */
  predicate RootLinked(roots: seq<PaperAndRefs>, a: PaperId, b: PaperId) {
    exists i | 0 <= i < |roots| ::
      || (a == roots[i].paper.id && b in Ids(roots[i].citations) + Ids(roots[i].references))
      || (b == roots[i].paper.id && a in Ids(roots[i].citations) + Ids(roots[i].references))
  }

  /** An id is linked to the roots exactly when some root's citations or references carry it. */
  lemma {:induction false} LinkedIdsMembership(roots: seq<PaperAndRefs>, x: PaperId)
    ensures x in LinkedIds(roots) <==>
      exists i | 0 <= i < |roots| :: x in Ids(roots[i].citations) + Ids(roots[i].references)
  {
    if roots != [] {
      var init := roots[..|roots| - 1];
      LinkedIdsMembership(init, x);
      assert forall i | 0 <= i < |init| :: init[i] == roots[i];
    }
  }

  /** `update_graph` on each root grows the pool by exactly the papers linked to the roots. */
  lemma {:induction false} NodesAfterKeys(nodes: map<PaperId, Paper>, roots: seq<PaperAndRefs>)
    requires KeyedById(nodes)
    ensures KeyedById(NodesAfter(nodes, roots))
    ensures NodesAfter(nodes, roots).Keys == nodes.Keys + LinkedIds(roots)
  {
    if roots != [] {
      var cur := roots[|roots| - 1];
      var mid := NodesAfter(nodes, roots[..|roots| - 1]);
      NodesAfterKeys(nodes, roots[..|roots| - 1]);
      InsertPapersContents(mid, cur.citations);
      InsertPapersContents(InsertPapers(mid, cur.citations), cur.references);
    }
  }

  /** `update_graph` on each root adds exactly the edges between a root and its linked papers. */
  lemma {:induction false} LinksAfterNeighbors(nb: Neighbors, roots: seq<PaperAndRefs>)
    ensures forall a, b :: AreNeighbors(LinksAfter(nb, roots), a, b) <==> AreNeighbors(nb, a, b) || RootLinked(roots, a, b)
    ensures Symmetric(nb) ==> Symmetric(LinksAfter(nb, roots))
  {
    if roots != [] {
      var init := roots[..|roots| - 1];
      var cur := roots[|roots| - 1];
      var mid := LinksAfter(nb, init);
      LinksAfterNeighbors(nb, init);
      LinkAllNeighbors(mid, cur.paper.id, cur.citations, true);
      LinkAllNeighbors(LinkAll(mid, cur.paper.id, cur.citations, true), cur.paper.id, cur.references, false);
      forall a, b
        ensures RootLinked(roots, a, b) <==>
          || RootLinked(init, a, b)
          || (a == cur.paper.id && b in Ids(cur.citations) + Ids(cur.references))
          || (b == cur.paper.id && a in Ids(cur.citations) + Ids(cur.references))
      {
        assert forall i | 0 <= i < |init| :: init[i] == roots[i];
        assert roots[|roots| - 1] == cur;
      }
    }
  }

  /**
   * The set-up over the roots: the pool is the roots and the papers linked to
   * them, each under its own id, and the neighbour map links exactly each root
   * with those papers.
   */
  lemma RootSetup(roots: seq<PaperAndRefs>)
    ensures KeyedById(NodesAfter(InsertPapers(map[], RootPapers(roots)), roots))
    ensures NodesAfter(InsertPapers(map[], RootPapers(roots)), roots).Keys == RootIds(roots) + LinkedIds(roots)
    ensures forall a, b :: AreNeighbors(LinksAfter(map[], roots), a, b) <==> RootLinked(roots, a, b)
    ensures Symmetric(LinksAfter(map[], roots))
  {
    InsertPapersContents(map[], RootPapers(roots));
    RootPapersIds(roots);
    NodesAfterKeys(InsertPapers(map[], RootPapers(roots)), roots);
    LinksAfterNeighbors(map[], roots);
  }

  /** How one round of the main loop ends. */
  datatype StepOutcome =
    | Continue    // go on with the next candidate
    | Exhausted   // "No more nodes to explore"
    | Aborted     // "API limit reached, aborting"
    | Full        // "Hit max size threshold"

  /** The ids of the fetched roots. */
  function RootIds(roots: seq<PaperAndRefs>): set<PaperId> {
    set r | r in roots :: r.paper.id
  }

  /** The papers of the fetched roots, in order. */
  function RootPapers(roots: seq<PaperAndRefs>): (ps: seq<Paper>)
    ensures |ps| == |roots| && forall i | 0 <= i < |roots| :: ps[i] == roots[i].paper
  {
    if roots == [] then [] else [roots[0].paper] + RootPapers(roots[1..])
  }

  lemma RootPapersIds(roots: seq<PaperAndRefs>)
    ensures Ids(RootPapers(roots)) == RootIds(roots)
  {
    var ps := RootPapers(roots);
    forall x | x in Ids(ps) ensures x in RootIds(roots) {
      var p :| p in ps && p.id == x;
      var i :| 0 <= i < |ps| && ps[i] == p;
      assert roots[i] in roots;
    }
    forall x | x in RootIds(roots) ensures x in Ids(ps) {
      var r :| r in roots && r.paper.id == x;
      var i :| 0 <= i < |roots| && roots[i] == r;
      assert ps[i] in ps;
    }
  }

  /**
   * `max(scored, key=lambda t: t[1], default=(None, 0))`: the first pair with
   * the largest score.
   */
  method MaxByScore<T>(scored: seq<(T, real)>) returns (best: Option<T>, score: real)
    ensures best.None? <==> scored == []
    ensures best.None? ==> score == 0.0
    ensures best.Some? ==> (best.value, score) in scored && forall x | x in scored :: x.1 <= score
    ensures best.Some? ==>
      exists i | 0 <= i < |scored| :: (scored[i] == (best.value, score) && forall j | 0 <= j < i :: scored[j].1 < score)
  {
    if scored == [] {
      return None, 0.0;
    }
    var m := 0;
    for i := 1 to |scored|
      invariant 0 <= m < i
      invariant forall j | 0 <= j < i :: scored[j].1 <= scored[m].1
      invariant forall j | 0 <= j < m :: scored[j].1 < scored[m].1
    {
      if scored[i].1 > scored[m].1 {
        m := i;
      }
    }
    best, score := Some(scored[m].0), scored[m].1;
    assert scored[m] == (best.value, score);
  }

  /** The state of one run of `smart_fetch`. */
  class Explorer {
    /** `db`, whose bibliography is the `biblio` the scores consult. */
    const db: PaperDb
    const params: Params
    const maxSize: int
    /** `neighbors`: merged successors and predecessors. */
    var neighbors: Neighbors
    /** `nodes`: every paper discovered so far, by id. */
    var nodes: map<PaperId, Paper>
    /** `graph_nodes`: the papers fetched and included in the graph. */
    var graphNodes: map<PaperId, PaperAndRefs>
    var distanceToRoot: Distances
    var failedIds: set<PaperId>
    var requestFailures: nat
    /** The ids of the roots, which stay at distance 0. */
    ghost var roots: set<PaperId>

    ghost predicate Valid()
      reads this
    {
      && Symmetric(neighbors)
      && KeyedById(nodes)
      && (forall k | k in graphNodes :: graphNodes[k].paper.id == k)
      && NonNegative(distanceToRoot)
      && (forall r | r in roots :: r in distanceToRoot && distanceToRoot[r] == 0.0)
    }

    /** A paper the main loop may still pick: neither included nor failed. */
    predicate IsCandidate(p: Paper)
      reads this
    {
      p.id !in graphNodes && p.id !in failedIds
    }

    predicate NoCandidate()
      reads this
    {
      forall k | k in nodes :: !IsCandidate(nodes[k])
    }

    /** `degree_of_interest(p)` in the current state. */
    ghost function Doi(p: Paper): real
      reads this, db.biblio
    {
      Interest(ApiScore(p.id, graphNodes.Keys, neighbors, db.biblio.Contains(p), params),
               DistanceFromFocal(distanceToRoot, p.id), params)
    }

    /**
     * The set-up of `smart_fetch` once the roots are fetched: roots at distance 0,
     * in the pool, and `update_graph` run on each of them in order. The pool is
     * then the roots and every paper citing or cited by one, and the neighbour
     * map links exactly each root with those papers.
     */
    constructor (db: PaperDb, params: Params, maxSize: int, roots: seq<PaperAndRefs>, rootFailures: nat)
      ensures Valid()
      ensures this.db == db && this.params == params && this.maxSize == maxSize
      ensures this.roots == RootIds(roots)
      ensures nodes == NodesAfter(InsertPapers(map[], RootPapers(roots)), roots)
      ensures neighbors == LinksAfter(map[], roots)
      ensures distanceToRoot == DistancesAfter(map k | k in RootIds(roots) :: 0.0, roots)
      ensures nodes.Keys == RootIds(roots) + LinkedIds(roots)
      ensures forall a, b :: AreNeighbors(neighbors, a, b) <==> RootLinked(roots, a, b)
      ensures graphNodes == map[] && failedIds == {} && requestFailures == rootFailures
    {
      this.db := db;
      this.params := params;
      this.maxSize := maxSize;
      neighbors := map[];
      distanceToRoot := map k | k in RootIds(roots) :: 0.0;
      nodes := InsertPapers(map[], RootPapers(roots));
      graphNodes := map[];
      failedIds := {};
      requestFailures := rootFailures;
      this.roots := RootIds(roots);
      new;
      InsertPapersContents(map[], RootPapers(roots));
      RootPapersIds(roots);
      UpdateRoots(roots);
      RootSetup(roots);
    }

    /** `for r in roots: update_graph(r)`: the three folds over the roots, in order. */
    method UpdateRoots(roots: seq<PaperAndRefs>)
      requires Valid()
      modifies this
      ensures Valid()
      ensures nodes == NodesAfter(old(nodes), roots)
      ensures neighbors == LinksAfter(old(neighbors), roots)
      ensures distanceToRoot == DistancesAfter(old(distanceToRoot), roots)
      ensures graphNodes == old(graphNodes) && failedIds == old(failedIds)
      ensures requestFailures == old(requestFailures) && this.roots == old(this.roots)
    {
      for i := 0 to |roots|
        invariant Valid()
        invariant nodes == NodesAfter(old(nodes), roots[..i])
        invariant neighbors == LinksAfter(old(neighbors), roots[..i])
        invariant distanceToRoot == DistancesAfter(old(distanceToRoot), roots[..i])
        invariant graphNodes == old(graphNodes) && failedIds == old(failedIds)
        invariant requestFailures == old(requestFailures) && this.roots == old(this.roots)
      {
        assert roots[..i + 1][..i] == roots[..i] && roots[..i + 1][i] == roots[i];
        UpdateGraph(roots[i]);
      }
      assert roots[..|roots|] == roots;
    }

    /** `update_multimap(neighbors, k, v)`. */
    method UpdateNeighbors(k: PaperId, v: PaperId)
      modifies this
      ensures neighbors == UpdateMultimap(old(neighbors), k, v)
      ensures nodes == old(nodes) && graphNodes == old(graphNodes) && distanceToRoot == old(distanceToRoot)
      ensures failedIds == old(failedIds) && requestFailures == old(requestFailures) && roots == old(roots)
    {
      if k in neighbors {
        neighbors := neighbors[k := neighbors[k] + {v}];
      } else {
        assert Lookup(neighbors, k, {}) + {v} == {v};
        neighbors := neighbors[k := {v}];
      }
    }

    /** `add_ref(src, dst)`: record that `src` cites `dst`. */
    method AddRef(src: PaperId, dst: PaperId)
      modifies this
      ensures neighbors == AddRefMap(old(neighbors), src, dst)
      ensures nodes == old(nodes) && graphNodes == old(graphNodes) && distanceToRoot == old(distanceToRoot)
      ensures failedIds == old(failedIds) && requestFailures == old(requestFailures) && roots == old(roots)
    {
      UpdateNeighbors(dst, src);
      UpdateNeighbors(src, dst);
    }

    /**
     * The distance updates of `update_graph` for the reference `cur -> cited`:
     * a shorter path to `cur` through `cited`, then to `cited` through `cur`.
     */
    method RelaxEdge(cur: Paper, cited: Paper)
      modifies this
      ensures distanceToRoot == Relax(old(distanceToRoot), cur, cited)
      ensures nodes == old(nodes) && graphNodes == old(graphNodes) && neighbors == old(neighbors)
      ensures failedIds == old(failedIds) && requestFailures == old(requestFailures) && roots == old(roots)
    {
      var bestDist := Lookup(distanceToRoot, cur.id, InftyReal);
      var tentative := Lookup(distanceToRoot, cited.id, InftyReal) + EdgeDisinterest(cited, cur);
      if tentative < bestDist {
        distanceToRoot := distanceToRoot[cur.id := tentative];
        bestDist := tentative;
      }
      tentative := bestDist + EdgeDisinterest(cur, cited);
      var curDist := Lookup(distanceToRoot, cited.id, InftyReal);
      if tentative < curDist {
        distanceToRoot := distanceToRoot[cited.id := tentative];
      }
    }

    /**
     * `update_graph(cur)`: pool and link every citing and every cited paper,
     * relaxing distances along the references only.
     */
    method UpdateGraph(cur: PaperAndRefs)
      requires Valid()
      modifies this
      ensures Valid()
      ensures nodes == InsertPapers(InsertPapers(old(nodes), cur.citations), cur.references)
      ensures neighbors == LinkAll(LinkAll(old(neighbors), cur.paper.id, cur.citations, true), cur.paper.id, cur.references, false)
      ensures distanceToRoot == RelaxAll(old(distanceToRoot), cur.paper, cur.references)
      ensures graphNodes == old(graphNodes) && failedIds == old(failedIds)
      ensures requestFailures == old(requestFailures) && roots == old(roots)
      ensures old(nodes.Keys) + Ids(cur.citations) + Ids(cur.references) == nodes.Keys
      ensures forall k | k in old(distanceToRoot) :: k in distanceToRoot && distanceToRoot[k] <= old(distanceToRoot[k])
    {
      AddCitations(cur);
      AddReferences(cur);
      UpdateGraphEffect(old(nodes), old(neighbors), old(distanceToRoot), cur);
    }

    /** The first loop of `update_graph`: each citing paper joins the pool and cites `cur`. */
    method AddCitations(cur: PaperAndRefs)
      modifies this
      ensures nodes == InsertPapers(old(nodes), cur.citations)
      ensures neighbors == LinkAll(old(neighbors), cur.paper.id, cur.citations, true)
      ensures graphNodes == old(graphNodes) && distanceToRoot == old(distanceToRoot)
      ensures failedIds == old(failedIds) && requestFailures == old(requestFailures) && roots == old(roots)
    {
      var id := cur.paper.id;
      for i := 0 to |cur.citations|
        invariant nodes == InsertPapers(old(nodes), cur.citations[..i])
        invariant neighbors == LinkAll(old(neighbors), id, cur.citations[..i], true)
        invariant graphNodes == old(graphNodes) && distanceToRoot == old(distanceToRoot)
        invariant failedIds == old(failedIds) && requestFailures == old(requestFailures) && roots == old(roots)
      {
        var citing := cur.citations[i];
        ghost var done := cur.citations[..i + 1];
        assert done[..|done| - 1] == cur.citations[..i] && done[|done| - 1] == citing;
        nodes := nodes[citing.id := citing];
        assert nodes == InsertPapers(old(nodes), done);
        AddRef(citing.id, id);
        assert neighbors == LinkAll(old(neighbors), id, done, true);
      }
      assert cur.citations[..|cur.citations|] == cur.citations;
    }

    /** The second loop of `update_graph`: each referenced paper joins the pool, is cited by `cur` and relaxed. */
    method AddReferences(cur: PaperAndRefs)
      modifies this
      ensures nodes == InsertPapers(old(nodes), cur.references)
      ensures neighbors == LinkAll(old(neighbors), cur.paper.id, cur.references, false)
      ensures distanceToRoot == RelaxAll(old(distanceToRoot), cur.paper, cur.references)
      ensures graphNodes == old(graphNodes)
      ensures failedIds == old(failedIds) && requestFailures == old(requestFailures) && roots == old(roots)
    {
      var id := cur.paper.id;
      for i := 0 to |cur.references|
        invariant nodes == InsertPapers(old(nodes), cur.references[..i])
        invariant neighbors == LinkAll(old(neighbors), id, cur.references[..i], false)
        invariant distanceToRoot == RelaxAll(old(distanceToRoot), cur.paper, cur.references[..i])
        invariant graphNodes == old(graphNodes)
        invariant failedIds == old(failedIds) && requestFailures == old(requestFailures) && roots == old(roots)
      {
        var cited := cur.references[i];
        ghost var done := cur.references[..i + 1];
        assert done[..|done| - 1] == cur.references[..i] && done[|done| - 1] == cited;
        nodes := nodes[cited.id := cited];
        assert nodes == InsertPapers(old(nodes), done);
        AddRef(id, cited.id);
        assert neighbors == LinkAll(old(neighbors), id, done, false);
        RelaxEdge(cur.paper, cited);
        assert distanceToRoot == RelaxAll(old(distanceToRoot), cur.paper, done);
      }
      assert cur.references[..|cur.references|] == cur.references;
    }

    /** `api(p)`: the a-priori interest, with the included neighbours enumerated in some order. */
    method Api(p: Paper) returns (score: real)
      requires Valid()
      ensures score == ApiScore(p.id, graphNodes.Keys, neighbors, db.biblio.Contains(p), params)
    {
      if p.id == BuggyPaperId {
        return BuggyPaperScore;
      }
      var myNeighbors := Lookup(neighbors, p.id, {});
      var inGraph := graphNodes.Keys * myNeighbors;
      assert inGraph == IncludedNeighbors(p.id, graphNodes.Keys, neighbors);
      var numNewEdges := |inGraph|;
      var order := Enumerate(inGraph);
      var c := Clusterness(order, neighbors);
      ClusternessOrderFree(neighbors, order);
      var base := ApiBase(numNewEdges, c, params);
      score := if db.biblio.Contains(p) then base * 3.0 else base;
    }

    /** `degree_of_interest(p)`. */
    method DegreeOfInterest(p: Paper) returns (doi: real)
      requires Valid()
      ensures doi == Doi(p)
    {
      var api := Api(p);
      doi := params.apiWeight * api + params.distancePenalty * DistanceFromFocal(distanceToRoot, p.id);
    }

    /**
     * The `max(..., key=..., default=(None, 0))` of the main loop: a candidate of
     * the pool with the greatest degree of interest, the first one met on ties.
     */
    method PickBest() returns (best: Option<Paper>, bestDoi: real)
      requires Valid()
      ensures best.None? <==> NoCandidate()
      ensures best.None? ==> bestDoi == 0.0
      ensures best.Some? ==>
        && best.value.id in nodes && nodes[best.value.id] == best.value
        && IsCandidate(best.value) && bestDoi == Doi(best.value)
        && forall k | k in nodes && IsCandidate(nodes[k]) :: Doi(nodes[k]) <= bestDoi
    {
      var keys := Enumerate(nodes.Keys);
      var scored: seq<(Paper, real)> := [];
      for i := 0 to |keys|
        invariant forall x | x in scored ::
          x.0.id in nodes && nodes[x.0.id] == x.0 && IsCandidate(x.0) && x.1 == Doi(x.0)
        invariant forall j | 0 <= j < i && IsCandidate(nodes[keys[j]]) :: (nodes[keys[j]], Doi(nodes[keys[j]])) in scored
      {
        var n := nodes[keys[i]];
        if n.id !in graphNodes && n.id !in failedIds {
          var doi := DegreeOfInterest(n);
          scored := scored + [(n, doi)];
        }
      }
      best, bestDoi := MaxByScore(scored);
      forall k | k in nodes && IsCandidate(nodes[k]) ensures (nodes[k], Doi(nodes[k])) in scored {
        assert k in Elements(keys);
        var j :| 0 <= j < |keys| && keys[j] == k;
      }
    }

    /**
     * One round of the main loop: pick the best candidate and visit it.
     */
    method Step() returns (outcome: StepOutcome, picked: Option<PaperId>)
      requires Valid() && db.Valid()
      modifies this, db, db.biblio
      ensures Valid() && db.Valid()
      ensures roots == old(roots)
      ensures picked.None? <==> old(NoCandidate())
      ensures picked.None? ==> outcome == Exhausted && unchanged(this) && db.calls == old(db.calls)
      ensures picked.Some? ==>
        var id := picked.value;
        && outcome != Exhausted
        && id in old(nodes) && old(IsCandidate(nodes[id]))
        && (forall k | k in old(nodes) && old(IsCandidate(nodes[k])) :: old(Doi(nodes[k])) <= old(Doi(nodes[id])))
        && id in db.memcache
        && VisitEffect(id, outcome, old(nodes), old(graphNodes), old(failedIds), old(requestFailures),
                       old(neighbors), old(distanceToRoot))
      ensures |graphNodes| <= |old(graphNodes)| + 1
      ensures forall k | k in old(distanceToRoot) :: k in distanceToRoot && distanceToRoot[k] <= old(distanceToRoot[k])
    {
      var best, doi := PickBest();
      if best.None? {
        return Exhausted, None;
      }
      picked := Some(best.value.id);
      outcome := Visit(best.value.id);
    }

    /**
     * What visiting `id` did, given the state before: a failed fetch drops it
     * from the pool, marks it failed and counts the failure, aborting past the
     * limit; a successful one includes the result under the result's own id and
     * stops once the graph is full.
     */
    ghost predicate VisitEffect(id: PaperId, outcome: StepOutcome, nodes0: map<PaperId, Paper>,
                                graph0: map<PaperId, PaperAndRefs>, failed0: set<PaperId>, failures0: nat,
                                links0: map<PaperId, set<PaperId>>, dist0: map<PaperId, real>)
      reads this, db
      requires id in db.memcache
    {
      && outcome != Exhausted
      && (db.memcache[id].None? ==>
            && nodes == nodes0 - {id}
            && failedIds == failed0 + {id}
            && requestFailures == failures0 + 1
            && graphNodes == graph0
            && neighbors == links0 && distanceToRoot == dist0
            && (outcome == Aborted <==> requestFailures > FailureLimit) && outcome != Full)
      && (db.memcache[id].Some? ==>
            var got := db.memcache[id].value;
            && graphNodes == graph0[got.paper.id := got]
            && failedIds == failed0 && requestFailures == failures0
            && (outcome == Full <==> |graphNodes| >= maxSize) && outcome != Aborted
            && IncludeEffect(id, got, outcome, nodes0, links0, dist0))
    }

    /**
     * The pool, links and distances after a successful fetch of `preId` that
     * returned `got`: the pool loses `preId` when the result carries another id;
     * a full graph stops there, otherwise `update_graph(got)` pools and links the
     * citing and cited papers and relaxes distances along the references.
     */
    ghost predicate IncludeEffect(preId: PaperId, got: PaperAndRefs, outcome: StepOutcome,
                                  nodes0: map<PaperId, Paper>, links0: map<PaperId, set<PaperId>>,
                                  dist0: map<PaperId, real>)
      reads this
    {
      var pool := if preId != got.paper.id then nodes0 - {preId} else nodes0;
      && (outcome == Full ==> nodes == pool && neighbors == links0 && distanceToRoot == dist0)
      && (outcome == Continue ==>
            && nodes == InsertPapers(InsertPapers(pool, got.citations), got.references)
            && neighbors == LinkAll(LinkAll(links0, got.paper.id, got.citations, true), got.paper.id, got.references, false)
            && distanceToRoot == RelaxAll(dist0, got.paper, got.references))
    }

    /** The body of the main loop after `best` is chosen: fetch it and record the outcome. */
    method Visit(preId: PaperId) returns (outcome: StepOutcome)
      requires Valid() && db.Valid()
      requires preId in nodes && IsCandidate(nodes[preId])
      modifies this, db, db.biblio
      ensures Valid() && db.Valid()
      ensures roots == old(roots)
      ensures preId in db.memcache
      ensures VisitEffect(preId, outcome, old(nodes), old(graphNodes), old(failedIds), old(requestFailures),
                          old(neighbors), old(distanceToRoot))
      ensures |graphNodes| <= |old(graphNodes)| + 1
      ensures forall k | k in old(distanceToRoot) :: k in distanceToRoot && distanceToRoot[k] <= old(distanceToRoot[k])
    {
      var result := db.FetchCached(preId);
      if result.None? {
        outcome := Fail(preId);
      } else {
        outcome := Include(preId, result.value);
      }
    }

    /** A round whose fetch failed: the id leaves the pool, joins the failed ids and counts against the limit. */
    method Fail(preId: PaperId) returns (outcome: StepOutcome)
      requires Valid()
      modifies this
      ensures Valid()
      ensures nodes == old(nodes) - {preId} && failedIds == old(failedIds) + {preId}
      ensures requestFailures == old(requestFailures) + 1
      ensures graphNodes == old(graphNodes) && distanceToRoot == old(distanceToRoot) && roots == old(roots)
      ensures neighbors == old(neighbors)
      ensures (outcome == Aborted <==> requestFailures > FailureLimit) && (outcome == Aborted || outcome == Continue)
    {
      nodes := nodes - {preId};
      failedIds := failedIds + {preId};
      requestFailures := requestFailures + 1;
      if requestFailures > FailureLimit {
        return Aborted;
      }
      return Continue;
    }

    /**
     * The successful end of a round: include the fetched paper under its own id,
     * drop the pool entry of the id it was asked under when the two differ, then
     * stop if the graph is full or pool and link the paper's neighbours.
     */
    method Include(preId: PaperId, got: PaperAndRefs) returns (outcome: StepOutcome)
      requires Valid()
      requires preId !in graphNodes
      modifies this
      ensures Valid()
      ensures roots == old(roots)
      ensures graphNodes == old(graphNodes)[got.paper.id := got]
      ensures failedIds == old(failedIds) && requestFailures == old(requestFailures)
      ensures (outcome == Full <==> |graphNodes| >= maxSize) && (outcome == Full || outcome == Continue)
      ensures IncludeEffect(preId, got, outcome, old(nodes), old(neighbors), old(distanceToRoot))
      ensures |graphNodes| <= |old(graphNodes)| + 1
      ensures forall k | k in old(distanceToRoot) :: k in distanceToRoot && distanceToRoot[k] <= old(distanceToRoot[k])
    {
      Adopt(preId, got);
      if |graphNodes| >= maxSize {
        return Full;
      }
      UpdateGraph(got);
      outcome := Continue;
    }

    /** The paper goes into the graph under its own id and leaves the pool under the id it was asked for. */
    method Adopt(preId: PaperId, got: PaperAndRefs)
      requires Valid()
      requires preId !in graphNodes
      modifies this
      ensures Valid()
      ensures graphNodes == old(graphNodes)[got.paper.id := got]
      ensures nodes == if preId != got.paper.id then old(nodes) - {preId} else old(nodes)
      ensures |graphNodes| <= |old(graphNodes)| + 1
      ensures neighbors == old(neighbors) && distanceToRoot == old(distanceToRoot)
      ensures failedIds == old(failedIds) && requestFailures == old(requestFailures) && roots == old(roots)
    {
      graphNodes := graphNodes[got.paper.id := got];
      if preId != got.paper.id {
        nodes := nodes - {preId};
        // The source then removes `preId` from the graph if it is there; it never
        // is, since it was a candidate and the only id just added differs from it.
        assert preId !in graphNodes;
      }
      assert graphNodes.Keys <= old(graphNodes).Keys + {got.paper.id};
      SubsetCardinality(graphNodes.Keys, old(graphNodes).Keys + {got.paper.id});
    }

    /**
     * The `while True` loop of `smart_fetch`, for at most `fuel` rounds. It stops
     * when no candidate is left, when a failure takes the counter past
     * `FAILURE_LIMIT`, or when the graph reaches `max_size`.
     */
    method Run(fuel: nat) returns (outcome: StepOutcome)
      requires Valid() && db.Valid()
      requires |graphNodes| == 0 || |graphNodes| < maxSize
      modifies this, db, db.biblio
      ensures Valid() && db.Valid()
      ensures roots == old(roots)
      ensures |graphNodes| <= Max(maxSize, 1)
      ensures outcome == Exhausted ==> NoCandidate()
      ensures outcome == Aborted ==> requestFailures > FailureLimit
      ensures outcome != Aborted && requestFailures > old(requestFailures) ==> requestFailures <= FailureLimit
      ensures outcome == Full ==> |graphNodes| >= maxSize
      ensures old(failedIds) <= failedIds
      ensures requestFailures == old(requestFailures) + |failedIds - old(failedIds)|
      ensures forall k | k in old(distanceToRoot) :: k in distanceToRoot && distanceToRoot[k] <= old(distanceToRoot[k])
    {
      var remaining := fuel;
      outcome := Continue;
      while remaining > 0
        invariant Valid() && db.Valid()
        invariant roots == old(roots)
        invariant outcome == Continue
        invariant |graphNodes| == 0 || |graphNodes| < maxSize
        invariant requestFailures > old(requestFailures) ==> requestFailures <= FailureLimit
        invariant old(failedIds) <= failedIds
        invariant requestFailures == old(requestFailures) + |failedIds - old(failedIds)|
        invariant forall k | k in old(distanceToRoot) :: k in distanceToRoot && distanceToRoot[k] <= old(distanceToRoot[k])
      {
        ghost var failedBefore := failedIds;
        outcome := Advance();
        DifferenceCardinality(old(failedIds), failedBefore, failedIds);
        if outcome != Continue {
          break;
        }
        remaining := remaining - 1;
      }
    }

    /** One turn of the `while True` loop of `smart_fetch`: a step, summarised for the loop. */
    method Advance() returns (outcome: StepOutcome)
      requires Valid() && db.Valid()
      requires |graphNodes| == 0 || |graphNodes| < maxSize
      modifies this, db, db.biblio
      ensures Valid() && db.Valid()
      ensures roots == old(roots)
      ensures outcome == Exhausted ==> NoCandidate()
      ensures outcome == Aborted ==> requestFailures > FailureLimit
      ensures outcome != Aborted && requestFailures > old(requestFailures) ==> requestFailures <= FailureLimit
      ensures outcome == Full ==> |graphNodes| >= maxSize
      ensures outcome != Full ==> |graphNodes| == 0 || |graphNodes| < maxSize
      ensures |graphNodes| <= Max(maxSize, 1)
      ensures old(failedIds) <= failedIds && requestFailures == old(requestFailures) + |failedIds - old(failedIds)|
      ensures forall k | k in old(distanceToRoot) :: k in distanceToRoot && distanceToRoot[k] <= old(distanceToRoot[k])
    {
      var picked;
      outcome, picked := Step();
      if picked.Some? && db.memcache[picked.value].None? {
        assert failedIds - old(failedIds) == {picked.value};
      }
    }
  }

  /**
   * `smart_fetch(seeds, biblio, max_size, db)`, with `biblio` the bibliography of
   * `db`. The roots and the failures counted while fetching them come from
   * `batch_fetch`, which is not part of this model: each root is the paper the
   * source answers for one of the seeds.
   */
  method SmartFetch(seeds: seq<PaperId>, db: PaperDb, maxSize: int, roots: seq<PaperAndRefs>, rootFailures: nat, fuel: nat)
    returns (graph: Option<map<PaperId, PaperAndRefs>>)
    requires db.Valid()
    requires forall p | p in db.biblio.Papers() :: SeedReadable(p)
    requires forall r | r in roots :: exists s | s in seeds || s in SeedsOf(db.biblio.Papers()) ::
      db.source(s).Some? && db.source(s).value.paper.paperId == r.paper.id
    modifies db, db.biblio
    ensures db.Valid()
    ensures graph.None? <==> seeds == [] && SeedsOf(old(db.biblio.Papers())) == []
    ensures graph.None? ==> db.calls == old(db.calls) && db.memcache == old(db.memcache)
    ensures graph.Some? ==>
      && |graph.value| <= Max(maxSize, 1)
      && forall k | k in graph.value :: graph.value[k].paper.id == k
  {
    var bibSeeds := SeedsInBib(db.biblio);
    var allSeeds := Elements(seeds) + Elements(bibSeeds);
    assert seeds != [] ==> seeds[0] in allSeeds;
    assert bibSeeds != [] ==> bibSeeds[0] in allSeeds;
    if |allSeeds| == 0 {
      return None;
    }
    var explorer := new Explorer(db, DefaultParams, maxSize, roots, rootFailures);
    var outcome := explorer.Run(fuel);
    graph := Some(explorer.graphNodes);
  }
}
