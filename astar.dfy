/**
 * `initialize_graph` of `citegraph.explore`: the older A*-style crawl. Scores
 * are integers; the open set is a priority queue of `(f, id)` pairs, modelled
 * as the multiset of its entries held in a sequence (the heap layout is not
 * modelled), popped in Python's tuple order.
 */
module AStar {
  import opened Wrappers
  import opened Collections
  import opened PaperSource
  import opened Model
  import opened Semapi
  import opened Explore

  const FailureLimit := 10

  /** The `f` score every seed starts with. */
  const SeedScore := 8

  // ---------------------------------------------------------------------------
  // Costs
  // ---------------------------------------------------------------------------

  /** `cost(paper)`: the heuristic, cheaper for a bibliography paper. */
  function Cost(biblio: Biblio, p: Paper): (c: int)
    reads biblio
    ensures c == 8 || c == 20
    ensures c == 8 <==> biblio.Contains(p)
  {
    if biblio.Contains(p) then 8 else 20
  }

  /**
   * `edge_cost(src, dst)`: 6 from a bibliography paper, 7 into one, 8 otherwise,
   * less one per author in common up to three. It is always positive.
   */
  function EdgeCost(biblio: Biblio, src: Paper, dst: Paper): (c: int)
    reads biblio
    ensures 3 <= c <= 8
    ensures biblio.Contains(src) ==> c <= 6
    ensures !biblio.Contains(src) && biblio.Contains(dst) ==> c <= 7
    ensures AuthorsInCommon(src, dst) == 0 ==> c >= 6
  {
    var base := if biblio.Contains(src) then 6 else if biblio.Contains(dst) then 7 else 8;
    base - Min(AuthorsInCommon(src, dst), 3)
  }

  // ---------------------------------------------------------------------------
  // Queue order
  // ---------------------------------------------------------------------------

  /** An entry `(f, id)` of the open set. */
  datatype Entry = Entry(f: int, id: PaperId)

  /** Python's `<=` on strings: code point by code point, a prefix first. */
  predicate StrLeq(a: string, b: string) {
    if a == [] then true
    else if b == [] then false
    else if a[0] != b[0] then a[0] < b[0]
    else StrLeq(a[1..], b[1..])
  }

  lemma {:induction false} StrLeqTotal(a: string, b: string)
    ensures StrLeq(a, b) || StrLeq(b, a)
  {
    if a != [] && b != [] && a[0] == b[0] {
      StrLeqTotal(a[1..], b[1..]);
    }
  }

  lemma {:induction false} StrLeqTransitive(a: string, b: string, c: string)
    requires StrLeq(a, b) && StrLeq(b, c)
    ensures StrLeq(a, c)
  {
    if a != [] && b != [] && c != [] && a[0] == b[0] && b[0] == c[0] {
      StrLeqTransitive(a[1..], b[1..], c[1..]);
    }
  }

  lemma {:induction false} StrLeqAntisymmetric(a: string, b: string)
    requires StrLeq(a, b) && StrLeq(b, a)
    ensures a == b
  {
    if a != [] && b != [] {
      StrLeqAntisymmetric(a[1..], b[1..]);
      assert a == [a[0]] + a[1..] && b == [b[0]] + b[1..];
    }
  }

  /** Python's tuple order on `(f, id)`: by score, then by id. */
  predicate EntryLeq(a: Entry, b: Entry) {
    a.f < b.f || (a.f == b.f && StrLeq(a.id, b.id))
  }

  /** The tuple order is a total order, so the smallest entry of the queue is one value. */
  lemma EntryOrder(a: Entry, b: Entry, c: Entry)
    ensures EntryLeq(a, b) || EntryLeq(b, a)
    ensures EntryLeq(a, b) && EntryLeq(b, c) ==> EntryLeq(a, c)
    ensures EntryLeq(a, b) && EntryLeq(b, a) ==> a == b
  {
    StrLeqTotal(a.id, b.id);
    if EntryLeq(a, b) && EntryLeq(b, c) && a.f == b.f == c.f {
      StrLeqTransitive(a.id, b.id, c.id);
    }
    if EntryLeq(a, b) && EntryLeq(b, a) {
      StrLeqAntisymmetric(a.id, b.id);
    }
  }

  /** How the crawl ends. */
  datatype Outcome = QueueEmpty | Aborted | Full | OutOfFuel

  // ---------------------------------------------------------------------------
  // Relaxing the references of a fetched paper
  // ---------------------------------------------------------------------------

  /** The part of the search state the reference loop changes: `g_score`, `f_score` and the queue. */
  datatype Scores = Scores(g: map<PaperId, int>, f: map<PaperId, int>, queue: seq<Entry>)

  /** Some queued entry carries the id. */
  predicate Queued(queue: seq<Entry>, id: PaperId) {
    exists e | e in queue :: e.id == id
  }

  /**
   * The loop body for one reference `to` of the paper `from`, over an edge of
   * cost `edge` and with heuristic `h`: on a strictly shorter path `to` gets the
   * new `g`, `f = g + h`, and is queued unless an entry already carries it.
   */
  function Relax(s: Scores, from: PaperId, to: PaperId, edge: int, h: int): Scores
    requires from in s.g
  {
    var tentative := s.g[from] + edge;
    if tentative < Lookup(s.g, to, Infty) then
      Scores(s.g[to := tentative], s.f[to := tentative + h],
             s.queue + (if Queued(s.queue, to) then [] else [Entry(tentative + h, to)]))
    else s
  }

  /** The reference loop of `initialize_graph` for the paper `paper` fetched as `from`: `Relax` per reference, in order. */
  function RelaxRefs(biblio: Biblio, s: Scores, from: PaperId, paper: Paper, refs: seq<Paper>): (r: Scores)
    reads biblio
    requires from in s.g
    ensures from in r.g
    decreases |refs|
  {
    if refs == [] then s
    else
      var mid := RelaxRefs(biblio, s, from, paper, refs[..|refs| - 1]);
      var n := refs[|refs| - 1];
      Relax(mid, from, n.id, EdgeCost(biblio, paper, n), Cost(biblio, n))
  }

  /** One more turn of the loop: the fold over the next prefix relaxes the next reference. */
  lemma RelaxRefsPrefix(biblio: Biblio, s: Scores, from: PaperId, paper: Paper, refs: seq<Paper>, i: nat)
    requires from in s.g && i < |refs|
    ensures RelaxRefs(biblio, s, from, paper, refs[..i + 1]) ==
      Relax(RelaxRefs(biblio, s, from, paper, refs[..i]), from, refs[i].id, EdgeCost(biblio, paper, refs[i]), Cost(biblio, refs[i]))
  {
    assert refs[..i + 1][..i] == refs[..i];
  }

  /** The ids of the references. */
  function RefIds(refs: seq<Paper>): set<PaperId> {
    set n | n in refs :: n.id
  }

  /** One step of the loop over an edge of positive cost: what it may change. */
  lemma RelaxStep(s: Scores, from: PaperId, to: PaperId, edge: int, h: int)
    requires from in s.g && edge > 0
    ensures var r := Relax(s, from, to, edge, h);
      && r.g[from] == s.g[from]
      && (forall k | k in s.g :: k in r.g && r.g[k] <= s.g[k])
      && s.queue <= r.queue
      && r.g.Keys <= s.g.Keys + {to}
      && (forall k | k in r.g && k != to :: r.g[k] == s.g[k] && (k in s.f ==> k in r.f && r.f[k] == s.f[k]))
  {
  }

  /**
   * The loop only lowers scores and only appends to the queue, and the `g` of
   * the paper being expanded stays put, since every edge costs at least 3.
   */
  lemma {:induction false} RelaxRefsMonotone(biblio: Biblio, s: Scores, from: PaperId, paper: Paper, refs: seq<Paper>)
    requires from in s.g
    ensures var r := RelaxRefs(biblio, s, from, paper, refs);
      && r.g[from] == s.g[from]
      && (forall k | k in s.g :: k in r.g && r.g[k] <= s.g[k])
      && s.queue <= r.queue
  {
    if refs != [] {
      var init := refs[..|refs| - 1];
      var n := refs[|refs| - 1];
      RelaxRefsMonotone(biblio, s, from, paper, init);
      RelaxStep(RelaxRefs(biblio, s, from, paper, init), from, n.id, EdgeCost(biblio, paper, n), Cost(biblio, n));
    }
  }

  lemma RefIdsSnoc(refs: seq<Paper>)
    requires refs != []
    ensures RefIds(refs) == RefIds(refs[..|refs| - 1]) + {refs[|refs| - 1].id}
  {
    var init := refs[..|refs| - 1];
    assert forall n | n in refs :: n in init || n == refs[|refs| - 1];
    assert forall n | n in init :: n in refs;
  }

  /** No id other than a reference gains a `g`. */
  lemma {:induction false} RelaxRefsKeys(biblio: Biblio, s: Scores, from: PaperId, paper: Paper, refs: seq<Paper>)
    requires from in s.g
    ensures RelaxRefs(biblio, s, from, paper, refs).g.Keys <= s.g.Keys + RefIds(refs)
  {
    if refs != [] {
      var init := refs[..|refs| - 1];
      var n := refs[|refs| - 1];
      RelaxRefsKeys(biblio, s, from, paper, init);
      RelaxStep(RelaxRefs(biblio, s, from, paper, init), from, n.id, EdgeCost(biblio, paper, n), Cost(biblio, n));
      RefIdsSnoc(refs);
    }
  }

  /** Only references are touched: any other id keeps its `g` and `f`. */
  lemma {:induction false} RelaxRefsLocal(biblio: Biblio, s: Scores, from: PaperId, paper: Paper, refs: seq<Paper>)
    requires from in s.g
    ensures var r := RelaxRefs(biblio, s, from, paper, refs);
      forall k | k in r.g && k !in RefIds(refs) :: k in s.g && r.g[k] == s.g[k] && (k in s.f ==> k in r.f && r.f[k] == s.f[k])
  {
    if refs != [] {
      var init := refs[..|refs| - 1];
      var n := refs[|refs| - 1];
      var mid := RelaxRefs(biblio, s, from, paper, init);
      RelaxRefsLocal(biblio, s, from, paper, init);
      RelaxStep(mid, from, n.id, EdgeCost(biblio, paper, n), Cost(biblio, n));
      RefIdsSnoc(refs);
    }
  }

  /**
   * After the loop every reference `n` is reached at most through the expanded
   * paper: `g_score.get(n.id, Infty) <= g[from] + edge_cost(paper, n)`.
   */
  lemma {:induction false} RelaxRefsReaches(biblio: Biblio, s: Scores, from: PaperId, paper: Paper, refs: seq<Paper>)
    requires from in s.g
    ensures var r := RelaxRefs(biblio, s, from, paper, refs);
      forall n | n in refs :: Lookup(r.g, n.id, Infty) <= r.g[from] + EdgeCost(biblio, paper, n)
  {
    if refs != [] {
      var init := refs[..|refs| - 1];
      var last := refs[|refs| - 1];
      var mid := RelaxRefs(biblio, s, from, paper, init);
      RelaxRefsReaches(biblio, s, from, paper, init);
      RelaxStep(mid, from, last.id, EdgeCost(biblio, paper, last), Cost(biblio, last));
      var r := RelaxRefs(biblio, s, from, paper, refs);
      forall n | n in refs ensures Lookup(r.g, n.id, Infty) <= r.g[from] + EdgeCost(biblio, paper, n) {
        if n != last {
          assert n in init by {
            var k :| 0 <= k < |refs| && refs[k] == n;
            assert k < |refs| - 1 && init[k] == n;
          }
          assert Lookup(r.g, n.id, Infty) <= Lookup(mid.g, n.id, Infty);
        }
      }
    }
  }

  /**
   * Every id whose `g` the loop set, lowered or new, is a reference: its `f` is
   * its `g` plus the heuristic of that reference, and an entry carries it in
   * the queue.
   */
  lemma {:induction false} RelaxRefsSets(biblio: Biblio, s: Scores, from: PaperId, paper: Paper, refs: seq<Paper>)
    requires from in s.g
    ensures var r := RelaxRefs(biblio, s, from, paper, refs);
      forall k | k in r.g && (k !in s.g || r.g[k] != s.g[k]) ::
        && Queued(r.queue, k)
        && exists n | n in refs :: n.id == k && k in r.f && r.f[k] == r.g[k] + Cost(biblio, n)
  {
    if refs != [] {
      var init := refs[..|refs| - 1];
      var last := refs[|refs| - 1];
      var mid := RelaxRefs(biblio, s, from, paper, init);
      var r := RelaxRefs(biblio, s, from, paper, refs);
      RelaxRefsSets(biblio, s, from, paper, init);
      RelaxRefsMonotone(biblio, s, from, paper, init);
      assert mid.queue <= r.queue;
      forall k | k in r.g && (k !in s.g || r.g[k] != s.g[k])
        ensures Queued(r.queue, k)
        ensures exists n | n in refs :: n.id == k && k in r.f && r.f[k] == r.g[k] + Cost(biblio, n)
      {
        if k == last.id && r != mid {
          assert last in refs && r.f[k] == r.g[k] + Cost(biblio, last);
          if !Queued(mid.queue, k) {
            assert r.queue[|r.queue| - 1].id == k;
          } else {
            var e :| e in mid.queue && e.id == k;
            assert e in r.queue;
          }
        } else {
          assert k in mid.g && r.g[k] == mid.g[k];
          assert k in mid.f ==> k in r.f && r.f[k] == mid.f[k];
          var n :| n in init && n.id == k && k in mid.f && mid.f[k] == mid.g[k] + Cost(biblio, n);
          assert n in refs;
          var e :| e in mid.queue && e.id == k;
          assert e in r.queue;
        }
      }
    }
  }

  /** `is_not_in_open_set` keeps the loop from queueing an id twice: each appended entry carries a new id. */
  lemma {:induction false} RelaxRefsFresh(biblio: Biblio, s: Scores, from: PaperId, paper: Paper, refs: seq<Paper>)
    requires from in s.g
    ensures var r := RelaxRefs(biblio, s, from, paper, refs);
      forall i, j | 0 <= i < j < |r.queue| && |s.queue| <= j :: r.queue[i].id != r.queue[j].id
  {
    if refs != [] {
      var init := refs[..|refs| - 1];
      var mid := RelaxRefs(biblio, s, from, paper, init);
      var r := RelaxRefs(biblio, s, from, paper, refs);
      RelaxRefsFresh(biblio, s, from, paper, init);
      RelaxRefsMonotone(biblio, s, from, paper, init);
      if |r.queue| > |mid.queue| {
        var last := r.queue[|r.queue| - 1];
        assert !Queued(mid.queue, last.id);
        forall i | 0 <= i < |mid.queue| ensures r.queue[i].id != last.id {
          assert r.queue[i] == mid.queue[i] && mid.queue[i] in mid.queue;
        }
      }
    }
  }

  // ---------------------------------------------------------------------------
  // The search
  // ---------------------------------------------------------------------------

  /** The state of one run of `initialize_graph`. */
  class Search {
    const db: PaperDb
    const maxSize: int
    /** `open_set`, as the multiset of its entries. */
    var openSet: seq<Entry>
    /** `g_score`: the cost of the best path found from a seed. */
    var gScore: map<PaperId, int>
    /** `f_score`: the cost plus the heuristic. */
    var fScore: map<PaperId, int>
    /** `nodes`: each fetched paper, under the id it was requested with. */
    var nodes: map<PaperId, PaperAndRefs>
    var failures: nat

    ghost predicate Valid()
      reads this
    {
      && gScore.Keys == fScore.Keys
      && (forall e | e in openSet :: e.id in gScore)
      && (forall k | k in gScore :: gScore[k] >= 0)
    }

    /** The set-up: every seed at `g = 0` and `f = 8`, and queued, in order. */
    constructor (db: PaperDb, maxSize: int, seeds: seq<PaperId>)
      ensures Valid()
      ensures this.db == db && this.maxSize == maxSize
      ensures gScore == map id | id in seeds :: 0
      ensures fScore == map id | id in seeds :: SeedScore
      ensures openSet == seq(|seeds|, i requires 0 <= i < |seeds| => Entry(SeedScore, seeds[i]))
      ensures nodes == map[] && failures == 0
    {
      this.db := db;
      this.maxSize := maxSize;
      gScore := map id | id in seeds :: 0;
      fScore := map id | id in seeds :: SeedScore;
      nodes := map[];
      failures := 0;
      openSet := [];
      new;
      for i := 0 to |seeds|
        invariant Valid()
        invariant gScore == map id | id in seeds :: 0
        invariant fScore == map id | id in seeds :: SeedScore
        invariant openSet == seq(i, j requires 0 <= j < i => Entry(SeedScore, seeds[j]))
        invariant nodes == map[] && failures == 0
      {
        Push(seeds[i]);
      }
    }

    /** `push(id)`: queue the id with its current `f` score. */
    method Push(id: PaperId)
      requires id in fScore
      modifies this
      ensures gScore == old(gScore) && fScore == old(fScore) && nodes == old(nodes) && failures == old(failures)
      ensures openSet == old(openSet) + [Entry(fScore[id], id)]
    {
      var f := fScore[id];
      openSet := openSet + [Entry(f, id)];
    }

    /** `is_not_in_open_set(p)`, on `p`'s id: no queued entry carries it. */
    method IsNotInOpenSet(id: PaperId) returns (b: bool)
      ensures b <==> forall e | e in openSet :: e.id != id
    {
      for i := 0 to |openSet|
        invariant forall j | 0 <= j < i :: openSet[j].id != id
      {
        if openSet[i].id == id {
          return false;
        }
      }
      return true;
    }

    /** The position of the smallest queued entry. */
    method FindMin() returns (m: nat)
      requires |openSet| > 0
      ensures m < |openSet|
      ensures forall j | 0 <= j < |openSet| :: EntryLeq(openSet[m], openSet[j])
    {
      m := 0;
      EntryOrder(openSet[0], openSet[0], openSet[0]);
      for i := 1 to |openSet|
        invariant m < |openSet|
        invariant forall j | 0 <= j < i :: EntryLeq(openSet[m], openSet[j])
      {
        EntryOrder(openSet[m], openSet[i], openSet[m]);
        EntryOrder(openSet[i], openSet[i], openSet[i]);
        if !EntryLeq(openSet[m], openSet[i]) {
          forall j | 0 <= j < i
            ensures EntryLeq(openSet[i], openSet[j])
          {
            EntryOrder(openSet[i], openSet[m], openSet[j]);
          }
          m := i;
        }
      }
    }

    /** `open_set.get()`: remove and return the smallest entry. */
    method PopMin() returns (e: Entry)
      requires Valid() && |openSet| > 0
      modifies this
      ensures Valid()
      ensures e in old(openSet)
      ensures forall x | x in old(openSet) :: EntryLeq(e, x)
      ensures multiset(openSet) == multiset(old(openSet)) - multiset{e}
      ensures gScore == old(gScore) && fScore == old(fScore) && nodes == old(nodes) && failures == old(failures)
    {
      var m := FindMin();
      e := openSet[m];
      assert openSet == openSet[..m] + [e] + openSet[m + 1..];
      openSet := openSet[..m] + openSet[m + 1..];
    }

    /**
     * The inner loop body of `initialize_graph` for a reference `neighborId` of
     * the paper fetched as `paperId`, reached over an edge of cost `edge` and with
     * heuristic `h`: on a strictly shorter path the neighbour gets the new `g`,
     * `f = g + h`, and is queued unless an entry already carries its id.
     */
    method RelaxNeighbor(paperId: PaperId, neighborId: PaperId, edge: int, h: int)
      requires Valid() && paperId in gScore && edge >= 0
      modifies this
      ensures Valid()
      ensures Scores(gScore, fScore, openSet) == Relax(Scores(old(gScore), old(fScore), old(openSet)), paperId, neighborId, edge, h)
      ensures nodes == old(nodes) && failures == old(failures)
    {
      var tentative := Lookup(gScore, paperId, Infty) + edge;
      if tentative < Lookup(gScore, neighborId, Infty) {
        gScore := gScore[neighborId := tentative];
        fScore := fScore[neighborId := Lookup(gScore, neighborId, Infty) + h];
        var notQueued := IsNotInOpenSet(neighborId);
        if notQueued {
          Push(neighborId);
        }
      }
    }

    /**
     * The loop over the references of a fetched paper: the scores and the queue
     * become `RelaxRefs` of the old ones, so `g` scores only ever drop.
     */
    method RelaxReferences(paperId: PaperId, result: PaperAndRefs)
      requires Valid() && paperId in gScore
      modifies this
      ensures Valid()
      ensures Scores(gScore, fScore, openSet) ==
        RelaxRefs(db.biblio, Scores(old(gScore), old(fScore), old(openSet)), paperId, result.paper, result.references)
      ensures paperId in gScore && gScore[paperId] <= old(gScore[paperId])
      ensures forall k | k in old(gScore) :: k in gScore && gScore[k] <= old(gScore[k])
      ensures nodes == old(nodes) && failures == old(failures)
      ensures old(openSet) <= openSet
    {
      ghost var start := Scores(gScore, fScore, openSet);
      var refs := result.references;
      for i := 0 to |refs|
        invariant Valid() && paperId in gScore
        invariant Scores(gScore, fScore, openSet) == RelaxRefs(db.biblio, start, paperId, result.paper, refs[..i])
        invariant nodes == old(nodes) && failures == old(failures)
      {
        var neighbor := refs[i];
        RelaxRefsPrefix(db.biblio, start, paperId, result.paper, refs, i);
        RelaxNeighbor(paperId, neighbor.id, EdgeCost(db.biblio, result.paper, neighbor), Cost(db.biblio, neighbor));
      }
      assert refs[..|refs|] == refs;
      assert old(openSet) <= openSet && gScore[paperId] == old(gScore[paperId])
          && forall k | k in old(gScore) :: k in gScore && gScore[k] <= old(gScore[k]) by {
        RelaxRefsMonotone(db.biblio, start, paperId, result.paper, refs);
      }
    }

    /**
     * The `while open_set.qsize() > 0` loop, for at most `fuel` rounds. A failed
     * fetch is counted and the loop gives up past ten; a fetched paper is stored
     * under the requested id, and the loop stops once `max_size` papers are stored.
     */
    method Run(fuel: nat) returns (outcome: Outcome)
      requires Valid() && db.Valid()
      requires |nodes| == 0 || |nodes| < maxSize
      requires failures <= FailureLimit
      requires forall k | k in nodes :: k in db.memcache && db.memcache[k] == Some(nodes[k])
      modifies this, db, db.biblio
      ensures Valid() && db.Valid()
      ensures |nodes| <= Max(maxSize, 1)
      ensures failures <= FailureLimit + 1
      ensures outcome == Aborted <==> failures > FailureLimit
      ensures outcome == Full ==> |nodes| >= maxSize
      ensures outcome == QueueEmpty ==> openSet == []
      ensures forall k | k in nodes :: k in db.memcache && db.memcache[k] == Some(nodes[k])
      ensures forall k | k in old(gScore) :: k in gScore && gScore[k] <= old(gScore[k])
      ensures old(nodes).Keys <= nodes.Keys
    {
      var remaining := fuel;
      while true
        invariant Valid() && db.Valid()
        invariant |nodes| == 0 || |nodes| < maxSize
        invariant failures <= FailureLimit
        invariant forall k | k in nodes :: k in db.memcache && db.memcache[k] == Some(nodes[k])
        invariant forall k | k in old(gScore) :: k in gScore && gScore[k] <= old(gScore[k])
        invariant old(nodes).Keys <= nodes.Keys
        decreases remaining
      {
        if |openSet| == 0 {
          return QueueEmpty;
        }
        if remaining == 0 {
          return OutOfFuel;
        }
        remaining := remaining - 1;
        var stop, popped, rest := Expand();
        if stop.Some? {
          return stop.value;
        }
      }
    }

    /**
     * One round of that loop: pop the best entry and fetch it; a failure is
     * counted, a paper is stored under the popped id and, while there is room,
     * its references relaxed, which only queues more entries.
     */
    method Expand() returns (stop: Option<Outcome>, ghost popped: Entry, ghost rest: seq<Entry>)
      requires Valid() && db.Valid() && |openSet| > 0
      requires |nodes| == 0 || |nodes| < maxSize
      requires failures <= FailureLimit
      requires forall k | k in nodes :: k in db.memcache && db.memcache[k] == Some(nodes[k])
      modifies this, db, db.biblio
      ensures Valid() && db.Valid()
      ensures |nodes| <= Max(maxSize, 1) && failures <= FailureLimit + 1
      ensures stop.None? ==> (|nodes| == 0 || |nodes| < maxSize) && failures <= FailureLimit
      ensures stop.Some? ==> stop.value == Aborted || stop.value == Full
      ensures stop == Some(Aborted) <==> failures > FailureLimit
      ensures stop == Some(Full) ==> |nodes| >= maxSize
      ensures forall k | k in nodes :: k in db.memcache && db.memcache[k] == Some(nodes[k])
      ensures forall k | k in old(gScore) :: k in gScore && gScore[k] <= old(gScore[k])
      ensures popped in old(openSet) && forall x | x in old(openSet) :: EntryLeq(popped, x)
      ensures popped.id in db.memcache
      ensures multiset(rest) == multiset(old(openSet)) - multiset{popped}
      ensures db.memcache[popped.id].None? ==>
        && failures == old(failures) + 1 && nodes == old(nodes)
        && gScore == old(gScore) && fScore == old(fScore) && openSet == rest
      ensures db.memcache[popped.id].Some? ==>
        var paper := db.memcache[popped.id].value;
        && failures == old(failures)
        && nodes == old(nodes)[popped.id := paper]
        && (stop.None? ==>
              Scores(gScore, fScore, openSet) ==
              RelaxRefs(db.biblio, Scores(old(gScore), old(fScore), rest), popped.id, paper.paper, paper.references))
        && (stop.Some? ==> gScore == old(gScore) && fScore == old(fScore) && openSet == rest)
        && multiset(old(openSet)) - multiset{popped} <= multiset(openSet)
    {
      var entry := PopMin();
      popped, rest := entry, openSet;
      assert entry.id in gScore;
      var paperId := entry.id;
      var result := db.FetchCached(paperId);
      if result.None? {
        failures := failures + 1;
        if failures > FailureLimit {
          return Some(Aborted), popped, rest;
        }
        return None, popped, rest;
      }
      stop := Store(paperId, result.value);
    }

    /** A fetched paper is stored under the requested id; while there is room its references are relaxed. */
    method Store(paperId: PaperId, paper: PaperAndRefs) returns (stop: Option<Outcome>)
      requires Valid() && paperId in gScore
      requires |nodes| == 0 || |nodes| < maxSize
      modifies this
      ensures Valid()
      ensures nodes == old(nodes)[paperId := paper] && failures == old(failures)
      ensures old(openSet) <= openSet && multiset(old(openSet)) <= multiset(openSet)
      ensures |nodes| <= Max(maxSize, 1)
      ensures stop.None? ==> |nodes| < maxSize
      ensures stop.Some? ==> stop.value == Full && |nodes| >= maxSize
      ensures stop.None? ==>
        Scores(gScore, fScore, openSet) ==
        RelaxRefs(db.biblio, Scores(old(gScore), old(fScore), old(openSet)), paperId, paper.paper, paper.references)
      ensures stop.Some? ==> gScore == old(gScore) && fScore == old(fScore) && openSet == old(openSet)
      ensures forall k | k in old(gScore) :: k in gScore && gScore[k] <= old(gScore[k])
    {
      ghost var keysBefore := nodes.Keys;
      nodes := nodes[paperId := paper];
      assert nodes.Keys <= keysBefore + {paperId};
      SubsetCardinality(nodes.Keys, keysBefore + {paperId});
      if |nodes| >= maxSize {
        return Some(Full);
      }
      ghost var queued := openSet;
      RelaxReferences(paperId, paper);
      assert openSet == queued + openSet[|queued|..];
      return None;
    }
  }

  /**
   * `initialize_graph(seeds, biblio, max_size, db)`, with `biblio` the
   * bibliography of `db`: the given seeds followed by those of the bibliography
   * start the search.
   */
  method InitializeGraph(seeds: seq<PaperId>, db: PaperDb, maxSize: int, fuel: nat)
    returns (graph: map<PaperId, PaperAndRefs>)
    requires db.Valid()
    requires forall p | p in db.biblio.Papers() :: SeedReadable(p)
    modifies db, db.biblio
    ensures db.Valid()
    ensures |graph| <= Max(maxSize, 1)
    ensures forall k | k in graph :: k in db.memcache && db.memcache[k] == Some(graph[k])
  {
    var bibSeeds := SeedsInBib(db.biblio);
    var search := new Search(db, maxSize, seeds + bibSeeds);
    var outcome := search.Run(fuel);
    graph := search.nodes;
  }
}
