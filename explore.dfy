/**
 * The scoring arithmetic and the seed extraction of `citegraph.explore`:
 * author similarity, the a-priori interest `api`, the degree of interest that
 * ranks candidates, and `seeds_in_bib`. Python floats are modelled as `real`.
 */
module Explore {
  import opened Wrappers
  import opened Text
  import opened Collections
  import opened PaperSource
  import opened Model
  import opened Clustering

  /** `Infty = 2 ** 1000`, the distance of a paper not reached yet. */
  const Infty: int := 10715086071862673209484250490600018105614048117055336074437503883703510511249361224931983788156958581275946729175531468251871452856923140435984577574698574803934567774824230985421074605062371141877954182153046474983581941267398767559165543946077062914571196477686542167660429831652624386837205668069376

  /** The record with a quarter of a million citations that `api` excludes. */
  const BuggyPaperId := "bdc3d618db015b2f17cd76224a942bfdfc36dc73"
  const BuggyPaperScore := -1000.0

  /** `max_disinterest` of `edge_disinterest`. */
  const MaxDisinterest := 5.0

  /** The distance of a paper `distance_from_focal` finds no entry for. */
  const UnknownDistance := 10.0

  const PaperIdAttr := "paperId"
  const JournalAttr := "journal"
  const VolumeAttr := "volume"
  const ArxivJournal := "arxiv"
  const ArxivVolumePrefix := "abs/"
  const ArxivIdPrefix := "arXiv:"

  function Min(a: int, b: int): int {
    if a <= b then a else b
  }

  function Max(a: int, b: int): int {
    if a >= b then a else b
  }

  // ---------------------------------------------------------------------------
  // Authors
  // ---------------------------------------------------------------------------

  /** An author as `author_set` sees it: the last names joined by spaces. */
  function AuthorKey(a: Author): string {
    Join(a, " ")
  }

  function AuthorKeys(authors: seq<Author>): set<string> {
    set a | a in authors :: AuthorKey(a)
  }

  /** `author_set(p)`. */
  function AuthorSet(p: Paper): set<string> {
    AuthorKeys(p.authors)
  }

  /** Two authors may share a key, so the set is never larger than the list. */
  lemma {:induction false} AuthorKeysBound(authors: seq<Author>)
    ensures |AuthorKeys(authors)| <= |authors|
  {
    if authors != [] {
      var init := authors[..|authors| - 1];
      AuthorKeysBound(init);
      assert AuthorKeys(authors) == AuthorKeys(init) + {AuthorKey(authors[|authors| - 1])} by {
        assert forall a | a in authors :: a in init || a == authors[|authors| - 1];
      }
    }
  }

  /** `authors_in_common(p1, p2)`: the size of the intersection of the author sets. */
  function AuthorsInCommon(p1: Paper, p2: Paper): nat {
    |AuthorSet(p1) * AuthorSet(p2)|
  }

  /** The count is symmetric and bounded by either paper's author set and author list. */
  lemma AuthorsInCommonBounds(p1: Paper, p2: Paper)
    ensures AuthorsInCommon(p1, p2) == AuthorsInCommon(p2, p1)
    ensures AuthorsInCommon(p1, p2) <= |AuthorSet(p1)| && AuthorsInCommon(p1, p2) <= |AuthorSet(p2)|
    ensures AuthorsInCommon(p1, p2) <= |p1.authors| && AuthorsInCommon(p1, p2) <= |p2.authors|
  {
    assert AuthorSet(p1) * AuthorSet(p2) == AuthorSet(p2) * AuthorSet(p1);
    SubsetCardinality(AuthorSet(p1) * AuthorSet(p2), AuthorSet(p1));
    SubsetCardinality(AuthorSet(p1) * AuthorSet(p2), AuthorSet(p2));
    AuthorKeysBound(p1.authors);
    AuthorKeysBound(p2.authors);
  }

  /** `authors_similarity(p1, p2)`: `(1 + in common) / (1 + the smaller author count)`. */
  function AuthorsSimilarity(p1: Paper, p2: Paper): real {
    (1 + AuthorsInCommon(p1, p2)) as real / (1 + Min(|p1.authors|, |p2.authors|)) as real
  }

  /** The similarity is symmetric and lies in (0, 1]. */
  lemma AuthorsSimilarityBounds(p1: Paper, p2: Paper)
    ensures AuthorsSimilarity(p1, p2) == AuthorsSimilarity(p2, p1)
    ensures 0.0 < AuthorsSimilarity(p1, p2) <= 1.0
  {
    AuthorsInCommonBounds(p1, p2);
    RatioBounds(1 + AuthorsInCommon(p1, p2), 1 + Min(|p1.authors|, |p2.authors|));
  }

  /** A ratio of positive integers whose numerator is at most its denominator lies in (0, 1]. */
  lemma RatioBounds(num: int, den: int)
    requires 0 < num <= den
    ensures 0.0 < num as real / den as real <= 1.0
  {
    var q := num as real / den as real;
    assert q * den as real == num as real;
    if q > 1.0 {
      MulMonotone(1.0, q, den as real, den as real);
    }
  }

  /** `edge_disinterest(src, dst)`: `1 + 5 * (1 - similarity)`, which lies in [1, 6). */
  function EdgeDisinterest(src: Paper, dst: Paper): (r: real)
    ensures 1.0 <= r < 6.0
  {
    AuthorsSimilarityBounds(src, dst);
    1.0 + MaxDisinterest * (1.0 - AuthorsSimilarity(src, dst))
  }

  /** Both directions of an edge are equally uninteresting. */
  lemma EdgeDisinterestSymmetric(src: Paper, dst: Paper)
    ensures EdgeDisinterest(src, dst) == EdgeDisinterest(dst, src)
  {
    AuthorsSimilarityBounds(src, dst);
  }

  // ---------------------------------------------------------------------------
  // Parameters and interest
  // ---------------------------------------------------------------------------

  /** `Params`, the weights of the degree of interest. */
  datatype Params = Params(apiWeight: real, distancePenalty: real, degreeCut: int, clusteringFactor: real)

  /** `DEFAULT_PARAMS`. */
  const DefaultParams := Params(1.0, -1.5, 5, 1.0)

  /** The signs the field comments of `Params` demand. */
  predicate ValidParams(params: Params) {
    params.apiWeight > 0.0 && params.distancePenalty < 0.0 && params.degreeCut > 0 && params.clusteringFactor > 0.0
  }

  lemma DefaultParamsValid()
    ensures ValidParams(DefaultParams)
  {
  }

  /** `neighbors_in_graph`: the neighbours of `id` that are already in the graph. */
  function IncludedNeighbors(id: PaperId, graph: set<PaperId>, nb: Neighbors): (s: set<PaperId>)
    ensures forall x :: x in s <==> x in graph && AreNeighbors(nb, id, x)
  {
    if id in nb then graph * nb[id] else {}
  }

  /**
   * `api(p)`: the a-priori interest of a paper whose included neighbours are
   * `IncludedNeighbors(id, graph, nb)`, tripled for a bibliography paper.
   */
  ghost function ApiScore(id: PaperId, graph: set<PaperId>, nb: Neighbors, inBiblio: bool, params: Params): real {
    if id == BuggyPaperId then BuggyPaperScore
    else
      var inGraph := IncludedNeighbors(id, graph, nb);
      var base := ApiBase(|inGraph|, ClusternessOf(nb, inGraph), params);
      if inBiblio then base * 3.0 else base
  }

  /** `base` of `api`: the capped edge count, weighted by the clustering. */
  function ApiBase(edges: nat, clusterness: real, params: Params): real {
    Min(edges, params.degreeCut) as real * (1.0 + params.clusteringFactor * clusterness)
  }

  /**
   * The excluded record scores -1000; any other paper scores at least 0, exactly 0
   * without an included neighbour, and three times as much inside the bibliography.
   */
  lemma ApiScoreProperties(id: PaperId, graph: set<PaperId>, nb: Neighbors, params: Params)
    requires params.degreeCut >= 0 && params.clusteringFactor >= 0.0
    ensures id == BuggyPaperId ==>
      ApiScore(id, graph, nb, true, params) == ApiScore(id, graph, nb, false, params) == -1000.0
    ensures id != BuggyPaperId ==>
      && ApiScore(id, graph, nb, false, params) >= 0.0
      && ApiScore(id, graph, nb, true, params) == 3.0 * ApiScore(id, graph, nb, false, params)
    ensures id != BuggyPaperId && IncludedNeighbors(id, graph, nb) == {} ==>
      ApiScore(id, graph, nb, true, params) == ApiScore(id, graph, nb, false, params) == 0.0
  {
    if id != BuggyPaperId {
      var inGraph := IncludedNeighbors(id, graph, nb);
      ClusternessOfBounds(nb, inGraph);
      ApiBaseBounds(|inGraph|, ClusternessOf(nb, inGraph), params);
    }
  }

  /** The base lies between 0 and `degree_cut * (1 + clustering_factor)` for a clusterness in [0, 1]. */
  lemma ApiBaseBounds(edges: nat, clusterness: real, params: Params)
    requires params.degreeCut >= 0 && params.clusteringFactor >= 0.0
    requires 0.0 <= clusterness <= 1.0
    ensures 0.0 <= ApiBase(edges, clusterness, params) <= params.degreeCut as real * (1.0 + params.clusteringFactor)
  {
    var cf := params.clusteringFactor;
    var cut := Min(edges, params.degreeCut) as real;
    assert 0.0 <= cf * clusterness <= cf by {
      MulMonotone(cf, cf, clusterness, 1.0);
    }
    MulMonotone(cut, params.degreeCut as real, 1.0 + cf * clusterness, 1.0 + cf);
  }

  /** No score exceeds `3 * degree_cut * (1 + clustering_factor)`. */
  lemma ApiScoreUpperBound(id: PaperId, graph: set<PaperId>, nb: Neighbors, inBiblio: bool, params: Params)
    requires ValidParams(params)
    ensures ApiScore(id, graph, nb, inBiblio, params) <= 3.0 * params.degreeCut as real * (1.0 + params.clusteringFactor)
  {
    MulMonotone(0.0, params.degreeCut as real, 0.0, 1.0 + params.clusteringFactor);
    if id != BuggyPaperId {
      var inGraph := IncludedNeighbors(id, graph, nb);
      ClusternessOfBounds(nb, inGraph);
      ApiBaseBounds(|inGraph|, ClusternessOf(nb, inGraph), params);
    }
  }

  /** Products of non-negative reals grow with their factors. */
  lemma MulMonotone(a: real, b: real, c: real, d: real)
    requires 0.0 <= a <= b && 0.0 <= c <= d
    ensures a * c <= b * d
  {
    assert a * c <= a * d by {
      assert a * d - a * c == a * (d - c);
    }
    assert a * d <= b * d by {
      assert b * d - a * d == (b - a) * d;
    }
  }

  /**
   * A paper with exactly one included neighbour outside the bibliography scores 1:
   * one edge and a clusterness of 0.
   */
  lemma ApiScoreOneNeighbor(id: PaperId, graph: set<PaperId>, nb: Neighbors, x: PaperId, params: Params)
    requires id != BuggyPaperId && params.degreeCut >= 1
    requires IncludedNeighbors(id, graph, nb) == {x}
    ensures ApiScore(id, graph, nb, false, params) == 1.0
    ensures ApiScore(id, graph, nb, true, params) == 3.0
  {
    ClusternessOfSingleton(nb, x);
    assert |{x}| == 1;
  }

  /** `distance_from_focal(p)`: the recorded distance, 10 without an entry. */
  function DistanceFromFocal(distance: map<PaperId, real>, id: PaperId): (d: real)
    ensures id in distance ==> d == distance[id]
    ensures id !in distance ==> d == UnknownDistance
  {
    if id in distance then distance[id] else UnknownDistance
  }

  /** `degree_of_interest(p)` from the paper's `api` score and its distance. */
  function Interest(api: real, distance: real, params: Params): real {
    params.apiWeight * api + params.distancePenalty * distance
  }

  /**
   * With the signs `Params` demands, a higher `api` score and a smaller distance
   * never lower the degree of interest, and a strict gain in either raises it.
   */
  lemma InterestMonotone(params: Params, api1: real, d1: real, api2: real, d2: real)
    requires ValidParams(params)
    requires api1 >= api2 && d1 <= d2
    ensures Interest(api1, d1, params) >= Interest(api2, d2, params)
    ensures (api1 > api2 || d1 < d2) ==> Interest(api1, d1, params) > Interest(api2, d2, params)
  {
    var w, pen := params.apiWeight, params.distancePenalty;
    assert w * api1 - w * api2 == w * (api1 - api2);
    assert pen * d1 - pen * d2 == pen * (d1 - d2);
    assert w * (api1 - api2) >= 0.0;
    assert pen * (d1 - d2) >= 0.0;
    if api1 > api2 {
      assert w * (api1 - api2) > 0.0;
    }
    if d1 < d2 {
      assert pen * (d1 - d2) > 0.0;
    }
  }

  // ---------------------------------------------------------------------------
  // Seeds
  // ---------------------------------------------------------------------------

  /** An entry without a paper id whose journal lower-cases to "arxiv". */
  predicate ArxivEntry(p: Paper) {
    && !Truthy(Attr(p, PaperIdAttr))
    && Truthy(Attr(p, JournalAttr))
    && Lower(Attr(p, JournalAttr).value) == ArxivJournal
  }

  /**
   * `seeds_in_bib` reads the volume of an arXiv entry with `startswith`, which
   * raises on an entry without one: its callers need every arXiv entry to have it.
   */
  predicate SeedReadable(p: Paper) {
    ArxivEntry(p) ==> Attr(p, VolumeAttr).Some?
  }

  /** The seed one bibliography entry contributes, if any. */
  function EntrySeed(p: Paper): (r: Option<PaperId>)
    requires SeedReadable(p)
    ensures Truthy(Attr(p, PaperIdAttr)) ==> r == Some(Attr(p, PaperIdAttr).value)
    ensures ArxivEntry(p) ==>
      var volume := Attr(p, VolumeAttr).value;
      (r.Some? <==> StartsWith(volume, ArxivVolumePrefix)) &&
      (r.Some? ==> r.value == ArxivIdPrefix + volume[|ArxivVolumePrefix|..])
    ensures !Truthy(Attr(p, PaperIdAttr)) && !ArxivEntry(p) ==> r == None
  {
    var pid := Attr(p, PaperIdAttr);
    if Truthy(pid) then Some(pid.value)
    else if ArxivEntry(p) then
      var volume := Attr(p, VolumeAttr).value;
      if StartsWith(volume, ArxivVolumePrefix) then Some(ArxivIdPrefix + volume[|ArxivVolumePrefix|..]) else None
    else None
  }

  /** The seeds of a sequence of entries, in order. */
  function SeedsOf(ps: seq<Paper>): seq<PaperId>
    requires forall p | p in ps :: SeedReadable(p)
  {
    if ps == [] then []
    else
      var last := ps[|ps| - 1];
      SeedsOf(ps[..|ps| - 1]) + (match EntrySeed(last) case Some(s) => [s] case None => [])
  }

  /** At most one seed per entry. */
  lemma {:induction false} SeedsOfLength(ps: seq<Paper>)
    requires forall p | p in ps :: SeedReadable(p)
    ensures |SeedsOf(ps)| <= |ps|
  {
    if ps != [] {
      SeedsOfLength(ps[..|ps| - 1]);
    }
  }

  /** The seeds follow the entries' order: the seeds of a concatenation are the concatenation of the seeds. */
  lemma {:induction false} SeedsOfConcat(a: seq<Paper>, b: seq<Paper>)
    requires forall p | p in a + b :: SeedReadable(p)
    ensures SeedsOf(a + b) == SeedsOf(a) + SeedsOf(b)
  {
    if b == [] {
      assert a + b == a;
    } else {
      assert (a + b)[..|a + b| - 1] == a + b[..|b| - 1];
      SeedsOfConcat(a, b[..|b| - 1]);
    }
  }

  /** A seed comes from an entry, and every entry's seed is present. */
  lemma {:induction false} SeedsOfMembership(ps: seq<Paper>, x: PaperId)
    requires forall p | p in ps :: SeedReadable(p)
    ensures x in SeedsOf(ps) <==> exists i | 0 <= i < |ps| :: EntrySeed(ps[i]) == Some(x)
  {
    if ps != [] {
      var init, last := ps[..|ps| - 1], ps[|ps| - 1];
      SeedsOfMembership(init, x);
      assert x in SeedsOf(ps) <==> x in SeedsOf(init) || EntrySeed(last) == Some(x);
      if x in SeedsOf(init) {
        var i :| 0 <= i < |init| && EntrySeed(init[i]) == Some(x);
        assert ps[i] == init[i];
      } else if EntrySeed(last) != Some(x) {
        forall i | 0 <= i < |ps|
          ensures EntrySeed(ps[i]) != Some(x)
        {
          if i < |init| {
            assert ps[i] == init[i];
          }
        }
      }
    }
  }

  /** `seeds_in_bib(biblio)`: the seeds of the bibliography's papers, in iteration order. */
  method SeedsInBib(biblio: Biblio) returns (seeds: seq<PaperId>)
    requires biblio.Valid()
    requires forall p | p in biblio.Papers() :: SeedReadable(p)
    ensures seeds == SeedsOf(biblio.Papers())
  {
    seeds := CollectSeeds(biblio.Papers());
  }

  /** The loop of `seeds_in_bib` over the papers `for paper in biblio` yields. */
  method CollectSeeds(papers: seq<Paper>) returns (seeds: seq<PaperId>)
    requires forall p | p in papers :: SeedReadable(p)
    ensures seeds == SeedsOf(papers)
  {
    seeds := [];
    for i := 0 to |papers|
      invariant seeds == SeedsOf(papers[..i])
    {
      var paper := papers[i];
      ghost var prefix := papers[..i + 1];
      assert prefix[..|prefix| - 1] == papers[..i] && prefix[|prefix| - 1] == paper;
      assert SeedsOf(prefix) == seeds + (match EntrySeed(paper) case Some(s) => [s] case None => []);
      ghost var seed := EntrySeed(paper);
      var pid := Attr(paper, PaperIdAttr);
      if Truthy(pid) {
        assert seed == Some(pid.value);
        seeds := seeds + [pid.value];
      } else {
        var journal := Attr(paper, JournalAttr);
        if Truthy(journal) && Lower(journal.value) == ArxivJournal {
          var volume := Attr(paper, VolumeAttr).value;
          assert ArxivEntry(paper);
          if StartsWith(volume, ArxivVolumePrefix) {
            seeds := seeds + [ArxivIdPrefix + volume[|ArxivVolumePrefix|..]];
          }
        }
      }
    }
    assert papers[..|papers|] == papers;
  }
}
