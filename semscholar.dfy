/**
 * The legacy crawler of `semscholar.py`: a depth-bounded crawl over the remote
 * source that unifies records with a bibliography of pybtex entries and
 * records nodes and citation edges for a graph drawing. The drawing itself
 * (labels, colours, graphviz) is not modelled: the builder records the nodes
 * and edges it is asked to draw, in order.
 */
module Semscholar {
  import opened Wrappers
  import opened Text
  import opened Collections
  import opened PaperSource
  import opened Model

  const FailureLimit := 10

  /** The edges-to-be of the crawl: (citing entry, cited entry). */
  type Citation = (BibEntry, BibEntry)

  /** What `Biblio.__init__` reads of every entry without raising: a title string. */
  predicate Titled(e: BibEntry) {
    TitleField in e.fields && e.fields[TitleField].Some?
  }

  function TitleKey(e: BibEntry): string
    requires Titled(e)
  {
    Lower(e.fields[TitleField].value)
  }

  /** `bibdata.entries` by lower-cased title: a later entry with the same title wins. */
  function EntryIndex(entries: seq<BibEntry>): (m: map<string, BibEntry>)
    requires forall e | e in entries :: Titled(e)
    ensures forall k | k in m :: m[k] in entries && TitleKey(m[k]) == k
    ensures forall e | e in entries :: TitleKey(e) in m
    ensures |entries| > 0 ==> var last := entries[|entries| - 1]; m[TitleKey(last)] == last
  {
    if entries == [] then map[]
    else
      var last := entries[|entries| - 1];
      var m := EntryIndex(entries[..|entries| - 1]);
      assert forall e | e in entries :: e in entries[..|entries| - 1] || e == last;
      m[TitleKey(last) := last]
  }

  /** Whether an entry carries a `semapi_id` field that is one of `ids`. */
  predicate IdIn(e: BibEntry, ids: set<PaperId>) {
    SemapiIdField in e.fields && e.fields[SemapiIdField].Some? && e.fields[SemapiIdField].value in ids
  }

  /** `Biblio` of `semscholar.py`: the entries by title and the ids unified with them. */
  class Biblio {
    /** The keys of `bibdata.entries`. */
    const entryKeys: set<string>
    /** `by_norm_title`. */
    var byNormTitle: map<string, BibEntry>
    /** `id_to_bibkey`: a source id to the key of the entry it was unified with. */
    var idToBibkey: map<PaperId, string>

    ghost predicate Valid()
      reads this
    {
      && (forall k | k in byNormTitle ::
            byNormTitle[k].key in entryKeys && Titled(byNormTitle[k]) && TitleKey(byNormTitle[k]) == k)
      && (forall id | id in idToBibkey :: idToBibkey[id] in entryKeys)
    }

    /** `Biblio.__init__`. */
    constructor (entries: seq<BibEntry>)
      requires forall e | e in entries :: Titled(e)
      ensures Valid()
      ensures entryKeys == EntryKeys(entries)
      ensures byNormTitle == EntryIndex(entries) && idToBibkey == map[]
    {
      entryKeys := EntryKeys(entries);
      byNormTitle := EntryIndex(entries);
      idToBibkey := map[];
    }

    /**
     * `entry in biblio`: the entry's `semapi_id` was unified with a bibliography
     * entry, or its key is a bibliography key. The source raises without the field.
     */
    predicate Contains(e: BibEntry)
      reads this
      requires SemapiIdField in e.fields
    {
      (e.fields[SemapiIdField].Some? && e.fields[SemapiIdField].value in idToBibkey) || e.key in entryKeys
    }

    /** `norm_key(entry)`: the entry renamed to the bibliography key its id was unified with. */
    function NormKey(e: BibEntry): (r: BibEntry)
      reads this
      requires SemapiIdField in e.fields
      ensures r.fields == e.fields && r.persons == e.persons
      ensures IdIn(e, idToBibkey.Keys) ==> r.key == idToBibkey[e.fields[SemapiIdField].value]
      ensures !IdIn(e, idToBibkey.Keys) ==> r.key == e.key
    {
      var id := e.fields[SemapiIdField];
      if id.Some? && id.value in idToBibkey then e.(key := idToBibkey[id.value]) else e
    }

    /** Renaming twice renames once; with a valid index a renamed entry has a bibliography key. */
    lemma NormKeyIdempotent(e: BibEntry)
      requires Valid()
      requires SemapiIdField in e.fields
      ensures NormKey(NormKey(e)) == NormKey(e)
      ensures IdIn(e, idToBibkey.Keys) ==> NormKey(e).key in entryKeys && Contains(NormKey(e))
    {
    }

    /**
     * `make_entry(paper_dict)`: on a title match the bibliography entry is stamped
     * with the record's id, which `id_to_bibkey` maps to its key; otherwise a new
     * entry keyed by the id is built from the record.
     */
    method MakeEntry(d: PaperDict) returns (e: BibEntry)
      requires Valid()
      modifies this
      ensures Valid()
      ensures byNormTitle.Keys == old(byNormTitle.Keys)
      ensures SemapiIdField in e.fields && e.fields[SemapiIdField] == Some(d.paperId)
      ensures Lower(d.title) in old(byNormTitle) ==>
        var bib := old(byNormTitle)[Lower(d.title)];
        && e == bib.(fields := bib.fields[SemapiIdField := Some(d.paperId)])
        && byNormTitle == old(byNormTitle)[Lower(d.title) := e]
        && idToBibkey == old(idToBibkey)[d.paperId := bib.key]
        && Contains(e) && NormKey(e).key == bib.key
      ensures Lower(d.title) !in old(byNormTitle) ==>
        && e == BibEntry(d.paperId, map[TitleField := Some(d.title), YearField := d.year, SemapiIdField := Some(d.paperId)],
                         map[AuthorRole := d.authors])
        && byNormTitle == old(byNormTitle) && idToBibkey == old(idToBibkey)
    {
      var key := Lower(d.title);
      if key in byNormTitle {
        var bib := byNormTitle[key];
        idToBibkey := idToBibkey[d.paperId := bib.key];
        e := bib.(fields := bib.fields[SemapiIdField := Some(d.paperId)]);
        byNormTitle := byNormTitle[key := e];
        assert TitleKey(e) == TitleKey(bib);
      } else {
        var fields := map[TitleField := Some(d.title), YearField := d.year, SemapiIdField := Some(d.paperId)];
        e := BibEntry(d.paperId, fields, map[AuthorRole := d.authors]);
      }
    }
  }

  /** What the graph drawing is asked for: a node per paper, an edge per citation. */
  datatype DotEvent = Node(name: string) | Edge(src: string, dst: string)

  /** The edges `cite` draws for the citations whose cited entry's id is in `done`, in order. */
  function CitedEdges(biblio: Biblio, citations: seq<Citation>, done: set<PaperId>): seq<DotEvent>
    reads biblio
    requires forall c | c in citations :: SemapiIdField in c.0.fields && SemapiIdField in c.1.fields
  {
    if citations == [] then []
    else
      var (src, dst) := citations[|citations| - 1];
      CitedEdges(biblio, citations[..|citations| - 1], done) +
        (if IdIn(dst, done) then [Edge(biblio.NormKey(src).key, biblio.NormKey(dst).key)] else [])
  }

  /**
   * An edge is drawn exactly for a citation whose cited entry's id is in `done`,
   * between the two renamed keys, and never more edges than citations.
   */
  lemma {:induction false} CitedEdgesMembership(biblio: Biblio, citations: seq<Citation>, done: set<PaperId>, ev: DotEvent)
    requires forall c | c in citations :: SemapiIdField in c.0.fields && SemapiIdField in c.1.fields
    ensures |CitedEdges(biblio, citations, done)| <= |citations|
    ensures ev in CitedEdges(biblio, citations, done) <==>
      exists i | 0 <= i < |citations| ::
        IdIn(citations[i].1, done) &&
        ev == Edge(biblio.NormKey(citations[i].0).key, biblio.NormKey(citations[i].1).key)
  {
    if citations != [] {
      var init := citations[..|citations| - 1];
      CitedEdgesMembership(biblio, init, done, ev);
      assert forall i | 0 <= i < |init| :: init[i] == citations[i];
    }
  }

  /** `DotBuilder`: the bibliography and the drawing commands issued so far. */
  class DotBuilder {
    const biblio: Biblio
    var events: seq<DotEvent>

    ghost predicate Valid()
      reads this, biblio
    {
      biblio.Valid()
    }

    constructor (entries: seq<BibEntry>)
      requires forall e | e in entries :: Titled(e)
      ensures Valid() && events == []
      ensures fresh(biblio) && biblio.entryKeys == EntryKeys(entries) && biblio.idToBibkey == map[]
    {
      biblio := new Biblio(entries);
      events := [];
    }

    /** `add_paper(entry)`: a node named by the entry's key. */
    method AddPaper(e: BibEntry)
      modifies this
      ensures events == old(events) + [Node(e.key)]
    {
      events := events + [Node(e.key)];
    }

    /** `cite(src, dst)`: an edge between the two entries' renamed keys. */
    method Cite(src: BibEntry, dst: BibEntry)
      requires SemapiIdField in src.fields && SemapiIdField in dst.fields
      modifies this
      ensures events == old(events) + [Edge(biblio.NormKey(src).key, biblio.NormKey(dst).key)]
    {
      var s := biblio.NormKey(src);
      var t := biblio.NormKey(dst);
      events := events + [Edge(s.key, t.key)];
    }

    /**
     * The final loop of `build_graph`: cite every recorded citation whose cited
     * entry's `semapi_id` is in `done`.
     */
    method EmitCitations(citations: seq<Citation>, done: set<PaperId>)
      requires forall c | c in citations :: SemapiIdField in c.0.fields && SemapiIdField in c.1.fields
      modifies this
      ensures events == old(events) + CitedEdges(biblio, citations, done)
    {
      for i := 0 to |citations|
        invariant events == old(events) + CitedEdges(biblio, citations[..i], done)
      {
        assert citations[..i + 1][..i] == citations[..i];
        var (src, dst) := citations[i];
        if IdIn(dst, done) {
          Cite(src, dst);
        }
      }
      assert citations[..|citations|] == citations;
    }
  }
  /** The id a crawl entry carries in its `semapi_id` field ("" without one). */
  function IdOf(e: BibEntry): PaperId {
    if SemapiIdField in e.fields && e.fields[SemapiIdField].Some? then e.fields[SemapiIdField].value else ""
  }

  /** The citations as the pairs of ids they join: what the crawl decides, whatever the entries look like. */
  function IdPairs(citations: seq<Citation>): seq<(PaperId, PaperId)> {
    seq(|citations|, i requires 0 <= i < |citations| => (IdOf(citations[i].0), IdOf(citations[i].1)))
  }

  lemma IdPairsAppend(a: seq<Citation>, b: seq<Citation>)
    ensures IdPairs(a + b) == IdPairs(a) + IdPairs(b)
  {
    assert forall i | 0 <= i < |a + b| :: IdPairs(a + b)[i] == (IdPairs(a) + IdPairs(b))[i];
  }

  /** The ids of the references of a response. */
  function RefIds(resp: Response): set<PaperId> {
    set r | r in resp.references :: r.paperId
  }

  /** The ids of the references of a response, in the order the source lists them. */
  function RefSeq(resp: Response): seq<PaperId> {
    seq(|resp.references|, j requires 0 <= j < |resp.references| => resp.references[j].paperId)
  }

  /** One citation per reference of a response: (the paper's id, the reference's id). */
  function RefPairs(resp: Response): seq<(PaperId, PaperId)> {
    seq(|resp.references|, j requires 0 <= j < |resp.references| => (resp.paper.paperId, resp.references[j].paperId))
  }

  lemma RefSeqElements(resp: Response)
    ensures Elements(RefSeq(resp)) == RefIds(resp)
  {
    forall x | x in RefIds(resp) ensures x in RefSeq(resp) {
      var r :| r in resp.references && r.paperId == x;
      var k :| 0 <= k < |resp.references| && resp.references[k] == r;
      assert RefSeq(resp)[k] == x;
    }
  }

  /** The number of `ids` the source knows nothing about. */
  function Failed(source: Source, ids: seq<PaperId>): (n: nat)
    ensures n <= |ids|
  {
    if ids == [] then 0
    else (if source(ids[0]).None? then 1 else 0) + Failed(source, ids[1..])
  }

  /** The citations recorded for `ids`: those of each paper the source answers for, in order. */
  function NewEdges(source: Source, ids: seq<PaperId>): seq<(PaperId, PaperId)> {
    if ids == [] then []
    else (if source(ids[0]).Some? then RefPairs(source(ids[0]).value) else []) + NewEdges(source, ids[1..])
  }

  /** The ids queued for `ids`: the references of each paper the source answers for, in order. */
  function NewRefs(source: Source, ids: seq<PaperId>): seq<PaperId> {
    if ids == [] then []
    else (if source(ids[0]).Some? then RefSeq(source(ids[0]).value) else []) + NewRefs(source, ids[1..])
  }

  /**
   * The ids of the papers the source returns for `ids`, in order: the papers
   * the crawl draws, each under the id of the answer (which need not be the id
   * asked for).
   */
  function Fetched(source: Source, ids: seq<PaperId>): seq<PaperId> {
    if ids == [] then []
    else (if source(ids[0]).Some? then [source(ids[0]).value.paper.paperId] else []) + Fetched(source, ids[1..])
  }

  /** The drawn papers of consecutive attempts add up. */
  lemma {:induction false} FetchedAppend(source: Source, a: seq<PaperId>, b: seq<PaperId>)
    ensures Fetched(source, a + b) == Fetched(source, a) + Fetched(source, b)
  {
    if a != [] {
      assert (a + b)[0] == a[0] && (a + b)[1..] == a[1..] + b;
      FetchedAppend(source, a[1..], b);
    } else {
      assert a + b == b;
    }
  }

  /** Failures, citations and queued ids add up over consecutive attempts. */
  lemma {:induction false} AccountsAppend(source: Source, a: seq<PaperId>, b: seq<PaperId>)
    ensures Failed(source, a + b) == Failed(source, a) + Failed(source, b)
    ensures NewEdges(source, a + b) == NewEdges(source, a) + NewEdges(source, b)
    ensures NewRefs(source, a + b) == NewRefs(source, a) + NewRefs(source, b)
  {
    if a != [] {
      assert (a + b)[0] == a[0] && (a + b)[1..] == a[1..] + b;
      AccountsAppend(source, a[1..], b);
    } else {
      assert a + b == b;
    }
  }

  /** Some attempt of `ids` is answered with the paper `x`. */
  predicate Answered(source: Source, ids: seq<PaperId>, x: PaperId) {
    exists i | 0 <= i < |ids| :: source(ids[i]).Some? && source(ids[i]).value.paper.paperId == x
  }

  /**
   * Every attempt is either drawn or a failure, and an id is drawn exactly
   * when the source answers an attempt with that paper.
   */
  lemma {:induction false} FetchedAccounts(source: Source, ids: seq<PaperId>)
    ensures |Fetched(source, ids)| + Failed(source, ids) == |ids|
    ensures forall x :: x in Fetched(source, ids) <==> Answered(source, ids, x)
  {
    if ids != [] {
      var tail := ids[1..];
      FetchedAccounts(source, tail);
      forall x
        ensures Answered(source, ids, x) <==>
          (source(ids[0]).Some? && source(ids[0]).value.paper.paperId == x) || Answered(source, tail, x)
      {
        assert forall i | 0 <= i < |tail| :: tail[i] == ids[i + 1];
        if Answered(source, ids, x) {
          var i :| 0 <= i < |ids| && source(ids[i]).Some? && source(ids[i]).value.paper.paperId == x;
          if i > 0 {
            assert tail[i - 1] == ids[i];
          }
        }
      }
    }
  }

  /** A fetched paper's references are among the ids queued for the attempts it is part of. */
  lemma {:induction false} NewRefsCover(source: Source, ids: seq<PaperId>, i: nat)
    requires i < |ids| && source(ids[i]).Some?
    ensures RefIds(source(ids[i]).value) <= Elements(NewRefs(source, ids))
  {
    RefSeqElements(source(ids[i]).value);
    if i > 0 {
      assert ids[1..][i - 1] == ids[i];
      NewRefsCover(source, ids[1..], i - 1);
    }
  }

  /**
   * The bookkeeping of `build_graph`, with each citation as the pair of ids it
   * joins: the tried ids (`done`, and the order they were tried in), the
   * citations, the list the current level appends to, the failure count, the
   * abort flag, and where in `attempts` the current level started.
   */
  datatype Crawled = Crawled(done: set<PaperId>, attempts: seq<PaperId>, edges: seq<(PaperId, PaperId)>,
                             queued: seq<PaperId>, failures: nat, aborted: bool, levelStart: nat)

  /**
   * The body of the level loop for one id: a tried id is skipped; otherwise it
   * joins `done` and is fetched; an unknown id is a failure, and the eleventh
   * aborts; a known paper's references become citations and queued ids.
   */
  function TryId(source: Source, st: Crawled, id: PaperId): Crawled {
    if id in st.done then st
    else
      var tried := st.(done := st.done + {id}, attempts := st.attempts + [id]);
      match source(id)
      case None => tried.(failures := st.failures + 1, aborted := st.failures + 1 > FailureLimit)
      case Some(resp) => tried.(edges := st.edges + RefPairs(resp), queued := st.queued + RefSeq(resp))
  }

  /** One level: `TryId` on each id in order, until the crawl aborts. */
  function Level(source: Source, st: Crawled, ids: seq<PaperId>): Crawled
    decreases |ids|
  {
    if st.aborted || ids == [] then st
    else Level(source, TryId(source, st, ids[0]), ids[1..])
  }

  /**
   * The level loop of `build_graph` from a given state: a level walks
   * `remaining` and appends to `remaining2`, then the two lists are swapped.
   */
  function CrawlFrom(source: Source, remaining: seq<PaperId>, remaining2: seq<PaperId>, st: Crawled, d: int): Crawled
    decreases d
  {
    if d <= 0 || st.aborted then st
    else
      var next := Level(source, st.(queued := remaining2, levelStart := |st.attempts|), remaining);
      CrawlFrom(source, next.queued, remaining, next, d - 1)
  }

  /** The crawl of `build_graph(seeds, depth, _)`, before its citations are drawn. */
  function CrawlSpec(source: Source, seeds: seq<PaperId>, depth: int): Crawled {
    CrawlFrom(source, seeds, [], Crawled({}, [], [], [], 0, false, 0), depth)
  }

  /** The ids a level tries, in order: those of its list not tried before, until it aborts. */
  function Added(source: Source, st: Crawled, ids: seq<PaperId>): seq<PaperId>
    decreases |ids|
  {
    if st.aborted || ids == [] then []
    else (if ids[0] in st.done then [] else [ids[0]]) + Added(source, TryId(source, st, ids[0]), ids[1..])
  }

  /** A level appends the ids it tries to `attempts` and to `done`, and leaves `levelStart` alone. */
  lemma {:induction false} LevelAttempts(source: Source, st: Crawled, ids: seq<PaperId>)
    ensures var r := Level(source, st, ids);
      && r.attempts == st.attempts + Added(source, st, ids)
      && r.done == st.done + Elements(Added(source, st, ids))
      && r.levelStart == st.levelStart
    decreases |ids|
  {
    if !st.aborted && ids != [] {
      var next := TryId(source, st, ids[0]);
      LevelAttempts(source, next, ids[1..]);
    }
  }

  /** A level tries distinct ids of its list, none of them tried before. */
  lemma {:induction false} LevelAddedFresh(source: Source, st: Crawled, ids: seq<PaperId>)
    ensures var added := Added(source, st, ids);
      Distinct(added) && Elements(added) !! st.done && Elements(added) <= Elements(ids)
    decreases |ids|
  {
    if !st.aborted && ids != [] {
      var x := ids[0];
      var next := TryId(source, st, x);
      LevelAddedFresh(source, next, ids[1..]);
      var rest := Added(source, next, ids[1..]);
      assert Elements(ids) == {x} + Elements(ids[1..]);
      if x !in st.done {
        var added := [x] + rest;
        assert Distinct(added) by {
          forall i, j | 0 <= i < j < |added| ensures added[i] != added[j] {
            if i == 0 {
              assert added[j] in Elements(rest);
            } else {
              assert added[i] == rest[i - 1] && added[j] == rest[j - 1];
            }
          }
        }
        assert Elements(added) == {x} + Elements(rest);
      }
    }
  }

  /** A level adds the failures, citations and queued ids of the ids it tries. */
  lemma {:induction false} LevelAccounts(source: Source, st: Crawled, ids: seq<PaperId>)
    ensures var r := Level(source, st, ids);
      var added := Added(source, st, ids);
      && r.failures == st.failures + Failed(source, added)
      && r.edges == st.edges + NewEdges(source, added)
      && r.queued == st.queued + NewRefs(source, added)
    decreases |ids|
  {
    if !st.aborted && ids != [] {
      var x := ids[0];
      var next := TryId(source, st, x);
      LevelAccounts(source, next, ids[1..]);
      var rest := Added(source, next, ids[1..]);
      if x !in st.done {
        var added := [x] + rest;
        assert Added(source, st, ids) == added;
        assert added[0] == x && added[1..] == rest;
        assert Failed(source, added) == (if source(x).None? then 1 else 0) + Failed(source, rest);
        assert NewEdges(source, added) == (if source(x).Some? then RefPairs(source(x).value) else []) + NewEdges(source, rest);
        assert NewRefs(source, added) == (if source(x).Some? then RefSeq(source(x).value) else []) + NewRefs(source, rest);
      } else {
        assert Added(source, st, ids) == rest;
      }
    }
  }

  /**
   * A level counts failures until the eleventh: it aborts exactly then, right
   * after an id the source does not know; an aborted crawl does nothing more;
   * a level that does not abort tries every id of its list.
   */
  lemma {:induction false} LevelOutcome(source: Source, st: Crawled, ids: seq<PaperId>)
    requires (st.aborted <==> st.failures > FailureLimit) && st.failures <= FailureLimit + 1
    ensures var r := Level(source, st, ids);
      && (r.aborted <==> r.failures > FailureLimit) && r.failures <= FailureLimit + 1
      && (st.aborted ==> r == st)
      && (!r.aborted ==> Elements(ids) <= r.done)
      && (r.aborted && !st.aborted ==> |r.attempts| > 0 && source(r.attempts[|r.attempts| - 1]).None?)
      && st.done <= r.done
    decreases |ids|
  {
    if !st.aborted && ids != [] {
      var next := TryId(source, st, ids[0]);
      LevelOutcome(source, next, ids[1..]);
      assert Elements(ids) == {ids[0]} + Elements(ids[1..]);
      if next.aborted {
        assert Level(source, next, ids[1..]) == next;
      }
    }
  }

  /** The crawl keeps `attempts` distinct and equal to `done`, and counts its failures and citations over them. */
  lemma {:induction false} CrawlFromAccounts(source: Source, remaining: seq<PaperId>, remaining2: seq<PaperId>, st: Crawled, d: int)
    requires Distinct(st.attempts) && st.done == Elements(st.attempts)
    requires st.failures == Failed(source, st.attempts) && st.edges == NewEdges(source, st.attempts)
    requires (st.aborted <==> st.failures > FailureLimit) && st.failures <= FailureLimit + 1
    ensures var r := CrawlFrom(source, remaining, remaining2, st, d);
      && Distinct(r.attempts) && r.done == Elements(r.attempts)
      && r.failures == Failed(source, r.attempts) && r.edges == NewEdges(source, r.attempts)
      && (r.aborted <==> r.failures > FailureLimit) && r.failures <= FailureLimit + 1
    decreases d
  {
    if d > 0 && !st.aborted {
      var start := st.(queued := remaining2, levelStart := |st.attempts|);
      var next := Level(source, start, remaining);
      var added := Added(source, start, remaining);
      LevelAttempts(source, start, remaining);
      LevelAddedFresh(source, start, remaining);
      LevelAccounts(source, start, remaining);
      LevelOutcome(source, start, remaining);
      AccountsAppend(source, st.attempts, added);
      assert Distinct(next.attempts) by {
        forall i, j | 0 <= i < j < |next.attempts| ensures next.attempts[i] != next.attempts[j] {
          if j < |st.attempts| {
            assert next.attempts[i] == st.attempts[i] && next.attempts[j] == st.attempts[j];
          } else if i < |st.attempts| {
            assert next.attempts[i] in st.done && next.attempts[j] == added[j - |st.attempts|];
          } else {
            assert next.attempts[i] == added[i - |st.attempts|] && next.attempts[j] == added[j - |st.attempts|];
          }
        }
      }
      CrawlFromAccounts(source, next.queued, remaining, next, d - 1);
    }
  }

  /** Each of `ids` is a seed or a reference of a paper among `attempts` that the source answers for. */
  predicate WithinReach(source: Source, seeds: set<PaperId>, attempts: seq<PaperId>, ids: set<PaperId>) {
    ids <= seeds + Elements(NewRefs(source, attempts))
  }

  /** Every id the crawl tries is a seed or a reference of a paper it fetched. */
  lemma {:induction false} CrawlFromCovers(source: Source, seeds: set<PaperId>, remaining: seq<PaperId>,
                                           remaining2: seq<PaperId>, st: Crawled, d: int)
    requires WithinReach(source, seeds, st.attempts, Elements(st.attempts) + Elements(remaining) + Elements(remaining2))
    ensures var r := CrawlFrom(source, remaining, remaining2, st, d);
      WithinReach(source, seeds, r.attempts, Elements(r.attempts))
    decreases d
  {
    if d > 0 && !st.aborted {
      var start := st.(queued := remaining2, levelStart := |st.attempts|);
      var next := Level(source, start, remaining);
      assert WithinReach(source, seeds, next.attempts, Elements(next.attempts) + Elements(next.queued) + Elements(remaining)) by {
        var added := Added(source, start, remaining);
        LevelAttempts(source, start, remaining);
        LevelAddedFresh(source, start, remaining);
        LevelAccounts(source, start, remaining);
        AccountsAppend(source, st.attempts, added);
        ElementsAppend(st.attempts, added);
        ElementsAppend(remaining2, NewRefs(source, added));
        ElementsAppend(NewRefs(source, st.attempts), NewRefs(source, added));
        var queuedNow := Elements(NewRefs(source, added));
        assert Elements(added) <= Elements(remaining);
        assert Elements(next.attempts) == Elements(st.attempts) + Elements(added);
        assert Elements(next.queued) == Elements(remaining2) + queuedNow;
        assert Elements(NewRefs(source, next.attempts)) == Elements(NewRefs(source, st.attempts)) + queuedNow;
      }
      CrawlFromCovers(source, seeds, next.queued, remaining, next, d - 1);
    }
  }

  /**
   * A crawl that does not abort tries its first list, and tries every
   * reference of each paper it fetched before its last level.
   */
  lemma {:induction false} CrawlFromTries(source: Source, remaining: seq<PaperId>, remaining2: seq<PaperId>, st: Crawled, d: int)
    requires (st.aborted <==> st.failures > FailureLimit) && st.failures <= FailureLimit + 1
    requires forall i | 0 <= i < st.levelStart && i < |st.attempts| && source(st.attempts[i]).Some? ::
      RefIds(source(st.attempts[i]).value) <= st.done
    requires forall i | 0 <= i < |st.attempts| && source(st.attempts[i]).Some? ::
      RefIds(source(st.attempts[i]).value) <= st.done + Elements(remaining)
    ensures var r := CrawlFrom(source, remaining, remaining2, st, d);
      && st.done <= r.done
      && (d > 0 && !r.aborted ==> Elements(remaining) <= r.done)
      && (!r.aborted ==> forall i | 0 <= i < r.levelStart && i < |r.attempts| && source(r.attempts[i]).Some? ::
            RefIds(source(r.attempts[i]).value) <= r.done)
    decreases d
  {
    if d > 0 && !st.aborted {
      var start := st.(queued := remaining2, levelStart := |st.attempts|);
      var next := Level(source, start, remaining);
      var added := Added(source, start, remaining);
      LevelAttempts(source, start, remaining);
      LevelAccounts(source, start, remaining);
      LevelOutcome(source, start, remaining);
      if next.aborted {
        assert CrawlFrom(source, next.queued, remaining, next, d - 1) == next;
      } else {
        forall i | 0 <= i < |next.attempts| && source(next.attempts[i]).Some?
          ensures RefIds(source(next.attempts[i]).value) <= next.done + Elements(next.queued)
        {
          if i < |st.attempts| {
            assert next.attempts[i] == st.attempts[i];
          } else {
            assert added[i - |st.attempts|] == next.attempts[i];
            NewRefsCover(source, added, i - |st.attempts|);
          }
        }
        forall i | 0 <= i < next.levelStart && i < |next.attempts| && source(next.attempts[i]).Some?
          ensures RefIds(source(next.attempts[i]).value) <= next.done
        {
          assert next.attempts[i] == st.attempts[i];
        }
        CrawlFromTries(source, next.queued, remaining, next, d - 1);
      }
    }
  }

  /**
   * What `build_graph` promises of its crawl: each id is tried at most once and
   * `done` is exactly the tried ids; the failures are counted and the crawl
   * aborts exactly past ten of them, right after an unknown id; the citations
   * are one per reference of each fetched paper, in the order of the fetches.
   */
  lemma CrawlAccounts(source: Source, seeds: seq<PaperId>, depth: int)
    ensures var r := CrawlSpec(source, seeds, depth);
      && Distinct(r.attempts) && r.done == Elements(r.attempts)
      && r.failures == Failed(source, r.attempts)
      && (r.aborted <==> r.failures > FailureLimit) && r.failures <= FailureLimit + 1
      && r.edges == NewEdges(source, r.attempts)
  {
    CrawlFromAccounts(source, seeds, [], Crawled({}, [], [], [], 0, false, 0), depth);
  }

  /**
   * The crawl reaches only the seeds and the references of papers it fetched;
   * with `depth <= 0` it tries nothing and at depth 1 only seeds.
   */
  lemma CrawlCovers(source: Source, seeds: seq<PaperId>, depth: int)
    ensures var r := CrawlSpec(source, seeds, depth);
      && Elements(r.attempts) <= Elements(seeds) + Elements(NewRefs(source, r.attempts))
      && (depth <= 0 ==> r.attempts == [] && r.edges == [])
      && (depth == 1 ==> Elements(r.attempts) <= Elements(seeds))
  {
    var init := Crawled({}, [], [], [], 0, false, 0);
    CrawlFromCovers(source, Elements(seeds), seeds, [], init, depth);
    if depth == 1 {
      var start := init.(queued := [], levelStart := 0);
      LevelAttempts(source, start, seeds);
      LevelAddedFresh(source, start, seeds);
      assert CrawlSpec(source, seeds, depth) == Level(source, start, seeds);
    }
  }

  /**
   * "Crawl its references up to depth": unless it aborts, a crawl of depth at
   * least 1 tries every seed, and every paper it fetched before its last level
   * has all its references tried.
   */
  lemma CrawlReaches(source: Source, seeds: seq<PaperId>, depth: int)
    ensures var r := CrawlSpec(source, seeds, depth);
      && (depth >= 1 && !r.aborted ==> Elements(seeds) <= r.done)
      && (!r.aborted ==> forall i | 0 <= i < r.levelStart && i < |r.attempts| && source(r.attempts[i]).Some? ::
            RefIds(source(r.attempts[i]).value) <= r.done)
  {
    CrawlFromTries(source, seeds, [], Crawled({}, [], [], [], 0, false, 0), depth);
  }

  /** The node `add_paper` draws for each entry, in order. */
  function NodesOf(entries: seq<BibEntry>): seq<DotEvent> {
    seq(|entries|, k requires 0 <= k < |entries| => Node(entries[k].key))
  }

  /** The ids the entries carry. */
  function EntryIds(entries: seq<BibEntry>): seq<PaperId> {
    seq(|entries|, k requires 0 <= k < |entries| => IdOf(entries[k]))
  }

  lemma DrawnAppend(drawn: seq<BibEntry>, e: BibEntry)
    ensures NodesOf(drawn + [e]) == NodesOf(drawn) + [Node(e.key)]
    ensures EntryIds(drawn + [e]) == EntryIds(drawn) + [IdOf(e)]
  {
    assert forall k | 0 <= k < |drawn| :: (drawn + [e])[k] == drawn[k];
  }

  /**
   * The drawing since `base`: one node per entry of `drawn`, and the entries
   * are those of the attempts the source answered for, in order.
   */
  ghost predicate Traced(builder: DotBuilder, base: seq<DotEvent>, drawn: seq<BibEntry>, source: Source, attempts: seq<PaperId>)
    reads builder
  {
    builder.events == base + NodesOf(drawn) && EntryIds(drawn) == Fetched(source, attempts)
  }

  /** What `build_graph` needs to hold of the drawing between two ids. */
  ghost predicate Drawn(builder: DotBuilder, citations: seq<Citation>)
    reads builder, builder.biblio
  {
    && builder.Valid()
    && (forall c | c in citations :: Node(c.0.key) in builder.events)
    && (forall c | c in citations :: SemapiIdField in c.0.fields && SemapiIdField in c.1.fields)
  }

  /**
   * A paper the source answered for: its entry becomes a node, and each of its
   * references a citation from that entry and a queued id.
   */
  method AddFetched(builder: DotBuilder, resp: Response) returns (paperEntry: BibEntry, cited: seq<Citation>, refIds: seq<PaperId>)
    requires builder.Valid()
    modifies builder, builder.biblio
    ensures builder.Valid()
    ensures builder.events == old(builder.events) + [Node(paperEntry.key)]
    ensures IdOf(paperEntry) == resp.paper.paperId
    ensures forall c | c in cited :: c.0 == paperEntry && SemapiIdField in c.0.fields && SemapiIdField in c.1.fields
    ensures IdPairs(cited) == RefPairs(resp) && refIds == RefSeq(resp)
  {
    paperEntry := Stamp(builder.biblio, resp.paper);
    builder.AddPaper(paperEntry);
    cited, refIds := RecordReferences(builder, paperEntry, resp.references);
  }

  /**
   * An id of a level that was not tried yet: it joins `done` and is fetched;
   * an unknown id counts as a failure, a known paper is drawn and its
   * references become citations and queued ids.
   */
  method Visit(paperId: PaperId, queued: seq<PaperId>, done: set<PaperId>, citations: seq<Citation>, failures: nat,
               ghost attempts: seq<PaperId>, ghost base: seq<DotEvent>, ghost drawn: seq<BibEntry>,
               builder: DotBuilder, source: Source)
    returns (queued': seq<PaperId>, done': set<PaperId>, citations': seq<Citation>, failures': nat, failed: bool,
             ghost attempts': seq<PaperId>, ghost drawn': seq<BibEntry>)
    requires Drawn(builder, citations) && Traced(builder, base, drawn, source, attempts)
    modifies builder, builder.biblio
    ensures Drawn(builder, citations') && Traced(builder, base, drawn', source, attempts')
    ensures drawn <= drawn'
    ensures done' == done + {paperId} && attempts' == attempts + [paperId]
    ensures failed <==> source(paperId).None?
    ensures failed ==> failures' == failures + 1 && queued' == queued && citations' == citations
    ensures !failed ==>
      && failures' == failures
      && queued' == queued + RefSeq(source(paperId).value)
      && IdPairs(citations') == IdPairs(citations) + RefPairs(source(paperId).value)
    ensures |builder.events| == |old(builder.events)| + (if failed then 0 else 1)
    ensures old(builder.events) <= builder.events
    ensures forall k | |old(builder.events)| <= k < |builder.events| :: builder.events[k].Node?
  {
    done' := done + {paperId};
    attempts' := attempts + [paperId];
    FetchedAppend(source, attempts, [paperId]);
    assert [paperId][1..] == [];
    var answer := source(paperId);
    if answer.None? {
      queued', citations', failures', failed, drawn' := queued, citations, failures + 1, true, drawn;
      return;
    }
    failed := false;
    var paperEntry, cited, refIds := AddFetched(builder, answer.value);
    drawn' := drawn + [paperEntry];
    DrawnAppend(drawn, paperEntry);
    IdPairsAppend(citations, cited);
    citations' := citations + cited;
    failures' := failures;
    queued' := queued + refIds;
  }

  /**
   * One level of the crawl of `build_graph`: the ids of `remaining` in order,
   * each through `TryId`, appending to `remaining2`; the eleventh failure ends
   * the level.
   */
  method CrawlLevel(remaining: seq<PaperId>, remaining2: seq<PaperId>, done: set<PaperId>, citations: seq<Citation>,
                    failures: nat, ghost attempts: seq<PaperId>, ghost levelStart: nat,
                    ghost base: seq<DotEvent>, ghost drawn: seq<BibEntry>, builder: DotBuilder, source: Source)
    returns (queued: seq<PaperId>, tried: set<PaperId>, cites: seq<Citation>, fails: nat, aborted: bool,
             ghost attempted: seq<PaperId>, ghost drawn': seq<BibEntry>)
    requires Drawn(builder, citations) && Traced(builder, base, drawn, source, attempts)
    modifies builder, builder.biblio
    ensures Drawn(builder, cites) && Traced(builder, base, drawn', source, attempted)
    ensures drawn <= drawn'
    ensures Crawled(tried, attempted, IdPairs(cites), queued, fails, aborted, levelStart) ==
      Level(source, Crawled(done, attempts, IdPairs(citations), remaining2, failures, false, levelStart), remaining)
    ensures |builder.events| + |attempts| + fails == |old(builder.events)| + |attempted| + failures
    ensures old(builder.events) <= builder.events
    ensures forall k | |old(builder.events)| <= k < |builder.events| :: builder.events[k].Node?
  {
    ghost var start := Crawled(done, attempts, IdPairs(citations), remaining2, failures, false, levelStart);
    queued, tried, cites, fails, aborted, attempted := remaining2, done, citations, failures, false, attempts;
    drawn' := drawn;
    for i := 0 to |remaining|
      invariant Drawn(builder, cites) && Traced(builder, base, drawn', source, attempted)
      invariant drawn <= drawn'
      invariant !aborted
      invariant Level(source, Crawled(tried, attempted, IdPairs(cites), queued, fails, false, levelStart), remaining[i..]) ==
        Level(source, start, remaining)
      invariant |builder.events| + |attempts| + fails == |old(builder.events)| + |attempted| + failures
      invariant old(builder.events) <= builder.events
      invariant forall k | |old(builder.events)| <= k < |builder.events| :: builder.events[k].Node?
    {
      var paperId := remaining[i];
      ghost var cur := Crawled(tried, attempted, IdPairs(cites), queued, fails, false, levelStart);
      assert remaining[i..][0] == paperId && remaining[i..][1..] == remaining[i + 1..];
      if paperId in tried {
        continue;
      }
      var failed;
      queued, tried, cites, fails, failed, attempted, drawn' :=
        Visit(paperId, queued, tried, cites, fails, attempted, base, drawn', builder, source);
      ghost var after := TryId(source, cur, paperId);
      assert after == Crawled(tried, attempted, IdPairs(cites), queued, fails, failed && fails > FailureLimit, levelStart);
      if failed {
        if fails > FailureLimit {
          aborted := true;
          assert Level(source, after, remaining[i + 1..]) == after;
          break;
        }
        continue;
      }
    }
    if !aborted {
      assert remaining[|remaining|..] == [];
    }
  }

  /**
   * The crawl of `build_graph`: up to `depth` levels, each walking the ids of
   * the current list and appending the references of every fetched paper to
   * the other; the two lists are then swapped. They are never cleared, so a
   * level also walks the ids of the level before last, which `done` skips.
   */
  method Crawl(seeds: seq<PaperId>, depth: int, builder: DotBuilder, source: Source)
    returns (done: set<PaperId>, citations: seq<Citation>, failures: nat, aborted: bool,
             ghost attempts: seq<PaperId>, ghost levelStart: nat, ghost drawn: seq<BibEntry>)
    requires builder.Valid()
    modifies builder, builder.biblio
    ensures Drawn(builder, citations) && Traced(builder, old(builder.events), drawn, source, attempts)
    ensures var r := CrawlSpec(source, seeds, depth);
      && done == r.done && attempts == r.attempts && IdPairs(citations) == r.edges
      && failures == r.failures && aborted == r.aborted && levelStart == r.levelStart
    ensures |builder.events| + failures == |old(builder.events)| + |attempts|
    ensures old(builder.events) <= builder.events
    ensures forall k | |old(builder.events)| <= k < |builder.events| :: builder.events[k].Node?
  {
    done := {};
    var remaining := seeds;
    var remaining2 := [];
    citations := [];
    failures := 0;
    aborted := false;
    attempts := [];
    levelStart := 0;
    ghost var lastQueued := [];
    drawn := [];
    assert IdPairs(citations) == [] && NodesOf(drawn) == [];
    var d := depth;
    while d > 0 && !aborted
      invariant Drawn(builder, citations) && Traced(builder, old(builder.events), drawn, source, attempts)
      invariant CrawlFrom(source, remaining, remaining2,
                          Crawled(done, attempts, IdPairs(citations), lastQueued, failures, aborted, levelStart), d) ==
        CrawlSpec(source, seeds, depth)
      invariant |builder.events| + failures == |old(builder.events)| + |attempts|
      invariant old(builder.events) <= builder.events
      invariant forall k | |old(builder.events)| <= k < |builder.events| :: builder.events[k].Node?
    {
      d := d - 1;
      levelStart := |attempts|;
      var queued;
      queued, done, citations, failures, aborted, attempts, drawn :=
        CrawlLevel(remaining, remaining2, done, citations, failures, attempts, levelStart,
                   old(builder.events), drawn, builder, source);
      lastQueued := queued;
      remaining, remaining2 := queued, remaining;
    }
  }

  /**
   * The reference loop of `build_graph`: one citation from the fetched paper's
   * entry to the entry of each reference, and each reference's id queued.
   */
  method RecordReferences(builder: DotBuilder, paperEntry: BibEntry, refs: seq<PaperDict>)
    returns (cited: seq<Citation>, ids: seq<PaperId>)
    requires builder.Valid()
    modifies builder.biblio
    ensures builder.Valid()
    ensures |cited| == |refs| && |ids| == |refs|
    ensures forall j | 0 <= j < |refs| :: ids[j] == refs[j].paperId
    ensures forall j | 0 <= j < |refs| ::
      cited[j].0 == paperEntry && SemapiIdField in cited[j].1.fields && cited[j].1.fields[SemapiIdField] == Some(refs[j].paperId)
  {
    cited, ids := [], [];
    for j := 0 to |refs|
      invariant builder.Valid()
      invariant |cited| == j && |ids| == j
      invariant forall k | 0 <= k < j :: ids[k] == refs[k].paperId
      invariant forall k | 0 <= k < j ::
        cited[k].0 == paperEntry && SemapiIdField in cited[k].1.fields && cited[k].1.fields[SemapiIdField] == Some(refs[k].paperId)
    {
      var refEntry := Stamp(builder.biblio, refs[j]);
      cited := cited + [(paperEntry, refEntry)];
      ids := ids + [refs[j].paperId];
    }
  }

  /** `make_entry` as the crawl needs it: the entry it returns carries the record's id. */
  method Stamp(biblio: Biblio, d: PaperDict) returns (e: BibEntry)
    requires biblio.Valid()
    modifies biblio
    ensures biblio.Valid()
    ensures SemapiIdField in e.fields && e.fields[SemapiIdField] == Some(d.paperId)
  {
    e := biblio.MakeEntry(d);
  }

  /**
   * `build_graph(seeds, depth, dot_builder)`: the crawl draws one node per paper
   * it fetched, then one edge per recorded citation whose cited id was tried,
   * fetched or not. `done` and `citations` are those of the crawl `CrawlSpec`.
   */
  method BuildGraph(seeds: seq<PaperId>, depth: int, builder: DotBuilder, source: Source)
    returns (ghost done: set<PaperId>, ghost citations: seq<Citation>, ghost drawn: seq<BibEntry>)
    requires builder.Valid()
    modifies builder, builder.biblio
    ensures builder.Valid()
    ensures var r := CrawlSpec(source, seeds, depth);
      && done == r.done && IdPairs(citations) == r.edges
      && EntryIds(drawn) == Fetched(source, r.attempts) && |drawn| + r.failures == |r.attempts|
    ensures forall c | c in citations :: SemapiIdField in c.0.fields && SemapiIdField in c.1.fields
    ensures builder.events == old(builder.events) + NodesOf(drawn) + CitedEdges(builder.biblio, citations, done)
    ensures forall c | c in citations :: Node(c.0.key) in builder.events
  {
    var tried, recorded, failures, aborted;
    ghost var attempts, levelStart;
    tried, recorded, failures, aborted, attempts, levelStart, drawn := Crawl(seeds, depth, builder, source);
    done, citations := tried, recorded;
    CrawlAccounts(source, seeds, depth);
    FetchedAccounts(source, attempts);
    ghost var crawled := builder.events;
    builder.EmitCitations(recorded, tried);
    assert builder.events == crawled + CitedEdges(builder.biblio, citations, done);
  }
}
