/**
 * `PaperDb` of `citegraph.semapi`: an in-memory memo cache in front of the
 * remote source, which unifies every record it receives with the bibliography.
 */
module Semapi {
  import opened Wrappers
  import opened Text
  import opened PaperSource
  import opened Model

  class PaperDb {
    /** `bibdata`: the bibliography records are unified with. */
    const biblio: Biblio
    /** `semanticscholar.paper`, the remote call. */
    const source: Source
    /** `memcache`: every id asked so far, with its result, failures (`None`) included. */
    var memcache: map<PaperId, Option<PaperAndRefs>>
    /** The ids passed to the source, in order: a record of the remote calls. */
    ghost var calls: seq<PaperId>

    ghost predicate Valid()
      reads this, biblio
    {
      biblio.Valid()
    }

    /** `PaperDb.__init__`: an empty cache. */
    constructor (biblio: Biblio, source: Source)
      requires biblio.Valid()
      ensures Valid() && this.biblio == biblio && this.source == source
      ensures memcache == map[] && calls == []
    {
      this.biblio := biblio;
      this.source := source;
      memcache := map[];
      calls := [];
    }

    /** `[self.bibdata.make_entry(ref) for ref in ds]`: one entry per record, in order. */
    method MakeEntries(ds: seq<PaperDict>) returns (ps: seq<Paper>)
      requires Valid()
      modifies biblio
      ensures Valid()
      ensures biblio.titleOrder == old(biblio.titleOrder) && biblio.byNormTitle.Keys == old(biblio.byNormTitle.Keys)
      ensures |ps| == |ds|
      ensures forall i | 0 <= i < |ds| :: ps[i].id == ds[i].paperId && NormTitle(ps[i]) == Some(Lower(ds[i].title))
    {
      ps := [];
      for i := 0 to |ds|
        invariant biblio.Valid()
        invariant biblio.titleOrder == old(biblio.titleOrder) && biblio.byNormTitle.Keys == old(biblio.byNormTitle.Keys)
        invariant |ps| == i
        invariant forall j | 0 <= j < i :: ps[j].id == ds[j].paperId && NormTitle(ps[j]) == Some(Lower(ds[j].title))
      {
        var p := biblio.MakeEntry(ds[i]);
        assert p.id == ds[i].paperId && NormTitle(p) == Some(Lower(ds[i].title));
        ps := ps + [p];
        assert ps[i] == p;
      }
    }

    /**
     * `fetch_from_id`: a cached id is answered from the cache without a remote
     * call; otherwise the source is called once and its result, a failure too,
     * is stored under the requested id.
     */
    method FetchFromId(id: PaperId) returns (r: Option<PaperAndRefs>)
      requires Valid()
      modifies this, biblio
      ensures Valid()
      ensures id in memcache && memcache[id] == r
      ensures id in old(memcache) ==>
        r == old(memcache[id]) && memcache == old(memcache) && calls == old(calls) && unchanged(biblio)
      ensures id !in old(memcache) ==>
        && calls == old(calls) + [id]
        && memcache == old(memcache)[id := r]
        && (r.None? <==> source(id).None?)
      ensures id !in old(memcache) && r.Some? ==>
        var resp := source(id).value;
        && r.value.paper.id == resp.paper.paperId
        && NormTitle(r.value.paper) == Some(Lower(resp.paper.title))
        && |r.value.references| == |resp.references|
        && |r.value.citations| == |resp.citations|
        && (forall i | 0 <= i < |resp.references| ::
              r.value.references[i].id == resp.references[i].paperId &&
              NormTitle(r.value.references[i]) == Some(Lower(resp.references[i].title)))
        && (forall i | 0 <= i < |resp.citations| ::
              r.value.citations[i].id == resp.citations[i].paperId &&
              NormTitle(r.value.citations[i]) == Some(Lower(resp.citations[i].title)))
    {
      if id in memcache {
        return memcache[id];
      }
      var answer := source(id);
      calls := calls + [id];
      if answer.None? {
        r := None;
      } else {
        var resp := answer.value;
        var paper := biblio.MakeEntry(resp.paper);
        var references := MakeEntries(resp.references);
        var citations := MakeEntries(resp.citations);
        var wrapped := NewPaperAndRefs(references, citations, paper);
        assert NormTitle(wrapped.paper) == NormTitle(paper);
        r := Some(wrapped.(paper := wrapped.paper.(id := resp.paper.paperId)));
      }
      memcache := memcache[id := r];
    }

    /** `fetch_from_id` as the search loops rely on it: the answer is cached and no cached answer changes. */
    method FetchCached(id: PaperId) returns (r: Option<PaperAndRefs>)
      requires Valid()
      modifies this, biblio
      ensures Valid()
      ensures id in memcache && memcache[id] == r
      ensures memcache.Keys == old(memcache.Keys) + {id}
      ensures forall k | k in old(memcache) :: memcache[k] == old(memcache[k])
    {
      r := FetchFromId(id);
    }
  }

  /**
   * Asking twice for the same id gives the same answer, and the source is
   * called at most once, on the first ask of an id not yet cached.
   */
  method FetchTwice(db: PaperDb, id: PaperId) returns (first: Option<PaperAndRefs>, second: Option<PaperAndRefs>)
    requires db.Valid()
    modifies db, db.biblio
    ensures db.Valid()
    ensures first == second
    ensures db.calls == old(db.calls) + (if id in old(db.memcache) then [] else [id])
  {
    first := db.FetchFromId(id);
    second := db.FetchFromId(id);
  }
}
