/**
 * Papers and the bibliography index of `citegraph.model`.
 *
 * A `Paper` is a value here: the source mutates the bibliography's own Paper
 * objects in `Biblio.make_entry`, and the model performs that update on the
 * copy the index holds and returns the updated copy.
 */
module Model {
  import opened Wrappers
  import opened Text
  import opened PaperSource
  import opened Collections

  const SemapiIdField := "semapi_id"
  const AbstractField := "_abstract"
  const TitleField := "title"
  const YearField := "year"
  const AuthorRole := "author"

  /** A paper's field dictionary; a value may be Python's `None`. */
  type Fields = map<string, Option<string>>

  /** Python truthiness of an optional string: present and not empty. */
  predicate Truthy(v: Option<string>) {
    v.Some? && v.value != ""
  }

  /** `fields.get(name, None)`. */
  function FieldGet(fields: Fields, name: string): Option<string> {
    if name in fields then fields[name] else None
  }

  /**
   * A paper. `id` is the empty string where the source's id is falsy
   * (`None` or `""`); `bibtexId` is the key of the bibliography entry it came from.
   */
  datatype Paper = Paper(fields: Fields, authors: seq<Author>, kind: string, id: PaperId, bibtexId: Option<string>)

  /** `Paper.__init__`: the id is the `semapi_id` field when it is truthy, the bibtex key otherwise. */
  function NewPaper(fields: Fields, authors: seq<Author>, kind: string, bibtexId: Option<string>): (p: Paper)
    ensures p.fields == fields && p.authors == authors && p.kind == kind && p.bibtexId == bibtexId
    ensures Truthy(FieldGet(fields, SemapiIdField)) ==> p.id == FieldGet(fields, SemapiIdField).value
    ensures !Truthy(FieldGet(fields, SemapiIdField)) ==> p.id == bibtexId.GetOr("")
  {
    var semapi := FieldGet(fields, SemapiIdField);
    Paper(fields, authors, kind, if Truthy(semapi) then semapi.value else bibtexId.GetOr(""), bibtexId)
  }

  /** A paper's id is falsy only when neither its `semapi_id` field nor its bibtex key is truthy. */
  lemma NewPaperIdFalsy(fields: Fields, authors: seq<Author>, kind: string, bibtexId: Option<string>)
    ensures NewPaper(fields, authors, kind, bibtexId).id == "" <==>
            !Truthy(FieldGet(fields, SemapiIdField)) && !Truthy(bibtexId)
  {
  }

  /** `Paper.__getattr__`: any other attribute reads the field dictionary, `None` when absent. */
  function Attr(p: Paper, name: string): (r: Option<string>)
    ensures name !in p.fields ==> r == None
    ensures name in p.fields ==> r == p.fields[name]
  {
    FieldGet(p.fields, name)
  }

  /** The lower-cased title, the key of the bibliography index. */
  function NormTitle(p: Paper): Option<string> {
    match Attr(p, TitleField)
    case Some(t) => Some(Lower(t))
    case None => None
  }

  /** `Paper.__eq__` between two papers: a shared truthy id, or equal titles (both may be `None`). */
  predicate PapersEqual(a: Paper, b: Paper) {
    (a.id != "" && a.id == b.id) || Attr(a, TitleField) == Attr(b, TitleField)
  }

  lemma PapersEqualReflexive(a: Paper)
    ensures PapersEqual(a, a)
  {
  }

  lemma PapersEqualSymmetric(a: Paper, b: Paper)
    ensures PapersEqual(a, b) <==> PapersEqual(b, a)
  {
  }

  /** Equal titles unify two papers even when their ids are truthy and differ. */
  lemma PapersEqualByTitle(a: Paper, b: Paper)
    requires a.id != "" && b.id != "" && a.id != b.id
    ensures PapersEqual(a, b) <==> Attr(a, TitleField) == Attr(b, TitleField)
  {
  }

  /**
   * The title fallback makes the relation non-transitive: a paper sharing its id
   * with one paper and its title with another is equal to both, which differ.
   */
  lemma PapersEqualNotTransitive()
    ensures exists a: Paper, b: Paper, c: Paper :: PapersEqual(a, b) && PapersEqual(b, c) && !PapersEqual(a, c)
  {
    var a := Paper(map[TitleField := Some("x")], [], "article", "1", None);
    var b := Paper(map[TitleField := Some("y")], [], "article", "1", None);
    var c := Paper(map[TitleField := Some("y")], [], "article", "2", None);
    assert PapersEqual(a, b) && PapersEqual(b, c) && !PapersEqual(a, c);
  }

  /** `PaperAndRefs`: a paper with the papers it cites and the papers citing it. */
  datatype PaperAndRefs = PaperAndRefs(paper: Paper, references: seq<Paper>, citations: seq<Paper>) {

    /** The number of citing papers. */
    function InDegree(): nat {
      |citations|
    }

    /** The number of cited papers. */
    function OutDegree(): nat {
      |references|
    }
  }

  /**
   * `PaperAndRefs.__init__`: copies fields, authors, type and bibtex key of the
   * wrapped paper and recomputes the id from them, as `Paper.__init__` does.
   */
  function NewPaperAndRefs(references: seq<Paper>, citations: seq<Paper>, paper: Paper): (r: PaperAndRefs)
    ensures r.paper.fields == paper.fields && r.paper.authors == paper.authors
    ensures r.paper.kind == paper.kind && r.paper.bibtexId == paper.bibtexId
    ensures r.references == references && r.citations == citations
    ensures r.InDegree() == |citations| && r.OutDegree() == |references|
  {
    PaperAndRefs(NewPaper(paper.fields, paper.authors, paper.kind, paper.bibtexId), references, citations)
  }

  /**
   * The recomputed id drops an id that `make_entry` assigned to a bibliography
   * paper: the wrapper of such a paper is keyed by its bibtex key again.
   */
  lemma NewPaperAndRefsForgetsAssignedId(key: string, title: string, assignedId: PaperId)
    requires key != "" && assignedId != key
    ensures var bib := NewPaper(map[TitleField := Some(title)], [], "article", Some(key)).(id := assignedId);
            NewPaperAndRefs([], [], bib).paper.id == key != bib.id
  {
  }

  /** A pybtex entry of the bibliography file: its key, fields and persons by role. */
  datatype BibEntry = BibEntry(key: string, fields: Fields, persons: map<string, seq<Author>>)

  /** What `Biblio.__init__` reads of every entry without raising: a title string and an author list. */
  predicate WellFormedEntry(e: BibEntry) {
    TitleField in e.fields && e.fields[TitleField].Some? && AuthorRole in e.persons
  }

  /** The index key of an entry: its lower-cased title. */
  function EntryTitleKey(e: BibEntry): string
    requires WellFormedEntry(e)
  {
    Lower(e.fields[TitleField].value)
  }

  /** The `Paper` that `Biblio.__init__` builds for an entry. */
  function EntryPaper(e: BibEntry): (p: Paper)
    requires WellFormedEntry(e)
    ensures NormTitle(p) == Some(EntryTitleKey(e)) && p.bibtexId == Some(e.key)
  {
    NewPaper(e.fields, e.persons[AuthorRole], "article", Some(e.key))
  }

  function EntryKeys(entries: seq<BibEntry>): set<string> {
    set e | e in entries :: e.key
  }

  /** The `by_norm_title` dictionary comprehension: entries in file order, a later title overwriting an earlier one. */
  function TitleIndex(entries: seq<BibEntry>): (m: map<string, Paper>)
    requires forall e | e in entries :: WellFormedEntry(e)
  {
    if entries == [] then map[]
    else
      var last := entries[|entries| - 1];
      var m := TitleIndex(entries[..|entries| - 1]);
      assert forall e | e in entries :: e in entries[..|entries| - 1] || e == last;
      m[EntryTitleKey(last) := EntryPaper(last)]
  }

  /** The iteration order of that dictionary: each title key where it first appears. */
  function TitleOrder(entries: seq<BibEntry>): (o: seq<string>)
    requires forall e | e in entries :: WellFormedEntry(e)
    ensures forall k :: k in o <==> k in TitleIndex(entries)
    ensures Distinct(o)
  {
    if entries == [] then []
    else
      var last := entries[|entries| - 1];
      var o := TitleOrder(entries[..|entries| - 1]);
      if EntryTitleKey(last) in o then o else o + [EntryTitleKey(last)]
  }

  /**
   * The index holds, for each title, the paper of the LAST entry with that
   * title: every later duplicate overwrites an earlier one.
   */
  lemma {:induction false} TitleIndexLastWins(entries: seq<BibEntry>, i: nat)
    requires forall e | e in entries :: WellFormedEntry(e)
    requires i < |entries|
    requires forall j | i < j < |entries| :: EntryTitleKey(entries[j]) != EntryTitleKey(entries[i])
    ensures EntryTitleKey(entries[i]) in TitleIndex(entries)
    ensures TitleIndex(entries)[EntryTitleKey(entries[i])] == EntryPaper(entries[i])
  {
    var n := |entries|;
    if i < n - 1 {
      var init := entries[..n - 1];
      var key := EntryTitleKey(entries[i]);
      assert forall e | e in init :: e in entries;
      assert init[i] == entries[i];
      assert forall j | i < j < |init| :: EntryTitleKey(init[j]) != key by {
        forall j | i < j < |init| ensures EntryTitleKey(init[j]) != key {
          assert init[j] == entries[j];
        }
      }
      TitleIndexLastWins(init, i);
    }
  }

  /** The values of `m` in the order of `keys`. */
  function ValuesInOrder<K, V>(m: map<K, V>, keys: seq<K>): (vs: seq<V>)
    requires forall k | k in keys :: k in m
    ensures |vs| == |keys|
    ensures forall i | 0 <= i < |keys| :: vs[i] == m[keys[i]]
  {
    if keys == [] then [] else [m[keys[0]]] + ValuesInOrder(m, keys[1..])
  }

  /** Listing a map's values along a duplicate-free enumeration of its keys lists each value, once per key. */
  lemma ValuesInOrderCovers<K, V>(m: map<K, V>, keys: seq<K>)
    requires forall k :: k in keys <==> k in m
    requires Distinct(keys)
    ensures |ValuesInOrder(m, keys)| == |m|
    ensures forall v :: v in ValuesInOrder(m, keys) <==> v in m.Values
  {
    DistinctCardinality(keys);
    assert Elements(keys) == m.Keys;
    var vs := ValuesInOrder(m, keys);
    forall v | v in m.Values ensures v in vs {
      var k :| k in m && m[k] == v;
      var i :| 0 <= i < |keys| && keys[i] == k;
      assert vs[i] == v;
    }
  }

  /** `Biblio` of `citegraph.model`: a bibliography file with its title index. */
  class Biblio {
    /** `bibdata.entries`, in file order. */
    const entries: seq<BibEntry>
    /** `by_norm_title`: lower-cased title to the paper built from the entry. */
    var byNormTitle: map<string, Paper>
    /** The insertion order of `by_norm_title`, which `__iter__` follows. */
    var titleOrder: seq<string>
    /** `id_to_bibkey`: a source id to the key of the entry it was unified with. */
    var idToBibkey: map<PaperId, Option<string>>

    ghost predicate Valid()
      reads this
    {
      && (forall k | k in byNormTitle ::
            NormTitle(byNormTitle[k]) == Some(k) &&
            byNormTitle[k].bibtexId.Some? && byNormTitle[k].bibtexId.value in EntryKeys(entries))
      && (forall k :: k in titleOrder <==> k in byNormTitle)
      && Distinct(titleOrder)
    }

    /** `Biblio.__init__`. */
    constructor (entries: seq<BibEntry>)
      requires forall e | e in entries :: WellFormedEntry(e)
      ensures Valid() && this.entries == entries
      ensures byNormTitle == TitleIndex(entries) && titleOrder == TitleOrder(entries)
      ensures idToBibkey == map[]
    {
      this.entries := entries;
      byNormTitle := TitleIndex(entries);
      titleOrder := TitleOrder(entries);
      idToBibkey := map[];
      new;
      IndexValid(entries);
    }

    static lemma {:induction false} IndexValid(entries: seq<BibEntry>)
      requires forall e | e in entries :: WellFormedEntry(e)
      ensures forall k | k in TitleIndex(entries) ::
        NormTitle(TitleIndex(entries)[k]) == Some(k) &&
        TitleIndex(entries)[k].bibtexId.Some? && TitleIndex(entries)[k].bibtexId.value in EntryKeys(entries)
    {
      if entries != [] {
        var init := entries[..|entries| - 1];
        assert forall e | e in init :: e in entries;
        IndexValid(init);
        assert EntryKeys(init) <= EntryKeys(entries);
      }
    }

    /** `paper in biblio`: its truthy id was unified with an entry, or its truthy bibtex key is an entry's. */
    predicate Contains(p: Paper)
      reads this
    {
      (p.id != "" && p.id in idToBibkey) || (Truthy(p.bibtexId) && p.bibtexId.value in EntryKeys(entries))
    }

    /** `__iter__`: the indexed papers, in the index's insertion order. */
    function Papers(): (ps: seq<Paper>)
      reads this
      requires Valid()
      ensures |ps| == |byNormTitle|
      ensures forall p :: p in ps <==> p in byNormTitle.Values
    {
      ValuesInOrderCovers(byNormTitle, titleOrder);
      ValuesInOrder(byNormTitle, titleOrder)
    }

    /**
     * `make_entry`: unify a source record with the bibliography. On a title match
     * the indexed paper takes the record's id and abstract and `id_to_bibkey`
     * records the entry's key; otherwise a fresh paper is built from the record.
     */
    method MakeEntry(d: PaperDict) returns (p: Paper)
      requires Valid()
      modifies this
      ensures Valid()
      ensures titleOrder == old(titleOrder) && byNormTitle.Keys == old(byNormTitle.Keys)
      ensures p.id == d.paperId && NormTitle(p) == Some(Lower(d.title))
      ensures Lower(d.title) in old(byNormTitle) ==>
        var bib := old(byNormTitle)[Lower(d.title)];
        && p == bib.(id := d.paperId, fields := bib.fields[AbstractField := AbstractOf(d)])
        && byNormTitle == old(byNormTitle)[Lower(d.title) := p]
        && idToBibkey == old(idToBibkey)[d.paperId := bib.bibtexId]
        && (Contains(p) <==> d.paperId != "" || Truthy(bib.bibtexId))
      ensures Lower(d.title) !in old(byNormTitle) ==>
        && p.fields == map[TitleField := Some(d.title), YearField := d.year,
                           SemapiIdField := Some(d.paperId), AbstractField := AbstractOf(d)]
        && p.authors == d.authors && p.kind == "article" && p.bibtexId == None
        && byNormTitle == old(byNormTitle) && idToBibkey == old(idToBibkey)
    {
      var key := Lower(d.title);
      if key in byNormTitle {
        var bib := byNormTitle[key];
        p := bib.(id := d.paperId, fields := bib.fields[AbstractField := AbstractOf(d)]);
        idToBibkey := idToBibkey[d.paperId := bib.bibtexId];
        byNormTitle := byNormTitle[key := p];
        assert NormTitle(p) == NormTitle(bib);
      } else {
        p := RecordPaper(d);
      }
    }
  }

  /** The paper `make_entry` builds from a record that matches no bibliography title. */
  function RecordPaper(d: PaperDict): (p: Paper)
    ensures p.fields == map[TitleField := Some(d.title), YearField := d.year,
                            SemapiIdField := Some(d.paperId), AbstractField := AbstractOf(d)]
    ensures p.authors == d.authors && p.kind == "article" && p.bibtexId == None
    ensures p.id == d.paperId && NormTitle(p) == Some(Lower(d.title))
  {
    var fields := map[TitleField := Some(d.title), YearField := d.year,
                      SemapiIdField := Some(d.paperId), AbstractField := AbstractOf(d)];
    assert fields[TitleField] == Some(d.title) && fields[SemapiIdField] == Some(d.paperId);
    NewPaper(fields, d.authors, "article", None)
  }
}
