# citegraph in Dafny

A model of the exploration core of citegraph, a tool that grows a citation
graph around the papers of a BibTeX bibliography by querying a remote
bibliographic source (Semantic Scholar). The model covers:

- **Papers and the bibliography** (`model.dfy`, `src/citegraph/model.py`):
  - `Paper` identity: the id falls back to the bibtex key; equality falls back to the title.
  - `PaperAndRefs` and its degrees.
  - The title-keyed `Biblio` index: its construction, membership, iteration and `make_entry`.
- **The memoising paper source** (`semapi.dfy`, `src/citegraph/semapi.py`): `PaperDb.fetch_from_id`, a cache in front of the remote call.
- **Scoring** (`explore.dfy`, `clustering.dfy`, `src/citegraph/explore.py`):
  - Author overlap and similarity, and `edge_disinterest`.
  - The a-priori interest `api` with its `clusterness`.
  - Distance from the roots and the degree of interest.
  - Seed extraction from the bibliography (`seeds_in_bib`).
- **The best-first explorer** `smart_fetch` (`smart_fetch.dfy`): its dictionaries, sets and counters are the fields of a class `Explorer`, and its inner functions are methods of that class.
- **The older A\*-style crawl** `initialize_graph` (`astar.dfy`): integer costs, `g`/`f` score maps and a priority queue of `(f, id)` pairs.
- **The legacy depth-bounded crawler** of `src/semscholar.py` (`semscholar.dfy`):
  - Its own `Biblio`, with `norm_key` and `make_entry`.
  - `build_graph`, which records the nodes and edges it asks the drawing to create.

The remote call `semanticscholar.paper(id)` is a parameter. It is an oracle
function from ids to an optional response, where an empty answer is `None`.
Python floats are Dafny `real`s, and Python ints are unbounded `int`s. Every
loop that changes state is a method with loop invariants. Most of these
methods are proved against a pure function that states what they compute,
and the properties of those functions are proved as lemmas: the crawl of
`src/semscholar.py` equals `CrawlSpec`, the loops of `update_graph` equal
`LinkAll`, `InsertPapers` and `RelaxAll`, and the root loop of `smart_fetch`
equals `NodesAfter`, `LinksAfter` and `DistancesAfter`, and the reference
loop of the A\* crawl equals `RelaxRefs`. The main loops of `smart_fetch` and
of the A\* crawl run for a fuel bound. They are specified by the effect of
each round and by the invariants every round keeps. An A\* round pops a
smallest entry, fetches it, stores the answer and applies `RelaxRefs` to the
rest of the queue.

Where the code differs from the system's design description, the model
follows the code:

- `clusterness` returns 1 for no included neighbour. Otherwise it divides by
  `n * (n + 1) / 2`, so its value lies in [0, 1) and a single neighbour gives 0.
  The design describes a constant 0.75 below two neighbours and the standard
  local clustering coefficient.
- `update_graph` relaxes distances along references only, not along citations.
  The design describes relaxation in both directions of every new edge.
- The roots are put into the pool at distance 0, but not into `graph_nodes`.
  The design merges seeds into the included graph.
- The degree of interest is `api_weight * api + distance_penalty * distance`,
  with a negative `distance_penalty`.
- The author similarity is `(1 + common) / (1 + min(|authors|))`, not a Jaccard ratio.
- The bibliography bonus is a fixed factor of 3.
- `build_graph` queues every reference of a fetched paper for the next depth.
  Its docstring (src/semscholar.py:164-167) says a reference missing from the
  entries is not explored further.
- There is no persistent store, no 32-bit id folding and no resolved marker.
  The only cache is the in-memory `memcache`.

## Model

| member | source | states |
|---|---|---|
| Text.Lower | src/citegraph/model.py:82 | `str.lower()` keeps the length and lower-cases each ASCII letter, position by position |
| Text.LowerIdempotent | src/citegraph/model.py:112 | lower-casing a normalised title again changes nothing, so an index key is its own key |
| PaperSource.AbstractOf | src/citegraph/model.py:126 | `get("abstract", "")`: the empty string when the key is absent, the sent value (null included) otherwise |
| Collections.Enumerate | src/citegraph/explore.py:67-68 | enumerating a set visits each of its elements exactly once |
| Model.NewPaper | src/citegraph/model.py:16-23 | the constructor keeps fields, authors, type and bibtex key; the id is the `semapi_id` field when truthy, the bibtex key otherwise |
| Model.NewPaperIdFalsy | src/citegraph/model.py:22 | a paper's id is falsy exactly when neither its `semapi_id` field nor its bibtex key is truthy |
| Model.Attr | src/citegraph/model.py:26-27 | an undefined attribute reads the field dictionary, `None` when the field is absent |
| Model.PapersEqualReflexive | src/citegraph/model.py:30-34 | paper equality is reflexive |
| Model.PapersEqualSymmetric | src/citegraph/model.py:30-34 | paper equality is symmetric |
| Model.PapersEqualByTitle | src/citegraph/model.py:30-34 | two papers with distinct truthy ids are equal exactly when their titles are |
| Model.PapersEqualNotTransitive | src/citegraph/model.py:30-34 | the title fallback makes equality non-transitive: three papers witness it |
| Model.NewPaperAndRefs | src/citegraph/model.py:47-65 | the wrapper copies fields, authors, type and bibtex key, keeps both lists, and its in/out degrees are the citation/reference counts |
| Model.NewPaperAndRefsForgetsAssignedId | src/citegraph/model.py:47-48 | the wrapper recomputes the id, so a bibliography paper's assigned id is replaced by its bibtex key again |
| Model.EntryPaper | src/citegraph/model.py:82-84 | the paper built for an entry is keyed by the entry's lower-cased title and carries the entry's key |
| Model.TitleOrder | src/citegraph/model.py:81-86 | the index's insertion order lists each title key once, exactly the keys of the index |
| Model.TitleIndexLastWins | src/citegraph/model.py:81-86 | an entry whose title no later entry repeats is the one the index holds for that title |
| Model.ValuesInOrder | src/citegraph/model.py:97-98 | listing the values along the key order gives one value per key, the one under that key |
| Model.ValuesInOrderCovers | src/citegraph/model.py:97-98 | along a duplicate-free order of all keys, the listing has one item per key and holds exactly the map's values |
| Model.Biblio.constructor | src/citegraph/model.py:79-87 | the index is the title comprehension over the entries in file order, and `id_to_bibkey` starts empty |
| Model.Biblio.IndexValid | src/citegraph/model.py:81-86 | every indexed paper sits under its own lower-cased title and carries a key of the bibliography |
| Model.Biblio.Papers | src/citegraph/model.py:97-98 | iteration yields exactly the indexed papers, one per title |
| Model.Biblio.MakeEntry | src/citegraph/model.py:101-130 | on a title match the indexed paper takes the record's id and abstract, `id_to_bibkey` maps the id to its bibtex key, and the paper is `in` the bibliography exactly when the record's id or its bibtex key is truthy; otherwise a fresh paper with title, year, `semapi_id` and abstract is returned and nothing changes |
| Model.RecordPaper | src/citegraph/model.py:121-130 | the paper built from an unmatched record: those four fields, the record's authors, type "article", no bibtex key, id the record's id |
| Semapi.PaperDb.constructor | src/citegraph/semapi.py:20-22 | a new cache is empty and has called nothing |
| Semapi.PaperDb.MakeEntries | src/citegraph/semapi.py:37-38 | one entry per record, in order, each with the record's id and title key; the index keeps its keys |
| Semapi.PaperDb.FetchFromId | src/citegraph/semapi.py:24-42 | a hit returns the cached value with no call and no change; a miss calls the source once, caches the result (failure included) under the requested id, and on success keeps the response's id and the length, order, ids and titles of both lists |
| Semapi.PaperDb.FetchCached | src/citegraph/semapi.py:24-42 | after a fetch the requested key is cached with the result, no other key is added, and no cached value changes |
| Semapi.FetchTwice | src/citegraph/semapi.py:26-41 | asking twice gives the same answer, and the source is called at most once, only when the id was not yet cached |
| Clustering.CountNeighbors | src/citegraph/explore.py:68-70 | the count of neighbours in a sequence never exceeds its length |
| Clustering.Clusterness | src/citegraph/explore.py:55-74 | the nested loops compute 1 for no neighbour and otherwise the closed pairs `i < j` over `n * (n + 1) / 2` |
| Clustering.ClosedPairsBound | src/citegraph/explore.py:64-70 | twice the closed pairs is at most `n * (n - 1)` |
| Clustering.HalfPairsBelowPossible | src/citegraph/explore.py:72-74 | such a count over `n * (n + 1) / 2` lies in [0, 1) |
| Clustering.ClusternessBounds | src/citegraph/explore.py:55-74 | the value is 1 for no included neighbour and lies in [0, 1) otherwise |
| Clustering.PairsInRemove | src/citegraph/explore.py:64-70 | with a symmetric neighbour map the pair count may remove any element first |
| Clustering.CountNeighborsIsDegree | src/citegraph/explore.py:68-70 | the inner loop's count over a duplicate-free sequence is the neighbour count over its set |
| Clustering.ClosedPairsIsPairsIn | src/citegraph/explore.py:64-70 | with a symmetric map the closed pairs of an enumeration equal the pair count of its set |
| Clustering.ClusternessOrderFree | src/citegraph/explore.py:55-74 | with a symmetric map the loop's value equals the value defined on the set |
| Clustering.ClusternessEnumerationsAgree | src/citegraph/explore.py:66-70 | two enumerations of one set give the same clusterness |
| Clustering.PairsInBound | src/citegraph/explore.py:64-72 | twice the pairs of a set is at most `|S| * (|S| - 1)` |
| Clustering.ClusternessOfBounds | src/citegraph/explore.py:55-74 | the set's clusterness is 1 when empty and lies in [0, 1) otherwise |
| Clustering.ClusternessOfSingleton | src/citegraph/explore.py:55-74 | one included neighbour gives a clusterness of 0 |
| Explore.AuthorKeysBound | src/citegraph/explore.py:21-22 | the author set is never larger than the author list |
| Explore.AuthorsInCommonBounds | src/citegraph/explore.py:13-14 | the common-author count is symmetric and bounded by both author sets and both author lists |
| Explore.AuthorsSimilarityBounds | src/citegraph/explore.py:17-18 | the similarity is symmetric and lies in (0, 1] |
| Explore.EdgeDisinterest | src/citegraph/explore.py:114-117 | the edge cost lies in [1, 6), so it is positive |
| Explore.EdgeDisinterestSymmetric | src/citegraph/explore.py:114-117 | both directions of an edge cost the same |
| Explore.DefaultParamsValid | src/citegraph/explore.py:39-51 | the default weights have the signs the field comments demand |
| Explore.IncludedNeighbors | src/citegraph/explore.py:142-143 | the included neighbours are exactly the graph's ids that are neighbours of the paper |
| Explore.ApiScoreProperties | src/citegraph/explore.py:135-152 | the excluded record scores -1000 either way; any other paper scores at least 0, exactly 0 without an included neighbour, and three times as much inside the bibliography |
| Explore.ApiBaseBounds | src/citegraph/explore.py:149-150 | the base lies between 0 and `degree_cut * (1 + clustering_factor)` |
| Explore.ApiScoreUpperBound | src/citegraph/explore.py:135-152 | no score exceeds `3 * degree_cut * (1 + clustering_factor)` |
| Explore.ApiScoreOneNeighbor | src/citegraph/explore.py:142-152 | one included neighbour scores 1 outside and 3 inside the bibliography |
| Explore.DistanceFromFocal | src/citegraph/explore.py:154-155 | the recorded distance, 10 for a paper without one |
| Explore.InterestMonotone | src/citegraph/explore.py:158-160 | with the demanded signs, a higher `api` and a smaller distance never lower the interest, and a strict gain in either raises it |
| Explore.EntrySeed | src/citegraph/explore.py:28-33 | a truthy `paperId` is the seed; otherwise an arXiv entry contributes "arXiv:" plus its volume after "abs/" exactly when the volume starts so; any other entry contributes nothing |
| Explore.SeedsOfLength | src/citegraph/explore.py:25-35 | at most one seed per entry |
| Explore.SeedsOfConcat | src/citegraph/explore.py:25-35 | seeds follow the entries' order: the seeds of a concatenation are the concatenated seeds |
| Explore.SeedsOfMembership | src/citegraph/explore.py:25-35 | an id is a seed exactly when some entry contributes it |
| Explore.SeedsInBib | src/citegraph/explore.py:25-35 | the result is the seeds of the bibliography's papers in iteration order |
| Explore.CollectSeeds | src/citegraph/explore.py:27-35 | the loop appends each entry's seed in order |
| SmartFetch.AddRefMapNeighbors | src/citegraph/explore.py:123-133 | `add_ref` adds exactly the edge and its reverse, so the multimap stays symmetric |
| SmartFetch.LinkAllNeighbors | src/citegraph/explore.py:163-170 | after either loop `cur` and each listed paper are neighbours both ways, nothing else was added, and symmetry is kept |
| SmartFetch.InsertPapersContents | src/citegraph/explore.py:163-170 | the pool gains exactly the listed ids, other entries stay, and keys stay the ids of their papers |
| SmartFetch.RelaxProperties | src/citegraph/explore.py:172-183 | one relaxation never raises a distance, only reaches the edge's two ends, keeps distances non-negative, leaves neither end improvable through the other, and does nothing between two unreached papers |
| SmartFetch.RelaxAllProperties | src/citegraph/explore.py:168-183 | the reference loop never raises a distance, reaches only `cur` and its references, and keeps distances non-negative |
| SmartFetch.RelaxAllKeepsZero | src/citegraph/explore.py:172-190 | a root's distance 0 stays 0 |
| SmartFetch.UpdateGraphEffect | src/citegraph/explore.py:163-183 | `update_graph` adds exactly the citing and cited ids to the pool, keeps the multimap symmetric, and never raises a distance |
| SmartFetch.RootPapers | src/citegraph/explore.py:191 | the roots' papers, in order |
| SmartFetch.RootPapersIds | src/citegraph/explore.py:190-191 | the ids of those papers are the roots' ids |
| SmartFetch.MaxByScore | src/citegraph/explore.py:201-206 | `max(..., key=score, default=(None, 0))`: `None` and 0 exactly for no pair, otherwise a pair of the list with the largest score, the first such pair |
| SmartFetch.LinkedIdsMembership | src/citegraph/explore.py:163-170 | an id is linked to the roots exactly when it cites or is cited by one of them |
| SmartFetch.NodesAfterKeys | src/citegraph/explore.py:163-170 | over the roots, `update_graph` adds to the pool exactly the linked ids, each under its own id |
| SmartFetch.LinksAfterNeighbors | src/citegraph/explore.py:123-133 | over the roots, `update_graph` adds exactly the edges between a root and a paper it cites or is cited by, in both directions |
| SmartFetch.RootSetup | src/citegraph/explore.py:189-194 | after the set-up the pool holds exactly the roots and their linked ids, each under its own id, and the neighbour map links exactly each root with those papers, symmetrically |
| SmartFetch.Explorer.UpdateRoots | src/citegraph/explore.py:193-194 | the root loop leaves pool, multimap and distances as the three folds of `update_graph` over the roots, in order, and keeps the invariants |
| SmartFetch.Explorer.constructor | src/citegraph/explore.py:187-197 | the roots at distance 0 and in the pool, then `update_graph` on each root in order: the pool, multimap and distances are those folds; the pool holds exactly the roots and their linked ids, the neighbours are exactly the root edges, and the graph and failed set are empty |
| SmartFetch.Explorer.UpdateNeighbors | src/citegraph/explore.py:123-127 | `update_multimap` adds the value to the set under the key, creating it, and changes nothing else |
| SmartFetch.Explorer.AddRef | src/citegraph/explore.py:130-133 | `add_ref` records the citation in both directions and changes nothing else |
| SmartFetch.Explorer.RelaxEdge | src/citegraph/explore.py:172-183 | the two relaxations of a reference, in the source's order |
| SmartFetch.Explorer.UpdateGraph | src/citegraph/explore.py:163-183 | pool, multimap and distances become the loops' functions of the old state; the pool gains exactly the neighbours' ids and no distance rises |
| SmartFetch.Explorer.AddCitations | src/citegraph/explore.py:164-166 | the citation loop pools and links each citing paper |
| SmartFetch.Explorer.AddReferences | src/citegraph/explore.py:168-183 | the reference loop pools, links and relaxes each cited paper |
| SmartFetch.Explorer.Api | src/citegraph/explore.py:135-152 | `api` for any enumeration of the included neighbours equals the order-free score |
| SmartFetch.Explorer.DegreeOfInterest | src/citegraph/explore.py:158-160 | `degree_of_interest` is the weighted `api` plus the weighted distance |
| SmartFetch.Explorer.PickBest | src/citegraph/explore.py:201-207 | nothing is picked exactly when no candidate is left; otherwise the pick is a pooled candidate (not included, not failed) of maximal interest |
| SmartFetch.Explorer.Step | src/citegraph/explore.py:200-236 | a round with no candidate changes nothing; otherwise it fetches a candidate of maximal interest, and the new pool, links, distances, graph and failure count are those the visit gives |
| SmartFetch.Explorer.Visit | src/citegraph/explore.py:211-236 | a failed fetch drops the id, marks it failed and counts it, aborting past 10, links and distances unchanged; a success adds the result to the graph under its own id, stops once the graph is full, and otherwise applies `update_graph` to the pool, links and distances |
| SmartFetch.Explorer.Fail | src/citegraph/explore.py:214-222 | the failure branch: the id leaves the pool and joins the failed set, the counter rises by one, and the round aborts exactly past 10; graph, links and distances are unchanged |
| SmartFetch.Explorer.Include | src/citegraph/explore.py:224-236 | the success branch: the graph gains the result under its id; the round ends `Full` exactly when the graph has reached `max_size`, with pool, links and distances as after the adoption; otherwise they are `InsertPapers`, `LinkAll` and `RelaxAll` of `update_graph(best)` |
| SmartFetch.Explorer.Adopt | src/citegraph/explore.py:224-229 | the graph gains the result under its id, and the asked id leaves the pool when the two ids differ |
| SmartFetch.Explorer.Run | src/citegraph/explore.py:200-236 | the loop stops exhausted only with no candidate, aborted only past 10 failures, full only at `max_size`; the graph never exceeds `max(max_size, 1)`, each failure adds one failed id, and no distance rises |
| SmartFetch.Explorer.Advance | src/citegraph/explore.py:200-236 | one turn keeps the graph below the bound unless full and counts one failure per new failed id |
| SmartFetch.SmartFetch | src/citegraph/explore.py:78-238 | given roots that are the source's answers for seeds, `None` with no fetch exactly when there are no seeds; otherwise a graph of at most `max(max_size, 1)` papers, each under its own id |
| AStar.Cost | src/citegraph/explore.py:266-267 | the heuristic is 8 exactly for a bibliography paper and 20 otherwise |
| AStar.EdgeCost | src/citegraph/explore.py:270-277 | the edge cost lies in [3, 8], at most 6 from and 7 into the bibliography, at least 6 without a shared author |
| AStar.StrLeqTotal | src/citegraph/explore.py:296 | string order is total |
| AStar.StrLeqTransitive | src/citegraph/explore.py:296 | string order is transitive |
| AStar.StrLeqAntisymmetric | src/citegraph/explore.py:296 | string order is antisymmetric |
| AStar.EntryOrder | src/citegraph/explore.py:296 | tuple order on `(f, id)` is a total order |
| AStar.Search.constructor | src/citegraph/explore.py:285-307 | every seed at `g = 0` and `f = 8`, queued in order |
| AStar.Search.Push | src/citegraph/explore.py:294-296 | `push` queues the id with its current `f` |
| AStar.Search.IsNotInOpenSet | src/citegraph/explore.py:299-303 | true exactly when no queued entry carries the id |
| AStar.Search.FindMin | src/citegraph/explore.py:312 | the position of an entry no greater than any queued entry |
| AStar.Search.PopMin | src/citegraph/explore.py:312 | `get` removes one smallest entry and keeps the rest |
| AStar.Search.RelaxNeighbor | src/citegraph/explore.py:335-344 | the new `g`, `f` and queue are `Relax` of the old: only on a strictly shorter path does `g` become it, with `f = g + cost`, and the id is queued exactly when no entry carries it; otherwise nothing changes |
| AStar.RelaxRefsMonotone | src/citegraph/explore.py:334-344 | the reference loop never raises a `g`, keeps the expanded paper's `g` (every edge costs at least 3), and only appends to the queue |
| AStar.RelaxRefsKeys | src/citegraph/explore.py:338-340 | only the ids of references can gain a `g` |
| AStar.RelaxRefsLocal | src/citegraph/explore.py:338-341 | any id that is not a reference keeps its `g` and its `f` |
| AStar.RelaxRefsReaches | src/citegraph/explore.py:334-344 | after the loop every reference `n` has `g_score.get(n.id, Infty) <= g[paper_id] + edge_cost(paper, n)` |
| AStar.RelaxRefsSets | src/citegraph/explore.py:338-344 | every id whose `g` the loop set is a reference whose `f` is that `g` plus its `cost`, and an entry carries it in the queue |
| AStar.RelaxRefsFresh | src/citegraph/explore.py:342-344 | each entry the loop appends carries an id that no earlier entry carries |
| AStar.Search.RelaxReferences | src/citegraph/explore.py:333-344 | the reference loop leaves `g`, `f` and the queue as `RelaxRefs` of the old ones, so no `g` rises and no queued entry is removed |
| AStar.Search.Run | src/citegraph/explore.py:311-344 | abort exactly past 10 failures, at most `max(max_size, 1)` papers, full only at `max_size`, every stored paper is the cached answer for its id, no stored paper is dropped, and no `g` rises |
| AStar.Search.Expand | src/citegraph/explore.py:312-344 | one round pops a smallest queued entry and fetches its id; a failure counts one, aborts past 10 and leaves the graph, the scores and the rest of the queue alone; a success stores the cached answer under the popped id and keeps the failures, then stops when the graph is full or else leaves the scores and queue as `RelaxRefs` of the answer's references over the rest of the queue |
| AStar.Search.Store | src/citegraph/explore.py:324-344 | the paper is stored under the requested id; the round ends `Full` at `max_size` with the scores and queue unchanged, otherwise they become `RelaxRefs` of its references; no queued entry is removed |
| AStar.InitializeGraph | src/citegraph/explore.py:243-346 | the result has at most `max(max_size, 1)` papers, each the cached answer for its id |
| Semscholar.EntryIndex | src/semscholar.py:38-40 | every entry's lower-cased title is a key, each key holds an entry with that title, and the last entry wins its title |
| Semscholar.Biblio.constructor | src/semscholar.py:36-41 | the index is that comprehension, and `id_to_bibkey` starts empty |
| Semscholar.Biblio.NormKey | src/semscholar.py:52-53 | `norm_key` renames the entry to the mapped key when its id is mapped, keeps it otherwise, and touches nothing else |
| Semscholar.Biblio.NormKeyIdempotent | src/semscholar.py:44-53 | renaming twice is renaming once, and a renamed entry is `in` the bibliography |
| Semscholar.Biblio.MakeEntry | src/semscholar.py:55-89 | on a title match the entry is stamped with the id, `id_to_bibkey` maps the id to its key, and the entry is then `in` the bibliography; otherwise a new entry keyed by the id with title, year and `semapi_id` is returned and nothing changes |
| Semscholar.CitedEdgesMembership | src/semscholar.py:212-214 | an edge is emitted exactly for a citation whose cited id is in `done`, between the renamed keys; there are never more edges than citations |
| Semscholar.DotBuilder.constructor | src/semscholar.py:93-95 | a builder over a new bibliography, with nothing drawn |
| Semscholar.DotBuilder.AddPaper | src/semscholar.py:131-135 | `add_paper` draws one node named by the entry's key |
| Semscholar.DotBuilder.Cite | src/semscholar.py:153-156 | `cite` draws one edge between the renamed keys |
| Semscholar.DotBuilder.EmitCitations | src/semscholar.py:212-214 | the final loop draws exactly the filtered edges, in order |
| Semscholar.Failed | src/semscholar.py:186-190 | never more failures than attempts; `CrawlAccounts` ties the count to `failures` |
| Semscholar.AccountsAppend | src/semscholar.py:180-206 | failures, citations and queued ids of consecutive attempts add up |
| Semscholar.FetchedAppend | src/semscholar.py:196-200 | the papers drawn for consecutive attempts add up, in order |
| Semscholar.FetchedAccounts | src/semscholar.py:186-200 | every attempt is either a failure or one drawn paper, and an id is drawn exactly when the source answers some attempt with that paper |
| Semscholar.NewRefsCover | src/semscholar.py:202-206 | every reference of a fetched paper is queued |
| Semscholar.LevelAttempts | src/semscholar.py:180-194 | a level appends its new attempts to the attempts, adds them to `done`, and keeps the level's start |
| Semscholar.LevelAddedFresh | src/semscholar.py:180-184 | a level tries only ids of the level, each once, none already in `done` |
| Semscholar.LevelAccounts | src/semscholar.py:186-206 | a level's failures, citations and queued ids are those of its new attempts |
| Semscholar.LevelOutcome | src/semscholar.py:180-194 | an aborted crawl stays put; a level that does not abort tries every id of the level; a level that aborts ends on an unknown id with the eleventh failure |
| Semscholar.CrawlFromAccounts | src/semscholar.py:178-210 | the levels keep: each id tried once, `done` the tried ids, failures the unknown ones, abort exactly past 10, citations in attempt order |
| Semscholar.CrawlFromCovers | src/semscholar.py:178-210 | the levels try only ids reachable from the seeds through references of fetched papers |
| Semscholar.CrawlFromTries | src/semscholar.py:178-210 | `done` only grows; unless aborted, the level's ids are tried and every paper fetched before the last level has its references tried |
| Semscholar.CrawlAccounts | src/semscholar.py:169-210 | the crawl tries each id once, `done` holds exactly the tried ids, failures count the unknown ids and abort exactly past 10, and the citations are one per reference of each fetched paper in fetch order |
| Semscholar.CrawlCovers | src/semscholar.py:169-210 | the crawl tries only seeds and references of fetched papers; nothing at `depth <= 0`, only seeds at depth 1 |
| Semscholar.CrawlReaches | src/semscholar.py:163-210 | unless it aborts, a crawl of depth at least 1 tries every seed, and every paper fetched before its last level has all its references tried |
| Semscholar.AddFetched | src/semscholar.py:196-206 | a fetched paper becomes one node, for an entry carrying the answer's id, and one citation per reference from its id to the reference's id, in order; the references' ids are queued in order |
| Semscholar.Visit | src/semscholar.py:180-206 | a new id joins `done` and the attempts; it fails exactly when the source has no answer, which counts one failure and changes nothing else; a success draws the node of the answer's entry, queues the reference ids and appends their citations |
| Semscholar.CrawlLevel | src/semscholar.py:180-206 | the loop's state at the end equals `Level` of its state at the start, and the drawing gains one node per answered attempt, for the answer's entry |
| Semscholar.Crawl | src/semscholar.py:169-210 | `done`, the citations, the failures and the abort flag are those of `CrawlSpec`; the drawing gains exactly one node per answered attempt, in order, for an entry carrying the answer's id; each citation's source was drawn first |
| Semscholar.RecordReferences | src/semscholar.py:202-206 | one citation from the paper's entry and one queued id per reference, in order |
| Semscholar.Stamp | src/semscholar.py:159-160 | the entry made for a record carries its id |
| Semscholar.BuildGraph | src/semscholar.py:163-214 | `done` and the citations are those of `CrawlSpec`; the drawing is one node per answered attempt, for an entry carrying the answer's id, in order, followed by exactly the filtered edges of the recorded citations |

## Left out

- Remote calls, the request cache and logging: `semanticscholar.paper` is a parameter, and `requests_cache` and every `print` are omitted.
- `db.batch_fetch` and its `exception_handler` are not defined in `PaperDb`, and are not part of this model. `smart_fetch` takes the fetched roots and the failures counted while fetching them as parameters.
- SmartFetch.SmartFetch, AStar.InitializeGraph: the `biblio` argument is taken to be the `PaperDb`'s own bibliography.
- SmartFetch.Explorer.Run, AStar.Search.Run: the `while True` and `while open_set` loops run for at most `fuel` rounds. Their termination depends on the remote graph being finite.
- The `Graph` result class and its drawing are not part of this model; `smart_fetch` returns the `graph_nodes` map.
- The graphviz rendering of `src/semscholar.py` is left out: labels, colours, edge attributes and the `Digraph`. The builder records only node names and edge endpoints.
- The CLI and entry points are left out, as is `age`, which nothing in the core uses.
- Object identity and aliasing: papers and entries are values. `make_entry` stamps the bibliography's own object. The model updates the index's copy and returns it, so an earlier reference to the same object does not see the change. `norm_key` renames in place; the model returns the renamed entry.
- Semscholar.Biblio.MakeEntry: a falsy title match (an empty entry object) counts as found, and the record's `paperId` is always a string, never `None`.
- Model.Biblio.constructor, Semscholar.Biblio.constructor: an entry without a `title` field (and, in `model.py`, without an `author` role) is excluded by a precondition. The source raises `KeyError` on such an entry while building the index, and that error path is not modelled.
- Model.Biblio: pybtex's case-insensitive entry-key dictionary and its `Person` name parsing are not modelled. An author is the list of its family names.
- Text.Lower: lower-cases ASCII letters only. Python's full Unicode case mapping is not modelled.
- Floating-point rounding: scores and distances are exact reals.
- The set iteration order in `clusterness`: the enumeration is a parameter. Ties in the priority queue are broken as Python breaks them, by the smallest `(f, id)` tuple.
- SmartFetch.Explorer.PickBest: ties between equal degrees of interest are broken in an unspecified order, because the pool is enumerated as a set and not in dictionary insertion order. `MaxByScore` itself keeps Python's first maximal pair.
- Explore.SeedsInBib: an arXiv entry without a `volume` field is a precondition. The source raises on it, because `__getattr__` returns `None` and not the `getattr` default.
- SmartFetch.Explorer.Adopt: the source's `del graph_nodes[pre_id]` after a differing id is dead code and is modelled as an assertion that the id is absent.
- `PaperAndRefs.__hash__` and `__eq__` compare the builtin `id` function, and `Paper.__hash__` disagrees with `__eq__`. Neither hash is modelled.
- Semapi.PaperDb.FetchCached, Semscholar.Stamp, SmartFetch.Explorer.Advance: these state only the part of a longer contract that their callers use. The full contract is on `FetchFromId`, `Biblio.MakeEntry` and `Step`.
