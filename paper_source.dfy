/**
 * The shape of what the remote bibliographic source answers for one paper id
 * (`semanticscholar.paper(id)`), and the source itself as an oracle.
 */
module PaperSource {
  import opened Wrappers

  /** Paper identifiers: hash-based, DOI, arXiv, ... all share one string space. */
  type PaperId = string

  /** One author, as the family names that pybtex's `Person.last_names` yields. */
  type Author = seq<string>

  /**
   * One paper record of a response: the top-level paper or one entry of its
   * `references` / `citations` lists. `abstractText` is `None` when the key is
   * absent and `Some(None)` when the source sends a null.
   */
  datatype PaperDict = PaperDict(
    paperId: PaperId,
    title: string,
    year: Option<string>,
    abstractText: Option<Option<string>>,
    authors: seq<Author>)

  /** A non-empty answer: the paper with its outgoing references and incoming citations. */
  datatype Response = Response(paper: PaperDict, references: seq<PaperDict>, citations: seq<PaperDict>)

  /** The remote call: an empty answer (`{}`) is `None`. */
  type Source = PaperId -> Option<Response>

  /** `paper_dict.get("abstract", "")`. */
  function AbstractOf(d: PaperDict): (r: Option<string>)
    ensures d.abstractText.None? ==> r == Some("")
    ensures d.abstractText.Some? ==> r == d.abstractText.value
  {
    d.abstractText.GetOr(Some(""))
  }
}
