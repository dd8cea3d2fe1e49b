/**
 The citation records that the bibliographic service returns and that every other
 module reads. A record is a JSON object `{"citingPaper": {...}}`; each member of
 the citing paper may be missing, present as `null`, or present with a value, and
 the source distinguishes the three through `dict.get(key, default)`.
 */
module Records {

  datatype Option<+T> = None | Some(value: T)
  {
    /**
     The value, or `default` for `None`. Python's `x or 0` agrees with this on
     integers only because it replaces `0` by `0`; `Or` leaves every other value alone.
     */
    function Or(default: T): T
    {
      match this
      case Some(x) => x
      case None => default
    }
  }

  /** Python's `min` on two integers. */
  function Min(a: int, b: int): int
  {
    if a <= b then a else b
  }

  /** One member of a JSON object: missing, `null`, or a value. */
  datatype Field<+T> = Absent | Null | Value(v: T)
  {
    /** `obj.get(key, default)`: the default only when the member is missing. */
    function GetOr(default: T): Option<T>
    {
      match this
      case Absent => Some(default)
      case Null => None
      case Value(x) => Some(x)
    }
  }

  /** The `externalIds` object of a paper; only the arXiv identifier is read. */
  datatype ExternalIds = ExternalIds(arxiv: Field<string>)

  /**
   The `citingPaper` object. `authors` holds the `name` of every author in list
   order (a missing list reads as the empty list); `externalIds` is `None` when the
   member is missing, which the source reads as the empty object.
   */
  datatype Paper = Paper(
    paperId: Field<string>,
    title: Field<string>,
    authors: seq<string>,
    paperAbstract: Field<string>,
    year: Field<int>,
    citationCount: Field<int>,
    venue: Field<string>,
    url: Field<string>,
    externalIds: Option<ExternalIds>)

  /** A record "citingPaper cites the seed"; a missing `citingPaper` is `EmptyPaper`. */
  datatype Citation = Citation(citingPaper: Paper)

  const EmptyPaper: Paper :=
    Paper(Absent, Absent, [], Absent, Absent, Absent, Absent, Absent, None)

  /**
   The identity of the citing paper, as the aggregation uses it: its `paperId`
   when that is truthy, i.e. present, not `null` and not the empty string.
   */
  function CitingId(c: Citation): (r: Option<string>)
    ensures r.Some? <==> c.citingPaper.paperId.Value? && c.citingPaper.paperId.v != ""
    ensures r.Some? ==> r.value == c.citingPaper.paperId.v
  {
    match c.citingPaper.paperId
    case Value(id) => if id != "" then Some(id) else None
    case _ => None
  }

  /** The arXiv identifier when it is truthy (present, not `null`, non-empty). */
  function ArxivId(p: Paper): (r: Option<string>)
    ensures r.Some? <==> p.externalIds.Some? && p.externalIds.value.arxiv.Value?
                          && p.externalIds.value.arxiv.v != ""
    ensures r.Some? ==> r.value == p.externalIds.value.arxiv.v
  {
    match p.externalIds
    case None => None
    case Some(ids) =>
      match ids.arxiv
      case Value(a) => if a != "" then Some(a) else None
      case _ => None
  }
}
