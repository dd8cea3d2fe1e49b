/**
 The export side (`CitationExporter`): the sort key of a record, the descending
 stable sort shared by the CSV, text-file and console outputs, the CSV row of a
 record with its "N/A" and 0 defaults, the arXiv URL rule, the text/console entry,
 and the prefix of the sorted list the console display shows. Files and printing
 are left out: an export is the sequence of rows or entries that would be written.
 */
module Exporter {
  import opened Records
  import opened Ordering

  /** The `sort_by` values `save_to_csv` accepts. */
  const ValidSortOptions: set<string> := {"citations", "year", "arxiv"}

  /** `ValueError` for an unknown `sort_by`; `TypeError` when `sorted` compares `None`. */
  datatype ExportError = InvalidSortOption(sortBy: string) | UnorderableKeys

  datatype Result<+T> = Ok(value: T) | Err(error: ExportError)

  /** `paper.get(key, 0) or 0`: a missing, `null` (or zero) number reads as 0. */
  function NumberOrZero(f: Field<int>): int
  {
    match f
    case Value(n) => n
    case _ => 0
  }

  /**
   `get_sort_value(citation, sort_by)`: the citation count or the year (0 when
   missing or `null`), the arXiv id (`""` when it or `externalIds` is missing, `None`
   when it is `null`), and 0 for any other key.
   */
  function GetSortValue(c: Citation, sortBy: string): (v: SortValue)
    ensures sortBy != "arxiv" ==> v.Num?
    ensures sortBy !in ValidSortOptions ==> v == Num(0)
    ensures sortBy == "citations" ==> v.n == c.citingPaper.citationCount.GetOr(0).Or(0)
    ensures sortBy == "year" ==> v.n == c.citingPaper.year.GetOr(0).Or(0)
    ensures sortBy == "arxiv" ==> (v.Text? || v.NoneValue?)
    ensures v.NoneValue? <==>
              sortBy == "arxiv" && c.citingPaper.externalIds.Some? && c.citingPaper.externalIds.value.arxiv.Null?
    ensures sortBy == "arxiv" && v.Text? ==>
              v.s == (match c.citingPaper.externalIds
                      case None => ""
                      case Some(ids) => ids.arxiv.GetOr("").value)
  {
    var p := c.citingPaper;
    if sortBy == "citations" then Num(NumberOrZero(p.citationCount))
    else if sortBy == "year" then Num(NumberOrZero(p.year))
    else if sortBy == "arxiv" then
      match p.externalIds
      case None => Text("")
      case Some(ids) =>
        match ids.arxiv
        case Absent => Text("")
        case Null => NoneValue
        case Value(a) => Text(a)
    else Num(0)
  }

  /** The `key=` argument of every `sorted` call. */
  function SortKey(sortBy: string): Citation -> SortValue
  {
    c => GetSortValue(c, sortBy)
  }

  /** Python compares keys only when there are two records; any `None` key then raises. */
  predicate Orderable(cs: seq<Citation>, sortBy: string)
  {
    |cs| < 2 || forall i :: 0 <= i < |cs| ==> !GetSortValue(cs[i], sortBy).NoneValue?
  }

  /** `sorted(citations, key=get_sort_value, reverse=True)`. */
  function SortCitations(cs: seq<Citation>, sortBy: string): (r: Result<seq<Citation>>)
    ensures r.Ok? <==> Orderable(cs, sortBy)
    ensures r.Err? ==> r.error == UnorderableKeys
    ensures r.Ok? ==> Descending(r.value, SortKey(sortBy)) && multiset(r.value) == multiset(cs)
    ensures r.Ok? ==> |r.value| == |cs|
  {
    if Orderable(cs, sortBy) then
      var sorted := SortDescending(cs, SortKey(sortBy));
      assert |sorted| == |multiset(sorted)| == |multiset(cs)| == |cs|;
      Ok(sorted)
    else Err(UnorderableKeys)
  }

  /** The sort keeps the input order of records with equal sort values. */
  lemma SortCitationsStable(cs: seq<Citation>, sortBy: string, v: SortValue)
    requires SortCitations(cs, sortBy).Ok?
    ensures Class(SortCitations(cs, sortBy).value, SortKey(sortBy), v) == Class(cs, SortKey(sortBy), v)
  {
    SortStable(cs, SortKey(sortBy), v);
  }

  /** With a key other than the three known ones every key is 0 and the order is kept. */
  lemma UnknownKeyKeepsOrder(cs: seq<Citation>, sortBy: string)
    requires sortBy !in ValidSortOptions
    ensures SortCitations(cs, sortBy) == Ok(cs)
  {
    SortEqualKeys(cs, SortKey(sortBy), Num(0));
  }

  /** A sort that succeeded saw no `None` key among two or more records. */
  lemma NoNoneKey(cs: seq<Citation>, sortBy: string, c: Citation)
    requires SortCitations(cs, sortBy).Ok? && |cs| >= 2
    requires c in multiset(SortCitations(cs, sortBy).value)
    ensures !GetSortValue(c, sortBy).NoneValue?
  {
    assert c in multiset(cs);
    var k :| 0 <= k < |cs| && cs[k] == c;
  }

  /**
   Records without an arXiv id (key `""`) come after every record that has one:
   once the sorted list reaches a record without an id, the rest have none either.
   */
  lemma MissingArxivSortsLast(cs: seq<Citation>, i: int, j: int)
    requires SortCitations(cs, "arxiv").Ok?
    requires 0 <= i < j < |SortCitations(cs, "arxiv").value|
    requires GetSortValue(SortCitations(cs, "arxiv").value[i], "arxiv") == Text("")
    ensures GetSortValue(SortCitations(cs, "arxiv").value[j], "arxiv") == Text("")
  {
    var s := SortCitations(cs, "arxiv").value;
    var kj := GetSortValue(s[j], "arxiv");
    assert !Less(SortKey("arxiv")(s[i]), SortKey("arxiv")(s[j]));
    if kj.NoneValue? {
      NoNoneKey(cs, "arxiv", s[j]);
    }
  }

  /**
   With no negative counts, records whose citation count is missing, `null` or 0
   come after every record with a positive count.
   */
  lemma MissingCountSortsLast(cs: seq<Citation>, i: int, j: int)
    requires forall k :: 0 <= k < |cs| ==> GetSortValue(cs[k], "citations").n >= 0
    requires SortCitations(cs, "citations").Ok?
    requires 0 <= i < j < |SortCitations(cs, "citations").value|
    requires GetSortValue(SortCitations(cs, "citations").value[i], "citations") == Num(0)
    ensures GetSortValue(SortCitations(cs, "citations").value[j], "citations") == Num(0)
  {
    var s := SortCitations(cs, "citations").value;
    assert !Less(SortKey("citations")(s[i]), SortKey("citations")(s[j]));
    assert s[j] in multiset(cs);
    var k :| 0 <= k < |cs| && cs[k] == s[j];
  }

  const ArxivPrefix: string := "https://arxiv.org/abs/"

  /** The `arxiv_url` column: the abstract page when the arXiv id is truthy, else "N/A". */
  function ArxivUrl(p: Paper): (u: string)
    ensures ArxivId(p).Some? ==> u == ArxivPrefix + ArxivId(p).value
    ensures ArxivId(p).None? ==> u == "N/A"
  {
    match ArxivId(p)
    case Some(id) => ArxivPrefix + id
    case None => "N/A"
  }

  /** Reading an arXiv id back out of an `arxiv_url` cell. */
  function ArxivIdOfUrl(u: string): Option<string>
  {
    if |u| > |ArxivPrefix| && u[..|ArxivPrefix|] == ArxivPrefix then Some(u[|ArxivPrefix|..]) else None
  }

  /** The URL column loses nothing: the arXiv id (or its absence) is recovered from it. */
  lemma ArxivUrlRoundTrip(p: Paper)
    ensures ArxivIdOfUrl(ArxivUrl(p)) == ArxivId(p)
  {
    match ArxivId(p)
    case Some(id) =>
      var u := ArxivPrefix + id;
      assert u[..|ArxivPrefix|] == ArxivPrefix && u[|ArxivPrefix|..] == id;
    case None =>
  }

  /** `", ".join(names)`. */
  function JoinNames(names: seq<string>): string
  {
    if |names| == 0 then ""
    else if |names| == 1 then names[0]
    else names[0] + ", " + JoinNames(names[1..])
  }

  /** The position of the first `,` in `s`, or `|s|`. */
  function CommaIndex(s: string): (k: nat)
    ensures k <= |s|
    ensures forall i :: 0 <= i < k ==> s[i] != ','
    ensures k < |s| ==> s[k] == ','
  {
    if |s| == 0 || s[0] == ',' then 0 else 1 + CommaIndex(s[1..])
  }

  /** Splitting an authors cell at each `", "` (names assumed free of commas). */
  function SplitNames(s: string): seq<string>
    decreases |s|
  {
    var k := CommaIndex(s);
    if k == |s| then [s]
    else if k + 2 <= |s| then [s[..k]] + SplitNames(s[k + 2..])
    else [s[..k]]
  }

  predicate NoComma(name: string)
  {
    forall i :: 0 <= i < |name| ==> name[i] != ','
  }

  lemma CommaIndexAfter(a: string, b: string)
    requires NoComma(a)
    ensures CommaIndex(a + b) == |a| + CommaIndex(b)
  {
    if |a| > 0 {
      assert (a + b)[0] == a[0] && (a + b)[1..] == a[1..] + b;
      assert CommaIndex(a + b) == 1 + CommaIndex(a[1..] + b);
      CommaIndexAfter(a[1..], b);
    } else {
      assert a + b == b;
    }
  }

  lemma SplitOne(a: string)
    requires NoComma(a)
    ensures SplitNames(a) == [a]
  {
    CommaIndexAfter(a, "");
    assert a + "" == a;
  }

  lemma SplitFirst(a: string, rest: string)
    requires NoComma(a)
    ensures SplitNames(a + ", " + rest) == [a] + SplitNames(rest)
  {
    var s := a + ", " + rest;
    assert s == a + (", " + rest);
    CommaIndexAfter(a, ", " + rest);
    assert CommaIndex(s) == |a|;
    assert s[..|a|] == a;
    assert s[|a| + 2..] == rest;
  }

  /** The authors cell lists the names in order: splitting it gives them back. */
  lemma {:induction false} JoinNamesRoundTrip(names: seq<string>)
    requires |names| > 0
    requires forall k :: 0 <= k < |names| ==> NoComma(names[k])
    ensures SplitNames(JoinNames(names)) == names
  {
    if |names| == 1 {
      SplitOne(names[0]);
    } else {
      SplitFirst(names[0], JoinNames(names[1..]));
      JoinNamesRoundTrip(names[1..]);
      assert names == [names[0]] + names[1..];
    }
  }

  /** A value as it reaches the writer: a string, an int, or Python's `None`. */
  datatype Cell = Str(s: string) | Int(i: int) | NoneCell

  function CellOf<T>(v: Option<T>, wrap: T -> Cell): Cell
  {
    match v
    case Some(x) => wrap(x)
    case None => NoneCell
  }

  /** `paper.get(key, default)` for a string member. */
  function TextOr(f: Field<string>, default: string): (c: Cell)
    ensures c == CellOf(f.GetOr(default), s => Str(s))
  {
    match f
    case Absent => Str(default)
    case Null => NoneCell
    case Value(s) => Str(s)
  }

  /** `paper.get(key, default)` for a numeric member. */
  function IntOr(f: Field<int>, default: int): (c: Cell)
    ensures c == CellOf(f.GetOr(default), n => Int(n))
  {
    match f
    case Absent => Int(default)
    case Null => NoneCell
    case Value(n) => Int(n)
  }

  /**
   One CSV row. The fields follow the header's column order: title, year,
   citation_count, arxiv_url, authors, abstract, venue, paper_id, semantic_scholar_url.
   */
  datatype CsvRow = CsvRow(
    title: Cell, year: Cell, citationCount: Cell, arxivUrl: string, authors: string,
    paperAbstract: Cell, venue: Cell, paperId: Cell, semanticScholarUrl: Cell)

  /** The row `save_to_csv` writes for one record. */
  function RowOf(c: Citation): (row: CsvRow)
    ensures var f := c.citingPaper.title;
            && (f.Absent? ==> row.title == Str("N/A"))
            && (f.Null? ==> row.title == NoneCell)
            && (f.Value? ==> row.title == Str(f.v))
    ensures var f := c.citingPaper.paperAbstract;
            && (f.Absent? ==> row.paperAbstract == Str("N/A"))
            && (f.Null? ==> row.paperAbstract == NoneCell)
            && (f.Value? ==> row.paperAbstract == Str(f.v))
    ensures var f := c.citingPaper.venue;
            && (f.Absent? ==> row.venue == Str("N/A"))
            && (f.Null? ==> row.venue == NoneCell)
            && (f.Value? ==> row.venue == Str(f.v))
    ensures var f := c.citingPaper.paperId;
            && (f.Absent? ==> row.paperId == Str("N/A"))
            && (f.Null? ==> row.paperId == NoneCell)
            && (f.Value? ==> row.paperId == Str(f.v))
    ensures var f := c.citingPaper.url;
            && (f.Absent? ==> row.semanticScholarUrl == Str("N/A"))
            && (f.Null? ==> row.semanticScholarUrl == NoneCell)
            && (f.Value? ==> row.semanticScholarUrl == Str(f.v))
    ensures var f := c.citingPaper.year;
            && (f.Absent? ==> row.year == Int(0))
            && (f.Null? ==> row.year == NoneCell)
            && (f.Value? ==> row.year == Int(f.v))
    ensures var f := c.citingPaper.citationCount;
            && (f.Absent? ==> row.citationCount == Int(0))
            && (f.Null? ==> row.citationCount == NoneCell)
            && (f.Value? ==> row.citationCount == Int(f.v))
    ensures row.arxivUrl == ArxivUrl(c.citingPaper)
    ensures row.authors == JoinNames(c.citingPaper.authors)
  {
    var p := c.citingPaper;
    CsvRow(
      TextOr(p.title, "N/A"), IntOr(p.year, 0), IntOr(p.citationCount, 0), ArxivUrl(p),
      JoinNames(p.authors), TextOr(p.paperAbstract, "N/A"), TextOr(p.venue, "N/A"),
      TextOr(p.paperId, "N/A"), TextOr(p.url, "N/A"))
  }

  /**
   A missing member is written as its default and a present one as its value:
   "N/A" for text, 0 for numbers, `None` for a `null`.
   */
  lemma RowDefaults(c: Citation)
    ensures var p := c.citingPaper;
            var row := RowOf(c);
            && (p.title.Absent? <==> row.title == Str("N/A") && !p.title.Value?)
            && (p.year.Absent? ==> row.year == Int(0))
            && (p.year.Value? ==> row.year == Int(p.year.v))
            && (p.citationCount.Absent? ==> row.citationCount == Int(0))
            && (p.paperId.Null? <==> row.paperId == NoneCell)
            && (c.citingPaper == EmptyPaper ==>
                  row == CsvRow(Str("N/A"), Int(0), Int(0), "N/A", "", Str("N/A"),
                                Str("N/A"), Str("N/A"), Str("N/A")))
  {
  }

  /**
   `save_to_csv`: refuse an unknown `sort_by` before producing anything, otherwise
   the rows of the sorted records (the header line is not modelled).
   */
  function SaveToCsv(cs: seq<Citation>, sortBy: string): (r: Result<seq<CsvRow>>)
    ensures sortBy !in ValidSortOptions ==> r == Err(InvalidSortOption(sortBy))
    ensures r.Ok? <==> sortBy in ValidSortOptions && Orderable(cs, sortBy)
    ensures r.Ok? ==> |r.value| == |cs|
    ensures r.Ok? ==> forall i :: 0 <= i < |r.value| ==>
              r.value[i] == RowOf(SortCitations(cs, sortBy).value[i])
  {
    if sortBy !in ValidSortOptions then Err(InvalidSortOption(sortBy))
    else
      match SortCitations(cs, sortBy)
      case Err(e) => Err(e)
      case Ok(sorted) => Ok(seq(|sorted|, i requires 0 <= i < |sorted| => RowOf(sorted[i])))
  }

  /** What the text file and the console show of one record. */
  datatype Entry = Entry(
    title: Cell, authors: string, citationCount: Cell, year: Cell,
    paperAbstract: Option<Cell>, venue: Cell, arxivUrl: string, semanticScholarUrl: Cell)

  /**
   The fields `save_to_txt` and `display_citations` print for a record. Unlike the
   CSV row, a missing year prints as "N/A"; the abstract is shown only on request.
   */
  function EntryOf(c: Citation, showAbstract: bool): (e: Entry)
    ensures e.paperAbstract.Some? <==> showAbstract
    ensures showAbstract ==> e.paperAbstract.value == RowOf(c).paperAbstract
    ensures c.citingPaper.year.Absent? ==> e.year == Str("N/A")
    ensures !c.citingPaper.year.Absent? ==> e.year == RowOf(c).year
    ensures e.title == RowOf(c).title && e.citationCount == RowOf(c).citationCount
    ensures e.arxivUrl == RowOf(c).arxivUrl && e.authors == RowOf(c).authors
    ensures e.venue == RowOf(c).venue && e.semanticScholarUrl == RowOf(c).semanticScholarUrl
  {
    var p := c.citingPaper;
    var year := match p.year
      case Absent => Str("N/A")
      case Null => NoneCell
      case Value(n) => Int(n);
    Entry(
      TextOr(p.title, "N/A"), JoinNames(p.authors), IntOr(p.citationCount, 0), year,
      if showAbstract then Some(TextOr(p.paperAbstract, "N/A")) else None,
      TextOr(p.venue, "N/A"), ArxivUrl(p), TextOr(p.url, "N/A"))
  }

  /** `save_to_txt`: every record, sorted; an unknown `sort_by` is not refused. */
  function SaveToTxt(cs: seq<Citation>, sortBy: string, showAbstract: bool): (r: Result<seq<Entry>>)
    ensures r.Ok? <==> Orderable(cs, sortBy)
    ensures r.Ok? ==> |r.value| == |cs|
    ensures r.Ok? ==> forall i :: 0 <= i < |r.value| ==>
              r.value[i] == EntryOf(SortCitations(cs, sortBy).value[i], showAbstract)
  {
    match SortCitations(cs, sortBy)
    case Err(e) => Err(e)
    case Ok(sorted) => Ok(seq(|sorted|, i requires 0 <= i < |sorted| => EntryOf(sorted[i], showAbstract)))
  }

  /** Python's `s[:k]`: a negative `k` counts from the end. */
  function Prefix<T>(s: seq<T>, k: int): (r: seq<T>)
    ensures k >= 0 ==> r == s[..Min(k, |s|)]
    ensures k < 0 ==> |r| == if |s| + k >= 0 then |s| + k else 0
    ensures |r| <= |s| && r == s[..|r|]
  {
    if k >= 0 then s[..Min(k, |s|)]
    else if |s| + k >= 0 then s[..|s| + k]
    else []
  }

  /** The console output: the "top N out of M" header and the numbered entries. */
  datatype Display = Display(shown: int, total: nat, entries: seq<(nat, Entry)>)

  /**
   `display_citations`: the header announces `min(limit, len(citations))` of the
   total, then the first `limit` sorted records are printed, numbered from 1.
   */
  function DisplayCitations(cs: seq<Citation>, sortBy: string, limit: int, showAbstract: bool)
    : (r: Result<Display>)
    ensures r.Ok? <==> Orderable(cs, sortBy)
    ensures r.Ok? ==> r.value.shown == Min(limit, |cs|) && r.value.total == |cs|
    ensures r.Ok? && limit >= 0 ==> |r.value.entries| == Min(limit, |cs|)
    ensures r.Ok? ==> |r.value.entries| <= |cs|
    ensures r.Ok? ==> forall i :: 0 <= i < |r.value.entries| ==>
              r.value.entries[i] == (i + 1, EntryOf(SortCitations(cs, sortBy).value[i], showAbstract))
  {
    match SortCitations(cs, sortBy)
    case Err(e) => Err(e)
    case Ok(sorted) =>
      var top := Prefix(sorted, limit);
      Ok(Display(Min(limit, |cs|), |cs|,
                 seq(|top|, i requires 0 <= i < |top| => (i + 1, EntryOf(top[i], showAbstract)))))
  }

  /**
   A negative `limit` is not rejected: the header then announces a negative count
   while the slice drops records from the end instead.
   */
  lemma NegativeLimitDisplay(cs: seq<Citation>, sortBy: string, limit: int, showAbstract: bool)
    requires limit < 0 && |cs| + limit >= 0
    requires Orderable(cs, sortBy)
    ensures var d := DisplayCitations(cs, sortBy, limit, showAbstract).value;
            d.shown == limit && |d.entries| == |cs| + limit
  {
  }

  /**
   The command line's default key, "citation_count", is none of the three known
   ones: `save_to_csv` refuses it, and `save_to_txt` called with it keeps the input
   order.
   */
  lemma CitationCountKey(cs: seq<Citation>, showAbstract: bool)
    ensures SaveToCsv(cs, "citation_count") == Err(InvalidSortOption("citation_count"))
    ensures SaveToTxt(cs, "citation_count", showAbstract).Ok?
    ensures forall i :: 0 <= i < |cs| ==>
              SaveToTxt(cs, "citation_count", showAbstract).value[i] == EntryOf(cs[i], showAbstract)
  {
    UnknownKeyKeepsOrder(cs, "citation_count");
  }
}
