# scholtrack citation aggregation, modelled in Dafny

scholtrack collects the papers that cite a list of seed papers from the Semantic
Scholar graph service and exports them. This project models its core:

- `get_citations`: the offset/limit pagination of one paper's citation list. It
  stops on an HTTP error, on an empty page, or at the 9999-record ceiling. The
  service is a function parameter (`Pagination.Service`): paper id, offset and
  page size go in; a status code and a page of records come out.
- `get_citations_for_papers`: it concatenates the seeds' citation lists, counts
  every record per citing paper id, and keeps the first record of each id. It then
  filters the kept records by the `cites_at_least_n` threshold.
- `parse_paper_ids_from_file`: the seed-list format. Each line is stripped, blank
  lines and `#` comments are skipped, and the text before an inline `#` is kept.
- `CitationExporter`:
  - the sort key `get_sort_value`;
  - the descending, stable `sorted` call that the CSV, text-file and console outputs
    make (the JSON output is written unsorted), including
    the `TypeError` Python raises when a `None` key is compared;
  - the CSV row and its defaults, with the arXiv URL rule;
  - the text-file entry;
  - the console display of the first `limit` records.

Modules:

- `Records`: the citation records. Each scalar member of the citing paper (id, title,
  abstract, year, count, venue, url, arXiv id) is `Field<T>`: absent, `null`, or a
  value. This makes `dict.get(key, default)` and `... or 0` exact.
- `Pagination`
- `Aggregation`
- `SeedList`
- `Ordering`: Python's order on the sort values. It covers integers, strings
  compared by code point, and `None`. It also holds a stable descending insertion
  sort, characterised as the unique descending arrangement that keeps each key's
  records in input order.
- `Exporter`

The docstring of `get_citations_for_papers` and its code disagree on the reference
count. The docstring (scholtrack/api.py:66-67 and api.py:71) promises the papers
"that cite at least `cites_at_least_n` papers from the provided list": a count of
distinct seeds. The code (api.py:89) adds one for every record that names the
citing paper. It departs from the docstring in two ways, and the model follows the
code:

- A seed whose list names the citing paper twice adds two.
  `Aggregation.CountExceedsSeedCount` exhibits this.
- The seed list is not deduplicated (api.py:82), so a seed named twice is fetched
  and counted twice. `Aggregation.RepeatedSeedCountsTwice` exhibits this: a paper
  citing only seed A reaches 2 when A is listed twice.

`Aggregation.ThresholdAboveSeedCount` proves one consequence that the two readings
share. When no seed's list repeats an id, a threshold above the number of seeds,
counted with repetition, leaves nothing. It does not prove the docstring's count of
distinct seed papers.

The command line's default sort key is `citation_count` (scholtrack/cli.py:33). That
is not one of the exporter's keys. `Exporter.CitationCountKey` states what the
exporter does with it: `save_to_csv` refuses the key, and `save_to_txt` called with
that key keeps the input order. Through the command line the text and console paths
never get that far. The command line passes `skip_abstract=` (cli.py:68, 71, 76) to
`save_to_txt` and `display_citations`, which take `show_abstract` (exporter.py:85,
115), so Python raises `TypeError` before any sort.

## Model

| member | source | states |
|---|---|---|
| Records.CitingId | scholtrack/api.py:87-88 | a record has a citing id exactly when its `paperId` is present, not `null` and non-empty, and the id is that string |
| Records.ArxivId | scholtrack/exporter.py:47-48 | an arXiv id counts exactly when `externalIds` is present and its arXiv member is a non-empty string |
| Pagination.FetchFrom | scholtrack/api.py:35-59 | the first request of the loop from `offset` is at `offset` and asks for `min(limit, 9999 - offset)` records |
| Pagination.FetchReplies | scholtrack/api.py:44-52 | the records gathered are exactly the pages of the successful requests, concatenated in request order |
| Pagination.FetchStop | scholtrack/api.py:44-59 | the answer to the last request decides the stop: a non-200 status is a failure, an empty page ends the list, and a non-empty page stops only at or past the 9999 ceiling |
| Pagination.FetchSpaced | scholtrack/api.py:40-54 | consecutive requests are exactly `limit` apart |
| Pagination.FetchInRange | scholtrack/api.py:35-40 | every request starts below the ceiling and asks for `min(limit, 9999 - offset)` records |
| Pagination.FetchContinued | scholtrack/api.py:44-59 | every request but the last got status 200 and a non-empty page, and left the next offset below the ceiling |
| Pagination.FetchRequested | scholtrack/api.py:33-39 | the page sizes requested add up to at most the records left below the ceiling |
| Pagination.GetCitations | scholtrack/api.py:20-61 | `get_citations` starts at offset 0. Its requests stay below 9999, ask for positive sizes totalling at most 9999, and are `limit` apart. Its result is the concatenated successful pages, and the last answer explains the stop |
| Pagination.RequestOffsets | scholtrack/api.py:32-54 | request `i` is issued at offset `i * limit` |
| Pagination.RequestCount | scholtrack/api.py:33-57 | the loop issues at most ceil(9999 / limit) requests |
| Pagination.CitationsBounded | scholtrack/api.py:33-52 | if the service never returns more records than asked for, at most 9999 records are gathered |
| Aggregation.FetchAll | scholtrack/api.py:82-83 | one citation list per seed, in seed order, each being `get_citations` of that seed |
| Aggregation.Occurrences | scholtrack/api.py:86-89 | a citing id occurs in the records exactly when it is among their ids |
| Aggregation.CountsAreOccurrences | scholtrack/api.py:86-89 | the count map's keys are exactly the citing ids fetched, and each value is the number of fetched records with that id, duplicates included |
| Aggregation.FirstSeenDistinct | scholtrack/api.py:87-93 | the kept list has a record for every citing id fetched and for no other, each record has an id, and no id appears twice |
| Aggregation.FirstSeenIsFirstOccurrence | scholtrack/api.py:91-93 | each kept record is the record at the first position where its id was fetched |
| Aggregation.FirstSeenInFetchOrder | scholtrack/api.py:82-93 | kept records appear in the order in which their ids were first fetched |
| Aggregation.CountsKeysGrow | scholtrack/api.py:77-89 | processing more seeds never removes an id from the count map |
| Aggregation.AtLeast | scholtrack/api.py:96-99 | the filter keeps exactly the records whose count reaches the threshold, in their original order |
| Aggregation.CountPage | scholtrack/api.py:86-93 | the inner loop extends the counts, the kept list and the seen-id set exactly as consuming that seed's records does |
| Aggregation.GetCitationsForPapers | scholtrack/api.py:64-101 | the counting loop returns exactly the records kept by `AggregatePages` over the per-seed lists: each distinct citing paper once, in first-seen order, when it was seen at least `n` times |
| Aggregation.AggregateResult | scholtrack/api.py:95-101 | the result is a subsequence of the kept list, a record is in it exactly when its count reaches the threshold, every result has an id, and a threshold of at most 1 filters nothing |
| Aggregation.ThresholdAboveSeedCount | scholtrack/api.py:64-75 | when no seed's list repeats an id, a threshold above the number of seeds (counted with repetition) leaves nothing |
| Aggregation.TwoSeedExample | scholtrack/api.py:64-101 | seeds cited by {X, Y} and {Y, Z} at threshold 2 give just Y |
| Aggregation.CountExceedsSeedCount | scholtrack/api.py:86-89 | one seed whose list names X twice counts X twice, so X passes threshold 2 |
| Aggregation.RepeatedSeedCountsTwice | scholtrack/api.py:82-89 | the same seed listed twice is fetched and counted twice, so a paper citing only that seed passes threshold 2 |
| SeedList.Strip | scholtrack/api.py:117 | the result neither starts nor ends with whitespace, and every character of it comes from the line |
| SeedList.StripBounds | scholtrack/api.py:117 | the result is a contiguous part of the line; everything cut off at either end is whitespace, and the cut at the front stops at the first non-whitespace character |
| SeedList.CommentStart | scholtrack/api.py:120 | the split point is the first `#`, or the end of the line when there is none |
| SeedList.ParseLine | scholtrack/api.py:116-122 | a line yields an id exactly when, stripped, it is neither blank nor starts with `#`; the id is non-empty, has no `#`, and has no surrounding whitespace |
| SeedList.ParseLineValue | scholtrack/api.py:116-121 | the id a line yields is written on it: whitespace, then the id, then whitespace up to the end of the line or a `#` |
| SeedList.IdOfLineUnique | scholtrack/api.py:116-121 | a line has at most one well-formed id written on it in that way |
| SeedList.ParseLineOfLine | scholtrack/api.py:116-121 | a line with a well-formed id written on it yields exactly that id, whatever whitespace surrounds it and whatever comment follows |
| SeedList.ParsePaperIds | scholtrack/api.py:103-123 | there are at most as many ids as lines, and every id is well formed |
| SeedList.ParseConcat | scholtrack/api.py:114-123 | parsing two parts of a file one after the other gives the ids of the whole file |
| SeedList.ParseKeepsLines | scholtrack/api.py:116-122 | the ids are the contributing lines, parsed, in file order |
| SeedList.ParseRoundTrip | scholtrack/api.py:116-122 | well-formed ids written one per line are read back unchanged |
| SeedList.ParseIdempotent | scholtrack/api.py:103-123 | reading back the ids parsed from a file changes nothing |
| Ordering.LessTransitive | scholtrack/exporter.py:36 | Python's order on the sort values is transitive |
| Ordering.LessTotal | scholtrack/exporter.py:36 | any two distinct sort values are ordered one way or the other |
| Ordering.Insert | scholtrack/exporter.py:36 | inserting into a descending list keeps it descending and adds exactly that record |
| Ordering.SortDescending | scholtrack/exporter.py:36 | the sorted list is descending by key and a permutation of the input |
| Ordering.SortStable | scholtrack/exporter.py:36 | records with equal keys keep their input order |
| Ordering.SortCharacterized | scholtrack/exporter.py:36 | any descending permutation that keeps equal keys in input order is the sort's result |
| Ordering.SortEqualKeys | scholtrack/exporter.py:36 | when every key is the same the sort returns its input |
| Exporter.GetSortValue | scholtrack/exporter.py:64-82 | "citations" and "year" give the number, or 0 when it is missing or `null`. "arxiv" gives the arXiv id, "" when missing, or `None` exactly when it is `null`. Any other key gives 0 |
| Exporter.SortCitations | scholtrack/exporter.py:36 | the sort succeeds exactly when it never compares a `None` key, and it then returns a descending permutation of the records |
| Exporter.SortCitationsStable | scholtrack/exporter.py:36 | records with equal sort values keep their input order |
| Exporter.UnknownKeyKeepsOrder | scholtrack/exporter.py:82 | with an unknown key, sorting leaves the records in input order |
| Exporter.MissingArxivSortsLast | scholtrack/exporter.py:80-81 | records without an arXiv id come after every record that has one |
| Exporter.MissingCountSortsLast | scholtrack/exporter.py:76-77 | when no count is negative, records with a missing, `null` or zero count come after every record with a positive count |
| Exporter.ArxivUrl | scholtrack/exporter.py:48 | the arXiv URL is the abs-page prefix followed by the id when the id is truthy, and "N/A" otherwise |
| Exporter.ArxivUrlRoundTrip | scholtrack/exporter.py:48 | the arXiv id, or its absence, can be read back from the URL cell |
| Exporter.JoinNamesRoundTrip | scholtrack/exporter.py:52 | splitting the authors cell at ", " gives back the author names in order, for names without commas |
| Exporter.TextOr | scholtrack/exporter.py:51 | a text cell is the member's value, the default when the member is missing, or `None` when it is `null` |
| Exporter.IntOr | scholtrack/exporter.py:54-55 | a numeric cell is the member's value, 0 when the member is missing, or `None` when it is `null` |
| Exporter.RowOf | scholtrack/exporter.py:46-60 | title, abstract, venue, paper id and URL: a missing member gives "N/A", a `null` gives `None`, a string gives itself; year and citation count: missing gives 0, `null` gives `None`, a number gives itself; the arXiv cell is the URL of the arXiv id and the authors cell is the joined names |
| Exporter.RowDefaults | scholtrack/exporter.py:50-60 | a missing title becomes "N/A", a missing year or count becomes 0, and a `null` id becomes `None`; a paper with no members gives the all-default row |
| Exporter.SaveToCsv | scholtrack/exporter.py:23-61 | an unknown key is refused before any row is produced; otherwise there is one row per record, in sorted order, unless a `None` key makes the sort fail |
| Exporter.EntryOf | scholtrack/exporter.py:92-112 | the text entry agrees with the CSV row except that a missing year prints "N/A", and the abstract is shown exactly when asked for |
| Exporter.SaveToTxt | scholtrack/exporter.py:85-112 | every record's entry in sorted order, with no check on the key |
| Exporter.Prefix | scholtrack/exporter.py:124 | Python's `[:k]`: the first `min(k, n)` items, or for negative `k` all but the last `-k` |
| Exporter.DisplayCitations | scholtrack/exporter.py:115-146 | the header announces `min(limit, n)` of `n`, and the entries are the first sorted records, numbered from 1 |
| Exporter.NegativeLimitDisplay | scholtrack/exporter.py:122-124 | a negative limit announces a negative count while the slice drops records from the end |
| Exporter.CitationCountKey | scholtrack/exporter.py:32-34 | the key "citation_count" is refused by the CSV export and leaves the text output in input order |

## Left out

- HTTP, JSON decoding and the request parameters other than offset and limit are not
  modelled. The service is a parameter. A missing `data` member is an empty page.
- Exceptions from the service are not modelled. `Pagination.Service` is total, so the
  model's only failure is a non-200 status, which keeps the records gathered so far.
  In the source, an exception from `requests.get` (a connection error or timeout) or
  from `response.json()` (a 200 answer whose body is not JSON) is not caught
  (scholtrack/api.py:43-48). It leaves `get_citations` and `get_citations_for_papers`,
  and every record gathered so far is lost.
- The error and warning messages printed by `get_citations` are not modelled.
- Pagination.GetCitations: requires a positive `limit`. With `limit <= 0` the source's
  offset never moves toward the ceiling, and the loop ends only if the service stops it.
  So the loop's termination is not modelled for those inputs.
- Pagination.CitationsBounded: assumes the service answers with no more records than
  were asked for. The bound is a promise of the service, not of the code.
- Reading the seed file is not modelled. The file is given as its lines, and line
  splitting and text decoding are left out.
- `save_to_json`, and the writing of the CSV and text files, are not modelled. Neither
  are CSV quoting, the header line and the f-string layout. An export is modelled as
  its rows or entries.
- The command line (scholtrack/cli.py) and the packaging (setup.py) are not part of
  this model. The exceptions are the default sort key and the `skip_abstract`
  argument noted above.
- A `null` `citingPaper`, `externalIds` or `authors`, and an author without a `name`,
  are not modelled. The source raises an `AttributeError`, `TypeError` or `KeyError`
  for these. A missing `authors` list is the empty list.
- Years and citation counts are integers. Other JSON number types are not modelled.
- Exporter.JoinNamesRoundTrip: holds only for a non-empty list of author names that
  contain no comma. Names with commas cannot be recovered from the joined cell. The
  empty list and the list holding one empty name both join to `""`.
- Exporter.MissingCountSortsLast: assumes no count is negative.
