/**
 The seed-list file format read by `parse_paper_ids_from_file`: one paper id per
 line, `#` starts a comment, blank lines and full-line comments are ignored. The
 file is given as the sequence of its lines.
 */
module SeedList {
  import opened Records

  /** The characters `str.strip()` removes: those for which `str.isspace()` holds. */
  predicate IsSpace(c: char)
  {
    || c == ' ' || ('\t' <= c <= '\r') || ('\U{1C}' <= c <= '\U{1F}')
    || c == '\U{85}' || c == '\U{A0}' || c == '\U{1680}' || ('\U{2000}' <= c <= '\U{200A}')
    || c == '\U{2028}' || c == '\U{2029}' || c == '\U{202F}' || c == '\U{205F}' || c == '\U{3000}'
  }

  /** The number of leading whitespace characters of `s`. */
  function LeadingSpaces(s: string): (k: nat)
    ensures k <= |s|
    ensures forall i :: 0 <= i < k ==> IsSpace(s[i])
    ensures k == |s| || !IsSpace(s[k])
  {
    SpacesFrom(s, 0)
  }

  /** The end of the whitespace run of `s` that starts at `i`. */
  function SpacesFrom(s: string, i: nat): (k: nat)
    requires i <= |s|
    ensures i <= k <= |s|
    ensures forall m :: i <= m < k ==> IsSpace(s[m])
    ensures k == |s| || !IsSpace(s[k])
    decreases |s| - i
  {
    if i < |s| && IsSpace(s[i]) then SpacesFrom(s, i + 1) else i
  }

  /** The start of the whitespace run of `s` that ends at `j`, not going below `lo`. */
  function SpacesBefore(s: string, lo: nat, j: nat): (k: nat)
    requires lo <= j <= |s|
    ensures lo <= k <= j
    ensures forall m :: k <= m < j ==> IsSpace(s[m])
    ensures k == lo || !IsSpace(s[k - 1])
  {
    if j > lo && IsSpace(s[j - 1]) then SpacesBefore(s, lo, j - 1) else j
  }

  predicate Stripped(s: string)
  {
    |s| == 0 || (!IsSpace(s[0]) && !IsSpace(s[|s| - 1]))
  }

  /** `str.strip()`: drop leading and trailing whitespace. */
  function Strip(s: string): (r: string)
    ensures Stripped(r)
    ensures multiset(r) <= multiset(s)
  {
    var i := LeadingSpaces(s);
    var j := SpacesBefore(s, i, |s|);
    assert s == s[..i] + s[i..j] + s[j..];
    s[i..j]
  }

  /** The position of the first `#` in `s`, or `|s|` when there is none. */
  function CommentStart(s: string): (k: nat)
    ensures k <= |s|
    ensures forall i :: 0 <= i < k ==> s[i] != '#'
    ensures k == |s| || s[k] == '#'
  {
    HashFrom(s, 0)
  }

  /** The position of the first `#` in `s` at or after `i`, or `|s|`. */
  function HashFrom(s: string, i: nat): (k: nat)
    requires i <= |s|
    ensures i <= k <= |s|
    ensures forall m :: i <= m < k ==> s[m] != '#'
    ensures k == |s| || s[k] == '#'
    decreases |s| - i
  {
    if i == |s| || s[i] == '#' then i else HashFrom(s, i + 1)
  }

  /**
   The id one line contributes: strip the line; blank lines and lines starting
   with `#` give nothing; otherwise keep what precedes the first `#`, stripped,
   when that is non-empty.
   */
  function ParseLine(line: string): (r: Option<string>)
    ensures r.Some? <==> Contributes(line)
    ensures r.Some? ==> ValidId(r.value)
  {
    var s := Strip(line);
    if s != "" && s[0] != '#' then
      var id := Strip(s[..CommentStart(s)]);
      if id != "" then Some(id) else None
    else None
  }

  /** A line yields an id exactly when, stripped, it is neither blank nor a comment. */
  predicate Contributes(line: string)
  {
    var s := Strip(line);
    s != "" && s[0] != '#'
  }

  /** What every parsed id looks like: non-empty, no `#`, no surrounding whitespace. */
  predicate ValidId(id: string)
  {
    id != "" && '#' !in id && Stripped(id)
  }

  /** `parse_paper_ids_from_file` on the file's lines. */
  function ParsePaperIds(lines: seq<string>): (ids: seq<string>)
    ensures |ids| <= |lines|
    ensures forall k :: 0 <= k < |ids| ==> ValidId(ids[k])
  {
    if |lines| == 0 then []
    else
      match ParseLine(lines[0])
      case Some(id) => [id] + ParsePaperIds(lines[1..])
      case None => ParsePaperIds(lines[1..])
  }

  /** The first line's id, if any, followed by the ids of the rest. */
  lemma ParseFirst(lines: seq<string>)
    requires |lines| > 0
    ensures ParsePaperIds(lines) ==
              (if Contributes(lines[0]) then [ParseLine(lines[0]).value] else []) + ParsePaperIds(lines[1..])
  {
  }

  /** Parsing a file is parsing its parts: the ids of `a + b` are those of `a` then of `b`. */
  lemma {:induction false} ParseConcat(a: seq<string>, b: seq<string>)
    ensures ParsePaperIds(a + b) == ParsePaperIds(a) + ParsePaperIds(b)
  {
    if |a| > 0 {
      assert (a + b)[0] == a[0] && (a + b)[1..] == a[1..] + b;
      ParseConcat(a[1..], b);
    } else {
      assert a + b == b;
    }
  }

  /** Each id comes from a line, in file order: the ids are the contributing lines, parsed. */
  lemma {:induction false} ParseKeepsLines(lines: seq<string>)
    ensures |ParsePaperIds(lines)| == |Contributing(lines)|
    ensures forall k :: 0 <= k < |ParsePaperIds(lines)| ==>
              Some(ParsePaperIds(lines)[k]) == ParseLine(Contributing(lines)[k])
  {
    if |lines| > 0 {
      ParseFirst(lines);
      ParseKeepsLines(lines[1..]);
      var ids, kept := ParsePaperIds(lines[1..]), Contributing(lines[1..]);
      if Contributes(lines[0]) {
        assert ParsePaperIds(lines) == [ParseLine(lines[0]).value] + ids;
        assert Contributing(lines) == [lines[0]] + kept;
      } else {
        assert ParsePaperIds(lines) == ids && Contributing(lines) == kept;
      }
    }
  }

  /** The lines that yield an id, in file order. */
  function Contributing(lines: seq<string>): (r: seq<string>)
    ensures forall k :: 0 <= k < |r| ==> Contributes(r[k])
  {
    if |lines| == 0 then []
    else if Contributes(lines[0]) then [lines[0]] + Contributing(lines[1..])
    else Contributing(lines[1..])
  }

  /** A stripped string is its own `strip()`. */
  lemma StripStripped(s: string)
    requires Stripped(s)
    ensures Strip(s) == s
  {
    if |s| > 0 {
      assert LeadingSpaces(s) == 0;
      assert s[0..] == s;
    }
  }

  /** A line holding just a valid id yields that id. */
  lemma ParseLineOfId(id: string)
    requires ValidId(id)
    ensures ParseLine(id) == Some(id)
  {
    StripStripped(id);
    assert id[..|id|] == id;
    StripStripped(id[..CommentStart(id)]);
  }

  /**
   `id` is what is written on `line`: whitespace up to position `p`, then `id` up to
   `q`, then whitespace up to `e`, where the line either ends or a `#` comment starts.
   */
  ghost predicate IdOfLine(line: string, id: string)
  {
    exists p, q, e :: 0 <= p <= q <= e <= |line| && line[p..q] == id && Around(line, p, q, e)
  }

  /** Whitespace before `p` and between `q` and `e`; the line ends at `e` or has a `#` there. */
  ghost predicate Around(line: string, p: int, q: int, e: int)
    requires 0 <= p <= q <= e <= |line|
  {
    && (forall k :: 0 <= k < p ==> IsSpace(line[k]))
    && (forall k :: q <= k < e ==> IsSpace(line[k]))
    && (e == |line| || line[e] == '#')
  }

  lemma WitnessIdOfLine(line: string, id: string, p: int, q: int, e: int)
    requires 0 <= p <= q <= e <= |line| && line[p..q] == id && Around(line, p, q, e)
    ensures IdOfLine(line, id)
  {
  }

  lemma SliceOfSlice<T>(s: seq<T>, lo: nat, hi: nat, a: nat, b: nat)
    requires lo <= hi <= |s| && a <= b <= hi - lo
    ensures s[lo..hi][a..b] == s[lo + a..lo + b]
  {
    var t := s[lo..hi];
    forall k | 0 <= k < b - a
      ensures t[a..b][k] == s[lo + a..lo + b][k]
    {
      assert t[a..b][k] == t[a + k] == s[lo + a + k];
    }
  }

  /** Where `strip()` cuts: whitespace before `i` and from `j` on. */
  lemma StripBounds(x: string) returns (i: nat, j: nat)
    ensures i <= j <= |x| && Strip(x) == x[i..j]
    ensures forall k :: 0 <= k < i ==> IsSpace(x[k])
    ensures forall k :: j <= k < |x| ==> IsSpace(x[k])
    ensures i == |x| || !IsSpace(x[i])
  {
    i := LeadingSpaces(x);
    j := SpacesBefore(x, i, |x|);
  }

  /**
   Where, in `line`, the id `ParseLine` reads lies: it starts at `p` and ends at
   `q`, and the whitespace after it runs to `e`, the comment's `#` or the end.
   */
  lemma IdSpan(line: string) returns (p: nat, q: nat, e: nat)
    ensures p <= q <= e <= |line| && Around(line, p, q, e)
    ensures line[p..q] == Strip(Strip(line)[..CommentStart(Strip(line))])
  {
    var i, j, x := CommentCut(line);
    p, q, e := SpanAround(line, x, i, j);
  }

  /** `strip()` of `x`, a part of `line` starting at `lo`, as a part of `line`. */
  lemma StripInside(line: string, lo: nat, x: string) returns (a: nat, b: nat)
    requires lo + |x| <= |line| && x == line[lo..lo + |x|]
    ensures a <= b <= |x| && Strip(x) == line[lo + a..lo + b]
    ensures forall k :: 0 <= k < a ==> IsSpace(x[k])
    ensures forall k :: b <= k < |x| ==> IsSpace(x[k])
  {
    a, b := StripBounds(x);
    SliceOfSlice(line, lo, lo + |x|, a, b);
  }

  /** The stripped line is `line[i..j]`, and `x`, what precedes its first `#`, starts at `i`. */
  lemma CommentCut(line: string) returns (i: nat, j: nat, x: string)
    ensures i <= j <= |line| && i + |x| <= j && x == line[i..i + |x|]
    ensures x == Strip(line)[..CommentStart(Strip(line))]
    ensures forall k :: 0 <= k < i ==> IsSpace(line[k])
    ensures forall k :: j <= k < |line| ==> IsSpace(line[k])
    ensures i + |x| == j || line[i + |x|] == '#'
  {
    i, j := StripBounds(line);
    var s := Strip(line);
    var c := CommentStart(s);
    x := s[..c];
    SliceOfSlice(line, i, j, 0, c);
    if c < |s| {
      assert s[c] == line[i..j][c];
    }
  }

  /**
   `IdSpan` once the comment is cut: `x` is the part of the stripped line
   `line[i..j]` before the comment, and `line[p..q]` is `x` stripped.
   */
  lemma SpanAround(line: string, x: string, i: nat, j: nat) returns (p: nat, q: nat, e: nat)
    requires i <= j <= |line| && i + |x| <= j && x == line[i..i + |x|]
    requires forall k :: 0 <= k < i ==> IsSpace(line[k])
    requires forall k :: j <= k < |line| ==> IsSpace(line[k])
    requires i + |x| == j || line[i + |x|] == '#'
    ensures p <= q <= e <= |line| && Around(line, p, q, e) && line[p..q] == Strip(x)
  {
    var a, b := StripInside(line, i, x);
    p, q := i + a, i + b;
    e := if i + |x| < j then i + |x| else |line|;
    forall k | i <= k < i + a
      ensures IsSpace(line[k])
    {
      assert line[k] == x[k - i];
    }
    forall k | i + b <= k < i + |x|
      ensures IsSpace(line[k])
    {
      assert line[k] == x[k - i];
    }
  }

  /** The id a line yields is the text before its first `#`, without surrounding whitespace. */
  lemma ParseLineValue(line: string)
    ensures ParseLine(line).Some? ==> IdOfLine(line, ParseLine(line).value)
  {
    if ParseLine(line).Some? {
      var p, q, e := IdSpan(line);
      WitnessIdOfLine(line, ParseLine(line).value, p, q, e);
    }
  }

  /** The id written on a line is non-whitespace at both ends and has no `#` before `e`. */
  lemma AroundId(line: string, id: string, p: int, q: int, e: int)
    requires 0 <= p <= q <= e <= |line| && line[p..q] == id && Around(line, p, q, e)
    requires ValidId(id)
    ensures p < q && !IsSpace(line[p]) && !IsSpace(line[q - 1]) && line[p] != '#'
    ensures forall k :: 0 <= k < e ==> line[k] != '#'
  {
    assert forall k :: p <= k < q ==> line[k] == id[k - p];
  }

  /** Only one position can end a whitespace run with a non-whitespace character. */
  lemma SameFirst(line: string, p1: nat, p2: nat)
    requires p1 <= |line| && p2 <= |line|
    requires forall k :: 0 <= k < p1 ==> IsSpace(line[k])
    requires forall k :: 0 <= k < p2 ==> IsSpace(line[k])
    requires p1 == |line| || !IsSpace(line[p1])
    requires p2 == |line| || !IsSpace(line[p2])
    ensures p1 == p2
  {
  }

  /** Only one position is the first `#` or the end of the line. */
  lemma SameCut(line: string, e1: nat, e2: nat)
    requires e1 <= |line| && e2 <= |line|
    requires forall k :: 0 <= k < e1 ==> line[k] != '#'
    requires forall k :: 0 <= k < e2 ==> line[k] != '#'
    requires e1 == |line| || line[e1] == '#'
    requires e2 == |line| || line[e2] == '#'
    ensures e1 == e2
  {
  }

  /** Only one position before `e` is followed by whitespace up to `e` and preceded by none. */
  lemma SameLast(line: string, e: nat, q1: nat, q2: nat)
    requires 0 < q1 <= e <= |line| && 0 < q2 <= e
    requires !IsSpace(line[q1 - 1]) && !IsSpace(line[q2 - 1])
    requires forall k :: q1 <= k < e ==> IsSpace(line[k])
    requires forall k :: q2 <= k < e ==> IsSpace(line[k])
    ensures q1 == q2
  {
  }

  /** A line names at most one id. */
  lemma IdOfLineUnique(line: string, id1: string, id2: string)
    requires ValidId(id1) && ValidId(id2)
    requires IdOfLine(line, id1) && IdOfLine(line, id2)
    ensures id1 == id2
  {
    var p1, q1, e1 :| 0 <= p1 <= q1 <= e1 <= |line| && line[p1..q1] == id1 && Around(line, p1, q1, e1);
    var p2, q2, e2 :| 0 <= p2 <= q2 <= e2 <= |line| && line[p2..q2] == id2 && Around(line, p2, q2, e2);
    AroundId(line, id1, p1, q1, e1);
    AroundId(line, id2, p2, q2, e2);
    SameFirst(line, p1, p2);
    SameCut(line, e1, e2);
    SameLast(line, e1, q1, q2);
  }

  /** A line that names a valid id yields exactly that id. */
  lemma ParseLineOfLine(line: string, id: string)
    requires ValidId(id) && IdOfLine(line, id)
    ensures ParseLine(line) == Some(id)
  {
    var p, q, e :| 0 <= p <= q <= e <= |line| && line[p..q] == id && Around(line, p, q, e);
    AroundId(line, id, p, q, e);
    var i, j := StripBounds(line);
    SameFirst(line, i, p);
    assert Strip(line)[0] == line[i];
    assert Contributes(line);
    ParseLineValue(line);
    IdOfLineUnique(line, ParseLine(line).value, id);
  }

  /** Writing ids one per line and reading the file back gives the same ids. */
  lemma {:induction false} ParseRoundTrip(ids: seq<string>)
    requires forall k :: 0 <= k < |ids| ==> ValidId(ids[k])
    ensures ParsePaperIds(ids) == ids
  {
    if |ids| > 0 {
      ParseFirst(ids);
      ParseLineOfId(ids[0]);
      ParseRoundTrip(ids[1..]);
      assert ids == [ids[0]] + ids[1..];
    }
  }

  /** Re-reading the parsed ids as a file changes nothing. */
  lemma {:induction false} ParseIdempotent(lines: seq<string>)
    ensures ParsePaperIds(ParsePaperIds(lines)) == ParsePaperIds(lines)
  {
    ParseRoundTrip(ParsePaperIds(lines));
  }
}
