/**
 Cross-seed aggregation (`get_citations_for_papers`): fetch the citations of every
 seed in order, count how often each citing paper id occurs, keep the first record
 of every id, then keep those whose count reaches the threshold.

 The reference definitions below consume the fetched records one at a time from the
 front, exactly as the source's nested `for` loops do; `GetCitationsForPapers` is the
 loop itself and is proved to compute them.
 */
module Aggregation {
  import opened Records
  import opened Pagination

  /** All pages one after the other. */
  function Flatten(pages: seq<seq<Citation>>): seq<Citation>
  {
    if |pages| == 0 then [] else Flatten(pages[..|pages| - 1]) + pages[|pages| - 1]
  }

  /** The citing paper ids that occur in `s` (records without one contribute nothing). */
  function IdsOf(s: seq<Citation>): (ids: set<string>)
    ensures forall i :: 0 <= i < |s| && CitingId(s[i]).Some? ==> CitingId(s[i]).value in ids
  {
    if |s| == 0 then {}
    else
      var p := IdsOf(s[..|s| - 1]);
      match CitingId(s[|s| - 1])
      case Some(id) => p + {id}
      case None => p
  }

  /** How many records of `s` carry citing paper id `id`. */
  function Occurrences(s: seq<Citation>, id: string): (r: nat)
    ensures r > 0 <==> id in IdsOf(s)
  {
    if |s| == 0 then 0
    else Occurrences(s[..|s| - 1], id) + (if CitingId(s[|s| - 1]) == Some(id) then 1 else 0)
  }

  /** The `citation_count` map after consuming `s`. */
  function Counts(s: seq<Citation>): map<string, nat>
  {
    if |s| == 0 then map[]
    else
      var m := Counts(s[..|s| - 1]);
      match CitingId(s[|s| - 1])
      case Some(id) => m[id := (if id in m then m[id] else 0) + 1]
      case None => m
  }

  /**
   The map counts every occurrence: its keys are exactly the citing ids fetched,
   and each maps to the number of fetched records carrying it, duplicates included.
   */
  lemma {:induction false} CountsAreOccurrences(s: seq<Citation>)
    ensures Counts(s).Keys == IdsOf(s)
    ensures forall id :: id in Counts(s) ==> Counts(s)[id] == Occurrences(s, id) >= 1
  {
    if |s| > 0 {
      var p := s[..|s| - 1];
      CountsAreOccurrences(p);
      match CitingId(s[|s| - 1])
      case Some(id) =>
        assert forall x :: Occurrences(s, x) == Occurrences(p, x) + (if x == id then 1 else 0);
      case None =>
    }
  }

  /** The `all_citations` list after consuming `s`: the first record of every id. */
  function FirstSeen(s: seq<Citation>): seq<Citation>
  {
    if |s| == 0 then []
    else
      var p := FirstSeen(s[..|s| - 1]);
      var c := s[|s| - 1];
      match CitingId(c)
      case Some(id) => if id in IdsOf(p) then p else p + [c]
      case None => p
  }

  /**
   The kept list has one record for every citing id fetched and no other: every
   record in it has an id, no id occurs twice, and the ids are those fetched.
   */
  lemma {:induction false} FirstSeenDistinct(s: seq<Citation>)
    ensures var r := FirstSeen(s);
            && IdsOf(r) == IdsOf(s)
            && (forall k :: 0 <= k < |r| ==> CitingId(r[k]).Some?)
            && (forall k, l :: 0 <= k < l < |r| ==> CitingId(r[k]) != CitingId(r[l]))
  {
    if |s| > 0 {
      var p := FirstSeen(s[..|s| - 1]);
      FirstSeenDistinct(s[..|s| - 1]);
      var c := s[|s| - 1];
      match CitingId(c)
      case Some(id) =>
        if id !in IdsOf(p) {
          assert IdsOf(p + [c]) == IdsOf(p) + {id} by {
            assert (p + [c])[..|p|] == p;
          }
        }
      case None =>
    }
  }

  /** The position of the first record of `s` with citing paper id `id`. */
  function FirstIndex(s: seq<Citation>, id: string): (i: nat)
    requires id in IdsOf(s)
    ensures i < |s| && CitingId(s[i]) == Some(id)
    ensures forall j :: 0 <= j < i ==> CitingId(s[j]) != Some(id)
  {
    var p := s[..|s| - 1];
    if id in IdsOf(p) then FirstIndex(p, id) else |s| - 1
  }

  /** `citation_count.get(paperId, 0)` for one record. */
  function CountOf(counts: map<string, nat>, c: Citation): nat
  {
    match CitingId(c)
    case Some(id) => if id in counts then counts[id] else 0
    case None => 0
  }

  /** `a` is `b` with some elements left out and the rest in order. */
  predicate IsSubsequence<T(==)>(a: seq<T>, b: seq<T>)
  {
    if |a| == 0 then true
    else if |b| == 0 then false
    else if a[0] == b[0] then IsSubsequence(a[1..], b[1..])
    else IsSubsequence(a, b[1..])
  }

  /** The final list comprehension: the records whose count reaches `n`, in order. */
  function AtLeast(r: seq<Citation>, counts: map<string, nat>, n: int): (out: seq<Citation>)
    ensures forall c :: c in out <==> c in r && CountOf(counts, c) >= n
    ensures IsSubsequence(out, r)
  {
    if |r| == 0 then []
    else if CountOf(counts, r[0]) >= n then [r[0]] + AtLeast(r[1..], counts, n)
    else
      var out := AtLeast(r[1..], counts, n);
      SubsequenceSkip(out, r);
      out
  }

  lemma {:induction false} SubsequenceSkip<T>(a: seq<T>, b: seq<T>)
    requires |b| > 0 && IsSubsequence(a, b[1..])
    ensures IsSubsequence(a, b)
  {
    if |a| > 0 && a[0] == b[0] {
      SubsequenceTail(a, b[1..]);
    }
  }

  lemma {:induction false} SubsequenceTail<T>(a: seq<T>, b: seq<T>)
    requires |a| > 0 && IsSubsequence(a, b)
    ensures IsSubsequence(a[1..], b)
  {
    if |b| > 0 {
      if a[0] == b[0] {
        if |a| > 1 {
          SubsequenceSkip(a[1..], b);
        }
      } else {
        SubsequenceTail(a, b[1..]);
        if |a| > 1 {
          SubsequenceSkip(a[1..], b);
        }
      }
    }
  }

  /** Deduplicate and filter everything fetched, seed after seed. */
  function AggregatePages(pages: seq<seq<Citation>>, n: int): seq<Citation>
  {
    var all := Flatten(pages);
    AtLeast(FirstSeen(all), Counts(all), n)
  }

  /** What `get_citations` returns for every seed, in seed order. */
  function FetchAll(svc: Service, seeds: seq<string>, limit: int): (pages: seq<seq<Citation>>)
    requires 0 < limit
    ensures |pages| == |seeds|
    ensures forall i :: 0 <= i < |seeds| ==> pages[i] == GetCitations(svc, seeds[i], limit).citations
  {
    seq(|seeds|, i requires 0 <= i < |seeds| => GetCitations(svc, seeds[i], limit).citations)
  }

  /** Consuming one more record: what the loop body does to the map. */
  lemma ConsumeCounts(s: seq<Citation>, c: Citation)
    ensures CitingId(c).None? ==> Counts(s + [c]) == Counts(s)
    ensures CitingId(c).Some? ==>
              var m := Counts(s);
              var id := CitingId(c).value;
              Counts(s + [c]) == m[id := (if id in m then m[id] else 0) + 1]
  {
    var t := s + [c];
    assert t[..|t| - 1] == s && t[|t| - 1] == c;
  }

  /** Consuming one more record: what the loop body does to the list. */
  lemma ConsumeFirstSeen(s: seq<Citation>, c: Citation)
    ensures CitingId(c).None? ==> FirstSeen(s + [c]) == FirstSeen(s)
    ensures CitingId(c).Some? ==>
              var r := FirstSeen(s);
              FirstSeen(s + [c]) == if CitingId(c).value in IdsOf(r) then r else r + [c]
  {
    var t := s + [c];
    assert t[..|t| - 1] == s && t[|t| - 1] == c;
  }

  /** One iteration of the inner loop, on the state reached after `prefix`. */
  lemma CountStep(prefix: seq<Citation>, c: Citation,
                  counts: map<string, nat>, kept: seq<Citation>, seen: set<string>)
    requires counts == Counts(prefix) && kept == FirstSeen(prefix) && seen == IdsOf(kept)
    ensures CitingId(c).None? ==> Counts(prefix + [c]) == counts && FirstSeen(prefix + [c]) == kept
    ensures CitingId(c).Some? ==>
              var id := CitingId(c).value;
              && Counts(prefix + [c]) == counts[id := (if id in counts then counts[id] else 0) + 1]
              && FirstSeen(prefix + [c]) == (if id in seen then kept else kept + [c])
              && (id !in seen ==> IdsOf(kept + [c]) == seen + {id})
  {
    ConsumeCounts(prefix, c);
    ConsumeFirstSeen(prefix, c);
    assert (kept + [c])[..|kept|] == kept;
  }

  lemma PrefixSnoc(before: seq<Citation>, citations: seq<Citation>, j: int)
    requires 0 <= j < |citations|
    ensures before + citations[..j + 1] == before + citations[..j] + [citations[j]]
  {
    assert citations[..j + 1] == citations[..j] + [citations[j]];
  }

  lemma FlattenSnoc(pages: seq<seq<Citation>>, i: int)
    requires 0 <= i < |pages|
    ensures Flatten(pages[..i + 1]) == Flatten(pages[..i]) + pages[i]
  {
    assert pages[..i + 1][..i] == pages[..i];
  }

  /**
   The inner `for citation in citations` loop: count every record with a citing id
   and append it to `all_citations` the first time its id is seen.
   */
  method CountPage(counts0: map<string, nat>, kept0: seq<Citation>, seen0: set<string>,
                   citations: seq<Citation>, ghost before: seq<Citation>)
    returns (counts: map<string, nat>, kept: seq<Citation>, seen: set<string>)
    requires counts0 == Counts(before) && kept0 == FirstSeen(before) && seen0 == IdsOf(kept0)
    ensures counts == Counts(before + citations)
    ensures kept == FirstSeen(before + citations)
    ensures seen == IdsOf(kept)
  {
    counts, kept, seen := counts0, kept0, seen0;
    var j := 0;
    ghost var prefix := before;
    assert before + citations[..0] == before;
    while j < |citations|
      invariant 0 <= j <= |citations|
      invariant prefix == before + citations[..j]
      invariant counts == Counts(prefix) && kept == FirstSeen(prefix) && seen == IdsOf(kept)
    {
      var c := citations[j];
      CountStep(prefix, c, counts, kept, seen);
      match CitingId(c) {
        case Some(id) =>
          counts := counts[id := (if id in counts then counts[id] else 0) + 1];
          if id !in seen {
            kept := kept + [c];
            seen := seen + {id};
          }
        case None =>
      }
      PrefixSnoc(before, citations, j);
      prefix := prefix + [c];
      j := j + 1;
    }
    assert citations[..j] == citations;
  }

  /**
   `get_citations_for_papers(paper_ids, cites_at_least_n, limit)`, loop for loop:
   it computes what `AggregatePages` defines over the seeds' citation lists.
   */
  method GetCitationsForPapers(svc: Service, seeds: seq<string>, n: int, limit: int)
    returns (result: seq<Citation>)
    requires 0 < limit
    ensures result == AggregatePages(FetchAll(svc, seeds, limit), n)
  {
    ghost var pages := FetchAll(svc, seeds, limit);
    var counts: map<string, nat> := map[];
    var kept: seq<Citation> := [];
    var seen: set<string> := {};
    var i := 0;
    while i < |seeds|
      invariant 0 <= i <= |seeds|
      invariant counts == Counts(Flatten(pages[..i]))
      invariant kept == FirstSeen(Flatten(pages[..i]))
      invariant seen == IdsOf(kept)
    {
      var citations := GetCitations(svc, seeds[i], limit).citations;
      FlattenSnoc(pages, i);
      counts, kept, seen := CountPage(counts, kept, seen, citations, Flatten(pages[..i]));
      i := i + 1;
    }
    assert pages[..i] == pages;
    result := AtLeast(kept, counts, n);
  }

  lemma {:induction false} IdsOfWitness(s: seq<Citation>, id: string) returns (i: nat)
    requires id in IdsOf(s)
    ensures i < |s| && CitingId(s[i]) == Some(id)
  {
    var p := s[..|s| - 1];
    if id in IdsOf(p) {
      i := IdsOfWitness(p, id);
    } else {
      i := |s| - 1;
    }
  }

  lemma {:induction false} IdsOfAppend(a: seq<Citation>, b: seq<Citation>)
    ensures IdsOf(a + b) == IdsOf(a) + IdsOf(b)
  {
    if |b| == 0 {
      assert a + b == a;
    } else {
      var b' := b[..|b| - 1];
      IdsOfAppend(a, b');
      assert (a + b)[..|a + b| - 1] == a + b';
    }
  }

  lemma {:induction false} OccurrencesAppend(a: seq<Citation>, b: seq<Citation>, id: string)
    ensures Occurrences(a + b, id) == Occurrences(a, id) + Occurrences(b, id)
  {
    if |b| == 0 {
      assert a + b == a;
    } else {
      var b' := b[..|b| - 1];
      OccurrencesAppend(a, b', id);
      assert (a + b)[..|a + b| - 1] == a + b';
    }
  }

  /**
   Each kept record is the first record fetched with its id: `all_citations[k]` is
   the record at the first position where that id occurs.
   */
  lemma {:induction false} FirstSeenIsFirstOccurrence(s: seq<Citation>, k: int)
    requires 0 <= k < |FirstSeen(s)|
    ensures CitingId(FirstSeen(s)[k]).Some?
    ensures CitingId(FirstSeen(s)[k]).value in IdsOf(s)
    ensures FirstSeen(s)[k] == s[FirstIndex(s, CitingId(FirstSeen(s)[k]).value)]
  {
    var p := s[..|s| - 1];
    var rp := FirstSeen(p);
    FirstSeenDistinct(s);
    FirstSeenDistinct(p);
    var id := CitingId(FirstSeen(s)[k]).value;
    assert id in IdsOf(FirstSeen(s));
    if k < |rp| {
      assert FirstSeen(s)[k] == rp[k];
      FirstSeenIsFirstOccurrence(p, k);
      assert s[FirstIndex(p, id)] == p[FirstIndex(p, id)];
    }
  }

  /** Kept records appear in the order in which their ids were first fetched. */
  lemma {:induction false} FirstSeenInFetchOrder(s: seq<Citation>, k: int, l: int)
    requires 0 <= k < l < |FirstSeen(s)|
    ensures CitingId(FirstSeen(s)[k]).Some? && CitingId(FirstSeen(s)[l]).Some?
    ensures CitingId(FirstSeen(s)[k]).value in IdsOf(s)
    ensures CitingId(FirstSeen(s)[l]).value in IdsOf(s)
    ensures FirstIndex(s, CitingId(FirstSeen(s)[k]).value) < FirstIndex(s, CitingId(FirstSeen(s)[l]).value)
  {
    var p := s[..|s| - 1];
    var rp := FirstSeen(p);
    var r := FirstSeen(s);
    FirstSeenDistinct(s);
    FirstSeenDistinct(p);
    assert CitingId(r[k]).value in IdsOf(r) && CitingId(r[l]).value in IdsOf(r);
    assert r[k] == rp[k];
    assert CitingId(rp[k]).value in IdsOf(rp);
    if l < |rp| {
      assert r[l] == rp[l];
      FirstSeenInFetchOrder(p, k, l);
    }
  }

  /** The record count map only gains keys as further seeds are processed. */
  lemma {:induction false} CountsKeysGrow(pages: seq<seq<Citation>>, i: int, j: int)
    requires 0 <= i <= j <= |pages|
    ensures Counts(Flatten(pages[..i])).Keys <= Counts(Flatten(pages[..j])).Keys
  {
    if i < j {
      CountsKeysGrow(pages, i, j - 1);
      FlattenSnoc(pages, j - 1);
      IdsOfAppend(Flatten(pages[..j - 1]), pages[j - 1]);
      CountsAreOccurrences(Flatten(pages[..j - 1]));
      CountsAreOccurrences(Flatten(pages[..j]));
    }
  }

  lemma {:induction false} AtLeastKeepsAll(r: seq<Citation>, counts: map<string, nat>, n: int)
    requires forall k :: 0 <= k < |r| ==> CountOf(counts, r[k]) >= n
    ensures AtLeast(r, counts, n) == r
  {
    if |r| > 0 {
      AtLeastKeepsAll(r[1..], counts, n);
      assert r == [r[0]] + r[1..];
    }
  }

  /**
   The aggregate result: the kept records whose count reaches the threshold, in
   their kept order, each with a citing id and no id twice; with a threshold of at
   most 1 nothing is filtered out.
   */
  lemma AggregateResult(pages: seq<seq<Citation>>, n: int)
    ensures var all := Flatten(pages);
            var out := AggregatePages(pages, n);
            && IsSubsequence(out, FirstSeen(all))
            && (forall c :: c in out <==> c in FirstSeen(all) && CountOf(Counts(all), c) >= n)
            && (forall c :: c in out ==> CitingId(c).Some?)
            && (n <= 1 ==> out == FirstSeen(all))
  {
    var all := Flatten(pages);
    var r := FirstSeen(all);
    CountsAreOccurrences(all);
    FirstSeenDistinct(all);
    forall c | c in r
      ensures CitingId(c).Some? && CitingId(c).value in Counts(all)
    {
      var k :| 0 <= k < |r| && r[k] == c;
      assert CitingId(r[k]).value in IdsOf(r);
    }
    if n <= 1 {
      AtLeastKeepsAll(r, Counts(all), n);
    }
  }

  /** Records with distinct citing ids, as one seed's citation list normally is. */
  ghost predicate DistinctIds(page: seq<Citation>)
  {
    forall k, l :: 0 <= k < l < |page| && CitingId(page[k]).Some? ==> CitingId(page[k]) != CitingId(page[l])
  }

  lemma {:induction false} OccursOnce(page: seq<Citation>, id: string)
    requires DistinctIds(page)
    ensures Occurrences(page, id) <= 1
  {
    if |page| > 0 {
      var p := page[..|page| - 1];
      assert DistinctIds(p);
      OccursOnce(p, id);
      if CitingId(page[|page| - 1]) == Some(id) && id in IdsOf(p) {
        var i := IdsOfWitness(p, id);
      }
    }
  }

  lemma {:induction false} OccurrencesAtMostSeeds(pages: seq<seq<Citation>>, id: string)
    requires forall i :: 0 <= i < |pages| ==> DistinctIds(pages[i])
    ensures Occurrences(Flatten(pages), id) <= |pages|
  {
    if |pages| > 0 {
      var ps := pages[..|pages| - 1];
      OccurrencesAtMostSeeds(ps, id);
      OccurrencesAppend(Flatten(ps), pages[|pages| - 1], id);
      OccursOnce(pages[|pages| - 1], id);
    }
  }

  /**
   When no seed's list names a citing paper twice, no record can reach a threshold
   above the number of seeds, so the result is empty.
   */
  lemma ThresholdAboveSeedCount(pages: seq<seq<Citation>>, n: int)
    requires forall i :: 0 <= i < |pages| ==> DistinctIds(pages[i])
    requires n > |pages|
    ensures AggregatePages(pages, n) == []
  {
    var all := Flatten(pages);
    var out := AggregatePages(pages, n);
    AggregateResult(pages, n);
    CountsAreOccurrences(all);
    if out != [] {
      var c := out[0];
      OccurrencesAtMostSeeds(pages, CitingId(c).value);
    }
  }

  function Cites(id: string): Citation
  {
    Citation(EmptyPaper.(paperId := Value(id)))
  }

  lemma ExampleFlatten(x: Citation, y: Citation, z: Citation)
    ensures Flatten([[x, y], [y, z]]) == [x, y, y, z]
  {
    var pages := [[x, y], [y, z]];
    assert pages[..1] == [[x, y]];
    assert [[x, y]][..0] == [];
    assert Flatten([[x, y]]) == [] + [x, y];
    assert [] + [x, y] == [x, y];
    assert [x, y] + [y, z] == [x, y, y, z];
  }

  lemma IdsOfOne(c: Citation)
    requires CitingId(c).Some?
    ensures IdsOf([c]) == {CitingId(c).value}
  {
    assert [c][..0] == [];
  }

  lemma FirstSeenOne(x: Citation)
    requires CitingId(x).Some?
    ensures FirstSeen([x]) == [x] && IdsOf([x]) == {CitingId(x).value}
  {
    assert [x][..0] == [];
    IdsOfOne(x);
  }

  lemma FirstSeenTwo(x: Citation, y: Citation)
    requires CitingId(x) == Some("X") && CitingId(y) == Some("Y")
    ensures FirstSeen([x, y]) == [x, y] && IdsOf([x, y]) == {"X", "Y"}
  {
    FirstSeenOne(x);
    ConsumeFirstSeen([x], y);
    assert [x] + [y] == [x, y];
    IdsOfOne(y);
    IdsOfAppend([x], [y]);
  }

  lemma ExampleFirstSeen(x: Citation, y: Citation, z: Citation)
    requires CitingId(x) == Some("X") && CitingId(y) == Some("Y") && CitingId(z) == Some("Z")
    ensures FirstSeen([x, y, y, z]) == [x, y, z]
  {
    FirstSeenTwo(x, y);
    ConsumeFirstSeen([x, y], y);
    assert [x, y] + [y] == [x, y, y];
    ConsumeFirstSeen([x, y, y], z);
    assert [x, y, y] + [z] == [x, y, y, z];
  }

  lemma ExampleCounts(x: Citation, y: Citation, z: Citation)
    requires CitingId(x) == Some("X") && CitingId(y) == Some("Y") && CitingId(z) == Some("Z")
    ensures Counts([x, y, y, z]) == map["X" := 1, "Y" := 2, "Z" := 1]
  {
    ConsumeCounts([], x);
    assert [] + [x] == [x];
    ConsumeCounts([x], y);
    assert [x] + [y] == [x, y];
    ConsumeCounts([x, y], y);
    assert [x, y] + [y] == [x, y, y];
    ConsumeCounts([x, y, y], z);
    assert [x, y, y] + [z] == [x, y, y, z];
  }

  /** Seeds A and B cited by {X, Y} and {Y, Z}: at threshold 2 only Y remains. */
  lemma TwoSeedExample()
    ensures AggregatePages([[Cites("X"), Cites("Y")], [Cites("Y"), Cites("Z")]], 2) == [Cites("Y")]
  {
    var x, y, z := Cites("X"), Cites("Y"), Cites("Z");
    ExampleFlatten(x, y, z);
    ExampleFirstSeen(x, y, z);
    ExampleCounts(x, y, z);
  }

  /**
   The count is of records, not of seeds: one seed whose list names the same
   citing paper twice gives it a count of 2, above the single seed.
   */
  lemma CountExceedsSeedCount()
    ensures Counts(Flatten([[Cites("X"), Cites("X")]]))["X"] == 2
    ensures AggregatePages([[Cites("X"), Cites("X")]], 2) == [Cites("X")]
  {
    var x := Cites("X");
    FlattenOne([x, x]);
    CountedTwice(x);
    DuplicateKeptOnce(x);
  }

  /**
   The seed list is not deduplicated: naming seed A twice fetches its citations
   twice, so a paper citing only A reaches a count of 2.
   */
  lemma RepeatedSeedCountsTwice()
    ensures Counts(Flatten([[Cites("X")], [Cites("X")]]))["X"] == 2
    ensures AggregatePages([[Cites("X")], [Cites("X")]], 2) == [Cites("X")]
  {
    var x := Cites("X");
    assert Flatten([[x], [x]]) == [x, x] by {
      FlattenOne([x]);
    }
    CountedTwice(x);
    DuplicateKeptOnce(x);
  }

  lemma FlattenOne(page: seq<Citation>)
    ensures Flatten([page]) == page
  {
    assert [page][..0] == [];
    assert [] + page == page;
  }

  lemma CountedTwice(x: Citation)
    requires CitingId(x) == Some("X")
    ensures Counts([x, x]) == map["X" := 2]
  {
    ConsumeCounts([], x);
    assert [] + [x] == [x];
    ConsumeCounts([x], x);
    assert [x] + [x] == [x, x];
  }

  lemma DuplicateKeptOnce(x: Citation)
    requires CitingId(x).Some?
    ensures FirstSeen([x, x]) == [x]
  {
    FirstSeenOne(x);
    ConsumeFirstSeen([x], x);
    assert [x] + [x] == [x, x];
  }
}
