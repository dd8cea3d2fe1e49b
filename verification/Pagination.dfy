/**
 Offset/limit pagination of the citations of one paper (`get_citations`). The HTTP
 call is an abstract `Service`: given the paper id, the offset and the requested page
 size it answers with a status code and the page's `data` list. The result records
 every request that was issued, so that the bounds on them can be stated.
 */
module Pagination {
  import opened Records

  /** The number of citations the service hands out without an API key. */
  const MaxCitations: int := 9999

  /** The answer to one page request: HTTP status and the `data` member of the body. */
  datatype Response = Response(status: int, data: seq<Citation>)

  /** The remote service: `(paperId, offset, limit)` to response. */
  type Service = (string, int, int) -> Response

  datatype Request = Request(offset: int, limit: int)

  /** Why the loop stopped: a non-200 answer, an empty page, or the ceiling. */
  datatype Stop = Failed(status: int) | Exhausted | Capped

  /** The citations gathered, why fetching stopped, and every request issued, in order. */
  datatype Fetch = Fetch(citations: seq<Citation>, stop: Stop, requests: seq<Request>)

  /** The records one response contributes: its page when the status is 200. */
  function Received(r: Response): seq<Citation>
  {
    if r.status == 200 then r.data else []
  }

  function Answer(svc: Service, paperId: string, q: Request): Response
  {
    svc(paperId, q.offset, q.limit)
  }

  /** Everything the given requests received, concatenated in request order. */
  function Replies(svc: Service, paperId: string, qs: seq<Request>): seq<Citation>
  {
    if |qs| == 0 then [] else Received(Answer(svc, paperId, qs[0])) + Replies(svc, paperId, qs[1..])
  }

  /** The total number of records asked for by the given requests. */
  function Requested(qs: seq<Request>): int
  {
    if |qs| == 0 then 0 else qs[0].limit + Requested(qs[1..])
  }

  /** The request the loop stopped on. */
  function LastRequest(f: Fetch): Request
    requires |f.requests| > 0
  {
    f.requests[|f.requests| - 1]
  }

  /**
   One iteration of the `while offset < max_citations` loop and all that follow it:
   request `min(limit, 9999 - offset)` records at `offset`; stop on a non-200 answer
   or on an empty page; otherwise keep the page, advance the offset by `limit`, and
   stop once the offset has reached the ceiling.
   */
  function FetchFrom(svc: Service, paperId: string, limit: int, offset: int): (f: Fetch)
    requires 0 < limit
    requires 0 <= offset < MaxCitations
    decreases MaxCitations - offset
    ensures 1 <= |f.requests|
    ensures f.requests[0] == Request(offset, Min(limit, MaxCitations - offset))
  {
    var q := Request(offset, Min(limit, MaxCitations - offset));
    var a := Answer(svc, paperId, q);
    if a.status != 200 then
      Fetch([], Failed(a.status), [q])
    else if |a.data| == 0 then
      Fetch([], Exhausted, [q])
    else if offset + limit >= MaxCitations then
      Fetch(a.data, Capped, [q])
    else
      var rest := FetchFrom(svc, paperId, limit, offset + limit);
      Fetch(a.data + rest.citations, rest.stop, [q] + rest.requests)
  }

  /** Consecutive requests are `limit` apart. */
  ghost predicate Spaced(qs: seq<Request>, limit: int)
  {
    forall i :: 0 <= i < |qs| - 1 ==> qs[i + 1].offset == qs[i].offset + limit
  }

  /** Every request starts at or after `offset`, below the ceiling, and asks for `min(limit, 9999 - its offset)`. */
  ghost predicate InRange(qs: seq<Request>, offset: int, limit: int)
  {
    forall i :: 0 <= i < |qs| ==>
      offset <= qs[i].offset < MaxCitations && qs[i].limit == Min(limit, MaxCitations - qs[i].offset)
  }

  /** Every request but the last was answered with a non-empty page and left room for another. */
  ghost predicate Continued(svc: Service, paperId: string, qs: seq<Request>, limit: int)
  {
    forall i :: 0 <= i < |qs| - 1 ==>
      Answer(svc, paperId, qs[i]).status == 200 &&
      |Answer(svc, paperId, qs[i]).data| > 0 &&
      qs[i].offset + limit < MaxCitations
  }

  lemma SpacedCons(q: Request, rest: seq<Request>, limit: int)
    requires |rest| > 0 && rest[0].offset == q.offset + limit && Spaced(rest, limit)
    ensures Spaced([q] + rest, limit)
  {
    var qs := [q] + rest;
    forall i | 0 <= i < |qs| - 1
      ensures qs[i + 1].offset == qs[i].offset + limit
    {
      assert qs[i + 1] == rest[i];
      if i > 0 {
        assert qs[i] == rest[i - 1];
      }
    }
  }

  lemma InRangeCons(q: Request, rest: seq<Request>, offset: int, limit: int)
    requires 0 <= offset < MaxCitations && q == Request(offset, Min(limit, MaxCitations - offset))
    requires InRange(rest, offset + limit, limit) && 0 < limit
    ensures InRange([q] + rest, offset, limit)
  {
    var qs := [q] + rest;
    forall i | 0 <= i < |qs|
      ensures offset <= qs[i].offset < MaxCitations && qs[i].limit == Min(limit, MaxCitations - qs[i].offset)
    {
      if i > 0 {
        assert qs[i] == rest[i - 1];
      }
    }
  }

  lemma ContinuedCons(svc: Service, paperId: string, q: Request, rest: seq<Request>, limit: int)
    requires Answer(svc, paperId, q).status == 200 && |Answer(svc, paperId, q).data| > 0
    requires q.offset + limit < MaxCitations && Continued(svc, paperId, rest, limit)
    ensures Continued(svc, paperId, [q] + rest, limit)
  {
    var qs := [q] + rest;
    forall i | 0 <= i < |qs| - 1
      ensures Answer(svc, paperId, qs[i]).status == 200 && |Answer(svc, paperId, qs[i]).data| > 0
              && qs[i].offset + limit < MaxCitations
    {
      if i > 0 {
        assert qs[i] == rest[i - 1];
      }
    }
  }

  /** Whether the loop goes on after the request at `offset`. */
  predicate Continues(svc: Service, paperId: string, limit: int, offset: int)
  {
    var a := Answer(svc, paperId, Request(offset, Min(limit, MaxCitations - offset)));
    a.status == 200 && |a.data| > 0 && offset + limit < MaxCitations
  }

  /** One unfolding of the loop: the request at `offset`, then those that follow it. */
  lemma FetchStep(svc: Service, paperId: string, limit: int, offset: int)
    requires 0 < limit
    requires 0 <= offset < MaxCitations
    ensures var q := Request(offset, Min(limit, MaxCitations - offset));
            var a := Answer(svc, paperId, q);
            var f := FetchFrom(svc, paperId, limit, offset);
            if Continues(svc, paperId, limit, offset) then
              var rest := FetchFrom(svc, paperId, limit, offset + limit);
              f == Fetch(a.data + rest.citations, rest.stop, [q] + rest.requests)
            else
              && f.requests == [q]
              && f.citations == Received(a)
              && f.stop == (if a.status != 200 then Failed(a.status) else if |a.data| == 0 then Exhausted else Capped)
  {
  }

  lemma RepliesCons(svc: Service, paperId: string, q: Request, rest: seq<Request>)
    ensures Replies(svc, paperId, [q] + rest) == Received(Answer(svc, paperId, q)) + Replies(svc, paperId, rest)
  {
    assert ([q] + rest)[0] == q && ([q] + rest)[1..] == rest;
  }

  /** The records gathered are the pages received, in request order. */
  lemma {:induction false} FetchReplies(svc: Service, paperId: string, limit: int, offset: int)
    requires 0 < limit
    requires 0 <= offset < MaxCitations
    decreases MaxCitations - offset
    ensures var f := FetchFrom(svc, paperId, limit, offset);
            f.citations == Replies(svc, paperId, f.requests)
  {
    var q := Request(offset, Min(limit, MaxCitations - offset));
    FetchStep(svc, paperId, limit, offset);
    if Continues(svc, paperId, limit, offset) {
      FetchReplies(svc, paperId, limit, offset + limit);
      RepliesCons(svc, paperId, q, FetchFrom(svc, paperId, limit, offset + limit).requests);
    } else {
      RepliesCons(svc, paperId, q, []);
      assert Received(Answer(svc, paperId, q)) + [] == Received(Answer(svc, paperId, q));
    }
  }

  /** The answer to the last request decides why the loop stopped. */
  ghost predicate StoppedBy(f: Fetch, a: Response, limit: int)
    requires |f.requests| > 0
  {
    && (f.stop.Failed? <==> a.status != 200)
    && (f.stop.Failed? ==> f.stop.status == a.status)
    && (f.stop.Exhausted? <==> a.status == 200 && |a.data| == 0)
    && (f.stop.Capped? <==> a.status == 200 && |a.data| > 0)
    && (f.stop.Capped? ==> LastRequest(f).offset + limit >= MaxCitations)
  }

  lemma {:induction false} FetchStop(svc: Service, paperId: string, limit: int, offset: int)
    requires 0 < limit
    requires 0 <= offset < MaxCitations
    decreases MaxCitations - offset
    ensures var f := FetchFrom(svc, paperId, limit, offset);
            StoppedBy(f, Answer(svc, paperId, LastRequest(f)), limit)
  {
    var q := Request(offset, Min(limit, MaxCitations - offset));
    FetchStep(svc, paperId, limit, offset);
    if Continues(svc, paperId, limit, offset) {
      FetchStop(svc, paperId, limit, offset + limit);
      var rest := FetchFrom(svc, paperId, limit, offset + limit).requests;
      assert ([q] + rest)[|[q] + rest| - 1] == rest[|rest| - 1];
    }
  }

  lemma RequestedCons(q: Request, rest: seq<Request>)
    ensures Requested([q] + rest) == q.limit + Requested(rest)
  {
    assert ([q] + rest)[1..] == rest;
  }

  /** The requests the loop issues from `offset` on are spaced `limit` apart. */
  lemma {:induction false} FetchSpaced(svc: Service, paperId: string, limit: int, offset: int)
    requires 0 < limit
    requires 0 <= offset < MaxCitations
    decreases MaxCitations - offset
    ensures Spaced(FetchFrom(svc, paperId, limit, offset).requests, limit)
  {
    FetchStep(svc, paperId, limit, offset);
    if Continues(svc, paperId, limit, offset) {
      FetchSpaced(svc, paperId, limit, offset + limit);
      SpacedCons(Request(offset, Min(limit, MaxCitations - offset)),
                 FetchFrom(svc, paperId, limit, offset + limit).requests, limit);
    }
  }

  /** They all lie below the ceiling and ask for no more than remains below it. */
  lemma {:induction false} FetchInRange(svc: Service, paperId: string, limit: int, offset: int)
    requires 0 < limit
    requires 0 <= offset < MaxCitations
    decreases MaxCitations - offset
    ensures InRange(FetchFrom(svc, paperId, limit, offset).requests, offset, limit)
  {
    FetchStep(svc, paperId, limit, offset);
    if Continues(svc, paperId, limit, offset) {
      FetchInRange(svc, paperId, limit, offset + limit);
      InRangeCons(Request(offset, Min(limit, MaxCitations - offset)),
                  FetchFrom(svc, paperId, limit, offset + limit).requests, offset, limit);
    }
  }

  /** Each but the last was answered with a non-empty page and left room for another. */
  lemma {:induction false} FetchContinued(svc: Service, paperId: string, limit: int, offset: int)
    requires 0 < limit
    requires 0 <= offset < MaxCitations
    decreases MaxCitations - offset
    ensures Continued(svc, paperId, FetchFrom(svc, paperId, limit, offset).requests, limit)
  {
    FetchStep(svc, paperId, limit, offset);
    if Continues(svc, paperId, limit, offset) {
      FetchContinued(svc, paperId, limit, offset + limit);
      ContinuedCons(svc, paperId, Request(offset, Min(limit, MaxCitations - offset)),
                    FetchFrom(svc, paperId, limit, offset + limit).requests, limit);
    }
  }

  /** Together they ask for at most the records that remain below the ceiling. */
  lemma {:induction false} FetchRequested(svc: Service, paperId: string, limit: int, offset: int)
    requires 0 < limit
    requires 0 <= offset < MaxCitations
    decreases MaxCitations - offset
    ensures Requested(FetchFrom(svc, paperId, limit, offset).requests) <= MaxCitations - offset
  {
    var q := Request(offset, Min(limit, MaxCitations - offset));
    FetchStep(svc, paperId, limit, offset);
    if Continues(svc, paperId, limit, offset) {
      FetchRequested(svc, paperId, limit, offset + limit);
      RequestedCons(q, FetchFrom(svc, paperId, limit, offset + limit).requests);
    } else {
      RequestedCons(q, []);
      assert [q] + [] == [q];
    }
  }

  /** `get_citations(paper_id, limit)`: paginate from offset 0. */
  function GetCitations(svc: Service, paperId: string, limit: int): (f: Fetch)
    requires 0 < limit
    ensures 1 <= |f.requests| && f.requests[0] == Request(0, Min(limit, MaxCitations))
    ensures InRange(f.requests, 0, limit)
    ensures Requested(f.requests) <= MaxCitations
    ensures f.citations == Replies(svc, paperId, f.requests)
    ensures Spaced(f.requests, limit) && Continued(svc, paperId, f.requests, limit)
    ensures StoppedBy(f, Answer(svc, paperId, LastRequest(f)), limit)
  {
    FetchReplies(svc, paperId, limit, 0);
    FetchStop(svc, paperId, limit, 0);
    FetchSpaced(svc, paperId, limit, 0);
    FetchInRange(svc, paperId, limit, 0);
    FetchContinued(svc, paperId, limit, 0);
    FetchRequested(svc, paperId, limit, 0);
    FetchFrom(svc, paperId, limit, 0)
  }

  /** Request `i` is issued at offset `i * limit`: the offsets are 0, limit, 2 * limit, ... */
  lemma RequestOffsets(svc: Service, paperId: string, limit: int, i: int)
    requires 0 < limit
    requires 0 <= i < |GetCitations(svc, paperId, limit).requests|
    ensures GetCitations(svc, paperId, limit).requests[i].offset == i * limit
  {
    OffsetsArithmetic(GetCitations(svc, paperId, limit).requests, 0, limit, i);
  }

  lemma MulNonNegative(a: int, b: int)
    requires 0 <= a && 0 <= b
    ensures 0 <= a * b
  {
  }

  /** The i-th request of a fetch starting at `offset` is issued at `offset + i * limit`. */
  lemma {:induction false} OffsetsArithmetic(qs: seq<Request>, offset: int, limit: int, i: int)
    requires |qs| > 0 && qs[0].offset == offset
    requires forall k :: 0 <= k < |qs| - 1 ==> qs[k + 1].offset == qs[k].offset + limit
    requires 0 <= i < |qs|
    ensures qs[i].offset == offset + i * limit
  {
    if i > 0 {
      OffsetsArithmetic(qs, offset, limit, i - 1);
      assert offset + (i - 1) * limit + limit == offset + i * limit;
    }
  }

  /** `n` requests spaced `limit` apart from offset 0 and all below the ceiling number at most ceil(9999 / limit). */
  lemma CeilingDivision(n: int, limit: int)
    requires 0 < limit && 1 <= n
    requires (n - 1) * limit < MaxCitations
    ensures n <= (MaxCitations + limit - 1) / limit
  {
    var q := (MaxCitations + limit - 1) / limit;
    var rm := (MaxCitations + limit - 1) % limit;
    assert q * limit + rm == MaxCitations + limit - 1;
    if n > q {
      MulNonNegative(n - 1 - q, limit);
    }
  }

  /** The loop issues at most ceil(9999 / limit) requests. */
  lemma RequestCount(svc: Service, paperId: string, limit: int)
    requires 0 < limit
    ensures |GetCitations(svc, paperId, limit).requests| <= (MaxCitations + limit - 1) / limit
  {
    var n := |GetCitations(svc, paperId, limit).requests|;
    RequestOffsets(svc, paperId, limit, n - 1);
    CeilingDivision(n, limit);
  }

  lemma {:induction false} RepliesBound(svc: Service, paperId: string, qs: seq<Request>)
    requires forall i :: 0 <= i < |qs| ==> |Received(Answer(svc, paperId, qs[i]))| <= qs[i].limit
    ensures |Replies(svc, paperId, qs)| <= Requested(qs)
  {
    if |qs| > 0 {
      RepliesBound(svc, paperId, qs[1..]);
    }
  }

  /** A service that never answers with more records than asked for yields at most 9999. */
  lemma CitationsBounded(svc: Service, paperId: string, limit: int)
    requires 0 < limit
    requires forall o: int, l: nat :: |svc(paperId, o, l).data| <= l
    ensures |GetCitations(svc, paperId, limit).citations| <= MaxCitations
  {
    var f := GetCitations(svc, paperId, limit);
    RepliesBound(svc, paperId, f.requests);
  }
}
