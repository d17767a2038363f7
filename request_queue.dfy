/** search-server/request_queue.h: a wrapper around the search that keeps
    the last day's requests (one per minute) and how many of them found
    nothing. */
module RequestQueues {
  import opened Documents

  /** The window length: a day's worth of requests, one per minute. */
  const MinInDay: nat := 1440

  /** One stored request: the raw query, what the search returned, and
      whether that was nothing. */
  datatype QueryResult = QueryResult(rawQuery: string, result: seq<Document>, isEmpty: bool)

  /** The number of stored requests that found nothing. */
  function CountEmpty(requests: seq<QueryResult>): (n: nat)
    ensures n <= |requests|
    ensures n == 0 <==> forall i | 0 <= i < |requests| :: !requests[i].isEmpty
    decreases |requests|
  {
    if requests == [] then 0
    else (if requests[0].isEmpty then 1 else 0) + CountEmpty(requests[1..])
  }

  lemma {:induction false} CountEmptyAppend(requests: seq<QueryResult>, q: QueryResult)
    ensures CountEmpty(requests + [q]) == CountEmpty(requests) + (if q.isEmpty then 1 else 0)
    decreases |requests|
  {
    if requests != [] {
      assert (requests + [q])[1..] == requests[1..] + [q];
      CountEmptyAppend(requests[1..], q);
    }
  }

  /** The stored requests after one more: when a full day is stored, the
      oldest (the front) is dropped, and the new one goes to the back. */
  function Slide(requests: seq<QueryResult>, q: QueryResult): seq<QueryResult>
  {
    (if |requests| == MinInDay then requests[1..] else requests) + [q]
  }

  /** The window never outgrows a day, grows by one until it is full, and
      then keeps its length. */
  lemma SlideLength(requests: seq<QueryResult>, q: QueryResult)
    requires |requests| <= MinInDay
    ensures |Slide(requests, q)| <= MinInDay
    ensures |Slide(requests, q)| == if |requests| < MinInDay then |requests| + 1 else MinInDay
  {
  }

  /** First in, first out: the window is a suffix of the old window
      followed by the new request, with the new request last. */
  lemma SlideFifo(requests: seq<QueryResult>, q: QueryResult)
    ensures var w := Slide(requests, q);
      |w| >= 1 && w[|w| - 1] == q && w == (requests + [q])[|requests| + 1 - |w|..]
  {
  }

  /** The running counter's two adjustments keep it equal to the count of
      empty results in the window. */
  lemma SlideCount(requests: seq<QueryResult>, q: QueryResult)
    ensures CountEmpty(Slide(requests, q)) ==
      CountEmpty(requests) + (if q.isEmpty then 1 else 0)
      - (if |requests| == MinInDay && requests[0].isEmpty then 1 else 0)
  {
    var kept := if |requests| == MinInDay then requests[1..] else requests;
    CountEmptyAppend(kept, q);
  }

  /** The window after a whole history of requests, starting empty. */
  function Replay(history: seq<QueryResult>): seq<QueryResult>
    decreases |history|
  {
    if history == [] then []
    else Slide(Replay(history[..|history| - 1]), history[|history| - 1])
  }

  /** The last day of a history: its last MinInDay requests, or all of them. */
  function LastDay(history: seq<QueryResult>): seq<QueryResult>
  {
    if |history| <= MinInDay then history else history[|history| - MinInDay..]
  }

  /** Whatever the history, the queue holds exactly its last day, in order. */
  lemma {:induction false} ReplayIsLastDay(history: seq<QueryResult>)
    ensures Replay(history) == LastDay(history)
    decreases |history|
  {
    if history != [] {
      var init, q := history[..|history| - 1], history[|history| - 1];
      ReplayIsLastDay(init);
      assert history == init + [q];
      if |init| >= MinInDay {
        assert LastDay(init)[1..] + [q] == history[|history| - MinInDay..];
      }
    }
  }

  class RequestQueue {
    var requests: seq<QueryResult>
    var emptyNum: int

    /** At most a day is stored, and the counter counts its empty results. */
    ghost predicate Valid()
      reads this
    {
      |requests| <= MinInDay && emptyNum == CountEmpty(requests)
    }

    /** A queue that has seen no request. */
    constructor ()
      ensures Valid()
      ensures requests == [] && emptyNum == 0
    {
      requests := [];
      emptyNum := 0;
    }

    /** AddFindRequest: `result` is what the server's FindTopDocuments
        returned for `rawQuery`. The counter goes up for an empty result
        before the oldest request is evicted, and the result is handed back
        unchanged. */
    method AddFindRequest(rawQuery: string, result: seq<Document>) returns (r: seq<Document>)
      requires Valid()
      modifies this
      ensures Valid()
      ensures r == result
      ensures requests == Slide(old(requests), QueryResult(rawQuery, result, result == []))
    {
      ghost var before := requests;
      if result == [] {
        emptyNum := emptyNum + 1;
      }
      if |requests| == MinInDay {
        if requests[0].isEmpty {
          emptyNum := emptyNum - 1;
        }
        requests := requests[1..];
      }
      requests := requests + [QueryResult(rawQuery, result, result == [])];
      SlideCount(before, QueryResult(rawQuery, result, result == []));
      return result;
    }

    /** The number of stored requests that found nothing. */
    function GetNoResultRequests(): (n: int)
      reads this
      requires Valid()
      ensures n == CountEmpty(requests)
      ensures 0 <= n <= |requests| <= MinInDay
    {
      emptyNum
    }
  }
}
