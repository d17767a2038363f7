/** search-server/process_queries.cpp: answering a batch of queries, one
    result list per query, and the same results flattened into one list.
    The server's FindTopDocuments (with its default filter, documents whose
    status is Actual) is the parameter `findTop`. */
module Queries {
  import opened Documents

  /** The answers to the queries, in query order. */
  function Answers(findTop: string -> seq<Document>, queries: seq<string>): seq<seq<Document>>
    decreases |queries|
  {
    if queries == [] then []
    else Answers(findTop, queries[..|queries| - 1]) + [findTop(queries[|queries| - 1])]
  }

  /** One answer per query, the i-th answering the i-th query. */
  lemma {:induction false} AnswersPointwise(findTop: string -> seq<Document>, queries: seq<string>)
    ensures |Answers(findTop, queries)| == |queries|
    ensures forall i | 0 <= i < |queries| :: Answers(findTop, queries)[i] == findTop(queries[i])
    decreases |queries|
  {
    if queries != [] {
      AnswersPointwise(findTop, queries[..|queries| - 1]);
    }
  }

  /** The lists one after another, each keeping its own order. */
  function Flatten(lists: seq<seq<Document>>): seq<Document>
    decreases |lists|
  {
    if lists == [] then [] else Flatten(lists[..|lists| - 1]) + lists[|lists| - 1]
  }

  /** The total length of the lists. */
  function TotalLength(lists: seq<seq<Document>>): nat
    decreases |lists|
  {
    if lists == [] then 0 else TotalLength(lists[..|lists| - 1]) + |lists[|lists| - 1]|
  }

  lemma {:induction false} FlattenLength(lists: seq<seq<Document>>)
    ensures |Flatten(lists)| == TotalLength(lists)
    decreases |lists|
  {
    if lists != [] {
      FlattenLength(lists[..|lists| - 1]);
    }
  }

  /** Flattening two batches is flattening each and concatenating. */
  lemma {:induction false} FlattenAppend(a: seq<seq<Document>>, b: seq<seq<Document>>)
    ensures Flatten(a + b) == Flatten(a) + Flatten(b)
    decreases |b|
  {
    if b == [] {
      assert a + b == a;
    } else {
      var init := b[..|b| - 1];
      assert (a + b)[..|a + b| - 1] == a + init;
      FlattenAppend(a, init);
      assert Flatten(a + b) == (Flatten(a) + Flatten(init)) + b[|b| - 1];
    }
  }

  /** Element j of list i sits after all elements of the lists before it. */
  lemma {:induction false} FlattenPosition(lists: seq<seq<Document>>, i: nat, j: nat)
    requires i < |lists| && j < |lists[i]|
    ensures TotalLength(lists[..i]) + j < |Flatten(lists)|
    ensures Flatten(lists)[TotalLength(lists[..i]) + j] == lists[i][j]
    decreases |lists|
  {
    var init := lists[..|lists| - 1];
    FlattenLength(init);
    if i == |lists| - 1 {
      assert lists[..i] == init;
    } else {
      assert init[..i] == lists[..i];
      FlattenPosition(init, i, j);
    }
  }

  /** ProcessQueries: a result vector of one empty list per query, filled
      position by position. */
  method ProcessQueries(findTop: string -> seq<Document>, queries: seq<string>) returns (res: seq<seq<Document>>)
    ensures res == Answers(findTop, queries)
    ensures |res| == |queries|
    ensures forall i | 0 <= i < |queries| :: res[i] == findTop(queries[i])
  {
    var slots := new seq<Document>[|queries|](_ => []);
    for i := 0 to |queries|
      invariant forall k | 0 <= k < i :: slots[k] == findTop(queries[k])
    {
      slots[i] := findTop(queries[i]);
    }
    res := slots[..];
    AnswersPointwise(findTop, queries);
  }

  /** ProcessQueriesJoined: the batch's results appended one list at a time. */
  method ProcessQueriesJoined(findTop: string -> seq<Document>, queries: seq<string>) returns (res: seq<Document>)
    ensures res == Flatten(Answers(findTop, queries))
    ensures |res| == TotalLength(Answers(findTop, queries))
  {
    var answers := ProcessQueries(findTop, queries);
    res := [];
    for i := 0 to |answers|
      invariant res == Flatten(answers[..i])
    {
      assert answers[..i + 1][..i] == answers[..i];
      res := res + answers[i];
    }
    assert answers[..|answers|] == answers;
    FlattenLength(answers);
  }

  /** No queries, no results. */
  lemma EmptyBatch(findTop: string -> seq<Document>)
    ensures Answers(findTop, []) == [] && Flatten(Answers(findTop, [])) == []
  {
  }
}
