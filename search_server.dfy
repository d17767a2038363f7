/** search-server/search_server.cpp: the SearchServer index engine. The
    object keeps the document metadata, the ordered id list and the two
    indices; adding and removing documents update them in place. */
module Server {
  import opened Results
  import opened Documents
  import opened Seqs
  import opened Lexicographic
  import opened Index

  /** A documents_ entry: the stored text, the average rating, the status. */
  datatype DocumentData = DocumentData(text: string, rating: int, status: DocumentStatus)

  /** A parsed query token: its text without the sign, whether it had a
      leading '-', and whether it is a stop word. */
  datatype QueryWord = QueryWord(data: string, isMinus: bool, isStop: bool)

  /** The plus and the minus words of a query, each a std::set kept in
      iteration order. */
  datatype Query = Query(plusWords: seq<string>, minusWords: seq<string>)

  // ---------------------------------------------------------------------
  // Words

  /** IsValidWord: a word is valid iff none of its characters has a code
      below 0x20 (the control characters). */
  function IsValidWord(word: string): (valid: bool)
    ensures valid <==> forall i | 0 <= i < |word| :: word[i] >= ' '
    decreases |word|
  {
    |word| == 0 || (word[0] >= ' ' && IsValidWord(word[1..]))
  }

  /** IsStopWord: `count(word) > 0` on the stop-word set, that is,
      membership. */
  predicate IsStopWord(stopWords: set<string>, word: string): (stop: bool)
    ensures stop <==> |stopWords * {word}| > 0
  {
    word in stopWords
  }

  /** What SplitIntoWordsNoStop returns for the words the splitter produced:
      invalid_argument at the first invalid word, stop word or not;
      otherwise the words that are not stop words, in order. */
  function NoStopWords(words: seq<string>, stopWords: set<string>): Result<seq<string>>
    decreases |words|
  {
    if words == [] then Ok([])
    else
      match NoStopWords(words[..|words| - 1], stopWords)
      case Err(e) => Err(e)
      case Ok(kept) =>
        var w := words[|words| - 1];
        if !IsValidWord(w) then Err(InvalidArgument)
        else if IsStopWord(stopWords, w) then Ok(kept)
        else Ok(kept + [w])
  }

  /** Splitting fails iff some word is invalid, and then with
      invalid_argument; otherwise the result keeps every occurrence of each
      non-stop word and nothing else. */
  lemma {:induction false} NoStopWordsSpec(words: seq<string>, stopWords: set<string>)
    ensures NoStopWords(words, stopWords).Ok? <==> forall i | 0 <= i < |words| :: IsValidWord(words[i])
    ensures NoStopWords(words, stopWords).Err? ==> NoStopWords(words, stopWords).error == InvalidArgument
    ensures NoStopWords(words, stopWords).Ok? ==>
      var kept := NoStopWords(words, stopWords).value;
      && (forall w :: w in kept <==> w in words && w !in stopWords)
      && (forall w | w !in stopWords :: Count(kept, w) == Count(words, w))
    decreases |words|
  {
    if words != [] {
      var init, last := words[..|words| - 1], words[|words| - 1];
      NoStopWordsSpec(init, stopWords);
      assert words == init + [last];
      assert forall w :: w in words <==> w in init || w == last;
      if NoStopWords(words, stopWords).Ok? {
        var kept := NoStopWords(init, stopWords).value;
        forall w | w !in stopWords ensures Count(NoStopWords(words, stopWords).value, w) == Count(words, w) {
          if last !in stopWords {
            assert (kept + [last])[..|kept|] == kept;
          }
        }
      }
    }
  }

  /** The words are filtered one by one and pushed back in order:
      splitting a concatenation succeeds iff both halves do, and then keeps
      the words of the first half followed by those of the second. */
  lemma {:induction false} NoStopWordsAppend(a: seq<string>, b: seq<string>, stopWords: set<string>)
    ensures NoStopWords(a + b, stopWords).Ok? <==> NoStopWords(a, stopWords).Ok? && NoStopWords(b, stopWords).Ok?
    ensures NoStopWords(a + b, stopWords).Ok? ==>
      NoStopWords(a + b, stopWords).value == NoStopWords(a, stopWords).value + NoStopWords(b, stopWords).value
    decreases |b|
  {
    if b == [] {
      assert a + b == a;
    } else {
      var init, last := b[..|b| - 1], b[|b| - 1];
      var s := a + b;
      assert s[..|s| - 1] == a + init && s[|s| - 1] == last;
      NoStopWordsAppend(a, init, stopWords);
      if NoStopWords(a + init, stopWords).Ok? && IsValidWord(last) && !IsStopWord(stopWords, last) {
        AppendAssoc(NoStopWords(a, stopWords).value, NoStopWords(init, stopWords).value, [last]);
      }
    }
  }

  // ---------------------------------------------------------------------
  // Ratings

  /** Sum of the ratings, in unbounded integers. */
  function Sum(s: seq<int>): int
    decreases |s|
  {
    if s == [] then 0 else Sum(s[..|s| - 1]) + s[|s| - 1]
  }

  /** C++ `/` on int for a positive divisor: the quotient truncated toward zero. */
  function TruncDiv(a: int, n: int): int
    requires n > 0
  {
    if a >= 0 then a / n else -((-a) / n)
  }

  /** The quotient is truncated toward zero: the remainder a - q*n has the
      sign of a and is smaller than n in magnitude. */
  lemma TruncDivSpec(a: int, n: int)
    requires n > 0
    ensures a >= 0 ==> 0 <= a - TruncDiv(a, n) * n < n
    ensures a < 0 ==> -n < a - TruncDiv(a, n) * n <= 0
  {
    if a < 0 {
      var p := (-a) / n;
      assert p * n <= -a < p * n + n;
      assert TruncDiv(a, n) * n == -(p * n);
    }
  }

  /** The stored rating: 0 for no ratings, otherwise the sum divided by
      the count, truncated toward zero. */
  function AverageRating(ratings: seq<int>): int
  {
    if |ratings| == 0 then 0 else TruncDiv(Sum(ratings), |ratings|)
  }

  lemma {:induction false} SumBounds(s: seq<int>, lo: int, hi: int)
    requires forall i | 0 <= i < |s| :: lo <= s[i] <= hi
    ensures lo * |s| <= Sum(s) <= hi * |s|
    decreases |s|
  {
    if s != [] {
      SumBounds(s[..|s| - 1], lo, hi);
      assert lo * |s| == lo * (|s| - 1) + lo;
      assert hi * |s| == hi * (|s| - 1) + hi;
    }
  }

  /** Integer helper: cancelling a positive factor, where
      AverageRatingBounds bounds the truncated quotient by the extremes. */
  lemma MulLess(x: int, y: int, n: int)
    requires n > 0 && x * n < y * n
    ensures x < y
  {
  }

  /** The average lies between the smallest and the largest rating. */
  lemma AverageRatingBounds(ratings: seq<int>, lo: int, hi: int)
    requires |ratings| > 0
    requires forall i | 0 <= i < |ratings| :: lo <= ratings[i] <= hi
    ensures lo <= AverageRating(ratings) <= hi
  {
    var n, a := |ratings|, Sum(ratings);
    var q := TruncDiv(a, n);
    SumBounds(ratings, lo, hi);
    TruncDivSpec(a, n);
    assert (q + 1) * n == q * n + n;
    assert (q - 1) * n == q * n - n;
    assert (hi + 1) * n == hi * n + n;
    if a >= 0 {
      MulLess(lo, q + 1, n);
      MulLess(q, hi + 1, n);
    } else {
      MulLess(q - 1, hi, n);
      MulLess(lo, q + 1, n);
    }
  }

  /** Truncation toward zero, not floor: [-3, -4] averages to -3, and the
      ratings of a sample corpus average to 2, 5 and -1. */
  lemma AverageRatingExamples()
    ensures AverageRating([-3, -4]) == -3
    ensures AverageRating([8, -3]) == 2
    ensures AverageRating([7, 2, 7]) == 5
    ensures AverageRating([5, -12, 2, 1]) == -1
    ensures AverageRating([]) == 0
  {
    assert Sum([-3, -4]) == -7 by { assert [-3, -4][..1] == [-3]; assert [-3][..0] == []; }
    assert Sum([8, -3]) == 5 by { assert [8, -3][..1] == [8]; assert [8][..0] == []; }
    assert Sum([7, 2, 7]) == 16 by {
      assert [7, 2, 7][..2] == [7, 2]; assert [7, 2][..1] == [7]; assert [7][..0] == [];
    }
    assert Sum([5, -12, 2, 1]) == -4 by {
      assert [5, -12, 2, 1][..3] == [5, -12, 2]; assert [5, -12, 2][..2] == [5, -12];
      assert [5, -12][..1] == [5]; assert [5][..0] == [];
    }
  }

  // ---------------------------------------------------------------------
  // Queries

  /** A term: non-empty, not starting with '-', and valid. */
  predicate IsTerm(t: string)
  {
    |t| > 0 && t[0] != '-' && IsValidWord(t)
  }

  /** The token a query word is read from. */
  function Render(q: QueryWord): string
  {
    if q.isMinus then "-" + q.data else q.data
  }

  /** ParseQueryWord: an empty token, a lone '-', a token starting "--" and
      a token with a control character throw invalid_argument; otherwise
      one leading '-' is stripped and marks a minus word. */
  function ParseQueryWord(text: string, stopWords: set<string>): (r: Result<QueryWord>)
    ensures r.Ok? ==> IsTerm(r.value.data) && Render(r.value) == text
    ensures r.Ok? ==> r.value.isStop == (r.value.data in stopWords)
    ensures r.Err? ==> r.error == InvalidArgument
    ensures text == "" || text == "-" || (|text| >= 2 && text[..2] == "--") || !IsValidWord(text) ==> r.Err?
  {
    if |text| == 0 then Err(InvalidArgument)
    else
      var isMinus := text[0] == '-';
      var t := if isMinus then text[1..] else text;
      if |t| == 0 || t[0] == '-' || !IsValidWord(t) then Err(InvalidArgument)
      else
        assert isMinus ==> text == "-" + t;
        Ok(QueryWord(t, isMinus, IsStopWord(stopWords, t)))
  }

  /** Every rendering of a term parses back to that word: with the
      contract above, a token parses iff it is '-'? followed by a term. */
  lemma ParseQueryWordRender(q: QueryWord, stopWords: set<string>)
    requires IsTerm(q.data)
    ensures ParseQueryWord(Render(q), stopWords) == Ok(q.(isStop := q.data in stopWords))
  {
    if q.isMinus {
      assert Render(q)[1..] == q.data;
    }
  }

  /** Adds a parsed word to a query; stop words are dropped. */
  function AddQueryWord(query: Query, word: QueryWord): Query
    requires IsSortedSet(query.plusWords) && IsSortedSet(query.minusWords)
  {
    if word.isStop then query
    else if word.isMinus then query.(minusWords := Insert(query.minusWords, word.data))
    else query.(plusWords := Insert(query.plusWords, word.data))
  }

  /** What ParseQuery returns for the tokens the splitter produced. */
  function ParseTokens(tokens: seq<string>, stopWords: set<string>): (r: Result<Query>)
    ensures r.Ok? ==> IsSortedSet(r.value.plusWords) && IsSortedSet(r.value.minusWords)
    decreases |tokens|
  {
    if tokens == [] then Ok(Query([], []))
    else
      match ParseTokens(tokens[..|tokens| - 1], stopWords)
      case Err(e) => Err(e)
      case Ok(query) =>
        match ParseQueryWord(tokens[|tokens| - 1], stopWords)
        case Err(e) => Err(e)
        case Ok(word) => Ok(AddQueryWord(query, word))
  }

  /** A query parses iff every token does, else invalid_argument. The plus
      words are exactly the non-stop terms written without '-', the minus
      words exactly the non-stop terms written after one '-'. */
  lemma {:induction false} ParseTokensSpec(tokens: seq<string>, stopWords: set<string>)
    ensures ParseTokens(tokens, stopWords).Ok? <==> forall i | 0 <= i < |tokens| :: ParseQueryWord(tokens[i], stopWords).Ok?
    ensures ParseTokens(tokens, stopWords).Err? ==> ParseTokens(tokens, stopWords).error == InvalidArgument
    ensures ParseTokens(tokens, stopWords).Ok? ==> forall w ::
      w in ParseTokens(tokens, stopWords).value.plusWords <==> (w !in stopWords && IsTerm(w) && w in tokens)
    ensures ParseTokens(tokens, stopWords).Ok? ==> forall w ::
      w in ParseTokens(tokens, stopWords).value.minusWords <==> (w !in stopWords && IsTerm(w) && "-" + w in tokens)
    decreases |tokens|
  {
    if tokens != [] {
      var init, last := tokens[..|tokens| - 1], tokens[|tokens| - 1];
      ParseTokensSpec(init, stopWords);
      assert tokens == init + [last];
      assert forall t :: t in tokens <==> t in init || t == last;
      if ParseTokens(tokens, stopWords).Ok? {
        var word := ParseQueryWord(last, stopWords).value;
        assert IsTerm(word.data) && Render(word) == last;
        assert word.isMinus ==> last[0] == '-' && last[1..] == word.data;
        assert !word.isMinus ==> last == word.data;
        forall w ensures ("-" + w == last) <==> (w == word.data && word.isMinus) {
          assert ("-" + w)[0] == '-' && ("-" + w)[1..] == w;
        }
      }
    }
  }

  /** The posting list of `w` contains the document. */
  predicate InPostings(index: Inverted, w: string, id: int)
  {
    w in index && id in index[w]
  }

  /** The first n words of `words` whose posting list contains the
      document, in order. */
  function Matching(words: seq<string>, n: nat, index: Inverted, id: int): seq<string>
    requires n <= |words|
    decreases n
  {
    if n == 0 then []
    else
      var init := Matching(words, n - 1, index, id);
      if InPostings(index, words[n - 1], id) then init + [words[n - 1]] else init
  }

  /** The words MatchDocument reports: none when a minus word's posting list
      contains the document, else the plus words whose list does. */
  function MatchedWords(index: Inverted, query: Query, id: int): seq<string>
  {
    if exists i | 0 <= i < |query.minusWords| :: InPostings(index, query.minusWords[i], id) then []
    else Matching(query.plusWords, |query.plusWords|, index, id)
  }

  /** Filtering keeps the order, and keeps exactly the words whose posting
      list contains the document. */
  lemma {:induction false} MatchingSpec(words: seq<string>, n: nat, index: Inverted, id: int)
    requires n <= |words| && IsSortedSet(words)
    ensures IsSortedSet(Matching(words, n, index, id))
    ensures forall w :: w in Matching(words, n, index, id) <==> w in words[..n] && InPostings(index, w, id)
    decreases n
  {
    if n > 0 {
      MatchingSpec(words, n - 1, index, id);
      assert words[..n] == words[..n - 1] + [words[n - 1]];
      assert forall w :: w in words[..n] <==> w in words[..n - 1] || w == words[n - 1];
      var m := Matching(words, n - 1, index, id);
      forall i | 0 <= i < |m| ensures Less(m[i], words[n - 1]) {
        assert m[i] in m;
        var k :| 0 <= k < n - 1 && words[..n - 1][k] == m[i];
      }
    }
  }

  /** In terms of the forward index: a document matches nothing when it
      contains a minus word; otherwise the result is the plus words the
      document contains, in the query's (sorted) order. */
  lemma MatchedWordsSpec(fwd: Forward, inv: Inverted, query: Query, id: int)
    requires Agree(fwd, inv)
    requires IsSortedSet(query.plusWords)
    ensures (exists w :: w in query.minusWords && id in fwd && w in fwd[id]) ==> MatchedWords(inv, query, id) == []
    ensures (forall w | w in query.minusWords :: !(id in fwd && w in fwd[id])) ==>
      forall w :: w in MatchedWords(inv, query, id) <==> w in query.plusWords && id in fwd && w in fwd[id]
    ensures IsSortedSet(MatchedWords(inv, query, id))
  {
    MatchingSpec(query.plusWords, |query.plusWords|, inv, id);
    assert query.plusWords[..|query.plusWords|] == query.plusWords;
    if exists w :: w in query.minusWords && id in fwd && w in fwd[id] {
      var w :| w in query.minusWords && id in fwd && w in fwd[id];
      var i :| 0 <= i < |query.minusWords| && query.minusWords[i] == w;
      assert InPostings(inv, query.minusWords[i], id);
    }
  }

  /** The document predicate of the status overloads of FindTopDocuments:
      a document passes iff its status is the requested one. */
  function StatusPredicate(status: DocumentStatus): (keep: (int, DocumentStatus, int) -> bool)
    ensures forall id, s, rating :: keep(id, s, rating) <==> s == status
  {
    (id: int, s: DocumentStatus, rating: int) => s == status
  }

  /** The overloads without a status keep the ACTUAL documents. */
  function DefaultPredicate(): (keep: (int, DocumentStatus, int) -> bool)
    ensures forall id, s, rating :: keep(id, s, rating) <==> s == Actual
  {
    StatusPredicate(Actual)
  }

  /** The copy_if of the parallel MatchDocument: the words whose posting
      list contains the document are copied, in order, into a buffer of
      |words| slots, which is then cut after the last copied word. */
  method CopyMatching(words: seq<string>, index: Inverted, id: int) returns (matched: seq<string>)
    ensures matched == Matching(words, |words|, index, id)
  {
    var buffer := new string[|words|];
    var end := 0;
    for i := 0 to |words|
      invariant 0 <= end <= i
      invariant buffer[..end] == Matching(words, i, index, id)
    {
      var word := words[i];
      if InPostings(index, word, id) {
        buffer[end] := word;
        end := end + 1;
      }
    }
    matched := buffer[..end];
  }

  /** The two loops of the sequential MatchDocument: the first minus word
      whose posting list contains the document ends the match with no
      words; otherwise the plus words whose list contains it are collected. */
  method MatchWords(index: Inverted, query: Query, id: int) returns (matched: seq<string>)
    ensures matched == MatchedWords(index, query, id)
  {
    matched := [];
    for i := 0 to |query.minusWords|
      invariant forall k | 0 <= k < i :: !InPostings(index, query.minusWords[k], id)
    {
      var word := query.minusWords[i];
      if word !in index {
        continue;
      }
      if id in index[word] {
        return;
      }
    }
    for i := 0 to |query.plusWords|
      invariant matched == Matching(query.plusWords, i, index, id)
    {
      var word := query.plusWords[i];
      if word !in index {
        continue;
      }
      if id in index[word] {
        matched := matched + [word];
      }
    }
  }

  /** The loop of the sequential RemoveDocument: the document is erased
      from the posting list of each of its words, one word at a time. */
  method EraseEverywhere(index: Inverted, id: int, words: set<string>) returns (erased: Inverted)
    requires words <= index.Keys
    ensures erased == RemoveRow(index, id, words)
  {
    erased := index;
    RemoveRowEmpty(index, id);
    var todo := words;
    while todo != {}
      invariant todo <= words
      invariant erased == RemoveRow(index, id, words - todo)
      decreases todo
    {
      var word :| word in todo;
      RemoveRowStep(index, id, words - todo, word);
      assert (words - todo) + {word} == words - (todo - {word});
      // word_to_document_freqs_.at(word): present, as the indices agree
      erased := erased[word := erased[word] - {id}];
      todo := todo - {word};
    }
  }

  /** The for_each of the parallel RemoveDocument over the copied words,
      which are distinct because they are the keys of a map. */
  method EraseEach(index: Inverted, id: int, words: seq<string>) returns (erased: Inverted)
    requires Distinct(words)
    requires forall i | 0 <= i < |words| :: words[i] in index
    ensures erased == RemoveRow(index, id, Elements(words))
  {
    erased := index;
    RemoveRowEmpty(index, id);
    for i := 0 to |words|
      invariant erased == RemoveRow(index, id, Elements(words[..i]))
    {
      var word := words[i];
      assert word !in Elements(words[..i]);
      RemoveRowStep(index, id, Elements(words[..i]), word);
      assert Elements(words[..i + 1]) == Elements(words[..i]) + {word} by {
        assert words[..i + 1] == words[..i] + [word];
      }
      erased := erased[word := erased[word] - {id}];
    }
    assert words[..|words|] == words;
  }

  /** The loop of AddDocument for a document with at least one non-stop
      word: each occurrence adds the step (1/|words| there) to the
      document's entry for that word in both indices, inserting the entry
      at 0 first when it is missing. */
  method IndexWords(fwd: Forward, inv: Inverted, id: int, words: seq<string>, invWordCount: real)
    returns (fwd': Forward, inv': Inverted)
    requires id !in fwd
    requires forall w :: id !in PostingsOf(inv, w)
    ensures |words| > 0 ==> fwd' == fwd[id := Freqs(words, |words|, invWordCount)]
    ensures inv' == AddRow(inv, id, Freqs(words, |words|, invWordCount))
  {
    fwd', inv' := fwd, inv;
    AddRowEmpty(inv, id);
    for i := 0 to |words|
      invariant i == 0 ==> fwd' == fwd
      invariant i > 0 ==> fwd' == fwd[id := Freqs(words, i, invWordCount)]
      invariant inv' == AddRow(inv, id, Freqs(words, i, invWordCount))
    {
      var word := words[i];
      AddOccurrence(inv, id, words, i, invWordCount);
      ForwardOccurrence(fwd, fwd', id, words, i, invWordCount);
      // operator[] inserts an empty entry for a new key
      var postings := PostingsOf(inv', word);
      var tf := if id in postings then postings[id] else 0.0;
      inv' := inv'[word := postings[id := tf + invWordCount]];
      var row := if id in fwd' then fwd'[id] else map[];
      var freq := if word in row then row[word] else 0.0;
      fwd' := fwd'[id := row[word := freq + invWordCount]];
    }
  }

  // ---------------------------------------------------------------------
  // The server's invariant

  /** The id list holds each stored document once, and ids are non-negative. */
  ghost predicate IdsConsistent(documents: map<int, DocumentData>, ids: seq<int>)
  {
    && Distinct(ids)
    && (forall id :: id in ids <==> id in documents)
    && (forall id | id in documents :: id >= 0)
  }

  /** Besides that, every forward row is non-empty and belongs to a stored
      document, and the two indices hold the same triples. */
  ghost predicate Consistent(documents: map<int, DocumentData>, ids: seq<int>, fwd: Forward, inv: Inverted)
  {
    && IdsConsistent(documents, ids)
    && (forall id | id in fwd :: id in documents && fwd[id] != map[])
    && Agree(fwd, inv)
  }

  /** Registering a new non-negative id with its metadata keeps the invariant. */
  lemma RegisterConsistent(documents: map<int, DocumentData>, ids: seq<int>, fwd: Forward, inv: Inverted,
                           id: int, data: DocumentData)
    requires Consistent(documents, ids, fwd, inv)
    requires id >= 0 && id !in documents
    ensures Consistent(documents[id := data], ids + [id], fwd, inv)
    ensures id !in fwd && forall w :: id !in PostingsOf(inv, w)
  {
    assert id !in ids;
  }

  /** Indexing the words of a registered document without a row keeps the
      invariant. */
  lemma IndexConsistent(documents: map<int, DocumentData>, ids: seq<int>, fwd: Forward, inv: Inverted,
                        id: int, words: seq<string>)
    requires Consistent(documents, ids, fwd, inv)
    requires id in documents && id !in fwd && |words| > 0
    ensures Consistent(documents, ids, fwd[id := TermFreqs(words)], AddRow(inv, id, TermFreqs(words)))
  {
    AddRowAgree(fwd, inv, id, TermFreqs(words));
    assert words[0] in TermFreqs(words);
  }

  /** Erasing a document with a row from the indices, the metadata and the
      id list keeps the invariant. */
  lemma EraseConsistent(documents: map<int, DocumentData>, ids: seq<int>, fwd: Forward, inv: Inverted, id: int)
    requires Consistent(documents, ids, fwd, inv)
    requires id in fwd
    ensures Consistent(documents - {id}, Erase(ids, id), fwd - {id}, RemoveRow(inv, id, fwd[id].Keys))
  {
    RemoveRowAgree(fwd, inv, id);
    EraseDistinct(ids, id);
  }

  // ---------------------------------------------------------------------
  // The server

  class SearchServer {
    const stopWords: set<string>
    /** SplitIntoWordsView, which is not part of this model: any splitter. */
    const splitter: string -> seq<string>
    var documents: map<int, DocumentData>
    var documentIds: seq<int>
    var wordToDocumentFreqs: Inverted
    var documentToWordFreqs: Forward

    /** The object invariant (see Consistent). */
    ghost predicate Valid()
      reads this
    {
      Consistent(documents, documentIds, documentToWordFreqs, wordToDocumentFreqs)
    }

    /** The part of the invariant about the id list and the metadata. */
    ghost predicate IdsValid()
      reads this
    {
      IdsConsistent(documents, documentIds)
    }

    /** A server with no documents. */
    constructor(stopWords: set<string>, splitter: string -> seq<string>)
      ensures Valid()
      ensures this.stopWords == stopWords && this.splitter == splitter
      ensures documents == map[] && documentIds == []
      ensures wordToDocumentFreqs == map[] && documentToWordFreqs == map[]
    {
      this.stopWords := stopWords;
      this.splitter := splitter;
      documents := map[];
      documentIds := [];
      wordToDocumentFreqs := map[];
      documentToWordFreqs := map[];
    }

    /** GetDocumentCount: the number of stored documents, which is the
        length of the id list. */
    function GetDocumentCount(): (count: nat)
      reads this
      requires Valid()
      ensures count == |documentIds|
    {
      assert forall id :: id in documents.Keys <==> id in documentIds;
      assert documents.Keys == Elements(documentIds);
      DistinctCard(documentIds);
      |documents|
    }

    /** GetWordFrequencies: the document's forward row, or the empty map for
        a document without one; never fails. The row is the document's
        column of the inverted index. */
    function GetWordFrequencies(id: int): (row: Row)
      reads this
      requires Valid()
      ensures id !in documents ==> row == map[]
      ensures forall w :: w in row <==> InPostings(wordToDocumentFreqs, w, id)
      ensures forall w | w in row :: InPostings(wordToDocumentFreqs, w, id) && row[w] == wordToDocumentFreqs[w][id]
    {
      if id in documentToWordFreqs then documentToWordFreqs[id] else map[]
    }

    /** ComputeAverageRating: the loop sums the ratings, then divides. */
    static method ComputeAverageRating(ratings: seq<int>) returns (rating: int)
      ensures rating == AverageRating(ratings)
    {
      if |ratings| == 0 {
        return 0;
      }
      var ratingSum := 0;
      for i := 0 to |ratings|
        invariant ratingSum == Sum(ratings[..i])
      {
        assert ratings[..i + 1][..i] == ratings[..i];
        ratingSum := ratingSum + ratings[i];
      }
      assert ratings[..|ratings|] == ratings;
      rating := TruncDiv(ratingSum, |ratings|);
    }

    /** SplitIntoWordsNoStop. */
    method SplitIntoWordsNoStop(text: string) returns (r: Result<seq<string>>)
      ensures r == NoStopWords(splitter(text), stopWords)
    {
      var all := splitter(text);
      var words := [];
      for i := 0 to |all|
        invariant NoStopWords(all[..i], stopWords) == Ok(words)
      {
        var word := all[i];
        assert all[..i + 1][..i] == all[..i];
        if !IsValidWord(word) {
          NoStopWordsSpec(all, stopWords);
          return Err(InvalidArgument);
        }
        if !IsStopWord(stopWords, word) {
          words := words + [word];
        }
      }
      assert all[..|all|] == all;
      return Ok(words);
    }

    /** ParseQuery. */
    method ParseQuery(text: string) returns (r: Result<Query>)
      ensures r == ParseTokens(splitter(text), stopWords)
    {
      var tokens := splitter(text);
      var query := Query([], []);
      for i := 0 to |tokens|
        invariant ParseTokens(tokens[..i], stopWords) == Ok(query)
      {
        assert tokens[..i + 1][..i] == tokens[..i];
        var word := ParseQueryWord(tokens[i], stopWords);
        if word.Err? {
          ParseTokensSpec(tokens, stopWords);
          return Err(word.error);
        }
        if !word.value.isStop {
          if word.value.isMinus {
            query := query.(minusWords := Insert(query.minusWords, word.value.data));
          } else {
            query := query.(plusWords := Insert(query.plusWords, word.value.data));
          }
        }
      }
      assert tokens[..|tokens|] == tokens;
      return Ok(query);
    }

    /** AddDocument. A negative or known id throws before anything changes.
        Otherwise the id and the metadata are stored first; an invalid word
        then throws with the indices untouched, leaving the document
        registered without words. On success each non-stop word w gets
        tf = occurrences / number of non-stop words in both indices; a
        document without such words gets no forward row. */
    method AddDocument(id: int, text: string, status: DocumentStatus, ratings: seq<int>) returns (r: Outcome)
      requires Valid()
      modifies this
      ensures Valid()
      ensures id < 0 || id in old(documents) ==> r == Fail(InvalidArgument) && unchanged(this)
      ensures id >= 0 && id !in old(documents) ==>
        && documentIds == old(documentIds) + [id]
        && documents == old(documents)[id := DocumentData(text, AverageRating(ratings), status)]
        && GetDocumentCount() == old(GetDocumentCount()) + 1
      ensures id >= 0 && id !in old(documents) ==>
        match NoStopWords(splitter(text), stopWords)
        case Err(e) =>
          && r == Fail(e)
          && wordToDocumentFreqs == old(wordToDocumentFreqs)
          && documentToWordFreqs == old(documentToWordFreqs)
        case Ok(words) =>
          && r == Pass
          && documentToWordFreqs == (if words == [] then old(documentToWordFreqs) else old(documentToWordFreqs)[id := TermFreqs(words)])
          && wordToDocumentFreqs == AddRow(old(wordToDocumentFreqs), id, if words == [] then map[] else TermFreqs(words))
    {
      if id < 0 || id in documents {
        return Fail(InvalidArgument);
      }
      var rating := ComputeAverageRating(ratings);
      RegisterConsistent(documents, documentIds, documentToWordFreqs, wordToDocumentFreqs,
                         id, DocumentData(text, rating, status));
      documentIds := documentIds + [id];
      documents := documents[id := DocumentData(text, rating, status)];
      var split := SplitIntoWordsNoStop(documents[id].text);
      if split.Err? {
        return Fail(split.error);
      }
      var words := split.value;
      if words == [] {
        // 1.0 / 0 is never used: the loop runs zero times
        AddRowEmpty(wordToDocumentFreqs, id);
        return Pass;
      }
      var invWordCount := 1.0 / (|words| as real);
      FreqsIsTermFreqs(words);
      IndexConsistent(documents, documentIds, documentToWordFreqs, wordToDocumentFreqs, id, words);
      documentToWordFreqs, wordToDocumentFreqs := IndexWords(documentToWordFreqs, wordToDocumentFreqs, id, words, invWordCount);
      return Pass;
    }

    /** The state after `id`, which had a forward row, has been removed:
        its entries are erased from the posting lists of its words, and its
        forward row, metadata and id-list entry are gone. */
    twostate predicate Erased(id: int)
      reads this
      requires id in old(documentToWordFreqs)
    {
      && documentToWordFreqs == old(documentToWordFreqs) - {id}
      && wordToDocumentFreqs == RemoveRow(old(wordToDocumentFreqs), id, old(documentToWordFreqs)[id].Keys)
      && documents == old(documents) - {id}
      && documentIds == Erase(old(documentIds), id)
    }

    /** RemoveDocument (sequential). An id not in the id list is ignored.
        A listed id without a forward row (no non-stop words) throws
        out_of_range from document_to_word_freqs_.at before anything changes. */
    method RemoveDocument(id: int) returns (r: Outcome)
      requires Valid()
      modifies this
      ensures Valid()
      ensures id !in old(documentIds) ==> r == Pass && unchanged(this)
      ensures id in old(documentIds) && id !in old(documentToWordFreqs) ==> r == Fail(OutOfRange) && unchanged(this)
      ensures id in old(documentIds) && id in old(documentToWordFreqs) ==> r == Pass && Erased(id)
    {
      if id !in documentIds {
        return Pass;
      }
      if id !in documentToWordFreqs {
        return Fail(OutOfRange);
      }
      EraseConsistent(documents, documentIds, documentToWordFreqs, wordToDocumentFreqs, id);
      wordToDocumentFreqs := EraseEverywhere(wordToDocumentFreqs, id, documentToWordFreqs[id].Keys);
      documentToWordFreqs := documentToWordFreqs - {id};
      documents := documents - {id};
      documentIds := Erase(documentIds, id);
      return Pass;
    }

    /** RemoveDocument (parallel): the words are first copied into a vector
        in map order, then erased one per word. Each erasure touches its own
        posting list, so the order does not matter; the final state is the
        one the sequential version reaches. */
    method RemoveDocumentParallel(id: int) returns (r: Outcome)
      requires Valid()
      modifies this
      ensures Valid()
      ensures id !in old(documentIds) ==> r == Pass && unchanged(this)
      ensures id in old(documentIds) && id !in old(documentToWordFreqs) ==> r == Fail(OutOfRange) && unchanged(this)
      ensures id in old(documentIds) && id in old(documentToWordFreqs) ==> r == Pass && Erased(id)
    {
      if id !in documentIds {
        return Pass;
      }
      if id !in documentToWordFreqs {
        return Fail(OutOfRange);
      }
      var words := SortedKeys(documentToWordFreqs[id]);
      SortedSetDistinct(words);
      EraseConsistent(documents, documentIds, documentToWordFreqs, wordToDocumentFreqs, id);
      wordToDocumentFreqs := EraseEach(wordToDocumentFreqs, id, words);
      assert Elements(words) == documentToWordFreqs[id].Keys;
      documentToWordFreqs := documentToWordFreqs - {id};
      documents := documents - {id};
      documentIds := Erase(documentIds, id);
      return Pass;
    }

    /** What MatchDocument returns: out_of_range for an id not in the id
        list (checked before the query is parsed), the parse error of a
        malformed query, otherwise the matched words and the status. */
    function MatchResult(rawQuery: string, id: int): Result<(seq<string>, DocumentStatus)>
      reads this
      requires IdsValid()
    {
      if id !in documentIds then Err(OutOfRange)
      else
        match ParseTokens(splitter(rawQuery), stopWords)
        case Err(e) => Err(e)
        case Ok(query) => Ok((MatchedWords(wordToDocumentFreqs, query, id), documents[id].status))
    }

    /** MatchDocument (sequential): stops at the first minus word whose
        posting list contains the document, else collects the plus words. */
    method MatchDocument(rawQuery: string, id: int) returns (r: Result<(seq<string>, DocumentStatus)>)
      requires IdsValid()
      ensures r == MatchResult(rawQuery, id)
    {
      if id !in documentIds {
        return Err(OutOfRange);
      }
      var status := documents[id].status;
      var parsed := ParseQuery(rawQuery);
      if parsed.Err? {
        return Err(parsed.error);
      }
      var matched := MatchWords(wordToDocumentFreqs, parsed.value, id);
      return Ok((matched, status));
    }

    /** MatchDocument (parallel): any_of over the minus words, then copy_if
        of the plus words into a vector of |plus| slots, cut to the copied
        prefix. Same result as the sequential version. */
    method MatchDocumentParallel(rawQuery: string, id: int) returns (r: Result<(seq<string>, DocumentStatus)>)
      requires IdsValid()
      ensures r == MatchResult(rawQuery, id)
    {
      if id !in documentIds {
        return Err(OutOfRange);
      }
      var status := documents[id].status;
      var parsed := ParseQuery(rawQuery);
      if parsed.Err? {
        return Err(parsed.error);
      }
      var query := parsed.value;
      if exists k | 0 <= k < |query.minusWords| :: InPostings(wordToDocumentFreqs, query.minusWords[k], id) {
        return Ok(([], status));
      }
      var matched := CopyMatching(query.plusWords, wordToDocumentFreqs, id);
      return Ok((matched, status));
    }
  }

  // ---------------------------------------------------------------------
  // Adding a document and removing it again

  /** The states AddDocument and then RemoveDocument pass through, for a
      new id whose forward row is `row`: the second undoes the first. */
  lemma RoundTrip(documents: map<int, DocumentData>, ids: seq<int>, fwd: Forward, inv: Inverted,
                  id: int, data: DocumentData, row: Row)
    requires Consistent(documents, ids, fwd, inv)
    requires id >= 0 && id !in documents
    ensures documents[id := data] - {id} == documents
    ensures Erase(ids + [id], id) == ids
    ensures id !in fwd && fwd[id := row] - {id} == fwd
    ensures inv.Keys <= RemoveRow(AddRow(inv, id, row), id, row.Keys).Keys
    ensures forall w :: PostingsOf(RemoveRow(AddRow(inv, id, row), id, row.Keys), w) == PostingsOf(inv, w)
  {
    assert id !in ids;
    EraseAppended(ids, id);
    AddThenRemoveRow(fwd, inv, id, row);
  }

  /** AddDocument of a new id followed by RemoveDocument of the same id.
      When the text's words are valid and some are not stop words, the
      round trip restores the document count, the id list, the metadata
      and the forward index, and every posting list is as it was (a word
      the document brought in stays as a key with an empty list).
      Otherwise the document was registered without a forward row, so
      RemoveDocument fails with out_of_range and the document stays. */
  method AddThenRemove(server: SearchServer, id: int, text: string, status: DocumentStatus, ratings: seq<int>)
    returns (added: Outcome, removed: Outcome)
    requires server.Valid()
    requires id >= 0 && id !in server.documents
    modifies server
    ensures server.Valid()
    ensures added == match NoStopWords(server.splitter(text), server.stopWords)
      case Err(e) => Fail(e)
      case Ok(_) => Pass
    ensures NoStopWords(server.splitter(text), server.stopWords).Ok? && NoStopWords(server.splitter(text), server.stopWords).value != [] ==>
      && removed == Pass
      && server.GetDocumentCount() == old(server.GetDocumentCount())
      && server.documentIds == old(server.documentIds)
      && server.documents == old(server.documents)
      && server.documentToWordFreqs == old(server.documentToWordFreqs)
      && server.GetWordFrequencies(id) == map[]
      && old(server.wordToDocumentFreqs).Keys <= server.wordToDocumentFreqs.Keys
      && forall w :: PostingsOf(server.wordToDocumentFreqs, w) == PostingsOf(old(server.wordToDocumentFreqs), w)
    ensures NoStopWords(server.splitter(text), server.stopWords).Err? || NoStopWords(server.splitter(text), server.stopWords).value == [] ==>
      && removed == Fail(OutOfRange)
      && id in server.documentIds
      && server.GetDocumentCount() == old(server.GetDocumentCount()) + 1
  {
    ghost var documents0, ids0, fwd0, inv0 := server.documents, server.documentIds, server.documentToWordFreqs, server.wordToDocumentFreqs;
    ghost var words := NoStopWords(server.splitter(text), server.stopWords);
    added := server.AddDocument(id, text, status, ratings);
    ghost var data := DocumentData(text, AverageRating(ratings), status);
    assert server.documents == documents0[id := data] && server.documentIds == ids0 + [id];
    ghost var row := if words.Ok? && words.value != [] then TermFreqs(words.value) else map[];
    if words.Ok? && words.value != [] {
      assert server.documentToWordFreqs == fwd0[id := row];
      assert server.wordToDocumentFreqs == AddRow(inv0, id, row);
      RoundTrip(documents0, ids0, fwd0, inv0, id, data, row);
    } else {
      assert server.documentToWordFreqs == fwd0;
    }
    removed := server.RemoveDocument(id);
  }
}
