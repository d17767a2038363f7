/** The two indices of the search server, as maps: the forward index
    (document id to word to term frequency) and the inverted index (word to
    document id to term frequency), and how adding or removing one
    document's row changes them. */
module Index {
  import opened Seqs

  type Row = map<string, real>
  type Postings = map<int, real>
  type Forward = map<int, Row>
  type Inverted = map<string, Postings>

  /** The row AddDocument's loop has accumulated after the first n words:
      each occurrence of a word adds `step` to that word's entry, which
      starts at 0. */
  function Freqs(words: seq<string>, n: nat, step: real): Row
    requires n <= |words|
    decreases n
  {
    if n == 0 then map[]
    else
      var prev := Freqs(words, n - 1, step);
      var w := words[n - 1];
      prev[w := (if w in prev then prev[w] else 0.0) + step]
  }

  /** The step of AddDocument's loop on the forward index: the document's
      row, created by the first occurrence, gets one more occurrence of the
      next word. */
  lemma ForwardOccurrence(fwd0: Forward, cur: Forward, id: int, words: seq<string>, i: nat, step: real)
    requires i < |words| && id !in fwd0
    requires i == 0 ==> cur == fwd0
    requires i > 0 ==> cur == fwd0[id := Freqs(words, i, step)]
    ensures var row := if id in cur then cur[id] else map[];
      var freq := if words[i] in row then row[words[i]] else 0.0;
      cur[id := row[words[i] := freq + step]] == fwd0[id := Freqs(words, i + 1, step)]
  {
  }

  /** `step` added up `c` times, starting from 0. */
  function Repeated(c: nat, step: real): real
  {
    if c == 0 then 0.0 else Repeated(c - 1, step) + step
  }

  /** Adding 1/n up c times gives c/n. */
  lemma {:induction false} RepeatedInverse(c: nat, n: real)
    requires n != 0.0
    ensures Repeated(c, 1.0 / n) == (c as real) / n
  {
    if c > 0 {
      RepeatedInverse(c - 1, n);
      DivideSum((c - 1) as real, 1.0, n);
    }
  }

  /** After n words, the row holds exactly the words seen so far, each with
      its number of occurrences times the step. */
  lemma {:induction false} FreqsCount(words: seq<string>, n: nat, step: real)
    requires n <= |words|
    ensures forall w :: w in Freqs(words, n, step) <==> w in words[..n]
    ensures forall w | w in Freqs(words, n, step) :: Freqs(words, n, step)[w] == Repeated(Count(words[..n], w), step)
    decreases n
  {
    if n > 0 {
      var init, last := words[..n - 1], words[n - 1];
      var prev := Freqs(words, n - 1, step);
      FreqsCount(words, n - 1, step);
      assert words[..n] == init + [last];
      assert words[..n][..n - 1] == init;
      forall w ensures w in words[..n] <==> w in init || w == last {
      }
      forall w | w in Freqs(words, n, step)
        ensures Freqs(words, n, step)[w] == Repeated(Count(words[..n], w), step)
      {
        var c := Count(init, w);
        assert Count(words[..n], w) == c + (if last == w then 1 else 0);
        if w == last {
          CountPositive(init, w);
        } else {
          assert w in prev;
        }
      }
    }
  }

  /** Term frequencies of a document's words: occurrences divided by the
      number of words. */
  function TermFreqs(words: seq<string>): Row
    requires |words| > 0
  {
    map w | w in words :: (Count(words, w) as real) / (|words| as real)
  }

  /** Adding 1/n at every occurrence yields the term frequencies. */
  lemma FreqsIsTermFreqs(words: seq<string>)
    requires |words| > 0
    ensures Freqs(words, |words|, 1.0 / (|words| as real)) == TermFreqs(words)
  {
    var n := |words| as real;
    var f, t := Freqs(words, |words|, 1.0 / n), TermFreqs(words);
    FreqsCount(words, |words|, 1.0 / n);
    assert words[..|words|] == words;
    assert f.Keys == t.Keys;
    forall w | w in words ensures f[w] == t[w] {
      RepeatedInverse(Count(words, w), n);
    }
  }

  /** Sum of a row's entries over an enumeration of its keys. */
  function SumOver(row: Row, keys: seq<string>): real
    requires forall i | 0 <= i < |keys| :: keys[i] in row
    decreases |keys|
  {
    if keys == [] then 0.0 else SumOver(row, keys[..|keys| - 1]) + row[keys[|keys| - 1]]
  }

  /** Number of positions of `words` holding a word of `ks`. */
  function CountIn(words: seq<string>, ks: set<string>): nat
    decreases |words|
  {
    if words == [] then 0
    else CountIn(words[..|words| - 1], ks) + (if words[|words| - 1] in ks then 1 else 0)
  }

  lemma {:induction false} CountInSplit(words: seq<string>, ks: set<string>, w: string)
    requires w in ks
    ensures CountIn(words, ks) == Count(words, w) + CountIn(words, ks - {w})
    decreases |words|
  {
    if words != [] {
      CountInSplit(words[..|words| - 1], ks, w);
    }
  }

  lemma {:induction false} CountInAll(words: seq<string>, ks: set<string>)
    requires forall i | 0 <= i < |words| :: words[i] in ks
    ensures CountIn(words, ks) == |words|
    decreases |words|
  {
    if words != [] {
      CountInAll(words[..|words| - 1], ks);
    }
  }

  lemma {:induction false} CountInNone(words: seq<string>, ks: set<string>)
    requires ks == {}
    ensures CountIn(words, ks) == 0
    decreases |words|
  {
    if words != [] {
      CountInNone(words[..|words| - 1], ks);
    }
  }

  lemma {:induction false} SumOverTermFreqs(words: seq<string>, keys: seq<string>)
    requires |words| > 0 && Distinct(keys)
    requires forall i | 0 <= i < |keys| :: keys[i] in words
    ensures SumOver(TermFreqs(words), keys) == (CountIn(words, Elements(keys)) as real) / (|words| as real)
    decreases |keys|
  {
    if keys != [] {
      var init, last := keys[..|keys| - 1], keys[|keys| - 1];
      SumOverTermFreqs(words, init);
      assert Elements(keys) - {last} == Elements(init) by {
        assert keys == init + [last];
      }
      CountInSplit(words, Elements(keys), last);
      var n := |words| as real;
      var t := TermFreqs(words);
      assert t[last] == (Count(words, last) as real) / n;
      assert SumOver(t, keys) == SumOver(t, init) + t[last];
      DivideSum(CountIn(words, Elements(init)) as real, Count(words, last) as real, n);
    } else {
      CountInNone(words, Elements(keys));
    }
  }

  /** The term frequencies of a document sum to 1, whatever order the
      distinct words are added up in. */
  lemma TermFreqsSumToOne(words: seq<string>, keys: seq<string>)
    requires |words| > 0 && Distinct(keys)
    requires forall w :: w in keys <==> w in words
    ensures SumOver(TermFreqs(words), keys) == 1.0
  {
    forall i | 0 <= i < |keys| ensures keys[i] in words {
      assert keys[i] in keys;
    }
    SumOverTermFreqs(words, keys);
    forall i | 0 <= i < |words| ensures words[i] in Elements(keys) {
      assert words[i] in words;
    }
    CountInAll(words, Elements(keys));
    SelfDivide(|words| as real);
  }

  /** Real-number helper: the step of TermFreqsSumToOne where the
      occurrences of all the words, n, are divided by n. */
  lemma SelfDivide(n: real)
    requires n != 0.0
    ensures n / n == 1.0
  {
  }

  /** Real-number helper: adding shares over a common divisor, used by
      RepeatedInverse and SumOverTermFreqs to add one more `1.0 / n`. */
  lemma DivideSum(a: real, b: real, n: real)
    requires n != 0.0
    ensures a / n + b / n == (a + b) / n
  {
  }

  /** A word's posting list, empty when the word has none. */
  function PostingsOf(index: Inverted, w: string): Postings
  {
    if w in index then index[w] else map[]
  }

  /** The inverted index after the entries of one document's row have been
      added: the document joins the posting list of each of its words. */
  function AddRow(index: Inverted, id: int, row: Row): Inverted
  {
    map w | w in index.Keys + row.Keys :: if w in row then PostingsOf(index, w)[id := row[w]] else index[w]
  }

  /** The inverted index after a document has been erased from the posting
      lists of `words`. Words whose list becomes empty keep their key. */
  function RemoveRow(index: Inverted, id: int, words: set<string>): Inverted
  {
    map w | w in index :: if w in words then index[w] - {id} else index[w]
  }

  /** The inverted index with the documents of `gone` erased from every
      posting list; every word keeps its key. */
  function EraseDocuments(index: Inverted, gone: set<int>): Inverted
  {
    map w | w in index :: index[w] - gone
  }

  /** The forward and inverted indices hold the same (document, word,
      frequency) triples. */
  ghost predicate Agree(fwd: Forward, inv: Inverted)
  {
    && (forall id, w | id in fwd && w in fwd[id] :: w in inv && id in inv[w] && inv[w][id] == fwd[id][w])
    && (forall w, id | w in inv && id in inv[w] :: id in fwd && w in fwd[id])
  }

  /** One more occurrence of a word: the loop's step on the inverted index. */
  lemma AddRowStep(index: Inverted, id: int, row: Row, w: string, v: real)
    ensures AddRow(index, id, row[w := v]) == AddRow(index, id, row)[w := PostingsOf(index, w)[id := v]]
  {
  }

  /** A word's posting list after a row was added. */
  lemma AddRowPostings(index: Inverted, id: int, row: Row, w: string)
    ensures PostingsOf(AddRow(index, id, row), w) ==
      if w in row then PostingsOf(index, w)[id := row[w]] else PostingsOf(index, w)
  {
  }

  /** The step of AddDocument's loop on the inverted index: reading the
      document's current entry for the next word (0 when absent) and adding
      `step` to it adds one more occurrence of that word to the row. */
  lemma AddOccurrence(index: Inverted, id: int, words: seq<string>, i: nat, step: real)
    requires i < |words|
    requires forall u :: id !in PostingsOf(index, u)
    ensures var cur := AddRow(index, id, Freqs(words, i, step));
      var postings := PostingsOf(cur, words[i]);
      var tf := if id in postings then postings[id] else 0.0;
      cur[words[i] := postings[id := tf + step]] == AddRow(index, id, Freqs(words, i + 1, step))
  {
    var row, w := Freqs(words, i, step), words[i];
    var cur := AddRow(index, id, row);
    var v := (if w in row then row[w] else 0.0) + step;
    assert Freqs(words, i + 1, step) == row[w := v];
    AddRowStep(index, id, row, w, v);
    assert id !in PostingsOf(index, w);
    var postings := PostingsOf(cur, w);
    AddRowPostings(index, id, row, w);
    var tf := if id in postings then postings[id] else 0.0;
    assert tf + step == v;
    assert postings[id := tf + step] == PostingsOf(index, w)[id := v];
  }

  lemma AddRowEmpty(index: Inverted, id: int)
    ensures AddRow(index, id, map[]) == index
  {
  }

  /** One more word done: the removal loop's step on the inverted index. */
  lemma RemoveRowStep(index: Inverted, id: int, done: set<string>, w: string)
    requires w in index
    ensures RemoveRow(index, id, done + {w}) == RemoveRow(index, id, done)[w := index[w] - {id}]
  {
  }

  lemma RemoveRowEmpty(index: Inverted, id: int)
    ensures RemoveRow(index, id, {}) == index
  {
  }

  /** Adding a new document's row keeps the indices in agreement, adds
      exactly the new document's entries and changes no other document's. */
  lemma AddRowAgree(fwd: Forward, inv: Inverted, id: int, row: Row)
    requires Agree(fwd, inv) && id !in fwd
    ensures Agree(fwd[id := row], AddRow(inv, id, row))
  {
    var fwd', inv' := fwd[id := row], AddRow(inv, id, row);
    forall d, w | d in fwd' && w in fwd'[d]
      ensures w in inv' && d in inv'[w] && inv'[w][d] == fwd'[d][w]
    {
      if d != id {
        assert w in fwd[d];
      }
    }
    forall w, d | w in inv' && d in inv'[w] ensures d in fwd' && w in fwd'[d] {
      if d != id {
        assert w in inv && d in inv[w];
      }
    }
  }

  /** Adding a row adds exactly its words as keys, enters the document in
      exactly the posting lists of its words, and leaves every other
      document's entries as they were. */
  lemma AddRowFrame(inv: Inverted, id: int, row: Row)
    ensures forall w :: w in AddRow(inv, id, row) <==> w in inv || w in row
    ensures forall w, d | d != id :: d in PostingsOf(AddRow(inv, id, row), w) <==> d in PostingsOf(inv, w)
    ensures forall w, d | d != id && d in PostingsOf(inv, w) :: PostingsOf(AddRow(inv, id, row), w)[d] == PostingsOf(inv, w)[d]
    ensures forall w | w in row :: PostingsOf(AddRow(inv, id, row), w)[id] == row[w]
    ensures forall w :: id in PostingsOf(AddRow(inv, id, row), w) <==> w in row || id in PostingsOf(inv, w)
  {
  }

  /** Removing a document's row keeps the indices in agreement, keeps every
      word key, erases exactly that document's entries and changes no other
      document's. */
  lemma RemoveRowAgree(fwd: Forward, inv: Inverted, id: int)
    requires Agree(fwd, inv) && id in fwd
    ensures Agree(fwd - {id}, RemoveRow(inv, id, fwd[id].Keys))
    ensures RemoveRow(inv, id, fwd[id].Keys).Keys == inv.Keys
    ensures forall w :: id !in PostingsOf(RemoveRow(inv, id, fwd[id].Keys), w)
    ensures forall w, d | d != id :: d in PostingsOf(RemoveRow(inv, id, fwd[id].Keys), w) <==> d in PostingsOf(inv, w)
    ensures forall w, d | d != id && d in PostingsOf(inv, w) :: PostingsOf(RemoveRow(inv, id, fwd[id].Keys), w)[d] == PostingsOf(inv, w)[d]
  {
    var fwd', inv' := fwd - {id}, RemoveRow(inv, id, fwd[id].Keys);
    forall w ensures id !in PostingsOf(inv', w) {
      if w in inv' && w !in fwd[id] {
        assert id !in inv[w];
      }
    }
    forall d, w | d in fwd' && w in fwd'[d]
      ensures w in inv' && d in inv'[w] && inv'[w][d] == fwd'[d][w]
    {
      assert w in fwd[d];
    }
  }

  lemma EraseDocumentsNone(index: Inverted)
    ensures EraseDocuments(index, {}) == index
  {
    assert forall w | w in index :: index[w] - {} == index[w];
  }

  /** Erasing one more document's row: with agreeing indices, the document
      is in the posting lists of exactly its row's words, so erasing it from
      those lists erases it from all of them. A document without a row, or
      one already erased, is in no posting list. */
  lemma EraseDocumentsStep(fwd: Forward, inv: Inverted, gone: set<int>, x: int)
    requires Agree(fwd, inv)
    ensures x in fwd && x !in gone ==>
      RemoveRow(EraseDocuments(inv, gone), x, fwd[x].Keys) == EraseDocuments(inv, gone + {x})
    ensures x !in fwd || x in gone ==> EraseDocuments(inv, gone + {x}) == EraseDocuments(inv, gone)
  {
    var before, after := EraseDocuments(inv, gone), EraseDocuments(inv, gone + {x});
    if x in fwd && x !in gone {
      var erased := RemoveRow(before, x, fwd[x].Keys);
      forall w | w in inv
        ensures erased[w] == after[w]
      {
        if w !in fwd[x] {
          assert x !in inv[w];
        }
      }
      assert erased.Keys == after.Keys;
    } else {
      forall w | w in inv
        ensures after[w] == before[w]
      {
        if x !in gone {
          assert x !in inv[w];
        }
      }
      assert after.Keys == before.Keys;
    }
  }

  /** Adding a new document and removing it again leaves every posting list
      as it was; the words that were new keep an empty posting list. */
  lemma AddThenRemoveRow(fwd: Forward, inv: Inverted, id: int, row: Row)
    requires Agree(fwd, inv) && id !in fwd
    ensures RemoveRow(AddRow(inv, id, row), id, row.Keys) == map w | w in inv.Keys + row.Keys :: PostingsOf(inv, w)
  {
    var r := RemoveRow(AddRow(inv, id, row), id, row.Keys);
    forall w | w in inv ensures id !in inv[w] {
    }
    forall w | w in inv.Keys + row.Keys ensures r[w] == PostingsOf(inv, w) {
      if w in row {
        assert id !in PostingsOf(inv, w);
        assert PostingsOf(inv, w)[id := row[w]] - {id} == PostingsOf(inv, w);
      }
    }
  }
}
