/** search-server/remove_duplicates.cpp: removing every document whose set
    of words equals that of a document listed before it. */
module Duplicates {
  import opened Results
  import opened Seqs
  import opened Lexicographic
  import opened Index
  import opened Server

  /** One element of the scanned vector: a document id and its words in
      map order. */
  datatype Entry = Entry(id: int, words: seq<string>)

  // ---------------------------------------------------------------------
  // The scan, as the nested loops perform it

  /** The entries whose words differ from `words`, in order. */
  function Without(entries: seq<Entry>, words: seq<string>): (r: seq<Entry>)
    ensures |r| <= |entries|
    decreases |entries|
  {
    if entries == [] then []
    else (if entries[0].words == words then [] else [entries[0]]) + Without(entries[1..], words)
  }

  /** Exactly the entries with other words remain. */
  lemma {:induction false} WithoutMembers(entries: seq<Entry>, words: seq<string>)
    ensures forall e :: e in Without(entries, words) <==> e in entries && e.words != words
    decreases |entries|
  {
    if entries != [] {
      WithoutMembers(entries[1..], words);
      assert forall e :: e in entries <==> e == entries[0] || e in entries[1..];
    }
  }

  /** The ids of the entries whose words are `words`, in order. */
  function Only(entries: seq<Entry>, words: seq<string>): seq<int>
    decreases |entries|
  {
    if entries == [] then []
    else (if entries[0].words == words then [entries[0].id] else []) + Only(entries[1..], words)
  }

  /** The entries the scan leaves: the first is kept, every later entry with
      the same words is erased, and the scan goes on with the rest. */
  function Dedup(entries: seq<Entry>): seq<Entry>
    decreases |entries|
  {
    if entries == [] then []
    else [entries[0]] + Dedup(Without(entries[1..], entries[0].words))
  }

  /** The ids the scan passes to RemoveDocument, in the order it does. */
  function Removals(entries: seq<Entry>): seq<int>
    decreases |entries|
  {
    if entries == [] then []
    else
      var rest := entries[1..];
      Only(rest, entries[0].words) + Removals(Without(rest, entries[0].words))
  }

  lemma {:induction false} WithoutSnoc(entries: seq<Entry>, e: Entry, words: seq<string>)
    ensures Without(entries + [e], words) == Without(entries, words) + (if e.words == words then [] else [e])
    ensures Only(entries + [e], words) == Only(entries, words) + (if e.words == words then [e.id] else [])
    decreases |entries|
  {
    if entries == [] {
      assert [] + [e] == [e];
    } else {
      assert (entries + [e])[1..] == entries[1..] + [e];
      WithoutSnoc(entries[1..], e, words);
      var head := if entries[0].words == words then [] else [entries[0]];
      AppendAssoc(head, Without(entries[1..], words), if e.words == words then [] else [e]);
      var headId := if entries[0].words == words then [entries[0].id] else [];
      AppendAssoc(headId, Only(entries[1..], words), if e.words == words then [e.id] else []);
    }
  }

  /** One comparison of the inner loop: entry m of the vector as it was
      before the loop is erased when its words equal the outer entry's. */
  lemma InnerStep(all0: seq<Entry>, lo: nat, m: nat, words: seq<string>)
    requires lo <= m < |all0|
    ensures Without(all0[lo..m + 1], words) == Without(all0[lo..m], words) + (if all0[m].words == words then [] else [all0[m]])
    ensures Only(all0[lo..m + 1], words) == Only(all0[lo..m], words) + (if all0[m].words == words then [all0[m].id] else [])
  {
    assert all0[lo..m + 1] == all0[lo..m] + [all0[m]];
    WithoutSnoc(all0[lo..m], all0[m], words);
  }

  /** One pass of the outer loop: once entry i has erased its later
      duplicates, the kept and the removed entries are those of the scan. */
  lemma OuterStep(all0: seq<Entry>, i: nat)
    requires i < |all0|
    ensures var all := all0[..i + 1] + Without(all0[i + 1..], all0[i].words);
      && i + 1 <= |all|
      && all[..i + 1] + Dedup(all[i + 1..]) == all0[..i] + Dedup(all0[i..])
      && Only(all0[i + 1..], all0[i].words) + Removals(all[i + 1..]) == Removals(all0[i..])
  {
    var k := all0[i].words;
    var rest := Without(all0[i + 1..], k);
    var all := all0[..i + 1] + rest;
    assert all[..i + 1] == all0[..i + 1] == all0[..i] + [all0[i]];
    assert all[i + 1..] == rest;
    assert all0[i..][0] == all0[i] && all0[i..][1..] == all0[i + 1..];
    assert Dedup(all0[i..]) == [all0[i]] + Dedup(rest);
    AppendAssoc(all0[..i], [all0[i]], Dedup(rest));
  }

  /** With at most one entry the scan removes nothing. */
  lemma ShortScan(entries: seq<Entry>)
    requires |entries| <= 1
    ensures Dedup(entries) == entries && Removals(entries) == []
  {
    if |entries| == 1 {
      assert entries[1..] == [];
    }
  }

  /** A vector cut around one slot. */
  lemma {:induction false} CutAt(front: seq<Entry>, x: Entry, back: seq<Entry>)
    ensures var all := front + ([x] + back);
      && |all| == |front| + 1 + |back|
      && all[|front|] == x
      && all[..|front|] + all[|front| + 1..] == front + back
      && all == (front + [x]) + back
  {
    var all := front + ([x] + back);
    assert all[..|front|] == front;
    assert all[|front| + 1..] == back;
    AppendAssoc(front, [x], back);
  }

  /** Where the inner loop for outer entry i stands: entries up to m of the
      vector as it was before the loop have been compared; the kept ones
      sit between the outer entry and the uncompared rest, slot j is the
      next to compare, and the ids of the erased ones were collected. */
  ghost predicate InnerInvariant(all: seq<Entry>, i: nat, m: nat, kept: seq<Entry>,
                                 after: seq<Entry>, j: nat, removedNow: seq<int>)
  {
    && i < |all| && i + 1 <= m <= |all|
    && kept == Without(all[i + 1..m], all[i].words)
    && removedNow == Only(all[i + 1..m], all[i].words)
    && after == all[..i + 1] + kept + all[m..]
    && j == i + 1 + |kept|
  }

  /** One comparison of the inner loop, in both of its outcomes. */
  lemma InnerLoopStep(all: seq<Entry>, i: nat, m: nat, kept: seq<Entry>,
                      after: seq<Entry>, j: nat, removedNow: seq<int>)
    requires InnerInvariant(all, i, m, kept, after, j, removedNow) && j < |after|
    ensures m < |all| && after[i] == all[i] && after[j] == all[m]
    ensures all[m].words == all[i].words ==>
      InnerInvariant(all, i, m + 1, kept, after[..j] + after[j + 1..], j, removedNow + [after[j].id])
    ensures all[m].words != all[i].words ==>
      InnerInvariant(all, i, m + 1, kept + [all[m]], after, j + 1, removedNow)
  {
    var front := all[..i + 1] + kept;
    assert all[m..] == [all[m]] + all[m + 1..];
    CutAt(front, all[m], all[m + 1..]);
    InnerStep(all, i + 1, m, all[i].words);
    assert kept + [] == kept;
    AppendAssoc(all[..i + 1], kept, [all[m]]);
  }

  /** The inner loop of RemoveDuplicates for outer entry i: every later
      entry with the same words is erased in place, and the decrement after
      an erasure makes the entry that moved into the slot the next one
      compared. */
  method EraseLaterDuplicates(all: seq<Entry>, i: nat) returns (after: seq<Entry>, removedNow: seq<int>)
    requires i < |all|
    ensures after == all[..i + 1] + Without(all[i + 1..], all[i].words)
    ensures removedNow == Only(all[i + 1..], all[i].words)
  {
    after := all;
    removedNow := [];
    ghost var m, kept := i + 1, [];
    assert all == all[..i + 1] + kept + all[i + 1..];
    var j: nat := i + 1;
    while j < |after|
      invariant InnerInvariant(all, i, m, kept, after, j, removedNow)
      decreases |all| - m
    {
      InnerLoopStep(all, i, m, kept, after, j, removedNow);
      if after[i].words == after[j].words {
        removedNow := removedNow + [after[j].id];
        after := after[..j] + after[j + 1..];
        j := j - 1;
      } else {
        kept := kept + [all[m]];
      }
      j := j + 1;
      m := m + 1;
    }
    assert all[m..] == [] && all[i + 1..m] == all[i + 1..];
  }

  /** The outer loop of RemoveDuplicates. The bound is re-read on every
      pass, as the vector shrinks; with fewer than two entries it does not
      run. */
  method ScanDuplicates(entries: seq<Entry>) returns (survivors: seq<Entry>, removed: seq<int>)
    ensures survivors == Dedup(entries)
    ensures removed == Removals(entries)
  {
    var all := entries;
    removed := [];
    var i := 0;
    while i < |all| - 1
      invariant 0 <= i <= |all|
      invariant all[..i] + Dedup(all[i..]) == Dedup(entries)
      invariant removed + Removals(all[i..]) == Removals(entries)
      decreases |all| - i
    {
      var after, removedNow := EraseLaterDuplicates(all, i);
      OuterStep(all, i);
      AppendAssoc(removed, removedNow, Removals(after[i + 1..]));
      all, removed := after, removed + removedNow;
      i := i + 1;
    }
    ShortScan(all[i..]);
    assert all[..i] + all[i..] == all;
    survivors := all;
  }

  // ---------------------------------------------------------------------
  // What the scan means

  /** The reference: walk the entries once, keeping an entry exactly when no
      entry before it (nor any word list in `seen`) has its words. */
  function Keep(entries: seq<Entry>, seen: set<seq<string>>): seq<Entry>
    decreases |entries|
  {
    if entries == [] then []
    else if entries[0].words in seen then Keep(entries[1..], seen)
    else [entries[0]] + Keep(entries[1..], seen + {entries[0].words})
  }

  /** Erasing the entries with already-seen words changes nothing. */
  lemma {:induction false} KeepWithout(entries: seq<Entry>, words: seq<string>, seen: set<seq<string>>)
    ensures Keep(Without(entries, words), seen) == Keep(entries, seen + {words})
    decreases |entries|
  {
    if entries != [] {
      var x, t := entries[0], entries[1..];
      if x.words == words {
        assert Without(entries, words) == Without(t, words);
        KeepWithout(t, words, seen);
      } else if x.words in seen {
        assert Without(entries, words) == [x] + Without(t, words);
        assert ([x] + Without(t, words))[1..] == Without(t, words);
        KeepWithout(t, words, seen);
      } else {
        assert Without(entries, words) == [x] + Without(t, words);
        assert ([x] + Without(t, words))[1..] == Without(t, words);
        KeepWithout(t, words, seen + {x.words});
        assert seen + {x.words} + {words} == seen + {words} + {x.words};
      }
    }
  }

  /** The scan keeps exactly the entries the reference keeps, in the same order. */
  lemma {:induction false} DedupIsKeep(entries: seq<Entry>)
    ensures Dedup(entries) == Keep(entries, {})
    decreases |entries|
  {
    if entries != [] {
      var x, t := entries[0], entries[1..];
      DedupIsKeep(Without(t, x.words));
      KeepWithout(t, x.words, {});
      assert {} + {x.words} == {x.words};
    }
  }

  /** No two kept entries have equal words, and none has words in `seen`. */
  lemma {:induction false} KeepDistinct(entries: seq<Entry>, seen: set<seq<string>>)
    ensures forall e | e in Keep(entries, seen) :: e in entries && e.words !in seen
    ensures forall p, q | 0 <= p < q < |Keep(entries, seen)| :: Keep(entries, seen)[p].words != Keep(entries, seen)[q].words
    decreases |entries|
  {
    if entries != [] {
      var x, t := entries[0], entries[1..];
      assert forall e :: e in t ==> e in entries;
      if x.words in seen {
        KeepDistinct(t, seen);
      } else {
        KeepDistinct(t, seen + {x.words});
        var r := Keep(entries, seen);
        assert r == [x] + Keep(t, seen + {x.words});
        forall p, q | 0 <= p < q < |r| ensures r[p].words != r[q].words {
          if p == 0 {
            assert r[q] in Keep(t, seen + {x.words});
          } else {
            assert r[p] == Keep(t, seen + {x.words})[p - 1] && r[q] == Keep(t, seen + {x.words})[q - 1];
          }
        }
      }
    }
  }

  /** Entries whose words are all different and unseen are all kept, in order. */
  lemma {:induction false} KeepAllUnique(entries: seq<Entry>, seen: set<seq<string>>)
    requires forall p, q | 0 <= p < q < |entries| :: entries[p].words != entries[q].words
    requires forall p | 0 <= p < |entries| :: entries[p].words !in seen
    ensures Keep(entries, seen) == entries
    decreases |entries|
  {
    if entries != [] {
      var t := entries[1..];
      assert forall p | 0 <= p < |t| :: t[p] == entries[p + 1];
      assert forall p | 0 <= p < |t| :: t[p].words != entries[0].words && t[p].words !in seen;
      KeepAllUnique(t, seen + {entries[0].words});
    }
  }

  /** An entry of a list without repeated entries is kept exactly when its
      words are unseen and no earlier entry has them: the first of each
      group of duplicates stays, every later one goes. */
  lemma {:induction false} KeepFirst(entries: seq<Entry>, seen: set<seq<string>>, j: nat)
    requires Distinct(entries) && j < |entries|
    ensures entries[j] in Keep(entries, seen) <==>
      entries[j].words !in seen && forall i | 0 <= i < j :: entries[i].words != entries[j].words
    decreases |entries|
  {
    var x, t := entries[0], entries[1..];
    assert Distinct(t);
    KeepDistinct(t, seen);
    KeepDistinct(t, seen + {x.words});
    if j == 0 {
      assert x !in t;
    } else {
      assert entries[j] == t[j - 1] && entries[j] != x;
      assert forall i | 0 <= i < j - 1 :: t[i] == entries[i + 1];
      if x.words in seen {
        KeepFirst(t, seen, j - 1);
      } else {
        KeepFirst(t, seen + {x.words}, j - 1);
      }
    }
  }

  /** The ids of a list of entries, in order. */
  function Ids(entries: seq<Entry>): seq<int>
    decreases |entries|
  {
    if entries == [] then [] else [entries[0].id] + Ids(entries[1..])
  }

  lemma {:induction false} WithoutOnlySplit(entries: seq<Entry>, words: seq<string>)
    ensures multiset(Ids(Without(entries, words))) + multiset(Only(entries, words)) == multiset(Ids(entries))
    decreases |entries|
  {
    if entries != [] {
      var x, t := entries[0], entries[1..];
      WithoutOnlySplit(t, words);
      assert Ids(entries) == [x.id] + Ids(t);
      if x.words == words {
        assert Without(entries, words) == Without(t, words);
        assert Only(entries, words) == [x.id] + Only(t, words);
      } else {
        var rest := Without(t, words);
        assert Without(entries, words) == [x] + rest;
        assert ([x] + rest)[1..] == rest;
        assert Ids([x] + rest) == [x.id] + Ids(rest);
        assert Only(entries, words) == Only(t, words);
      }
    }
  }

  /** Every scanned id is either kept or passed to RemoveDocument, exactly once. */
  lemma {:induction false} ScanPartition(entries: seq<Entry>)
    ensures multiset(Ids(Dedup(entries))) + multiset(Removals(entries)) == multiset(Ids(entries))
    decreases |entries|
  {
    if entries != [] {
      var x, t := entries[0], entries[1..];
      var rest := Without(t, x.words);
      ScanPartition(rest);
      WithoutOnlySplit(t, x.words);
      assert ([x] + Dedup(rest))[1..] == Dedup(rest);
    }
  }

  /** The ids kept by Without and those listed by Only are ids of the input. */
  lemma IdsOfParts(entries: seq<Entry>, words: seq<string>)
    ensures forall y | y in Only(entries, words) :: y in Ids(entries)
    ensures forall y | y in Ids(Without(entries, words)) :: y in Ids(entries)
  {
    WithoutOnlySplit(entries, words);
    assert forall y :: y in Only(entries, words) ==> y in multiset(Ids(entries));
    assert forall y :: y in Ids(Without(entries, words)) ==> y in multiset(Ids(entries));
  }

  /** Without keeps ids repetition-free. */
  lemma {:induction false} WithoutDistinct(entries: seq<Entry>, words: seq<string>)
    requires Distinct(Ids(entries))
    ensures Distinct(Ids(Without(entries, words)))
    decreases |entries|
  {
    if entries != [] {
      var x, t := entries[0], entries[1..];
      assert Ids(entries) == [x.id] + Ids(t);
      DistinctCons(x.id, Ids(t));
      WithoutDistinct(t, words);
      if x.words != words {
        var rest := Without(t, words);
        assert Without(entries, words) == [x] + rest;
        assert ([x] + rest)[1..] == rest;
        assert Ids([x] + rest) == [x.id] + Ids(rest);
        IdsOfParts(t, words);
        DistinctCons(x.id, Ids(rest));
      } else {
        assert Without(entries, words) == Without(t, words);
      }
    }
  }

  /** Erasing the ids that Only lists from the id list leaves the ids of
      what Without keeps, in order. */
  lemma {:induction false} OnlyErased(entries: seq<Entry>, words: seq<string>)
    requires Distinct(Ids(entries))
    ensures EraseEvery(Ids(entries), Elements(Only(entries, words))) == Ids(Without(entries, words))
    decreases |entries|
  {
    if entries != [] {
      var x, t := entries[0], entries[1..];
      assert Ids(entries) == [x.id] + Ids(t);
      DistinctCons(x.id, Ids(t));
      var gone, gone' := Elements(Only(entries, words)), Elements(Only(t, words));
      OnlyErased(t, words);
      IdsOfParts(t, words);
      EraseEveryCons(x.id, Ids(t), gone);
      if x.words != words {
        assert Only(entries, words) == Only(t, words);
        EraseEveryAgree(Ids(t), gone, gone');
        var rest := Without(t, words);
        assert Without(entries, words) == [x] + rest;
        assert ([x] + rest)[1..] == rest;
        assert Ids([x] + rest) == [x.id] + Ids(rest);
      } else {
        assert Only(entries, words) == [x.id] + Only(t, words);
        assert gone == {x.id} + gone';
        assert forall i | 0 <= i < |Ids(t)| :: Ids(t)[i] != x.id;
        EraseEveryAgree(Ids(t), gone, gone');
        assert Without(entries, words) == Without(t, words);
      }
    }
  }

  /** With distinct ids, erasing every removed id from the id list leaves
      exactly the ids of the survivors, in their order. */
  lemma {:induction false} SurvivorIds(entries: seq<Entry>)
    requires Distinct(Ids(entries))
    ensures EraseEvery(Ids(entries), Elements(Removals(entries))) == Ids(Dedup(entries))
    decreases |entries|
  {
    if entries != [] {
      var x, t := entries[0], entries[1..];
      var rest := Without(t, x.words);
      var only := Only(t, x.words);
      assert Ids(entries) == [x.id] + Ids(t);
      DistinctCons(x.id, Ids(t));
      WithoutDistinct(t, x.words);
      SurvivorIds(rest);
      IdsOfParts(t, x.words);
      ScanPartition(rest);
      assert forall y | y in Removals(rest) :: y in Ids(rest) by {
        assert forall y :: y in Removals(rest) ==> y in multiset(Ids(rest));
      }
      var gone := Elements(Removals(entries));
      assert gone == Elements(only) + Elements(Removals(rest));
      EraseEveryCons(x.id, Ids(t), gone);
      EraseEveryTwice(Ids(t), Elements(only), Elements(Removals(rest)));
      OnlyErased(t, x.words);
      assert ([x] + Dedup(rest))[1..] == Dedup(rest);
    }
  }

  /** What the scan leaves, for entries that are pairwise different (as
      entries with distinct ids are): no two survivors have equal words, and
      an entry survives exactly when no entry before it has its words. */
  lemma ScanKeepsFirsts(entries: seq<Entry>)
    requires Distinct(entries)
    ensures forall p, q | 0 <= p < q < |Dedup(entries)| :: Dedup(entries)[p].words != Dedup(entries)[q].words
    ensures forall j | 0 <= j < |entries| ::
      entries[j] in Dedup(entries) <==> forall i | 0 <= i < j :: entries[i].words != entries[j].words
  {
    DedupIsKeep(entries);
    KeepDistinct(entries, {});
    forall j | 0 <= j < |entries|
      ensures entries[j] in Keep(entries, {}) <==> forall i | 0 <= i < j :: entries[i].words != entries[j].words
    {
      KeepFirst(entries, {}, j);
    }
  }

  /** Documents without duplicates are neither removed nor reordered. */
  lemma ScanWithoutDuplicates(entries: seq<Entry>)
    requires forall p, q | 0 <= p < q < |entries| :: entries[p].words != entries[q].words
    ensures Dedup(entries) == entries && Removals(entries) == []
  {
    DedupIsKeep(entries);
    KeepAllUnique(entries, {});
    ScanPartition(entries);
    var ids, removed := multiset(Ids(entries)), multiset(Removals(entries));
    assert ids + removed == ids;
    assert |ids + removed| == |ids| + |removed|;
    assert |removed| == |Removals(entries)|;
  }

  /** `a` is `b` with some of its elements left out and the rest in order. */
  predicate IsSubsequence(a: seq<Entry>, b: seq<Entry>)
    decreases |b|
  {
    a == [] || (b != [] && ((a[0] == b[0] && IsSubsequence(a[1..], b[1..])) || IsSubsequence(a, b[1..])))
  }

  lemma {:induction false} KeepOrder(entries: seq<Entry>, seen: set<seq<string>>)
    ensures IsSubsequence(Keep(entries, seen), entries)
    decreases |entries|
  {
    if entries != [] {
      var x, t := entries[0], entries[1..];
      if x.words in seen {
        KeepOrder(t, seen);
      } else {
        KeepOrder(t, seen + {x.words});
        assert ([x] + Keep(t, seen + {x.words}))[1..] == Keep(t, seen + {x.words});
      }
    }
  }

  /** The survivors keep the order they had in the scanned vector. */
  lemma ScanKeepsOrder(entries: seq<Entry>)
    ensures IsSubsequence(Dedup(entries), entries)
  {
    DedupIsKeep(entries);
    KeepOrder(entries, {});
  }

  // ---------------------------------------------------------------------
  // RemoveDuplicates on a server

  /** Two word lists kept in map order are equal exactly when the maps have
      the same words: comparing the vectors compares the documents' word sets. */
  lemma SameWords(a: seq<string>, b: seq<string>, rowA: Row, rowB: Row)
    requires IsSortedSet(a) && (forall w :: w in a <==> w in rowA)
    requires IsSortedSet(b) && (forall w :: w in b <==> w in rowB)
    ensures a == b <==> rowA.Keys == rowB.Keys
  {
    if rowA.Keys == rowB.Keys {
      SortedSetUnique(a, b);
    }
  }

  /** The first loop: one entry per listed id, in list order, holding the
      words of the document's GetWordFrequencies map in map order. */
  method CollectEntries(server: SearchServer) returns (entries: seq<Entry>)
    requires server.Valid()
    ensures |entries| == |server.documentIds|
    ensures forall k | 0 <= k < |entries| ::
      && entries[k].id == server.documentIds[k]
      && IsSortedSet(entries[k].words)
      && forall w :: w in entries[k].words <==> w in server.GetWordFrequencies(entries[k].id)
  {
    entries := [];
    for k := 0 to |server.documentIds|
      invariant |entries| == k
      invariant forall p | 0 <= p < k ::
        && entries[p].id == server.documentIds[p]
        && IsSortedSet(entries[p].words)
        && forall w :: w in entries[p].words <==> w in server.GetWordFrequencies(entries[p].id)
    {
      var id := server.documentIds[k];
      var keyWords := SortedKeys(server.GetWordFrequencies(id));
      entries := entries + [Entry(id, keyWords)];
    }
  }

  /** A stored document without non-stop words, whose RemoveDocument call
      throws out_of_range. */
  ghost predicate WordlessIn(documents: map<int, DocumentData>, fwd: Forward, id: int)
  {
    id in documents && id !in fwd
  }

  /** The four fields of a server, as values. */
  datatype Snapshot = Snapshot(documents: map<int, DocumentData>, ids: seq<int>, fwd: Forward, inv: Inverted)

  ghost function StateOf(server: SearchServer): Snapshot
    reads server
  {
    Snapshot(server.documents, server.documentIds, server.documentToWordFreqs, server.wordToDocumentFreqs)
  }

  /** The state once every id of `gone` has been removed from `s0`: the
      metadata and the forward rows are dropped, the id list keeps the other
      ids in their order, and every posting list loses those ids. */
  ghost function AfterRemoving(s0: Snapshot, gone: set<int>): Snapshot
  {
    Snapshot(s0.documents - gone, EraseEvery(s0.ids, gone), s0.fwd - gone, EraseDocuments(s0.inv, gone))
  }

  /** The first `done` ids of the chain have been handled: none of them was
      a stored document without words, and each stored one is erased. */
  ghost predicate Progress(s0: Snapshot, xs: seq<int>, done: nat, s: Snapshot)
  {
    && done <= |xs|
    && s == AfterRemoving(s0, Elements(xs[..done]))
    && forall k | 0 <= k < done :: !WordlessIn(s0.documents, s0.fwd, xs[k])
  }

  /** Removing an id that is no longer listed changes nothing. */
  lemma SkipStep(s0: Snapshot, gone: set<int>, x: int)
    requires Consistent(s0.documents, s0.ids, s0.fwd, s0.inv)
    requires x !in AfterRemoving(s0, gone).ids
    ensures AfterRemoving(s0, gone + {x}) == AfterRemoving(s0, gone)
  {
    var s := AfterRemoving(s0, gone);
    EraseEveryMembers(s0.ids, gone);
    assert x !in s0.documents || x in gone;
    EraseEveryStep(s0.ids, gone, x);
    EraseNotIn(s.ids, x);
    EraseDocumentsStep(s0.fwd, s0.inv, gone, x);
    assert s0.documents - (gone + {x}) == s.documents;
    assert s0.fwd - (gone + {x}) == s.fwd;
  }

  /** Removing a listed id with a forward row is one RemoveDocument erasure. */
  lemma EraseStep(s0: Snapshot, gone: set<int>, x: int)
    requires Consistent(s0.documents, s0.ids, s0.fwd, s0.inv)
    requires x in AfterRemoving(s0, gone).fwd
    ensures var s := AfterRemoving(s0, gone);
      AfterRemoving(s0, gone + {x}) ==
        Snapshot(s.documents - {x}, Erase(s.ids, x), s.fwd - {x}, RemoveRow(s.inv, x, s.fwd[x].Keys))
  {
    var s := AfterRemoving(s0, gone);
    assert x in s0.fwd && x !in gone && s.fwd[x] == s0.fwd[x];
    EraseEveryStep(s0.ids, gone, x);
    EraseDocumentsStep(s0.fwd, s0.inv, gone, x);
    assert s0.documents - (gone + {x}) == s.documents - {x};
    assert s0.fwd - (gone + {x}) == s.fwd - {x};
  }

  /** One RemoveDocument call of the chain, on the values of the state:
      the call skips an id that is not listed, throws for a stored document
      without words, and otherwise erases the document from all four fields. */
  lemma RemovalStep(s0: Snapshot, xs: seq<int>, done: nat, s: Snapshot)
    requires Progress(s0, xs, done, s) && done < |xs|
    requires Consistent(s0.documents, s0.ids, s0.fwd, s0.inv)
    ensures xs[done] !in s.ids ==> Progress(s0, xs, done + 1, s)
    ensures xs[done] in s.ids && xs[done] !in s.fwd ==> WordlessIn(s0.documents, s0.fwd, xs[done])
    ensures xs[done] in s.ids && xs[done] in s.fwd ==>
      Progress(s0, xs, done + 1, Snapshot(s.documents - {xs[done]}, Erase(s.ids, xs[done]), s.fwd - {xs[done]},
                                          RemoveRow(s.inv, xs[done], s.fwd[xs[done]].Keys)))
  {
    var x, gone := xs[done], Elements(xs[..done]);
    assert xs[..done + 1] == xs[..done] + [x];
    assert Elements(xs[..done + 1]) == gone + {x};
    assert forall k | 0 <= k < done :: xs[..done + 1][k] == xs[..done][k];
    if x !in s.ids {
      SkipStep(s0, gone, x);
    } else if x in s.fwd {
      EraseStep(s0, gone, x);
    } else {
      EraseEveryMembers(s0.ids, gone);
    }
  }

  /** The RemoveDocument calls of RemoveDuplicates, one per id in order,
      until one throws: `done` ids were handled, and if that is not all of
      them, the next one is a stored document without words. */
  method RemoveInOrder(server: SearchServer, ids: seq<int>) returns (r: Outcome, done: nat)
    requires server.Valid()
    modifies server
    ensures server.Valid()
    ensures Progress(old(StateOf(server)), ids, done, StateOf(server))
    ensures done == |ids| ==> r == Pass
    ensures done < |ids| ==> r == Fail(OutOfRange) && WordlessIn(old(server.documents), old(server.documentToWordFreqs), ids[done])
  {
    ghost var s0 := StateOf(server);
    assert Elements(ids[..0]) == {};
    EraseEveryNone(s0.ids);
    EraseDocumentsNone(s0.inv);
    done := 0;
    while done < |ids|
      invariant server.Valid()
      invariant Progress(s0, ids, done, StateOf(server))
      decreases |ids| - done
    {
      RemovalStep(s0, ids, done, StateOf(server));
      var outcome := server.RemoveDocument(ids[done]);
      if outcome.Fail? {
        return outcome, done;
      }
      done := done + 1;
    }
    return Pass, done;
  }

  /** RemoveDuplicates: the scanned ids are removed in the scan's order.
      The scan reads only its own vector, so removing after it equals
      removing during it. A duplicate without words makes RemoveDocument
      throw; the exception ends RemoveDuplicates with the earlier
      removals done. */
  method RemoveDuplicates(server: SearchServer) returns (r: Outcome, ghost entries: seq<Entry>, ghost removed: seq<int>)
    requires server.Valid()
    modifies server
    ensures server.Valid()
    ensures Ids(entries) == old(server.documentIds) && Distinct(entries)
    ensures forall k | 0 <= k < |entries| ::
      IsSortedSet(entries[k].words) && forall w :: w in entries[k].words <==> w in old(server.GetWordFrequencies(entries[k].id))
    ensures removed == Removals(entries)
    ensures r == Pass ==>
      && (forall k | 0 <= k < |removed| :: !WordlessIn(old(server.documents), old(server.documentToWordFreqs), removed[k]))
      && server.documents == old(server.documents) - Elements(removed)
      && server.documentIds == EraseEvery(old(server.documentIds), Elements(removed))
      && server.documentIds == Ids(Dedup(entries))
      && server.documentToWordFreqs == old(server.documentToWordFreqs) - Elements(removed)
      && server.wordToDocumentFreqs == EraseDocuments(old(server.wordToDocumentFreqs), Elements(removed))
    ensures r != Pass ==> r == Fail(OutOfRange) && exists f | 0 <= f < |removed| ::
      && WordlessIn(old(server.documents), old(server.documentToWordFreqs), removed[f])
      && (forall k | 0 <= k < f :: !WordlessIn(old(server.documents), old(server.documentToWordFreqs), removed[k]))
      && server.documents == old(server.documents) - Elements(removed[..f])
      && server.documentIds == EraseEvery(old(server.documentIds), Elements(removed[..f]))
      && server.documentToWordFreqs == old(server.documentToWordFreqs) - Elements(removed[..f])
      && server.wordToDocumentFreqs == EraseDocuments(old(server.wordToDocumentFreqs), Elements(removed[..f]))
  {
    var all := CollectEntries(server);
    IdsOfEntries(all, server.documentIds);
    assert forall p, q | 0 <= p < q < |all| :: all[p].id != all[q].id;
    var survivors, duplicates := ScanDuplicates(all);
    entries, removed := all, duplicates;
    SurvivorIds(all);
    var done;
    r, done := RemoveInOrder(server, duplicates);
    assert done == |removed| ==> removed[..done] == removed;
  }

  lemma {:induction false} IdsOfEntries(entries: seq<Entry>, ids: seq<int>)
    requires |entries| == |ids| && forall k | 0 <= k < |entries| :: entries[k].id == ids[k]
    ensures Ids(entries) == ids
    decreases |entries|
  {
    if entries != [] {
      IdsOfEntries(entries[1..], ids[1..]);
    }
  }
}
