# cpp-search-server in Dafny

This project models the core of cpp-search-server, an in-memory search
engine over text documents, and proves properties of the model. The engine
is a `SearchServer` object with four parts:

- the metadata of each document (text, average rating, status);
- the ordered list of document ids;
- an inverted index (word ↦ id ↦ term frequency);
- a forward index (id ↦ word ↦ term frequency).

Around it sit:

- the tokenising helpers `SplitIntoWords` and `MakeUniqueNonEmptyStrings`;
- `RequestQueue`, a one-day sliding window of search requests with a
  counter of the requests that found nothing;
- `RemoveDuplicates`, which removes every document whose word set equals
  that of an earlier document;
- `ConcurrentMap`, an integer-keyed map sharded over a fixed array of
  bucket maps;
- `ProcessQueries` and `ProcessQueriesJoined`, batch querying;
- the value types of `document.h`.

Modules, one per source file, plus four helper modules:

| module | file | models |
|---|---|---|
| `Results` | results.dfy | error kinds (invalid_argument, out_of_range) and the `Option`, `Result` and `Outcome` wrappers that stand for thrown exceptions |
| `Documents` | documents.dfy | `DocumentStatus` and `Document` of document.h |
| `Seqs` | seqs.dfy | counting, distinctness, and `Erase` (std::list::remove) |
| `Lexicographic` | lexicographic.dfy | the order of `std::string` and a `std::set<std::string>` as a strictly sorted sequence |
| `StringProcessing` | string_processing.dfy | SplitIntoWords, MakeUniqueNonEmptyStrings |
| `Index` | index.dfy | term frequencies and the forward/inverted index operations, on values |
| `Server` | search_server.dfy | the `SearchServer` class |
| `RequestQueues` | request_queue.dfy | the `RequestQueue` class |
| `Duplicates` | remove_duplicates.dfy | RemoveDuplicates |
| `Buckets` | concurrent_map.dfy | the `ConcurrentMap` class |
| `Queries` | process_queries.dfy | ProcessQueries, ProcessQueriesJoined |

Modelling choices:

- **Exceptions** become results. A `throw std::invalid_argument` is
  `Err(InvalidArgument)` or `Fail(InvalidArgument)`. A `.at` on a missing
  key is `OutOfRange`.
- **The server's state** is held in class fields, and the methods update
  them with `modifies this`. The object invariant `Valid()` says:
  - the id list has no repetitions;
  - it holds exactly the keys of the metadata map;
  - all ids are non-negative;
  - every forward row is non-empty and belongs to a stored document;
  - the two indices agree: `inv[w][d] == fwd[d][w]` whenever either side
    exists (`Index.Agree`).
- **Term frequencies** are `real`. The code adds `1.0 / n` once per
  occurrence; `Index.FreqsIsTermFreqs` proves this equals
  occurrences / n.
- **The average rating** truncates towards zero, as C++ `int` division
  does. This is written out in `Server.TruncDiv`, because Dafny's `/`
  is Euclidean.
- **`std::set` and `std::map` iteration order** is the byte-wise
  lexicographic order. Query plus/minus word sets and the key lists read
  from `GetWordFrequencies` are strictly sorted sequences, so the order
  of `MatchDocument`'s result and the vector comparison in
  `RemoveDuplicates` are modelled exactly.
- **`SplitIntoWordsView`** (a helper declared outside the modelled files)
  is the server's `splitter` field, an arbitrary function. Nothing about
  it is assumed.
- **Loops stay loops.** `SplitIntoWords`, `MakeUniqueNonEmptyStrings`,
  `SplitIntoWordsNoStop`, `ComputeAverageRating`, `ParseQuery`, the
  indexing loop of `AddDocument`, the erasure loops of `RemoveDocument`,
  both loops of `MatchDocument`, `BuildOrdinaryMap`,
  both batch functions and the scan of `RemoveDuplicates` are methods
  with loops. Each is proved equal to a specification function, and the
  properties are proved about that function.
- **The code's order of effects is followed where it matters.**
  - `AddDocument` stores the id and the metadata before it validates the
    words (search-server/search_server.cpp:17-23). An invalid word
    therefore leaves the document registered without index entries: the
    id and the metadata stay, and the exception is reported as
    `Fail(InvalidArgument)`.
  - A document without non-stop words gets no forward row. A later
    `RemoveDocument` of it reaches `document_to_word_freqs_.at` on a
    missing key and throws out_of_range (line 94). The model returns
    `Fail(OutOfRange)` with the state unchanged.
  - Because of this, `Server.AddThenRemove` proves that adding a document
    and removing it again restores the server only when the document had
    valid, non-stop words. In every other case the removal fails and the
    document stays.

## Model

| member | source | states |
|---|---|---|
| StringProcessing.FindFrom | search-server/string_processing.cpp:9 | the first position at or after `from` holding the character, or none exactly when no such position exists |
| StringProcessing.Find | search-server/string_processing.cpp:9 | `string_view::find`: the first position of the character, none iff absent |
| StringProcessing.SplitIntoWords | search-server/string_processing.cpp:4-18 | the `while (true)` loop with `remove_prefix` returns exactly `Split(str)`, the pieces between single spaces |
| StringProcessing.SplitStep | search-server/string_processing.cpp:9-15 | one loop round: pushing the prefix before the first space and dropping it with the space keeps the pieces found plus those still to find equal to `Split(str)` |
| StringProcessing.SplitShape | search-server/string_processing.cpp:8-10 | the result has at least one piece, and no piece contains a space |
| StringProcessing.JoinSplit | search-server/string_processing.cpp:8-16 | joining the pieces with single spaces gives back the input exactly |
| StringProcessing.SplitJoin | search-server/string_processing.cpp:8-16 | conversely, splitting the join of any non-empty list of space-free pieces (empty pieces included) gives the list back |
| StringProcessing.SplitAtSpace | search-server/string_processing.cpp:9-15 | splitting at a space splits the two sides independently |
| StringProcessing.SplitCount | search-server/string_processing.cpp:9-15 | the number of pieces is the number of spaces plus one |
| StringProcessing.SplitExamples | search-server/string_processing.cpp:9-10 | empty input gives `[""]`; leading, trailing and doubled spaces give empty pieces; a tab stays inside its piece |
| StringProcessing.MakeUniqueNonEmptyStrings | search-server/string_processing.h:11-19 | a string is in the result iff it is a non-empty element of the container; "" never is; the size is at most the container's length |
| StringProcessing.UniqueNonEmptyCard | search-server/string_processing.h:11-19 | the set has at most as many elements as the container (duplicates collapse) |
| StringProcessing.UniqueNonEmptyIdempotent | search-server/string_processing.h:11-19 | applied to any enumeration of its own result, the function returns the same set |
| Lexicographic.LessTransitive | search-server/search_server.cpp:263-265 | the order of `std::less<std::string>` is transitive (with LessIrreflexive, LessAsymmetric and LessTotal: a strict total order) |
| Lexicographic.LessTotal | search-server/search_server.cpp:263-265 | any two different strings are ordered |
| Lexicographic.Insert | search-server/search_server.cpp:263-265 | `std::set::emplace`: the result is sorted and holds exactly the old elements and the new one |
| Lexicographic.SortedSetUnique | search-server/search_server.cpp:263-265 | two sorted sets with the same elements are the same sequence |
| Lexicographic.SortedKeys | search-server/remove_duplicates.cpp:10-12 | iterating a `std::map` yields its keys sorted, each exactly once |
| Seqs.Erase | search-server/search_server.cpp:101 | `std::list::remove`: exactly the other elements remain, and the length drops by the number of occurrences |
| Seqs.EraseDistinct | search-server/search_server.cpp:101 | removing keeps a repetition-free list repetition-free |
| Seqs.EraseAppended | search-server/search_server.cpp:101 | removing a just-appended new id gives back the old list |
| Seqs.EraseEveryStep | search-server/search_server.cpp:101 | removing ids one at a time with `std::list::remove` equals filtering the list by the set of removed ids, order kept |
| Seqs.EraseEveryMembers | search-server/search_server.cpp:101 | after removing a set of ids, exactly the other elements remain |
| Seqs.CountPositive | search-server/search_server.cpp:90 | `count(...) > 0` holds exactly for members |
| Index.FreqsCount | search-server/search_server.cpp:25-29 | after the loop has seen n words, exactly those words have a frequency, each `step` times its number of occurrences |
| Index.FreqsIsTermFreqs | search-server/search_server.cpp:25-29 | adding `1.0 / n` per occurrence gives occurrences / n |
| Index.SumOverTermFreqs | search-server/search_server.cpp:25-29 | the frequencies of a set of the document's words sum to their occurrences over n |
| Index.TermFreqsSumToOne | search-server/search_server.cpp:25-29 | a document's frequencies sum to 1 |
| Index.AddOccurrence | search-server/search_server.cpp:27 | one round of the loop on the inverted index is one more occurrence in the document's row |
| Index.ForwardOccurrence | search-server/search_server.cpp:28 | one round of the loop on the forward index is one more occurrence in the document's row |
| Index.AddRowEmpty | search-server/search_server.cpp:25-29 | with no words the inverted index is untouched |
| Index.AddRowAgree | search-server/search_server.cpp:25-29 | writing a new document's row into both indices keeps them in agreement |
| Index.AddRowFrame | search-server/search_server.cpp:27 | the new row's words gain the id with the row's frequency; other documents' postings and values are unchanged; keys are the old keys plus the row's words |
| Index.RemoveRowEmpty | search-server/search_server.cpp:94-97 | erasing over no words changes nothing |
| Index.RemoveRowAgree | search-server/search_server.cpp:94-99 | erasing the id from the postings of its words and dropping its row keeps the indices in agreement, keeps every word key (even with an empty list), removes the id everywhere, and leaves other documents' entries unchanged |
| Index.EraseDocumentsStep | search-server/search_server.cpp:94-99 | erasing one more document's row from an index that has had a set of documents erased equals erasing the id from every posting list of the larger set; an id with no row, or already gone, changes nothing |
| Index.AddThenRemoveRow | search-server/search_server.cpp:94-99 | removing a just-added row leaves every posting list as before the add; new words stay as keys with empty lists |
| Server.IsValidWord | search-server/search_server.cpp:203-208 | valid iff no character is below `' '` (0x20) |
| Server.IsStopWord | search-server/search_server.cpp:199-201 | `count(word) > 0` on the stop-word `std::set`: the number of stop words equal to the word is positive exactly when it is a stop word |
| Server.NoStopWordsSpec | search-server/search_server.cpp:210-224 | success iff every word is valid (stop words included, as validation comes first); the error is invalid_argument; on success exactly the non-stop words, each with its original number of occurrences, and no stop word |
| Server.NoStopWordsAppend | search-server/search_server.cpp:215-222 | the push_back loop keeps order: the words of a concatenation are those of the first half followed by those of the second, and it fails iff either half fails; with the one-word case (a valid non-stop word is kept, a stop word is dropped) this fixes the order of the result |
| Server.TruncDivSpec | search-server/search_server.cpp:234 | the division truncates towards zero: the remainder has the sign of the dividend and is smaller than the divisor |
| Server.SumBounds | search-server/search_server.cpp:230-233 | the loop's sum lies between n times the lowest and n times the highest rating |
| Server.AverageRatingBounds | search-server/search_server.cpp:226-235 | the average of a non-empty list lies between its lowest and highest rating |
| Server.AverageRatingExamples | search-server/search_server.cpp:226-235 | 0 for no ratings; (-3,-4) gives -3 and (5,-12,2,1) gives -1, truncation towards zero; positive cases |
| Server.ParseQueryWord | search-server/search_server.cpp:237-255 | an empty token, a lone `-`, a token starting `--` or one with a control character fails with invalid_argument; on success the data has no leading `-`, putting the sign back gives the token, and `isStop` tells whether the word is a stop word |
| Server.ParseQueryWordRender | search-server/search_server.cpp:245-254 | every well-formed query word parses back from its text |
| Server.ParseTokens | search-server/search_server.cpp:257-270 | on success the plus and minus sets are sorted sets |
| Server.ParseTokensSpec | search-server/search_server.cpp:257-270 | success iff every token parses; the error is invalid_argument; w is a plus word iff some token is w and w is not a stop word; w is a minus word iff some token is `-w` and w is not a stop word |
| Server.MatchingSpec | search-server/search_server.cpp:155-163 | the plus words kept are exactly those whose posting list holds the id, in plus-word order |
| Server.MatchedWordsSpec | search-server/search_server.cpp:146-164 | if a minus word is in the document the result is empty; otherwise it is exactly the plus words in the document, sorted |
| Server.StatusPredicate | search-server/search_server.cpp:44-48 | the filter keeps a document iff its status is the requested one |
| Server.DefaultPredicate | search-server/search_server.cpp:53 | the default filter keeps exactly the Actual documents |
| Server.CopyMatching | search-server/search_server.cpp:155-163 | the push_back loop (and the copy_if) produce exactly `Matching` |
| Server.MatchWords | search-server/search_server.cpp:145-164 | the minus-word loop with early return and then the plus-word loop produce `MatchedWords` |
| Server.EraseEverywhere | search-server/search_server.cpp:94-97 | the erase loop over the document's words gives `RemoveRow` |
| Server.EraseEach | search-server/search_server.cpp:110-124 | the per-word erasure over the copied word vector gives the same `RemoveRow` |
| Server.IndexWords | search-server/search_server.cpp:25-29 | the loop writes `Freqs(words)` as the new forward row and adds it to the inverted index |
| Server.RegisterConsistent | search-server/search_server.cpp:17-22 | appending a new id and storing its metadata keeps the invariant, and the id has no index entries yet |
| Server.IndexConsistent | search-server/search_server.cpp:25-29 | indexing a registered document's words keeps the invariant |
| Server.EraseConsistent | search-server/search_server.cpp:94-101 | removing a document from all four fields keeps the invariant |
| Server.RoundTrip | search-server/search_server.cpp:17-101 | the state changes of adding a new document with a forward row and removing it cancel out |
| Server.SearchServer.constructor | search-server/search_server.cpp:3-9 | an empty server with the given stop words and splitter |
| Server.SearchServer.GetDocumentCount | search-server/search_server.cpp:71-73 | `documents_.size()` equals the length of the id list |
| Server.SearchServer.GetWordFrequencies | search-server/search_server.cpp:75-83 | the empty map for an unknown id, never a failure; the row's words are exactly those whose posting list holds the id, with the same frequencies |
| Server.SearchServer.ComputeAverageRating | search-server/search_server.cpp:226-235 | the loop returns `AverageRating`: 0 for no ratings, else the sum divided by the count, truncated towards zero |
| Server.SearchServer.SplitIntoWordsNoStop | search-server/search_server.cpp:210-224 | the loop returns `NoStopWords` of the split text |
| Server.SearchServer.ParseQuery | search-server/search_server.cpp:257-270 | the loop returns `ParseTokens` of the split text |
| Server.SearchServer.AddDocument | search-server/search_server.cpp:11-31 | a negative or known id fails with invalid_argument and changes nothing; otherwise the id is appended, the metadata stored with the truncated average rating and the count rises by one; an invalid word then fails with the indices unchanged; otherwise both indices get occurrences / n for each non-stop word, and a document without such words gets no forward row; the invariant is kept |
| Server.SearchServer.RemoveDocument | search-server/search_server.cpp:89-102 | an id not in the list is a no-op; a listed id without a forward row fails with out_of_range and changes nothing; otherwise the id leaves every posting list of its words, the forward index, the metadata and the id list, and nothing else changes; the invariant is kept |
| Server.SearchServer.RemoveDocumentParallel | search-server/search_server.cpp:104-129 | the same outcomes and final states as the sequential version |
| Server.SearchServer.MatchDocument | search-server/search_server.cpp:136-165 | out_of_range for an id not in the list, checked before parsing; the parse error of a bad query; otherwise `MatchedWords` (see MatchedWordsSpec) and the document's status |
| Server.SearchServer.MatchDocumentParallel | search-server/search_server.cpp:167-197 | the same result as the sequential version |
| Server.AddThenRemove | search-server/search_server.cpp:11-102 | adding a new document and removing it restores the count, id list, metadata and forward index, and every posting list, when its words are valid and not all stop words; otherwise the removal fails with out_of_range and the document stays |
| RequestQueues.CountEmpty | search-server/request_queue.h:17-26 | the number of stored empty results is at most the number stored, and zero iff none is empty |
| RequestQueues.CountEmptyAppend | search-server/request_queue.h:17-19 | pushing a request adds one iff its result is empty |
| RequestQueues.SlideLength | search-server/request_queue.h:20-26 | the window never exceeds 1440, grows by one until full, then keeps its length |
| RequestQueues.SlideFifo | search-server/request_queue.h:20-26 | the newest request is at the back, and the window is a suffix of the old window followed by it |
| RequestQueues.SlideCount | search-server/request_queue.h:17-25 | the counter's increment and decrement match the change in the number of empty results |
| RequestQueues.ReplayIsLastDay | search-server/request_queue.h:20-26 | after any history the window holds exactly its last 1440 requests, in order |
| RequestQueues.RequestQueue.constructor | search-server/request_queue.h:11 | no requests and a zero counter |
| RequestQueues.RequestQueue.AddFindRequest | search-server/request_queue.h:14-29 | returns the search result unchanged; the window slides (oldest evicted when full, new request with the query text and `is_empty == result.empty()` at the back); the counter keeps counting the empty results and the window stays within a day |
| RequestQueues.RequestQueue.GetNoResultRequests | search-server/request_queue.h:34 | the number of stored requests with an empty result, between 0 and the window length |
| Duplicates.WithoutMembers | search-server/remove_duplicates.cpp:18-24 | the inner loop keeps exactly the later entries whose words differ |
| Duplicates.EraseLaterDuplicates | search-server/remove_duplicates.cpp:18-24 | the inner loop with `erase` and `j--` leaves the entries up to i, then the later entries with other words in order, so no entry is skipped; it removes the ids of the later equal ones, in order |
| Duplicates.ScanDuplicates | search-server/remove_duplicates.cpp:17-26 | the nested loops leave `Dedup(entries)` and remove `Removals(entries)` |
| Duplicates.ShortScan | search-server/remove_duplicates.cpp:17 | with zero or one document nothing is removed |
| Duplicates.DedupIsKeep | search-server/remove_duplicates.cpp:17-26 | the scan keeps exactly what the one-pass reference keeps: an entry whose words no earlier entry has |
| Duplicates.KeepDistinct | search-server/remove_duplicates.cpp:17-26 | the reference keeps entries of the input, none with seen words, no two with equal words |
| Duplicates.KeepFirst | search-server/remove_duplicates.cpp:17-26 | an entry is kept iff its words are unseen and no earlier entry has them |
| Duplicates.KeepOrder | search-server/remove_duplicates.cpp:17-26 | the reference keeps a subsequence of its input |
| Duplicates.ScanPartition | search-server/remove_duplicates.cpp:17-26 | every id is either kept or removed, exactly once |
| Duplicates.ScanKeepsFirsts | search-server/remove_duplicates.cpp:17-26 | no two survivors have equal words, and an entry survives iff no earlier entry has its words |
| Duplicates.ScanWithoutDuplicates | search-server/remove_duplicates.cpp:17-26 | without duplicates nothing is removed and nothing moves |
| Duplicates.ScanKeepsOrder | search-server/remove_duplicates.cpp:17-26 | the survivors keep their relative order |
| Duplicates.SameWords | search-server/remove_duplicates.cpp:19 | comparing the key vectors compares the documents' word sets; frequencies are ignored |
| Duplicates.CollectEntries | search-server/remove_duplicates.cpp:7-15 | one entry per listed id, in list order, each with the sorted words of its `GetWordFrequencies` row |
| Duplicates.SkipStep | search-server/remove_duplicates.cpp:21 | removing an id no longer listed changes no part of the state: metadata, id list, forward and inverted index |
| Duplicates.EraseStep | search-server/remove_duplicates.cpp:21 | one `RemoveDocument` of a listed id with a row, after a set of removals, gives the state after removing the larger set: metadata and row dropped, id erased from the list in place, id erased from the posting lists of its words |
| Duplicates.RemovalStep | search-server/remove_duplicates.cpp:21 | one `RemoveDocument` call in the scan's removal order, in each of its three outcomes; after the first k calls the metadata, the id list (order kept), the forward index and the posting lists are those of the original state with the first k ids removed |
| Duplicates.RemoveInOrder | search-server/remove_duplicates.cpp:21 | removes the ids in order, stopping at the first one that fails (a document without words), and says which; the whole state, id order and posting lists included, is the original with the done prefix removed |
| Duplicates.OnlyErased | search-server/remove_duplicates.cpp:18-24 | for distinct ids, erasing the ids of the later equal entries from the id list leaves the ids of the entries the inner loop keeps, in order |
| Duplicates.SurvivorIds | search-server/remove_duplicates.cpp:17-26 | for distinct ids, erasing every removed id from the id list leaves exactly the survivors' ids, in their order |
| Duplicates.RemoveDuplicates | search-server/remove_duplicates.cpp:3-27 | the entries are the server's documents in id-list order with their sorted words; the removed ids are `Removals(entries)`; when all removals succeed, exactly those documents are gone from the metadata and the forward index, the id list is the survivors' ids in their original order, and every posting list has exactly the removed ids erased; otherwise it fails with out_of_range at the first removed document without words, with the earlier ones gone from all four parts of the state |
| Buckets.BucketIndex | search-server/concurrent_map.h:18 | the bucket is below the bucket count, and is `key % bucket_count` for keys representable unsigned |
| Buckets.NegativeKeyRouting | search-server/concurrent_map.h:18 | negative keys route through the 64-bit unsigned cast (-1 goes to bucket 5 of 10) |
| Buckets.RoutedDisjoint | search-server/concurrent_map.h:17-20 | with each key only in its own bucket, the buckets' key sets are pairwise disjoint |
| Buckets.Contents | search-server/concurrent_map.h:17-20 | a key is in the abstract map iff it is in the bucket it routes to |
| Buckets.MergeKeys | search-server/concurrent_map.h:22-29 | the merged map holds exactly the keys of the buckets merged so far |
| Buckets.MergeContents | search-server/concurrent_map.h:22-29 | every merged key has the value its own bucket holds |
| Buckets.MergeAll | search-server/concurrent_map.h:22-29 | merging all buckets gives the abstract map |
| Buckets.StoreContents | search-server/concurrent_map.h:19 | writing a key in its own bucket keeps the routing and writes that key alone in the map |
| Buckets.ConcurrentMap.constructor | search-server/concurrent_map.h:15 | `bucket_count` empty buckets; the abstract map is empty |
| Buckets.ConcurrentMap.Access | search-server/concurrent_map.h:17-20 | the value is the update of the stored value, or of the default for a new key; the map changes at that key only |
| Buckets.ConcurrentMap.BuildOrdinaryMap | search-server/concurrent_map.h:22-29 | the result is the abstract map, and it holds exactly the keys in some bucket; nothing changes |
| Buckets.AccessTwice | search-server/concurrent_map.h:10-13 | a later access to a key sees what the earlier one wrote |
| Queries.AnswersPointwise | search-server/process_queries.cpp:7-13 | one answer per query, the i-th answering the i-th query |
| Queries.FlattenLength | search-server/process_queries.cpp:20-24 | the joined length is the sum of the lengths |
| Queries.FlattenAppend | search-server/process_queries.cpp:22-24 | joining two batches is joining each and concatenating |
| Queries.FlattenPosition | search-server/process_queries.cpp:22-24 | element j of list i sits after all elements of the earlier lists, in its own order |
| Queries.ProcessQueries | search-server/process_queries.cpp:3-15 | `res[i]` is the result of query i for every i, and `|res| == |queries|` |
| Queries.ProcessQueriesJoined | search-server/process_queries.cpp:17-26 | the concatenation of the per-query results in query order, its length their total |
| Queries.EmptyBatch | search-server/process_queries.cpp:7 | no queries give empty results for both functions |

## Left out

- FindTopDocuments ranking: the ranking body is declared outside the modelled files, and the IDF in `ComputeWordInverseDocumentFreq` uses `log` on doubles. Only the status filters are modelled (`StatusPredicate`, `DefaultPredicate`). `RequestQueue` and `ProcessQueries` take the search as an input value or a function parameter.
- Parallel execution and the `ConcurrentMap` mutexes: the sequential semantics are modelled. The parallel `RemoveDocument` and `MatchDocument` are proved to give the sequential results; parallel `FindTopDocuments` is not modelled.
- An exception inside the parallel `transform` of `ProcessQueries` calls `std::terminate`: not modelled, since the search is a total function here.
- log_duration.h (timing and printing) and main.cpp (entry point) are not part of this model.
- Output and exception texts: the `std::cout` line of `RemoveDuplicates` and `operator<<` of `Document` are not modelled. Only the kind of each exception is kept. This includes the message built at search_server.cpp:140, which offsets into the string literal by the id instead of appending the id. For an id outside 0..21 (the literal's length) the offset lands outside the literal, which is undefined behaviour; the model assumes `out_of_range` is still thrown.
- `string_view` lifetimes and aliasing into the stored document text: words are plain strings.
- The stop-word constructors and `SplitIntoWordsView`: their bodies are not in the modelled files. The stop-word set and the splitter are constructor parameters.
- Server.SearchServer.ComputeAverageRating: `int` overflow of the rating sum is not modelled; integers are unbounded.
- Server.Sum: the same overflow is not modelled.
- Iterating a `SearchServer` (`begin`/`end`, used by `RemoveDuplicates`): its body is not in the modelled files. It is taken to walk `document_ids_` in order.
- RequestQueues.RequestQueue.GetNoResultRequests: its body is in request_queue.cpp, which is not part of this model. It is taken to return `empty_num_`.
- RequestQueues.RequestQueue.constructor: its body is in request_queue.cpp, which is not part of this model. It is taken to store the server and leave the window and counter empty.
- Duplicates.RemoveDuplicates: the scan of the local vector and the `RemoveDocument` calls are modelled as two phases, scan first and then removals in the same order. This is equivalent because the scan reads only its own vector. A `RemoveDocument` that throws mid-scan (a document without words) ends both in the code; in the model the removal phase stops at the same id. The ghost out-parameters `entries` and `removed` exist only for the contract.
- Buckets.ConcurrentMap.Access: requires a non-zero bucket count, since the modulo by zero in the code is undefined behaviour. The reference it returns is modelled as an update function applied under the lock.
- `Value()` for a new `ConcurrentMap` key is the `default` constructor parameter.
- The `Query` struct's `plus_words` and `minus_words` are declared in search_server.h, which is not part of this model. They are taken to be `std::set<std::string_view>` (sorted, duplicate-free). The `.emplace` calls at search_server.cpp:264-266 rule out a vector but not an `unordered_set`, and the order of `MatchDocument`'s result depends on this choice.
- The remaining `search_server.h` members (the templated `FindTopDocuments`, `FindAllDocuments`, the `Query` struct details and the data layout) are not part of this model, beyond what search_server.cpp shows.
