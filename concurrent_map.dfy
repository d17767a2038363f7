/** search-server/concurrent_map.h: a map from integer keys split over a
    fixed number of buckets, each a std::map of its own. The per-bucket
    mutexes are not modelled; the operations below are their sequential
    effect. */
module Buckets {

  /** 2^64: static_cast<uint64_t> of a signed key adds it modulo this. */
  const TwoTo64: int := 0x1_0000_0000_0000_0000

  /** The bucket a key routes to: the key as an unsigned 64-bit number,
      modulo the bucket count. */
  function BucketIndex(key: int, bucketCount: nat): (b: nat)
    requires bucketCount > 0
    ensures b < bucketCount
    ensures 0 <= key < TwoTo64 ==> b == key % bucketCount
  {
    (key % TwoTo64) % bucketCount
  }

  /** Negative keys wrap around: -1 is 2^64 - 1 before the modulo. */
  lemma NegativeKeyRouting()
    ensures BucketIndex(-1, 10) == 5
    ensures BucketIndex(-1, 2) == 1
    ensures BucketIndex(-3, 3) == 1
  {
  }

  /** Every key of every bucket is one that routes to that bucket. */
  ghost predicate Routed<V>(buckets: seq<map<int, V>>)
  {
    forall b, k | 0 <= b < |buckets| && k in buckets[b] :: BucketIndex(k, |buckets|) == b
  }

  /** So the buckets' key sets are pairwise disjoint. */
  lemma RoutedDisjoint<V>(buckets: seq<map<int, V>>, b: nat, c: nat)
    requires Routed(buckets)
    requires b < |buckets| && c < |buckets| && b != c
    ensures buckets[b].Keys * buckets[c].Keys == {}
  {
    forall k | k in buckets[b] ensures k !in buckets[c] {
      assert BucketIndex(k, |buckets|) == b;
    }
  }

  /** All the keys stored in any bucket. */
  ghost function StoredKeys<V>(buckets: seq<map<int, V>>): set<int>
  {
    set b, k | 0 <= b < |buckets| && k in buckets[b] :: k
  }

  /** The map the buckets stand for: each key with the value its own bucket holds. */
  ghost function Contents<V>(buckets: seq<map<int, V>>): (m: map<int, V>)
    requires Routed(buckets)
    ensures forall k :: k in m <==> |buckets| > 0 && k in buckets[BucketIndex(k, |buckets|)]
  {
    map k | k in StoredKeys(buckets) :: buckets[BucketIndex(k, |buckets|)][k]
  }

  /** The buckets std::map::insert(first, last) has merged, lowest first:
      a key already in the result keeps its value. */
  function Merge<V>(buckets: seq<map<int, V>>, n: nat): map<int, V>
    requires n <= |buckets|
    decreases n
  {
    if n == 0 then map[] else buckets[n - 1] + Merge(buckets, n - 1)
  }

  /** The keys of the first n buckets. */
  lemma {:induction false} MergeKeys<V>(buckets: seq<map<int, V>>, n: nat)
    requires n <= |buckets|
    ensures forall k :: k in Merge(buckets, n) <==> exists b | 0 <= b < n :: k in buckets[b]
    decreases n
  {
    if n > 0 {
      MergeKeys(buckets, n - 1);
    }
  }

  /** With routed buckets no key is in two of them, so the merge is the
      map the buckets stand for, whatever the insertion rule. */
  lemma {:induction false} MergeContents<V>(buckets: seq<map<int, V>>, n: nat)
    requires Routed(buckets) && n <= |buckets|
    ensures forall k | k in Merge(buckets, n) ::
      && |buckets| > 0 && BucketIndex(k, |buckets|) < n && k in buckets[BucketIndex(k, |buckets|)]
      && Merge(buckets, n)[k] == buckets[BucketIndex(k, |buckets|)][k]
    ensures forall k | |buckets| > 0 && BucketIndex(k, |buckets|) < n && k in buckets[BucketIndex(k, |buckets|)] ::
      k in Merge(buckets, n)
    decreases n
  {
    if n > 0 {
      MergeContents(buckets, n - 1);
    }
  }

  lemma MergeAll<V>(buckets: seq<map<int, V>>)
    requires Routed(buckets)
    ensures Merge(buckets, |buckets|) == Contents(buckets)
  {
    MergeContents(buckets, |buckets|);
    var merged, m := Merge(buckets, |buckets|), Contents(buckets);
    assert forall k :: k in merged <==> k in m;
  }

  /** Writing a key in its own bucket writes it in the map and nowhere else. */
  lemma StoreContents<V>(buckets: seq<map<int, V>>, key: int, value: V)
    requires Routed(buckets) && |buckets| > 0
    ensures var b := BucketIndex(key, |buckets|);
      Routed(buckets[b := buckets[b][key := value]]) &&
      Contents(buckets[b := buckets[b][key := value]]) == Contents(buckets)[key := value]
  {
    var b := BucketIndex(key, |buckets|);
    var after := buckets[b := buckets[b][key := value]];
    assert Routed(after);
    var m, m' := Contents(buckets), Contents(after);
    forall k | k in m' ensures k in m[key := value] && m'[k] == m[key := value][k] {
      if k != key {
        assert k in buckets[BucketIndex(k, |buckets|)];
      }
    }
  }

  class ConcurrentMap<V> {
    const bucketCount: nat
    const buckets: array<map<int, V>>
    /** The value Value() constructs, which operator[] inserts for a new key. */
    const default: V

    ghost predicate Valid()
      reads this, buckets
    {
      buckets.Length == bucketCount && Routed(buckets[..])
    }

    /** The map the buckets stand for. */
    ghost function Map(): map<int, V>
      reads this, buckets
      requires Valid()
    {
      Contents(buckets[..])
    }

    /** bucket_count empty buckets. */
    constructor (bucketCount: nat, default: V)
      ensures Valid()
      ensures this.bucketCount == bucketCount && this.default == default
      ensures fresh(buckets)
      ensures Map() == map[]
    {
      this.bucketCount := bucketCount;
      this.default := default;
      buckets := new map<int, V>[bucketCount](_ => map[]);
      new;
      assert forall b | 0 <= b < buckets.Length :: buckets[..][b] == map[];
    }

    /** operator[] followed by a write through the returned reference:
        the key's bucket default-inserts the key if it is new, then `update`
        is applied to the stored value, which is returned. A plain read is
        `update` the identity. The bucket count must not be zero, as the
        modulo by it would be undefined. */
    method Access(key: int, update: V -> V) returns (value: V)
      requires Valid() && bucketCount > 0
      modifies buckets
      ensures Valid()
      ensures value == update(if key in old(Map()) then old(Map())[key] else default)
      ensures Map() == old(Map())[key := value]
    {
      var b := BucketIndex(key, bucketCount);
      var current := if key in buckets[b] then buckets[b][key] else default;
      assert key in Map() <==> key in buckets[b];
      value := update(current);
      StoreContents(buckets[..], key, value);
      buckets[b] := buckets[b][key := value];
      assert buckets[..] == old(buckets[..])[b := old(buckets[b])[key := value]];
    }

    /** BuildOrdinaryMap: the buckets inserted one after another into one
        map; nothing in the buckets changes. */
    method BuildOrdinaryMap() returns (ordinary: map<int, V>)
      requires Valid()
      ensures ordinary == Map()
      ensures forall k :: k in ordinary <==> exists b | 0 <= b < buckets.Length :: k in buckets[b]
    {
      ordinary := map[];
      for i := 0 to buckets.Length
        invariant ordinary == Merge(buckets[..], i)
      {
        ordinary := buckets[i] + ordinary;
      }
      MergeAll(buckets[..]);
      MergeKeys(buckets[..], buckets.Length);
    }
  }

  /** A later access to a key sees what an earlier one stored there. */
  method AccessTwice<V>(m: ConcurrentMap<V>, key: int, first: V -> V, second: V -> V) returns (a: V, b: V)
    requires m.Valid() && m.bucketCount > 0
    modifies m.buckets
    ensures m.Valid()
    ensures b == second(a)
  {
    a := m.Access(key, first);
    b := m.Access(key, second);
  }
}
