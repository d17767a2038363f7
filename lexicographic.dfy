/** The order std::set<std::string> keeps its elements in, and such a set
    represented as a strictly increasing sequence. Characters compare by
    code; on UTF-8 text this is the byte order std::less uses. */
module Lexicographic {
  import opened Seqs

  /** a comes strictly before b: a is a proper prefix of b, or a has the
      smaller character at the first position where they differ. */
  predicate Less(a: string, b: string)
    decreases |a|
  {
    |b| > 0 && (|a| == 0 || a[0] < b[0] || (a[0] == b[0] && Less(a[1..], b[1..])))
  }

  lemma {:induction false} LessIrreflexive(a: string)
    ensures !Less(a, a)
    decreases |a|
  {
    if |a| > 0 {
      LessIrreflexive(a[1..]);
    }
  }

  lemma {:induction false} LessAsymmetric(a: string, b: string)
    requires Less(a, b)
    ensures !Less(b, a)
    decreases |a|
  {
    if |a| > 0 && a[0] == b[0] {
      LessAsymmetric(a[1..], b[1..]);
    }
  }

  lemma {:induction false} LessTransitive(a: string, b: string, c: string)
    requires Less(a, b) && Less(b, c)
    ensures Less(a, c)
    decreases |a|
  {
    if |a| > 0 && a[0] == b[0] && b[0] == c[0] {
      LessTransitive(a[1..], b[1..], c[1..]);
    }
  }

  lemma {:induction false} LessTotal(a: string, b: string)
    ensures a == b || Less(a, b) || Less(b, a)
    decreases |a|
  {
    if |a| > 0 && |b| > 0 && a[0] == b[0] {
      LessTotal(a[1..], b[1..]);
      if a[1..] == b[1..] {
        assert a == [a[0]] + a[1..] && b == [b[0]] + b[1..];
      }
    }
  }

  /** The elements of a std::set<std::string>, in iteration order. */
  predicate IsSortedSet(s: seq<string>)
  {
    forall i, j | 0 <= i < j < |s| :: Less(s[i], s[j])
  }

  /** std::set::insert: adds x unless it is already present. */
  function Insert(s: seq<string>, x: string): (r: seq<string>)
    requires IsSortedSet(s)
    ensures IsSortedSet(r)
    ensures forall y :: y in r <==> y in s || y == x
    decreases |s|
  {
    if s == [] then [x]
    else if x == s[0] then s
    else if Less(x, s[0]) then
      assert forall j | 0 <= j < |s| :: Less(x, s[j]) by {
        forall j | 0 <= j < |s| ensures Less(x, s[j]) {
          if j > 0 { LessTransitive(x, s[0], s[j]); }
        }
      }
      [x] + s
    else
      LessTotal(x, s[0]);
      var tail := Insert(s[1..], x);
      assert forall y :: y in s <==> y == s[0] || y in s[1..];
      assert forall j | 0 <= j < |tail| :: Less(s[0], tail[j]) by {
        forall j | 0 <= j < |tail| ensures Less(s[0], tail[j]) {
          if tail[j] != x {
            assert tail[j] in tail;
            assert tail[j] in s[1..];
            var k :| 0 <= k < |s[1..]| && s[1..][k] == tail[j];
            assert s[k + 1] == tail[j];
          }
        }
      }
      [s[0]] + tail
  }

  /** Two sorted sets with the same elements are the same sequence, so
      comparing the vectors of two sets compares their elements. */
  lemma {:induction false} SortedSetUnique(a: seq<string>, b: seq<string>)
    requires IsSortedSet(a) && IsSortedSet(b)
    requires forall y :: y in a <==> y in b
    ensures a == b
    decreases |a|
  {
    assert a != [] ==> a[0] in b;
    assert b != [] ==> b[0] in a;
    if a != [] && b != [] {
      if a[0] != b[0] {
        assert a[0] in a && b[0] in b;
        assert b[0] in a && a[0] in b;
        var i :| 0 <= i < |a| && a[i] == b[0];
        var j :| 0 <= j < |b| && b[j] == a[0];
        assert i > 0 && j > 0;
        LessAsymmetric(a[0], b[0]);
      }
      forall y ensures y in a[1..] <==> y in b[1..] {
        if y in a[1..] {
          var i :| 1 <= i < |a| && a[i] == y;
          LessIrreflexive(a[0]);
          assert y in b;
        }
        if y in b[1..] {
          var j :| 1 <= j < |b| && b[j] == y;
          LessIrreflexive(b[0]);
          assert y in a;
        }
        assert forall z :: z in a <==> z == a[0] || z in a[1..];
        assert forall z :: z in b <==> z == b[0] || z in b[1..];
      }
      SortedSetUnique(a[1..], b[1..]);
      assert a == [a[0]] + a[1..] && b == [b[0]] + b[1..];
    }
  }

  /** A sorted set holds no element twice. */
  lemma SortedSetDistinct(s: seq<string>)
    requires IsSortedSet(s)
    ensures Distinct(s)
  {
    forall i, j | 0 <= i < j < |s| ensures s[i] != s[j] {
      LessIrreflexive(s[i]);
    }
  }

  /** The keys of a std::map<std::string, V> in iteration order. */
  method SortedKeys<V>(m: map<string, V>) returns (keys: seq<string>)
    ensures IsSortedSet(keys)
    ensures forall w :: w in keys <==> w in m
  {
    keys := [];
    var todo := m.Keys;
    while todo != {}
      invariant IsSortedSet(keys)
      invariant todo <= m.Keys
      invariant forall w :: w in keys <==> w in m && w !in todo
      decreases todo
    {
      var w :| w in todo;
      keys := Insert(keys, w);
      todo := todo - {w};
    }
  }
}
