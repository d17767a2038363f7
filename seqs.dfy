/** Sequence helpers shared by the modules of the model. */
module Seqs {

  /** The set of elements of a sequence. */
  function Elements<T>(s: seq<T>): set<T>
  {
    set x | x in s
  }

  lemma AppendAssoc<T>(p: seq<T>, q: seq<T>, r: seq<T>)
    ensures p + (q + r) == (p + q) + r
  {
  }

  /** Number of occurrences of x in s (std::count). */
  function Count<T(==)>(s: seq<T>, x: T): nat
    decreases |s|
  {
    if s == [] then 0
    else Count(s[..|s| - 1], x) + (if s[|s| - 1] == x then 1 else 0)
  }

  lemma {:induction false} CountAppend<T>(a: seq<T>, b: seq<T>, x: T)
    ensures Count(a + b, x) == Count(a, x) + Count(b, x)
    decreases |b|
  {
    if b == [] {
      assert a + b == a;
    } else {
      assert (a + b)[..|a + b| - 1] == a + b[..|b| - 1];
      CountAppend(a, b[..|b| - 1], x);
    }
  }

  lemma {:induction false} CountPositive<T>(s: seq<T>, x: T)
    ensures Count(s, x) > 0 <==> x in s
    decreases |s|
  {
    if s != [] {
      CountPositive(s[..|s| - 1], x);
      assert s == s[..|s| - 1] + [s[|s| - 1]];
    }
  }

  /** No element occurs twice. */
  predicate Distinct<T(==)>(s: seq<T>)
  {
    forall i, j | 0 <= i < j < |s| :: s[i] != s[j]
  }

  /** std::list::remove: every occurrence of x is dropped, the rest keep their order. */
  function Erase(s: seq<int>, x: int): (r: seq<int>)
    ensures forall y :: y in r <==> y in s && y != x
    ensures |r| == |s| - Count(s, x)
    decreases |s|
  {
    if s == [] then []
    else
      var init := Erase(s[..|s| - 1], x);
      assert forall y :: y in s <==> y in s[..|s| - 1] || y == s[|s| - 1];
      if s[|s| - 1] == x then init else init + [s[|s| - 1]]
  }

  lemma {:induction false} EraseDistinct(s: seq<int>, x: int)
    requires Distinct(s)
    ensures Distinct(Erase(s, x))
    decreases |s|
  {
    if s != [] {
      var init := s[..|s| - 1];
      EraseDistinct(init, x);
      assert s[|s| - 1] !in init;
    }
  }

  /** Removing a value that does not occur changes nothing. */
  lemma {:induction false} EraseNotIn(s: seq<int>, x: int)
    requires x !in s
    ensures Erase(s, x) == s
    decreases |s|
  {
    if s != [] {
      EraseNotIn(s[..|s| - 1], x);
      assert s[..|s| - 1] + [s[|s| - 1]] == s;
    }
  }

  /** Appending a new value and removing it again gives back the list. */
  lemma EraseAppended(s: seq<int>, x: int)
    requires x !in s
    ensures Erase(s + [x], x) == s
  {
    assert (s + [x])[..|s|] == s;
    EraseNotIn(s, x);
  }

  /** The elements of s that are not in `gone`, in their order: s after
      std::list::remove of each element of `gone`. */
  function EraseEvery(s: seq<int>, gone: set<int>): seq<int>
    decreases |s|
  {
    if s == [] then []
    else
      var init := EraseEvery(s[..|s| - 1], gone);
      if s[|s| - 1] in gone then init else init + [s[|s| - 1]]
  }

  lemma {:induction false} EraseEveryMembers(s: seq<int>, gone: set<int>)
    ensures forall y :: y in EraseEvery(s, gone) <==> y in s && y !in gone
    decreases |s|
  {
    if s != [] {
      EraseEveryMembers(s[..|s| - 1], gone);
      assert forall y :: y in s <==> y in s[..|s| - 1] || y == s[|s| - 1];
    }
  }

  lemma {:induction false} EraseEveryNone(s: seq<int>)
    ensures EraseEvery(s, {}) == s
    decreases |s|
  {
    if s != [] {
      EraseEveryNone(s[..|s| - 1]);
      assert s[..|s| - 1] + [s[|s| - 1]] == s;
    }
  }

  /** EraseEvery from the front: the first element stays unless it is gone. */
  lemma {:induction false} EraseEveryCons(a: int, t: seq<int>, gone: set<int>)
    ensures EraseEvery([a] + t, gone) == (if a in gone then [] else [a]) + EraseEvery(t, gone)
    decreases |t|
  {
    var s := [a] + t;
    if t == [] {
      assert s[..|s| - 1] == [];
    } else {
      var init, last := t[..|t| - 1], t[|t| - 1];
      assert s[..|s| - 1] == [a] + init && s[|s| - 1] == last;
      EraseEveryCons(a, init, gone);
      var head := if a in gone then [] else [a];
      AppendAssoc(head, EraseEvery(init, gone), if last in gone then [] else [last]);
    }
  }

  /** Only membership of the sequence's own elements in `gone` matters. */
  lemma {:induction false} EraseEveryAgree(s: seq<int>, gone: set<int>, gone': set<int>)
    requires forall i | 0 <= i < |s| :: s[i] in gone <==> s[i] in gone'
    ensures EraseEvery(s, gone) == EraseEvery(s, gone')
    decreases |s|
  {
    if s != [] {
      EraseEveryAgree(s[..|s| - 1], gone, gone');
    }
  }

  /** Removing one set and then another is removing both. */
  lemma {:induction false} EraseEveryTwice(s: seq<int>, a: set<int>, b: set<int>)
    ensures EraseEvery(EraseEvery(s, a), b) == EraseEvery(s, a + b)
    decreases |s|
  {
    if s != [] {
      var init, last := s[..|s| - 1], s[|s| - 1];
      EraseEveryTwice(init, a, b);
      var x := EraseEvery(init, a);
      if last !in a {
        assert (x + [last])[..|x|] == x;
      }
    }
  }

  /** A list starting with a value is repetition-free iff the value does
      not recur and the rest is repetition-free. */
  lemma DistinctCons<T>(a: T, t: seq<T>)
    ensures Distinct([a] + t) <==> a !in t && Distinct(t)
  {
    var s := [a] + t;
    if Distinct(s) {
      forall i, j | 0 <= i < j < |t| ensures t[i] != t[j] {
        assert s[i + 1] == t[i] && s[j + 1] == t[j];
      }
      forall i | 0 <= i < |t| ensures t[i] != a {
        assert s[0] == a && s[i + 1] == t[i];
      }
    }
    if a !in t && Distinct(t) {
      forall i, j | 0 <= i < j < |s| ensures s[i] != s[j] {
        if i > 0 {
          assert s[i] == t[i - 1] && s[j] == t[j - 1];
        } else {
          assert s[j] == t[j - 1];
        }
      }
    }
  }

  /** Removing one more value is removing one more element of `gone`. */
  lemma {:induction false} EraseEveryStep(s: seq<int>, gone: set<int>, x: int)
    ensures Erase(EraseEvery(s, gone), x) == EraseEvery(s, gone + {x})
    decreases |s|
  {
    if s != [] {
      var init, last := s[..|s| - 1], s[|s| - 1];
      EraseEveryStep(init, gone, x);
      var a := EraseEvery(init, gone);
      if last !in gone {
        assert (a + [last])[..|a|] == a;
      }
    }
  }

  /** A sequence without repetitions has as many elements as its set. */
  lemma {:induction false} DistinctCard<T>(s: seq<T>)
    requires Distinct(s)
    ensures |Elements(s)| == |s|
    decreases |s|
  {
    if s != [] {
      var init := s[..|s| - 1];
      DistinctCard(init);
      assert Elements(s) == Elements(init) + {s[|s| - 1]};
      assert s[|s| - 1] !in Elements(init);
    }
  }

  /** A sequence has at least as many positions as distinct elements. */
  lemma {:induction false} ElementsCard<T>(s: seq<T>)
    ensures |Elements(s)| <= |s|
    decreases |s|
  {
    if s != [] {
      var init := s[..|s| - 1];
      ElementsCard(init);
      assert Elements(s) == Elements(init) + {s[|s| - 1]};
    }
  }
}
