/** search-server/string_processing.cpp and string_processing.h: splitting
    on single spaces, and the set of non-empty strings of a container. */
module StringProcessing {
  import opened Results
  import opened Seqs

  /** std::string_view::find(c, from): the first position at or after
      `from` holding c, or None for npos. */
  function FindFrom(s: string, c: char, from: nat): (r: Option<nat>)
    requires from <= |s|
    ensures r.None? <==> forall i | from <= i < |s| :: s[i] != c
    ensures r.Some? ==> from <= r.value < |s| && s[r.value] == c
    ensures r.Some? ==> forall i | from <= i < r.value :: s[i] != c
    decreases |s| - from
  {
    if from == |s| then None
    else if s[from] == c then Some(from)
    else FindFrom(s, c, from + 1)
  }

  /** std::string_view::find(c): the first position of c, or None for npos. */
  function Find(s: string, c: char): (r: Option<nat>)
    ensures r.None? <==> NotIn(s, c)
    ensures r.Some? ==> r.value < |s| && s[r.value] == c
    ensures r.Some? ==> forall i | 0 <= i < r.value :: s[i] != c
  {
    FindFrom(s, c, 0)
  }

  /** The character does not occur in the string. */
  predicate NotIn(s: string, c: char)
  {
    forall i | 0 <= i < |s| :: s[i] != c
  }

  /** The pieces SplitIntoWords returns: the text before the first space,
      then the pieces of the text after it. */
  function Split(s: string): seq<string>
    decreases |s|
  {
    match Find(s, ' ')
    case None => [s]
    case Some(k) => [s[..k]] + Split(s[k + 1..])
  }

  /** The pieces put back together with one space between neighbours. */
  function Join(pieces: seq<string>): string
    decreases |pieces|
  {
    if |pieces| == 0 then ""
    else if |pieces| == 1 then pieces[0]
    else pieces[0] + " " + Join(pieces[1..])
  }

  /** No piece contains a space. */
  predicate SpaceFree(pieces: seq<string>)
  {
    forall i | 0 <= i < |pieces| :: NotIn(pieces[i], ' ')
  }

  /** SplitIntoWords: repeatedly cut the text at its first space, keeping
      every piece, empty or not; the rest after the last space is the last piece. */
  method SplitIntoWords(str: string) returns (result: seq<string>)
    ensures result == Split(str)
  {
    result := [];
    var rest := str;
    while true
      invariant result + Split(rest) == Split(str)
      decreases |rest|
    {
      var space := Find(rest, ' ');
      SplitStep(str, result, rest);
      if space.None? {
        result := result + [rest];
        break;
      }
      result := result + [rest[..space.value]];
      rest := rest[space.value + 1..];
    }
  }

  /** One cut of SplitIntoWords' loop: the pieces found so far, then the
      first piece of the rest, then the pieces after it. */
  lemma {:induction false} SplitStep(str: string, result: seq<string>, rest: string)
    requires result + Split(rest) == Split(str)
    ensures Find(rest, ' ').None? ==> result + [rest] == Split(str)
    ensures Find(rest, ' ').Some? ==>
      var k := Find(rest, ' ').value;
      (result + [rest[..k]]) + Split(rest[k + 1..]) == Split(str)
  {
    if Find(rest, ' ').Some? {
      var k := Find(rest, ' ').value;
      assert Split(rest) == [rest[..k]] + Split(rest[k + 1..]);
      assert (result + [rest[..k]]) + Split(rest[k + 1..]) == result + Split(rest);
    }
  }

  /** There is always at least one piece, and no piece contains a space. */
  lemma {:induction false} SplitShape(s: string)
    ensures |Split(s)| >= 1
    ensures SpaceFree(Split(s))
    decreases |s|
  {
    match Find(s, ' ')
    case None =>
    case Some(k) =>
      SplitShape(s[k + 1..]);
  }

  /** Find stops at the first occurrence. */
  lemma FindFirst(s: string, c: char, k: nat)
    requires k < |s| && s[k] == c
    requires forall i | 0 <= i < k :: s[i] != c
    ensures Find(s, c) == Some(k)
  {
  }

  /** Joining the pieces with single spaces gives back the text. */
  lemma {:induction false} JoinSplit(s: string)
    ensures Join(Split(s)) == s
    decreases |s|
  {
    match Find(s, ' ')
    case None =>
    case Some(k) =>
      var rest := s[k + 1..];
      var pieces := Split(s);
      assert pieces == [s[..k]] + Split(rest);
      SplitShape(rest);
      assert pieces[1..] == Split(rest);
      assert Join(pieces) == s[..k] + " " + Join(Split(rest));
      JoinSplit(rest);
      assert s == s[..k] + " " + rest;
  }

  /** Splitting a joined list of space-free pieces gives back the list:
      Split is the inverse of Join, so the pieces are determined by the text. */
  lemma {:induction false} SplitJoin(pieces: seq<string>)
    requires |pieces| >= 1 && SpaceFree(pieces)
    ensures Split(Join(pieces)) == pieces
    decreases |pieces|
  {
    if |pieces| == 1 {
      assert Find(pieces[0], ' ').None?;
    } else {
      var head, tail := pieces[0], pieces[1..];
      var s := Join(pieces);
      assert s == head + " " + Join(tail);
      assert s[..|head|] == head;
      assert forall i | 0 <= i < |head| :: s[i] == head[i];
      FindFirst(s, ' ', |head|);
      assert Split(s) == [head] + Split(s[|head| + 1..]);
      assert s[|head| + 1..] == Join(tail);
      SplitJoin(tail);
      assert pieces == [head] + tail;
    }
  }

  /** Cutting at one space splits the pieces at that point; so a leading,
      trailing or doubled space gives an empty piece. */
  lemma {:induction false} SplitAtSpace(a: string, b: string)
    ensures Split(a + " " + b) == Split(a) + Split(b)
    decreases |a|
  {
    var s := a + " " + b;
    var f := Find(a, ' ');
    assert forall i | 0 <= i < |a| :: s[i] == a[i];
    if f.None? {
      FindFirst(s, ' ', |a|);
      assert s[..|a|] == a && s[|a| + 1..] == b;
      assert Split(s) == [a] + Split(b);
      assert Split(a) == [a];
    } else {
      var k := f.value;
      FindFirst(s, ' ', k);
      var rest := a[k + 1..];
      assert s[..k] == a[..k] && s[k + 1..] == rest + " " + b;
      assert Split(s) == [a[..k]] + Split(rest + " " + b);
      assert Split(a) == [a[..k]] + Split(rest);
      SplitAtSpace(rest, b);
      AppendAssoc([a[..k]], Split(rest), Split(b));
    }
  }

  /** There is one more piece than there are spaces. */
  lemma {:induction false} SplitCount(s: string)
    ensures |Split(s)| == Count(s, ' ') + 1
    decreases |s|
  {
    match Find(s, ' ')
    case None =>
      CountPositive(s, ' ');
    case Some(k) =>
      var rest := s[k + 1..];
      SplitCount(rest);
      assert s == s[..k] + [' '] + rest;
      CountAppend(s[..k] + [' '], rest, ' ');
      CountAppend(s[..k], [' '], ' ');
      CountPositive(s[..k], ' ');
      assert Count([' '], ' ') == 1 by {
        assert [' '][..0] == [];
      }
  }

  /** Only the space character separates: the empty text is one empty
      piece, and a tab or a newline stays inside its piece. */
  lemma SplitExamples()
    ensures Split("") == [""]
    ensures Split(" a\tb  ") == ["", "a\tb", "", ""]
  {
    SplitJoin(["", "a\tb", "", ""]);
    assert Join(["", "a\tb", "", ""]) == " a\tb  ";
  }

  /** The set MakeUniqueNonEmptyStrings builds. */
  function UniqueNonEmpty(container: seq<string>): set<string>
  {
    set w | w in container && w != ""
  }

  /** MakeUniqueNonEmptyStrings: insert every non-empty string of the
      container into a set. */
  method MakeUniqueNonEmptyStrings(container: seq<string>) returns (nonEmptyWords: set<string>)
    ensures forall w :: w in nonEmptyWords <==> w in container && w != ""
    ensures "" !in nonEmptyWords
    ensures |nonEmptyWords| <= |container|
    ensures nonEmptyWords == UniqueNonEmpty(container)
  {
    nonEmptyWords := {};
    for i := 0 to |container|
      invariant nonEmptyWords == UniqueNonEmpty(container[..i])
    {
      if container[i] != "" {
        nonEmptyWords := nonEmptyWords + {container[i]};
      }
      assert container[..i + 1] == container[..i] + [container[i]];
    }
    assert container[..|container|] == container;
    UniqueNonEmptyCard(container);
  }

  /** Duplicates collapse: the set is no larger than the container. */
  lemma {:induction false} UniqueNonEmptyCard(container: seq<string>)
    ensures |UniqueNonEmpty(container)| <= |container|
  {
    var nonEmpty, all := UniqueNonEmpty(container), Elements(container);
    assert nonEmpty <= all;
    assert all == nonEmpty + (all - nonEmpty);
    ElementsCard(container);
  }

  /** Applying the function to (an enumeration of) its own result gives the same set. */
  lemma UniqueNonEmptyIdempotent(container: seq<string>, enumeration: seq<string>)
    requires Elements(enumeration) == UniqueNonEmpty(container)
    ensures UniqueNonEmpty(enumeration) == UniqueNonEmpty(container)
  {
    forall w ensures w in UniqueNonEmpty(enumeration) <==> w in UniqueNonEmpty(container) {
      assert w in enumeration <==> w in Elements(enumeration);
    }
  }
}
