/**
 * Draining a heap, and the behaviour the repository's own unit tests pin
 * down, derived from the contracts of the factories, `Add`, `Len` and `Next`.
 */
module HeapScenarios {
  import opened HeapProperty
  import opened BinaryHeap

  /** When the first listed element outranks every other one, `next` yields
      exactly that element and leaves the others. */
  method NextIsTop<T(!new)>(h: Heap<T>, ghost s: seq<T>) returns (r: Option<T>)
    requires h.Valid() && h.Elements() == multiset(s) && |s| > 0
    requires forall j :: 0 < j < |s| ==> h.comparator(s[0], s[j])
    modifies h
    ensures h.Valid() && h.Elements() == multiset(s[1..])
    ensures r == Some(s[0])
  {
    assert s == [s[0]] + s[1..];
    assert h.Len() == |s| > 0 by { assert |multiset(s)| == |s|; }
    r := h.Next();
    assert r.value in s;
    ghost var j :| 0 <= j < |s| && s[j] == r.value;
    assert s[0] in multiset(s) && !h.comparator(s[0], r.value);
  }

  /** Calling `next` until the heap is empty: the values come out as a
      permutation of the contents, and no value outranks one that came out
      before it. */
  method DrainAll<T(!new)>(h: Heap<T>) returns (out: seq<T>)
    requires h.Valid()
    modifies h
    ensures h.Valid() && h.Elements() == multiset{}
    ensures multiset(out) == old(h.Elements())
    ensures Ranked(h.comparator, out)
  {
    out := [];
    while !h.IsEmpty()
      invariant h.Valid()
      invariant multiset(out) + h.Elements() == old(h.Elements())
      invariant Ranked(h.comparator, out) && NoneAbove(h.comparator, h.Elements(), out)
      decreases h.Len()
    {
      ghost var before := h.Elements();
      var r := h.Next();
      DrainStep(h.comparator, out, before, r.value, h.Elements());
      out := out + [r.value];
    }
  }

  /** Strictly ordered: each listed element outranks every later one. */
  ghost predicate StrictlyRanked<T>(cmp: (T, T) -> bool, s: seq<T>) {
    forall i, j :: 0 <= i < j < |s| ==> cmp(s[i], s[j])
  }

  /** Calling `next` k times on a heap whose contents, listed from the top,
      are strictly ordered: every call yields Some, and the values are the
      first k listed, in order. */
  method DrainTops<T(!new)>(h: Heap<T>, ghost s: seq<T>, k: nat) returns (out: seq<T>)
    requires h.Valid() && h.Elements() == multiset(s)
    requires StrictlyRanked(h.comparator, s) && k <= |s|
    modifies h
    ensures h.Valid() && h.Elements() == multiset(s[k..])
    ensures out == s[..k]
  {
    out := [];
    var t := 0;
    while t < k
      invariant t <= k && h.Valid() && h.Elements() == multiset(s[t..])
      invariant out == s[..t]
    {
      assert s[t..][1..] == s[t + 1..];
      var r := NextIsTop(h, s[t..]);
      out := out + [r.value];
      t := t + 1;
    }
  }

  /** The four insertions both tests start with. */
  method AddFourTwoNineEleven(h: Heap<int>)
    requires h.Valid() && h.Elements() == multiset{}
    modifies h
    ensures h.Valid() && h.Elements() == multiset([4, 2, 9, 11]) && h.Len() == 4
  {
    h.Add(4);
    h.Add(2);
    h.Add(9);
    h.Add(11);
  }

  /** The orders the two tests drain their heaps in.  These facts about
      literals are stated apart from the drains so that they are proved
      outside the heap's context, where they are cheap. */
  lemma TestOrdersAreRanked()
    ensures StrictlyRanked(Less, [2, 4, 9, 11]) && StrictlyRanked(Less, [1, 11])
    ensures StrictlyRanked(Greater, [11, 9, 4, 2]) && StrictlyRanked(Greater, [2, 1])
  {
  }

  /** The contents at each stage of the min-heap test, in draining order. */
  lemma MinTestContents()
    ensures multiset([4, 2, 9, 11]) == multiset([2, 4, 9, 11])
    ensures [2, 4, 9, 11][3..] == [11] && multiset([11]) + multiset{1} == multiset([1, 11])
  {
  }

  /** What the min-heap test reads off, in order. */
  lemma MinTestOutput()
    ensures [2, 4, 9, 11][..3] + [1, 11][..1] == [2, 4, 9, 1]
  {
  }

  /** The contents at each stage of the max-heap test, in draining order. */
  lemma MaxTestContents()
    ensures multiset([4, 2, 9, 11]) == multiset([11, 9, 4, 2])
    ensures [11, 9, 4, 2][3..] == [2] && multiset([2]) + multiset{1} == multiset([2, 1])
  {
  }

  /** What the max-heap test reads off, in order. */
  lemma MaxTestOutput()
    ensures [11, 9, 4, 2][..3] + [2, 1][..1] == [11, 9, 4, 2]
  {
  }

  /** A min-heap fed 4, 2, 9, 11 holds four elements and `next` yields 2, 4,
      9; after adding 1 it yields 1. */
  method MinHeapScenario() returns (len: nat, out: seq<int>)
    ensures len == 4 && out == [2, 4, 9, 1]
  {
    var h := MinHeapNew();
    AddFourTwoNineEleven(h);
    len := h.Len();
    out := MinHeapDrain(h);
  }

  /** The draining half of the min-heap test. */
  method MinHeapDrain(h: Heap<int>) returns (out: seq<int>)
    requires h.Valid() && h.comparator == Less && h.Elements() == multiset([4, 2, 9, 11])
    modifies h
    ensures out == [2, 4, 9, 1]
  {
    TestOrdersAreRanked();
    MinTestContents();
    MinTestOutput();
    var first := DrainTops(h, [2, 4, 9, 11], 3);
    h.Add(1);
    var last := DrainTops(h, [1, 11], 1);
    out := first + last;
  }

  /** A max-heap fed 4, 2, 9, 11 holds four elements and `next` yields 11, 9,
      4; after adding 1 it yields the remaining 2. */
  method MaxHeapScenario() returns (len: nat, out: seq<int>)
    ensures len == 4 && out == [11, 9, 4, 2]
  {
    var h := MaxHeapNew();
    AddFourTwoNineEleven(h);
    len := h.Len();
    out := MaxHeapDrain(h);
  }

  /** The draining half of the max-heap test. */
  method MaxHeapDrain(h: Heap<int>) returns (out: seq<int>)
    requires h.Valid() && h.comparator == Greater && h.Elements() == multiset([4, 2, 9, 11])
    modifies h
    ensures out == [11, 9, 4, 2]
  {
    TestOrdersAreRanked();
    MaxTestContents();
    MaxTestOutput();
    var first := DrainTops(h, [11, 9, 4, 2], 3);
    h.Add(1);
    var last := DrainTops(h, [2, 1], 1);
    out := first + last;
  }

  /** A fresh max-heap yields nothing. */
  method EmptyScenario() returns (r: Option<int>)
    ensures r == None
  {
    var h := MaxHeapNew();
    r := h.Next();
  }
}
