/**
 * `Heap<T>`: a binary heap over a growable 1-indexed vector whose order is set
 * by a stored comparator, with insertion (sift-up), root extraction
 * (sift-down), size queries and a draining `next`.
 */
module BinaryHeap {
  import opened HeapProperty

  datatype Option<T> = None | Some(value: T)

  class Heap<T(!new)> {
    /** Number of live elements; they sit in items[1..count + 1]. */
    var count: nat
    /** The backing vector; items[0] is the placeholder. */
    var items: seq<T>
    /** `comparator(a, b)`: a must sit above b. */
    const comparator: (T, T) -> bool

    ghost predicate Valid()
      reads this
    {
      && StrictWeakOrder(comparator)
      && |items| == count + 1
      && IsHeap(comparator, items, count)
    }

    /** The live elements, as a multiset. */
    ghost function Elements(): multiset<T>
      reads this
      requires count < |items|
    {
      multiset(items[1..count + 1])
    }

    /** An empty heap: no live element and only the placeholder slot. */
    constructor (comparator: (T, T) -> bool, placeholder: T)
      requires StrictWeakOrder(comparator)
      ensures Valid() && this.comparator == comparator
      ensures count == 0 && items == [placeholder]
      ensures Elements() == multiset{} && IsEmpty()
    {
      this.count := 0;
      this.items := [placeholder];
      this.comparator := comparator;
    }

    function Len(): (n: nat)
      reads this
      requires Valid()
      ensures n == |Elements()|
    {
      count
    }

    function IsEmpty(): (b: bool)
      reads this
      requires Valid()
      ensures b <==> Elements() == multiset{}
    {
      Len() == 0
    }

    /** Whether `idx` has at least one live child. */
    function ChildrenPresent(idx: nat): (b: bool)
      reads this
      ensures b ==> ParentIdx(LeftChildIdx(idx)) == idx && LeftChildIdx(idx) <= count
      ensures idx >= 1 && !b ==> forall c :: 2 <= c <= count ==> ParentIdx(c) != idx
    {
      LeftChildIdx(idx) <= count
    }

    /** One sift-down decision at `idx`: (true, c) when the better live child c
        outranks `idx`, (false, 0) when no live child does.  Only live slots
        (at most `count`) are consulted: with `count < |items|` as the only
        requirement, every index the body reads is proved in range up to
        `count`, so during `pop` the stale duplicate at slot count + 1 is never
        read. */
    function Down(idx: nat): (r: (bool, nat))
      reads this
      requires count < |items|
      ensures !ChildrenPresent(idx) ==> r == (false, 0)
      ensures r.0 ==> r.1 <= count && ParentIdx(r.1) == idx && comparator(items[r.1], items[idx])
      ensures r.0 && 1 <= idx ==> 2 <= r.1
      ensures !r.0 ==> r.1 == 0
      ensures StrictWeakOrder(comparator) && r.0 ==> ChildrenDefer(comparator, items, count, idx, items[r.1])
      ensures StrictWeakOrder(comparator) && !r.0 && idx <= count ==> ChildrenDefer(comparator, items, count, idx, items[idx])
    {
      if !ChildrenPresent(idx) then
        (false, 0)
      else
        var rson := RightChildIdx(idx);
        var child := if rson <= count && comparator(items[rson], items[rson - 1]) then rson else rson - 1;
        ChosenChild(comparator, items, count, idx, child);
        if comparator(items[child], items[child / 2]) then (true, child) else (false, 0)
    }

    /** Append `value` and sift it up. */
    method Add(value: T)
      requires Valid()
      modifies this
      ensures Valid()
      ensures count == old(count) + 1
      ensures Elements() == old(Elements()) + multiset{value}
      ensures items[0] == old(items[0])
      ensures items == SiftUpResult(comparator, old(items) + [value], count)
    {
      ghost var prev := items;
      items, count := items + [value], count + 1;
      SiftUp();
      AddOutcome(comparator, prev, count, value);
    }

    /** The climb of `add`: with the cursor on the last live slot, swap it with
        its parent while it outranks that parent; stop at the root. */
    method SiftUp()
      requires 1 <= count && |items| == count + 1
      modifies this
      ensures count == old(count) && items == SiftUpResult(comparator, old(items), count)
    {
      var id := count;
      var pa := ParentIdx(id);
      while pa >= 1
        invariant |items| == count + 1 && count == old(count) && 1 <= id <= count
        invariant pa == ParentIdx(id)
        invariant SiftUpResult(comparator, items, id) == SiftUpResult(comparator, old(items), count)
        decreases id
      {
        if !comparator(items[id], items[pa]) {
          break;
        }
        items := Swap(items, id, pa);
        id := pa;
        pa := ParentIdx(id);
      }
    }

    /** The descent of `pop`: with the cursor starting at the root, swap it
        with its better child while that child outranks it. */
    method SiftDown()
      requires StrictWeakOrder(comparator)
      requires |items| == count + 2 && DownInvariant(comparator, items, count, 1)
      modifies this
      ensures count == old(count) && |items| == count + 2
      ensures IsHeap(comparator, items, count)
      ensures multiset(items[1..count + 1]) == old(multiset(items[1..count + 1]))
      ensures items[0] == old(items[0]) && items[count + 1] == old(items[count + 1])
    {
      ghost var start := items;
      var id := 1;
      while id < count
        invariant |items| == count + 2 && count == old(count)
        invariant DownInvariant(comparator, items, count, id)
        invariant multiset(items) == multiset(start)
        invariant items[0] == start[0] && items[count + 1] == start[count + 1]
        decreases count - id
      {
        var (ok, id2) := Down(id);
        if !ok {
          break;
        }
        SiftDownStep(comparator, items, count, id, id2);
        items := Swap(items, id, id2);
        id := id2;
      }
      SiftDownDone(comparator, items, count, id);
      SameEndsSameLive(start, items, count);
    }

    /** Remove and return the root: None on an empty heap (nothing changes),
        otherwise the old root, which no element of the old contents outranks.
        Rust's `pop` returns early when one or two elements were held; the
        sift-down loop would not run there anyway, so here both paths share
        the truncate-and-return tail. */
    method Pop() returns (r: Option<T>)
      requires Valid()
      modifies this
      ensures Valid()
      ensures r.None? <==> old(count) == 0
      ensures r.None? ==> count == 0 && items == old(items)
      ensures r.Some? ==> r.value == old(items[1]) && r.value in old(Elements())
      ensures r.Some? ==> count == old(count) - 1 && Elements() == old(Elements()) - multiset{r.value}
      ensures r.Some? ==> NoneOutranks(comparator, old(Elements()), r.value)
      ensures items[0] == old(items[0])
    {
      if count == 0 {
        return None;
      }
      ghost var full, n := items, count;
      var res := items[1];
      items, count := items[1 := items[count]], count - 1;
      assert items == full[1 := full[n]];
      if count != 0 && count != 1 {
        assert DownInvariant(comparator, items, count, 1) by {
          RootReplacedStartsSiftDown(comparator, full, count + 1);
        }
        SiftDown();
      }
      PopOutcome(comparator, full, n, items);
      items := items[..|items| - 1];
      return Some(res);
    }

    /** `Iterator::next`: a draining pop. */
    method Next() returns (r: Option<T>)
      requires Valid()
      modifies this
      ensures Valid()
      ensures r.None? <==> old(count) == 0
      ensures r.None? ==> count == 0 && items == old(items)
      ensures r.Some? ==> r.value == old(items[1]) && r.value in old(Elements())
      ensures r.Some? ==> count == old(count) - 1 && Elements() == old(Elements()) - multiset{r.value}
      ensures r.Some? ==> NoneOutranks(comparator, old(Elements()), r.value)
      ensures items[0] == old(items[0])
    {
      if count == 0 {
        return None;
      }
      r := Pop();
    }
  }

  /** The comparator installed by `new_min` / `MinHeap::new`. */
  function Less(a: int, b: int): bool {
    a < b
  }

  /** The comparator installed by `new_max` / `MaxHeap::new`. */
  function Greater(a: int, b: int): bool {
    a > b
  }

  lemma LessIsStrictWeakOrder()
    ensures StrictWeakOrder(Less)
  {
  }

  lemma GreaterIsStrictWeakOrder()
    ensures StrictWeakOrder(Greater)
  {
  }

  /** `Heap::new_min` for `i32`-like elements (placeholder 0). */
  method NewMin() returns (h: Heap<int>)
    ensures fresh(h) && h.Valid() && h.comparator == Less
    ensures h.count == 0 && h.items == [0]
  {
    LessIsStrictWeakOrder();
    h := new Heap(Less, 0);
  }

  /** `Heap::new_max` for `i32`-like elements (placeholder 0). */
  method NewMax() returns (h: Heap<int>)
    ensures fresh(h) && h.Valid() && h.comparator == Greater
    ensures h.count == 0 && h.items == [0]
  {
    GreaterIsStrictWeakOrder();
    h := new Heap(Greater, 0);
  }

  /** `MinHeap::new`: the same heap `new_min` builds. */
  method MinHeapNew() returns (h: Heap<int>)
    ensures fresh(h) && h.Valid() && h.comparator == Less
    ensures h.count == 0 && h.items == [0]
  {
    h := NewMin();
  }

  /** `MaxHeap::new`: the same heap `new_max` builds. */
  method MaxHeapNew() returns (h: Heap<int>)
    ensures fresh(h) && h.Valid() && h.comparator == Greater
    ensures h.count == 0 && h.items == [0]
  {
    h := NewMax();
  }
}
