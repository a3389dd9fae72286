/**
 * The heap property of a 1-indexed binary heap stored in a sequence, the index
 * arithmetic that navigates it, and the facts that make sift-up and sift-down
 * correct.  Slot 0 of every sequence is a placeholder; the live elements are
 * s[1..n+1].  `cmp(a, b)` holds when `a` must sit above `b` (closer to the root).
 */
module HeapProperty {

  /** `a` must sit above `b`.  The order laws below are stated over this name,
      so they are applied only where a proof asks for them by name. */
  ghost predicate Outranks<T>(cmp: (T, T) -> bool, a: T, b: T) {
    cmp(a, b)
  }

  /** What the comparator must be for the heap property to be transitive along
      a path: irreflexive, transitive and negatively transitive (if a does not
      outrank b and b does not outrank c, then a does not outrank c). */
  ghost predicate StrictWeakOrder<T(!new)>(cmp: (T, T) -> bool) {
    && (forall a :: !Outranks(cmp, a, a))
    && (forall a, b, c :: Outranks(cmp, a, b) && Outranks(cmp, b, c) ==> Outranks(cmp, a, c))
    && (forall a, b, c :: !Outranks(cmp, a, b) && !Outranks(cmp, b, c) ==> !Outranks(cmp, a, c))
  }

  lemma OutranksTransitive<T(!new)>(cmp: (T, T) -> bool, a: T, b: T, c: T)
    requires StrictWeakOrder(cmp) && cmp(a, b) && cmp(b, c)
    ensures cmp(a, c)
  {
    assert Outranks(cmp, a, b) && Outranks(cmp, b, c);
  }

  /** Negative transitivity: "does not outrank" chains. */
  lemma NotOutranksTransitive<T(!new)>(cmp: (T, T) -> bool, a: T, b: T, c: T)
    requires StrictWeakOrder(cmp) && !cmp(a, b) && !cmp(b, c)
    ensures !cmp(a, c)
  {
    assert !Outranks(cmp, a, b) && !Outranks(cmp, b, c);
  }

  lemma OutranksIrreflexive<T(!new)>(cmp: (T, T) -> bool, a: T)
    requires StrictWeakOrder(cmp)
    ensures !cmp(a, a)
  {
    assert !Outranks(cmp, a, a);
  }

  lemma OutranksAsymmetric<T(!new)>(cmp: (T, T) -> bool, a: T, b: T)
    requires StrictWeakOrder(cmp) && cmp(a, b)
    ensures !cmp(b, a)
  {
    if cmp(b, a) {
      OutranksTransitive(cmp, a, b, a);
      OutranksIrreflexive(cmp, a);
    }
  }

  /** The slot above `idx`; every slot from 2 on has a parent in [1, idx). */
  function ParentIdx(idx: nat): (p: nat)
    ensures idx == 2 * p || idx == 2 * p + 1
    ensures idx >= 2 ==> 1 <= p < idx
  {
    idx / 2
  }

  function LeftChildIdx(idx: nat): (c: nat)
    ensures ParentIdx(c) == idx
    ensures idx >= 1 ==> idx < c
  {
    idx * 2
  }

  function RightChildIdx(idx: nat): (c: nat)
    ensures ParentIdx(c) == idx
    ensures c != LeftChildIdx(idx)
  {
    LeftChildIdx(idx) + 1
  }

  /** `Vec::swap`: exchange two slots and leave every other slot alone. */
  function Swap<T>(s: seq<T>, i: nat, j: nat): (r: seq<T>)
    requires i < |s| && j < |s|
    ensures |r| == |s| && r[i] == s[j] && r[j] == s[i]
    ensures forall k :: 0 <= k < |s| && k != i && k != j ==> r[k] == s[k]
    ensures multiset(r) == multiset(s)
  {
    s[i := s[j]][j := s[i]]
  }

  /** No element of m outranks v. */
  ghost predicate NoneOutranks<T>(cmp: (T, T) -> bool, m: multiset<T>, v: T) {
    forall x :: x in m ==> !cmp(x, v)
  }

  /** No element of s outranks one listed before it. */
  ghost predicate Ranked<T>(cmp: (T, T) -> bool, s: seq<T>) {
    forall i, j :: 0 <= i < j < |s| ==> !cmp(s[j], s[i])
  }

  /** No element of m outranks any element of s. */
  ghost predicate NoneAbove<T>(cmp: (T, T) -> bool, m: multiset<T>, s: seq<T>) {
    forall x, i :: x in m && 0 <= i < |s| ==> !cmp(x, s[i])
  }

  /** One step of draining a heap: taking out v, which nothing in the heap
      outranks, extends a ranked output that nothing left outranks. */
  lemma DrainStep<T>(cmp: (T, T) -> bool, out: seq<T>, m: multiset<T>, v: T, rest: multiset<T>)
    requires Ranked(cmp, out) && NoneAbove(cmp, m, out)
    requires v in m && rest == m - multiset{v} && NoneOutranks(cmp, m, v)
    ensures Ranked(cmp, out + [v]) && NoneAbove(cmp, rest, out + [v])
  {
  }

  /** The child at slot i does not outrank its parent. */
  ghost predicate EdgeHolds<T>(cmp: (T, T) -> bool, s: seq<T>, i: nat)
    requires 1 <= i < |s|
  {
    !cmp(s[i], s[i / 2])
  }

  /** No live child of slot k outranks v. */
  ghost predicate ChildrenDefer<T>(cmp: (T, T) -> bool, s: seq<T>, n: nat, k: nat, v: T) {
    forall i :: 2 <= i <= n && i / 2 == k && i < |s| ==> !cmp(s[i], v)
  }

  /** No live child outranks its parent. */
  ghost predicate IsHeap<T>(cmp: (T, T) -> bool, s: seq<T>, n: nat) {
    && n < |s|
    && forall i :: 2 <= i <= n ==> EdgeHolds(cmp, s, i)
  }

  /** During sift-up with the cursor at `k`: only the edge from `k` to its parent
      may be broken, and `k`'s children do not outrank `k`'s parent. */
  ghost predicate UpInvariant<T>(cmp: (T, T) -> bool, s: seq<T>, n: nat, k: nat) {
    && 1 <= k <= n < |s|
    && (forall i :: 2 <= i <= n && i != k ==> EdgeHolds(cmp, s, i))
    && (k >= 2 ==> ChildrenDefer(cmp, s, n, k, s[k / 2]))
  }

  /** During sift-down with the cursor at `k`: only the edges from `k`'s children
      to `k` may be broken, and those children do not outrank `k`'s parent. */
  ghost predicate DownInvariant<T>(cmp: (T, T) -> bool, s: seq<T>, n: nat, k: nat) {
    && 1 <= k <= n < |s|
    && (forall i :: 2 <= i <= n && i / 2 != k ==> EdgeHolds(cmp, s, i))
    && (k >= 2 ==> ChildrenDefer(cmp, s, n, k, s[k / 2]))
  }

  /** Along the path from slot i to the root nothing outranks the root. */
  lemma {:induction false} RootOutranksAll<T(!new)>(cmp: (T, T) -> bool, s: seq<T>, n: nat, i: nat)
    requires StrictWeakOrder(cmp) && IsHeap(cmp, s, n)
    requires 1 <= i <= n
    ensures !cmp(s[i], s[1])
    decreases i
  {
    if i == 1 {
      OutranksIrreflexive(cmp, s[1]);
    } else {
      assert EdgeHolds(cmp, s, i);
      RootOutranksAll(cmp, s, n, i / 2);
      NotOutranksTransitive(cmp, s[i], s[i / 2], s[1]);
    }
  }

  /** The root of a heap is an extreme element: no live element outranks it. */
  lemma RootIsExtremal<T(!new)>(cmp: (T, T) -> bool, s: seq<T>, n: nat)
    requires StrictWeakOrder(cmp) && IsHeap(cmp, s, n) && 1 <= n
    ensures NoneOutranks(cmp, multiset(s[1..n + 1]), s[1])
  {
    forall x | x in multiset(s[1..n + 1])
      ensures !cmp(x, s[1])
    {
      var j :| 0 <= j < n && s[1..n + 1][j] == x;
      RootOutranksAll(cmp, s, n, j + 1);
    }
  }

  /** Appending a value to a heap leaves only the new leaf's edge in doubt. */
  lemma AppendStartsSiftUp<T>(cmp: (T, T) -> bool, s: seq<T>, n: nat, v: T)
    requires IsHeap(cmp, s, n) && |s| == n + 1
    ensures UpInvariant(cmp, s + [v], n + 1, n + 1)
  {
    var t := s + [v];
    forall i | 2 <= i <= n + 1 && i != n + 1
      ensures EdgeHolds(cmp, t, i)
    {
      assert t[i] == s[i] && t[i / 2] == s[i / 2] && EdgeHolds(cmp, s, i);
    }
  }

  /** One sift-up swap moves the only possibly broken edge one level up. */
  lemma SiftUpStep<T(!new)>(cmp: (T, T) -> bool, s: seq<T>, n: nat, k: nat)
    requires StrictWeakOrder(cmp) && UpInvariant(cmp, s, n, k)
    requires k >= 2 && cmp(s[k], s[k / 2])
    ensures UpInvariant(cmp, Swap(s, k, k / 2), n, k / 2)
  {
    var p := k / 2;
    var t := Swap(s, k, p);
    forall i | 2 <= i <= n && i != p
      ensures EdgeHolds(cmp, t, i)
    {
      if i == k {
        // the old parent now sits below the value that outranked it
        assert t[i] == s[p] && t[i / 2] == s[k];
        OutranksAsymmetric(cmp, s[k], s[p]);
      } else if i / 2 == k {
        // k's children now sit below k's old parent
        assert t[i] == s[i] && t[i / 2] == s[p];
      } else if i / 2 == p {
        // k's sibling now sits below the value that outranked its old parent
        assert t[i] == s[i] && t[i / 2] == s[k];
        assert EdgeHolds(cmp, s, i);
        if cmp(s[i], s[k]) {
          OutranksTransitive(cmp, s[i], s[k], s[p]);
        }
      } else {
        assert t[i] == s[i] && t[i / 2] == s[i / 2] && EdgeHolds(cmp, s, i);
      }
    }
    if p >= 2 {
      forall i | 2 <= i <= n && i / 2 == p
        ensures !cmp(t[i], t[p / 2])
      {
        assert t[p / 2] == s[p / 2];
        assert EdgeHolds(cmp, s, p);
        if i == k {
          assert t[i] == s[p];
        } else {
          assert t[i] == s[i];
          assert EdgeHolds(cmp, s, i);
          NotOutranksTransitive(cmp, s[i], s[p], s[p / 2]);
        }
      }
    }
  }

  /** The climb of `add` from slot k: swap with the parent while there is one
      (slot 1 is the root) and the cursor outranks it.  Only swaps, and never
      touches the placeholder. */
  function SiftUpResult<T>(cmp: (T, T) -> bool, s: seq<T>, k: nat): (r: seq<T>)
    requires k < |s|
    ensures |r| == |s| && multiset(r) == multiset(s) && r[0] == s[0]
    decreases k
  {
    if ParentIdx(k) >= 1 && cmp(s[k], s[ParentIdx(k)]) then
      SiftUpResult(cmp, Swap(s, k, ParentIdx(k)), ParentIdx(k))
    else
      s
  }

  /** Sift-up from a cursor whose parent edge is the only one in doubt yields a heap. */
  lemma {:induction false} SiftUpRestoresHeap<T(!new)>(cmp: (T, T) -> bool, s: seq<T>, n: nat, k: nat)
    requires StrictWeakOrder(cmp) && UpInvariant(cmp, s, n, k)
    ensures IsHeap(cmp, SiftUpResult(cmp, s, k), n)
    decreases k
  {
    if ParentIdx(k) >= 1 && cmp(s[k], s[ParentIdx(k)]) {
      SiftUpStep(cmp, s, n, k);
      SiftUpRestoresHeap(cmp, Swap(s, k, k / 2), n, k / 2);
    } else {
      SiftUpDone(cmp, s, n, k);
    }
  }

  /** Irreflexive and transitive only. */
  ghost predicate StrictPartialOrder<T(!new)>(cmp: (T, T) -> bool) {
    && (forall a :: !Outranks(cmp, a, a))
    && (forall a, b, c :: Outranks(cmp, a, b) && Outranks(cmp, b, c) ==> Outranks(cmp, a, c))
  }

  /** A strict partial order that is not a strict weak order: 4 outranks 1,
      5 outranks 2 and 1, and nothing else is related. */
  function PartialOnly(a: int, b: int): bool {
    (a == 4 && b == 1) || (a == 5 && (b == 2 || b == 1))
  }

  lemma PartialOnlyIsNotWeak()
    ensures StrictPartialOrder(PartialOnly) && !StrictWeakOrder(PartialOnly)
  {
    forall a: int, b: int, c: int | Outranks(PartialOnly, a, b) && Outranks(PartialOnly, b, c)
      ensures Outranks(PartialOnly, a, c)
    {
      assert b == 1 || b == 2;
    }
    assert !Outranks(PartialOnly, 4, 2) && !Outranks(PartialOnly, 2, 1) && Outranks(PartialOnly, 4, 1);
  }

  /** 1 above 2 and 3, 2 above 4: a heap under `PartialOnly`. */
  lemma PartialOnlyExampleHeap()
    ensures IsHeap(PartialOnly, [0, 1, 2, 3, 4], 4)
  {
  }

  /** Irreflexivity and transitivity are not enough: under `PartialOnly`, adding
      5 to the heap 1, 2, 3, 4 climbs past 2 and 1 and leaves 4 below 1, which
      it outranks. */
  lemma PartialOrderBreaksSiftUp()
    ensures !IsHeap(PartialOnly, SiftUpResult(PartialOnly, [0, 1, 2, 3, 4, 5], 5), 5)
  {
    var s := [0, 1, 2, 3, 4, 5];
    assert ParentIdx(5) == 2 && PartialOnly(s[5], s[2]);
    var t := Swap(s, 5, 2);
    assert ParentIdx(2) == 1 && PartialOnly(t[2], t[1]);
    var u := Swap(t, 2, 1);
    assert ParentIdx(1) == 0 && u[2] == 1 && u[4] == 4;
    assert SiftUpResult(PartialOnly, u, 1) == u;
    assert !EdgeHolds(PartialOnly, u, 4);
  }

  /** Sift-up stops at the root or where the cursor does not outrank its parent. */
  lemma SiftUpDone<T>(cmp: (T, T) -> bool, s: seq<T>, n: nat, k: nat)
    requires UpInvariant(cmp, s, n, k)
    requires k == 1 || !cmp(s[k], s[k / 2])
    ensures IsHeap(cmp, s, n)
  {
  }

  /** Moving the last element into the root leaves only the root's edges in doubt. */
  lemma RootReplacedStartsSiftDown<T>(cmp: (T, T) -> bool, s: seq<T>, n: nat)
    requires IsHeap(cmp, s, n) && 2 <= n
    ensures DownInvariant(cmp, s[1 := s[n]], n - 1, 1)
  {
    var t := s[1 := s[n]];
    forall i | 2 <= i <= n - 1 && i / 2 != 1
      ensures EdgeHolds(cmp, t, i)
    {
      assert t[i] == s[i] && t[i / 2] == s[i / 2] && EdgeHolds(cmp, s, i);
    }
  }

  /** Swapping the cursor with its best child, when that child outranks it,
      moves the possibly broken edges one level down. */
  lemma SiftDownStep<T(!new)>(cmp: (T, T) -> bool, s: seq<T>, n: nat, k: nat, c: nat)
    requires StrictWeakOrder(cmp) && DownInvariant(cmp, s, n, k)
    requires 2 <= c <= n && c / 2 == k && cmp(s[c], s[k])
    requires ChildrenDefer(cmp, s, n, k, s[c])
    ensures DownInvariant(cmp, Swap(s, k, c), n, c) && k < c
    ensures |s| == n + 2 ==> Swap(s, k, c)[0] == s[0] && Swap(s, k, c)[n + 1] == s[n + 1]
  {
    var t := Swap(s, k, c);
    forall i | 2 <= i <= n && i / 2 != c
      ensures EdgeHolds(cmp, t, i)
    {
      if i == c {
        // the old cursor value now sits below the child that outranked it
        assert t[i] == s[k] && t[i / 2] == s[c];
        OutranksAsymmetric(cmp, s[c], s[k]);
      } else if i == k {
        // the promoted child now sits below k's parent
        assert t[i] == s[c] && t[i / 2] == s[k / 2];
      } else if i / 2 == k {
        // the other child now sits below the promoted one
        assert t[i] == s[i] && t[i / 2] == s[c];
      } else {
        assert t[i] == s[i] && t[i / 2] == s[i / 2] && EdgeHolds(cmp, s, i);
      }
    }
    forall i | 2 <= i <= n && i / 2 == c
      ensures !cmp(t[i], t[c / 2])
    {
      assert t[i] == s[i] && t[c / 2] == s[c] && EdgeHolds(cmp, s, i);
    }
  }

  /** The child that sift-down picks at k (the right one only when it is live
      and outranks the left one) is outranked by no child of k; and when it
      does not outrank k, no child of k does. */
  lemma ChosenChild<T(!new)>(cmp: (T, T) -> bool, s: seq<T>, n: nat, k: nat, c: nat)
    requires 2 * k <= n < |s|
    requires c == if 2 * k + 1 <= n && cmp(s[2 * k + 1], s[2 * k]) then 2 * k + 1 else 2 * k
    ensures StrictWeakOrder(cmp) ==> ChildrenDefer(cmp, s, n, k, s[c])
    ensures StrictWeakOrder(cmp) && !cmp(s[c], s[k]) ==> ChildrenDefer(cmp, s, n, k, s[k])
  {
    if StrictWeakOrder(cmp) && k >= 1 {
      var other := if c == 2 * k then 2 * k + 1 else 2 * k;
      OutranksIrreflexive(cmp, s[c]);
      if c == 2 * k + 1 {
        OutranksAsymmetric(cmp, s[c], s[other]);
      }
      if other <= n && !cmp(s[c], s[k]) {
        NotOutranksTransitive(cmp, s[other], s[c], s[k]);
      }
      forall i | 2 <= i <= n && i / 2 == k
        ensures !cmp(s[i], s[c])
        ensures !cmp(s[c], s[k]) ==> !cmp(s[i], s[k])
      {
        assert i == c || i == other;
      }
    }
  }

  /** Sift-down stops where no live child outranks the cursor. */
  lemma SiftDownDone<T>(cmp: (T, T) -> bool, s: seq<T>, n: nat, k: nat)
    requires DownInvariant(cmp, s, n, k)
    requires ChildrenDefer(cmp, s, n, k, s[k])
    ensures IsHeap(cmp, s, n)
  {
  }

  /** Appending v to s and only permuting the result keeps slot 0 and makes
      the live window the old window plus v. */
  lemma AppendedWindow<T>(s: seq<T>, t: seq<T>, v: T)
    requires |s| >= 1 && |t| == |s| + 1 && t[0] == s[0]
    requires multiset(t) == multiset(s) + multiset{v}
    ensures multiset(t[1..|s| + 1]) == multiset(s[1..]) + multiset{v}
  {
    assert s == [s[0]] + s[1..];
    assert t == [t[0]] + t[1..|s| + 1];
    var a, b := multiset(t[1..|s| + 1]), multiset(s[1..]);
    assert multiset(s) == multiset{s[0]} + b;
    assert multiset(t) == multiset{s[0]} + a;
    forall x
      ensures a[x] == (b + multiset{v})[x]
    {
      assert multiset(t)[x] == multiset{s[0]}[x] + a[x];
      assert multiset(t)[x] == multiset{s[0]}[x] + b[x] + multiset{v}[x];
    }
  }

  /** What `add` leaves behind: appending v to a heap of n - 1 elements and
      sifting it up gives a heap of n elements holding the old ones and v,
      with the placeholder slot untouched. */
  lemma AddOutcome<T(!new)>(cmp: (T, T) -> bool, s: seq<T>, n: nat, v: T)
    requires StrictWeakOrder(cmp) && 1 <= n && IsHeap(cmp, s, n - 1) && |s| == n
    ensures |SiftUpResult(cmp, s + [v], n)| == n + 1
    ensures SiftUpResult(cmp, s + [v], n)[0] == s[0]
    ensures IsHeap(cmp, SiftUpResult(cmp, s + [v], n), n)
    ensures multiset(SiftUpResult(cmp, s + [v], n)[1..n + 1]) == multiset(s[1..n]) + multiset{v}
  {
    AppendStartsSiftUp(cmp, s, n - 1, v);
    SiftUpRestoresHeap(cmp, s + [v], n, n);
    var t := SiftUpResult(cmp, s + [v], n);
    assert multiset(s + [v]) == multiset(s) + multiset{v};
    AppendedWindow(s, t, v);
    assert s[1..] == s[1..n];
  }

  /** What `pop` leaves behind.  From a heap s of n elements, pop moves the
      last element to the root and sifts it down, giving u (still n + 1 slots
      long), then drops the last slot.  The result is a heap of n - 1 elements
      (written `n - 1 + 1` slots, the form `pop`'s own state takes): the old
      ones without the old root, which no old element outranks. */
  lemma PopOutcome<T(!new)>(cmp: (T, T) -> bool, s: seq<T>, n: nat, u: seq<T>)
    requires StrictWeakOrder(cmp) && IsHeap(cmp, s, n) && |s| == n + 1 && 1 <= n
    requires |u| == n + 1 && IsHeap(cmp, u, n - 1) && u[0] == s[0]
    requires multiset(u[1..n]) == multiset(s[1 := s[n]][1..n])
    ensures |u[..|u| - 1]| == n - 1 + 1 && u[..|u| - 1][0] == s[0]
    ensures IsHeap(cmp, u[..|u| - 1], n - 1)
    ensures s[1] in multiset(s[1..n + 1])
    ensures multiset(u[..|u| - 1][1..n - 1 + 1]) == multiset(s[1..n + 1]) - multiset{s[1]}
    ensures NoneOutranks(cmp, multiset(s[1..n + 1]), s[1])
  {
    TruncateKeepsHeap(cmp, u, n - 1);
    assert u[..|u| - 1][1..n - 1 + 1] == u[1..n];
    assert s[1] in multiset(s[1..n + 1]) by {
      assert s[1..n + 1][0] == s[1];
    }
    assert multiset(u[1..n]) == multiset(s[1..n + 1]) - multiset{s[1]} by {
      RemoveRootElements(s, n);
    }
    RootIsExtremal(cmp, s, n);
  }

  /** Dropping slots past the live ones keeps the heap property. */
  lemma TruncateKeepsHeap<T>(cmp: (T, T) -> bool, s: seq<T>, n: nat)
    requires IsHeap(cmp, s, n)
    ensures IsHeap(cmp, s[..n + 1], n)
  {
    var t := s[..n + 1];
    forall i | 2 <= i <= n
      ensures EdgeHolds(cmp, t, i)
    {
      assert t[i] == s[i] && t[i / 2] == s[i / 2] && EdgeHolds(cmp, s, i);
    }
  }

  /** A rearrangement of the whole vector that keeps the placeholder slot and
      the spare last slot in place keeps the live elements. */
  lemma SameEndsSameLive<T>(s: seq<T>, t: seq<T>, n: nat)
    requires |s| == |t| == n + 2 && multiset(t) == multiset(s)
    requires t[0] == s[0] && t[n + 1] == s[n + 1]
    ensures multiset(t[1..n + 1]) == multiset(s[1..n + 1])
  {
    assert s == [s[0]] + s[1..n + 1] + [s[n + 1]];
    assert t == [t[0]] + t[1..n + 1] + [t[n + 1]];
    var a, b := multiset(t[1..n + 1]), multiset(s[1..n + 1]);
    forall x
      ensures a[x] == b[x]
    {
      assert multiset(t)[x] == multiset{t[0]}[x] + a[x] + multiset{t[n + 1]}[x];
      assert multiset(s)[x] == multiset{s[0]}[x] + b[x] + multiset{s[n + 1]}[x];
    }
  }

  /** Overwriting the root with the last live element and dropping the last
      slot removes exactly the old root from the live elements. */
  lemma RemoveRootElements<T>(s: seq<T>, n: nat)
    requires 1 <= n < |s|
    ensures multiset(s[1 := s[n]][1..n]) == multiset(s[1..n + 1]) - multiset{s[1]}
  {
    var t := s[1 := s[n]];
    if n == 1 {
      assert s[1..n + 1] == [s[1]];
    } else {
      assert t[1..n] == [s[n]] + s[2..n];
      assert s[1..n + 1] == [s[1]] + s[2..n] + [s[n]];
    }
  }
}
