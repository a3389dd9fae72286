# Binary heap with a stored comparator

This project models `Heap<T>` from `exercises/algorithm/algorithm9.rs`. It is a binary heap kept in a
growable vector that is indexed from 1. Slot 0 holds a `T::default()` placeholder, so the parent of slot `i` is
`i / 2` and its children are `2i` and `2i + 1`. The heap has these parts:

- `count` records how many elements are live. They sit in `items[1..count]`.
- `comparator(a, b)` says that `a` must sit above `b`.
- `add` pushes a value and sifts it up.
- `pop` moves the last live element into the root, decrements `count`, sifts it down through `down`, and then
  drops the stale last slot.
- `next` is `pop` guarded by an emptiness check.
- `new_min` / `MinHeap::new` install `<`, and `new_max` / `MaxHeap::new` install `>`.

The project has three modules:

- `HeapProperty` (`heap_property.dfy`) covers the pure part over sequences:
  - the index arithmetic;
  - the heap property (`IsHeap`: no live child outranks its parent);
  - the comparator law (`StrictWeakOrder`);
  - the functional meaning of the sift-up climb (`SiftUpResult`);
  - the step lemmas that make sift-up and sift-down correct;
  - what `add` and `pop` leave behind (`AddOutcome`, `PopOutcome`);
  - the fact that the root is extremal.
- `BinaryHeap` (`heap.dfy`) holds the class `Heap` with the source's fields and its methods, and the four factories.
  - The class invariant `Valid()` states three things: the comparator is a strict weak order, `|items| == count + 1`, and the heap property holds.
  - `Elements()` is the multiset of live elements.
- `HeapScenarios` (`scenarios.dfy`) holds the consequences for callers:
  - a full drain is a permutation of the contents in ranked order;
  - draining strictly ordered contents yields them in order;
  - the repository's three unit tests (empty max-heap, min-heap, max-heap), derived from the contracts alone.

The comparator must be a strict weak order: irreflexive, transitive and negatively transitive (if a does not
outrank b and b does not outrank c, then a does not outrank c). A strict partial order (irreflexive and
transitive) is not enough, as `PartialOrderBreaksSiftUp` shows. Take the strict partial order `PartialOnly`, under which 4 outranks 1 and 5 outranks 2 and 1. Adding 5 to
the heap 1, 2, 3, 4 makes the climb pass 2 and 1. That leaves 4 below 1, which it outranks. The installed
comparators `<` and `>` are strict weak orders (`LessIsStrictWeakOrder`, `GreaterIsStrictWeakOrder`).

## Model

| member | source | states |
|---|---|---|
| HeapProperty.ParentIdx | exercises/algorithm/algorithm9.rs:61-63 | the parent slot p satisfies idx == 2p or idx == 2p + 1; every slot from 2 on has a parent in [1, idx) |
| HeapProperty.LeftChildIdx | exercises/algorithm/algorithm9.rs:69-71 | the left child's parent is idx again, and for idx >= 1 the child lies below it (greater index) |
| HeapProperty.RightChildIdx | exercises/algorithm/algorithm9.rs:73-75 | the right child's parent is idx again, and it differs from the left child |
| HeapProperty.Swap | exercises/algorithm/algorithm9.rs:50 | `Vec::swap`: exchanges two slots, leaves every other slot and the length unchanged, and preserves the multiset |
| HeapProperty.RootOutranksAll | exercises/algorithm/algorithm9.rs:104 | in a heap, no live element outranks the root (induction along the path to the root) |
| HeapProperty.RootIsExtremal | exercises/algorithm/algorithm9.rs:104 | the root that `pop` returns is outranked by no live element |
| HeapProperty.AppendStartsSiftUp | exercises/algorithm/algorithm9.rs:40-43 | after the push, only the new leaf's edge may be broken |
| HeapProperty.SiftUpStep | exercises/algorithm/algorithm9.rs:48-52 | one swap with an outranked parent moves the only possibly broken edge one level up |
| HeapProperty.SiftUpResult | exercises/algorithm/algorithm9.rs:42-57 | the climb as a function: only swaps (same length and multiset) and never touches the placeholder |
| HeapProperty.SiftUpRestoresHeap | exercises/algorithm/algorithm9.rs:42-57 | the climb started where only the cursor's edge is in doubt ends in a heap |
| HeapProperty.SiftUpDone | exercises/algorithm/algorithm9.rs:44-56 | stopping at the root or at a parent the cursor does not outrank leaves a heap |
| HeapProperty.PartialOnlyIsNotWeak | exercises/algorithm/algorithm9.rs:15 | the counterexample comparator is irreflexive and transitive but not a strict weak order |
| HeapProperty.PartialOnlyExampleHeap | exercises/algorithm/algorithm9.rs:15 | 1, 2, 3, 4 is a heap under the counterexample comparator |
| HeapProperty.PartialOrderBreaksSiftUp | exercises/algorithm/algorithm9.rs:42-57 | under that comparator, adding 5 yields a vector that is not a heap |
| HeapProperty.RootReplacedStartsSiftDown | exercises/algorithm/algorithm9.rs:105-106 | moving the last element into the root leaves only the root's edges in doubt |
| HeapProperty.ChosenChild | exercises/algorithm/algorithm9.rs:81-87 | no child of k outranks the child `down` picks; if that child does not outrank k, no child does |
| HeapProperty.SiftDownStep | exercises/algorithm/algorithm9.rs:117-119 | swapping with the picked child that outranks the cursor moves the broken edges one level down, keeps both end slots, and advances the cursor |
| HeapProperty.SiftDownDone | exercises/algorithm/algorithm9.rs:113-116 | stopping where no live child outranks the cursor leaves a heap |
| HeapProperty.AppendedWindow | exercises/algorithm/algorithm9.rs:40 | a permutation of the vector with v pushed, slot 0 kept, holds the old live elements plus v |
| HeapProperty.AddOutcome | exercises/algorithm/algorithm9.rs:38-59 | push plus climb gives a heap of one more element, holding the old elements plus v, with the placeholder kept |
| HeapProperty.PopOutcome | exercises/algorithm/algorithm9.rs:104-124 | after the root is replaced, the sift-down and the truncation, the result is a heap of n - 1 elements holding the old ones minus the old root, which no old element outranks |
| HeapProperty.TruncateKeepsHeap | exercises/algorithm/algorithm9.rs:122 | dropping slots past the live ones keeps the heap property |
| HeapProperty.SameEndsSameLive | exercises/algorithm/algorithm9.rs:112-121 | a rearrangement that keeps slot 0 and the stale last slot keeps the live multiset |
| HeapProperty.RemoveRootElements | exercises/algorithm/algorithm9.rs:104-106 | writing the last element over the root and dropping the last slot removes exactly the root from the multiset |
| HeapProperty.DrainStep | exercises/algorithm/algorithm9.rs:149-155 | taking out an element that nothing left outranks extends a ranked output that nothing left outranks |
| BinaryHeap.Heap.constructor | exercises/algorithm/algorithm9.rs:22-28 | `count == 0`, exactly one placeholder slot, the invariant holds, and the heap is empty |
| BinaryHeap.Heap.Len | exercises/algorithm/algorithm9.rs:30-32 | the length is the number of live elements |
| BinaryHeap.Heap.IsEmpty | exercises/algorithm/algorithm9.rs:34-36 | true exactly when no element is live |
| BinaryHeap.Heap.ChildrenPresent | exercises/algorithm/algorithm9.rs:65-67 | true: the left child is live; false: no live slot has idx as its parent |
| BinaryHeap.Heap.Down | exercises/algorithm/algorithm9.rs:77-92 | (false, 0) when there is no live child; otherwise a swap is requested only toward a live child of idx that outranks it and that no sibling outranks; (false, 0) means no child outranks idx |
| BinaryHeap.Heap.Add | exercises/algorithm/algorithm9.rs:38-59 | keeps the invariant, raises `count` by one, adds exactly `value` to the elements, keeps the placeholder, and leaves exactly the arrangement the climb `SiftUpResult` produces from the pushed vector |
| BinaryHeap.Heap.SiftUp | exercises/algorithm/algorithm9.rs:42-57 | the loop computes exactly `SiftUpResult` of the pushed vector |
| BinaryHeap.Heap.SiftDown | exercises/algorithm/algorithm9.rs:112-121 | from a root-only violation, the loop ends in a heap with the same live multiset, touching neither the placeholder nor the stale slot |
| BinaryHeap.Heap.Pop | exercises/algorithm/algorithm9.rs:99-125 | None exactly on an empty heap, with nothing changed; otherwise returns the old root, decrements `count`, removes exactly that value, keeps the invariant, and no old element outranks the value |
| BinaryHeap.Heap.Next | exercises/algorithm/algorithm9.rs:149-155 | the same outcome as `pop`: None exactly when `count == 0`, otherwise the old root, removed from the elements, which no old element outranks; the placeholder is kept |
| BinaryHeap.LessIsStrictWeakOrder | exercises/algorithm/algorithm9.rs:134 | `<` satisfies the comparator law |
| BinaryHeap.GreaterIsStrictWeakOrder | exercises/algorithm/algorithm9.rs:139 | `>` satisfies the comparator law |
| BinaryHeap.NewMin | exercises/algorithm/algorithm9.rs:133-135 | a fresh, valid, empty heap ordered by `<` |
| BinaryHeap.NewMax | exercises/algorithm/algorithm9.rs:138-140 | a fresh, valid, empty heap ordered by `>` |
| BinaryHeap.MinHeapNew | exercises/algorithm/algorithm9.rs:160-168 | a fresh, valid, empty heap ordered by `<` |
| BinaryHeap.MaxHeapNew | exercises/algorithm/algorithm9.rs:172-180 | a fresh, valid, empty heap ordered by `>` |
| HeapScenarios.NextIsTop | exercises/algorithm/algorithm9.rs:149-155 | when one element outranks all others, `next` yields exactly it and leaves the rest |
| HeapScenarios.DrainAll | exercises/algorithm/algorithm9.rs:149-155 | calling `next` until empty yields a permutation of the contents in which no value outranks an earlier one |
| HeapScenarios.DrainTops | exercises/algorithm/algorithm9.rs:149-155 | k calls of `next` on strictly ordered contents yield the first k, in order |
| HeapScenarios.AddFourTwoNineEleven | exercises/algorithm/algorithm9.rs:194-198 | four insertions give four elements, namely 4, 2, 9 and 11 |
| HeapScenarios.MinHeapScenario | exercises/algorithm/algorithm9.rs:192-208 | a min-heap fed 4, 2, 9, 11 has length 4 and yields 2, 4, 9, then 1 after adding 1 |
| HeapScenarios.MinHeapDrain | exercises/algorithm/algorithm9.rs:203-207 | the draining half of the min-heap test yields 2, 4, 9, 1 |
| HeapScenarios.MaxHeapScenario | exercises/algorithm/algorithm9.rs:211-223 | a max-heap fed 4, 2, 9, 11 has length 4 and yields 11, 9, 4, then 2 after adding 1 |
| HeapScenarios.MaxHeapDrain | exercises/algorithm/algorithm9.rs:218-222 | the draining half of the max-heap test yields 11, 9, 4, 2 |
| HeapScenarios.EmptyScenario | exercises/algorithm/algorithm9.rs:186-189 | a fresh max-heap yields None |

## Left out

- `smallest_child_idx` (exercises/algorithm/algorithm9.rs:94-97) is an unused stub that returns 0. Nothing calls it.
- The commented-out `println!` debugging lines have no effect.
- `T::default()` becomes a placeholder value passed to the constructor. The factories use element type `int` with placeholder 0, standing for `i32` and its default.
- `Copy` and the by-reference comparator arguments matter only to Rust's borrow checker. The comparator is a value-level function.
- The `Iterator` adaptors other than `next` are not modelled.
- `Vec` capacity and reallocation are not modelled. Neither is `usize` overflow of `idx * 2` or `count + 1`: integers are unbounded.
- The comparator is required to be a strict weak order. The code does not check its comparator, and arbitrary predicates are not modelled; `PartialOrderBreaksSiftUp` shows why a partial order is not enough.
- The two sift loops of `add` and `pop` are their own methods, `SiftUp` and `SiftDown`. They change the same state the inline loops do.
- Add: the in-loop `return` of `add` becomes `break`. Nothing follows the loop, so this changes nothing.
- Pop: in the source, one or two elements return before the sift-down loop. The model puts the loop under the opposite condition, and both paths then share the truncate-and-return tail.
- Pop: the contract fixes what remains as a multiset that satisfies the heap property, not the exact arrangement the sift-down leaves. So with a comparator under which distinct elements are equivalent, the contracts do not decide which of them a later `pop` returns. `Add` does pin the arrangement, through `SiftUpResult`.
