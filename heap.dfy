/** The `Heap` class of heap.js: a dense binary tree in one mutable field, ordered by a
    caller-supplied comparator. */
module BinaryHeap {
  import opened Wrappers
  import opened HeapIndex
  import opened HeapOrder

  /** The child `bubbleDown` swaps slot `k` with, or `None` when it stops (heap.js:113-123):
      the left child when it compares below the current value and below the right child
      (or there is no right child), else the right child when it compares below the
      current value. */
  function ChildToSwap<T(!new)>(cmp: (T, T) -> int, s: seq<T>, k: nat): (d: Option<nat>)
    requires IsComparator(cmp)
    ensures d.Some? ==> k < d.value < |s| && (d.value == LeftChild(k) || d.value == RightChild(k))
    ensures d.Some? ==> Below(cmp, s[d.value], s[k])
    ensures d.Some? && LeftChild(k) < |s| ==> !Below(cmp, s[LeftChild(k)], s[d.value])
    ensures d.Some? && RightChild(k) < |s| ==> !Below(cmp, s[RightChild(k)], s[d.value])
    ensures d.None? ==> LeftChild(k) < |s| ==> !Below(cmp, s[LeftChild(k)], s[k])
    ensures d.None? ==> RightChild(k) < |s| ==> !Below(cmp, s[RightChild(k)], s[k])
  {
    BelowFacts(cmp);
    var l, r := LeftChild(k), RightChild(k);
    if l < |s| && Below(cmp, s[l], s[k]) && (r > |s| - 1 || Below(cmp, s[l], s[r])) then
      Some(l)
    else if r < |s| && Below(cmp, s[r], s[k]) then
      Some(r)
    else
      None
  }

  /** Inside the subtree of `i`, every edge except those leaving slot `k` satisfies the
      heap property. */
  ghost predicate OrderedBelowExcept<T>(cmp: (T, T) -> int, s: seq<T>, i: nat, k: nat) {
    forall c :: 0 < c < |s| && InSubtree(i, Parent(c)) && Parent(c) != k
      ==> !Below(cmp, s[c], s[Parent(c)])
  }

  /** Every edge except the one entering slot `k` satisfies the heap property. */
  ghost predicate OrderedExcept<T>(cmp: (T, T) -> int, s: seq<T>, k: nat) {
    forall c :: 0 < c < |s| && c != k ==> !Below(cmp, s[c], s[Parent(c)])
  }

  /** The children of slot `k` do not compare below `k`'s parent. */
  ghost predicate GrandparentOk<T>(cmp: (T, T) -> int, s: seq<T>, k: nat)
    requires k < |s|
  {
    k > 0 ==>
      && (LeftChild(k) < |s| ==> !Below(cmp, s[LeftChild(k)], s[Parent(k)]))
      && (RightChild(k) < |s| ==> !Below(cmp, s[RightChild(k)], s[Parent(k)]))
  }

  /** When `bubbleDown` stops at `k`, the edges leaving `k` are in order as well. */
  lemma SiftDownDone<T(!new)>(cmp: (T, T) -> int, s: seq<T>, i: nat, k: nat)
    requires IsComparator(cmp) && ChildToSwap(cmp, s, k).None?
    requires OrderedBelowExcept(cmp, s, i, k)
    ensures forall c :: 0 < c < |s| && InSubtree(i, Parent(c)) ==> !Below(cmp, s[c], s[Parent(c)])
  {
    forall c | 0 < c < |s| && Parent(c) == k
      ensures c == LeftChild(k) || c == RightChild(k)
    {
    }
  }

  /** Swapping slot `k` with a child `d` that compares below it and not above its sibling
      moves the only possibly violated edges of the subtree of `i` from `k` to `d`. */
  lemma SwapDownEdges<T(!new)>(cmp: (T, T) -> int, s: seq<T>, i: nat, k: nat, d: nat)
    requires IsComparator(cmp) && InSubtree(i, k) && k < d < |s| && Parent(d) == k
    requires Below(cmp, s[d], s[k])
    requires LeftChild(k) < |s| ==> !Below(cmp, s[LeftChild(k)], s[d])
    requires RightChild(k) < |s| ==> !Below(cmp, s[RightChild(k)], s[d])
    requires OrderedBelowExcept(cmp, s, i, k)
    requires k != i ==> GrandparentOk(cmp, s, k)
    ensures OrderedBelowExcept(cmp, Swap(s, k, d), i, d)
  {
    var t := Swap(s, k, d);
    forall c | 0 < c < |t| && InSubtree(i, Parent(c)) && Parent(c) != d
      ensures !Below(cmp, t[c], t[Parent(c)])
    {
      if c == d {
        BelowFacts(cmp);
        assert t[c] == s[k] && t[Parent(c)] == s[d];
      } else if Parent(c) == k {
        assert c == LeftChild(k) || c == RightChild(k);
        assert t[c] == s[c] && t[Parent(c)] == s[d];
      } else if c == k {
        SubtreeBelowRoot(i, Parent(k));
        assert d == LeftChild(k) || d == RightChild(k);
        assert t[c] == s[d] && t[Parent(c)] == s[Parent(k)];
      } else {
        assert t[c] == s[c] && t[Parent(c)] == s[Parent(c)];
      }
    }
  }

  /** One swap of `bubbleDown` moves the only possibly violated edges one level down. */
  lemma SiftDownStep<T(!new)>(cmp: (T, T) -> int, s: seq<T>, i: nat, k: nat)
    requires IsComparator(cmp) && ChildToSwap(cmp, s, k).Some? && InSubtree(i, k)
    requires OrderedBelowExcept(cmp, s, i, k)
    requires k != i ==> GrandparentOk(cmp, s, k)
    ensures var d := ChildToSwap(cmp, s, k).value;
            && InSubtree(i, d)
            && OrderedBelowExcept(cmp, Swap(s, k, d), i, d)
            && GrandparentOk(cmp, Swap(s, k, d), d)
  {
    var next := ChildToSwap(cmp, s, k);
    var d := next.value;
    assert d == LeftChild(k) || d == RightChild(k);
    assert k < d < |s| && Parent(d) == k;
    ChildrenInSubtree(i, k);
    SwapDownEdges(cmp, s, i, k, d);
    var t := Swap(s, k, d);
    if LeftChild(d) < |s| {
      assert t[LeftChild(d)] == s[LeftChild(d)];
    }
    if RightChild(d) < |s| {
      assert t[RightChild(d)] == s[RightChild(d)];
    }
  }

  /** Swapping slot `k` with its parent `p` when `k` compares below `p` moves the only
      possibly violated edge from `k` to `p`. */
  lemma SwapUpEdges<T(!new)>(cmp: (T, T) -> int, s: seq<T>, k: nat, p: nat)
    requires IsComparator(cmp) && 0 < k < |s| && p == Parent(k) && Below(cmp, s[k], s[p])
    requires OrderedExcept(cmp, s, k) && GrandparentOk(cmp, s, k)
    ensures OrderedExcept(cmp, Swap(s, k, p), p)
  {
    var t := Swap(s, k, p);
    forall c | 0 < c < |t| && c != p
      ensures !Below(cmp, t[c], t[Parent(c)])
    {
      if c == k {
        BelowFacts(cmp);
        assert t[c] == s[p] && t[Parent(c)] == s[k];
      } else if Parent(c) == k {
        assert c == LeftChild(k) || c == RightChild(k);
        assert t[c] == s[c] && t[Parent(c)] == s[p];
      } else if Parent(c) == p {
        BelowFacts(cmp);
        assert t[c] == s[c] && t[Parent(c)] == s[k];
      } else {
        assert t[c] == s[c] && t[Parent(c)] == s[Parent(c)];
      }
    }
  }

  /** One swap of `bubbleUp` moves the only possibly violated edge one level up. */
  lemma SiftUpStep<T(!new)>(cmp: (T, T) -> int, s: seq<T>, k: nat)
    requires IsComparator(cmp) && 0 < k < |s| && Below(cmp, s[k], s[Parent(k)])
    requires OrderedExcept(cmp, s, k) && GrandparentOk(cmp, s, k)
    ensures OrderedExcept(cmp, Swap(s, k, Parent(k)), Parent(k))
    ensures GrandparentOk(cmp, Swap(s, k, Parent(k)), Parent(k))
  {
    var p := Parent(k);
    SwapUpEdges(cmp, s, k, p);
    var t := Swap(s, k, p);
    if p > 0 {
      var q := Parent(p);
      assert t[q] == s[q] && t[k] == s[p];
      assert !Below(cmp, s[p], s[q]);
      if LeftChild(p) != k && LeftChild(p) < |s| {
        assert t[LeftChild(p)] == s[LeftChild(p)];
        assert !Below(cmp, s[LeftChild(p)], s[p]);
        BelowFacts(cmp);
      }
      if RightChild(p) != k && RightChild(p) < |s| {
        assert t[RightChild(p)] == s[RightChild(p)];
        assert !Below(cmp, s[RightChild(p)], s[p]);
        BelowFacts(cmp);
      }
    }
  }

  class Heap<T(!new)> {
    /** The ordering: `cmp(a, b) < 0` puts `a` nearer the root. */
    const cmp: (T, T) -> int
    /** The key validator every inserted or built-from value must pass. */
    const keyOk: T -> bool
    /** `this.arr`: slot `i` has children `2i+1` and `2i+2`. */
    var arr: seq<T>

    /** The object invariant: a proper comparator, the heap property, and only values
        the key validator accepts. */
    ghost predicate Valid()
      reads this
    {
      IsComparator(cmp) && HeapOrdered(cmp, arr) && KeysValid(keyOk, arr)
    }

    /** An empty heap with the given comparator and key validator. */
    constructor (cmp: (T, T) -> int, keyOk: T -> bool)
      requires IsComparator(cmp)
      ensures this.cmp == cmp && this.keyOk == keyOk && arr == [] && Valid()
    {
      this.cmp := cmp;
      this.keyOk := keyOk;
      arr := [];
    }

    /** `new Heap(arr, comparator, keyValidator)`: assign the comparator and validator,
        then `buildHeap`; the construction throws on the first invalid key. */
    static method Create(init: seq<T>, cmp: (T, T) -> int, keyOk: T -> bool)
      returns (r: Result<Heap<T>, T>)
      requires IsComparator(cmp)
      ensures r.Failure? <==> FirstInvalid(init, keyOk).Some?
      ensures r.Failure? ==> r.error == init[FirstInvalid(init, keyOk).value]
      ensures r.Success? ==> fresh(r.value) && r.value.Valid()
                             && r.value.cmp == cmp && r.value.keyOk == keyOk
                             && multiset(r.value.arr) == multiset(init)
    {
      var h := new Heap(cmp, keyOk);
      var bad := h.BuildHeap(init);
      if bad.Some? {
        r := Failure(bad.value);
      } else {
        r := Success(h);
      }
    }

    /** `buildHeap(arr)`: reject the first invalid value, otherwise take the values and
        sift down every slot from `floor(n / 2)` to the root. */
    method BuildHeap(a: seq<T>) returns (bad: Option<T>)
      requires Valid()
      modifies this
      ensures Valid()
      ensures FirstInvalid(a, keyOk).Some? ==>
                bad == Some(a[FirstInvalid(a, keyOk).value]) && arr == old(arr)
      ensures FirstInvalid(a, keyOk).None? ==>
                bad == None && |arr| == |a| && multiset(arr) == multiset(a)
    {
      var k := FirstInvalid(a, keyOk);
      if k.Some? {
        return Some(a[k.value]);
      }
      arr := a;
      forall x | x in multiset(arr) ensures keyOk(x) {
        assert x in arr;
      }
      var i: int := |arr| / 2;
      while i >= 0
        invariant -1 <= i <= |a| / 2
        invariant |arr| == |a| && multiset(arr) == multiset(a) && KeysValid(keyOk, arr)
        invariant forall c :: 0 < c < |arr| && Parent(c) > i ==> !Below(cmp, arr[c], arr[Parent(c)])
        decreases i
      {
        forall c | 0 < c < |arr| && InSubtree(i, Parent(c)) && Parent(c) != i
          ensures Parent(c) > i
        {
          SubtreeBelowRoot(i, Parent(c));
        }
        ghost var before := arr;
        BubbleDown(i);
        forall c | 0 < c < |arr| && Parent(c) >= i
          ensures !Below(cmp, arr[c], arr[Parent(c)])
        {
          if !InSubtree(i, Parent(c)) {
            assert arr[c] == before[c] && arr[Parent(c)] == before[Parent(c)];
          }
        }
        i := i - 1;
      }
      bad := None;
    }

    /** With distinct keys, the contents of a valid heap pass the static `isHeap` check
        under the heap's own comparator and validator. */
    lemma PassesIsHeap()
      requires Valid() && DistinctKeys(cmp, arr)
      ensures IsHeap(arr, 0, cmp, keyOk) == Success(true)
    {
      OrderedDistinctIsStrict(cmp, arr);
      forall j | 0 <= j < |arr| ensures keyOk(arr[j]) {
        assert arr[j] in multiset(arr);
      }
    }

    /** `bubbleDown(i)`: when the subtrees below slot `i`'s children are heaps, make the
        subtree at `i` a heap by swapping the value down, always with the child chosen by
        ChildToSwap. Only slots of that subtree move. */
    method BubbleDown(i: nat)
      requires IsComparator(cmp)
      requires forall c :: 0 < c < |arr| && InSubtree(i, Parent(c)) && Parent(c) != i
                 ==> !Below(cmp, arr[c], arr[Parent(c)])
      modifies this
      ensures |arr| == |old(arr)| && multiset(arr) == multiset(old(arr))
      ensures forall c :: 0 < c < |arr| && InSubtree(i, Parent(c))
                ==> !Below(cmp, arr[c], arr[Parent(c)])
      ensures forall j :: 0 <= j < |arr| && !InSubtree(i, j) ==> arr[j] == old(arr)[j]
    {
      ghost var s0 := arr;
      var k := i;
      var next := ChildToSwap(cmp, arr, k);
      while next.Some?
        invariant |arr| == |s0| && multiset(arr) == multiset(s0)
        invariant k < |arr| || k == i
        invariant InSubtree(i, k)
        invariant next == ChildToSwap(cmp, arr, k)
        invariant forall j :: 0 <= j < |arr| && !InSubtree(i, j) ==> arr[j] == s0[j]
        invariant OrderedBelowExcept(cmp, arr, i, k)
        invariant k != i ==> GrandparentOk(cmp, arr, k)
        decreases |arr| - k
      {
        var d := next.value;
        SiftDownStep(cmp, arr, i, k);
        ghost var before := arr;
        arr := Swap(arr, k, d);
        forall j | 0 <= j < |arr| && !InSubtree(i, j) ensures arr[j] == s0[j] {
          assert j != k && j != d && arr[j] == before[j];
        }
        k := d;
        next := ChildToSwap(cmp, arr, k);
      }
      SiftDownDone(cmp, arr, i, k);
    }

    /** `bubbleUp(i)`: when the array is a heap except that the value at slot `i` may
        compare below its ancestors, swap it up until the heap property holds. Only slots
        on the path from `i` to the root move. */
    method BubbleUp(i: nat)
      requires IsComparator(cmp) && i < |arr|
      requires forall c :: 0 < c < |arr| && c != i ==> !Below(cmp, arr[c], arr[Parent(c)])
      requires i > 0 && LeftChild(i) < |arr| ==> !Below(cmp, arr[LeftChild(i)], arr[Parent(i)])
      requires i > 0 && RightChild(i) < |arr| ==> !Below(cmp, arr[RightChild(i)], arr[Parent(i)])
      modifies this
      ensures |arr| == |old(arr)| && multiset(arr) == multiset(old(arr))
      ensures HeapOrdered(cmp, arr)
      ensures forall j :: 0 <= j < |arr| && !InSubtree(j, i) ==> arr[j] == old(arr)[j]
    {
      ghost var s0 := arr;
      var k: nat := i;
      while k > 0 && Below(cmp, arr[k], arr[Parent(k)])
        invariant |arr| == |s0| && multiset(arr) == multiset(s0)
        invariant k < |arr| && InSubtree(k, i)
        invariant forall j :: 0 <= j < |arr| && !InSubtree(j, i) ==> arr[j] == s0[j]
        invariant OrderedExcept(cmp, arr, k) && GrandparentOk(cmp, arr, k)
        decreases k
      {
        var p: nat := Parent(k);
        ParentIsAncestor(k, i);
        SiftUpStep(cmp, arr, k);
        ghost var before := arr;
        arr := Swap(arr, k, p);
        forall j | 0 <= j < |arr| && !InSubtree(j, i) ensures arr[j] == s0[j] {
          assert j != k && j != p && arr[j] == before[j];
        }
        k := p;
      }
    }

    /** `peek()`: the root, or `None` (`undefined`) on an empty heap; no element of a
        heap compares below it. */
    method Peek() returns (top: Option<T>)
      requires Valid()
      ensures top == if |arr| == 0 then None else Some(arr[0])
      ensures top.Some? ==> forall x :: x in multiset(arr) ==> !Below(cmp, x, top.value)
    {
      if |arr| == 0 {
        top := None;
      } else {
        top := Some(arr[0]);
        forall x | x in multiset(arr) ensures !Below(cmp, x, top.value) {
          RootIsMinimumOf(cmp, arr, x);
        }
      }
    }

    /** `extract()`: swap the root with the last slot, pop it and sift the new root down.
        On an empty heap nothing changes and `None` (`undefined`) comes back. */
    method Extract() returns (top: Option<T>)
      requires Valid()
      modifies this
      ensures Valid()
      ensures old(|arr|) == 0 ==> top == None && arr == old(arr)
      ensures old(|arr|) > 0 ==> top == Some(old(arr)[0]) && |arr| == old(|arr|) - 1
                                 && multiset(arr) == multiset(old(arr)) - multiset{old(arr)[0]}
      ensures top.Some? ==> forall x :: x in multiset(arr) ==> !Below(cmp, x, top.value)
    {
      if |arr| == 0 {
        return None;
      }
      ghost var s0 := arr;
      arr := Swap(arr, 0, |arr| - 1);
      var extracted := arr[|arr| - 1];
      assert arr == arr[..|arr| - 1] + [extracted];
      arr := arr[..|arr| - 1];
      BubbleDown(0);
      forall c | 0 < c < |arr| ensures !Below(cmp, arr[c], arr[Parent(c)]) {
        RootSubtreeIsAll(Parent(c));
      }
      top := Some(extracted);
      forall x | x in multiset(arr) ensures !Below(cmp, x, extracted) {
        RootIsMinimumOf(cmp, s0, x);
      }
    }

    /** `insert(value)`: an invalid key is refused ("Invalid key!") and nothing changes;
        otherwise push the value and sift it up. A value below every element becomes the
        root. */
    method Insert(v: T) returns (ok: bool)
      requires Valid()
      modifies this
      ensures Valid()
      ensures ok == keyOk(v)
      ensures !ok ==> arr == old(arr)
      ensures ok ==> |arr| == old(|arr|) + 1 && multiset(arr) == multiset(old(arr)) + multiset{v}
      ensures ok && (forall x :: x in multiset(old(arr)) ==> Below(cmp, v, x)) ==> arr[0] == v
    {
      if !keyOk(v) {
        return false;
      }
      ghost var s0 := arr;
      arr := arr + [v];
      BubbleUp(|arr| - 1);
      ok := true;
      if forall x :: x in multiset(s0) ==> Below(cmp, v, x) {
        BelowFacts(cmp);
        assert v in multiset(arr);
        RootIsMinimumOf(cmp, arr, v);
        assert arr[0] in multiset(arr);
      }
    }

    /** `size()`: the number of elements held. */
    function Size(): (n: nat)
      reads this
      ensures n == |multiset(arr)|
    {
      |arr|
    }
  }
}
