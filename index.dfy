/** Index arithmetic of the dense binary tree (heap.js:1-17). */
module HeapIndex {

  /** Index of the left child of slot `i`. */
  function LeftChild(i: nat): (c: nat)
    ensures c > i && Parent(c) == i
  {
    2 * i + 1
  }

  /** Index of the right child of slot `i`; it sits just after the left child. */
  function RightChild(i: nat): (c: nat)
    ensures c > i && Parent(c) == i && c == LeftChild(i) + 1
  {
    2 * i + 2
  }

  /** `Math.floor((i - 1) / 2)`: Dafny's division by a positive number rounds down like
      `Math.floor`, so the root gets -1 as in the source. */
  function Parent(i: int): (p: int)
    ensures i > 0 ==> 0 <= p < i && (i == 2 * p + 1 || i == 2 * p + 2)
    ensures i == 0 ==> p == -1
  {
    (i - 1) / 2
  }

  /** Slot `c` lies in the subtree rooted at slot `r` (`r` is `c` or one of its ancestors). */
  predicate InSubtree(r: nat, c: nat)
    decreases c
  {
    c == r || (c > r && InSubtree(r, Parent(c)))
  }

  lemma SubtreeBelowRoot(r: nat, c: nat)
    requires InSubtree(r, c)
    ensures r <= c
  {
  }

  /** Every slot lies in the subtree of the root. */
  lemma {:induction false} RootSubtreeIsAll(c: nat)
    ensures InSubtree(0, c)
    decreases c
  {
    if c > 0 {
      RootSubtreeIsAll(Parent(c));
    }
  }

  /** Both children of a slot of a subtree belong to that subtree. */
  lemma ChildrenInSubtree(r: nat, k: nat)
    requires InSubtree(r, k)
    ensures InSubtree(r, LeftChild(k)) && InSubtree(r, RightChild(k))
  {
    SubtreeBelowRoot(r, k);
  }

  /** The parent of a slot is an ancestor of everything below that slot. */
  lemma {:induction false} ParentIsAncestor(k: nat, c: nat)
    requires k > 0 && InSubtree(k, c)
    ensures InSubtree(Parent(k), c)
    decreases c
  {
    if c != k {
      ParentIsAncestor(k, Parent(c));
    }
  }

  /** Below its root, the subtree of `r` is exactly the union of the subtrees of `r`'s
      two children. */
  lemma {:induction false} SubtreeSplit(r: nat, c: nat)
    requires c > r
    ensures InSubtree(r, c) <==> InSubtree(LeftChild(r), c) || InSubtree(RightChild(r), c)
    decreases c
  {
    var p := Parent(c);
    if p > r {
      SubtreeSplit(r, p);
    }
    if InSubtree(LeftChild(r), c) && c != LeftChild(r) {
      SubtreeBelowRoot(LeftChild(r), p);
    }
    if InSubtree(RightChild(r), c) && c != RightChild(r) {
      SubtreeBelowRoot(RightChild(r), p);
    }
    if InSubtree(r, c) && p != r {
      SubtreeBelowRoot(r, p);
    }
  }

  /** `swap(arr, i, j)`: slots `i` and `j` trade places and nothing else moves. */
  function Swap<T>(s: seq<T>, i: nat, j: nat): (r: seq<T>)
    requires i < |s| && j < |s|
    ensures |r| == |s| && r[i] == s[j] && r[j] == s[i]
    ensures forall k :: 0 <= k < |s| && k != i && k != j ==> r[k] == s[k]
    ensures multiset(r) == multiset(s)
  {
    s[i := s[j]][j := s[i]]
  }
}
