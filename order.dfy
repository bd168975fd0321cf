/** The comparator contract, the heap property and the static `isHeap` check
    (heap.js:19-32, 70-101). */
module HeapOrder {
  import opened Wrappers
  import opened HeapIndex

  /** What the heap needs of a three-way comparator: the sign of `cmp(a, b)` is the
      opposite of the sign of `cmp(b, a)`, and "compares at most zero" is transitive. */
  ghost predicate IsComparator<T(!new)>(cmp: (T, T) -> int) {
    && (forall a, b :: cmp(a, b) < 0 <==> cmp(b, a) > 0)
    && (forall a, b, c :: cmp(a, b) <= 0 && cmp(b, c) <= 0 ==> cmp(a, c) <= 0)
  }

  /** `a` must end up nearer the root than `b`. */
  predicate Below<T>(cmp: (T, T) -> int, a: T, b: T) {
    cmp(a, b) < 0
  }

  /** "Goes below" is a strict order, and "does not go below" chains with it. */
  lemma BelowFacts<T(!new)>(cmp: (T, T) -> int)
    requires IsComparator(cmp)
    ensures forall a :: !Below(cmp, a, a)
    ensures forall a, b :: Below(cmp, a, b) ==> !Below(cmp, b, a)
    ensures forall a, b :: !Below(cmp, a, b) && cmp(a, b) != 0 ==> Below(cmp, b, a)
    ensures forall a, b, c :: !Below(cmp, b, a) && !Below(cmp, c, b) ==> !Below(cmp, c, a)
    ensures forall a, b, c :: Below(cmp, a, b) && !Below(cmp, c, b) ==> Below(cmp, a, c)
    ensures forall a, b, c :: !Below(cmp, b, a) && Below(cmp, b, c) ==> Below(cmp, a, c)
  {
  }

  /** The heap property the sift operations establish: no element compares below the
      element in its parent slot. */
  ghost predicate HeapOrdered<T>(cmp: (T, T) -> int, s: seq<T>) {
    forall c :: 0 < c < |s| ==> !Below(cmp, s[c], s[Parent(c)])
  }

  /** The relation `isHeap` tests: every parent compares strictly below each child. */
  ghost predicate StrictlyOrdered<T>(cmp: (T, T) -> int, s: seq<T>) {
    forall c :: 0 < c < |s| ==> Below(cmp, s[Parent(c)], s[c])
  }

  /** Every element passes the key validator. */
  ghost predicate KeysValid<T>(keyOk: T -> bool, s: seq<T>) {
    forall x :: x in multiset(s) ==> keyOk(x)
  }

  /** No two elements compare equal. */
  ghost predicate DistinctKeys<T>(cmp: (T, T) -> int, s: seq<T>) {
    forall i, j :: 0 <= i < |s| && 0 <= j < |s| && i != j ==> cmp(s[i], s[j]) != 0
  }

  /** The recursion of `isHeap` below the key check (heap.js:88-100): the root compares
      strictly below each existing child and both child subtrees pass the same test. */
  predicate IsHeapAt<T>(cmp: (T, T) -> int, s: seq<T>, root: nat): (ok: bool)
    ensures root >= |s| ==> ok
    ensures ok ==> forall c :: root < c < |s| && Parent(c) == root ==> Below(cmp, s[root], s[c])
    decreases |s| - root
  {
    if root < |s| then
      var l, r := LeftChild(root), RightChild(root);
      && (l >= |s| || Below(cmp, s[root], s[l]))
      && (r >= |s| || Below(cmp, s[root], s[r]))
      && IsHeapAt(cmp, s, l) && IsHeapAt(cmp, s, r)
    else
      true
  }

  /** The first slot whose value the key validator rejects, as the `forEach` that
      throws `Invalid key!` finds it (heap.js:54-58, 82-86). */
  function FirstInvalid<T>(s: seq<T>, keyOk: T -> bool): (k: Option<nat>)
    ensures k.None? <==> forall j :: 0 <= j < |s| ==> keyOk(s[j])
    ensures k.Some? ==> k.value < |s| && !keyOk(s[k.value])
                        && forall j :: 0 <= j < k.value ==> keyOk(s[j])
  {
    if |s| == 0 then None
    else if !keyOk(s[0]) then Some(0)
    else match FirstInvalid(s[1..], keyOk)
      case None => None
      case Some(k) => Some(k + 1)
  }

  /** The static `isHeap(arr, rootIndex, comparator, keyValidator)` with the caller's
      comparator and validator used at every level: it fails on the first invalid key,
      and otherwise tells whether every parent inside the subtree of `root` compares
      strictly below its children. */
  function IsHeap<T>(s: seq<T>, root: nat, cmp: (T, T) -> int, keyOk: T -> bool): (r: Result<bool, T>)
    ensures r.Failure? <==> exists j :: 0 <= j < |s| && !keyOk(s[j])
    ensures r.Failure? ==> exists k :: 0 <= k < |s| && r.error == s[k] && !keyOk(s[k])
                                         && forall j :: 0 <= j < k ==> keyOk(s[j])
    ensures r.Success? ==> (r.value <==> forall c :: root < c < |s| && InSubtree(root, c)
                                                     ==> Below(cmp, s[Parent(c)], s[c]))
  {
    IsHeapAtSubtree(cmp, s, root);
    match FirstInvalid(s, keyOk)
    case Some(k) => Failure(s[k])
    case None => Success(IsHeapAt(cmp, s, root))
  }

  /** The recursive check at `root` holds exactly when every edge inside the subtree of
      `root` goes from a parent strictly below its child. */
  lemma {:induction false} IsHeapAtSubtree<T>(cmp: (T, T) -> int, s: seq<T>, root: nat)
    ensures IsHeapAt(cmp, s, root) <==>
            forall c :: root < c < |s| && InSubtree(root, c) ==> Below(cmp, s[Parent(c)], s[c])
    decreases |s| - root
  {
    if root < |s| {
      var l, r := LeftChild(root), RightChild(root);
      IsHeapAtSubtree(cmp, s, l);
      IsHeapAtSubtree(cmp, s, r);
      forall c | root < c < |s|
        ensures InSubtree(root, c) <==> InSubtree(l, c) || InSubtree(r, c)
      {
        SubtreeSplit(root, c);
      }
      forall c | l < c && InSubtree(l, c)
        ensures Parent(c) != root
      {
        SubtreeBelowRoot(l, Parent(c));
      }
      forall c | r < c && InSubtree(r, c)
        ensures Parent(c) != root
      {
        SubtreeBelowRoot(r, Parent(c));
      }
      forall c | root < c && Parent(c) == root
        ensures c == l || c == r
      {
      }
    }
  }

  /** At the root, `isHeap` is the strict relation over all non-root slots. */
  lemma IsHeapAtRoot<T>(cmp: (T, T) -> int, s: seq<T>)
    ensures IsHeapAt(cmp, s, 0) <==> StrictlyOrdered(cmp, s)
  {
    IsHeapAtSubtree(cmp, s, 0);
    forall c | 0 <= c {
      RootSubtreeIsAll(c);
    }
  }

  /** A sequence `isHeap` accepts satisfies the heap property. */
  lemma StrictIsOrdered<T(!new)>(cmp: (T, T) -> int, s: seq<T>)
    requires IsComparator(cmp) && IsHeapAt(cmp, s, 0)
    ensures HeapOrdered(cmp, s)
  {
    IsHeapAtRoot(cmp, s);
    BelowFacts(cmp);
  }

  /** With distinct keys, the heap property is what `isHeap` accepts. */
  lemma OrderedDistinctIsStrict<T(!new)>(cmp: (T, T) -> int, s: seq<T>)
    requires IsComparator(cmp) && HeapOrdered(cmp, s) && DistinctKeys(cmp, s)
    ensures IsHeapAt(cmp, s, 0)
  {
    IsHeapAtRoot(cmp, s);
    forall c | 0 < c < |s|
      ensures Below(cmp, s[Parent(c)], s[c])
    {
      assert cmp(s[Parent(c)], s[c]) != 0;
    }
  }

  /** In a heap, no element compares below the root. */
  lemma {:induction false} RootIsMinimum<T(!new)>(cmp: (T, T) -> int, s: seq<T>, j: nat)
    requires IsComparator(cmp) && HeapOrdered(cmp, s) && j < |s|
    ensures !Below(cmp, s[j], s[0])
    decreases j
  {
    BelowFacts(cmp);
    if j > 0 {
      RootIsMinimum(cmp, s, Parent(j));
    }
  }

  /** No element of a heap's contents compares below the root. */
  lemma RootIsMinimumOf<T(!new)>(cmp: (T, T) -> int, s: seq<T>, x: T)
    requires IsComparator(cmp) && HeapOrdered(cmp, s) && x in multiset(s)
    ensures !Below(cmp, x, s[0])
  {
    assert x in s;
    var j :| 0 <= j < |s| && s[j] == x;
    RootIsMinimum(cmp, s, j);
  }
}
