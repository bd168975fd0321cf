/** The static `isHeap` as heap.js:78-101 writes it: the recursive calls at heap.js:95
    pass only the array and the child index, so below the root the check falls back to
    the default comparator `a - b` and the accept-all validator. */
module HeapAsWritten {
  import opened Wrappers
  import opened HeapIndex
  import opened HeapOrder
  import opened HeapPresets

  /** `isHeap(arr, rootIndex, comparator, keyValidator)` as written, on integer keys:
      the caller's validator and comparator are used at `root` only. */
  function IsHeapAsWritten(s: seq<int>, root: nat, cmp: (int, int) -> int, keyOk: int -> bool)
    : (r: Result<bool, int>)
    ensures r.Failure? <==> exists j :: 0 <= j < |s| && !keyOk(s[j])
    ensures r.Failure? ==> exists k :: 0 <= k < |s| && r.error == s[k] && !keyOk(s[k])
                                         && forall j :: 0 <= j < k ==> keyOk(s[j])
    ensures r.Success? && root < |s| && r.value ==>
              && (LeftChild(root) >= |s| || Below(cmp, s[root], s[LeftChild(root)]))
              && (RightChild(root) >= |s| || Below(cmp, s[root], s[RightChild(root)]))
  {
    match FirstInvalid(s, keyOk)
    case Some(k) => Failure(s[k])
    case None =>
      if root < |s| then
        var l, r := LeftChild(root), RightChild(root);
        if (l >= |s| || Below(cmp, s[root], s[l])) && (r >= |s| || Below(cmp, s[root], s[r])) then
          Success(IsHeapAt(MinComparator, s, l) && IsHeapAt(MinComparator, s, r))
        else
          Success(false)
      else
        Success(true)
  }

  /** With the default comparator the dropped argument makes no difference, which is
      why checks that use it cannot see the defect. */
  lemma AsWrittenAgreesForMin(s: seq<int>, root: nat, keyOk: int -> bool)
    ensures IsHeapAsWritten(s, root, MinComparator, keyOk) == IsHeap(s, root, MinComparator, keyOk)
  {
  }

  /** `[5, 4, 3, 2, 1]` is a max-heap, and the intended check (IsHeap) accepts it under
      `MAX_COMPARATOR`; the check as written rejects it, because below the root it
      compares 4 with its children by `a - b`. */
  lemma AsWrittenRejectsMaxHeap()
    ensures IsHeap([5, 4, 3, 2, 1], 0, MaxComparator, AcceptAll) == Success(true)
    ensures IsHeapAsWritten([5, 4, 3, 2, 1], 0, MaxComparator, AcceptAll) == Success(false)
  {
    var s := [5, 4, 3, 2, 1];
    assert IsHeapAt(MaxComparator, s, 1);
    assert IsHeapAt(MaxComparator, s, 2);
    assert IsHeapAt(MaxComparator, s, 0);
    assert !IsHeapAt(MinComparator, s, 1);
  }
}
