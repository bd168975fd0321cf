/** The behaviour heap.test.js checks, stated over the model. */
module HeapScenarios {
  import opened Wrappers
  import opened HeapIndex
  import opened HeapOrder
  import opened HeapPresets
  import opened BinaryHeap

  /** The default validator accepts every array. */
  lemma AcceptAllFindsNothing<T>(s: seq<T>)
    ensures FirstInvalid(s, AcceptAll) == None
  {
  }

  /** A sequence every parent of which compares strictly below its children passes
      `isHeap` with the default validator. */
  lemma StrictPassesIsHeap(cmp: (int, int) -> int, s: seq<int>)
    requires StrictlyOrdered(cmp, s)
    ensures IsHeap(s, 0, cmp, AcceptAll) == Success(true)
  {
    AcceptAllFindsNothing(s);
    IsHeapAtRoot(cmp, s);
  }

  /** heap.test.js:4-10: the empty and the one-element array are heaps. */
  lemma IsHeapAcceptsTrivial()
    ensures IsHeap([], 0, MinComparator, AcceptAll) == Success(true)
    ensures IsHeap([5], 0, MinComparator, AcceptAll) == Success(true)
  {
    StrictPassesIsHeap(MinComparator, []);
    StrictPassesIsHeap(MinComparator, [5]);
  }

  /** heap.test.js:12-15. */
  lemma IsHeapAcceptsThree()
    ensures IsHeap([1, 2, 3], 0, MinComparator, AcceptAll) == Success(true)
  {
    ParentsOfFive();
    StrictPassesIsHeap(MinComparator, [1, 2, 3]);
  }

  /** heap.test.js:17-20. */
  lemma IsHeapAcceptsFive()
    ensures IsHeap([1, 2, 3, 4, 6], 0, MinComparator, AcceptAll) == Success(true)
  {
    ParentsOfFive();
    StrictPassesIsHeap(MinComparator, [1, 2, 3, 4, 6]);
  }

  /** heap.test.js:22-25. */
  lemma IsHeapAcceptsSix()
    ensures IsHeap([0, 1, 2, 3, 4, 5], 0, MinComparator, AcceptAll) == Success(true)
  {
    ParentsOfFive();
    StrictPassesIsHeap(MinComparator, [0, 1, 2, 3, 4, 5]);
  }

  lemma ParentsOfFive()
    ensures Parent(1) == 0 && Parent(2) == 0 && Parent(3) == 1 && Parent(4) == 1 && Parent(5) == 2
  {
  }

  /** The rejected `isHeap` cases of heap.test.js:27-40. */
  lemma IsHeapRejects()
    ensures IsHeap([3, 2, 6], 0, MinComparator, AcceptAll) == Success(false)
    ensures IsHeap([3, 2, 1], 0, MinComparator, AcceptAll) == Success(false)
    ensures IsHeap([0, 1, 2, 3, 4, 5, -1], 0, MinComparator, AcceptAll) == Success(false)
  {
    AcceptAllFindsNothing([3, 2, 6]);
    AcceptAllFindsNothing([3, 2, 1]);
    AcceptAllFindsNothing([0, 1, 2, 3, 4, 5, -1]);
    assert !IsHeapAt(MinComparator, [0, 1, 2, 3, 4, 5, -1], 2);
  }

  /** Reordering two blocks of a sequence keeps its contents. */
  lemma ConcatCommutes<T>(a: seq<T>, b: seq<T>)
    ensures multiset(a + b) == multiset(b + a)
  {
  }

  /** `s` lists integers in ascending order. */
  predicate Ascending(s: seq<int>) {
    |s| <= 1 || (s[0] <= s[1] && Ascending(s[1..]))
  }

  lemma {:induction false} AscendingHeadIsLeast(s: seq<int>, x: int)
    requires Ascending(s) && x in s
    ensures s[0] <= x
  {
    if x != s[0] {
      assert x in s[1..];
      AscendingHeadIsLeast(s[1..], x);
    }
  }

  /** The contents of the extraction scenario below, listed in ascending order. */
  lemma BuiltContents()
    ensures multiset([8, 7, 6, 3, 10, 2, 11]) == multiset([2, 3, 6, 7, 8, 10, 11])
  {
  }

  lemma BuiltContentsAscending()
    ensures Ascending([2, 3, 6, 7, 8, 10, 11])
  {
  }

  /** The contents after each insertion of the insertion scenario, in ascending order. */
  lemma FirstInsertContents()
    ensures multiset([7, 8, 10, 11]) + multiset{-5} == multiset([-5, 7, 8, 10, 11])
  {
  }

  lemma SecondInsertContents()
    ensures multiset([-5, 7, 8, 10, 11]) + multiset{0} == multiset([-5, 0, 7, 8, 10, 11])
  {
  }

  lemma InsertContentsAscending()
    ensures Ascending([-5, 0, 7, 8, 10, 11]) && Ascending([-5, 7, 8, 10, 11])
  {
  }

  /** Removing one copy of `b` keeps every other member `a`. */
  lemma OtherStaysAfterRemoval(m: multiset<int>, a: int, b: int)
    requires a in m
    ensures a == b || a in m - multiset{b}
  {
  }

  /** Links the heap's contracts to a concrete run: when the contents, listed in
      ascending order, are `s`, the element extraction returns, and the one peek returns,
      is `s[0]`. */
  lemma LeastOfSorted(s: seq<int>, top: int)
    requires |s| > 0 && Ascending(s)
    requires top in multiset(s)
    requires forall y :: y in multiset(s) - multiset{top} ==> !Below(MinComparator, y, top)
    ensures top == s[0] && multiset(s) - multiset{top} == multiset(s[1..]) && Ascending(s[1..])
  {
    assert s == [s[0]] + s[1..];
    assert top in s;
    AscendingHeadIsLeast(s, top);
    OtherStaysAfterRemoval(multiset(s), s[0], top);
  }

  /** A sequence with no two equal slots holds every value at most once. */
  lemma {:induction false} DistinctSlotsCountOnce<T>(s: seq<T>)
    requires forall i, j :: 0 <= i < j < |s| ==> s[i] != s[j]
    ensures forall x :: multiset(s)[x] <= 1
  {
    if |s| > 0 {
      var rest := s[1..];
      assert s == [s[0]] + rest;
      assert forall i, j :: 0 <= i < j < |rest| ==> rest[i] != rest[j] by {
        forall i, j | 0 <= i < j < |rest| ensures rest[i] != rest[j] {
          assert rest[i] == s[i + 1] && rest[j] == s[j + 1];
        }
      }
      DistinctSlotsCountOnce(rest);
      assert s[0] !in rest;
      assert multiset(rest)[s[0]] == 0;
    }
  }

  /** A sequence in which no value occurs twice has no two equal slots. */
  lemma NoRepeatedSlots<T>(s: seq<T>)
    requires forall x :: multiset(s)[x] <= 1
    ensures forall i, j :: 0 <= i < |s| && 0 <= j < |s| && i != j ==> s[i] != s[j]
  {
    forall i, j | 0 <= i < j < |s|
      ensures s[i] != s[j]
    {
      assert s == s[..j] + s[j..];
      assert multiset(s) == multiset(s[..j]) + multiset(s[j..]);
      assert s[..j][i] == s[i] && s[j..][0] == s[j];
      assert s[i] in multiset(s[..j]);
      assert multiset(s)[s[i]] == multiset(s[..j])[s[i]] + multiset(s[j..])[s[i]] <= 1;
      assert multiset(s[j..])[s[i]] == 0 && s[j] in multiset(s[j..]);
    }
  }

  /** heap.test.js:44-66, for any of its arrays: building a heap with a comparator that
      compares only equal values as equal, from an array without repeated values, gives
      an array that passes `isHeap`, and peek returns the array's least element under
      that comparator. */
  method CreateAndPeek(init: seq<int>, cmp: (int, int) -> int, least: int)
    returns (h: Heap<int>, top: int)
    requires IsComparator(cmp) && forall a, b :: cmp(a, b) == 0 ==> a == b
    requires forall i, j :: 0 <= i < j < |init| ==> init[i] != init[j]
    requires least in init && forall x :: x in init ==> !Below(cmp, x, least)
    ensures h.Valid() && h.cmp == cmp && h.keyOk == AcceptAll && multiset(h.arr) == multiset(init)
    ensures IsHeap(h.arr, 0, cmp, AcceptAll) == Success(true)
    ensures top == least
  {
    AcceptAllFindsNothing(init);
    var r := Heap.Create(init, cmp, AcceptAll);
    h := r.value;
    DistinctSlotsCountOnce(init);
    assert forall x :: multiset(h.arr)[x] <= 1;
    NoRepeatedSlots(h.arr);
    forall i, j | 0 <= i < |h.arr| && 0 <= j < |h.arr| && i != j
      ensures cmp(h.arr[i], h.arr[j]) != 0
    {
      assert h.arr[i] != h.arr[j];
    }
    h.PassesIsHeap();
    var p := h.Peek();
    assert least in multiset(h.arr);
    assert p.value in multiset(init);
    BelowFacts(cmp);
    top := p.value;
  }

  /** The inputs of the creation tests: no value occurs twice, and the value each test
      expects from peek is in the array with nothing below it. */
  lemma MinCreationInput()
    ensures var s := [0, 1, 2, 3, 4, 5, -1, -7];
            forall i, j :: 0 <= i < j < |s| ==> s[i] != s[j]
    ensures var s := [0, 1, 2, 3, 4, 5, -1, -7];
            -7 in s && forall x :: x in s ==> !Below(MinComparator, x, -7)
  {
  }

  lemma MinCreationInputTwo()
    ensures var s := [9, 8, 7, 6, 5, 4];
            forall i, j :: 0 <= i < j < |s| ==> s[i] != s[j]
    ensures var s := [9, 8, 7, 6, 5, 4];
            4 in s && forall x :: x in s ==> !Below(MinComparator, x, 4)
  {
  }

  lemma MaxCreationInput()
    ensures var s := [0, 1, 2, 3, 4, 5, -1, -7];
            forall i, j :: 0 <= i < j < |s| ==> s[i] != s[j]
    ensures var s := [0, 1, 2, 3, 4, 5, -1, -7];
            5 in s && forall x :: x in s ==> !Below(MaxComparator, x, 5)
  {
  }

  lemma MaxCreationInputTwo()
    ensures var s := [8, 4, 7, 5, 1, 10, 6];
            forall i, j :: 0 <= i < j < |s| ==> s[i] != s[j]
    ensures var s := [8, 4, 7, 5, 1, 10, 6];
            10 in s && forall x :: x in s ==> !Below(MaxComparator, x, 10)
  {
  }

  /** heap.test.js:44-48. */
  method MinCreationScenario() returns (h: Heap<int>, top: int)
    ensures h.Valid() && h.cmp == MinComparator
    ensures IsHeap(h.arr, 0, MinComparator, AcceptAll) == Success(true)
    ensures top == -7
  {
    MinComparatorIsComparator();
    MinCreationInput();
    h, top := CreateAndPeek([0, 1, 2, 3, 4, 5, -1, -7], MinComparator, -7);
  }

  /** heap.test.js:50-54. */
  method MinCreationScenarioTwo() returns (h: Heap<int>, top: int)
    ensures h.Valid() && h.cmp == MinComparator
    ensures IsHeap(h.arr, 0, MinComparator, AcceptAll) == Success(true)
    ensures top == 4
  {
    MinComparatorIsComparator();
    MinCreationInputTwo();
    h, top := CreateAndPeek([9, 8, 7, 6, 5, 4], MinComparator, 4);
  }

  /** heap.test.js:56-60. */
  method MaxCreationScenario() returns (h: Heap<int>, top: int)
    ensures h.Valid() && h.cmp == MaxComparator
    ensures IsHeap(h.arr, 0, MaxComparator, AcceptAll) == Success(true)
    ensures top == 5
  {
    MaxComparatorIsComparator();
    MaxCreationInput();
    h, top := CreateAndPeek([0, 1, 2, 3, 4, 5, -1, -7], MaxComparator, 5);
  }

  /** heap.test.js:62-66. */
  method MaxCreationScenarioTwo() returns (h: Heap<int>, top: int)
    ensures h.Valid() && h.cmp == MaxComparator
    ensures IsHeap(h.arr, 0, MaxComparator, AcceptAll) == Success(true)
    ensures top == 10
  {
    MaxComparatorIsComparator();
    MaxCreationInputTwo();
    h, top := CreateAndPeek([8, 4, 7, 5, 1, 10, 6], MaxComparator, 10);
  }

  /** Two extractions in a row come out in comparator order: the second never compares
      below the first, and an empty heap stays empty. */
  method ExtractTwice<T(!new)>(h: Heap<T>) returns (first: Option<T>, second: Option<T>)
    requires h.Valid()
    modifies h
    ensures h.Valid()
    ensures first.None? ==> second.None?
    ensures first.Some? && second.Some? ==> !Below(h.cmp, second.value, first.value)
  {
    first := h.Extract();
    ghost var rest := h.arr;
    second := h.Extract();
    if second.Some? {
      assert second.value == rest[0] && rest[0] in multiset(rest);
    }
  }

  /** Under `a - b`, extraction from a heap whose contents are listed, ascending, by `s`
      returns `s[0]` and leaves the rest of `s`. */
  method ExtractLeast(h: Heap<int>, ghost s: seq<int>) returns (top: int)
    requires h.Valid() && h.cmp == MinComparator && |s| > 0 && Ascending(s)
    requires multiset(h.arr) == multiset(s)
    modifies h
    ensures h.Valid()
    ensures top == s[0] && multiset(h.arr) == multiset(s[1..]) && Ascending(s[1..])
  {
    var r := h.Extract();
    LeastOfSorted(s, r.value);
    top := r.value;
  }

  /** Under `a - b`, peek on a heap whose contents are listed, ascending, by `s` returns
      `s[0]`. */
  method PeekLeast(h: Heap<int>, ghost s: seq<int>) returns (top: int)
    requires h.Valid() && h.cmp == MinComparator && |s| > 0 && Ascending(s)
    requires multiset(h.arr) == multiset(s)
    ensures top == s[0]
  {
    var r := h.Peek();
    assert r.value in multiset(s);
    assert r.value == h.arr[0];
    LeastOfSorted(s, r.value);
    top := r.value;
  }

  /** The contents of the first extract-and-insert scenario, in ascending order, and
      after its insertion. */
  lemma FirstBuiltContents()
    ensures multiset([0, 1, 2, 3, 4, 5, -1, -7]) == multiset([-7, -1, 0, 1, 2, 3, 4, 5])
  {
    var middle := [0, 1, 2, 3, 4, 5];
    assert [0, 1, 2, 3, 4, 5, -1, -7] == (middle + [-1]) + [-7];
    assert [-7, -1, 0, 1, 2, 3, 4, 5] == [-7] + ([-1] + middle);
    ConcatCommutes(middle, [-1]);
    ConcatCommutes(middle + [-1], [-7]);
  }

  lemma FirstBuiltContentsAscending()
    ensures Ascending([-7, -1, 0, 1, 2, 3, 4, 5])
  {
  }

  lemma FirstScenarioInsertContents()
    ensures multiset([0, 1, 2, 3, 4, 5]) + multiset{-5} == multiset([-5, 0, 1, 2, 3, 4, 5])
  {
  }

  lemma FirstScenarioInsertAscending()
    ensures Ascending([-5, 0, 1, 2, 3, 4, 5])
  {
  }

  /** heap.test.js:104-114: building from `[0, 1, 2, 3, 4, 5, -1, -7]` with the default
      comparator, extraction gives -7, peek -1, extraction -1, peek 0, and after
      inserting -5 peek gives -5. */
  method ExtractInsertScenario() returns (seen: seq<int>)
    ensures seen == [-7, -1, -1, 0, -5]
  {
    MinComparatorIsComparator();
    AcceptAllFindsNothing([0, 1, 2, 3, 4, 5, -1, -7]);
    var r := Heap.Create([0, 1, 2, 3, 4, 5, -1, -7], MinComparator, AcceptAll);
    var h := r.value;
    FirstBuiltContents();
    FirstBuiltContentsAscending();
    FirstScenarioInsertContents();
    FirstScenarioInsertAscending();
    ghost var sorted := [-7, -1, 0, 1, 2, 3, 4, 5];
    var x := ExtractLeast(h, sorted);
    var p := PeekLeast(h, sorted[1..]);
    var y := ExtractLeast(h, sorted[1..]);
    var q := PeekLeast(h, sorted[2..]);
    assert sorted[2..] == [0, 1, 2, 3, 4, 5];
    var ok := h.Insert(-5);
    var w := PeekLeast(h, [-5, 0, 1, 2, 3, 4, 5]);
    seen := [x, p, y, q, w];
  }

  /** heap.test.js:117-124: building from `[8, 7, 6, 3, 10, 2, 11]` with the default
      comparator, three extractions give 2, 3 and 6 and then peek gives 7. */
  method ExtractScenario() returns (h: Heap<int>, seen: seq<int>)
    ensures h.Valid() && h.cmp == MinComparator && h.keyOk == AcceptAll
    ensures multiset(h.arr) == multiset([7, 8, 10, 11])
    ensures seen == [2, 3, 6, 7]
  {
    MinComparatorIsComparator();
    AcceptAllFindsNothing([8, 7, 6, 3, 10, 2, 11]);
    var r := Heap.Create([8, 7, 6, 3, 10, 2, 11], MinComparator, AcceptAll);
    h := r.value;
    BuiltContents();
    BuiltContentsAscending();
    ghost var sorted := [2, 3, 6, 7, 8, 10, 11];
    var x := ExtractLeast(h, sorted);
    var y := ExtractLeast(h, sorted[1..]);
    var z := ExtractLeast(h, sorted[2..]);
    var p := PeekLeast(h, sorted[3..]);
    seen := [x, y, z, p];
  }

  /** heap.test.js:126-133, continuing from that heap: after inserting -5 peek gives -5,
      after inserting 0 still -5; extraction then gives -5 and peek 0. */
  method InsertScenario(h: Heap<int>) returns (seen: seq<int>)
    requires h.Valid() && h.cmp == MinComparator && h.keyOk == AcceptAll
    requires multiset(h.arr) == multiset([7, 8, 10, 11])
    modifies h
    ensures seen == [-5, -5, -5, 0]
  {
    FirstInsertContents();
    SecondInsertContents();
    InsertContentsAscending();
    var ok := h.Insert(-5);
    var p := PeekLeast(h, [-5, 7, 8, 10, 11]);
    ok := h.Insert(0);
    var q := PeekLeast(h, [-5, 0, 7, 8, 10, 11]);
    var w := ExtractLeast(h, [-5, 0, 7, 8, 10, 11]);
    var p2 := PeekLeast(h, [0, 7, 8, 10, 11]);
    seen := [p, q, w, p2];
  }
}
