/** The numeric comparator presets and the default key validator (heap.js:19-32), on
    integer keys. */
module HeapPresets {
  import opened HeapOrder

  /** `MIN_COMPARATOR = (a, b) => a - b`: smaller numbers go nearer the root. */
  function MinComparator(a: int, b: int): (r: int)
    ensures r < 0 <==> a < b
    ensures r == 0 <==> a == b
  {
    a - b
  }

  /** `MAX_COMPARATOR = (a, b) => b - a`: larger numbers go nearer the root. */
  function MaxComparator(a: int, b: int): (r: int)
    ensures r < 0 <==> a > b
    ensures r == 0 <==> a == b
  {
    b - a
  }

  /** `DEFAULT_KEY_VALIDATOR = key => true`. */
  predicate AcceptAll<T>(key: T): (ok: bool)
    ensures ok
  {
    true
  }

  lemma MinComparatorIsComparator()
    ensures IsComparator(MinComparator)
  {
  }

  lemma MaxComparatorIsComparator()
    ensures IsComparator(MaxComparator)
  {
  }
}
