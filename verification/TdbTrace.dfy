// The lock calls a TDB operation issues, in order.

module TdbTrace {
  /** One call of tdb_lock or tdb_unlock. List -1 is the allocation list, list b the chain of bucket b. */
  datatype Act = Acquire(list: int) | Release(list: int)

  const ALLOC := -1

  type Trace = seq<Act>

  /** The calls of an operation that takes one lock once. */
  function Section(list: int): Trace {
    [Acquire(list), Release(list)]
  }

  /** The buckets `lo` to `hi` one after the other, as a walk over the chains locks them. */
  function Sections(lo: int, hi: int): Trace
    decreases hi - lo
  {
    if lo >= hi then [] else Sections(lo, hi - 1) + Section(hi - 1)
  }

  function AllocateTrace(expanded: bool): Trace {
    [Acquire(ALLOC)] + (if expanded then Section(ALLOC) else []) + [Release(ALLOC)]
  }

  function DeleteTrace(bucket: int, found: bool): Trace {
    Section(bucket) + (if found then Section(ALLOC) else [])
  }

  /** The part of a store that makes a new record: the allocation, then under the chain lock the insertion. */
  function NewTrace(bucket: int, expanded: bool, insert: bool, found: bool): Trace {
    AllocateTrace(expanded) + [Acquire(bucket)] +
    (if insert then [] else DeleteTrace(bucket, found)) + [Release(bucket)]
  }

  /** The existence check or in-place update of a store, then the new record if it comes to that. */
  function StoreTrace(bucket: int, done: bool, expanded: bool, insert: bool, found: bool): Trace {
    if done then Section(bucket) else Section(bucket) + NewTrace(bucket, expanded, insert, found)
  }

  /** The calls, one by one. */
  lemma CallsOf(b: int)
    ensures DeleteTrace(b, false) == [Acquire(b), Release(b)]
    ensures DeleteTrace(b, true) == [Acquire(b), Release(b), Acquire(-1), Release(-1)]
    ensures AllocateTrace(false) == [Acquire(-1), Release(-1)]
    ensures AllocateTrace(true) == [Acquire(-1), Acquire(-1), Release(-1), Release(-1)]
  {
  }

  /** Those of a store: the lookup; and, if that was not all, the allocation and the second section. */
  lemma CallsOfStore(b: int, expanded: bool, insert: bool, found: bool)
    ensures StoreTrace(b, true, expanded, insert, found) == [Acquire(b), Release(b)]
    ensures StoreTrace(b, false, expanded, insert, found) ==
            [Acquire(b), Release(b)]
            + (if expanded then [Acquire(-1), Acquire(-1), Release(-1), Release(-1)] else [Acquire(-1), Release(-1)])
            + (if insert then [Acquire(b), Release(b)]
               else if found then [Acquire(b), Acquire(b), Release(b), Acquire(-1), Release(-1), Release(b)]
               else [Acquire(b), Acquire(b), Release(b), Release(b)])
  {
  }

  lemma {:induction false} CallsOfWalk(lo: int, hi: int, i: nat)
    requires lo + i < hi
    ensures |Sections(lo, hi)| == 2 * (hi - lo)
    ensures Sections(lo, hi)[2 * i..2 * i + 2] == [Acquire(lo + i), Release(lo + i)]
    decreases hi - lo
  {
    if lo + i == hi - 1 {
      SectionsLength(lo, hi - 1);
    } else {
      CallsOfWalk(lo, hi - 1, i);
      var before := Sections(lo, hi - 1);
      assert (before + Section(hi - 1))[2 * i..2 * i + 2] == before[2 * i..2 * i + 2];
    }
  }

  lemma {:induction false} SectionsLength(lo: int, hi: int)
    requires lo <= hi
    ensures |Sections(lo, hi)| == 2 * (hi - lo)
    decreases hi - lo
  {
    if lo == hi {
    } else {
      SectionsLength(lo, hi - 1);
    }
  }

  lemma TraceAssoc(a: Trace, b: Trace, c: Trace)
    ensures (a + b) + c == a + (b + c)
  {
  }

  lemma DeleteTraceFrom(before: Trace, bucket: int, found: bool, after: Trace)
    requires after == before + [Acquire(bucket)] + [Release(bucket)] +
                      (if found then [Acquire(ALLOC)] + [Release(ALLOC)] else [])
    ensures after == before + DeleteTrace(bucket, found)
  {
  }

  lemma NewTraceFrom(before: Trace, bucket: int, expanded: bool, insert: bool, found: bool, after: Trace)
    requires if insert then after == before + AllocateTrace(expanded) + [Acquire(bucket)] + [Release(bucket)]
             else after == before + AllocateTrace(expanded) + [Acquire(bucket)] +
                           DeleteTrace(bucket, found) + [Release(bucket)]
    ensures after == before + NewTrace(bucket, expanded, insert, found)
  {
    hide AllocateTrace, DeleteTrace;
    var a, d := AllocateTrace(expanded), DeleteTrace(bucket, found);
    assert before + a + [Acquire(bucket)] + [Release(bucket)] ==
           before + (a + [Acquire(bucket)] + [] + [Release(bucket)]);
    assert before + a + [Acquire(bucket)] + d + [Release(bucket)] ==
           before + (a + [Acquire(bucket)] + d + [Release(bucket)]);
  }
}
