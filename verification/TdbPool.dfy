// First fit: which length the allocator of a TDB database hands out, from the lengths of the free blocks
// in the order in which they are tried.

module TdbPool {
  import opened TdbImage

  /** The size of the image, and the lengths of the free blocks. */
  datatype Pool = Pool(size: nat, frees: seq<nat>)

  function FirstFit(frees: seq<nat>, length: nat): (i: nat)
    ensures i <= |frees| && (i < |frees| ==> frees[i] >= length)
    ensures forall j :: 0 <= j < i ==> frees[j] < length
  {
    if frees == [] || frees[0] >= length then 0 else 1 + FirstFit(frees[1..], length)
  }

  /** The length to which a block is cut. */
  function CutLength(length: nat): nat {
    (length + 4) / 4 * 4
  }

  /** The `i`-th block, or the front of it when it is much longer than needed. */
  function Take(p: Pool, i: nat, length: nat): (nat, Pool)
    requires i < |p.frees|
  {
    var f, cut := p.frees[i], CutLength(length);
    if f > length + MIN_REC_SIZE then (cut, p.(frees := p.frees[..i] + [f - (REC_SIZE + cut)] + p.frees[i + 1..]))
    else (f, p.(frees := p.frees[..i] + p.frees[i + 1..]))
  }

  /** A block is cut first and its front taken off the list then, or it is taken off whole. */
  lemma TakeParts(p: Pool, i: nat, length: nat)
    requires i < |p.frees|
    ensures var f, cut := p.frees[i], CutLength(length);
            if f > length + MIN_REC_SIZE
            then var l := p.frees[..i] + [cut, f - (REC_SIZE + cut)] + p.frees[i + 1..];
                 Take(p, i, length) == (cut, Pool(p.size, l[..i] + l[i + 1..]))
            else Take(p, i, length) == (f, Pool(p.size, p.frees[..i] + p.frees[i + 1..]))
  {
    var f, cut := p.frees[i], CutLength(length);
    if f > length + MIN_REC_SIZE {
      var l: seq<nat> := p.frees[..i] + [cut, f - (REC_SIZE + cut)] + p.frees[i + 1..];
      assert l[..i] + l[i + 1..] == p.frees[..i] + [f - (REC_SIZE + cut)] + p.frees[i + 1..];
    }
  }

  /** The size of the image after an expansion by `length` bytes or more. */
  function PageUp(size: nat, length: nat): (size': nat)
    ensures size + length < size' <= size + length + TDB_PAGE_SIZE
  {
    (size + length + TDB_PAGE_SIZE) / TDB_PAGE_SIZE * TDB_PAGE_SIZE
  }

  function Expand(p: Pool, length: nat): (p': Pool)
    requires length >= REC_SIZE
    ensures |p'.frees| == |p.frees| + 1 && p'.frees[0] + REC_SIZE > length * TDB_LEN_MULTIPLIER
  {
    var size' := PageUp(p.size, length * TDB_LEN_MULTIPLIER);
    Pool(size', [size' - p.size - REC_SIZE] + p.frees)
  }

  function Allocate(p: Pool, length: nat): (nat, Pool) {
    var i := FirstFit(p.frees, length);
    if i < |p.frees| then Take(p, i, length) else Take(Expand(p, length + REC_SIZE), 0, length)
  }

  predicate NoneFits(frees: seq<nat>, length: nat) {
    forall i :: 0 <= i < |frees| ==> frees[i] < length
  }

  lemma FirstFitAt(frees: seq<nat>, length: nat, i: nat)
    requires i <= |frees| && forall j :: 0 <= j < i ==> frees[j] < length
    requires i < |frees| ==> frees[i] >= length
    ensures FirstFit(frees, length) == i
  {
  }

  /** When a block was found at once, and when it was found after an expansion. */
  lemma AllocateFound(p: Pool, length: nat, i: nat)
    requires i < |p.frees| && p.frees[i] >= length && forall j :: 0 <= j < i ==> p.frees[j] < length
    ensures Allocate(p, length) == Take(p, i, length)
  {
    FirstFitAt(p.frees, length, i);
  }

  lemma AllocateExpanded(p: Pool, length: nat, i: nat, e: Pool)
    requires NoneFits(p.frees, length)
    requires e == Expand(p, length + REC_SIZE) && i <= |p.frees| && forall j :: 0 <= j < i ==> e.frees[j] < length
    ensures i == 0 && Allocate(p, length) == Take(e, i, length)
  {
    assert e.frees[0] >= length;
    FirstFitAt(p.frees, length, |p.frees|);
  }

  // ----- what that means

  /** The first block that is long enough is handed out whole when it is at most 52 bytes too long. */
  lemma WholeBlock(p: Pool, length: nat, i: nat)
    requires i < |p.frees| && length <= p.frees[i] <= length + 52 && forall j :: 0 <= j < i ==> p.frees[j] < length
    ensures Allocate(p, length) == (p.frees[i], Pool(p.size, p.frees[..i] + p.frees[i + 1..]))
  {
    assert FirstFit(p.frees, length) == i;
  }

  /**
   * From a longer one the least multiple of 4 above `length` is cut, and the rest of it, less 24 bytes
   * for its header, takes its place.
   */
  lemma CutBlock(p: Pool, length: nat, i: nat)
    requires i < |p.frees| && p.frees[i] > length + 52 && forall j :: 0 <= j < i ==> p.frees[j] < length
    ensures var (room, p') := Allocate(p, length);
            && length < room <= length + 4 && room % 4 == 0
            && p' == Pool(p.size, p.frees[..i] + [p.frees[i] - 24 - room] + p.frees[i + 1..])
  {
    assert FirstFit(p.frees, length) == i;
  }

  /**
   * When no block is long enough the image grows by ten times what is needed and its header, and up to
   * the next multiple of 8192, and the same is cut from the new block, whose rest is the first to be tried.
   */
  lemma NewBlock(p: Pool, length: nat)
    requires forall j :: 0 <= j < |p.frees| ==> p.frees[j] < length
    ensures var (room, p') := Allocate(p, length);
            && length < room <= length + 4 && room % 4 == 0
            && p'.size % 8192 == 0 && p.size + 10 * (length + 24) < p'.size <= p.size + 10 * (length + 24) + 8192
            && p'.frees == [p'.size - p.size - 24 - 24 - room] + p.frees
  {
    assert FirstFit(p.frees, length) == |p.frees|;
    Multiple(p.size + (length + REC_SIZE) * TDB_LEN_MULTIPLIER + TDB_PAGE_SIZE);
    var e := Expand(p, length + REC_SIZE);
    assert e.frees[..0] + [e.frees[0] - (REC_SIZE + CutLength(length))] + e.frees[1..] ==
           [e.frees[0] - (REC_SIZE + CutLength(length))] + p.frees;
  }

  lemma Multiple(n: nat)
    ensures n / TDB_PAGE_SIZE * TDB_PAGE_SIZE % 8192 == 0
  {
  }

  /** The length of the block, told from the first one that is long enough. */
  lemma RoomExactly(p: Pool, length: nat)
    ensures var i, room := FirstFit(p.frees, length), Allocate(p, length).0;
            if i < |p.frees| && p.frees[i] <= length + 52 then room == p.frees[i]
            else length < room <= length + 4 && room % 4 == 0
  {
    var i := FirstFit(p.frees, length);
    if i == |p.frees| {
      NewBlock(p, length);
    } else if p.frees[i] <= length + 52 {
      WholeBlock(p, length, i);
    } else {
      CutBlock(p, length, i);
    }
  }

  /** So no block is handed out that is not long enough, or more than 52 bytes too long. */
  lemma RoomBounds(p: Pool, length: nat)
    ensures length <= Allocate(p, length).0 <= length + 52
    ensures p.size <= Allocate(p, length).1.size <= p.size + (length + REC_SIZE) * TDB_LEN_MULTIPLIER + TDB_PAGE_SIZE
  {
    var i := FirstFit(p.frees, length);
    if i == |p.frees| {
      NewBlock(p, length);
    } else if p.frees[i] <= length + 52 {
      WholeBlock(p, length, i);
    } else {
      CutBlock(p, length, i);
    }
  }

  /** Every byte of a free block stays in one, or goes to the block handed out, or to a header. */
  function Total(frees: seq<nat>): nat {
    if frees == [] then 0 else frees[0] + REC_SIZE + Total(frees[1..])
  }

  lemma {:induction false} TotalConcat(a: seq<nat>, b: seq<nat>)
    ensures Total(a + b) == Total(a) + Total(b)
  {
    if a == [] {
      assert a + b == b;
    } else {
      assert (a + b)[1..] == a[1..] + b;
      TotalConcat(a[1..], b);
    }
  }

  lemma {:induction false} TotalAt(a: seq<nat>, f: seq<nat>, b: seq<nat>)
    ensures Total(a + f + b) == Total(a) + Total(f) + Total(b)
  {
    TotalConcat(a + f, b);
    TotalConcat(a, f);
  }

  /** The block handed out, and what is free, are what was free, and what the image grew by. */
  lemma Conserves(p: Pool, length: nat)
    ensures var (room, p') := Allocate(p, length);
            Total(p'.frees) + 24 + room == Total(p.frees) + p'.size - p.size
  {
    var i := FirstFit(p.frees, length);
    if i == |p.frees| {
      NewBlock(p, length);
      TotalConcat([Allocate(p, length).1.frees[0]], p.frees);
    } else {
      var a, f, b := p.frees[..i], p.frees[i], p.frees[i + 1..];
      assert p.frees == a + [f] + b;
      TotalAt(a, [f], b);
      if f <= length + 52 {
        WholeBlock(p, length, i);
        TotalConcat(a, b);
      } else {
        CutBlock(p, length, i);
        TotalAt(a, [f - 24 - Allocate(p, length).0], b);
      }
    }
  }
}
