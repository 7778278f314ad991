// The lists threaded through the blocks of a TDB image, what they mean as a
// finite map, and the step each write takes from one such heap to the next.

module TdbHeap {
  import opened Bytes
  import opened TdbImage

  const LOOSE := -1   // the owner of a block that is on no list

  /**
   * How the blocks hang together: the blocks of each list in order, the list that owns each block,
   * and the block that stores each key. List 0 is the free list, list b + 1 the chain of bucket b.
   */
  datatype Shape = Shape(lists: seq<seq<nat>>, owner: map<nat, int>, where: map<Bytes, nat>) {
    function Push(j: nat, p: nat): Shape
      requires j < |lists|
    {
      this.(lists := lists[j := [p] + lists[j]], owner := owner[p := j])
    }

    function Drop(j: nat, i: nat): Shape
      requires j < |lists| && i < |lists[j]|
    {
      this.(lists := lists[j := lists[j][..i] + lists[j][i + 1..]], owner := owner[lists[j][i] := LOOSE])
    }

    function InsertAfter(j: nat, i: nat, q: nat): Shape
      requires j < |lists| && i < |lists[j]|
    {
      this.(lists := lists[j := lists[j][..i + 1] + [q] + lists[j][i + 1..]], owner := owner[q := j])
    }
  }

  // ----- tiling

  predicate Aligned(p: int) {
    p % 4 == 0
  }

  /** The blocks follow one another without a gap from `base` to `size`, all of them word aligned. */
  ghost predicate Tiled(base: nat, size: nat, lens: Layout) {
    && Aligned(size)
    && (base == size || base in lens)
    && (forall p :: p in lens ==> Aligned(p) && Aligned(lens[p]))
    && (forall p :: p in lens ==> p + REC_SIZE + lens[p] == size || p + REC_SIZE + lens[p] in lens)
  }

  lemma AlignedCut(p: nat, n: nat, m: nat)
    requires Aligned(p) && Aligned(n) && Aligned(n + REC_SIZE + m)
    ensures Aligned(p + REC_SIZE + n) && Aligned(m)
  {
  }

  /** Cutting block `p` into `n` and `m` bytes: what follows each block. */
  lemma TiledCutAt(size: nat, lens: Layout, p: nat, n: nat, m: nat, x: nat)
    requires p in lens && lens[p] == n + REC_SIZE + m
    requires x in lens ==> x + REC_SIZE + lens[x] == size || x + REC_SIZE + lens[x] in lens
    requires p + REC_SIZE + lens[p] == size || p + REC_SIZE + lens[p] in lens
    ensures var lens' := lens[p := n][p + REC_SIZE + n := m];
            x in lens' ==> x + REC_SIZE + lens'[x] == size || x + REC_SIZE + lens'[x] in lens'
  {
  }

  lemma TiledCut(base: nat, size: nat, lens: Layout, p: nat, n: nat, m: nat)
    requires Tiled(base, size, lens) && p in lens && lens[p] == n + REC_SIZE + m && Aligned(n)
    ensures Tiled(base, size, lens[p := n][p + REC_SIZE + n := m])
  {
    hide Aligned;
    AlignedCut(p, n, m);
    var lens' := lens[p := n][p + REC_SIZE + n := m];
    forall x | x in lens'
      ensures x + REC_SIZE + lens'[x] == size || x + REC_SIZE + lens'[x] in lens'
    {
      TiledCutAt(size, lens, p, n, m, x);
    }
  }

  lemma AlignedAppend(size: nat, n: nat)
    requires Aligned(size) && n % 4 == 0
    ensures Aligned(size + REC_SIZE + n) && Aligned(n)
  {
    var q, r := size / 4, n / 4;
    assert size + REC_SIZE + n == 4 * (q + 6 + r);
  }

  lemma TiledAppend(base: nat, size: nat, lens: Layout, n: nat)
    requires Tiled(base, size, lens) && size !in lens && n % 4 == 0
    ensures Tiled(base, size + REC_SIZE + n, lens[size := n])
  {
    hide Aligned;
    AlignedAppend(size, n);
    var size', lens' := size + REC_SIZE + n, lens[size := n];
    forall x | x in lens'
      ensures x + REC_SIZE + lens'[x] == size' || x + REC_SIZE + lens'[x] in lens'
    {
      assert x == size || x in lens;
    }
  }

  // ----- lists

  function Nth(l: seq<nat>, i: nat): nat {
    if i < |l| then l[i] else 0
  }

  /** Following `next` from `top` visits exactly `l` and stops at 0. */
  ghost predicate Chain(recs: map<nat, Rec>, top: nat, l: seq<nat>) {
    && top == Nth(l, 0)
    && forall i :: 0 <= i < |l| ==> l[i] in recs && l[i] != 0 && recs[l[i]].next == Nth(l, i + 1)
  }

  ghost predicate NoDup(l: seq<nat>) {
    forall i, j :: 0 <= i < j < |l| ==> l[i] != l[j]
  }

  /** A block is on the list that owns it, once, and on no other. */
  ghost predicate Owned(s: Shape) {
    && (forall j :: 0 <= j < |s.lists| ==> NoDup(s.lists[j]))
    && (forall j, i :: 0 <= j < |s.lists| && 0 <= i < |s.lists[j]| ==>
          s.lists[j][i] in s.owner && s.owner[s.lists[j][i]] == j)
    && (forall p :: p in s.owner ==> s.owner[p] == LOOSE || (0 <= s.owner[p] < |s.lists| && p in s.lists[s.owner[p]]))
  }

  ghost predicate Linked(h: Heap, s: Shape) {
    && |s.lists| == |h.heads|
    && forall j :: 0 <= j < |h.heads| ==> Chain(h.recs, h.heads[j], s.lists[j])
  }

  lemma ChainFrame(recs: map<nat, Rec>, top: nat, l: seq<nat>, p: nat, r: Rec)
    requires Chain(recs, top, l) && p !in l
    ensures Chain(recs[p := r], top, l)
  {
  }

  lemma OwnedPush(s: Shape, j: nat, p: nat)
    requires Owned(s) && j < |s.lists| && p in s.owner && s.owner[p] == LOOSE
    ensures Owned(s.Push(j, p)) && p !in s.lists[j]
  {
    var s' := s.Push(j, p);
    forall x | x in s'.owner
      ensures s'.owner[x] == LOOSE || (0 <= s'.owner[x] < |s'.lists| && x in s'.lists[s'.owner[x]])
    {
      if x == p {
        assert s'.lists[j][0] == p;
      }
    }
  }

  lemma OwnedDrop(s: Shape, j: nat, i: nat)
    requires Owned(s) && j < |s.lists| && i < |s.lists[j]|
    ensures Owned(s.Drop(j, i)) && s.lists[j][i] !in s.Drop(j, i).lists[j]
  {
    var s' := s.Drop(j, i);
    var l, p := s.lists[j], s.lists[j][i];
    forall x | x in s'.owner
      ensures s'.owner[x] == LOOSE || (0 <= s'.owner[x] < |s'.lists| && x in s'.lists[s'.owner[x]])
    {
      if x != p && s.owner[x] == j {
        var k :| 0 <= k < |l| && l[k] == x;
        assert s'.lists[j][if k < i then k else k - 1] == x;
      }
    }
  }

  lemma OwnedInsert(s: Shape, j: nat, i: nat, q: nat)
    requires Owned(s) && j < |s.lists| && i < |s.lists[j]| && q !in s.owner
    ensures Owned(s.InsertAfter(j, i, q)) && q !in s.lists[j]
  {
    var s' := s.InsertAfter(j, i, q);
    var l := s.lists[j];
    forall x | x in s'.owner
      ensures s'.owner[x] == LOOSE || (0 <= s'.owner[x] < |s'.lists| && x in s'.lists[s'.owner[x]])
    {
      if x == q {
        assert s'.lists[j][i + 1] == q;
      } else if s.owner[x] == j {
        var k :| 0 <= k < |l| && l[k] == x;
        assert s'.lists[j][if k <= i then k else k + 1] == x;
      }
    }
  }

  // ----- records

  function KeyOf(r: Rec, b: Bytes): Bytes {
    if r.keyLen <= |b| then b[..r.keyLen] else []
  }

  function DataOf(r: Rec, b: Bytes): Bytes {
    if r.keyLen + r.dataLen <= |b| then b[r.keyLen..r.keyLen + r.dataLen] else []
  }

  /** What a key is bound to: its data, and the room there is for key and data where they are. */
  datatype Entry = Entry(data: Bytes, room: nat)

  function EntryOf(r: Rec, b: Bytes): Entry {
    Entry(DataOf(r, b), r.recLen)
  }

  /** A block that stores a key and its data, in a database of `n` buckets. */
  ghost predicate Live(r: Rec, b: Bytes, list: int, n: nat, hash: Bytes -> Word) {
    && n > 0
    && r.magic == TDB_MAGIC
    && r.keyLen + r.dataLen <= |b|
    && r.fullHash == hash(KeyOf(r, b))
    && list == 1 + r.fullHash % n
  }

  ghost predicate Indexed(h: Heap, s: Shape) {
    s.owner.Keys == h.recs.Keys == h.body.Keys && |h.heads| >= 2
  }

  ghost predicate LiveIn(h: Heap, s: Shape, p: nat, hash: Bytes -> Word)
    requires Indexed(h, s) && p in s.owner
  {
    && Live(h.recs[p], h.body[p], s.owner[p], |h.heads| - 1, hash)
    && KeyOf(h.recs[p], h.body[p]) in s.where
    && s.where[KeyOf(h.recs[p], h.body[p])] == p
  }

  /** Key `k` is found in the block that `where` names. */
  ghost predicate FoundAt(h: Heap, s: Shape, k: Bytes)
    requires Indexed(h, s) && k in s.where
  {
    && s.where[k] in s.owner && s.owner[s.where[k]] > 0
    && KeyOf(h.recs[s.where[k]], h.body[s.where[k]]) == k
  }

  /** Chained blocks store each key once, under its own hash; free blocks carry the free magic. */
  ghost predicate Stored(h: Heap, s: Shape, hash: Bytes -> Word)
    requires Indexed(h, s)
  {
    && (forall p :: p in s.owner && s.owner[p] > 0 ==> LiveIn(h, s, p, hash))
    && (forall p :: p in s.owner && s.owner[p] == 0 ==> h.recs[p].magic == TDB_FREE_MAGIC)
    && (forall k :: k in s.where ==> FoundAt(h, s, k))
  }

  /** The invariant of a database, at every point between two writes. */
  ghost predicate WellFormed(h: Heap, s: Shape, hash: Bytes -> Word) {
    && Indexed(h, s)
    && Shaped(h)
    && Tiled(h.Base(), h.size, h.Lens())
    && Owned(s)
    && Linked(h, s)
    && Stored(h, s, hash)
  }

  /** The finite map from key bytes to data bytes, with their room, that a database is. */
  ghost function Contents(h: Heap, s: Shape): (m: map<Bytes, Entry>) {
    map k | k in s.where && s.where[k] in h.recs && s.where[k] in h.body ::
      EntryOf(h.recs[s.where[k]], h.body[s.where[k]])
  }

  // ----- the steps

  /** The blocks that live under `s'` are those that live under `s`, and their records are the same up to `next`. */
  ghost predicate SameLive(h: Heap, s: Shape, h': Heap, s': Shape)
    requires Indexed(h, s) && Indexed(h', s')
  {
    && s'.where == s.where && |h'.heads| == |h.heads|
    && (forall p :: p in s'.owner && s'.owner[p] > 0 ==> p in s.owner && s.owner[p] == s'.owner[p])
    && (forall p :: p in s.owner && s.owner[p] > 0 ==>
          && p in s'.owner && s'.owner[p] == s.owner[p]
          && h'.recs[p] == h.recs[p].(next := h'.recs[p].next) && h'.body[p] == h.body[p])
  }

  lemma SameLiveAt(h: Heap, s: Shape, h': Heap, s': Shape, hash: Bytes -> Word, p: nat)
    requires Indexed(h, s) && Indexed(h', s') && SameLive(h, s, h', s')
    requires p in s'.owner && s'.owner[p] > 0 && p in s.owner && LiveIn(h, s, p, hash)
    ensures LiveIn(h', s', p, hash)
  {
    assert h'.recs[p] == h.recs[p].(next := h'.recs[p].next);
  }

  lemma SameFoundAt(h: Heap, s: Shape, h': Heap, s': Shape, k: Bytes)
    requires Indexed(h, s) && Indexed(h', s') && SameLive(h, s, h', s')
    requires k in s.where && FoundAt(h, s, k)
    ensures FoundAt(h', s', k)
    ensures EntryOf(h'.recs[s.where[k]], h'.body[s.where[k]]) == EntryOf(h.recs[s.where[k]], h.body[s.where[k]])
  {
    var p := s.where[k];
    assert h'.recs[p] == h.recs[p].(next := h'.recs[p].next);
  }

  lemma SameStored(h: Heap, s: Shape, h': Heap, s': Shape, hash: Bytes -> Word)
    requires Indexed(h, s) && Indexed(h', s')
    requires Stored(h, s, hash) && SameLive(h, s, h', s')
    requires forall p :: p in s'.owner && s'.owner[p] == 0 ==> h'.recs[p].magic == TDB_FREE_MAGIC
    ensures Stored(h', s', hash)
  {
    hide LiveIn, FoundAt;
    forall p | p in s'.owner && s'.owner[p] > 0
      ensures LiveIn(h', s', p, hash)
    {
      SameLiveAt(h, s, h', s', hash, p);
    }
    forall k | k in s'.where
      ensures FoundAt(h', s', k)
    {
      SameFoundAt(h, s, h', s', k);
    }
  }

  lemma SameContents(h: Heap, s: Shape, h': Heap, s': Shape, hash: Bytes -> Word)
    requires Indexed(h, s) && Indexed(h', s')
    requires Stored(h, s, hash) && SameLive(h, s, h', s')
    ensures Contents(h', s') == Contents(h, s)
  {
    hide KeyOf, EntryOf, LiveIn;
    forall k | k in s.where
      ensures k in Contents(h, s) && k in Contents(h', s') && Contents(h', s')[k] == Contents(h, s)[k]
    {
      assert FoundAt(h, s, k);
      SameFoundAt(h, s, h', s', k);
    }
  }

  lemma LooseLinked(h: Heap, s: Shape, p: nat, r: Rec, b: Bytes)
    requires Owned(s) && Linked(h, s) && p in s.owner && s.owner[p] == LOOSE
    ensures Linked(h.SetRec(p, r).SetBody(p, b), s)
  {
    forall j | 0 <= j < |h.heads|
      ensures Chain(h.recs[p := r], h.heads[j], s.lists[j])
    {
      ChainFrame(h.recs, h.heads[j], s.lists[j], p, r);
    }
  }

  /** Rewriting a block with a header of the same length keeps the layout. */
  lemma SameLayout(h: Heap, s: Shape, p: nat, r: Rec, b: Bytes)
    requires Indexed(h, s) && Shaped(h) && p in s.owner
    requires r.recLen == h.recs[p].recLen && |b| == |h.body[p]|
    ensures h.SetRec(p, r).SetBody(p, b).Lens() == h.Lens()
    ensures Shaped(h.SetRec(p, r).SetBody(p, b)) && Indexed(h.SetRec(p, r).SetBody(p, b), s)
  {
    assert h.SetRec(p, r).SetBody(p, b).Lens() == h.Lens();
  }

  /** Rewriting a block that is on no list changes nothing else. */
  lemma StepLoose(h: Heap, s: Shape, hash: Bytes -> Word, p: nat, r: Rec, b: Bytes)
    requires WellFormed(h, s, hash) && p in s.owner && s.owner[p] == LOOSE
    requires r.recLen == h.recs[p].recLen && |b| == |h.body[p]|
    ensures WellFormed(h.SetRec(p, r).SetBody(p, b), s, hash)
    ensures Contents(h.SetRec(p, r).SetBody(p, b), s) == Contents(h, s)
  {
    var h' := h.SetRec(p, r).SetBody(p, b);
    hide Owned, Linked, Chain, Tiled, Disjoint, Shaped, Stored, Contents, Heap.Lens;
    SameLayout(h, s, p, r, b);
    LooseLinked(h, s, p, r, b);
    LooseSame(h, s, hash, p, r, b);
    SameStored(h, s, h', s, hash);
    SameContents(h, s, h', s, hash);
  }

  lemma LooseSame(h: Heap, s: Shape, hash: Bytes -> Word, p: nat, r: Rec, b: Bytes)
    requires Indexed(h, s) && Stored(h, s, hash) && p in s.owner && s.owner[p] == LOOSE
    ensures Indexed(h.SetRec(p, r).SetBody(p, b), s)
    ensures SameLive(h, s, h.SetRec(p, r).SetBody(p, b), s)
    ensures forall x :: x in s.owner && s.owner[x] == 0 ==> h.SetRec(p, r).recs[x].magic == TDB_FREE_MAGIC
  {
  }

  // Putting a loose block at the head of a list.

  lemma PushLinked(h: Heap, s: Shape, j: nat, p: nat)
    requires Owned(s) && Linked(h, s) && j < |h.heads| && p in s.owner && s.owner[p] == LOOSE
    requires 0 < p < WORD_LIMIT && p in h.recs && h.recs[p].next == h.heads[j]
    ensures Linked(h.SetHead(j, p), s.Push(j, p))
  {
  }

  lemma PushSame(h: Heap, s: Shape, p: nat)
    requires Indexed(h, s) && p in s.owner && s.owner[p] == LOOSE && |s.lists| > 0 && p < WORD_LIMIT
    ensures Indexed(h.SetHead(0, p), s.Push(0, p))
    ensures SameLive(h, s, h.SetHead(0, p), s.Push(0, p))
  {
  }

  lemma HeadLayout(h: Heap, s: Shape, hash: Bytes -> Word, j: nat, v: Word)
    requires WellFormed(h, s, hash) && j < |h.heads|
    ensures h.SetHead(j, v).Lens() == h.Lens() && Shaped(h.SetHead(j, v))
    ensures h.Base() > 0 && |s.lists| == |h.heads|
    ensures forall p :: p in s.owner ==> 0 < p < WORD_LIMIT
  {
    Bounds(h);
    assert h.SetHead(j, v).Lens() == h.Lens();
  }

  lemma PushMagic(h: Heap, s: Shape, hash: Bytes -> Word, p: nat)
    requires Indexed(h, s) && Stored(h, s, hash) && p in s.owner && h.recs[p].magic == TDB_FREE_MAGIC && |s.lists| > 0
    ensures forall x :: x in s.Push(0, p).owner && s.Push(0, p).owner[x] == 0 ==>
              x in h.recs && h.recs[x].magic == TDB_FREE_MAGIC
  {
    hide LiveIn, FoundAt;
  }

  lemma StepLinkFree(h: Heap, s: Shape, hash: Bytes -> Word, p: nat)
    requires WellFormed(h, s, hash) && p in s.owner && s.owner[p] == LOOSE
    requires h.recs[p].next == h.heads[0] && h.recs[p].magic == TDB_FREE_MAGIC
    ensures p < WORD_LIMIT && |s.lists| > 0
    ensures WellFormed(h.SetHead(0, p), s.Push(0, p), hash)
    ensures Contents(h.SetHead(0, p), s.Push(0, p)) == Contents(h, s)
  {
    hide Owned, Linked, Tiled, Shaped, Stored, Contents, SameLive, Heap.Lens;
    HeadLayout(h, s, hash, 0, 0);
    HeadLayout(h, s, hash, 0, p);
    OwnedPush(s, 0, p);
    PushLinked(h, s, 0, p);
    PushSame(h, s, p);
    PushMagic(h, s, hash, p);
    SameStored(h, s, h.SetHead(0, p), s.Push(0, p), hash);
    SameContents(h, s, h.SetHead(0, p), s.Push(0, p), hash);
  }

  /** Block `x` and the key it stores are untouched when only block `p` and the key of `p` change. */
  lemma OtherLive(h: Heap, s: Shape, h': Heap, s': Shape, hash: Bytes -> Word, x: nat)
    requires Indexed(h, s) && Indexed(h', s') && |h'.heads| == |h.heads|
    requires x in s.owner && x in s'.owner && s'.owner[x] == s.owner[x] && LiveIn(h, s, x, hash)
    requires h'.recs[x] == h.recs[x].(next := h'.recs[x].next) && h'.body[x] == h.body[x]
    requires var k := KeyOf(h.recs[x], h.body[x]); k in s'.where && s'.where[k] == s.where[k]
    ensures LiveIn(h', s', x, hash)
  {
  }

  lemma OtherFound(h: Heap, s: Shape, h': Heap, s': Shape, k: Bytes)
    requires Indexed(h, s) && Indexed(h', s') && k in s.where && FoundAt(h, s, k)
    requires k in s'.where && s'.where[k] == s.where[k] && s.where[k] in s'.owner && s'.owner[s.where[k]] > 0
    requires var x := s.where[k];
             h'.recs[x] == h.recs[x].(next := h'.recs[x].next) && h'.body[x] == h.body[x]
    ensures FoundAt(h', s', k)
    ensures k in Contents(h, s) && k in Contents(h', s') && Contents(h', s')[k] == Contents(h, s)[k]
  {
  }

  lemma PushStored(h: Heap, s: Shape, hash: Bytes -> Word, j: nat, p: nat)
    requires Indexed(h, s) && Stored(h, s, hash) && p in s.owner && s.owner[p] == LOOSE && p < WORD_LIMIT
    requires 0 < j < |s.lists| && |s.lists| == |h.heads|
    requires Live(h.recs[p], h.body[p], j, |h.heads| - 1, hash) && KeyOf(h.recs[p], h.body[p]) !in s.where
    ensures var s' := s.Push(j, p).(where := s.where[KeyOf(h.recs[p], h.body[p]) := p]);
            Indexed(h.SetHead(j, p), s') && Stored(h.SetHead(j, p), s', hash)
  {
    hide Live, KeyOf, LiveIn, FoundAt;
    var h' := h.SetHead(j, p);
    var key := KeyOf(h.recs[p], h.body[p]);
    var s' := s.Push(j, p).(where := s.where[key := p]);
    forall x | x in s'.owner && s'.owner[x] > 0
      ensures LiveIn(h', s', x, hash)
    {
      PushLiveAt(h, s, hash, j, p, x);
    }
    forall k | k in s'.where
      ensures FoundAt(h', s', k)
    {
      PushFoundAt(h, s, j, p, k);
    }
  }

  lemma PushLiveAt(h: Heap, s: Shape, hash: Bytes -> Word, j: nat, p: nat, x: nat)
    requires Indexed(h, s) && p in s.owner && 0 < j < |s.lists| == |h.heads| && p < WORD_LIMIT && x in s.owner
    requires Live(h.recs[p], h.body[p], j, |h.heads| - 1, hash) && KeyOf(h.recs[p], h.body[p]) !in s.where
    requires x != p ==> LiveIn(h, s, x, hash)
    ensures var s' := s.Push(j, p).(where := s.where[KeyOf(h.recs[p], h.body[p]) := p]);
            LiveIn(h.SetHead(j, p), s', x, hash)
  {
    hide Live, KeyOf;
    var s' := s.Push(j, p).(where := s.where[KeyOf(h.recs[p], h.body[p]) := p]);
    if x != p {
      OtherLive(h, s, h.SetHead(j, p), s', hash, x);
    }
  }

  lemma PushFoundAt(h: Heap, s: Shape, j: nat, p: nat, k: Bytes)
    requires Indexed(h, s) && p in s.owner && s.owner[p] == LOOSE && 0 < j < |s.lists| == |h.heads| && p < WORD_LIMIT
    requires k == KeyOf(h.recs[p], h.body[p]) || (k in s.where && FoundAt(h, s, k))
    ensures var s' := s.Push(j, p).(where := s.where[KeyOf(h.recs[p], h.body[p]) := p]);
            FoundAt(h.SetHead(j, p), s', k)
  {
    hide KeyOf;
  }

  lemma PushContents(h: Heap, s: Shape, hash: Bytes -> Word, j: nat, p: nat, key: Bytes)
    requires Indexed(h, s) && Stored(h, s, hash) && p in s.owner && s.owner[p] == LOOSE && p < WORD_LIMIT
    requires 0 < j < |s.lists| && |s.lists| == |h.heads| && key !in s.where
    ensures var s' := s.Push(j, p).(where := s.where[key := p]);
            Contents(h.SetHead(j, p), s') == Contents(h, s)[key := EntryOf(h.recs[p], h.body[p])]
  {
    hide KeyOf, EntryOf, LiveIn;
    var h', s' := h.SetHead(j, p), s.Push(j, p).(where := s.where[key := p]);
    forall k | k in s.where
      ensures k in Contents(h, s) && k in Contents(h', s') && Contents(h', s')[k] == Contents(h, s)[k]
    {
      assert FoundAt(h, s, k);
      OtherFound(h, s, h', s', k);
    }
  }

  lemma StepLinkLive(h: Heap, s: Shape, hash: Bytes -> Word, j: nat, p: nat, key: Bytes)
    requires WellFormed(h, s, hash) && p in s.owner && s.owner[p] == LOOSE
    requires 0 < j < |h.heads| && h.recs[p].next == h.heads[j]
    requires Live(h.recs[p], h.body[p], j, |h.heads| - 1, hash)
    requires key == KeyOf(h.recs[p], h.body[p]) && key !in s.where
    ensures p < WORD_LIMIT && |s.lists| == |h.heads|
    ensures var s' := s.Push(j, p).(where := s.where[key := p]);
            && WellFormed(h.SetHead(j, p), s', hash)
            && Contents(h.SetHead(j, p), s') == Contents(h, s)[key := EntryOf(h.recs[p], h.body[p])]
  {
    HeadLayout(h, s, hash, j, 0);
    HeadLayout(h, s, hash, j, p);
    OwnedPush(s, j, p);
    PushLinked(h, s, j, p);
    hide Owned, Linked, Tiled, Shaped, Stored, Contents, Live, KeyOf, EntryOf, Heap.Lens;
    PushStored(h, s, hash, j, p);
    PushContents(h, s, hash, j, p, key);
    var s' := s.Push(j, p);
    WhereOnly(h.SetHead(j, p), s', s.where[key := p]);
  }

  lemma WhereOnly(h: Heap, s: Shape, where: map<Bytes, nat>)
    requires Owned(s) && Linked(h, s)
    ensures Owned(s.(where := where)) && Linked(h, s.(where := where))
  {
  }

  // Taking a block off a list.

  /** The heap with the `i`-th block of list `j` bypassed. */
  function Bypass(h: Heap, s: Shape, j: nat, i: nat): Heap
    requires j < |s.lists| && i < |s.lists[j]| && j < |h.heads|
    requires s.lists[j][i] in h.recs && (i > 0 ==> s.lists[j][i - 1] in h.recs)
  {
    var next := h.recs[s.lists[j][i]].next;
    if i == 0 then h.SetHead(j, next)
    else h.SetRec(s.lists[j][i - 1], h.recs[s.lists[j][i - 1]].(next := next))
  }

  ghost predicate OnList(h: Heap, s: Shape, j: nat, i: nat) {
    && j < |s.lists| == |h.heads| && i < |s.lists[j]|
    && s.lists[j][i] in h.recs && (i > 0 ==> s.lists[j][i - 1] in h.recs)
  }

  lemma DropLinked(h: Heap, s: Shape, j: nat, i: nat)
    requires Owned(s) && Linked(h, s) && OnList(h, s, j, i)
    ensures Linked(Bypass(h, s, j, i), s.Drop(j, i))
  {
    var h', s' := Bypass(h, s, j, i), s.Drop(j, i);
    var l, l' := s.lists[j], s'.lists[j];
    assert Chain(h.recs, h.heads[j], l);
    assert NoDup(l);
    forall k | 0 <= k < |h.heads|
      ensures Chain(h'.recs, h'.heads[k], s'.lists[k])
    {
      if k != j {
        if i > 0 {
          assert l[i - 1] !in s.lists[k];
          ChainFrame(h.recs, h.heads[k], s.lists[k], l[i - 1], h'.recs[l[i - 1]]);
        }
      } else {
        DropChain(h.recs, h'.recs, h.heads[j], h'.heads[j], l, i);
      }
    }
  }

  lemma Differ(l: seq<nat>, a: nat, b: nat)
    requires NoDup(l) && a < |l| && b < |l| && a != b
    ensures l[a] != l[b]
  {
  }

  lemma DropChain(recs: map<nat, Rec>, recs': map<nat, Rec>, top: nat, top': nat, l: seq<nat>, i: nat)
    requires Chain(recs, top, l) && NoDup(l) && i < |l|
    requires recs' == if i == 0 then recs else recs[l[i - 1] := recs[l[i - 1]].(next := recs[l[i]].next)]
    requires top' == if i == 0 then recs[l[i]].next else top
    ensures Chain(recs', top', l[..i] + l[i + 1..])
  {
    var l' := l[..i] + l[i + 1..];
    assert top' == Nth(l', 0);
    hide NoDup, Nth;
    forall x | 0 <= x < |l'|
      ensures l'[x] in recs' && l'[x] != 0 && recs'[l'[x]].next == Nth(l', x + 1)
    {
      hide Chain;
      DropAt(recs, recs', top, l, i, x);
    }
  }

  /** Place `y` of a chain. */
  lemma ChainAt(recs: map<nat, Rec>, top: nat, l: seq<nat>, y: nat)
    requires Chain(recs, top, l) && y < |l|
    ensures l[y] in recs && l[y] != 0 && recs[l[y]].next == Nth(l, y + 1)
  {
  }

  lemma DropAt(recs: map<nat, Rec>, recs': map<nat, Rec>, top: nat, l: seq<nat>, i: nat, x: nat)
    requires Chain(recs, top, l) && NoDup(l) && i < |l| && x < |l| - 1 && l[i] in recs
    requires i > 0 ==> l[i - 1] in recs
    requires recs' == if i == 0 then recs else recs[l[i - 1] := recs[l[i - 1]].(next := recs[l[i]].next)]
    ensures var l' := l[..i] + l[i + 1..];
            l'[x] in recs' && l'[x] != 0 && recs'[l'[x]].next == Nth(l', x + 1)
  {
    hide Chain, NoDup;
    var y := if x < i then x else x + 1;
    ChainAt(recs, top, l, y);
    ChainAt(recs, top, l, i);
    if i > 0 && y != i - 1 {
      Differ(l, y, i - 1);
    }
  }

  lemma BypassIndexed(h: Heap, s: Shape, j: nat, i: nat)
    requires Indexed(h, s) && Owned(s) && OnList(h, s, j, i)
    ensures Indexed(Bypass(h, s, j, i), s.Drop(j, i)) && |Bypass(h, s, j, i).heads| == |h.heads|
    ensures Bypass(h, s, j, i).body == h.body && Bypass(h, s, j, i).size == h.size
    ensures forall x :: x in h.recs ==>
              Bypass(h, s, j, i).recs[x] == h.recs[x].(next := Bypass(h, s, j, i).recs[x].next)
    ensures s.lists[j][i] in s.owner && s.owner[s.lists[j][i]] == j && s.Drop(j, i).owner[s.lists[j][i]] == LOOSE
    ensures forall x :: x in s.owner && x != s.lists[j][i] ==> s.Drop(j, i).owner[x] == s.owner[x]
  {
  }

  lemma ListedBlock(h: Heap, s: Shape, j: nat, i: nat)
    requires Linked(h, s) && j < |s.lists| && i < |s.lists[j]|
    ensures OnList(h, s, j, i)
  {
    assert Chain(h.recs, h.heads[j], s.lists[j]);
  }

  lemma BypassLayout(h: Heap, s: Shape, j: nat, i: nat)
    requires Indexed(h, s) && Shaped(h) && OnList(h, s, j, i)
    ensures Bypass(h, s, j, i).Lens() == h.Lens() && Shaped(Bypass(h, s, j, i))
    ensures Bypass(h, s, j, i).Base() == h.Base() && Bypass(h, s, j, i).size == h.size
  {
    assert Bypass(h, s, j, i).Lens() == h.Lens();
    hide Disjoint, Heap.Lens;
  }

  lemma DropFreeSame(h: Heap, s: Shape, hash: Bytes -> Word, i: nat)
    requires Indexed(h, s) && Owned(s) && OnList(h, s, 0, i) && Stored(h, s, hash)
    ensures var h', s' := Bypass(h, s, 0, i), s.Drop(0, i);
            && Indexed(h', s') && SameLive(h, s, h', s')
            && forall x :: x in s'.owner && s'.owner[x] == 0 ==> h'.recs[x].magic == TDB_FREE_MAGIC
  {
    BypassIndexed(h, s, 0, i);
    hide Owned, Bypass, LiveIn, FoundAt;
  }

  lemma StepDropFree(h: Heap, s: Shape, hash: Bytes -> Word, i: nat)
    requires WellFormed(h, s, hash) && |s.lists| > 0 && i < |s.lists[0]|
    ensures OnList(h, s, 0, i)
    ensures WellFormed(Bypass(h, s, 0, i), s.Drop(0, i), hash)
    ensures Contents(Bypass(h, s, 0, i), s.Drop(0, i)) == Contents(h, s)
  {
    hide Owned, Linked, Tiled, Shaped, Stored, Contents, SameLive, Heap.Lens, Bypass;
    ListedBlock(h, s, 0, i);
    BypassLayout(h, s, 0, i);
    OwnedDrop(s, 0, i);
    DropLinked(h, s, 0, i);
    DropFreeSame(h, s, hash, i);
    SameStored(h, s, Bypass(h, s, 0, i), s.Drop(0, i), hash);
    SameContents(h, s, Bypass(h, s, 0, i), s.Drop(0, i), hash);
  }

  lemma DropStored(h: Heap, s: Shape, hash: Bytes -> Word, j: nat, i: nat, key: Bytes)
    requires Indexed(h, s) && Owned(s) && Stored(h, s, hash) && 0 < j && OnList(h, s, j, i)
    requires s.lists[j][i] in s.owner && key == KeyOf(h.recs[s.lists[j][i]], h.body[s.lists[j][i]])
    ensures var h', s' := Bypass(h, s, j, i), s.Drop(j, i).(where := s.where - {key});
            Indexed(h', s') && Stored(h', s', hash)
  {
    var p := s.lists[j][i];
    var h', s' := Bypass(h, s, j, i), s.Drop(j, i).(where := s.where - {key});
    BypassIndexed(h, s, j, i);
    assert LiveIn(h, s, p, hash);
    hide Owned, Bypass, Live, KeyOf, EntryOf;
    forall x | x in s'.owner && s'.owner[x] > 0
      ensures LiveIn(h', s', x, hash)
    {
      assert LiveIn(h, s, x, hash);
      OtherLive(h, s, h', s', hash, x);
    }
    forall k | k in s'.where
      ensures FoundAt(h', s', k)
    {
      assert FoundAt(h, s, k);
      OtherFound(h, s, h', s', k);
    }
    hide LiveIn, FoundAt;
  }

  lemma DropContents(h: Heap, s: Shape, hash: Bytes -> Word, j: nat, i: nat, key: Bytes)
    requires Indexed(h, s) && Owned(s) && Stored(h, s, hash) && 0 < j && OnList(h, s, j, i)
    requires s.lists[j][i] in s.owner && key == KeyOf(h.recs[s.lists[j][i]], h.body[s.lists[j][i]])
    ensures var h', s' := Bypass(h, s, j, i), s.Drop(j, i).(where := s.where - {key});
            key in s.where && Contents(h', s') == Contents(h, s) - {key}
  {
    var p := s.lists[j][i];
    var h', s' := Bypass(h, s, j, i), s.Drop(j, i).(where := s.where - {key});
    BypassIndexed(h, s, j, i);
    assert LiveIn(h, s, p, hash);
    hide Owned, Bypass, KeyOf, EntryOf, LiveIn;
    forall k | k in s'.where
      ensures k in Contents(h, s) && k in Contents(h', s') && Contents(h', s')[k] == Contents(h, s)[k]
    {
      assert FoundAt(h, s, k);
      OtherFound(h, s, h', s', k);
    }
  }

  lemma StepDropLive(h: Heap, s: Shape, hash: Bytes -> Word, j: nat, i: nat, key: Bytes)
    requires WellFormed(h, s, hash) && 0 < j < |s.lists| && i < |s.lists[j]|
    requires s.lists[j][i] in h.recs && key == KeyOf(h.recs[s.lists[j][i]], h.body[s.lists[j][i]])
    ensures OnList(h, s, j, i) && key in s.where
    ensures var h', s' := Bypass(h, s, j, i), s.Drop(j, i).(where := s.where - {key});
            WellFormed(h', s', hash) && Contents(h', s') == Contents(h, s) - {key}
  {
    hide Owned, Linked, Tiled, Shaped, Stored, Contents, Heap.Lens, Bypass, KeyOf;
    ListedBlock(h, s, j, i);
    BypassLayout(h, s, j, i);
    OwnedDrop(s, j, i);
    DropLinked(h, s, j, i);
    BypassIndexed(h, s, j, i);
    DropStored(h, s, hash, j, i, key);
    DropContents(h, s, hash, j, i, key);
    WhereOnly(Bypass(h, s, j, i), s.Drop(j, i), s.where - {key});
  }

  // Splitting and adding free blocks.

  /** Writing into the payload of a free block is of no consequence. */
  lemma StepFreeBody(h: Heap, s: Shape, hash: Bytes -> Word, p: nat, b: Bytes)
    requires WellFormed(h, s, hash) && p in s.owner && s.owner[p] == 0 && p in h.body && |b| == |h.body[p]|
    ensures WellFormed(h.SetBody(p, b), s, hash)
    ensures Contents(h.SetBody(p, b), s) == Contents(h, s)
  {
    FreeBodySame(h, s, hash, p, b);
    hide Owned, Tiled, Stored, Contents, SameLive, Heap.Lens;
    SameStored(h, s, h.SetBody(p, b), s, hash);
    SameContents(h, s, h.SetBody(p, b), s, hash);
  }

  lemma FreeBodySame(h: Heap, s: Shape, hash: Bytes -> Word, p: nat, b: Bytes)
    requires Indexed(h, s) && Shaped(h) && Linked(h, s) && Stored(h, s, hash)
    requires p in s.owner && s.owner[p] == 0 && p in h.body && |b| == |h.body[p]|
    ensures h.SetBody(p, b).Lens() == h.Lens() && Shaped(h.SetBody(p, b)) && Linked(h.SetBody(p, b), s)
    ensures Indexed(h.SetBody(p, b), s) && SameLive(h, s, h.SetBody(p, b), s)
    ensures forall x :: x in s.owner && s.owner[x] == 0 ==> h.recs[x].magic == TDB_FREE_MAGIC
  {
    assert h.SetBody(p, b).Lens() == h.Lens();
    hide Disjoint, Heap.Lens, Chain, LiveIn, FoundAt;
  }

  lemma InsertLinked(h: Heap, s: Shape, h': Heap, i: nat, r: Rec, q: nat, nr: Rec)
    requires Owned(s) && Linked(h, s) && OnList(h, s, 0, i)
    requires r.next == q && q != 0 && q !in s.owner && nr.next == h.recs[s.lists[0][i]].next
    requires h'.heads == h.heads && h'.recs == h.recs[s.lists[0][i] := r][q := nr]
    ensures Linked(h', s.InsertAfter(0, i, q))
  {
    var l := s.lists[0];
    var p := l[i];
    var s' := s.InsertAfter(0, i, q);
    assert Chain(h.recs, h.heads[0], l) && NoDup(l);
    InsertChain(h.recs, h.heads[0], l, i, r, q, nr);
    hide Chain, NoDup;
    forall k | 0 < k < |h.heads|
      ensures Chain(h'.recs, h.heads[k], s'.lists[k])
    {
      ChainFrame(h.recs, h.heads[k], s.lists[k], p, r);
      ChainFrame(h.recs[p := r], h.heads[k], s.lists[k], q, nr);
    }
  }

  lemma InsertChain(recs: map<nat, Rec>, top: nat, l: seq<nat>, i: nat, r: Rec, q: nat, nr: Rec)
    requires Chain(recs, top, l) && NoDup(l) && i < |l| && q !in l && q != 0
    requires r.next == q && nr.next == recs[l[i]].next
    ensures Chain(recs[l[i] := r][q := nr], top, l[..i + 1] + [q] + l[i + 1..])
  {
    var recs' := recs[l[i] := r][q := nr];
    var l' := l[..i + 1] + [q] + l[i + 1..];
    assert top == Nth(l', 0);
    hide NoDup, Nth;
    forall x | 0 <= x < |l'|
      ensures l'[x] in recs' && l'[x] != 0 && recs'[l'[x]].next == Nth(l', x + 1)
    {
      hide Chain;
      InsertAt(recs, top, l, i, r, q, nr, x);
    }
  }

  lemma InsertAt(recs: map<nat, Rec>, top: nat, l: seq<nat>, i: nat, r: Rec, q: nat, nr: Rec, x: nat)
    requires Chain(recs, top, l) && NoDup(l) && i < |l| && q !in l && q != 0 && x <= |l|
    requires l[i] in recs && r.next == q && nr.next == recs[l[i]].next
    ensures var l', recs' := l[..i + 1] + [q] + l[i + 1..], recs[l[i] := r][q := nr];
            l'[x] in recs' && l'[x] != 0 && recs'[l'[x]].next == Nth(l', x + 1)
  {
    hide Chain, NoDup;
    var l' := l[..i + 1] + [q] + l[i + 1..];
    ChainAt(recs, top, l, i);
    if x <= i {
      assert l'[x] == l[x] && l[x] in l;
      ChainAt(recs, top, l, x);
      if x < i {
        Differ(l, x, i);
      }
    } else if x > i + 1 {
      assert l'[x] == l[x - 1] && l[x - 1] in l;
      ChainAt(recs, top, l, x - 1);
      Differ(l, x - 1, i);
    }
  }

  lemma CutSame(h: Heap, s: Shape, h': Heap, i: nat, q: nat)
    requires Indexed(h, s) && Owned(s) && OnList(h, s, 0, i) && q !in s.owner
    requires |h'.heads| == |h.heads| && h'.recs.Keys == h'.body.Keys == h.recs.Keys + {q}
    requires forall x :: x in h.recs && x != s.lists[0][i] ==> h'.recs[x] == h.recs[x] && h'.body[x] == h.body[x]
    ensures Indexed(h', s.InsertAfter(0, i, q))
    ensures SameLive(h, s, h', s.InsertAfter(0, i, q))
  {
    assert s.owner[s.lists[0][i]] == 0;
    hide Owned;
  }

  lemma CutMagic(h: Heap, s: Shape, hash: Bytes -> Word, h': Heap, i: nat, q: nat)
    requires Indexed(h, s) && Stored(h, s, hash) && OnList(h, s, 0, i) && q !in s.owner
    requires h'.recs.Keys == h.recs.Keys + {q}
    requires forall x :: x in h.recs && x != s.lists[0][i] ==> h'.recs[x] == h.recs[x]
    requires h'.recs[s.lists[0][i]].magic == h'.recs[q].magic == TDB_FREE_MAGIC
    ensures var s' := s.InsertAfter(0, i, q);
            forall x :: x in s'.owner && s'.owner[x] == 0 ==> x in h'.recs && h'.recs[x].magic == TDB_FREE_MAGIC
  {
    hide LiveIn, FoundAt;
  }

  lemma CutMeaning(h: Heap, s: Shape, hash: Bytes -> Word, h': Heap, i: nat, q: nat)
    requires Indexed(h, s) && Owned(s) && Stored(h, s, hash) && OnList(h, s, 0, i) && q !in s.owner
    requires |h'.heads| == |h.heads| && h'.recs.Keys == h'.body.Keys == h.recs.Keys + {q}
    requires forall x :: x in h.recs && x != s.lists[0][i] ==> h'.recs[x] == h.recs[x] && h'.body[x] == h.body[x]
    requires h'.recs[s.lists[0][i]].magic == h'.recs[q].magic == TDB_FREE_MAGIC
    ensures Indexed(h', s.InsertAfter(0, i, q)) && Stored(h', s.InsertAfter(0, i, q), hash)
    ensures Contents(h', s.InsertAfter(0, i, q)) == Contents(h, s)
  {
    hide Owned, Stored, Contents, SameLive;
    var s' := s.InsertAfter(0, i, q);
    CutSame(h, s, h', i, q);
    CutMagic(h, s, hash, h', i, q);
    SameStored(h, s, h', s', hash);
    SameContents(h, s, h', s', hash);
  }

  /** Splitting the `i`-th free block into `p` and, right behind it on the free list, `q`. */
  lemma StepCut(h: Heap, s: Shape, hash: Bytes -> Word, i: nat, p: nat, r: Rec, nr: Rec)
    requires WellFormed(h, s, hash) && OnList(h, s, 0, i) && p == s.lists[0][i] && p in h.body
    requires r.recLen + REC_SIZE + nr.recLen == h.recs[p].recLen == |h.body[p]| && r.recLen % 4 == 0
    requires r.next == p + REC_SIZE + r.recLen && nr.next == h.recs[p].next
    requires r.magic == nr.magic == TDB_FREE_MAGIC
    ensures r.next !in s.owner
    ensures WellFormed(h.Carve(p, r, nr), s.InsertAfter(0, i, r.next), hash)
    ensures Contents(h.Carve(p, r, nr), s.InsertAfter(0, i, r.next)) == Contents(h, s)
  {
    hide Owned, Linked, Tiled, Shaped, Stored, Contents, Heap.Lens, Heap.Carve;
    CutLayout(h, p, r, nr);
    OwnedInsert(s, 0, i, r.next);
    CarveLinked(h, s, i, p, r, nr);
    CarveMeaning(h, s, hash, i, p, r, nr);
  }

  lemma CarveLinked(h: Heap, s: Shape, i: nat, p: nat, r: Rec, nr: Rec)
    requires Owned(s) && Linked(h, s) && OnList(h, s, 0, i) && p == s.lists[0][i] && p in h.body
    requires h.recs.Keys == h.body.Keys == s.owner.Keys && r.recLen + REC_SIZE <= |h.body[p]|
    requires r.next == p + REC_SIZE + r.recLen && nr.next == h.recs[p].next && r.next !in s.owner
    ensures Linked(h.Carve(p, r, nr), s.InsertAfter(0, i, r.next))
  {
    hide Owned, Linked, Heap.Carve;
    CarveParts(h, p, r, nr, r.next);
    InsertLinked(h, s, h.Carve(p, r, nr), i, r, r.next, nr);
  }

  lemma CarveMeaning(h: Heap, s: Shape, hash: Bytes -> Word, i: nat, p: nat, r: Rec, nr: Rec)
    requires Indexed(h, s) && Owned(s) && Stored(h, s, hash) && OnList(h, s, 0, i) && p == s.lists[0][i]
    requires r.recLen + REC_SIZE <= |h.body[p]| && r.next == p + REC_SIZE + r.recLen && r.next !in s.owner
    requires r.magic == nr.magic == TDB_FREE_MAGIC
    ensures Indexed(h.Carve(p, r, nr), s.InsertAfter(0, i, r.next))
    ensures Stored(h.Carve(p, r, nr), s.InsertAfter(0, i, r.next), hash)
    ensures Contents(h.Carve(p, r, nr), s.InsertAfter(0, i, r.next)) == Contents(h, s)
  {
    hide Owned, Stored, Contents, Heap.Carve;
    CarveParts(h, p, r, nr, r.next);
    CutMeaning(h, s, hash, h.Carve(p, r, nr), i, r.next);
  }

  lemma CarveParts(h: Heap, p: nat, r: Rec, nr: Rec, q: nat)
    requires p in h.recs && p in h.body && r.recLen + REC_SIZE <= |h.body[p]|
    requires h.recs.Keys == h.body.Keys && q == p + REC_SIZE + r.recLen && q !in h.recs
    ensures var h' := h.Carve(p, r, nr);
            && h'.heads == h.heads && h'.recs == h.recs[p := r][q := nr]
            && h'.recs.Keys == h'.body.Keys == h.recs.Keys + {q}
            && h'.recs[p] == r && h'.recs[q] == nr
            && forall x :: x in h.recs && x != p ==> h'.recs[x] == h.recs[x] && h'.body[x] == h.body[x]
  {
  }

  lemma CutLayout(h: Heap, p: nat, r: Rec, nr: Rec)
    requires Shaped(h) && Tiled(h.Base(), h.size, h.Lens()) && p in h.recs
    requires r.recLen + REC_SIZE + nr.recLen == h.recs[p].recLen && r.recLen % 4 == 0
    ensures p + REC_SIZE + r.recLen !in h.recs
    ensures Shaped(h.Carve(p, r, nr))
    ensures Tiled(h.Carve(p, r, nr).Base(), h.Carve(p, r, nr).size, h.Carve(p, r, nr).Lens())
  {
    var q := p + REC_SIZE + r.recLen;
    CarveShaped(h, p, r, nr);
    CarveLens(h, p, r, nr);
    TiledCut(h.Base(), h.size, h.Lens(), p, r.recLen, nr.recLen);
    hide Tiled, Disjoint, Heap.Lens;
  }

  lemma CarveLens(h: Heap, p: nat, r: Rec, nr: Rec)
    requires p in h.recs && p in h.body && r.recLen + REC_SIZE <= |h.body[p]|
    ensures p in h.Lens() && h.Lens()[p] == h.recs[p].recLen
    ensures h.Carve(p, r, nr).Lens() == h.Lens()[p := r.recLen][p + REC_SIZE + r.recLen := nr.recLen]
  {
  }

  /** A block added at the end of the image is on no list yet. */
  lemma StepGrow(h: Heap, s: Shape, hash: Bytes -> Word, r: Rec, payload: Bytes)
    requires WellFormed(h, s, hash) && |payload| == r.recLen && r.recLen % 4 == 0
    requires h.size + REC_SIZE + r.recLen < WORD_LIMIT
    ensures h.size !in s.owner
    ensures WellFormed(h.Grow(r, payload), s.(owner := s.owner[h.size := LOOSE]), hash)
    ensures Contents(h.Grow(r, payload), s.(owner := s.owner[h.size := LOOSE])) == Contents(h, s)
  {
    var h', s' := h.Grow(r, payload), s.(owner := s.owner[h.size := LOOSE]);
    hide Owned, Linked, Tiled, Shaped, Stored, Contents, SameLive, Heap.Lens;
    GrowLayout(h, r, payload);
    GrowLinked(h, s, r, payload);
    GrowSame(h, s, hash, r, payload);
    SameStored(h, s, h', s', hash);
    SameContents(h, s, h', s', hash);
  }

  lemma GrowSame(h: Heap, s: Shape, hash: Bytes -> Word, r: Rec, payload: Bytes)
    requires Indexed(h, s) && Stored(h, s, hash) && h.size !in s.owner
    ensures var h', s' := h.Grow(r, payload), s.(owner := s.owner[h.size := LOOSE]);
            && Indexed(h', s') && SameLive(h, s, h', s')
            && forall x :: x in s'.owner && s'.owner[x] == 0 ==> h'.recs[x].magic == TDB_FREE_MAGIC
  {
    hide LiveIn, FoundAt;
  }

  lemma GrowLinked(h: Heap, s: Shape, r: Rec, payload: Bytes)
    requires Owned(s) && Linked(h, s) && h.size !in s.owner
    ensures Owned(s.(owner := s.owner[h.size := LOOSE]))
    ensures Linked(h.Grow(r, payload), s.(owner := s.owner[h.size := LOOSE]))
  {
    forall j | 0 <= j < |h.heads|
      ensures Chain(h.recs[h.size := r], h.heads[j], s.lists[j])
    {
      ChainFrame(h.recs, h.heads[j], s.lists[j], h.size, r);
    }
  }

  lemma GrowLayout(h: Heap, r: Rec, payload: Bytes)
    requires Shaped(h) && Tiled(h.Base(), h.size, h.Lens())
    requires |payload| == r.recLen && r.recLen % 4 == 0 && h.size + REC_SIZE + r.recLen < WORD_LIMIT
    ensures h.size !in h.recs
    ensures Shaped(h.Grow(r, payload))
    ensures Tiled(h.Grow(r, payload).Base(), h.Grow(r, payload).size, h.Grow(r, payload).Lens())
  {
    GrowShaped(h, r, payload);
    TiledAppend(h.Base(), h.size, h.Lens(), r.recLen);
    assert h.Grow(r, payload).Lens() == h.Lens()[h.size := r.recLen];
  }

  // Replacing the data of a stored record in place.

  lemma SpliceKeepsKey(b: Bytes, n: nat, data: Bytes)
    requires n + |data| <= |b|
    ensures |Splice(b, n, data)| == |b| && Splice(b, n, data)[..n] == b[..n]
    ensures Splice(b, n, data)[n..n + |data|] == data
  {
  }

  /** The header and payload of block `p` after its data became `data`. */
  ghost function Redata(h: Heap, p: nat, data: Bytes): (h': Heap)
    requires p in h.recs && p in h.body && h.recs[p].keyLen + |data| <= |h.body[p]| < WORD_LIMIT
  {
    h.SetRec(p, h.recs[p].(dataLen := |data|)).SetBody(p, Splice(h.body[p], h.recs[p].keyLen, data))
  }

  lemma RedataLive(h: Heap, s: Shape, hash: Bytes -> Word, p: nat, data: Bytes)
    requires Indexed(h, s) && p in s.owner && LiveIn(h, s, p, hash)
    requires h.recs[p].keyLen + |data| <= |h.body[p]| < WORD_LIMIT
    ensures Indexed(Redata(h, p, data), s) && LiveIn(Redata(h, p, data), s, p, hash)
    ensures var h' := Redata(h, p, data);
            && KeyOf(h'.recs[p], h'.body[p]) == KeyOf(h.recs[p], h.body[p])
            && EntryOf(h'.recs[p], h'.body[p]) == Entry(data, h.recs[p].recLen)
  {
    SpliceKeepsKey(h.body[p], h.recs[p].keyLen, data);
  }

  lemma RedataStored(h: Heap, s: Shape, hash: Bytes -> Word, p: nat, data: Bytes)
    requires Indexed(h, s) && Stored(h, s, hash) && p in s.owner && s.owner[p] > 0
    requires h.recs[p].keyLen + |data| <= |h.body[p]| < WORD_LIMIT
    ensures Indexed(Redata(h, p, data), s) && Stored(Redata(h, p, data), s, hash)
  {
    hide KeyOf, EntryOf, FoundAt, LiveIn;
    var h' := Redata(h, p, data);
    forall x | x in s.owner && s.owner[x] > 0
      ensures LiveIn(h', s, x, hash)
    {
      RedataLiveAt(h, s, hash, p, data, x);
    }
    forall k | k in s.where
      ensures FoundAt(h', s, k)
    {
      RedataFoundAt(h, s, hash, p, data, k);
    }
  }

  lemma RedataLiveAt(h: Heap, s: Shape, hash: Bytes -> Word, p: nat, data: Bytes, x: nat)
    requires Indexed(h, s) && p in s.owner && LiveIn(h, s, p, hash) && x in s.owner && LiveIn(h, s, x, hash)
    requires h.recs[p].keyLen + |data| <= |h.body[p]| < WORD_LIMIT
    ensures Indexed(Redata(h, p, data), s) && LiveIn(Redata(h, p, data), s, x, hash)
  {
    hide Live, KeyOf;
    if x == p {
      RedataLive(h, s, hash, p, data);
    } else {
      OtherLive(h, s, Redata(h, p, data), s, hash, x);
    }
  }

  lemma RedataFoundAt(h: Heap, s: Shape, hash: Bytes -> Word, p: nat, data: Bytes, k: Bytes)
    requires Indexed(h, s) && p in s.owner && LiveIn(h, s, p, hash) && k in s.where && FoundAt(h, s, k)
    requires h.recs[p].keyLen + |data| <= |h.body[p]| < WORD_LIMIT
    ensures Indexed(Redata(h, p, data), s) && FoundAt(Redata(h, p, data), s, k)
    ensures var h' := Redata(h, p, data);
            EntryOf(h'.recs[s.where[k]], h'.body[s.where[k]]) ==
            if k == KeyOf(h.recs[p], h.body[p]) then Entry(data, h.recs[p].recLen)
            else EntryOf(h.recs[s.where[k]], h.body[s.where[k]])
  {
    hide Live, KeyOf, EntryOf;
    if s.where[k] == p {
      RedataLive(h, s, hash, p, data);
    }
  }

  lemma RedataContents(h: Heap, s: Shape, hash: Bytes -> Word, p: nat, data: Bytes)
    requires Indexed(h, s) && Stored(h, s, hash) && p in s.owner && s.owner[p] > 0
    requires h.recs[p].keyLen + |data| <= |h.body[p]| < WORD_LIMIT
    ensures KeyOf(h.recs[p], h.body[p]) in s.where
    ensures Contents(Redata(h, p, data), s) ==
            Contents(h, s)[KeyOf(h.recs[p], h.body[p]) := Entry(data, h.recs[p].recLen)]
  {
    var h', key := Redata(h, p, data), KeyOf(h.recs[p], h.body[p]);
    assert LiveIn(h, s, p, hash);
    hide KeyOf, EntryOf, LiveIn, Redata;
    forall k | k in s.where
      ensures k in Contents(h, s) && k in Contents(h', s)
      ensures Contents(h', s)[k] == if k == key then Entry(data, h.recs[p].recLen) else Contents(h, s)[k]
    {
      assert FoundAt(h, s, k);
      RedataFoundAt(h, s, hash, p, data, k);
    }
  }

  lemma RedataLinked(h: Heap, s: Shape, p: nat, data: Bytes)
    requires Linked(h, s) && p in h.recs && p in h.body
    requires h.recs[p].keyLen + |data| <= |h.body[p]| < WORD_LIMIT
    ensures Linked(Redata(h, p, data), s)
  {
    forall j | 0 <= j < |h.heads|
      ensures Chain(Redata(h, p, data).recs, h.heads[j], s.lists[j])
    {
      assert Chain(h.recs, h.heads[j], s.lists[j]);
    }
  }

  lemma StepData(h: Heap, s: Shape, hash: Bytes -> Word, p: nat, data: Bytes)
    requires WellFormed(h, s, hash) && p in s.owner && s.owner[p] > 0
    requires h.recs[p].keyLen + |data| <= |h.body[p]| < WORD_LIMIT
    ensures WellFormed(Redata(h, p, data), s, hash)
    ensures KeyOf(h.recs[p], h.body[p]) in s.where
    ensures Contents(Redata(h, p, data), s) ==
            Contents(h, s)[KeyOf(h.recs[p], h.body[p]) := Entry(data, h.recs[p].recLen)]
  {
    hide Owned, Linked, Tiled, Shaped, Stored, Contents, Heap.Lens, KeyOf;
    SameLayout(h, s, p, h.recs[p].(dataLen := |data|), Splice(h.body[p], h.recs[p].keyLen, data));
    RedataLinked(h, s, p, data);
    RedataStored(h, s, hash, p, data);
    RedataContents(h, s, hash, p, data);
  }

  // ----- blocks that are on no list

  ghost function Loose(s: Shape): set<nat> {
    set p | p in s.owner && s.owner[p] == LOOSE
  }

  /** The loose blocks of `s`, and their headers, are those of `s'`. */
  ghost predicate SameLoose(h: Heap, s: Shape, h': Heap, s': Shape) {
    && Loose(s) == Loose(s')
    && forall p :: p in Loose(s) ==> p in h.recs && p in h'.recs && h'.recs[p] == h.recs[p]
  }

  lemma LooseKept(h: Heap, s: Shape, hash: Bytes -> Word)
    requires WellFormed(h, s, hash)
    ensures SameLoose(h, s, h, s) && s.owner.Keys == h.recs.Keys
  {
    hide Owned, Linked, Shaped, Tiled, Stored;
  }

  /** Block `p`, with header `r`, is loose in `s'` but not in `s`; the other loose blocks are the same. */
  ghost predicate Loosened(h: Heap, s: Shape, h': Heap, s': Shape, p: nat, r: Rec) {
    && p !in Loose(s) && Loose(s') == Loose(s) + {p}
    && p in h'.recs && h'.recs[p] == r
    && forall x :: x in Loose(s) ==> x in h.recs && x in h'.recs && h'.recs[x] == h.recs[x]
  }

  lemma SameLooseThen(h: Heap, s: Shape, k: Heap, t: Shape, h': Heap, s': Shape)
    requires SameLoose(h, s, k, t) && SameLoose(k, t, h', s')
    ensures SameLoose(h, s, h', s')
  {
  }

  lemma LoosenedThen(h: Heap, s: Shape, k: Heap, t: Shape, h': Heap, s': Shape, p: nat, r: Rec)
    requires Loosened(h, s, k, t, p, r) && SameLoose(k, t, h', s')
    ensures Loosened(h, s, h', s', p, r)
  {
  }

  lemma LoosenedAfter(h: Heap, s: Shape, k: Heap, t: Shape, h': Heap, s': Shape, p: nat, r: Rec)
    requires SameLoose(h, s, k, t) && Loosened(k, t, h', s', p, r)
    ensures Loosened(h, s, h', s', p, r)
  {
  }

  /** Filling the loosened block and linking it leaves the loose blocks there were. */
  lemma LinkedBack(h: Heap, s: Shape, k: Heap, t: Shape, p: nat, r: Rec, h': Heap, s': Shape, j: nat)
    requires Loosened(h, s, k, t, p, r) && j >= 0 && t.owner.Keys == k.recs.Keys
    requires p in h'.recs && h'.recs == k.recs[p := h'.recs[p]] && s'.owner == t.owner[p := j]
    ensures SameLoose(h, s, h', s')
  {
  }

  lemma LooseByRecs(h: Heap, k: Heap, s: Shape, h': Heap, s': Shape)
    requires SameLoose(k, s, h', s') && h.recs == k.recs
    ensures SameLoose(h, s, h', s')
  {
  }

  lemma RedataLoose(h: Heap, s: Shape, hash: Bytes -> Word, p: nat, data: Bytes)
    requires WellFormed(h, s, hash) && p in s.owner && s.owner[p] > 0
    requires p in h.body && h.recs[p].keyLen + |data| <= |h.body[p]| < WORD_LIMIT
    ensures SameLoose(h, s, Redata(h, p, data), s)
  {
    hide Owned, Linked, Shaped, Tiled, Stored;
  }

  lemma DropLoose(h: Heap, s: Shape, hash: Bytes -> Word, j: nat, i: nat)
    requires WellFormed(h, s, hash) && OnList(h, s, j, i)
    ensures var p := s.lists[j][i]; var h' := Bypass(h, s, j, i);
            && Loose(s.Drop(j, i)) == Loose(s) + {p} && p !in Loose(s) && p in h'.recs && h'.recs[p] == h.recs[p]
            && forall x :: x in Loose(s) ==> x in h.recs && x in h'.recs && h'.recs[x] == h.recs[x]
  {
    hide Linked, Shaped, Tiled, Stored;
    if i > 0 {
      assert s.owner[s.lists[j][i - 1]] == j;
      assert NoDup(s.lists[j]);
    }
  }

  lemma LinkLoose(h: Heap, s: Shape, hash: Bytes -> Word, j: nat, p: nat, where: map<Bytes, nat>)
    requires WellFormed(h, s, hash) && j < |s.lists| == |h.heads| && p in s.owner && p < WORD_LIMIT
    ensures Loose(s.Push(j, p).(where := where)) == Loose(s) - {p}
    ensures forall x :: x in Loose(s) ==> x in h.recs
  {
    hide Owned, Linked, Shaped, Tiled, Stored;
  }

  lemma CutLoose(h: Heap, s: Shape, hash: Bytes -> Word, h': Heap, s': Shape, p: nat, r: Rec, q: nat, nr: Rec)
    requires WellFormed(h, s, hash) && p in s.owner && s.owner[p] == 0 && q !in s.owner
    requires h'.recs == h.recs[p := r][q := nr] && s'.owner == s.owner[q := 0]
    ensures SameLoose(h, s, h', s')
  {
    hide Owned, Linked, Shaped, Tiled, Stored;
  }

  /** Splitting the block at place `i` leaves the block before it alone. */
  lemma CutPrevious(h: Heap, s: Shape, hash: Bytes -> Word, i: nat, q: nat)
    requires WellFormed(h, s, hash) && OnList(h, s, 0, i) && i > 0 && q !in s.owner
    ensures s.lists[0][i - 1] in h.recs && s.lists[0][i - 1] != s.lists[0][i] && s.lists[0][i - 1] != q
  {
    hide Linked, Shaped, Tiled, Stored;
    assert NoDup(s.lists[0]);
  }

  lemma GrowLoose(h: Heap, s: Shape, hash: Bytes -> Word, r: Rec, payload: Bytes)
    requires WellFormed(h, s, hash) && h.size !in s.owner && |s.lists| == |h.heads| && h.size < WORD_LIMIT
    ensures SameLoose(h, s, h.Grow(r, payload).SetHead(0, h.size),
                      s.(owner := s.owner[h.size := LOOSE]).Push(0, h.size))
  {
    hide Owned, Linked, Shaped, Tiled, Stored;
  }

  // ----- every byte has one block

  /** Behind the list heads, each byte of the image lies in exactly one block. */
  lemma {:induction false} ByteInOneBlock(h: Heap, s: Shape, hash: Bytes -> Word, x: nat)
    requires WellFormed(h, s, hash) && h.Base() <= x < h.size
    ensures exists p :: p in h.recs && p <= x < p + REC_SIZE + h.recs[p].recLen
    ensures forall p, q | p in h.recs && q in h.recs ::
              p <= x < p + REC_SIZE + h.recs[p].recLen && q <= x < q + REC_SIZE + h.recs[q].recLen ==> p == q
  {
    hide Owned, Linked, Stored;
    var lens := h.Lens();
    var p := h.Base();
    while p + REC_SIZE + lens[p] <= x
      invariant p in lens && p <= x
      decreases x - p
    {
      p := p + REC_SIZE + lens[p];
    }
    assert p in h.recs && lens[p] == h.recs[p].recLen;
    assert forall q :: q in h.recs ==> q in lens && lens[q] == h.recs[q].recLen;
  }

  /** ... and each block is either loose or on exactly one list, at one place of it. */
  lemma BlockOnOneList(h: Heap, s: Shape, hash: Bytes -> Word, p: nat)
    requires WellFormed(h, s, hash) && p in h.recs && s.owner[p] != LOOSE
    ensures exists j, i :: 0 <= j < |s.lists| && 0 <= i < |s.lists[j]| && s.lists[j][i] == p
    ensures forall j, i, j', i' |
              0 <= j < |s.lists| && 0 <= i < |s.lists[j]| && 0 <= j' < |s.lists| && 0 <= i' < |s.lists[j']| ::
              s.lists[j][i] == p && s.lists[j'][i'] == p ==> j == j' && i == i'
  {
    hide Shaped, Tiled, Linked, Stored;
    var j := s.owner[p];
    var i :| 0 <= i < |s.lists[j]| && s.lists[j][i] == p;
    assert forall k :: 0 <= k < |s.lists| ==> NoDup(s.lists[k]);
  }

  // ----- what the code learns when it walks a list

  lemma HeadOf(h: Heap, s: Shape, hash: Bytes -> Word, j: nat)
    requires WellFormed(h, s, hash) && j < |h.heads|
    ensures |s.lists| == |h.heads| && h.heads[j] == Nth(s.lists[j], 0)
    ensures s.lists[j] != [] ==> h.heads[j] != 0
  {
    assert Chain(h.recs, h.heads[j], s.lists[j]);
  }

  lemma ListCount(h: Heap, s: Shape, hash: Bytes -> Word)
    requires WellFormed(h, s, hash)
    ensures |s.lists| == |h.heads| >= 2
  {
  }

  lemma NodeOf(h: Heap, s: Shape, hash: Bytes -> Word, j: nat, i: nat)
    requires WellFormed(h, s, hash) && j < |s.lists| && i < |s.lists[j]|
    ensures var p := s.lists[j][i];
            && p in h.recs && p in h.body && p in s.owner && s.owner[p] == j && 0 < p < WORD_LIMIT
            && h.recs[p].next == Nth(s.lists[j], i + 1)
            && (i + 1 < |s.lists[j]| ==> s.lists[j][i + 1] > 0)
            && |h.body[p]| == h.recs[p].recLen && p + REC_SIZE + h.recs[p].recLen <= h.size
    ensures OnList(h, s, j, i)
  {
    assert Chain(h.recs, h.heads[j], s.lists[j]);
    Bounds(h);
  }

  lemma LiveNode(h: Heap, s: Shape, hash: Bytes -> Word, p: nat)
    requires WellFormed(h, s, hash) && p in s.owner && s.owner[p] > 0
    ensures p in h.recs && p in h.body && LiveIn(h, s, p, hash)
    ensures h.recs[p].magic == TDB_MAGIC && h.recs[p].keyLen + h.recs[p].dataLen <= |h.body[p]|
    ensures h.recs[p].fullHash == hash(KeyOf(h.recs[p], h.body[p]))
    ensures KeyOf(h.recs[p], h.body[p]) == h.body[p][..h.recs[p].keyLen]
    ensures KeyOf(h.recs[p], h.body[p]) in s.where && s.where[KeyOf(h.recs[p], h.body[p])] == p
  {
    assert LiveIn(h, s, p, hash);
  }

  lemma LiveData(h: Heap, s: Shape, hash: Bytes -> Word, p: nat)
    requires WellFormed(h, s, hash) && p in s.owner && s.owner[p] > 0
    ensures p in h.recs && p in h.body
    ensures KeyOf(h.recs[p], h.body[p]) in Contents(h, s)
    ensures Contents(h, s)[KeyOf(h.recs[p], h.body[p])] ==
            Entry(h.body[p][h.recs[p].keyLen..h.recs[p].keyLen + h.recs[p].dataLen], h.recs[p].recLen)
  {
    hide WellFormed, LiveIn, KeyOf;
    LiveNode(h, s, hash, p);
  }

  /** The data of a key as it lies behind the header that `where` names. */
  lemma KeyData(h: Heap, s: Shape, hash: Bytes -> Word, key: Bytes, p: nat)
    requires WellFormed(h, s, hash) && key in s.where && s.where[key] == p
    ensures p in h.recs && p in h.body && h.recs[p].keyLen + h.recs[p].dataLen <= |h.body[p]|
    ensures key in Contents(h, s)
    ensures Contents(h, s)[key] ==
            Entry(h.body[p][h.recs[p].keyLen..h.recs[p].keyLen + h.recs[p].dataLen], h.recs[p].recLen)
  {
    WhereLive(h, s, hash, key);
    LiveNode(h, s, hash, p);
    hide KeyOf, LiveIn;
    LiveData(h, s, hash, p);
  }

  lemma FreeNode(h: Heap, s: Shape, hash: Bytes -> Word, p: nat)
    requires WellFormed(h, s, hash) && p in s.owner && s.owner[p] == 0
    ensures p in h.recs && h.recs[p].magic == TDB_FREE_MAGIC
  {
  }

  /** The bucket of a hash value, as a list number. */
  function ListOf(n: nat, hash: Word): (j: nat)
    requires n > 0
    ensures 0 < j <= n
  {
    1 + hash % n
  }

  lemma WhereLive(h: Heap, s: Shape, hash: Bytes -> Word, key: Bytes)
    requires WellFormed(h, s, hash) && key in s.where
    ensures s.where[key] in h.recs && s.where[key] in h.body && s.where[key] in s.owner
    ensures KeyOf(h.recs[s.where[key]], h.body[s.where[key]]) == key
    ensures s.owner[s.where[key]] == ListOf(|h.heads| - 1, hash(key))
  {
    hide Shaped, Tiled, Owned, Linked, KeyOf, LiveIn;
    assert FoundAt(h, s, key);
    LiveNode(h, s, hash, s.where[key]);
    LiveList(h, s, hash, s.where[key]);
  }

  lemma LiveList(h: Heap, s: Shape, hash: Bytes -> Word, p: nat)
    requires Indexed(h, s) && p in s.owner && LiveIn(h, s, p, hash)
    ensures s.owner[p] == ListOf(|h.heads| - 1, h.recs[p].fullHash)
  {
  }

  lemma KeyInBucket(h: Heap, s: Shape, hash: Bytes -> Word, key: Bytes) returns (i: nat)
    requires WellFormed(h, s, hash) && key in s.where
    ensures |s.lists| == |h.heads|
    ensures i < |s.lists[ListOf(|h.heads| - 1, hash(key))]|
    ensures s.lists[ListOf(|h.heads| - 1, hash(key))][i] == s.where[key]
  {
    WhereLive(h, s, hash, key);
    hide Shaped, Tiled, Stored, KeyOf;
    i :| 0 <= i < |s.lists[s.owner[s.where[key]]]| && s.lists[s.owner[s.where[key]]][i] == s.where[key];
  }

  lemma ContentsKeys(h: Heap, s: Shape, hash: Bytes -> Word)
    requires WellFormed(h, s, hash)
    ensures Contents(h, s).Keys == s.where.Keys
  {
    forall k | k in s.where
      ensures k in Contents(h, s)
    {
      assert FoundAt(h, s, k);
    }
  }

  lemma TwoPlaces(h: Heap, s: Shape, hash: Bytes -> Word, j: nat, a: nat, b: nat)
    requires WellFormed(h, s, hash) && j < |s.lists| && a < |s.lists[j]| && b < |s.lists[j]| && a != b
    ensures s.lists[j][a] != s.lists[j][b]
  {
    assert NoDup(s.lists[j]);
  }

  /** What the code finds at place `i` of the chain that holds `key`, if any chain does. */
  lemma ChainNode(h: Heap, s: Shape, hash: Bytes -> Word, key: Bytes, i: nat)
    requires WellFormed(h, s, hash)
    ensures |s.lists| == |h.heads| >= 2
    ensures var l := s.lists[ListOf(|h.heads| - 1, hash(key))];
            i < |l| ==>
              && l[i] in h.recs && l[i] in h.body && l[i] in s.owner && l[i] > 0
              && s.owner[l[i]] == ListOf(|h.heads| - 1, hash(key))
              && h.recs[l[i]].magic == 0x26011999
              && h.recs[l[i]].next == Nth(l, i + 1)
              && (i + 1 < |l| ==> l[i + 1] > 0)
              && (KeyOf(h.recs[l[i]], h.body[l[i]]) == key <==> key in s.where && s.where[key] == l[i])
  {
    var j := ListOf(|h.heads| - 1, hash(key));
    HeadOf(h, s, hash, j);
    var l := s.lists[j];
    if i < |l| {
      NodeOf(h, s, hash, j, i);
      LiveNode(h, s, hash, l[i]);
      hide WellFormed, KeyOf, LiveIn, OnList;
      if key in s.where {
        WhereLive(h, s, hash, key);
      }
    }
  }

  lemma ChainExhausted(h: Heap, s: Shape, hash: Bytes -> Word, key: Bytes)
    requires WellFormed(h, s, hash) && |s.lists| == |h.heads|
    requires var l := s.lists[ListOf(|h.heads| - 1, hash(key))];
             forall i :: 0 <= i < |l| && key in s.where ==> s.where[key] != l[i]
    ensures key !in s.where && key !in Contents(h, s)
  {
    hide WellFormed, Contents, KeyOf;
    ContentsKeys(h, s, hash);
    if key in s.where {
      var i := KeyInBucket(h, s, hash, key);
    }
  }

  /** A header and a payload that begin with `key` and `data` make a record of them. */
  lemma FreshRecord(r: Rec, b: Bytes, key: Bytes, data: Bytes, n: nat, hash: Bytes -> Word)
    requires n > 0 && |key| + |data| <= |b|
    requires r.magic == TDB_MAGIC && r.keyLen == |key| && r.dataLen == |data| && r.fullHash == hash(key)
    ensures var b' := Splice(b, 0, key + data);
            && KeyOf(r, b') == key && DataOf(r, b') == data
            && Live(r, b', ListOf(n, hash(key)), n, hash)
  {
    var b' := Splice(b, 0, key + data);
    assert b'[..|key|] == key;
    assert b'[|key|..|key| + |data|] == data;
  }

  /** What the allocator finds at place `i` of the free list. */
  lemma FreeListNode(h: Heap, s: Shape, hash: Bytes -> Word, i: nat)
    requires WellFormed(h, s, hash)
    ensures |s.lists| == |h.heads| >= 2 && h.heads[0] == Nth(s.lists[0], 0) && (s.lists[0] != [] ==> h.heads[0] != 0)
    ensures h.size % 4 == 0
    ensures var l := s.lists[0];
            i < |l| ==>
              && OnList(h, s, 0, i) && l[i] in h.body && l[i] in s.owner && l[i] > 0 && s.owner[l[i]] == 0
              && h.recs[l[i]].magic == 0xD9FEE666 && h.recs[l[i]].recLen % 4 == 0
              && h.recs[l[i]].next == Nth(l, i + 1)
              && (i + 1 < |l| ==> l[i + 1] > 0)
              && |h.body[l[i]]| == h.recs[l[i]].recLen && l[i] + REC_SIZE + h.recs[l[i]].recLen <= h.size < WORD_LIMIT
  {
    HeadOf(h, s, hash, 0);
    var l := s.lists[0];
    if i < |l| {
      NodeOf(h, s, hash, 0, i);
      FreeNode(h, s, hash, l[i]);
      assert l[i] in h.Lens();
    }
  }

  // ----- the empty database

  function EmptyHeap(n: nat): Heap {
    Heap(HeadOffset(n + 1), seq(n + 1, _ => 0), map[], map[])
  }

  function EmptyShape(n: nat): Shape {
    Shape(seq(n + 1, _ => []), map[], map[])
  }

  lemma {:induction false} ZeroHeads(n: nat)
    ensures EncodeHeads(seq(n, _ => 0)) == seq(4 * n, _ => 0)
  {
    if n == 0 {
    } else {
      ZeroHeads(n - 1);
      var heads: seq<Word> := seq(n, _ => 0);
      assert heads[..n - 1] == seq(n - 1, _ => 0);
    }
  }

  lemma EmptyWellFormed(n: nat, hash: Bytes -> Word)
    requires n >= 1 && HeadOffset(n + 1) < WORD_LIMIT
    ensures WellFormed(EmptyHeap(n), EmptyShape(n), hash)
    ensures Contents(EmptyHeap(n), EmptyShape(n)) == map[] && Loose(EmptyShape(n)) == {}
    ensures |EmptyHeap(n).heads| == n + 1
  {
    var h := EmptyHeap(n);
    assert h.Lens() == map[];
    assert h.Base() == h.size && h.size % 4 == 0;
  }

  lemma EmptyRepresents(n: nat, img: Bytes)
    requires n >= 1 && HeadOffset(n + 1) < WORD_LIMIT && |img| == HeadOffset(n + 1)
    requires forall i :: 0 <= i < |img| ==> img[i] == 0
    ensures Represents(img, EmptyHeap(n))
  {
    var h := EmptyHeap(n);
    ZeroHeads(n + 1);
    assert h.Lens() == map[];
  }
}
