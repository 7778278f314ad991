// How the TDB byte image is laid out, and how each write the code issues moves
// the block heap that the image stands for.

module TdbImage {
  import opened Bytes

  const FREELIST_TOP := 40      // sizeof(struct tdb_header)
  const REC_SIZE := 24          // sizeof(struct list_struct)
  const MIN_REC_SIZE := 52      // 2 * REC_SIZE + TDB_ALIGN
  const TDB_PAGE_SIZE := 0x2000
  const TDB_LEN_MULTIPLIER := 10
  const TDB_MAGIC: Word := 0x26011999
  const TDB_FREE_MAGIC: Word := 0xD9FEE666
  const WORD_LIMIT := 0x1_0000_0000

  /** struct list_struct: the header of every block. */
  datatype Rec = Rec(recLen: Word, next: Word, keyLen: Word, dataLen: Word, fullHash: Word, magic: Word)

  function EncodeRec(r: Rec): (s: Bytes)
    ensures |s| == REC_SIZE
  {
    EncodeWord(r.recLen) + EncodeWord(r.next) + EncodeWord(r.keyLen) +
    EncodeWord(r.dataLen) + EncodeWord(r.fullHash) + EncodeWord(r.magic)
  }

  function DecodeRec(s: Bytes): Rec
    requires |s| == REC_SIZE
  {
    Rec(DecodeWord(s[0..4]), DecodeWord(s[4..8]), DecodeWord(s[8..12]),
        DecodeWord(s[12..16]), DecodeWord(s[16..20]), DecodeWord(s[20..24]))
  }

  lemma RecRoundTrip(r: Rec)
    ensures DecodeRec(EncodeRec(r)) == r
  {
    var s := EncodeRec(r);
    assert s[0..4] == EncodeWord(r.recLen) && s[4..8] == EncodeWord(r.next);
    assert s[8..12] == EncodeWord(r.keyLen) && s[12..16] == EncodeWord(r.dataLen);
    assert s[16..20] == EncodeWord(r.fullHash) && s[20..24] == EncodeWord(r.magic);
    WordRoundTrip(r.recLen);
    WordRoundTrip(r.next);
    WordRoundTrip(r.keyLen);
    WordRoundTrip(r.dataLen);
    WordRoundTrip(r.fullHash);
    WordRoundTrip(r.magic);
  }

  /** The six words of a header lie one after the other, the lowest byte of each first. */
  lemma RecLayout(r: Rec, i: nat)
    requires i < 6
    ensures var w := [r.recLen, r.next, r.keyLen, r.dataLen, r.fullHash, r.magic][i];
            EncodeRec(r)[4 * i..4 * i + 4] == [w % 256, w / 256 % 256, w / 65536 % 256, w / 16777216]
  {
    var s := EncodeRec(r);
    assert s[0..4] == EncodeWord(r.recLen) && s[4..8] == EncodeWord(r.next);
    assert s[8..12] == EncodeWord(r.keyLen) && s[12..16] == EncodeWord(r.dataLen);
    assert s[16..20] == EncodeWord(r.fullHash) && s[20..24] == EncodeWord(r.magic);
  }

  /** Where the head pointer of list `j` lies: list 0 is the free list, list b + 1 the chain of bucket b. */
  function HeadOffset(j: nat): nat {
    FREELIST_TOP + 4 * j
  }

  /** What an image holds: its list heads, and the header and payload of each block by offset. */
  datatype Heap = Heap(size: nat, heads: seq<Word>, recs: map<nat, Rec>, body: map<nat, Bytes>) {
    function Base(): nat {
      HeadOffset(|heads|)
    }

    ghost function Lens(): map<nat, nat> {
      map p | p in recs :: recs[p].recLen
    }

    function SetHead(j: nat, v: Word): Heap
      requires j < |heads|
    {
      this.(heads := heads[j := v])
    }

    function SetRec(p: nat, r: Rec): Heap {
      this.(recs := recs[p := r])
    }

    function SetBody(p: nat, b: Bytes): Heap {
      this.(body := body[p := b])
    }

    /** Block `p` cut down to header `r`, and the rest of it a block of its own with header `nr`. */
    function Carve(p: nat, r: Rec, nr: Rec): Heap
      requires p in body && r.recLen + REC_SIZE <= |body[p]|
    {
      var q := p + REC_SIZE + r.recLen;
      this.(recs := recs[p := r][q := nr],
            body := body[p := body[p][..r.recLen]][q := body[p][r.recLen + REC_SIZE..]])
    }

    /** The heap grown by one block with header `r` at its old end. */
    function Grow(r: Rec, payload: Bytes): Heap {
      this.(size := size + REC_SIZE + r.recLen, recs := recs[size := r], body := body[size := payload])
    }
  }

  /** Where the blocks lie: the payload length of each, by offset. */
  type Layout = map<nat, nat>

  /** Blocks lie between `base` and `size` and do not overlap. */
  ghost predicate Disjoint(base: nat, size: nat, lens: Layout) {
    && (forall p :: p in lens ==> base <= p && p + REC_SIZE + lens[p] <= size)
    && (forall p, q :: p in lens && q in lens && p < q ==> p + REC_SIZE + lens[p] <= q)
  }

  lemma DisjointCut(base: nat, size: nat, lens: Layout, p: nat, n: nat, m: nat)
    requires Disjoint(base, size, lens) && p in lens && lens[p] == n + REC_SIZE + m
    ensures p + REC_SIZE + n !in lens
    ensures Disjoint(base, size, lens[p := n][p + REC_SIZE + n := m])
  {
    var lens' := lens[p := n][p + REC_SIZE + n := m];
    forall x, y | x in lens' && y in lens' && x < y
      ensures x + REC_SIZE + lens'[x] <= y
    {
    }
  }

  lemma DisjointAppend(base: nat, size: nat, lens: Layout, n: nat)
    requires Disjoint(base, size, lens) && base <= size
    ensures size !in lens
    ensures Disjoint(base, size + REC_SIZE + n, lens[size := n])
  {
  }

  /** The list heads as they lie one after the other in the image. */
  ghost function EncodeHeads(heads: seq<Word>): (s: Bytes)
    ensures |s| == 4 * |heads|
  {
    if heads == [] then [] else EncodeHeads(heads[..|heads| - 1]) + EncodeWord(heads[|heads| - 1])
  }

  ghost function Headers(recs: map<nat, Rec>): (m: map<nat, Bytes>) {
    map p | p in recs :: EncodeRec(recs[p])
  }

  ghost predicate Shaped(h: Heap) {
    && h.Base() <= h.size < WORD_LIMIT
    && Disjoint(h.Base(), h.size, h.Lens())
    && h.body.Keys == h.recs.Keys
    && forall p :: p in h.recs ==> |h.body[p]| == h.recs[p].recLen
  }

  lemma Bounds(h: Heap)
    requires Shaped(h)
    ensures forall p :: p in h.recs ==> h.Base() <= p && p + REC_SIZE + h.recs[p].recLen <= h.size
  {
    forall p | p in h.recs
      ensures h.Base() <= p && p + REC_SIZE + h.recs[p].recLen <= h.size
    {
      assert p in h.Lens();
    }
  }

  lemma Apart(h: Heap, p: nat)
    requires Shaped(h) && p in h.recs
    ensures forall q :: q in h.recs && q != p ==>
              q + REC_SIZE + h.recs[q].recLen <= p || p + REC_SIZE + h.recs[p].recLen <= q
  {
    assert p in h.Lens();
    forall q | q in h.recs && q != p
      ensures q + REC_SIZE + h.recs[q].recLen <= p || p + REC_SIZE + h.recs[p].recLen <= q
    {
      assert q in h.Lens();
    }
  }

  /** The image is exactly what the heap says, list heads, headers and payloads. */
  ghost predicate Represents(img: Bytes, h: Heap) {
    && Shaped(h)
    && |img| == h.size
    && Reads(img, FREELIST_TOP, EncodeHeads(h.heads))
    && Holds(img, 0, Headers(h.recs))
    && Holds(img, REC_SIZE, h.body)
  }

  lemma HeadersFrame(img: Bytes, recs: map<nat, Rec>, o: nat, b: Bytes)
    requires o + |b| <= |img| && Holds(img, 0, Headers(recs))
    requires forall p :: p in recs ==> p + REC_SIZE <= o || o + |b| <= p
    ensures Holds(Splice(img, o, b), 0, Headers(recs))
  {
    HoldsFrame(img, 0, Headers(recs), o, b);
  }

  lemma {:induction false} HeadAt(heads: seq<Word>, j: nat)
    requires j < |heads|
    ensures Reads(EncodeHeads(heads), 4 * j, EncodeWord(heads[j]))
  {
    var n := |heads| - 1;
    if j == n {
    } else {
      HeadAt(heads[..n], j);
      ReadsExtend(EncodeHeads(heads[..n]), EncodeWord(heads[n]), 4 * j, EncodeWord(heads[j]));
    }
  }

  lemma {:induction false} HeadUpdate(heads: seq<Word>, j: nat, v: Word)
    requires j < |heads|
    ensures Splice(EncodeHeads(heads), 4 * j, EncodeWord(v)) == EncodeHeads(heads[j := v])
  {
    var n := |heads| - 1;
    var heads' := heads[j := v];
    if j == n {
      assert heads'[..n] == heads[..n];
    } else {
      HeadUpdate(heads[..n], j, v);
      assert heads'[..n] == heads[..n][j := v];
      hide EncodeWord;
      var a, b, c := EncodeHeads(heads[..n]), EncodeWord(heads[n]), EncodeWord(v);
      assert Splice(a + b, 4 * j, c) == Splice(a, 4 * j, c) + b;
    }
  }

  lemma WriteHead(img: Bytes, h: Heap, j: nat, v: Word)
    requires Represents(img, h) && j < |h.heads|
    ensures Represents(Splice(img, HeadOffset(j), EncodeWord(v)), h.SetHead(j, v))
  {
    var b := EncodeWord(v);
    Bounds(h);
    SpliceWithin(img, HeadOffset(j), b, FREELIST_TOP, EncodeHeads(h.heads));
    HeadUpdate(h.heads, j, v);
    HeadersFrame(img, h.recs, HeadOffset(j), b);
    HoldsFrame(img, REC_SIZE, h.body, HeadOffset(j), b);
    assert h.SetHead(j, v).Lens() == h.Lens();
  }

  lemma HoldsLess(img: Bytes, h: Heap, p: nat)
    requires Represents(img, h)
    ensures Holds(img, 0, Headers(h.recs - {p})) && Holds(img, REC_SIZE, h.body - {p})
  {
    hide EncodeRec, EncodeHeads, Reads;
    forall q | q in Headers(h.recs - {p})
      ensures Reads(img, q, Headers(h.recs - {p})[q])
    {
      assert q in Headers(h.recs);
    }
  }

  /** A write that stays inside block `p` keeps the heads and every other block. */
  lemma WriteInside(img: Bytes, h: Heap, p: nat, o: nat, b: Bytes)
    requires Represents(img, h) && p in h.recs
    requires p <= o && o + |b| <= p + REC_SIZE + h.recs[p].recLen
    ensures o + |b| <= |img|
    ensures Reads(Splice(img, o, b), FREELIST_TOP, EncodeHeads(h.heads))
    ensures Holds(Splice(img, o, b), 0, Headers(h.recs - {p}))
    ensures Holds(Splice(img, o, b), REC_SIZE, h.body - {p})
  {
    hide EncodeRec, EncodeWord, Splice;
    Bounds(h);
    Apart(h, p);
    SpliceFrame(img, o, b, FREELIST_TOP, EncodeHeads(h.heads));
    HoldsLess(img, h, p);
    hide Reads;
    HeadersFrame(img, h.recs - {p}, o, b);
    HoldsFrame(img, REC_SIZE, h.body - {p}, o, b);
  }

  /** Headers and payloads known block by block. */
  lemma Assemble(img: Bytes, h: Heap, p: nat)
    requires Shaped(h) && |img| == h.size && p in h.recs
    requires Reads(img, FREELIST_TOP, EncodeHeads(h.heads))
    requires Holds(img, 0, Headers(h.recs - {p})) && Holds(img, REC_SIZE, h.body - {p})
    requires Reads(img, p, EncodeRec(h.recs[p])) && Reads(img, p + REC_SIZE, h.body[p])
    ensures Represents(img, h)
  {
    hide EncodeRec, EncodeHeads, Reads;
    forall q | q in Headers(h.recs)
      ensures Reads(img, q, Headers(h.recs)[q])
    {
      if q != p {
        assert q in Headers(h.recs - {p});
      }
    }
    forall q | q in h.body
      ensures Reads(img, q + REC_SIZE, h.body[q])
    {
      if q != p {
        assert q in h.body - {p};
      }
    }
  }

  lemma WriteRec(img: Bytes, h: Heap, p: nat, r: Rec)
    requires Represents(img, h) && p in h.recs && r.recLen == h.recs[p].recLen
    ensures p + REC_SIZE <= |img|
    ensures Represents(Splice(img, p, EncodeRec(r)), h.SetRec(p, r))
  {
    hide EncodeRec, EncodeHeads, Reads, Splice;
    Bounds(h);
    var h' := h.SetRec(p, r);
    WriteInside(img, h, p, p, EncodeRec(r));
    SpliceReads(img, p, EncodeRec(r));
    SpliceFrame(img, p, EncodeRec(r), p + REC_SIZE, h.body[p]);
    assert h'.recs - {p} == h.recs - {p};
    assert h'.Lens() == h.Lens();
    Assemble(Splice(img, p, EncodeRec(r)), h', p);
  }

  lemma WriteBody(img: Bytes, h: Heap, p: nat, o: nat, b: Bytes)
    requires Represents(img, h) && p in h.recs && o + |b| <= h.recs[p].recLen
    ensures p + REC_SIZE + o + |b| <= |img|
    ensures Represents(Splice(img, p + REC_SIZE + o, b), h.SetBody(p, Splice(h.body[p], o, b)))
  {
    hide EncodeRec, EncodeHeads, Reads, Splice;
    Bounds(h);
    var h' := h.SetBody(p, Splice(h.body[p], o, b));
    var x := p + REC_SIZE + o;
    WriteInside(img, h, p, x, b);
    assert p in Headers(h.recs);
    SpliceFrame(img, x, b, p, EncodeRec(h.recs[p]));
    SpliceWithin(img, x, b, p + REC_SIZE, h.body[p]);
    assert h'.body - {p} == h.body - {p};
    Assemble(Splice(img, x, b), h', p);
  }

  /** The header, key and data of a record written in one go. */
  lemma WriteWhole(img: Bytes, h: Heap, p: nat, r: Rec, b: Bytes)
    requires Represents(img, h) && p in h.recs && r.recLen == h.recs[p].recLen && |b| <= r.recLen
    ensures p + REC_SIZE + |b| <= |img|
    ensures Represents(Splice(img, p, EncodeRec(r) + b), h.SetRec(p, r).SetBody(p, Splice(h.body[p], 0, b)))
  {
    hide EncodeRec, EncodeHeads, Reads, Holds, Splice;
    Bounds(h);
    SpliceConcat(img, p, EncodeRec(r), b);

    WriteRec(img, h, p, r);
    WriteBody(Splice(img, p, EncodeRec(r)), h.SetRec(p, r), p, 0, b);
  }

  /** Writing a smaller header over a block whose payload already holds the header of the remainder. */
  lemma WriteCarve(img: Bytes, h: Heap, p: nat, r: Rec, nr: Rec)
    requires Represents(img, h) && p in h.recs
    requires r.recLen + REC_SIZE + nr.recLen == h.recs[p].recLen
    requires Reads(h.body[p], r.recLen, EncodeRec(nr))
    ensures p + REC_SIZE <= |img|
    ensures Represents(Splice(img, p, EncodeRec(r)), h.Carve(p, r, nr))
  {
    var img' := Splice(img, p, EncodeRec(r));
    var q := p + REC_SIZE + r.recLen;
    WriteInside(img, h, p, p, EncodeRec(r));
    SpliceReads(img, p, EncodeRec(r));
    SpliceFrame(img, p, EncodeRec(r), p + REC_SIZE, h.body[p]);
    CarveSlices(img', p + REC_SIZE, h.body[p], r.recLen, EncodeRec(nr));
    hide EncodeRec, EncodeHeads, Reads, Splice;
    CarveAssemble(img', h, p, r, nr);
  }

  lemma CarveSlices(img: Bytes, x: nat, b: Bytes, n: nat, c: Bytes)
    requires Reads(img, x, b) && |c| == REC_SIZE && Reads(b, n, c)
    ensures Reads(img, x, b[..n]) && Reads(img, x + n, c) && Reads(img, x + n + REC_SIZE, b[n + REC_SIZE..])
  {
    ReadsSplit(img, x, b, n);
    ReadsSplit(img, x + n, b[n..], REC_SIZE);
    assert b[n..][..REC_SIZE] == c && b[n..][REC_SIZE..] == b[n + REC_SIZE..];
  }

  lemma CarveShaped(h: Heap, p: nat, r: Rec, nr: Rec)
    requires Shaped(h) && p in h.recs
    requires r.recLen + REC_SIZE + nr.recLen == h.recs[p].recLen
    ensures p + REC_SIZE + r.recLen !in h.recs
    ensures Shaped(h.Carve(p, r, nr))
  {
    var q := p + REC_SIZE + r.recLen;
    assert p in h.Lens();
    DisjointCut(h.Base(), h.size, h.Lens(), p, r.recLen, nr.recLen);
    assert h.Carve(p, r, nr).Lens() == h.Lens()[p := r.recLen][q := nr.recLen];
  }

  lemma CarveAssemble(img: Bytes, h: Heap, p: nat, r: Rec, nr: Rec)
    requires Shaped(h) && |img| == h.size && p in h.recs
    requires r.recLen + REC_SIZE + nr.recLen == h.recs[p].recLen
    requires Reads(img, FREELIST_TOP, EncodeHeads(h.heads))
    requires Holds(img, 0, Headers(h.recs - {p})) && Holds(img, REC_SIZE, h.body - {p})
    requires Reads(img, p, EncodeRec(r)) && Reads(img, p + REC_SIZE, h.body[p][..r.recLen])
    requires Reads(img, p + REC_SIZE + r.recLen, EncodeRec(nr))
    requires Reads(img, p + REC_SIZE + r.recLen + REC_SIZE, h.body[p][r.recLen + REC_SIZE..])
    ensures Represents(img, h.Carve(p, r, nr))
  {
    hide EncodeRec, EncodeHeads, Reads;
    var h' := h.Carve(p, r, nr);
    var q := p + REC_SIZE + r.recLen;
    CarveShaped(h, p, r, nr);
    forall x | x in Headers(h'.recs - {p})
      ensures Reads(img, x, Headers(h'.recs - {p})[x])
    {
      if x != q {
        assert x in Headers(h.recs - {p});
      }
    }
    forall x | x in h'.body - {p}
      ensures Reads(img, x + REC_SIZE, (h'.body - {p})[x])
    {
      if x != q {
        assert x in h.body - {p};
      }
    }
    Assemble(img, h', p);
  }

  /** The image extended by `junk`, whatever it holds, with a header written over the start of it. */
  lemma WriteGrow(img: Bytes, h: Heap, junk: Bytes, r: Rec)
    requires Represents(img, h)
    requires |junk| == REC_SIZE + r.recLen && h.size + |junk| < WORD_LIMIT
    ensures Represents(Splice(img + junk, |img|, EncodeRec(r)), h.Grow(r, junk[REC_SIZE..]))
  {
    hide EncodeRec, EncodeHeads, Reads, Splice;
    var all := img + junk;
    var p := h.size;
    var b := EncodeRec(r);
    ReadsExtend(img, junk, FREELIST_TOP, EncodeHeads(h.heads));
    HoldsExtend(img, junk, 0, Headers(h.recs));
    HoldsExtend(img, junk, REC_SIZE, h.body);
    ReadsTail(img, junk, REC_SIZE);
    SpliceFrame(all, p, b, FREELIST_TOP, EncodeHeads(h.heads));
    SpliceReads(all, p, b);
    SpliceFrame(all, p, b, p + REC_SIZE, junk[REC_SIZE..]);
    Bounds(h);
    HeadersFrame(all, h.recs, p, b);
    HoldsFrame(all, REC_SIZE, h.body, p, b);
    GrowShaped(h, r, junk[REC_SIZE..]);
    var h' := h.Grow(r, junk[REC_SIZE..]);
    assert h'.recs - {p} == h.recs && h'.body - {p} == h.body;
    Assemble(Splice(all, p, b), h', p);
  }

  lemma GrowShaped(h: Heap, r: Rec, payload: Bytes)
    requires Shaped(h) && |payload| == r.recLen && h.size + REC_SIZE + r.recLen < WORD_LIMIT
    ensures h.size !in h.recs && h.size !in h.body
    ensures Shaped(h.Grow(r, payload))
  {
    DisjointAppend(h.Base(), h.size, h.Lens(), r.recLen);
    assert h.Grow(r, payload).Lens() == h.Lens()[h.size := r.recLen];
  }

  // ----- what a read of the image returns

  lemma ReadHead(img: Bytes, h: Heap, j: nat)
    requires Represents(img, h) && j < |h.heads|
    ensures HeadOffset(j) + 4 <= |img|
    ensures DecodeWord(img[HeadOffset(j)..HeadOffset(j) + 4]) == h.heads[j]
  {
    HeadAt(h.heads, j);
    var all := EncodeHeads(h.heads);
    ReadsPart(img, FREELIST_TOP, all, 4 * j, 4);
    WordRoundTrip(h.heads[j]);
  }

  lemma ReadRec(img: Bytes, h: Heap, p: nat)
    requires Represents(img, h) && p in h.recs
    ensures p + REC_SIZE <= |img| && DecodeRec(img[p..p + REC_SIZE]) == h.recs[p]
  {
    hide EncodeWord, DecodeRec;
    assert p in Headers(h.recs);
    RecRoundTrip(h.recs[p]);
  }

  lemma ReadBody(img: Bytes, h: Heap, p: nat, o: nat, n: nat)
    requires Represents(img, h) && p in h.recs && p in h.body && o + n <= |h.body[p]|
    ensures p + REC_SIZE + o + n <= |img|
    ensures img[p + REC_SIZE + o..p + REC_SIZE + o + n] == h.body[p][o..o + n]
  {
    hide EncodeRec, EncodeHeads;
    ReadsSplit(img, p + REC_SIZE, h.body[p], o);
    ReadsSplit(img, p + REC_SIZE + o, h.body[p][o..], n);
  }

  lemma BodyLength(img: Bytes, h: Heap, p: nat)
    requires Represents(img, h) && p in h.recs
    ensures p in h.body && |h.body[p]| == h.recs[p].recLen
    ensures p + REC_SIZE + h.recs[p].recLen <= |img| < WORD_LIMIT
  {
    hide Reads, Holds, EncodeRec, EncodeHeads;
    Bounds(h);
  }

  lemma ImageSize(img: Bytes, h: Heap)
    requires Represents(img, h)
    ensures |img| == h.size < WORD_LIMIT
  {
  }
}
