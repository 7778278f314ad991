// The lists of a TDB database as its callers can tell them apart: the lengths of the free blocks, in the
// order in which they are tried, and the keys of each chain, the newest first.

module TdbLists {
  import opened Bytes
  import opened TdbHeap
  import opened TdbImage
  import opened TdbOrder

  ghost function BlockLen(h: Heap, p: nat): nat {
    if p in h.recs then h.recs[p].recLen else 0
  }

  ghost function BlockKey(h: Heap, p: nat): Bytes {
    if p in h.recs && p in h.body then KeyOf(h.recs[p], h.body[p]) else []
  }

  ghost function Lens(h: Heap, l: seq<nat>): (r: seq<nat>)
    ensures |r| == |l| && forall i :: 0 <= i < |l| ==> r[i] == BlockLen(h, l[i])
  {
    seq(|l|, i requires 0 <= i < |l| => BlockLen(h, l[i]))
  }

  ghost function Keys(h: Heap, l: seq<nat>): (r: seq<Bytes>)
    ensures |r| == |l| && forall i :: 0 <= i < |l| ==> r[i] == BlockKey(h, l[i])
  {
    seq(|l|, i requires 0 <= i < |l| => BlockKey(h, l[i]))
  }

  ghost function Frees(h: Heap, s: Shape): seq<nat> {
    if s.lists == [] then [] else Lens(h, s.lists[0])
  }

  ghost function Chains(h: Heap, s: Shape): (r: seq<seq<Bytes>>)
    ensures |r| == if s.lists == [] then 0 else |s.lists| - 1
    ensures forall b :: 0 <= b < |r| ==> r[b] == Keys(h, s.lists[b + 1])
  {
    if s.lists == [] then [] else seq(|s.lists| - 1, b requires 0 <= b < |s.lists| - 1 => Keys(h, s.lists[b + 1]))
  }

  datatype Lists = Lists(frees: seq<nat>, chains: seq<seq<Bytes>>)

  ghost function ListsOf(h: Heap, s: Shape): Lists {
    Lists(Frees(h, s), Chains(h, s))
  }

  /** Blocks `l` have the lengths and keys they had. */
  ghost predicate SameBlocks(h: Heap, h': Heap, l: seq<nat>) {
    forall i :: 0 <= i < |l| ==> BlockLen(h', l[i]) == BlockLen(h, l[i]) && BlockKey(h', l[i]) == BlockKey(h, l[i])
  }

  lemma SameViews(h: Heap, s: Shape, h': Heap, s': Shape)
    requires s'.lists == s.lists && forall j :: 0 <= j < |s.lists| ==> SameBlocks(h, h', s.lists[j])
    ensures Frees(h', s') == Frees(h, s) && Chains(h', s') == Chains(h, s)
  {
    forall b | 0 <= b < |s.lists| - 1
      ensures Chains(h', s')[b] == Chains(h, s)[b]
    {
      assert SameBlocks(h, h', s.lists[b + 1]);
    }
    assert s.lists != [] ==> SameBlocks(h, h', s.lists[0]);
  }

  /** Chain `b` alone becomes `c`, and the free list as given. */
  lemma OneChain(h: Heap, s: Shape, h': Heap, s': Shape, b: nat)
    requires b + 1 < |s.lists| == |s'.lists| && s'.lists == s.lists[b + 1 := s'.lists[b + 1]]
    requires forall j :: 0 <= j < |s.lists| ==> SameBlocks(h, h', s.lists[j])
    ensures Frees(h', s') == Frees(h, s)
    ensures Chains(h', s') == Chains(h, s)[b := Keys(h', s'.lists[b + 1])]
  {
    forall c | 0 <= c < |s.lists| - 1 && c != b
      ensures Chains(h', s')[c] == Chains(h, s)[c]
    {
      assert SameBlocks(h, h', s.lists[c + 1]);
    }
    assert SameBlocks(h, h', s.lists[0]) && s'.lists[0] == s.lists[0];
  }

  lemma FreeAlone(h: Heap, s: Shape, h': Heap, s': Shape)
    requires 0 < |s.lists| == |s'.lists| && s'.lists == s.lists[0 := s'.lists[0]]
    requires forall j :: 0 < j < |s.lists| ==> SameBlocks(h, h', s.lists[j])
    ensures Frees(h', s') == Lens(h', s'.lists[0]) && Chains(h', s') == Chains(h, s)
  {
    forall b | 0 <= b < |s.lists| - 1
      ensures Chains(h', s')[b] == Chains(h, s)[b]
    {
      assert SameBlocks(h, h', s.lists[b + 1]);
    }
  }

  lemma ViewsEmpty(n: nat)
    ensures ListsOf(EmptyHeap(n), EmptyShape(n)) == Lists([], seq(n, _ => []))
  {
  }

  // ----- the order of a walk

  function Concat(chains: seq<seq<Bytes>>): seq<Bytes> {
    if chains == [] then [] else Concat(chains[..|chains| - 1]) + chains[|chains| - 1]
  }

  lemma KeysConcat(h: Heap, a: seq<nat>, b: seq<nat>)
    ensures Keys(h, a + b) == Keys(h, a) + Keys(h, b)
  {
    hide BlockKey;
  }

  lemma {:induction false} BelowKeys(h: Heap, s: Shape, b: nat)
    requires b < |s.lists|
    ensures Keys(h, BlocksBelow(s, b)) == Concat(Chains(h, s)[..b])
  {
    hide BlockKey, Chains;
    if b == 0 {
    } else {
      BelowKeys(h, s, b - 1);
      var chains := Chains(h, s);
      assert chains[..b][..b - 1] == chains[..b - 1] && chains[b - 1] == Keys(h, s.lists[b]);
      KeysConcat(h, BlocksBelow(s, b - 1), s.lists[b]);
    }
  }

  /** The keys of the listing are those of the chains, one after the other. */
  lemma ListedKeys(h: Heap, s: Shape)
    ensures |ListedPairs(h, s)| == |Concat(Chains(h, s))|
    ensures forall i :: 0 <= i < |ListedPairs(h, s)| ==> ListedPairs(h, s)[i].0 == Concat(Chains(h, s))[i]
  {
    if s.lists != [] {
      BelowKeys(h, s, |s.lists| - 1);
      assert Chains(h, s)[..|s.lists| - 1] == Chains(h, s);
      hide BlocksBelow;
      assert forall p :: PairOf(h, p).0 == BlockKey(h, p);
    }
  }

  // ----- the steps

  lemma ViewsPushFree(h: Heap, s: Shape, p: nat)
    requires |s.lists| > 0 && |h.heads| > 0 && p < WORD_LIMIT
    ensures Frees(h.SetHead(0, p), s.Push(0, p)) == [BlockLen(h, p)] + Frees(h, s)
    ensures Chains(h.SetHead(0, p), s.Push(0, p)) == Chains(h, s)
  {
    FreeAlone(h, s, h.SetHead(0, p), s.Push(0, p));
  }

  lemma ViewsPush(h: Heap, s: Shape, b: nat, p: nat, where: map<Bytes, nat>)
    requires b + 1 < |s.lists| == |h.heads| && p < WORD_LIMIT
    ensures var h', s' := h.SetHead(b + 1, p), s.Push(b + 1, p).(where := where);
            && Frees(h', s') == Frees(h, s)
            && Chains(h', s') == Chains(h, s)[b := [BlockKey(h, p)] + Chains(h, s)[b]]
  {
    var h', s' := h.SetHead(b + 1, p), s.Push(b + 1, p).(where := where);
    OneChain(h, s, h', s', b);
    assert Keys(h', s'.lists[b + 1]) == [BlockKey(h, p)] + Keys(h, s.lists[b + 1]);
  }

  /** Without the `i`-th. */
  function Cut<T>(l: seq<T>, i: nat): seq<T>
    requires i < |l|
  {
    l[..i] + l[i + 1..]
  }

  lemma CutViews(h: Heap, l: seq<nat>, i: nat)
    requires i < |l|
    ensures Lens(h, Cut(l, i)) == Cut(Lens(h, l), i) && Keys(h, Cut(l, i)) == Cut(Keys(h, l), i)
  {
    hide BlockLen, BlockKey;
  }

  lemma BypassBlocks(h: Heap, s: Shape, j: nat, i: nat, l: seq<nat>)
    requires OnList(h, s, j, i)
    ensures SameBlocks(h, Bypass(h, s, j, i), l)
  {
  }

  lemma Dropped(s: Shape, j: nat, i: nat)
    requires j < |s.lists| && i < |s.lists[j]|
    ensures s.Drop(j, i).lists == s.lists[j := Cut(s.lists[j], i)]
  {
  }

  lemma ViewsDropFree(h: Heap, s: Shape, i: nat)
    requires OnList(h, s, 0, i)
    ensures Frees(Bypass(h, s, 0, i), s.Drop(0, i)) == Cut(Frees(h, s), i)
    ensures Chains(Bypass(h, s, 0, i), s.Drop(0, i)) == Chains(h, s)
  {
    hide Bypass, BlockLen, BlockKey, Cut;
    var h', s' := Bypass(h, s, 0, i), s.Drop(0, i);
    forall j | 0 <= j < |s.lists|
      ensures SameBlocks(h, h', s.lists[j])
    {
      BypassBlocks(h, s, 0, i, s.lists[j]);
    }
    FreeAlone(h, s, h', s');
    Dropped(s, 0, i);
    CutViews(h', s.lists[0], i);
    assert Lens(h', s.lists[0]) == Lens(h, s.lists[0]);
  }

  lemma ViewsDrop(h: Heap, s: Shape, b: nat, i: nat, where: map<Bytes, nat>)
    requires OnList(h, s, b + 1, i)
    ensures var h', s' := Bypass(h, s, b + 1, i), s.Drop(b + 1, i).(where := where);
            && Frees(h', s') == Frees(h, s) && Chains(h', s') == Chains(h, s)[b := Cut(Chains(h, s)[b], i)]
  {
    hide Bypass, BlockLen, BlockKey, Cut;
    var h', s' := Bypass(h, s, b + 1, i), s.Drop(b + 1, i).(where := where);
    forall j | 0 <= j < |s.lists|
      ensures SameBlocks(h, h', s.lists[j])
    {
      BypassBlocks(h, s, b + 1, i, s.lists[j]);
    }
    OneChain(h, s, h', s', b);
    assert SameBlocks(h, h', s.lists[b + 1]);
    Dropped(s, b + 1, i);
    CutViews(h', s.lists[b + 1], i);
    assert Keys(h', s.lists[b + 1]) == Keys(h, s.lists[b + 1]);
  }

  /** Blocks that are on a list, and not the one or two that change. */
  lemma Others(s: Shape, j: nat, p: nat)
    requires Owned(s) && j < |s.lists| && (p in s.owner ==> s.owner[p] != j)
    ensures forall i :: 0 <= i < |s.lists[j]| ==> s.lists[j][i] != p
  {
  }

  lemma ViewsLoose(h: Heap, s: Shape, p: nat, r: Rec, b: Bytes)
    requires Owned(s) && p in s.owner && s.owner[p] == LOOSE
    ensures var h' := h.SetRec(p, r).SetBody(p, b);
            Frees(h', s) == Frees(h, s) && Chains(h', s) == Chains(h, s)
  {
    hide Owned;
    var h' := h.SetRec(p, r).SetBody(p, b);
    forall j | 0 <= j < |s.lists|
      ensures SameBlocks(h, h', s.lists[j])
    {
      Others(s, j, p);
    }
    SameViews(h, s, h', s);
  }

  lemma ViewsFreeBody(h: Heap, s: Shape, p: nat, b: Bytes)
    requires Owned(s) && p in s.owner && s.owner[p] == 0 && s.lists != []
    ensures Frees(h.SetBody(p, b), s) == Frees(h, s) && Chains(h.SetBody(p, b), s) == Chains(h, s)
  {
    hide Owned;
    var h' := h.SetBody(p, b);
    forall j | 0 < j < |s.lists|
      ensures SameBlocks(h, h', s.lists[j])
    {
      Others(s, j, p);
    }
    FreeAlone(h, s, h', s);
    assert Lens(h', s.lists[0]) == Lens(h, s.lists[0]);
  }

  lemma ViewsData(h: Heap, s: Shape, p: nat, data: Bytes)
    requires p in h.recs && p in h.body && h.recs[p].keyLen + |data| <= |h.body[p]| < WORD_LIMIT
    ensures Frees(Redata(h, p, data), s) == Frees(h, s) && Chains(Redata(h, p, data), s) == Chains(h, s)
  {
    var h' := Redata(h, p, data);
    SpliceKeepsKey(h.body[p], h.recs[p].keyLen, data);
    assert BlockKey(h', p) == BlockKey(h, p);
    SameViews(h, s, h', s);
  }

  lemma ViewsGrow(h: Heap, s: Shape, r: Rec, payload: Bytes, owner: map<nat, int>)
    requires Owned(s) && h.size !in s.owner
    ensures var h', s' := h.Grow(r, payload), s.(owner := owner);
            Frees(h', s') == Frees(h, s) && Chains(h', s') == Chains(h, s)
  {
    hide Owned;
    var h', s' := h.Grow(r, payload), s.(owner := owner);
    forall j | 0 <= j < |s.lists|
      ensures SameBlocks(h, h', s.lists[j])
    {
      Others(s, j, h.size);
    }
    SameViews(h, s, h', s');
  }

  /** Splitting the `i`-th free block puts the rest of it behind it. */
  lemma ViewsCut(h: Heap, s: Shape, i: nat, p: nat, r: Rec, nr: Rec)
    requires Owned(s) && OnList(h, s, 0, i) && p == s.lists[0][i] && p in h.body && r.recLen + REC_SIZE <= |h.body[p]|
    requires r.next == p + REC_SIZE + r.recLen && r.next !in s.owner
    ensures var h', s' := h.Carve(p, r, nr), s.InsertAfter(0, i, r.next);
            && Frees(h', s') == Frees(h, s)[..i] + [r.recLen, nr.recLen] + Frees(h, s)[i + 1..]
            && Chains(h', s') == Chains(h, s)
  {
    assert s.owner[p] == 0;
    var l := s.lists[0];
    CutLens(h, s, i, p, r, nr);
    hide Owned;
    var h', s' := h.Carve(p, r, nr), s.InsertAfter(0, i, r.next);
    forall j | 0 < j < |s.lists|
      ensures SameBlocks(h, h', s.lists[j])
    {
      Others(s, j, p);
      Others(s, j, r.next);
    }
    FreeAlone(h, s, h', s');
  }

  lemma CutLens(h: Heap, s: Shape, i: nat, p: nat, r: Rec, nr: Rec)
    requires Owned(s) && OnList(h, s, 0, i) && p == s.lists[0][i] && p in h.body && r.recLen + REC_SIZE <= |h.body[p]|
    requires r.next == p + REC_SIZE + r.recLen && r.next !in s.owner
    ensures var l := s.lists[0];
            Lens(h.Carve(p, r, nr), l[..i + 1] + [r.next] + l[i + 1..]) ==
            Lens(h, l)[..i] + [r.recLen, nr.recLen] + Lens(h, l)[i + 1..]
  {
    var l, h' := s.lists[0], h.Carve(p, r, nr);
    assert NoDup(l);
    Others(s, 0, r.next);
    hide Owned, NoDup;
    forall x | 0 <= x < |l| && x != i
      ensures BlockLen(h', l[x]) == BlockLen(h, l[x])
    {
      Differ(l, x, i);
    }
  }
}
