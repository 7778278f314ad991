// The order in which the chains are walked, and that it lists every stored record once.

module TdbOrder {
  import opened Bytes
  import opened TdbHeap
  import opened TdbImage

  /** The blocks on the chains of the buckets below `b`, chain after chain. */
  ghost function BlocksBelow(s: Shape, b: nat): (l: seq<nat>) {
    if b == 0 || b >= |s.lists| then [] else BlocksBelow(s, b - 1) + s.lists[b]
  }

  lemma {:induction false} BlocksBelowOwned(s: Shape, b: nat)
    requires Owned(s) && b < |s.lists|
    ensures NoDup(BlocksBelow(s, b))
    ensures forall p :: p in BlocksBelow(s, b) <==> p in s.owner && 0 < s.owner[p] <= b
  {
    if b == 0 {
    } else {
      BlocksBelowOwned(s, b - 1);
      var rest, l := BlocksBelow(s, b - 1), s.lists[b];
      assert NoDup(l);
      forall p
        ensures p in l <==> p in s.owner && s.owner[p] == b
      {
        if p in l {
          var i :| 0 <= i < |l| && l[i] == p;
        }
      }
      var all := rest + l;
      forall i, j | 0 <= i < j < |all|
        ensures all[i] != all[j]
      {
        assert j < |rest| ==> rest[i] != rest[j];
        assert i < |rest| ==> all[i] in rest;
        assert j >= |rest| ==> all[j] in l;
      }
    }
  }

  ghost function PairOf(h: Heap, p: nat): (Bytes, Bytes) {
    if p in h.recs && p in h.body then (KeyOf(h.recs[p], h.body[p]), DataOf(h.recs[p], h.body[p])) else ([], [])
  }

  /** The key and data of each block of a list. */
  ghost function Pairs(h: Heap, l: seq<nat>): (r: seq<(Bytes, Bytes)>)
    ensures |r| == |l|
  {
    seq(|l|, i requires 0 <= i < |l| => PairOf(h, l[i]))
  }

  /** Every stored pair in the order of the chains, from bucket 0 to the last. */
  ghost function ListedPairs(h: Heap, s: Shape): seq<(Bytes, Bytes)> {
    if |s.lists| == 0 then [] else Pairs(h, BlocksBelow(s, |s.lists| - 1))
  }

  /** No key twice, and every pair is an entry of `m`. */
  ghost predicate Listing(v: seq<(Bytes, Bytes)>, m: map<Bytes, Entry>) {
    && (forall i, j :: 0 <= i < j < |v| ==> v[i].0 != v[j].0)
    && (forall i :: 0 <= i < |v| ==> v[i].0 in m && m[v[i].0].data == v[i].1)
  }

  lemma LivePairs(h: Heap, s: Shape, hash: Bytes -> Word, l: seq<nat>)
    requires WellFormed(h, s, hash) && NoDup(l)
    requires forall i :: 0 <= i < |l| ==> l[i] in s.owner && s.owner[l[i]] > 0
    ensures Listing(Pairs(h, l), Contents(h, s))
  {
    hide WellFormed, Contents, KeyOf, DataOf, NoDup;
    forall i | 0 <= i < |l|
      ensures l[i] in h.recs && l[i] in h.body
      ensures PairOf(h, l[i]).0 in s.where && s.where[PairOf(h, l[i]).0] == l[i]
      ensures PairOf(h, l[i]).0 in Contents(h, s) && Contents(h, s)[PairOf(h, l[i]).0].data == PairOf(h, l[i]).1
    {
      LivePair(h, s, hash, l[i]);
    }
    var v := Pairs(h, l);
    forall i, j | 0 <= i < j < |v|
      ensures v[i].0 != v[j].0
    {
      Differ(l, i, j);
    }
  }

  lemma LivePair(h: Heap, s: Shape, hash: Bytes -> Word, p: nat)
    requires WellFormed(h, s, hash) && p in s.owner && s.owner[p] > 0
    ensures p in h.recs && p in h.body
    ensures PairOf(h, p).0 in s.where && s.where[PairOf(h, p).0] == p
    ensures PairOf(h, p).0 in Contents(h, s) && Contents(h, s)[PairOf(h, p).0].data == PairOf(h, p).1
  {
    LiveNode(h, s, hash, p);
    LiveData(h, s, hash, p);
  }

  lemma BelowPairs(h: Heap, s: Shape, hash: Bytes -> Word, b: nat)
    requires WellFormed(h, s, hash) && b < |s.lists|
    ensures NoDup(BlocksBelow(s, b))
    ensures forall p :: p in BlocksBelow(s, b) <==> p in s.owner && 0 < s.owner[p] <= b
    ensures Listing(Pairs(h, BlocksBelow(s, b)), Contents(h, s))
  {
    BlocksBelowOwned(s, b);
    hide WellFormed, Contents, BlocksBelow, PairOf;
    var l := BlocksBelow(s, b);
    assert forall i :: 0 <= i < |l| ==> l[i] in l;
    LivePairs(h, s, hash, l);
  }

  /** Taken over all buckets, the chains list the whole map, each entry once. */
  lemma AllPairs(h: Heap, s: Shape, hash: Bytes -> Word)
    requires WellFormed(h, s, hash)
    ensures Listing(ListedPairs(h, s), Contents(h, s))
    ensures forall k :: k in Contents(h, s) ==> exists i :: 0 <= i < |ListedPairs(h, s)| && ListedPairs(h, s)[i].0 == k
    ensures |ListedPairs(h, s)| == |Contents(h, s)|
  {
    hide WellFormed, Contents, KeyOf, DataOf, NoDup, BlocksBelow;
    ListCount(h, s, hash);
    BelowPairs(h, s, hash, |s.lists| - 1);
    var v := ListedPairs(h, s);
    forall k | k in Contents(h, s)
      ensures exists i :: 0 <= i < |v| && v[i].0 == k
    {
      var i := PlaceOf(h, s, hash, k);
    }
    ListingSize(v, Contents(h, s));
  }

  lemma PlaceOf(h: Heap, s: Shape, hash: Bytes -> Word, k: Bytes) returns (i: nat)
    requires WellFormed(h, s, hash) && k in Contents(h, s)
    requires |s.lists| == |h.heads| >= 2
    requires forall p :: p in BlocksBelow(s, |s.lists| - 1) <==> p in s.owner && 0 < s.owner[p] <= |s.lists| - 1
    ensures i < |ListedPairs(h, s)| && ListedPairs(h, s)[i].0 == k
  {
    hide WellFormed, Contents, KeyOf, DataOf, NoDup, BlocksBelow;
    var l := BlocksBelow(s, |s.lists| - 1);
    ContentsKeys(h, s, hash);
    WhereLive(h, s, hash, k);
    assert s.where[k] in l;
    i :| 0 <= i < |l| && l[i] == s.where[k];
  }

  /** A listing of a map that has every key has as many entries as the map. */
  lemma {:induction false} ListingSize(v: seq<(Bytes, Bytes)>, m: map<Bytes, Entry>)
    requires Listing(v, m)
    requires forall k :: k in m ==> exists i :: 0 <= i < |v| && v[i].0 == k
    ensures |v| == |m|
  {
    if v == [] {
      assert m == map[];
    } else {
      var n := |v| - 1;
      var m' := m - {v[n].0};
      assert forall i :: 0 <= i < n ==> v[..n][i] == v[i];
      forall k | k in m'
        ensures exists i :: 0 <= i < |v[..n]| && v[..n][i].0 == k
      {
        var i :| 0 <= i < |v| && v[i].0 == k;
        assert v[..n][i].0 == k;
      }
      ListingSize(v[..n], m');
      assert m'.Keys == m.Keys - {v[n].0};
      assert |m'.Keys| == |m'| && |m.Keys| == |m|;
    }
  }

  lemma BelowNone(s: Shape)
    ensures BlocksBelow(s, 0) == []
  {
  }

  lemma {:induction false} BelowPrefix(s: Shape, b: nat, n: nat)
    requires b <= n < |s.lists|
    ensures BlocksBelow(s, b) <= BlocksBelow(s, n)
  {
    if b == n {
    } else {
      BelowPrefix(s, b, n - 1);
    }
  }

  lemma BelowLength(s: Shape, b: nat)
    requires b + 1 < |s.lists|
    ensures |BlocksBelow(s, b + 1)| == |BlocksBelow(s, b)| + |s.lists[b + 1]|
  {
  }

  /** Where the `i`-th block of bucket `b` comes in the order of all chains. */
  lemma BelowAt(s: Shape, b: nat, i: nat, n: nat)
    requires b < n < |s.lists| && i < |s.lists[b + 1]|
    ensures |BlocksBelow(s, b)| + i < |BlocksBelow(s, n)|
    ensures BlocksBelow(s, n)[|BlocksBelow(s, b)| + i] == s.lists[b + 1][i]
  {
    BelowPrefix(s, b + 1, n);
    assert BlocksBelow(s, b + 1) == BlocksBelow(s, b) + s.lists[b + 1];
  }

  /** The callback has let every prefix of `v` of length 1 to `n` pass. */
  ghost predicate Quiet(stop: seq<(Bytes, Bytes)> -> bool, v: seq<(Bytes, Bytes)>, n: int) {
    forall i :: 0 < i <= n && i <= |v| ==> !stop(v[..i])
  }

  lemma QuietMore(stop: seq<(Bytes, Bytes)> -> bool, v: seq<(Bytes, Bytes)>, p: (Bytes, Bytes))
    requires Quiet(stop, v, |v|)
    ensures Quiet(stop, v + [p], |v|)
    ensures !stop(v + [p]) ==> Quiet(stop, v + [p], |v| + 1)
  {
    forall i | 0 < i <= |v|
      ensures !stop((v + [p])[..i])
    {
      assert (v + [p])[..i] == v[..i];
    }
    assert (v + [p])[..|v| + 1] == v + [p];
  }

  /** The pair at place `i` of the chain of bucket `b`, as a place in the whole listing. */
  lemma PairAt(h: Heap, s: Shape, hash: Bytes -> Word, b: nat, i: nat)
    requires WellFormed(h, s, hash) && b + 1 < |s.lists| && i < |s.lists[b + 1]|
    ensures var p := s.lists[b + 1][i]; var n := |BlocksBelow(s, b)| + i;
            && p in s.owner && s.owner[p] > 0 && p in h.recs && p > 0
            && h.recs[p].next == Nth(s.lists[b + 1], i + 1)
            && (i + 1 < |s.lists[b + 1]| ==> s.lists[b + 1][i + 1] > 0)
            && n < |ListedPairs(h, s)| && ListedPairs(h, s)[n] == PairOf(h, p)
  {
    hide WellFormed, OnList, PairOf, BlocksBelow;
    NodeOf(h, s, hash, b + 1, i);
    BelowAt(s, b, i, |s.lists| - 1);
  }

  /** A place of the listing lies before the last bucket exactly when its key hashes to another bucket. */
  lemma PlaceBucket(h: Heap, s: Shape, hash: Bytes -> Word, y: nat)
    requires WellFormed(h, s, hash) && y < |ListedPairs(h, s)|
    ensures |s.lists| == |h.heads| >= 2
    ensures y < |BlocksBelow(s, |s.lists| - 2)| <==>
            ListOf(|h.heads| - 1, hash(ListedPairs(h, s)[y].0)) < |h.heads| - 1
  {
    hide WellFormed, KeyOf, DataOf, BlocksBelow;
    ListCount(h, s, hash);
    var n := |s.lists| - 1;
    BelowPairs(h, s, hash, n);
    BelowPairs(h, s, hash, n - 1);
    BelowPrefix(s, n - 1, n);
    var l, l' := BlocksBelow(s, n), BlocksBelow(s, n - 1);
    var p := l[y];
    assert p in l;
    LivePair(h, s, hash, p);
    WhereLive(h, s, hash, PairOf(h, p).0);
    if y < |l'| {
      assert l'[y] == p;
    } else {
      forall i | 0 <= i < |l'|
        ensures l'[i] != p
      {
        Differ(l, i, y);
      }
    }
  }
}
