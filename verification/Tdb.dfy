// The TDB record store in memory mode: one byte image, written in place.

module Tdb {
  import opened Bytes
  import opened Options
  import opened TdbHeap
  import opened TdbImage
  import opened TdbLists
  import opened TdbModel
  import opened TdbOrder
  import opened TdbPool
  import opened TdbTrace

  datatype Ecode = Success | Corrupt | Io | Lock | Oom | Exists

  const TDB_INSERT := 2
  const DEFAULT_HASH_SIZE := 128

  class Database {
    const hashSize: nat            // header.hash_size
    const hash: Bytes -> Word      // tdb_hash, any function of the key bytes
    var mapPtr: array<Byte>
    var mapSize: nat
    var locked: array<int>
    var ecode: Ecode

    ghost var heap: Heap
    ghost var shape: Shape
    ghost var trace: Trace

    /** The image holds a well-formed database. */
    ghost predicate Intact()
      reads `mapPtr, `mapSize, `heap, `shape, mapPtr
    {
      && hashSize >= 1
      && mapSize == mapPtr.Length
      && |heap.heads| == hashSize + 1
      && Represents(mapPtr[..], heap)
      && WellFormed(heap, shape, hash)
    }

    ghost predicate Counted()
      reads `locked, locked
    {
      && hashSize >= 1 && locked.Length == hashSize + 1
      && forall l :: 0 <= l < locked.Length ==> locked[l] >= 0
    }

    ghost predicate Valid()
      reads this, mapPtr, locked
    {
      Intact() && Counted()
    }

    /** BUCKET: the chain that a hash value belongs to. */
    function Bucket(hashv: Word): (b: nat)
      requires hashSize >= 1
      ensures b < hashSize && b + 1 == ListOf(hashSize, hashv)
    {
      hashv % hashSize
    }

    /** The map that the database stands for. */
    ghost function Stored(): map<Bytes, Entry>
      reads `heap, `shape
    {
      Contents(heap, shape)
    }

    /** The free list and the chains, in their order. */
    ghost function InOrder(): Lists
      reads `heap, `shape
    {
      ListsOf(heap, shape)
    }

    /** All that callers can tell. */
    ghost function Now(): Model
      reads `heap, `shape, `mapSize
    {
      Model(Stored(), InOrder().chains, Pool(mapSize, InOrder().frees))
    }

    /** tdb_open without a file: an empty database. A hash size of 0 stands for the default. */
    constructor (size: nat, hash: Bytes -> Word)
      requires HeadOffset(size + 128 + 1) < WORD_LIMIT
      ensures Valid() && Stored() == map[] && Loose(shape) == {} && trace == []
      ensures hashSize == (if size == 0 then 128 else size) && this.hash == hash
      ensures hashSize > 0 && Now() == Fresh(hashSize) && ecode == Success
      ensures forall l :: 0 <= l < locked.Length ==> locked[l] == 0
      ensures fresh(mapPtr) && fresh(locked)
    {
      hide WellFormed, Represents, EmptyHeap, EmptyShape, Contents, Loose, ListsOf;
      var n := if size == 0 then DEFAULT_HASH_SIZE else size;
      hashSize := n;
      this.hash := hash;
      var bytes := NewDatabaseSize(n);
      mapPtr := new Byte[bytes](_ => 0);
      mapSize := bytes;
      locked := new int[n + 1](_ => 0);
      ecode := Success;
      heap, shape, trace := EmptyHeap(n), EmptyShape(n), [];
      new;
      EmptyWellFormed(n, hash);
      EmptyRepresents(n, mapPtr[..]);
      ViewsEmpty(n);
    }

    /** The size that tdb_new_database adds up: the header, then the free-list head and the chain heads by sixteens. */
    static method NewDatabaseSize(hashSize: nat) returns (size: nat)
      ensures size == 40 + 4 * (hashSize + 1)
    {
      size := FREELIST_TOP;
      var i := 0;
      while hashSize + 1 - i >= 16
        invariant i <= hashSize + 1 && size == HeadOffset(i)
      {
        size := size + 16 * 4;
        i := i + 16;
      }
      while i < hashSize + 1
        invariant i <= hashSize + 1 && size == HeadOffset(i)
      {
        size := size + 4;
        i := i + 1;
      }
    }

    // ----- locks

    method TdbLock(list: int) returns (rc: int)
      requires Counted()
      modifies this`trace, locked
      ensures Counted()
      ensures list < -1 || list >= hashSize ==> rc == -1 && locked[..] == old(locked[..]) && trace == old(trace)
      ensures -1 <= list < hashSize ==>
                && rc == 0 && trace == old(trace) + [Acquire(list)]
                && locked[..] == old(locked[..])[list + 1 := old(locked[list + 1]) + 1]
    {
      if list < -1 || list >= hashSize {
        return -1;
      }
      locked[list + 1] := locked[list + 1] + 1;
      trace := trace + [Acquire(list)];
      return 0;
    }

    method TdbUnlock(list: int) returns (rc: int)
      requires Counted()
      modifies this`trace, this`ecode, locked
      ensures Counted()
      ensures list < -1 || list >= hashSize ==>
                rc == -1 && locked[..] == old(locked[..]) && trace == old(trace) && ecode == old(ecode)
      ensures -1 <= list < hashSize && old(locked[list + 1]) == 0 ==>
                rc == -1 && locked[..] == old(locked[..]) && trace == old(trace) && ecode == Lock
      ensures -1 <= list < hashSize && old(locked[list + 1]) != 0 ==>
                && rc == 0 && trace == old(trace) + [Release(list)] && ecode == old(ecode)
                && locked[..] == old(locked[..])[list + 1 := old(locked[list + 1]) - 1]
    {
      if list < -1 || list >= hashSize {
        return -1;
      }
      if locked[list + 1] == 0 {
        ecode := Lock;
        return -1;
      }
      locked[list + 1] := locked[list + 1] - 1;
      trace := trace + [Release(list)];
      return 0;
    }

    // ----- reads and writes of the image

    method TdbWrite(offset: nat, buf: Bytes)
      requires mapSize == mapPtr.Length && offset + |buf| <= mapSize
      modifies mapPtr
      ensures mapPtr[..] == Splice(old(mapPtr[..]), offset, buf)
    {
      forall i | 0 <= i < |buf| {
        mapPtr[offset + i] := buf[i];
      }
    }

    method TdbRead(offset: nat, len: nat) returns (buf: Bytes)
      requires mapSize == mapPtr.Length && offset + len <= mapSize
      ensures buf == mapPtr[..][offset..offset + len]
    {
      buf := mapPtr[offset..offset + len];
    }

    /** ofs_read of the head of list `j`. */
    method OfsRead(j: nat) returns (d: Word)
      requires Intact() && j <= hashSize
      ensures d == heap.heads[j]
    {
      hide WellFormed, Represents;
      ReadHead(mapPtr[..], heap, j);
      var buf := TdbRead(HeadOffset(j), 4);
      d := DecodeWord(buf);
    }

    /** ofs_write of the head of list `j`. */
    method OfsWrite(j: nat, d: Word)
      requires mapSize == mapPtr.Length && j < |heap.heads| && Represents(mapPtr[..], heap)
      modifies this`heap, mapPtr
      ensures heap == old(heap).SetHead(j, d) && Represents(mapPtr[..], heap)
    {
      ReadHead(mapPtr[..], heap, j);
      WriteHead(mapPtr[..], heap, j, d);
      TdbWrite(HeadOffset(j), EncodeWord(d));
      heap := heap.SetHead(j, d);
    }

    /** Reading the header of a block without looking at its magic. */
    method RecFetch(p: nat) returns (rec: Rec)
      requires mapSize == mapPtr.Length && Represents(mapPtr[..], heap) && p in heap.recs
      ensures rec == heap.recs[p]
    {
      ReadRec(mapPtr[..], heap, p);
      var buf := TdbRead(p, REC_SIZE);
      rec := DecodeRec(buf);
    }

    /** rec_read: the header of a chained block, refused when its magic is wrong. */
    method RecRead(p: nat) returns (rc: int, rec: Rec)
      requires mapSize == mapPtr.Length && Represents(mapPtr[..], heap) && p in heap.recs
      modifies this`ecode
      ensures rec == heap.recs[p]
      ensures rec.magic == 0x26011999 ==> rc == 0 && ecode == old(ecode)
      ensures rec.magic != 0x26011999 ==> rc == -1 && ecode == Corrupt
    {
      rec := RecFetch(p);
      if rec.magic != TDB_MAGIC {
        ecode := Corrupt;
        return -1, rec;
      }
      rc := 0;
    }

    /** rec_write over a block whose length stays as it is. */
    method RecWrite(p: nat, rec: Rec)
      requires mapSize == mapPtr.Length && Represents(mapPtr[..], heap) && p in heap.recs
      requires rec.recLen == heap.recs[p].recLen
      modifies this`heap, mapPtr
      ensures heap == old(heap).SetRec(p, rec) && Represents(mapPtr[..], heap)
    {
      hide EncodeRec, Represents, Splice;
      WriteRec(mapPtr[..], heap, p, rec);
      TdbWrite(p, EncodeRec(rec));
      heap := heap.SetRec(p, rec);
    }

    // ----- lookups

    /** Whether a chained record stores `key`: hash and length first, then the key bytes themselves. */
    method SameKey(p: nat, rec: Rec, key: Bytes, hashv: Word) returns (hit: bool)
      requires Intact() && hashv == hash(key)
      requires p in shape.owner && shape.owner[p] > 0 && p in heap.recs && rec == heap.recs[p]
      ensures p in heap.body && (hit <==> KeyOf(rec, heap.body[p]) == key)
    {
      hide Represents, WellFormed, KeyOf, LiveIn;
      LiveNode(heap, shape, hash, p);
      if hashv == rec.fullHash && |key| == rec.keyLen {
        ReadBody(mapPtr[..], heap, p, 0, rec.keyLen);
        var k := TdbRead(p + REC_SIZE, rec.keyLen);
        return key == k;
      }
      return false;
    }

    method TdbFind(key: Bytes, hashv: Word) returns (recPtr: nat, rec: Rec)
      requires Intact() && hashv == hash(key)
      modifies this`ecode
      ensures ecode == old(ecode)
      ensures recPtr == 0 ==> key !in shape.where && key !in Stored()
      ensures recPtr != 0 ==>
                && key in shape.where && key in Stored() && shape.where[key] == recPtr
                && recPtr in heap.recs && rec == heap.recs[recPtr]
    {
      hide Represents, WellFormed, KeyOf, Contents;
      ghost var at := 0;
      ghost var l := ChainOf(key);
      recPtr := OfsRead(1 + Bucket(hashv));
      rec := Rec(0, 0, 0, 0, 0, 0);
      while recPtr != 0
        invariant ecode == old(ecode)
        invariant at <= |l| && recPtr == Nth(l, at) && (at < |l| ==> recPtr != 0)
        invariant forall i :: 0 <= i < at && key in shape.where ==> shape.where[key] != l[i]
        decreases |l| - at
      {
        ChainNode(heap, shape, hash, key, at);
        var rc;
        rc, rec := RecRead(recPtr);
        if rc == -1 {
          assert false;
        }
        var hit := SameKey(recPtr, rec, key, hashv);
        if hit {
          ContentsKeys(heap, shape, hash);
          return;
        }
        recPtr := rec.next;
        at := at + 1;
      }
      ChainExhausted(heap, shape, hash, key);
    }

    /** The blocks of the chain that `key` hashes to. */
    ghost function ChainOf(key: Bytes): (l: seq<nat>)
      requires Intact()
      reads `mapPtr, `mapSize, `heap, `shape, mapPtr
      ensures |shape.lists| == |heap.heads| == hashSize + 1
      ensures heap.heads[ListOf(hashSize, hash(key))] == Nth(l, 0) && (l != [] ==> l[0] != 0)
    {
      HeadOf(heap, shape, hash, ListOf(hashSize, hash(key)));
      shape.lists[ListOf(hashSize, hash(key))]
    }

    method TdbExists(key: Bytes) returns (found: bool)
      requires Valid()
      modifies this`trace, this`ecode, locked
      ensures Valid() && locked[..] == old(locked[..]) && ecode == old(ecode)
      ensures trace == old(trace) + Section(Bucket(hash(key)))
      ensures found <==> key in Stored()
    {
      hide Intact, Stored, Bucket, ListOf;
      var hashv := hash(key);
      var _ := TdbLock(Bucket(hashv));
      var recPtr, rec := TdbFind(key, hashv);
      var _ := TdbUnlock(Bucket(hashv));
      return recPtr != 0;
    }

    method TdbFetch(key: Bytes) returns (ret: Option<Bytes>)
      requires Valid()
      modifies this`trace, this`ecode, locked
      ensures Valid() && locked[..] == old(locked[..]) && ecode == old(ecode)
      ensures trace == old(trace) + Section(Bucket(hash(key)))
      ensures ret == if key in Stored() then Some(Stored()[key].data) else None
    {
      hide Intact, Stored, Bucket, ListOf;
      var hashv := hash(key);
      ret := None;
      var _ := TdbLock(Bucket(hashv));
      var recPtr, rec := TdbFind(key, hashv);
      if recPtr != 0 {
        var data := ReadData(recPtr, rec, key);
        ret := Some(data);
      }
      var _ := TdbUnlock(Bucket(hashv));
    }

    /** The data bytes behind the key bytes of a record. */
    method ReadData(recPtr: nat, rec: Rec, ghost key: Bytes) returns (data: Bytes)
      requires Intact() && key in shape.where && shape.where[key] == recPtr
      requires recPtr in heap.recs && rec == heap.recs[recPtr]
      ensures key in Stored() && data == Stored()[key].data
    {
      hide Represents, WellFormed, Contents;
      KeyData(heap, shape, hash, key, recPtr);
      ReadBody(mapPtr[..], heap, recPtr, rec.keyLen, rec.dataLen);
      data := TdbRead(recPtr + REC_SIZE + rec.keyLen, rec.dataLen);
    }

    method TdbUpdate(key: Bytes, dbuf: Bytes) returns (ret: int)
      requires Valid()
      modifies this`heap, this`trace, this`ecode, mapPtr, locked
      ensures Valid() && locked[..] == old(locked[..]) && ecode == old(ecode)
      ensures SameLoose(old(heap), old(shape), heap, shape)
      ensures trace == old(trace) + Section(Bucket(hash(key)))
      ensures if key in old(Stored()) && |key| + |dbuf| <= old(Stored())[key].room
              then ret == 0 && Stored() == old(Stored())[key := Entry(dbuf, old(Stored())[key].room)]
              else ret == -1 && Stored() == old(Stored())
      ensures InOrder() == old(InOrder())
    {
      hide Intact, Stored, InOrder, Bucket, ListOf, SameLoose;
      var hashv := hash(key);
      var _ := TdbLock(Bucket(hashv));
      ret := UpdateLocked(key, dbuf, hashv);
      var _ := TdbUnlock(Bucket(hashv));
    }

    /** The part of tdb_update that holds the chain lock. */
    method UpdateLocked(key: Bytes, dbuf: Bytes, hashv: Word) returns (ret: int)
      requires Intact() && hashv == hash(key)
      modifies this`heap, this`ecode, mapPtr
      ensures Intact() && ecode == old(ecode)
      ensures SameLoose(old(heap), old(shape), heap, shape)
      ensures if key in old(Stored()) && |key| + |dbuf| <= old(Stored())[key].room
              then ret == 0 && Stored() == old(Stored())[key := Entry(dbuf, old(Stored())[key].room)]
              else ret == -1 && Stored() == old(Stored())
      ensures InOrder() == old(InOrder())
    {
      hide Intact, Stored, InOrder, Bucket, ListOf, SameLoose;
      NoneLoose();
      ret := -1;
      var recPtr, rec := TdbFind(key, hashv);
      if recPtr != 0 {
        RoomAt(key, recPtr);
      }
      if recPtr != 0 && rec.recLen >= |key| + |dbuf| {
        ret := Overwrite(recPtr, rec, key, dbuf);
      }
    }

    lemma RoomAt(key: Bytes, recPtr: nat)
      requires Intact() && key in shape.where && shape.where[key] == recPtr
      ensures recPtr in heap.recs && key in Stored() && Stored()[key].room == heap.recs[recPtr].recLen
    {
      hide WellFormed, Contents;
      KeyData(heap, shape, hash, key, recPtr);
    }

    lemma NoneLoose()
      requires Intact()
      ensures SameLoose(heap, shape, heap, shape)
    {
      LooseKept(heap, shape, hash);
    }

    /** The writes of an in-place update: the data bytes, then the header if the length changed. */
    method Overwrite(recPtr: nat, rec: Rec, key: Bytes, dbuf: Bytes) returns (ret: int)
      requires Intact() && key in shape.where && shape.where[key] == recPtr
      requires recPtr in heap.recs && rec == heap.recs[recPtr] && |key| + |dbuf| <= rec.recLen
      modifies this`heap, mapPtr
      ensures Intact() && ret == 0
      ensures SameLoose(old(heap), old(shape), heap, shape)
      ensures Stored() == old(Stored())[key := Entry(dbuf, rec.recLen)] && InOrder() == old(InOrder())
    {
      hide Represents, WellFormed, LiveIn, Frees, Chains;
      WhereLive(heap, shape, hash, key);
      LiveNode(heap, shape, hash, recPtr);
      BodyLength(mapPtr[..], heap, recPtr);
      RedataLoose(heap, shape, hash, recPtr, dbuf);
      StepData(heap, shape, hash, recPtr, dbuf);
      ViewsData(heap, shape, recPtr, dbuf);
      WriteBody(mapPtr[..], heap, recPtr, rec.keyLen, dbuf);
      TdbWrite(recPtr + REC_SIZE + rec.keyLen, dbuf);
      heap := heap.SetBody(recPtr, Splice(heap.body[recPtr], rec.keyLen, dbuf));
      if |dbuf| != rec.dataLen {
        RecWrite(recPtr, rec.(dataLen := |dbuf|));
      }
      assert heap == Redata(old(heap), recPtr, dbuf);
      ret := 0;
    }

    // ----- deletion

    method TdbDelete(key: Bytes) returns (rc: int)
      requires Valid()
      modifies this`heap, this`shape, this`trace, this`ecode, mapPtr, locked
      ensures Valid() && locked[..] == old(locked[..]) && ecode == old(ecode)
      ensures SameLoose(old(heap), old(shape), heap, shape)
      ensures trace == old(trace) + DeleteTrace(Bucket(hash(key)), key in old(Stored()))
      ensures rc == if key in old(Stored()) then 0 else -1
      ensures Stored() == old(Stored()) - {key}
      ensures |old(InOrder()).chains| == hashSize
      ensures Now() == Deleted(old(Now()), Bucket(hash(key)), key)
    {
      hide Intact, Stored, InOrder, Bucket, ListOf, SameLoose, Detached, DeleteTrace, Without;
      var hashv := hash(key);
      var _ := TdbLock(Bucket(hashv));
      var recPtr, rec := DeleteLocked(key, hashv);
      var _ := TdbUnlock(Bucket(hashv));
      if recPtr == 0 {
        DeleteTraceFrom(old(trace), Bucket(hashv), false, trace);
        return -1;
      }
      RecoverSpace(recPtr, rec, old(heap), old(shape));
      DeleteTraceFrom(old(trace), Bucket(hashv), true, trace);
      return 0;
    }

    /** The part of tdb_delete behind the chain lock: the block goes back under the allocation lock. */
    method RecoverSpace(recPtr: nat, rec: Rec, ghost was: Heap, ghost wasShape: Shape)
      requires Valid() && Detached(was, wasShape, recPtr, rec)
      modifies this`heap, this`shape, this`trace, this`ecode, mapPtr, locked
      ensures Valid() && locked[..] == old(locked[..]) && ecode == old(ecode)
      ensures Stored() == old(Stored()) && SameLoose(was, wasShape, heap, shape)
      ensures InOrder().frees == [rec.recLen] + old(InOrder()).frees && InOrder().chains == old(InOrder()).chains
      ensures trace == old(trace) + [Acquire(ALLOC)] + [Release(ALLOC)]
    {
      hide Intact, Stored, InOrder, SameLoose, Detached;
      var _ := TdbLock(-1);
      Reclaim(recPtr, rec, was, wasShape);
      var _ := TdbUnlock(-1);
    }

    /** The part of tdb_delete that holds the chain lock: the search for the record and its removal from the chain. */
    method DeleteLocked(key: Bytes, hashv: Word) returns (recPtr: nat, rec: Rec)
      requires Intact() && hashv == hash(key)
      modifies this`heap, this`shape, this`ecode, mapPtr
      ensures Intact() && ecode == old(ecode)
      ensures recPtr == 0 ==> key !in old(Stored()) && SameLoose(old(heap), old(shape), heap, shape)
      ensures recPtr != 0 ==> key in old(Stored()) && Detached(old(heap), old(shape), recPtr, rec)
      ensures Stored() == old(Stored()) - {key} && |old(InOrder()).chains| == hashSize
      ensures recPtr == 0 ==> Stored() == old(Stored()) && InOrder() == old(InOrder())
      ensures recPtr != 0 ==>
                && rec.recLen == old(Stored())[key].room
                && InOrder().frees == old(InOrder()).frees
      ensures var c, b := old(InOrder()).chains, Bucket(hashv);
              recPtr != 0 ==> InOrder().chains == c[b := Without(c[b], key)]
    {
      hide Intact, Stored, InOrder, Bucket, ListOf, SameLoose, Detached, Without;
      ChainCount();
      NoneLoose();
      var lastPtr, lastRec;
      ghost var at;
      recPtr, rec, lastPtr, lastRec, at := DeleteSearch(key, hashv);
      if recPtr == 0 {
        assert Stored() - {key} == Stored();
      } else {
        Unlink(key, hashv, recPtr, rec, lastPtr, lastRec, at);
      }
    }

    lemma ChainCount()
      requires Intact()
      ensures |InOrder().chains| == hashSize
    {
      hide Represents, Chains;
    }

    /** Block `p` with header `r` has come off its list, and no other block has. */
    ghost predicate Detached(was: Heap, wasShape: Shape, p: nat, r: Rec)
      reads `heap, `shape
    {
      Loosened(was, wasShape, heap, shape, p, r)
    }

    /** The walk of tdb_delete, which also remembers the record before the one it looks at. */
    method DeleteSearch(key: Bytes, hashv: Word)
      returns (recPtr: nat, rec: Rec, lastPtr: nat, lastRec: Rec, ghost at: nat)
      requires Intact() && hashv == hash(key)
      modifies this`ecode
      ensures ecode == old(ecode)
      ensures recPtr == 0 ==> key !in Stored()
      ensures recPtr != 0 ==>
                && at < |ChainOf(key)| && recPtr == ChainOf(key)[at] && key in Stored()
                && recPtr in heap.recs && rec == heap.recs[recPtr]
                && recPtr in heap.body && KeyOf(rec, heap.body[recPtr]) == key
                && (if at == 0 then lastPtr == 0
                    else lastPtr == ChainOf(key)[at - 1] && lastPtr > 0
                         && lastPtr in heap.recs && lastRec == heap.recs[lastPtr])
    {
      hide Represents, WellFormed, KeyOf, Contents;
      at := 0;
      ghost var l := ChainOf(key);
      recPtr := OfsRead(1 + Bucket(hashv));
      rec, lastPtr, lastRec := Rec(0, 0, 0, 0, 0, 0), 0, Rec(0, 0, 0, 0, 0, 0);
      while recPtr != 0
        invariant ecode == old(ecode)
        invariant at <= |l| && recPtr == Nth(l, at) && (at < |l| ==> recPtr != 0)
        invariant if at == 0 then lastPtr == 0
                  else lastPtr == l[at - 1] && lastPtr > 0 && lastPtr in heap.recs && lastRec == heap.recs[lastPtr]
        invariant forall i :: 0 <= i < at && key in shape.where ==> shape.where[key] != l[i]
        decreases |l| - at
      {
        ChainNode(heap, shape, hash, key, at);
        var rc;
        rc, rec := RecRead(recPtr);
        if rc == -1 {
          assert false;
        }
        var hit := SameKey(recPtr, rec, key, hashv);
        if hit {
          ContentsKeys(heap, shape, hash);
          return;
        }
        lastPtr := recPtr;
        lastRec := rec;
        recPtr := rec.next;
        at := at + 1;
      }
      ChainExhausted(heap, shape, hash, key);
    }

    /** The `at`-th key of the chain is the key, and no other. */
    lemma ChainWithout(key: Bytes, hashv: Word, at: nat)
      requires Intact() && hashv == hash(key) && at < |ChainOf(key)|
      requires ChainOf(key)[at] in heap.recs && ChainOf(key)[at] in heap.body
      requires KeyOf(heap.recs[ChainOf(key)[at]], heap.body[ChainOf(key)[at]]) == key
      ensures var c := InOrder().chains;
              && |c| == hashSize && at < |c[Bucket(hashv)]|
              && Without(c[Bucket(hashv)], key) == Cut(c[Bucket(hashv)], at)
      ensures key in Stored() && Stored()[key].room == heap.recs[ChainOf(key)[at]].recLen
    {
      hide Represents, WellFormed, KeyOf, Contents, Without;
      ChainCount();
      var l, c := ChainOf(key), InOrder().chains[Bucket(hashv)];
      ChainNode(heap, shape, hash, key, at);
      RoomAt(key, l[at]);
      forall i | 0 <= i < at
        ensures c[i] != key
      {
        ChainNode(heap, shape, hash, key, i);
        TwoPlaces(heap, shape, hash, ListOf(hashSize, hashv), i, at);
      }
      WithoutAt(c, key, at);
    }

    /** Pointing the chain head or the record before it past a record. */
    method Unlink(key: Bytes, hashv: Word, recPtr: nat, rec: Rec, lastPtr: nat, lastRec: Rec, ghost at: nat)
      requires Intact() && hashv == hash(key)
      requires at < |ChainOf(key)| && recPtr == ChainOf(key)[at]
      requires recPtr in heap.recs && rec == heap.recs[recPtr]
      requires recPtr in heap.body && KeyOf(rec, heap.body[recPtr]) == key
      requires if at == 0 then lastPtr == 0
               else
                 && lastPtr == ChainOf(key)[at - 1] && lastPtr > 0
                 && lastPtr in heap.recs && lastRec == heap.recs[lastPtr]
      modifies this`heap, this`shape, mapPtr
      ensures Intact() && Detached(old(heap), old(shape), recPtr, rec)
      ensures Stored() == old(Stored()) - {key} && |old(InOrder()).chains| == hashSize
      ensures key in old(Stored()) && rec.recLen == old(Stored())[key].room
      ensures InOrder().frees == old(InOrder()).frees
      ensures var c, b := old(InOrder()).chains, Bucket(hashv); InOrder().chains == c[b := Without(c[b], key)]
    {
      hide Represents, WellFormed, KeyOf, Contents, Frees, Chains, Without;
      ChainCount();
      ChainWithout(key, hashv, at);
      ghost var j := ListOf(hashSize, hashv);
      NodeOf(heap, shape, hash, j, at);
      StepDropLive(heap, shape, hash, j, at, key);
      DropLoose(heap, shape, hash, j, at);
      ViewsDrop(heap, shape, Bucket(hashv), at, shape.where - {key});
      if lastPtr == 0 {
        OfsWrite(1 + Bucket(hashv), rec.next);
      } else {
        RecWrite(lastPtr, lastRec.(next := rec.next));
      }
      assert heap == Bypass(old(heap), shape, j, at);
      shape := shape.Drop(j, at).(where := shape.where - {key});
      assert Loose(shape) == Loose(old(shape).Drop(j, at));
    }

    /** Giving a detached block back: onto the front of the free list, with the free magic. */
    method Reclaim(recPtr: nat, rec: Rec, ghost was: Heap, ghost wasShape: Shape)
      requires Intact() && Detached(was, wasShape, recPtr, rec)
      modifies this`heap, this`shape, mapPtr
      ensures Intact() && Stored() == old(Stored())
      ensures InOrder().frees == [rec.recLen] + old(InOrder()).frees && InOrder().chains == old(InOrder()).chains
      ensures SameLoose(was, wasShape, heap, shape)
    {
      hide Represents, WellFormed, Contents, Frees, Chains;
      HeadLayout(heap, shape, hash, 0, 0);
      var top := OfsRead(0);
      var freed := rec.(next := top, magic := TDB_FREE_MAGIC);
      BodyLength(mapPtr[..], heap, recPtr);
      StepLoose(heap, shape, hash, recPtr, freed, heap.body[recPtr]);
      LooseViews(recPtr, freed, heap.body[recPtr]);
      assert heap.SetRec(recPtr, freed).SetBody(recPtr, heap.body[recPtr]) == heap.SetRec(recPtr, freed);
      RecWrite(recPtr, freed);
      StepLinkFree(heap, shape, hash, recPtr);
      LinkLoose(heap, shape, hash, 0, recPtr, shape.where);
      ViewsPushFree(heap, shape, recPtr);
      OfsWrite(0, recPtr);
      shape := shape.Push(0, recPtr);
    }

    lemma LooseViews(p: nat, r: Rec, b: Bytes)
      requires Intact() && p in Loose(shape)
      ensures ListsOf(heap.SetRec(p, r).SetBody(p, b), shape) == InOrder()
    {
      hide Represents, Frees, Chains;
      ViewsLoose(heap, shape, p, r, b);
    }

    // ----- allocation

    lemma FreeCount()
      requires Intact()
      ensures 0 < |shape.lists| && |InOrder().frees| == |shape.lists[0]|
    {
      hide Represents, Chains;
    }

    lemma FreeLength(recPtr: nat, rec: Rec, at: nat)
      requires Intact() && FreeAt(recPtr, rec, at)
      ensures at < |InOrder().frees| && InOrder().frees[at] == rec.recLen
    {
      hide Represents, WellFormed, Chains;
    }

    /** The first block of the free list with at least `length` bytes, with the block before it on the list. */
    method SearchFree(length: nat)
      returns (recPtr: nat, rec: Rec, lastPtr: nat, lastRec: Rec, ghost at: nat)
      requires Intact()
      ensures recPtr == 0 ==> NoneFits(InOrder().frees, length)
      ensures recPtr != 0 ==>
                && FreeAt(recPtr, rec, at) && length <= rec.recLen && LastAt(lastPtr, lastRec, at)
                && at < |InOrder().frees| && rec.recLen == InOrder().frees[at]
                && forall i :: 0 <= i < at ==> InOrder().frees[i] < length
    {
      hide Represents, WellFormed, OnList, InOrder;
      at := 0;
      ghost var l := shape.lists;
      FreeCount();
      FreeListNode(heap, shape, hash, at);
      recPtr := OfsRead(0);
      rec, lastPtr, lastRec := Rec(0, 0, 0, 0, 0, 0), 0, Rec(0, 0, 0, 0, 0, 0);
      while recPtr != 0
        invariant at <= |l[0]| && recPtr == Nth(l[0], at) && (at < |l[0]| ==> recPtr != 0)
        invariant LastAt(lastPtr, lastRec, at)
        invariant forall i :: 0 <= i < at ==> InOrder().frees[i] < length
        decreases |l[0]| - at
      {
        FreeListNode(heap, shape, hash, at);
        assert OnList(heap, shape, 0, at);
        rec := RecFetch(recPtr);
        FreeLength(recPtr, rec, at);
        if rec.magic != TDB_FREE_MAGIC {
          assert false;
        }
        if rec.recLen >= length {
          return;
        }
        lastRec := rec;
        lastPtr := recPtr;
        recPtr := rec.next;
        at := at + 1;
      }
    }

    ghost predicate FreeAt(recPtr: nat, rec: Rec, at: nat)
      reads `heap, `shape
    {
      && |shape.lists| == |heap.heads| > 0 && at < |shape.lists[0]|
      && recPtr == shape.lists[0][at] && recPtr in heap.recs && rec == heap.recs[recPtr]
    }

    ghost predicate LastAt(lastPtr: nat, lastRec: Rec, at: nat)
      reads `heap, `shape
    {
      if at == 0 then lastPtr == 0
      else |shape.lists| > 0 && at <= |shape.lists[0]| && lastPtr == shape.lists[0][at - 1] && lastPtr > 0
           && lastPtr in heap.recs && lastRec == heap.recs[lastPtr]
    }

    static lemma WordUp(length: nat)
      ensures length < CutLength(length) <= length + 4 && CutLength(length) % 4 == 0
    {
    }

    /** Cutting a free block in two; `rest` starts out as whatever was in memory. */
    method SplitFree(recPtr: nat, rec: Rec, length: nat, ghost lastPtr: nat, ghost lastRec: Rec, ghost at: nat)
      returns (cut: Rec)
      requires Intact() && FreeAt(recPtr, rec, at) && LastAt(lastPtr, lastRec, at)
      requires rec.recLen > length + 52
      modifies this`heap, this`shape, mapPtr
      ensures Intact() && Stored() == old(Stored()) && SameLoose(old(heap), old(shape), heap, shape)
      ensures FreeAt(recPtr, cut, at) && LastAt(lastPtr, lastRec, at)
      ensures cut.recLen == CutLength(length) && heap.size == old(heap).size
      ensures var l := old(InOrder());
              && at < |l.frees| && rec.recLen == l.frees[at]
              && InOrder().chains == l.chains
              && InOrder().frees ==
                 l.frees[..at] + [cut.recLen, rec.recLen - (REC_SIZE + cut.recLen)] + l.frees[at + 1..]
    {
      hide Represents, WellFormed, Contents, OnList, SameLoose, Frees, Chains;
      FreeLength(recPtr, rec, at);
      FreeListNode(heap, shape, hash, at);
      WordUp(length);
      var length' := CutLength(length);
      var rest: Rec := *;
      rest := rest.(recLen := rec.recLen - (REC_SIZE + length'), next := rec.next, magic := TDB_FREE_MAGIC);
      cut := rec.(recLen := length', next := recPtr + REC_SIZE + length');
      WriteRemainder(recPtr, cut, rest, at);
      ghost var middle := heap;
      WriteShrunk(recPtr, cut, rest, lastPtr, lastRec, at);
      LooseByRecs(old(heap), middle, old(shape), heap, shape);
    }

    /** The header of the remainder goes into the payload of the block it is cut from. */
    method WriteRemainder(recPtr: nat, cut: Rec, rest: Rec, ghost at: nat)
      requires Intact() && |shape.lists| == |heap.heads| && at < |shape.lists[0]| && recPtr == shape.lists[0][at]
      requires recPtr in heap.recs && cut.recLen + REC_SIZE + rest.recLen == heap.recs[recPtr].recLen
      requires cut.next == recPtr + REC_SIZE + cut.recLen
      modifies this`heap, mapPtr
      ensures Intact() && Stored() == old(Stored()) && InOrder() == old(InOrder())
      ensures recPtr in old(heap).body && heap == old(heap).SetBody(recPtr, heap.body[recPtr])
      ensures Reads(heap.body[recPtr], cut.recLen, EncodeRec(rest))
    {
      hide Represents, WellFormed, Contents, OnList, EncodeRec, Frees, Chains;
      FreeListNode(heap, shape, hash, at);
      ghost var b := Splice(heap.body[recPtr], cut.recLen, EncodeRec(rest));
      WriteBody(mapPtr[..], heap, recPtr, cut.recLen, EncodeRec(rest));
      StepFreeBody(heap, shape, hash, recPtr, b);
      FreeViews(recPtr, b);
      SpliceReads(heap.body[recPtr], cut.recLen, EncodeRec(rest));
      TdbWrite(cut.next, EncodeRec(rest));
      heap := heap.SetBody(recPtr, b);
    }

    method WriteShrunk(recPtr: nat, cut: Rec, rest: Rec, ghost lastPtr: nat, ghost lastRec: Rec, ghost at: nat)
      requires Intact() && LastAt(lastPtr, lastRec, at)
      requires |shape.lists| == |heap.heads| && at < |shape.lists[0]| && recPtr == shape.lists[0][at]
      requires recPtr in heap.recs && recPtr in heap.body && Reads(heap.body[recPtr], cut.recLen, EncodeRec(rest))
      requires cut.recLen + REC_SIZE + rest.recLen == heap.recs[recPtr].recLen && cut.recLen % 4 == 0
      requires cut.next == recPtr + REC_SIZE + cut.recLen && rest.next == heap.recs[recPtr].next
      requires cut.magic == rest.magic == TDB_FREE_MAGIC
      modifies this`heap, this`shape, mapPtr
      ensures Intact() && Stored() == old(Stored()) && SameLoose(old(heap), old(shape), heap, shape)
      ensures FreeAt(recPtr, cut, at) && LastAt(lastPtr, lastRec, at) && heap.size == old(heap).size
      ensures var l := old(InOrder());
              && at < |l.frees|
              && InOrder().chains == l.chains
              && InOrder().frees == l.frees[..at] + [cut.recLen, rest.recLen] + l.frees[at + 1..]
    {
      hide Represents, WellFormed, Contents, OnList, EncodeRec, SameLoose, Reads, Frees, Chains;
      FreeListNode(heap, shape, hash, at);
      WriteCarve(mapPtr[..], heap, recPtr, cut, rest);
      StepCut(heap, shape, hash, at, recPtr, cut, rest);
      CutViews(recPtr, cut, rest, at);
      if at > 0 {
        CutPrevious(heap, shape, hash, at, cut.next);
      }
      CutLoose(heap, shape, hash, heap.Carve(recPtr, cut, rest), shape.InsertAfter(0, at, cut.next),
               recPtr, cut, cut.next, rest);
      TdbWrite(recPtr, EncodeRec(cut));
      heap := heap.Carve(recPtr, cut, rest);
      shape := shape.InsertAfter(0, at, cut.next);
    }

    lemma FreeViews(p: nat, b: Bytes)
      requires Intact() && p in shape.owner && shape.owner[p] == 0
      ensures ListsOf(heap.SetBody(p, b), shape) == InOrder()
    {
      hide Represents, Frees, Chains;
      ViewsFreeBody(heap, shape, p, b);
    }

    lemma CutViews(p: nat, cut: Rec, rest: Rec, at: nat)
      requires Intact() && OnList(heap, shape, 0, at) && p == shape.lists[0][at] && p in heap.body
      requires cut.recLen + REC_SIZE <= |heap.body[p]|
      requires cut.next == p + REC_SIZE + cut.recLen && cut.next !in shape.owner
      ensures at < |InOrder().frees|
      ensures var l := InOrder();
              var l' := ListsOf(heap.Carve(p, cut, rest), shape.InsertAfter(0, at, cut.next));
              && l'.chains == l.chains && l'.frees == l.frees[..at] + [cut.recLen, rest.recLen] + l.frees[at + 1..]
    {
      hide Represents, Chains;
      ViewsCut(heap, shape, at, p, cut, rest);
    }

    /** Pointing the free-list head or the block before it past a block. */
    method UnlinkFree(recPtr: nat, rec: Rec, lastPtr: nat, lastRec: Rec, ghost at: nat)
      requires Intact() && FreeAt(recPtr, rec, at) && LastAt(lastPtr, lastRec, at)
      modifies this`heap, this`shape, mapPtr
      ensures Intact() && Stored() == old(Stored()) && heap.size == old(heap).size
      ensures Detached(old(heap), old(shape), recPtr, rec)
      ensures var l := old(InOrder());
              && at < |l.frees| && rec.recLen == l.frees[at]
              && InOrder().frees == l.frees[..at] + l.frees[at + 1..] && InOrder().chains == l.chains
    {
      hide Represents, WellFormed, Contents, Frees, Chains;
      FreeLength(recPtr, rec, at);
      FreeListNode(heap, shape, hash, at);
      StepDropFree(heap, shape, hash, at);
      DropLoose(heap, shape, hash, 0, at);
      ViewsDropFree(heap, shape, at);
      if lastPtr == 0 {
        OfsWrite(0, rec.next);
      } else {
        RecWrite(lastPtr, lastRec.(next := rec.next));
      }
      assert heap == Bypass(old(heap), shape, 0, at);
      shape := shape.Drop(0, at);
    }

    /** realloc: the old bytes stay, the new ones hold anything. */
    method Realloc(size: nat) returns (ghost junk: Bytes)
      requires mapSize == mapPtr.Length && mapSize <= size
      modifies this`mapPtr, this`mapSize
      ensures fresh(mapPtr) && mapSize == mapPtr.Length == size
      ensures mapPtr[..] == old(mapPtr[..]) + junk
    {
      var p := new Byte[size];
      forall i | 0 <= i < mapSize {
        p[i] := mapPtr[i];
      }
      junk := p[mapSize..];
      assert p[..mapSize] == mapPtr[..];
      mapPtr := p;
      mapSize := size;
    }

    /** A free block of `rec.recLen` bytes at the end of the image and at the front of the free list. */
    method AppendFree(rec: Rec)
      requires Intact() && rec.recLen % 4 == 0 && mapSize + REC_SIZE + rec.recLen < WORD_LIMIT
      requires rec.next == heap.heads[0] && rec.magic == TDB_FREE_MAGIC
      modifies this`heap, this`shape, this`mapPtr, this`mapSize
      ensures Intact() && Stored() == old(Stored()) && SameLoose(old(heap), old(shape), heap, shape)
      ensures fresh(mapPtr) && mapSize == old(mapSize) + REC_SIZE + rec.recLen
      ensures InOrder().frees == [rec.recLen] + old(InOrder()).frees && InOrder().chains == old(InOrder()).chains
    {
      hide Represents, WellFormed, Contents, EncodeRec, SameLoose, Frees, Chains;
      var p := mapSize;
      ImageSize(mapPtr[..], heap);
      FreeListNode(heap, shape, hash, 0);
      ghost var img := mapPtr[..];
      ghost var junk := Realloc(p + REC_SIZE + rec.recLen);
      WriteGrow(img, heap, junk, rec);
      StepGrow(heap, shape, hash, rec, junk[REC_SIZE..]);
      GrowLoose(heap, shape, hash, rec, junk[REC_SIZE..]);
      GrowViews(img, rec, junk[REC_SIZE..]);
      TdbWrite(p, EncodeRec(rec));
      heap := heap.Grow(rec, junk[REC_SIZE..]);
      shape := shape.(owner := shape.owner[p := LOOSE]);
      StepLinkFree(heap, shape, hash, p);
      ViewsPushFree(heap, shape, p);
      OfsWrite(0, p);
      shape := shape.Push(0, p);
    }

    lemma GrowViews(img: Bytes, rec: Rec, payload: Bytes)
      requires WellFormed(heap, shape, hash) && Represents(img, heap) && |payload| == rec.recLen && rec.recLen % 4 == 0
      requires heap.size + REC_SIZE + rec.recLen < WORD_LIMIT
      ensures var h, s := heap.Grow(rec, payload), shape.(owner := shape.owner[heap.size := LOOSE]);
              ListsOf(h, s) == InOrder() && BlockLen(h, heap.size) == rec.recLen
    {
      hide Represents, Frees, Chains;
      StepGrow(heap, shape, hash, rec, payload);
      ViewsGrow(heap, shape, rec, payload, shape.owner[heap.size := LOOSE]);
    }

    method TdbExpand(length: nat) returns (rc: int)
      requires Valid() && REC_SIZE <= length && mapSize + length * TDB_LEN_MULTIPLIER + TDB_PAGE_SIZE < WORD_LIMIT
      modifies this`heap, this`shape, this`trace, this`ecode, this`mapPtr, this`mapSize, locked
      ensures Valid() && locked[..] == old(locked[..]) && ecode == old(ecode)
      ensures trace == old(trace) + Section(ALLOC)
      ensures rc == 0 && Stored() == old(Stored()) && SameLoose(old(heap), old(shape), heap, shape)
      ensures fresh(mapPtr) && old(mapSize) < mapSize <= old(mapSize) + length * TDB_LEN_MULTIPLIER + TDB_PAGE_SIZE
      ensures InOrder().chains == old(InOrder()).chains
      ensures Pool(mapSize, InOrder().frees) == Expand(Pool(old(mapSize), old(InOrder()).frees), length)
    {
      hide Intact, Stored, InOrder, SameLoose;
      var _ := TdbLock(-1);
      AddPages(length * TDB_LEN_MULTIPLIER);
      var _ := TdbUnlock(-1);
      return 0;
    }

    /** The new size is a multiple of the page size, and so of 4. */
    static lemma WholeWords(size: nat, length: nat)
      requires size % 4 == 0
      ensures PageUp(size, length) % 8192 == 0 && (PageUp(size, length) - size) % 4 == 0
    {
      Multiple(size + length + TDB_PAGE_SIZE);
    }

    /** The part of tdb_expand that holds the allocation lock: at least `length` more bytes, up to a whole page. */
    method AddPages(length: nat)
      requires Intact() && REC_SIZE <= length && mapSize + length + TDB_PAGE_SIZE < WORD_LIMIT
      modifies this`heap, this`shape, this`mapPtr, this`mapSize
      ensures Intact() && Stored() == old(Stored()) && SameLoose(old(heap), old(shape), heap, shape)
      ensures fresh(mapPtr) && old(mapSize) < mapSize <= old(mapSize) + length + TDB_PAGE_SIZE
      ensures mapSize == PageUp(old(mapSize), length) && mapSize % 8192 == 0
      ensures InOrder().frees == [mapSize - old(mapSize) - REC_SIZE] + old(InOrder()).frees
      ensures InOrder().chains == old(InOrder()).chains
    {
      hide Stored, InOrder, SameLoose, WellFormed, Represents, PageUp;
      FreeListNode(heap, shape, hash, 0);
      ImageSize(mapPtr[..], heap);
      WholeWords(mapSize, length);
      var length' := PageUp(mapSize, length) - mapSize;
      var rec: Rec := *;
      var top := OfsRead(0);
      rec := rec.(recLen := length' - REC_SIZE, next := top, magic := TDB_FREE_MAGIC);
      AppendFree(rec);
    }

    /** Room for what an expansion may need: then no size the code computes leaves 32 bits. */
    ghost predicate RoomFor(length: nat)
      reads `mapSize
    {
      mapSize + (length + REC_SIZE) * TDB_LEN_MULTIPLIER + TDB_PAGE_SIZE < WORD_LIMIT
    }

    /**
     * A block off the free list with at least `length` bytes, and at most 52 more. The free
     * list is searched once, or twice with an expansion in between.
     */
    method TdbAllocate(length: nat) returns (recPtr: nat, ghost rec: Rec, ghost searches: nat)
      requires Valid() && RoomFor(length)
      modifies this`heap, this`shape, this`trace, this`ecode, this`mapPtr, this`mapSize, mapPtr, locked
      ensures Valid() && locked[..] == old(locked[..]) && ecode == old(ecode)
      ensures 1 <= searches <= 2 && trace == old(trace) + AllocateTrace(searches == 2)
      ensures mapPtr == old(mapPtr) || fresh(mapPtr)
      ensures mapSize <= old(mapSize) + (length + REC_SIZE) * TDB_LEN_MULTIPLIER + TDB_PAGE_SIZE
      ensures Stored() == old(Stored())
      ensures recPtr > 0 && Detached(old(heap), old(shape), recPtr, rec)
      ensures rec.magic == TDB_FREE_MAGIC && length <= rec.recLen <= length + 52
      ensures var l := old(InOrder()).frees; var i := FirstFit(l, length);
              if i < |l| && l[i] <= length + 52 then rec.recLen == l[i]
              else length < rec.recLen <= length + 4 && rec.recLen % 4 == 0
      ensures InOrder().chains == old(InOrder()).chains
      ensures (rec.recLen, Pool(mapSize, InOrder().frees)) == Allocate(Pool(old(mapSize), old(InOrder()).frees), length)
    {
      hide Intact, Stored, InOrder, SameLoose, Loosened, FreeAt, LastAt, Allocate, Take, Expand, FirstFit;
      RoomExactly(Pool(mapSize, InOrder().frees), length);
      RoomBounds(Pool(mapSize, InOrder().frees), length);
      var _ := TdbLock(-1);
      var found, lastPtr, lastRec;
      ghost var at;
      recPtr, found, lastPtr, lastRec, at, searches := FindFree(length);
      ghost var middle, middleShape := heap, shape;
      rec := TakeFree(recPtr, found, lastPtr, lastRec, at, length);
      LoosenedAfter(old(heap), old(shape), middle, middleShape, heap, shape, recPtr, rec);
      var _ := TdbUnlock(-1);
    }

    /** The search of tdb_allocate, again after an expansion when there was nothing. */
    method FindFree(length: nat)
      returns (recPtr: nat, rec: Rec, lastPtr: nat, lastRec: Rec, ghost at: nat, ghost searches: nat)
      requires Valid() && RoomFor(length)
      modifies this`heap, this`shape, this`trace, this`ecode, this`mapPtr, this`mapSize, locked
      ensures Valid() && locked[..] == old(locked[..]) && ecode == old(ecode)
      ensures 1 <= searches <= 2 && trace == old(trace) + (if searches == 2 then Section(ALLOC) else [])
      ensures mapPtr == old(mapPtr) || fresh(mapPtr)
      ensures Stored() == old(Stored()) && SameLoose(old(heap), old(shape), heap, shape)
      ensures FreeAt(recPtr, rec, at) && LastAt(lastPtr, lastRec, at) && length <= rec.recLen
      ensures InOrder().chains == old(InOrder()).chains && at < |InOrder().frees|
      ensures var was, now := Pool(old(mapSize), old(InOrder()).frees), Pool(mapSize, InOrder().frees);
              Allocate(was, length) == Take(now, at, length)
    {
      hide Intact, Stored, InOrder, SameLoose, Loosened, FreeAt, LastAt, Allocate, Take, Expand, Section;
      NoneLoose();
      recPtr, rec, lastPtr, lastRec, at := SearchFree(length);
      searches := 1;
      ghost var pool: Pool := Pool(mapSize, InOrder().frees);
      if recPtr != 0 {
        AllocateFound(pool, length, at);
      }
      while recPtr == 0
        invariant Valid() && ecode == old(ecode) && 1 <= searches <= 2
        invariant locked == old(locked) && locked[..] == old(locked[..])
        invariant trace == old(trace) + (if searches == 2 then Section(ALLOC) else [])
        invariant mapPtr == old(mapPtr) || fresh(mapPtr)
        invariant Stored() == old(Stored()) && SameLoose(old(heap), old(shape), heap, shape)
        invariant InOrder().chains == old(InOrder()).chains
        invariant searches == 1 ==>
                    && mapSize == old(mapSize) && heap == old(heap) && shape == old(shape)
                    && (recPtr == 0 ==> NoneFits(pool.frees, length))
        invariant recPtr != 0 ==>
                    && FreeAt(recPtr, rec, at) && LastAt(lastPtr, lastRec, at) && length <= rec.recLen
                    && at < |InOrder().frees|
                    && Allocate(pool, length) == Take(Pool(mapSize, InOrder().frees), at, length)
        invariant searches == 2 ==> recPtr != 0
        decreases 2 - searches
      {
        var rc := TdbExpand(length + REC_SIZE);
        recPtr, rec, lastPtr, lastRec, at := SearchFree(length);
        searches := 2;
        AllocateExpanded(pool, length, at, Pool(mapSize, InOrder().frees));
      }
    }

    /** Splitting the block that was found if it is large enough for that, and taking it off the free list. */
    method TakeFree(recPtr: nat, rec: Rec, lastPtr: nat, lastRec: Rec, ghost at: nat, length: nat)
      returns (ghost taken: Rec)
      requires Intact() && FreeAt(recPtr, rec, at) && LastAt(lastPtr, lastRec, at) && length <= rec.recLen
      modifies this`heap, this`shape, mapPtr
      ensures Intact() && Stored() == old(Stored())
      ensures recPtr > 0 && Detached(old(heap), old(shape), recPtr, taken)
      ensures taken.magic == TDB_FREE_MAGIC && InOrder().chains == old(InOrder()).chains
      ensures at < |old(InOrder()).frees|
      ensures (taken.recLen, Pool(mapSize, InOrder().frees)) == Take(Pool(mapSize, old(InOrder()).frees), at, length)
    {
      hide Intact, Stored, InOrder, SameLoose, Loosened, FreeAt, LastAt, CutLength, Take;
      FreeFacts(recPtr, rec, at);
      FreeLength(recPtr, rec, at);
      NoneLoose();
      var cur := rec;
      if rec.recLen > length + MIN_REC_SIZE {
        cur := SplitFree(recPtr, rec, length, lastPtr, lastRec, at);
        FreeFacts(recPtr, cur, at);
      }
      ghost var middle, middleShape := heap, shape;
      UnlinkFree(recPtr, cur, lastPtr, lastRec, at);
      TakeParts(Pool(mapSize, old(InOrder()).frees), at, length);
      LoosenedAfter(old(heap), old(shape), middle, middleShape, heap, shape, recPtr, cur);
      taken := cur;
    }

    lemma FreeFacts(recPtr: nat, rec: Rec, at: nat)
      requires Intact() && FreeAt(recPtr, rec, at)
      ensures recPtr > 0 && rec.magic == TDB_FREE_MAGIC
    {
      FreeListNode(heap, shape, hash, at);
    }

    // ----- store

    method TdbStore(key: Bytes, dbuf: Bytes, flag: int)
      returns (rc: int, ghost inPlace: bool, ghost expanded: bool)
      requires Valid() && RoomFor(|key| + |dbuf|)
      modifies this`heap, this`shape, this`trace, this`ecode, this`mapPtr, this`mapSize, mapPtr, locked
      ensures Valid() && locked[..] == old(locked[..])
      ensures SameLoose(old(heap), old(shape), heap, shape)
      ensures mapPtr == old(mapPtr) || fresh(mapPtr)
      ensures mapSize <= old(mapSize) + (|key| + |dbuf| + REC_SIZE) * TDB_LEN_MULTIPLIER + TDB_PAGE_SIZE
      ensures var found := key in old(Stored());
              if flag == 2 && found
              then rc == -1 && ecode == Exists && Stored() == old(Stored())
              else
                && rc == 0 && ecode == old(ecode) && key in Stored()
                && Stored() == old(Stored())[key := Entry(dbuf, Stored()[key].room)]
      ensures inPlace <==> flag != 2 && key in old(Stored()) && |key| + |dbuf| <= old(Stored())[key].room
      ensures |old(InOrder()).chains| == hashSize
      ensures Now() == if inPlace then Updated(old(Now()), key, dbuf)
                       else if rc == 0 then StoredNew(old(Now()), Bucket(hash(key)), key, dbuf)
                       else old(Now())
      ensures var found := key in old(Stored());
              && trace == old(trace) + StoreTrace(Bucket(hash(key)), inPlace || (flag == 2 && found),
                                                  expanded, flag == 2, found)
    {
      hide Intact, Stored, InOrder, Bucket, ListOf, SameLoose, Loosened, NewTrace, Section, StoredNew;
      NoneLoose();
      ChainCount();
      var hashv := hash(key);
      inPlace, expanded := false, false;
      if flag == TDB_INSERT {
        var found := TdbExists(key);
        if found {
          ecode := Exists;
          return -1, inPlace, expanded;
        }
      }
      if flag != TDB_INSERT {
        var ret := TdbUpdate(key, dbuf);
        if ret == 0 {
          inPlace := true;
          return 0, inPlace, expanded;
        }
      }
      ghost var middle, middleShape := heap, shape;
      expanded := StoreNew(key, dbuf, flag, hashv);
      SameLooseThen(old(heap), old(shape), middle, middleShape, heap, shape);
      TraceAssoc(old(trace), Section(Bucket(hashv)),
                 NewTrace(Bucket(hashv), expanded, flag == TDB_INSERT, key in old(Stored())));
      return 0, inPlace, expanded;
    }

    /** The rest of tdb_store: a new block, then under the chain lock the old record out and the new one in. */
    method StoreNew(key: Bytes, dbuf: Bytes, flag: int, hashv: Word) returns (ghost expanded: bool)
      requires Valid() && RoomFor(|key| + |dbuf|) && hashv == hash(key)
      requires flag == 2 ==> key !in Stored()
      modifies this`heap, this`shape, this`trace, this`ecode, this`mapPtr, this`mapSize, mapPtr, locked
      ensures Valid() && locked[..] == old(locked[..]) && ecode == old(ecode)
      ensures SameLoose(old(heap), old(shape), heap, shape)
      ensures mapPtr == old(mapPtr) || fresh(mapPtr)
      ensures mapSize <= old(mapSize) + (|key| + |dbuf| + REC_SIZE) * TDB_LEN_MULTIPLIER + TDB_PAGE_SIZE
      ensures key in Stored() && Stored() == old(Stored())[key := Entry(dbuf, Stored()[key].room)]
      ensures |old(InOrder()).chains| == hashSize
      ensures Now() == StoredNew(old(Now()), Bucket(hashv), key, dbuf)
      ensures trace == old(trace) + NewTrace(Bucket(hashv), expanded, flag == 2, key in old(Stored()))
    {
      hide Intact, Stored, InOrder, Bucket, ListOf, SameLoose, Loosened, AllocateTrace, DeleteTrace, NewTrace;
      hide Allocate, FirstFit, Deleted, Inserted, StoredNew;
      ChainCount();
      var recPtr, rec, searches := TdbAllocate(|key| + |dbuf|);
      expanded := searches == 2;
      StoredNewParts(old(Now()), Bucket(hashv), key, dbuf, Now(), rec.recLen);
      Replace(key, dbuf, flag, hashv, recPtr, rec, old(heap), old(shape));
      NewTraceFrom(old(trace), Bucket(hashv), expanded, flag == TDB_INSERT, key in old(Stored()), trace);
    }

    /** The part of tdb_store that holds the chain lock: the old record out and the new one in. */
    method Replace(key: Bytes, dbuf: Bytes, flag: int, hashv: Word, recPtr: nat,
                   ghost rec: Rec, ghost was: Heap, ghost wasShape: Shape)
      requires Valid() && hashv == hash(key) && (flag == 2 ==> key !in Stored())
      requires Detached(was, wasShape, recPtr, rec) && rec.magic == TDB_FREE_MAGIC && |key| + |dbuf| <= rec.recLen
      modifies this`heap, this`shape, this`trace, this`ecode, mapPtr, locked
      ensures Valid() && locked[..] == old(locked[..]) && ecode == old(ecode)
      ensures SameLoose(was, wasShape, heap, shape) && |old(InOrder()).chains| == hashSize
      ensures Stored() == old(Stored())[key := Entry(dbuf, rec.recLen)]
      ensures var m, b := old(Now()), Bucket(hashv);
              Now() == Inserted(if flag == 2 then m else Deleted(m, b, key), b, key, Entry(dbuf, rec.recLen))
      ensures trace == old(trace) + [Acquire(Bucket(hashv))]
                       + (if flag == 2 then [] else DeleteTrace(Bucket(hashv), key in old(Stored())))
                       + [Release(Bucket(hashv))]
    {
      hide Intact, Stored, InOrder, Now, Bucket, ListOf, SameLoose, Loosened, DeleteTrace, Deleted, Inserted;
      ChainCount();
      var _ := TdbLock(Bucket(hashv));
      if flag != TDB_INSERT {
        ghost var middle, middleShape := heap, shape;
        var _ := TdbDelete(key);
        LoosenedThen(was, wasShape, middle, middleShape, heap, shape, recPtr, rec);
      }
      Insert(key, dbuf, hashv, recPtr, rec, was, wasShape);
      var _ := TdbUnlock(Bucket(hashv));
    }

    /** Filling the new block and putting it at the front of its chain. */
    method Insert(key: Bytes, dbuf: Bytes, hashv: Word, recPtr: nat,
                  ghost rec: Rec, ghost was: Heap, ghost wasShape: Shape)
      requires Intact() && hashv == hash(key) && key !in Stored()
      requires Detached(was, wasShape, recPtr, rec) && rec.magic == TDB_FREE_MAGIC && |key| + |dbuf| <= rec.recLen
      modifies this`heap, this`shape, mapPtr
      ensures Intact() && SameLoose(was, wasShape, heap, shape)
      ensures Stored() == old(Stored())[key := Entry(dbuf, rec.recLen)] && |old(InOrder()).chains| == hashSize
      ensures Now() == Inserted(old(Now()), Bucket(hashv), key, Entry(dbuf, rec.recLen))
    {
      hide Represents, WellFormed, Contents, KeyOf, DataOf, Live, EncodeRec, Frees, Chains;
      ContentsKeys(heap, shape, hash);
      ghost var before, beforeShape := heap, shape;
      LooseKept(heap, shape, hash);
      var cur := RecFetch(recPtr);
      if cur.magic != TDB_FREE_MAGIC {
        assert false;
      }
      var next := OfsRead(1 + Bucket(hashv));
      cur := cur.(next := next, keyLen := |key|, dataLen := |dbuf|, fullHash := hashv, magic := TDB_MAGIC);
      WriteRecord(key, dbuf, recPtr, cur);
      LinkRecord(key, dbuf, hashv, recPtr);
      LinkedBack(was, wasShape, before, beforeShape, recPtr, rec, heap, shape, 1 + Bucket(hashv));
    }

    /** Header, key and data in one write over a loose block. */
    method WriteRecord(key: Bytes, dbuf: Bytes, recPtr: nat, cur: Rec)
      requires Intact() && recPtr in Loose(shape) && recPtr in heap.recs
      requires cur.recLen == heap.recs[recPtr].recLen && |key| + |dbuf| <= cur.recLen
      requires cur.keyLen == |key| && cur.dataLen == |dbuf| && cur.fullHash == hash(key) && cur.magic == TDB_MAGIC
      modifies this`heap, mapPtr
      ensures Intact() && Stored() == old(Stored()) && InOrder() == old(InOrder())
      ensures heap.heads == old(heap).heads && heap.recs == old(heap).recs[recPtr := cur]
      ensures recPtr in heap.body && KeyOf(cur, heap.body[recPtr]) == key && DataOf(cur, heap.body[recPtr]) == dbuf
      ensures Live(cur, heap.body[recPtr], ListOf(hashSize, hash(key)), hashSize, hash)
    {
      hide Represents, WellFormed, Contents, KeyOf, DataOf, Live, EncodeRec, ListOf, Frees, Chains;
      BodyLength(mapPtr[..], heap, recPtr);
      ghost var b := Splice(heap.body[recPtr], 0, key + dbuf);
      FreshRecord(cur, heap.body[recPtr], key, dbuf, hashSize, hash);
      StepLoose(heap, shape, hash, recPtr, cur, b);
      LooseViews(recPtr, cur, b);
      WriteWhole(mapPtr[..], heap, recPtr, cur, key + dbuf);
      assert EncodeRec(cur) + key + dbuf == EncodeRec(cur) + (key + dbuf);
      TdbWrite(recPtr, EncodeRec(cur) + key + dbuf);
      heap := heap.SetRec(recPtr, cur).SetBody(recPtr, b);
    }

    /** Pointing the top of the chain at the new record. */
    method LinkRecord(key: Bytes, dbuf: Bytes, hashv: Word, recPtr: nat)
      requires Intact() && hashv == hash(key) && recPtr in Loose(shape) && recPtr in heap.recs && recPtr in heap.body
      requires heap.recs[recPtr].next == heap.heads[1 + Bucket(hashv)] && key !in shape.where
      requires KeyOf(heap.recs[recPtr], heap.body[recPtr]) == key
      requires DataOf(heap.recs[recPtr], heap.body[recPtr]) == dbuf
      requires Live(heap.recs[recPtr], heap.body[recPtr], ListOf(hashSize, hashv), hashSize, hash)
      modifies this`heap, this`shape, mapPtr
      ensures Intact() && Stored() == old(Stored())[key := Entry(dbuf, old(heap).recs[recPtr].recLen)]
      ensures heap.recs == old(heap).recs && shape.owner == old(shape).owner[recPtr := 1 + Bucket(hashv)]
      ensures |old(InOrder()).chains| == hashSize
      ensures InOrder().frees == old(InOrder()).frees
      ensures var c, b := old(InOrder()).chains, Bucket(hashv); InOrder().chains == c[b := [key] + c[b]]
    {
      hide Represents, WellFormed, Contents, KeyOf, DataOf, Live, EncodeRec, Frees, Chains;
      ChainCount();
      StepLinkLive(heap, shape, hash, 1 + Bucket(hashv), recPtr, key);
      ViewsPush(heap, shape, Bucket(hashv), recPtr, shape.where[key := recPtr]);
      OfsWrite(1 + Bucket(hashv), recPtr);
      shape := shape.Push(1 + Bucket(hashv), recPtr).(where := shape.where[key := recPtr]);
    }

    // ----- walking the whole database

    /** Every stored pair in the order of the chains, from bucket 0 to the last. */
    ghost function Listed(): seq<(Bytes, Bytes)>
      reads `heap, `shape
    {
      ListedPairs(heap, shape)
    }

    /** The listing has every entry of the map, and has it once. */
    lemma ListedAll()
      requires Intact()
      ensures Listing(Listed(), Stored()) && |Listed()| == |Stored()|
      ensures forall k :: k in Stored() ==> exists i :: 0 <= i < |Listed()| && Listed()[i].0 == k
    {
      AllPairs(heap, shape, hash);
    }

    /** And that in the order of the chains. */
    lemma ListedOrder()
      ensures var keys := Concat(InOrder().chains);
              |Listed()| == |keys| && forall i :: 0 <= i < |keys| ==> Listed()[i].0 == keys[i]
    {
      ListedKeys(heap, shape);
    }

    /**
     * Calls `stop` on the pairs visited so far after each pair, as the callback with its state would
     * decide; a callback that never asks to stop makes this a visit of every pair exactly once.
     */
    method TdbTraverse(stop: seq<(Bytes, Bytes)> -> bool)
      returns (count: int, visited: seq<(Bytes, Bytes)>, ghost chains: nat)
      requires Valid()
      modifies this`trace, this`ecode, locked
      ensures Valid() && locked[..] == old(locked[..]) && ecode == old(ecode)
      ensures chains <= hashSize && trace == old(trace) + Sections(0, chains)
      ensures count == |visited| && visited <= Listed() && Quiet(stop, visited, |visited| - 1)
      ensures visited == Listed() || (visited != [] && stop(visited))
    {
      hide Intact, Stored, Listed, Quiet, AtChain, Section;
      count, visited, chains := 0, [], 0;
      var h := 0;
      WalkStart(stop);
      while h < hashSize
        invariant h <= hashSize && Valid() && locked[..] == old(locked[..]) && ecode == old(ecode)
        invariant trace == old(trace) + Sections(0, h) && chains == h
        invariant count == |visited| && visited <= Listed() && AtChain(h, |visited|)
        invariant Quiet(stop, visited, |visited|)
      {
        var _ := TdbLock(h);
        var stopped;
        stopped, visited := TraverseChain(h, stop, visited);
        count := |visited|;
        var _ := TdbUnlock(h);
        SectionsNext(old(trace), h, trace);
        h := h + 1;
        chains := h;
        if stopped {
          return;
        }
      }
      WalkEnd(stop, visited);
    }

    /** `n` pairs come before the chain of bucket `b`. */
    ghost predicate AtChain(b: nat, n: nat)
      reads `shape
    {
      b < |shape.lists| && n == |BlocksBelow(shape, b)|
    }

    lemma WalkStart(stop: seq<(Bytes, Bytes)> -> bool)
      requires Intact()
      ensures AtChain(0, 0) && Quiet(stop, [], 0)
    {
      HeadOf(heap, shape, hash, 0);
    }

    lemma WalkEnd(stop: seq<(Bytes, Bytes)> -> bool, visited: seq<(Bytes, Bytes)>)
      requires Intact() && AtChain(hashSize, |visited|) && visited <= Listed() && Quiet(stop, visited, |visited|)
      ensures visited == Listed() && Quiet(stop, visited, |visited| - 1)
    {
      hide WellFormed, Represents, BlocksBelow;
      ListCount(heap, shape, hash);
    }

    /** The part of tdb_traverse that holds the lock of one chain. */
    method TraverseChain(b: nat, stop: seq<(Bytes, Bytes)> -> bool, before: seq<(Bytes, Bytes)>)
      returns (stopped: bool, visited: seq<(Bytes, Bytes)>)
      requires Intact() && b < hashSize && AtChain(b, |before|) && before <= Listed() && Quiet(stop, before, |before|)
      modifies this`ecode
      ensures ecode == old(ecode) && visited <= Listed()
      ensures stopped ==> visited != [] && stop(visited) && Quiet(stop, visited, |visited| - 1)
      ensures !stopped ==> AtChain(b + 1, |visited|) && Quiet(stop, visited, |visited|)
    {
      hide Represents, WellFormed, KeyOf, DataOf, Stored, Quiet, PairOf, Pairs, BlocksBelow;
      HeadOf(heap, shape, hash, b + 1);
      BelowLength(shape, b);
      ghost var l := shape.lists[b + 1];
      ghost var i := 0;
      visited := before;
      var recPtr: nat := OfsRead(b + 1);
      while recPtr != 0
        invariant ecode == old(ecode) && i <= |l| && recPtr == Nth(l, i) && (i < |l| ==> recPtr != 0)
        invariant visited <= Listed() && |visited| == |before| + i && Quiet(stop, visited, |visited|)
        decreases |l| - i
      {
        PairAt(heap, shape, hash, b, i);
        var next, pair := ReadPair(recPtr);
        assert Listed()[|visited|] == pair;
        QuietMore(stop, visited, pair);
        visited := visited + [pair];
        if stop(visited) {
          return true, visited;
        }
        recPtr := next;
        i := i + 1;
      }
      stopped := false;
    }

    lemma SectionsNext(before: Trace, h: nat, after: Trace)
      requires after == before + Sections(0, h) + [Acquire(h)] + [Release(h)]
      ensures after == before + Sections(0, h + 1)
    {
    }

    /** rec_read of a chained record, then its key and data in one piece. */
    method ReadPair(recPtr: nat) returns (next: nat, pair: (Bytes, Bytes))
      requires Intact() && recPtr in shape.owner && shape.owner[recPtr] > 0
      modifies this`ecode
      ensures ecode == old(ecode) && recPtr in heap.recs && recPtr in heap.body
      ensures next == heap.recs[recPtr].next && pair == PairOf(heap, recPtr)
    {
      hide Represents, WellFormed;
      LiveNode(heap, shape, hash, recPtr);
      var rc, rec := RecRead(recPtr);
      if rc == -1 {
        assert false;
      }
      ReadBody(mapPtr[..], heap, recPtr, 0, rec.keyLen + rec.dataLen);
      var data := TdbRead(recPtr + REC_SIZE, rec.keyLen + rec.dataLen);
      assert data[..rec.keyLen] == heap.body[recPtr][..rec.keyLen];
      assert data[rec.keyLen..] == heap.body[recPtr][rec.keyLen..rec.keyLen + rec.dataLen];
      next := rec.next;
      pair := (data[..rec.keyLen], data[rec.keyLen..]);
    }

    // ----- walking by keys

    /** How many pairs come before the chain of bucket `b`. */
    ghost function Before(b: nat): nat
      reads `shape
    {
      |BlocksBelow(shape, b)|
    }

    /** Block `recPtr` stores the pair at place `y` of the listing. */
    ghost predicate PlacedAt(recPtr: nat, y: nat)
      reads `heap, `shape
    {
      && recPtr in shape.owner && shape.owner[recPtr] > 0
      && y < |Listed()| && Listed()[y] == PairOf(heap, recPtr)
    }

    /** ofs_read of the top of a chain, as a walk uses it. */
    method ChainTop(b: nat) returns (recPtr: nat)
      requires Intact() && b < hashSize
      ensures recPtr == 0 ==> Before(b + 1) == Before(b)
      ensures recPtr != 0 ==> Before(b) < Before(b + 1) && PlacedAt(recPtr, Before(b))
    {
      hide Represents, WellFormed, BlocksBelow, PairOf;
      HeadOf(heap, shape, hash, b + 1);
      BelowLength(shape, b);
      recPtr := OfsRead(b + 1);
      if recPtr != 0 {
        PairAt(heap, shape, hash, b, 0);
      }
    }

    lemma BeforeBounds(b: nat)
      requires Intact() && b < hashSize
      ensures Before(0) == 0 && Before(b) <= Before(b + 1) <= |Listed()|
      ensures b + 1 == hashSize ==> Before(b + 1) == |Listed()|
      ensures b + 1 < hashSize ==> Before(b + 1) <= Before(hashSize - 1)
    {
      hide Represents, WellFormed, PairOf, Pairs, BlocksBelow;
      ListCount(heap, shape, hash);
      BelowNone(shape);
      BelowPrefix(shape, b, b + 1);
      BelowPrefix(shape, b + 1, hashSize);
      if b + 1 < hashSize {
        BelowPrefix(shape, b + 1, hashSize - 1);
      }
    }

    method TdbFirstkey() returns (ret: Option<Bytes>, ghost chains: nat)
      requires Valid()
      modifies this`trace, this`ecode, locked
      ensures Valid() && locked[..] == old(locked[..]) && ecode == old(ecode)
      ensures chains <= hashSize && trace == old(trace) + Sections(0, chains)
      ensures ret == if Listed() == [] then None else Some(Listed()[0].0)
    {
      hide Intact, Stored, Listed, PlacedAt, Before;
      BeforeStart();
      var h := 0;
      var recPtr: nat := 0;
      while h < hashSize
        invariant h <= hashSize && Valid() && locked[..] == old(locked[..]) && ecode == old(ecode)
        invariant trace == old(trace) + Sections(0, h) && recPtr == 0
        invariant Before(h) == 0 && (h == hashSize ==> |Listed()| == 0)
      {
        var _ := TdbLock(h);
        BeforeBounds(h);
        recPtr := ChainTop(h);
        if recPtr != 0 {
          break;
        }
        var _ := TdbUnlock(h);
        SectionsNext(old(trace), h, trace);
        h := h + 1;
      }
      chains := h;
      if recPtr == 0 {
        return None, chains;
      }
      var key := ReadKey(recPtr, 0);
      var _ := TdbUnlock(h);
      SectionsNext(old(trace), h, trace);
      chains := h + 1;
      ret := Some(key);
    }

    lemma BeforeStart()
      requires Intact()
      ensures hashSize >= 1 && Before(0) == 0
    {
      hide WellFormed, Represents;
    }

    /** rec_read of a chained record, then its key. */
    method ReadKey(recPtr: nat, ghost y: nat) returns (key: Bytes)
      requires Intact() && PlacedAt(recPtr, y)
      modifies this`ecode
      ensures ecode == old(ecode) && y < |Listed()| && key == Listed()[y].0
    {
      hide Represents, WellFormed;
      LiveNode(heap, shape, hash, recPtr);
      var rc, rec := RecRead(recPtr);
      if rc == -1 {
        assert false;
      }
      ReadBody(mapPtr[..], heap, recPtr, 0, rec.keyLen);
      key := TdbRead(recPtr + REC_SIZE, rec.keyLen);
    }

    /** The end of a walk from bucket `lo`: the key of the record that was found, and its chain unlocked. */
    method TakeKey(recPtr: nat, b: nat, ghost y: nat, ghost before: Trace, ghost lo: nat) returns (key: Bytes)
      requires Valid() && PlacedAt(recPtr, y) && lo <= b < hashSize && locked[b + 1] > 0
      requires trace == before + Sections(lo, b) + [Acquire(b)]
      modifies this`trace, this`ecode, locked
      ensures Valid() && ecode == old(ecode)
      ensures locked[..] == old(locked[..])[b + 1 := old(locked[b + 1]) - 1]
      ensures trace == before + Sections(lo, b + 1)
      ensures y < |Listed()| && key == Listed()[y].0
    {
      hide Intact, Listed, PlacedAt, Sections;
      key := ReadKey(recPtr, y);
      UnlockChain(b, before, lo);
    }

    /** The end of a walk's visit to a chain. */
    method UnlockChain(b: nat, ghost before: Trace, ghost lo: nat)
      requires Valid() && lo <= b < hashSize && locked[b + 1] > 0
      requires trace == before + Sections(lo, b) + [Acquire(b)]
      modifies this`trace, this`ecode, locked
      ensures Valid() && ecode == old(ecode) && trace == before + Sections(lo, b + 1)
      ensures locked[..] == old(locked[..])[b + 1 := old(locked[b + 1]) - 1]
    {
      hide Intact, Section;
      var _ := TdbUnlock(b);
      SectionsStep(before, lo, b, trace);
    }

    /** How many pairs come before the chain of the last bucket. */
    ghost function Last(): nat
      reads `shape
    {
      if hashSize == 0 then 0 else Before(hashSize - 1)
    }

    /** The key at place `y` of the listing, if that is below `limit`. */
    ghost function KeyAt(y: nat, limit: nat): Option<Bytes>
      reads `heap, `shape
    {
      if y < limit && y < |Listed()| then Some(Listed()[y].0) else None
    }

    /**
     * tdb_nextkey of a stored key is the key behind it in the listing, but a walk never goes on from
     * another bucket into the last one; of a missing key it is the first key behind its bucket.
     */
    ghost predicate IsNext(key: Bytes, y: nat, ret: Option<Bytes>)
      reads `heap, `shape
    {
      if key in Stored() then
        && 0 < y <= |Listed()| && Listed()[y - 1].0 == key
        && ret == KeyAt(y, if y - 1 < Last() then Last() else |Listed()|)
      else
        && hashSize > 0 && y == Before(Bucket(hash(key)) + 1)
        && ret == KeyAt(y, Last())
    }

    method TdbNextkey(key: Bytes) returns (ret: Option<Bytes>, ghost y: nat, ghost chains: nat)
      requires Valid()
      modifies this`trace, this`ecode, locked
      ensures Valid() && locked[..] == old(locked[..]) && ecode == old(ecode)
      ensures Bucket(hash(key)) < chains && trace == old(trace) + Sections(Bucket(hash(key)), chains)
      ensures IsNext(key, y, ret)
    {
      hide Intact, Stored, Listed, PlacedAt, Before, Bucket, ListOf, Section, Sections, IsNext, Behind;
      BeforeStart();
      var hashv := hash(key);
      var b := Bucket(hashv);
      NoSections(b);
      var _ := TdbLock(b);
      var recPtr;
      recPtr, y := NextInChain(key, hashv);
      chains := b;
      while recPtr == 0
        invariant Bucket(hashv) <= b < hashSize && Valid() && ecode == old(ecode) && chains == b
        invariant locked == old(locked) && locked[..] == old(locked[..])[b + 1 := old(locked[b + 1]) + 1]
        invariant trace == old(trace) + Sections(Bucket(hashv), b) + [Acquire(b)]
        invariant Behind(key, y)
        invariant recPtr == 0 ==> y == Before(b + 1)
        invariant recPtr != 0 ==> PlacedAt(recPtr, y) && y < Before(b + 1)
        invariant b != Bucket(hashv) ==> b + 1 < hashSize
        decreases hashSize - b
      {
        UnlockChain(b, old(trace), Bucket(hashv));
        if b + 1 >= hashSize - 1 {
          NoneBehind(key, b, y);
          return None, y, b + 1;
        }
        b := b + 1;
        chains := b;
        var _ := TdbLock(b);
        recPtr := ChainTop(b);
      }
      SomeBehind(key, b, y);
      var k := TakeKey(recPtr, b, y, old(trace), Bucket(hashv));
      chains := b + 1;
      ret := Some(k);
    }

    /** Place `y` of the listing is where to go on from `key`, on its own chain or at the end of it. */
    ghost predicate Behind(key: Bytes, y: nat)
      reads `heap, `shape
    {
      && hashSize > 0
      && (if key in Stored() then
            && 0 < y <= |Listed()| && Listed()[y - 1].0 == key
            && Before(Bucket(hash(key))) < y <= Before(Bucket(hash(key)) + 1)
          else y == Before(Bucket(hash(key)) + 1))
    }

    lemma NoneBehind(key: Bytes, b: nat, y: nat)
      requires Intact() && Behind(key, y) && Bucket(hash(key)) <= b < hashSize <= b + 2 && y == Before(b + 1)
      ensures IsNext(key, y, None)
    {
      hide Intact, Stored, Listed, Before, Bucket;
      LastBounds();
      BeforeBounds(b);
      BeforeBounds(Bucket(hash(key)));
    }

    lemma SomeBehind(key: Bytes, b: nat, y: nat)
      requires Intact() && Behind(key, y) && Bucket(hash(key)) <= b < hashSize && y < Before(b + 1)
      requires b != Bucket(hash(key)) ==> b + 1 < hashSize
      ensures y < |Listed()| && IsNext(key, y, Some(Listed()[y].0))
    {
      hide Intact, Stored, Listed, Before, Bucket;
      LastBounds();
      BeforeBounds(b);
      BeforeBounds(Bucket(hash(key)));
    }

    lemma LastBounds()
      requires Intact()
      ensures hashSize >= 1 && Last() == Before(hashSize - 1) <= |Listed()| == Before(hashSize)
    {
      hide Intact, Before, Listed;
      BeforeStart();
      BeforeBounds(hashSize - 1);
    }

    lemma NoSections(b: int)
      ensures Sections(b, b) == []
    {
    }

    lemma SectionsStep(before: Trace, lo: int, b: int, after: Trace)
      requires lo <= b && after == before + Sections(lo, b) + [Acquire(b)] + [Release(b)]
      ensures after == before + Sections(lo, b + 1)
    {
    }

    /** The part of tdb_nextkey that looks for the record behind `key` on its own chain. */
    method NextInChain(key: Bytes, hashv: Word) returns (recPtr: nat, ghost y: nat)
      requires Intact() && hashv == hash(key)
      modifies this`ecode
      ensures ecode == old(ecode)
      ensures Behind(key, y)
      ensures recPtr == 0 ==> y == Before(Bucket(hashv) + 1)
      ensures recPtr != 0 ==> PlacedAt(recPtr, y) && y < Before(Bucket(hashv) + 1)
    {
      hide Represents, WellFormed, BlocksBelow, PairOf, KeyOf, PlacedAt, Before, Listed;
      var rec;
      recPtr, rec := TdbFind(key, hashv);
      y := Before(Bucket(hashv) + 1);
      if recPtr != 0 {
        y := PlaceInChain(key);
        recPtr := rec.next;
      }
    }

    lemma PlaceInChain(key: Bytes) returns (y: nat)
      requires Intact() && key in shape.where && shape.where[key] in heap.recs
      ensures var next := heap.recs[shape.where[key]].next; var b := Bucket(hash(key));
              && 0 < y <= |Listed()| && Listed()[y - 1].0 == key
              && Before(b) < y <= Before(b + 1)
              && (next == 0 ==> y == Before(b + 1))
              && (next != 0 ==> PlacedAt(next, y) && y < Before(b + 1))
    {
      hide Represents, WellFormed, BlocksBelow, KeyOf;
      var b := Bucket(hash(key));
      var i := KeyInBucket(heap, shape, hash, key);
      WhereLive(heap, shape, hash, key);
      BelowLength(shape, b);
      PairAt(heap, shape, hash, b, i);
      y := Before(b) + i + 1;
      if i + 1 < |shape.lists[b + 1]| {
        PairAt(heap, shape, hash, b, i + 1);
      }
    }

    /** The length of a walk from tdb_firstkey by tdb_nextkey. */
    ghost function WalkLength(): nat
      reads `heap, `shape
    {
      if Last() > 0 then Last() else |Listed()|
    }

    /** The first keys of a walk. */
    ghost predicate WalkPrefix(keys: seq<Bytes>)
      reads `heap, `shape
    {
      |keys| <= WalkLength() <= |Listed()| && forall i :: 0 <= i < |keys| ==> keys[i] == Listed()[i].0
    }

    /** The loop a caller writes to see all keys. */
    method WalkKeys() returns (keys: seq<Bytes>)
      requires Valid()
      modifies this`trace, this`ecode, locked
      ensures Valid() && locked[..] == old(locked[..]) && ecode == old(ecode)
      ensures WalkPrefix(keys) && |keys| == WalkLength()
    {
      hide Intact, Stored, Listed, WalkPrefix, WalkLength, KeyAt, IsNext, Bucket, ListOf, Sections;
      keys := [];
      ghost var y, chains;
      var k;
      k, chains := TdbFirstkey();
      WalkBegin(k);
      while k.Some?
        invariant Valid() && locked[..] == old(locked[..]) && ecode == old(ecode)
        invariant WalkPrefix(keys) && k == KeyAt(|keys|, WalkLength())
        decreases WalkLength() - |keys|
      {
        ghost var before := keys;
        keys := keys + [k.value];
        ghost var last := k.value;
        k, y, chains := TdbNextkey(k.value);
        WalkNext(before, last, y, k);
      }
      WalkDone(keys);
    }

    lemma WalkBegin(k: Option<Bytes>)
      requires Intact() && k == if Listed() == [] then None else Some(Listed()[0].0)
      ensures WalkPrefix([]) && k == KeyAt(0, WalkLength())
    {
      hide Intact, Listed, Before;
      LastBounds();
    }

    lemma WalkNext(keys: seq<Bytes>, k: Bytes, y: nat, ret: Option<Bytes>)
      requires Intact() && WalkPrefix(keys) && Some(k) == KeyAt(|keys|, WalkLength()) && IsNext(k, y, ret)
      ensures WalkPrefix(keys + [k]) && ret == KeyAt(|keys + [k]|, WalkLength())
      ensures |keys| < WalkLength()
    {
      hide Intact, Listed, Before, Stored, Bucket;
      LastBounds();
      KeyPresent(|keys|);
      SamePlace(y - 1, |keys|);
    }

    lemma WalkDone(keys: seq<Bytes>)
      requires WalkPrefix(keys) && KeyAt(|keys|, WalkLength()) == None
      ensures |keys| == WalkLength()
    {
    }

    lemma KeyPresent(y: nat)
      requires Intact() && y < |Listed()|
      ensures Listed()[y].0 in Stored()
    {
      ListedAll();
    }

    lemma SamePlace(x: nat, y: nat)
      requires Intact() && x < |Listed()| && y < |Listed()| && Listed()[x].0 == Listed()[y].0
      ensures x == y
    {
      ListedAll();
    }

    /**
     * A walk yields no key twice. It yields the keys that do not hash to the last bucket, and those of
     * the last bucket only when there are no others.
     */
    lemma WalkMeaning(keys: seq<Bytes>)
      requires Intact()
      requires |keys| == WalkLength() <= |Listed()| && forall i :: 0 <= i < |keys| ==> keys[i] == Listed()[i].0
      ensures forall i, j :: 0 <= i < j < |keys| ==> keys[i] != keys[j]
      ensures forall k :: k in keys <==>
                k in Stored() && (Bucket(hash(k)) < hashSize - 1 ||
                                  forall k' :: k' in Stored() ==> Bucket(hash(k')) == hashSize - 1)
    {
      hide Intact, Stored, Listed, Before, Bucket, ListOf;
      ListedAll();
      LastBounds();
      forall y | 0 <= y < |Listed()|
        ensures y < Last() <==> Bucket(hash(Listed()[y].0)) < hashSize - 1
      {
        BeforeLast(y);
      }
      OnlyLast();
      forall k
        ensures k in keys <==>
                  k in Stored() && (Bucket(hash(k)) < hashSize - 1 ||
                                    forall k' :: k' in Stored() ==> Bucket(hash(k')) == hashSize - 1)
      {
        if k in keys {
          var i :| 0 <= i < |keys| && keys[i] == k;
          assert Listed()[i].0 == k;
        } else if k in Stored() {
          var i :| 0 <= i < |Listed()| && Listed()[i].0 == k;
          assert i >= |keys|;
        }
      }
    }

    lemma BeforeLast(y: nat)
      requires Intact() && y < |Listed()|
      ensures hashSize >= 1 && (y < Last() <==> Bucket(hash(Listed()[y].0)) < hashSize - 1)
    {
      hide WellFormed, Represents, KeyOf, DataOf, BlocksBelow;
      PlaceBucket(heap, shape, hash, y);
    }

    lemma OnlyLast()
      requires Intact()
      ensures hashSize >= 1 && (Last() == 0 <==> forall k :: k in Stored() ==> Bucket(hash(k)) == hashSize - 1)
    {
      hide Intact, Stored, Listed, Before, Bucket, ListOf;
      ListedAll();
      LastBounds();
      if Last() > 0 {
        BeforeLast(0);
        KeyPresent(0);
      } else {
        forall k | k in Stored()
          ensures Bucket(hash(k)) == hashSize - 1
        {
          var i :| 0 <= i < |Listed()| && Listed()[i].0 == k;
          BeforeLast(i);
        }
      }
    }
  }
}
