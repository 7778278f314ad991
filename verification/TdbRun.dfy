// Whole runs of a TDB database against a finite map.

module TdbRun {
  import opened Bytes
  import opened Options
  import opened Tdb
  import opened TdbHeap
  import opened TdbImage
  import TdbLocks
  import opened TdbModel
  import opened TdbPool
  import opened TdbTrace

  datatype Op =
    | Store(key: Bytes, data: Bytes, flag: int)
    | Delete(key: Bytes)
    | Update(key: Bytes, data: Bytes)
    | Fetch(key: Bytes)
    | Exists(key: Bytes)

  datatype Reply = Code(rc: int) | Data(value: Option<Bytes>) | Found(found: bool)

  /** The reply to an operation on a key of bucket `b`, and what is there after it. */
  function Do(m: Model, b: nat, op: Op): (r: (Reply, Model))
    requires b < |m.chains|
    ensures |r.1.chains| == |m.chains|
  {
    var k, found := op.key, op.key in m.table;
    match op
    case Store(_, d, flag) =>
      if flag == TDB_INSERT && found then (Code(-1), m)
      else if flag != TDB_INSERT && found && |k| + |d| <= m.table[k].room then (Code(0), Updated(m, k, d))
      else (Code(0), StoredNew(m, b, k, d))
    case Delete(_) =>
      (Code(if found then 0 else -1), Deleted(m, b, k))
    case Update(_, d) =>
      if found && |k| + |d| <= m.table[k].room then (Code(0), Updated(m, k, d)) else (Code(-1), m)
    case Fetch(_) =>
      (Data(if found then Some(m.table[k].data) else None), m)
    case Exists(_) =>
      (Found(found), m)
  }

  /** The replies to operations one after the other, and what is there at the end. */
  function DoAll(n: nat, hash: Bytes -> Word, ops: seq<Op>): (r: (seq<Reply>, Model))
    requires n > 0
    ensures |r.0| == |ops| && |r.1.chains| == n
  {
    if ops == [] then ([], Fresh(n))
    else
      var last := ops[|ops| - 1];
      var (replies, m) := DoAll(n, hash, ops[..|ops| - 1]);
      var (reply, m') := Do(m, hash(last.key) % n, last);
      (replies + [reply], m')
  }

  // ----- what callers are promised

  /**
   * What the operations mean on a map. Only the room of a record that is stored anew is not determined
   * by it, and that to 52 bytes.
   */
  ghost predicate Agrees(m: Table, op: Op, reply: Reply, m': Table) {
    match op
    case Store(k, d, flag) =>
      if flag == 2 && k in m then reply == Code(-1) && m' == m
      else
        && reply == Code(0) && k in m' && m' == m[k := Entry(d, m'[k].room)]
        && (if flag != 2 && k in m && |k| + |d| <= m[k].room then m'[k].room == m[k].room
            else |k| + |d| <= m'[k].room <= |k| + |d| + 52)
    case Delete(k) =>
      reply == Code(if k in m then 0 else -1) && m' == m - {k}
    case Update(k, d) =>
      if k in m && |k| + |d| <= m[k].room then reply == Code(0) && m' == m[k := Entry(d, m[k].room)]
      else reply == Code(-1) && m' == m
    case Fetch(k) =>
      reply == Data(if k in m then Some(m[k].data) else None) && m' == m
    case Exists(k) =>
      reply == Found(k in m) && m' == m
  }

  lemma DoAgrees(m: Model, b: nat, op: Op)
    requires b < |m.chains|
    ensures Agrees(m.table, op, Do(m, b, op).0, Do(m, b, op).1.table)
  {
    hide Allocate, Without;
    if op.Store? {
      RoomBounds(m.pool, |op.key| + |op.data|);
    } else if op.Delete? {
      assert op.key !in m.table ==> m.table - {op.key} == m.table;
    }
  }

  /** The replies are those of a finite map that starts empty. */
  ghost predicate RepliesOfMap(ops: seq<Op>, replies: seq<Reply>, maps: seq<Table>) {
    && |replies| == |ops| && |maps| == |ops| + 1 && maps[0] == map[]
    && forall i :: 0 <= i < |ops| ==> Agrees(maps[i], ops[i], replies[i], maps[i + 1])
  }

  lemma {:induction false} DoAllAgrees(n: nat, hash: Bytes -> Word, ops: seq<Op>) returns (maps: seq<Table>)
    requires n > 0
    ensures RepliesOfMap(ops, DoAll(n, hash, ops).0, maps) && maps[|ops|] == DoAll(n, hash, ops).1.table
  {
    hide Agrees, Do;
    if ops == [] {
      maps := [map[]];
    } else {
      var last := ops[|ops| - 1];
      maps := DoAllAgrees(n, hash, ops[..|ops| - 1]);
      DoAgrees(DoAll(n, hash, ops[..|ops| - 1]).1, hash(last.key) % n, last);
      maps := maps + [DoAll(n, hash, ops).1.table];
    }
  }

  /** Key and data fit the room at every moment of such a run. */
  lemma {:induction false} AlwaysFits(ops: seq<Op>, replies: seq<Reply>, maps: seq<Table>, i: nat, k: Bytes)
    requires RepliesOfMap(ops, replies, maps) && i <= |ops| && k in maps[i]
    ensures |k| + |maps[i][k].data| <= maps[i][k].room
  {
    if i == 0 {
    } else {
      assert Agrees(maps[i - 1], ops[i - 1], replies[i - 1], maps[i]);
      if k in maps[i - 1] {
        AlwaysFits(ops, replies, maps, i - 1, k);
      }
    }
  }

  /** So an update with no more data than the key has always succeeds. */
  lemma ShorterUpdateSucceeds(ops: seq<Op>, replies: seq<Reply>, maps: seq<Table>, i: nat)
    requires RepliesOfMap(ops, replies, maps) && i < |ops|
    requires ops[i].Update? && ops[i].key in maps[i] && |ops[i].data| <= |maps[i][ops[i].key].data|
    ensures replies[i] == Code(0)
  {
    AlwaysFits(ops, replies, maps, i, ops[i].key);
    assert Agrees(maps[i], ops[i], replies[i], maps[i + 1]);
  }

  /**
   * A record stored over a block that was just deleted takes that block, with its whole room, when it is
   * not more than 52 bytes too long. An update of it succeeds as long as it fits that room.
   */
  lemma StoredOverDeleted(m: Model, b: nat, k: Bytes, b': nat, k': Bytes, d: Bytes, flag: int, d': Bytes)
    requires b < |m.chains| && b' < |m.chains| && k in m.table
    requires |k'| + |d| <= m.table[k].room <= |k'| + |d| + 52
    requires k' in m.table && k' != k ==> flag != 2 && |k'| + |d| > m.table[k'].room
    ensures var m1 := Do(m, b, Delete(k)).1;
            var (reply, m2) := Do(m1, b', Store(k', d, flag));
            && reply == Code(0) && k' in m2.table && m2.table[k'] == Entry(d, m.table[k].room)
            && m2.pool.size == m.pool.size
            && (Do(m2, b', Update(k', d')).0 == Code(0) <==> |k'| + |d'| <= m.table[k].room)
  {
    var m1 := Do(m, b, Delete(k)).1;
    WholeBlock(m1.pool, |k'| + |d|, 0);
    hide Allocate, Without;
  }

  /**
   * What becomes of the lists. A deleted record leaves its chain, whose other keys stay in order, and its
   * block is the first free one. A record that does not fit is stored anew, at the front of its chain;
   * its block is allocated before the old one is freed.
   */
  lemma ListsAfter(m: Model, b: nat, k: Bytes, d: Bytes, x: seq<Bytes>, y: seq<Bytes>)
    requires b < |m.chains| && k in m.table && m.chains[b] == x + [k] + y && k !in x
    ensures var m' := Do(m, b, Delete(k)).1;
            && m'.chains == m.chains[b := x + y]
            && m'.pool == Pool(m.pool.size, [m.table[k].room] + m.pool.frees)
    ensures |k| + |d| > m.table[k].room ==>
              var m' := Do(m, b, Store(k, d, 1)).1; var (room, p) := Allocate(m.pool, |k| + |d|);
              && m'.chains == m.chains[b := [k] + x + y] && m'.table == m.table[k := Entry(d, room)]
              && m'.pool == Pool(p.size, [m.table[k].room] + p.frees)
    ensures |k| + |d| <= m.table[k].room ==>
              Do(m, b, Store(k, d, 1)).1 == Model(m.table[k := Entry(d, m.table[k].room)], m.chains, m.pool)
  {
    hide Allocate;
    var c := m.chains[b];
    assert c[..|x|] == x && c[|x| + 1..] == y;
    WithoutAt(c, k, |x|);
    assert [k] + (x + y) == [k] + x + y;
  }

  /**
   * A new record has room for the next multiple of 4 above its length when the first free block that is
   * long enough is more than 52 bytes too long, or when there is none.
   */
  lemma StoredInCut(m: Model, b: nat, k: Bytes, d: Bytes, flag: int)
    requires b < |m.chains| && k !in m.table
    requires forall i :: 0 <= i < |m.pool.frees| && m.pool.frees[i] >= |k| + |d| ==>
                           m.pool.frees[i] > |k| + |d| + 52 || exists j :: 0 <= j < i && m.pool.frees[j] >= |k| + |d|
    ensures var (reply, m') := Do(m, b, Store(k, d, flag));
            && reply == Code(0) && k in m'.table
            && |k| + |d| < m'.table[k].room <= |k| + |d| + 4 && m'.table[k].room % 4 == 0
            && m'.chains == m.chains[b := [k] + m.chains[b]]
  {
    RoomExactly(m.pool, |k| + |d|);
    hide Allocate, FirstFit;
  }

  /** The most an operation can add to the size of the image. */
  function Growth(op: Op): nat {
    if op.Store? then (|op.key| + |op.data| + 24) * 10 + 8192 else 0
  }

  lemma EmptyScript()
    ensures TdbLocks.ScriptOf([]) == []
  {
  }

  lemma {:induction false} ScriptSnoc(rs: seq<TdbLocks.Request>, r: TdbLocks.Request)
    ensures TdbLocks.ScriptOf(rs + [r]) == TdbLocks.ScriptOf(rs) + TdbLocks.TraceOf(r)
  {
    hide TdbLocks.TraceOf;
    if rs == [] {
      assert (rs + [r])[1..] == [];
    } else {
      assert (rs + [r])[1..] == rs[1..] + [r];
      ScriptSnoc(rs[1..], r);
    }
  }

  /**
   * One call, with its reply; no block is lost by it and no lock kept. The lock calls it makes are those
   * of one request of the lock protocol.
   */
  method Perform(db: Database, op: Op) returns (reply: Reply, ghost request: TdbLocks.Request)
    requires db.Valid() && db.mapSize + Growth(op) < WORD_LIMIT
    modifies db, db.mapPtr, db.locked
    ensures db.Valid() && (db.mapPtr == old(db.mapPtr) || fresh(db.mapPtr)) && db.locked == old(db.locked)
    ensures db.locked[..] == old(db.locked[..]) && Loose(db.shape) == old(Loose(db.shape))
    ensures db.mapSize <= old(db.mapSize) + Growth(op)
    ensures db.hashSize > 0 && |old(db.Now()).chains| == db.hashSize
    ensures (reply, db.Now()) == Do(old(db.Now()), db.hash(op.key) % db.hashSize, op)
    ensures db.trace == old(db.trace) + TdbLocks.TraceOf(request)
  {
    hide Database.Intact, Database.Stored, Database.InOrder, StoredNew, Deleted;
    hide Section, DeleteTrace, StoreTrace;
    db.ChainCount();
    ghost var bucket := db.Bucket(db.hash(op.key));
    ghost var known := op.key in db.Stored();
    match op {
      case Store(k, d, flag) =>
        var rc;
        ghost var inPlace, expanded;
        rc, inPlace, expanded := db.TdbStore(k, d, flag);
        reply := Code(rc);
        request := TdbLocks.Put(bucket, inPlace || (flag == TDB_INSERT && known), expanded, flag == TDB_INSERT, known);
      case Delete(k) =>
        var rc := db.TdbDelete(k);
        reply := Code(rc);
        request := TdbLocks.Remove(bucket, known);
      case Update(k, d) =>
        var rc := db.TdbUpdate(k, d);
        reply := Code(rc);
        request := TdbLocks.Lookup(bucket);
      case Fetch(k) =>
        var value := db.TdbFetch(k);
        reply := Data(value);
        request := TdbLocks.Lookup(bucket);
      case Exists(k) =>
        var found := db.TdbExists(k);
        reply := Found(found);
        request := TdbLocks.Lookup(bucket);
    }
  }

  /**
   * Every run from a fresh database replies as the model does, and so as a finite map would, and ends
   * with the image as large as the model has it. It goes on until all operations are done or the next
   * one is a store for which the image may have to grow beyond 32 bits. After it each block is on a list
   * and each lock is free. Its lock calls are a script of the lock protocol.
   */
  method Run(size: nat, hash: Bytes -> Word, ops: seq<Op>)
    returns (replies: seq<Reply>, mapSize: nat, locked: seq<int>, ghost loose: set<nat>,
             ghost trace: Trace, ghost requests: seq<TdbLocks.Request>)
    requires HeadOffset(size + 128 + 1) < WORD_LIMIT
    ensures |replies| <= |ops| && exists maps :: RepliesOfMap(ops[..|replies|], replies, maps)
    ensures var r := DoAll(if size == 0 then 128 else size, hash, ops[..|replies|]);
            replies == r.0 && mapSize == r.1.pool.size
    ensures |replies| == |ops| || mapSize + Growth(ops[|replies|]) >= WORD_LIMIT
    ensures loose == {} && forall l :: 0 <= l < |locked| ==> locked[l] == 0
    ensures |requests| == |replies| && trace == TdbLocks.ScriptOf(requests)
  {
    hide Database.Intact, Database.Counted, Database.Stored, Database.InOrder, Growth, Do, Fresh;
    hide TdbLocks.TraceOf, TdbLocks.ScriptOf;
    var db := new Database(size, hash);
    replies := [];
    requests := [];
    EmptyScript();
    while |replies| < |ops| && db.mapSize + Growth(ops[|replies|]) < WORD_LIMIT
      invariant |replies| <= |ops| && db.hashSize == (if size == 0 then 128 else size) && db.hash == hash
      invariant (replies, db.Now()) == DoAll(db.hashSize, hash, ops[..|replies|])
      invariant |requests| == |replies| && db.trace == TdbLocks.ScriptOf(requests)
      invariant fresh(db) && fresh(db.mapPtr) && fresh(db.locked) && db.Valid() && Loose(db.shape) == {}
      invariant forall l :: 0 <= l < db.locked.Length ==> db.locked[l] == 0
      decreases |ops| - |replies|
    {
      var reply;
      ghost var request;
      reply, request := Perform(db, ops[|replies|]);
      ScriptSnoc(requests, request);
      assert ops[..|replies| + 1][..|replies|] == ops[..|replies|];
      requests := requests + [request];
      replies := replies + [reply];
    }
    ghost var maps := DoAllAgrees(db.hashSize, hash, ops[..|replies|]);
    mapSize := db.mapSize;
    locked := db.locked[..];
    loose := Loose(db.shape);
    trace := db.trace;
  }
}
