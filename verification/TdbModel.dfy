// A TDB database as its callers can tell it from another: the map, the keys of each chain, the lengths of
// the free blocks, and the size of the image.

module TdbModel {
  import opened Bytes
  import opened TdbHeap
  import opened TdbPool

  type Table = map<Bytes, Entry>

  datatype Model = Model(table: Table, chains: seq<seq<Bytes>>, pool: Pool)

  /** What a new database with `n` chains holds: nothing, in 40 bytes of header and 4 for each list. */
  function Fresh(n: nat): Model {
    Model(map[], seq(n, _ => []), Pool(40 + 4 * (n + 1), []))
  }

  /** A chain without the key, wherever it is. */
  function Without(c: seq<Bytes>, k: Bytes): seq<Bytes> {
    if c == [] then [] else if c[0] == k then c[1..] else [c[0]] + Without(c[1..], k)
  }

  lemma {:induction false} WithoutAt(c: seq<Bytes>, k: Bytes, i: nat)
    requires i < |c| && c[i] == k && forall j :: 0 <= j < i ==> c[j] != k
    ensures Without(c, k) == c[..i] + c[i + 1..]
  {
    if i == 0 {
    } else {
      WithoutAt(c[1..], k, i - 1);
      assert c == [c[0]] + c[1..];
    }
  }

  lemma {:induction false} WithoutAbsent(c: seq<Bytes>, k: Bytes)
    requires k !in c
    ensures Without(c, k) == c
  {
    if c == [] {
    } else {
      WithoutAbsent(c[1..], k);
      assert c == [c[0]] + c[1..];
    }
  }

  /** New data where the old is. */
  function Updated(m: Model, k: Bytes, d: Bytes): Model
    requires k in m.table
  {
    m.(table := m.table[k := Entry(d, m.table[k].room)])
  }

  /** The block of the key is the first free one. */
  function Deleted(m: Model, b: nat, k: Bytes): (m': Model)
    requires b < |m.chains|
    ensures |m'.chains| == |m.chains|
  {
    if k in m.table
    then Model(m.table - {k}, m.chains[b := Without(m.chains[b], k)],
               m.pool.(frees := [m.table[k].room] + m.pool.frees))
    else m
  }

  /** A key that is not there, at the front of its chain. */
  function Inserted(m: Model, b: nat, k: Bytes, e: Entry): Model
    requires b < |m.chains|
  {
    m.(table := m.table[k := e], chains := m.chains[b := [k] + m.chains[b]])
  }

  /** First the new block, then the old record out, then the new one in. */
  function StoredNew(m: Model, b: nat, k: Bytes, d: Bytes): Model
    requires b < |m.chains|
  {
    var (room, p) := Allocate(m.pool, |k| + |d|);
    Inserted(Deleted(m.(pool := p), b, k), b, k, Entry(d, room))
  }

  lemma StoredNewParts(m: Model, b: nat, k: Bytes, d: Bytes, m': Model, room: nat)
    requires b < |m.chains| && m' == m.(pool := m'.pool) && (room, m'.pool) == Allocate(m.pool, |k| + |d|)
    ensures StoredNew(m, b, k, d) == Inserted(Deleted(m', b, k), b, k, Entry(d, room))
    ensures k !in m.table ==> Deleted(m', b, k) == m'
  {
  }
}
