// Several processes on the chains of one TDB file: what the chain locks make of their operations.

module TdbShared {
  import opened Bytes
  import opened Options
  import opened Tdb
  import opened TdbHeap
  import opened TdbImage
  import opened TdbModel
  import opened TdbPool
  import opened TdbRun

  // ----- a chain

  /** The records of a bucket, newest first: each with its key, its data and the room of its block. */
  type Chain = seq<(Bytes, Entry)>

  function Find(c: Chain, k: Bytes): Option<Entry> {
    if c == [] then None else if c[0].0 == k then Some(c[0].1) else Find(c[1..], k)
  }

  function Remove(c: Chain, k: Bytes): Chain {
    if c == [] then [] else if c[0].0 == k then c[1..] else [c[0]] + Remove(c[1..], k)
  }

  function Overwrite(c: Chain, k: Bytes, e: Entry): Chain {
    if c == [] then [] else if c[0].0 == k then [(k, e)] + c[1..] else [c[0]] + Overwrite(c[1..], k, e)
  }

  /** No key is on the chain twice. */
  predicate Once(c: Chain) {
    c == [] || (Find(c[1..], c[0].0).None? && Once(c[1..]))
  }

  lemma {:induction false} FindAt(c: Chain, k: Bytes)
    ensures Find(c, k).Some? <==> exists i :: 0 <= i < |c| && c[i].0 == k
  {
    if c == [] {
    } else {
      FindAt(c[1..], k);
      assert forall i :: 0 < i < |c| ==> c[i] == c[1..][i - 1];
      if i :| 0 <= i < |c[1..]| && c[1..][i].0 == k {
        assert c[i + 1].0 == k;
      }
    }
  }

  lemma {:induction false} OnceMeans(c: Chain)
    ensures Once(c) <==> forall i, j :: 0 <= i < j < |c| ==> c[i].0 != c[j].0
  {
    if c == [] {
    } else {
      FindAt(c[1..], c[0].0);
      OnceMeans(c[1..]);
      assert forall i :: 0 < i < |c| ==> c[i] == c[1..][i - 1];
      if Once(c) {
        forall i, j | 0 <= i < j < |c|
          ensures c[i].0 != c[j].0
        {
          assert c[1..][j - 1] == c[j] && (i > 0 ==> c[1..][i - 1] == c[i]);
        }
      } else if i, j :| 0 <= i < j < |c[1..]| && c[1..][i].0 == c[1..][j].0 {
        assert c[i + 1].0 == c[j + 1].0;
      } else {
        var j :| 0 <= j < |c[1..]| && c[1..][j].0 == c[0].0;
        assert c[j + 1].0 == c[0].0;
      }
    }
  }

  lemma {:induction false} RemoveFind(c: Chain, k: Bytes, x: Bytes)
    requires Once(c)
    ensures Find(Remove(c, k), x) == if x == k then None else Find(c, x)
  {
    if c == [] {
    } else if c[0].0 != k {
      RemoveFind(c[1..], k, x);
    }
  }

  lemma {:induction false} RemoveOnce(c: Chain, k: Bytes)
    requires Once(c)
    ensures Once(Remove(c, k))
  {
    if c == [] {
    } else if c[0].0 != k {
      RemoveOnce(c[1..], k);
      RemoveFind(c[1..], k, c[0].0);
    }
  }

  lemma {:induction false} OverwriteFind(c: Chain, k: Bytes, e: Entry, x: Bytes)
    ensures Find(Overwrite(c, k, e), x) == if x == k && Find(c, k).Some? then Some(e) else Find(c, x)
  {
    if c == [] {
    } else if c[0].0 != k {
      OverwriteFind(c[1..], k, e, x);
    }
  }

  lemma {:induction false} OverwriteOnce(c: Chain, k: Bytes, e: Entry)
    requires Once(c)
    ensures Once(Overwrite(c, k, e))
  {
    if c == [] {
    } else if c[0].0 != k {
      OverwriteOnce(c[1..], k, e);
      OverwriteFind(c[1..], k, e, c[0].0);
    }
  }

  // ----- the processes

  /** Where a process is in its operation. `Leaving` still has the chain, and knows whether there is a reply yet. */
  datatype Place =
    | Called
    | InFirst
    | Leaving(next: Option<Reply>)
    | Allocating
    | InSecond
    | Linking
    | Done(reply: Reply)

  /** `since` is how many operations had taken effect when this one was called. */
  datatype Process = Idle | Busy(place: Place, op: Op, since: nat)

  /** An operation of process `who` that has taken effect. */
  datatype Event = Event(who: nat, op: Op, reply: Reply)

  datatype State = State(procs: seq<Process>, holder: map<nat, nat>, chains: seq<Chain>, log: seq<Event>)

  /** The number of buckets, and the bucket of a key. */
  datatype Hashing = Hashing(n: nat, bucket: Bytes -> nat)

  ghost predicate Sound(h: Hashing) {
    forall k :: h.bucket(k) < h.n
  }

  predicate HasChain(p: Process) {
    p.Busy? && (p.place.InFirst? || p.place.Leaving? || p.place.InSecond? || p.place.Linking?)
  }

  predicate Inserts(op: Op) {
    op.Store? && op.flag == TDB_INSERT
  }

  predicate Fits(op: Op, e: Option<Entry>)
    requires op.Store? || op.Update?
  {
    e.Some? && |op.key| + |op.data| <= e.value.room
  }

  /**
   * What an operation does under the chain lock it takes first: tdb_exists or tdb_update as a part of
   * tdb_store, or the whole of the other operations. A store that is not done by it has no reply yet.
   */
  function FirstReply(c: Chain, op: Op): Option<Reply> {
    var e := Find(c, op.key);
    match op
    case Store(k, d, flag) =>
      if flag == TDB_INSERT then (if e.Some? then Some(Code(-1)) else None)
      else if Fits(op, e) then Some(Code(0)) else None
    case Delete(k) => Some(Code(if e.Some? then 0 else -1))
    case Update(k, d) => Some(Code(if Fits(op, e) then 0 else -1))
    case Fetch(k) => Some(Data(if e.Some? then Some(e.value.data) else None))
    case Exists(k) => Some(Found(e.Some?))
  }

  function FirstChain(c: Chain, op: Op): Chain {
    var e := Find(c, op.key);
    match op
    case Store(k, d, flag) =>
      if flag != TDB_INSERT && Fits(op, e) then Overwrite(c, k, Entry(d, e.value.room)) else c
    case Delete(k) => Remove(c, k)
    case Update(k, d) => if Fits(op, e) then Overwrite(c, k, Entry(d, e.value.room)) else c
    case Fetch(k) => c
    case Exists(k) => c
  }

  datatype Action =
    | Call(op: Op)
    | Lock
    | First                // the body of the first section
    | Unlink               // the nested delete of a store that replaces
    | Link(room: nat)      // the new record at the front of the chain
    | Unlock
    | Return

  predicate Enabled(h: Hashing, s: State, i: nat, a: Action) {
    && i < |s.procs| && |s.chains| == h.n
    && (if a.Call? then s.procs[i].Idle? else s.procs[i].Busy? && h.bucket(s.procs[i].op.key) < h.n)
    && match a
       case Call(_) => true
       case Lock =>
         (s.procs[i].place.Called? || s.procs[i].place.Allocating?) && h.bucket(s.procs[i].op.key) !in s.holder
       case First => s.procs[i].place.InFirst?
       case Unlink => s.procs[i].place.InSecond? && s.procs[i].op.Store? && !Inserts(s.procs[i].op)
       case Link(room) =>
         && s.procs[i].op.Store? && NewRoom(s.procs[i].op, room)
         && (if Inserts(s.procs[i].op) then s.procs[i].place.InSecond? else s.procs[i].place.Linking?)
       case Unlock => s.procs[i].place.Leaving?
       case Return => s.procs[i].place.Done?
  }

  /** The room of a block that is allocated for a store. */
  predicate NewRoom(op: Op, room: nat)
    requires op.Store?
  {
    |op.key| + |op.data| <= room <= |op.key| + |op.data| + 52
  }

  function Next(h: Hashing, s: State, i: nat, a: Action): State
    requires Enabled(h, s, i, a)
  {
    if a.Call? then s.(procs := s.procs[i := Busy(Called, a.op, |s.log|)])
    else
      var p := s.procs[i];
      var b := h.bucket(p.op.key);
      var c := s.chains[b];
      match a
      case Lock =>
        var place := if p.place.Called? then InFirst else InSecond;
        s.(procs := s.procs[i := p.(place := place)], holder := s.holder[b := i])
      case First =>
        var reply := FirstReply(c, p.op);
        State(s.procs[i := p.(place := Leaving(reply))], s.holder, s.chains[b := FirstChain(c, p.op)],
              if reply.Some? then s.log + [Event(i, p.op, reply.value)] else s.log)
      case Unlink =>
        s.(procs := s.procs[i := p.(place := Place.Linking)], chains := s.chains[b := Remove(c, p.op.key)])
      case Link(room) =>
        State(s.procs[i := p.(place := Leaving(Some(Code(0))))], s.holder,
              s.chains[b := [(p.op.key, Entry(p.op.data, room))] + c], s.log + [Event(i, p.op, Code(0))])
      case Unlock =>
        var place := if p.place.next.Some? then Done(p.place.next.value) else Allocating;
        s.(procs := s.procs[i := p.(place := place)], holder := s.holder - {b})
      case Return => s.(procs := s.procs[i := Idle])
  }

  /** A store that inserts comes to link its record, and the key has been bound since it looked. */
  predicate Races(h: Hashing, s: State, i: nat, a: Action)
    requires Enabled(h, s, i, a)
  {
    a.Link? && Inserts(s.procs[i].op) && Find(s.chains[h.bucket(s.procs[i].op.key)], s.procs[i].op.key).Some?
  }

  ghost predicate Initial(h: Hashing, s: State) {
    && (forall i :: 0 <= i < |s.procs| ==> s.procs[i] == Idle)
    && s.holder == map[] && s.chains == seq(h.n, _ => []) && s.log == []
  }

  ghost predicate Steps(h: Hashing, s: State, s': State) {
    exists i: nat, a :: Enabled(h, s, i, a) && s' == Next(h, s, i, a)
  }

  ghost predicate RaceSteps(h: Hashing, s: State, s': State) {
    exists i: nat, a :: Enabled(h, s, i, a) && s' == Next(h, s, i, a) && Races(h, s, i, a)
  }

  ghost predicate IsRun(h: Hashing, run: seq<State>) {
    && run != [] && Initial(h, run[0])
    && forall k :: 0 < k < |run| ==> Steps(h, run[k - 1], run[k])
  }

  // ----- one map for all

  /**
   * What an operation means among others: as alone, only that a store may make a new record although
   * another process has bound the key, with room enough, after the store has looked.
   */
  ghost predicate AgreesAmong(m: Table, op: Op, reply: Reply, m': Table) {
    || Agrees(m, op, reply, m')
    || (op.Store? && !Inserts(op) && reply == Code(0) && op.key in m' && NewRoom(op, m'[op.key].room)
        && m' == m[op.key := Entry(op.data, m'[op.key].room)])
  }

  function Lookup(m: Table, k: Bytes): Option<Entry> {
    if k in m then Some(m[k]) else None
  }

  /** A process has a chain exactly when the lock table says so. */
  ghost predicate Locked(h: Hashing, s: State) {
    forall i :: 0 <= i < |s.procs| && HasChain(s.procs[i]) ==>
      h.bucket(s.procs[i].op.key) in s.holder && s.holder[h.bucket(s.procs[i].op.key)] == i
  }

  /** A store has taken the old record of the key out and not put the new one in yet. */
  ghost predicate Hidden(s: State, k: Bytes) {
    exists i :: 0 <= i < |s.procs| && Relinks(s.procs[i], k)
  }

  predicate Relinks(p: Process, k: Bytes) {
    p.Busy? && p.place.Linking? && p.op.key == k
  }

  ghost predicate AllOnce(h: Hashing, s: State) {
    |s.chains| == h.n && forall b :: 0 <= b < h.n ==> Once(s.chains[b])
  }

  ghost predicate Shows(h: Hashing, s: State, m: Table, k: Bytes) {
    h.bucket(k) < |s.chains| && Find(s.chains[h.bucket(k)], k) == if Hidden(s, k) then None else Lookup(m, k)
  }

  /** The chains hold the map `m`. */
  ghost predicate Consistent(h: Hashing, s: State, m: Table) {
    Locked(h, s) && AllOnce(h, s) && forall k :: Shows(h, s, m, k)
  }

  lemma LockedStep(h: Hashing, s: State, i: nat, a: Action)
    requires Enabled(h, s, i, a) && Locked(h, s)
    ensures Locked(h, Next(h, s, i, a))
  {
    var s' := Next(h, s, i, a);
    forall j | 0 <= j < |s'.procs| && HasChain(s'.procs[j])
      ensures h.bucket(s'.procs[j].op.key) in s'.holder && s'.holder[h.bucket(s'.procs[j].op.key)] == j
    {
      if j != i {
        assert HasChain(s.procs[j]);
      } else if !a.Lock? {
        assert HasChain(s.procs[i]);
      }
    }
  }

  /** In the bucket whose chain a process has, only its own key can be hidden. */
  lemma OwnBucket(h: Hashing, s: State, i: nat, k: Bytes)
    requires Locked(h, s) && i < |s.procs| && HasChain(s.procs[i]) && h.bucket(k) == h.bucket(s.procs[i].op.key)
    ensures Hidden(s, k) <==> Relinks(s.procs[i], k)
  {
    if Hidden(s, k) {
      var j :| 0 <= j < |s.procs| && Relinks(s.procs[j], k);
      assert HasChain(s.procs[j]) && j == i;
    }
  }

  /** A step of a process that is not linking before or after hides and shows nothing. */
  lemma SameHidden(s: State, s': State, i: nat, k: Bytes)
    requires i < |s.procs| == |s'.procs| && s'.procs == s.procs[i := s'.procs[i]]
    requires Relinks(s.procs[i], k) == Relinks(s'.procs[i], k)
    ensures Hidden(s', k) == Hidden(s, k)
  {
    if Hidden(s, k) {
      var j :| 0 <= j < |s.procs| && Relinks(s.procs[j], k);
      assert Relinks(s'.procs[j], k);
    }
    if Hidden(s', k) {
      var j :| 0 <= j < |s'.procs| && Relinks(s'.procs[j], k);
      assert Relinks(s.procs[j], k);
    }
  }

  lemma QuietStep(h: Hashing, s: State, i: nat, a: Action, m: Table)
    requires Enabled(h, s, i, a) && Consistent(h, s, m) && (a.Call? || a.Lock? || a.Unlock? || a.Return?)
    ensures Consistent(h, Next(h, s, i, a), m) && Next(h, s, i, a).log == s.log
  {
    var s' := Next(h, s, i, a);
    LockedStep(h, s, i, a);
    assert AllOnce(h, s');
    forall k
      ensures Shows(h, s', m, k)
    {
      assert Shows(h, s, m, k);
      SameHidden(s, s', i, k);
    }
  }

  /** The map after the body of a first section. */
  function FirstMap(c: Chain, op: Op, m: Table): Table {
    var e := Find(c, op.key);
    match op
    case Store(k, d, flag) =>
      if flag != TDB_INSERT && Fits(op, e) then m[k := Entry(d, e.value.room)] else m
    case Delete(k) => m - {k}
    case Update(k, d) => if Fits(op, e) then m[k := Entry(d, e.value.room)] else m
    case _ => m
  }

  lemma FirstOnce(c: Chain, op: Op)
    requires Once(c)
    ensures Once(FirstChain(c, op))
  {
    var e := Find(c, op.key);
    match op
    case Store(k, d, flag) => if flag != TDB_INSERT && Fits(op, e) { OverwriteOnce(c, k, Entry(d, e.value.room)); }
    case Delete(k) => RemoveOnce(c, k);
    case Update(k, d) => if Fits(op, e) { OverwriteOnce(c, k, Entry(d, e.value.room)); }
    case _ =>
  }

  lemma FirstFind(c: Chain, op: Op, m: Table, x: Bytes)
    requires Once(c) && Find(c, x) == Lookup(m, x)
    ensures Find(FirstChain(c, op), x) == Lookup(FirstMap(c, op, m), x)
  {
    var e := Find(c, op.key);
    match op
    case Store(k, d, flag) => if flag != TDB_INSERT && Fits(op, e) { OverwriteFind(c, k, Entry(d, e.value.room), x); }
    case Delete(k) => RemoveFind(c, k, x);
    case Update(k, d) => if Fits(op, e) { OverwriteFind(c, k, Entry(d, e.value.room), x); }
    case _ =>
  }

  lemma FirstElsewhere(c: Chain, op: Op, m: Table, x: Bytes)
    requires x != op.key
    ensures Lookup(FirstMap(c, op, m), x) == Lookup(m, x)
  {
  }

  /** A first section that ends the operation does what the operation means; one that does not changes nothing. */
  lemma FirstAgrees(c: Chain, op: Op, m: Table)
    requires Find(c, op.key) == Lookup(m, op.key)
    ensures var reply := FirstReply(c, op);
            if reply.Some? then Agrees(m, op, reply.value, FirstMap(c, op, m)) else FirstMap(c, op, m) == m
  {
    if op.Delete? && op.key !in m {
      assert m - {op.key} == m;
    }
  }

  lemma FirstStep(h: Hashing, s: State, i: nat, m: Table) returns (m': Table)
    requires Enabled(h, s, i, First) && Consistent(h, s, m)
    ensures var s' := Next(h, s, i, First);
            && Consistent(h, s', m')
            && (if s'.log == s.log then m' == m
                else |s'.log| == |s.log| + 1 && s'.log[..|s.log|] == s.log &&
                     Agrees(m, s'.log[|s.log|].op, s'.log[|s.log|].reply, m'))
  {
    hide Once, Find, FirstReply, FirstChain, FirstMap, Agrees;
    var s', op := Next(h, s, i, First), s.procs[i].op;
    var b := h.bucket(op.key);
    var c := s.chains[b];
    m' := FirstMap(c, op, m);
    LockedStep(h, s, i, First);
    assert Shows(h, s, m, op.key);
    OwnBucket(h, s, i, op.key);
    FirstAgrees(c, op, m);
    FirstOnce(c, op);
    forall k
      ensures Shows(h, s', m', k)
    {
      assert Shows(h, s, m, k);
      SameHidden(s, s', i, k);
      if h.bucket(k) == b {
        OwnBucket(h, s, i, k);
        FirstFind(c, op, m, k);
      } else {
        FirstElsewhere(c, op, m, k);
      }
    }
  }

  lemma UnlinkStep(h: Hashing, s: State, i: nat, m: Table)
    requires Enabled(h, s, i, Unlink) && Consistent(h, s, m)
    ensures Consistent(h, Next(h, s, i, Unlink), m) && Next(h, s, i, Unlink).log == s.log
  {
    hide Once, Find, Remove;
    var s', op := Next(h, s, i, Unlink), s.procs[i].op;
    var b := h.bucket(op.key);
    LockedStep(h, s, i, Unlink);
    RemoveOnce(s.chains[b], op.key);
    forall k
      ensures Shows(h, s', m, k)
    {
      assert Shows(h, s, m, k);
      if k != op.key {
        SameHidden(s, s', i, k);
      }
      if h.bucket(k) == b {
        OwnBucket(h, s, i, k);
        OwnBucket(h, s', i, k);
        RemoveFind(s.chains[b], op.key, k);
      }
    }
  }

  lemma LinkStep(h: Hashing, s: State, i: nat, room: nat, m: Table) returns (m': Table)
    requires Enabled(h, s, i, Link(room)) && Consistent(h, s, m) && !Races(h, s, i, Link(room))
    ensures var s', op := Next(h, s, i, Link(room)), s.procs[i].op;
            && Consistent(h, s', m') && s'.log == s.log + [Event(i, op, Code(0))]
            && AgreesAmong(m, op, Code(0), m')
  {
    var s', op := Next(h, s, i, Link(room)), s.procs[i].op;
    var b := h.bucket(op.key);
    var c := s.chains[b];
    m' := m[op.key := Entry(op.data, room)];
    LockedStep(h, s, i, Link(room));
    assert Shows(h, s, m, op.key);
    OwnBucket(h, s, i, op.key);
    assert Find(c, op.key) == None;
    LinkChain(c, op.key, Entry(op.data, room));
    hide Once, Find;
    forall k
      ensures Shows(h, s', m', k)
    {
      assert Shows(h, s, m, k);
      if k != op.key {
        SameHidden(s, s', i, k);
      }
      if h.bucket(k) == b {
        OwnBucket(h, s, i, k);
        OwnBucket(h, s', i, k);
        LinkFind(c, op.key, Entry(op.data, room), k);
      }
    }
  }

  lemma LinkChain(c: Chain, k: Bytes, e: Entry)
    requires Once(c)
    ensures Once([(k, e)] + c) <==> Find(c, k).None?
  {
    assert ([(k, e)] + c)[1..] == c;
  }

  lemma LinkFind(c: Chain, k: Bytes, e: Entry, x: Bytes)
    ensures Find([(k, e)] + c, x) == if x == k then Some(e) else Find(c, x)
  {
    assert ([(k, e)] + c)[1..] == c;
  }

  // ----- runs

  /** The operations, in the order in which they took effect, are those of one map that starts empty. */
  ghost predicate Linear(log: seq<Event>, maps: seq<Table>) {
    && |maps| == |log| + 1 && maps[0] == map[]
    && forall j :: 0 <= j < |log| ==> AgreesAmong(maps[j], log[j].op, log[j].reply, maps[j + 1])
  }

  lemma StepLinear(h: Hashing, s: State, s': State, maps: seq<Table>) returns (maps': seq<Table>)
    requires Steps(h, s, s') && !RaceSteps(h, s, s') && Linear(s.log, maps) && Consistent(h, s, maps[|s.log|])
    ensures Linear(s'.log, maps') && Consistent(h, s', maps'[|s'.log|])
  {
    hide Consistent, Enabled, Races, Agrees;
    var i: nat, a :| Enabled(h, s, i, a) && s' == Next(h, s, i, a);
    var m := maps[|s.log|];
    maps' := maps;
    if a.Call? || a.Lock? || a.Unlock? || a.Return? {
      QuietStep(h, s, i, a, m);
    } else if a.First? {
      var m' := FirstStep(h, s, i, m);
      if s'.log != s.log {
        maps' := maps + [m'];
      }
    } else if a.Unlink? {
      UnlinkStep(h, s, i, m);
    } else {
      assert !Races(h, s, i, a);
      var m' := LinkStep(h, s, i, a.room, m);
      maps' := maps + [m'];
    }
  }

  /** Up to here no store that inserts has found its key bound when it came to link its record. */
  ghost predicate NoRace(h: Hashing, run: seq<State>, k: nat)
    requires k < |run|
  {
    forall j :: 0 < j <= k ==> !RaceSteps(h, run[j - 1], run[j])
  }

  /**
   * Without a race the operations of all processes are those of one map: there is an order of them, with
   * maps between, in which every reply is right, and the chains hold the last map, no key twice.
   */
  lemma {:induction false} RunLinear(h: Hashing, run: seq<State>, k: nat) returns (maps: seq<Table>)
    requires Sound(h) && IsRun(h, run) && k < |run| && NoRace(h, run, k)
    ensures Linear(run[k].log, maps) && Consistent(h, run[k], maps[|run[k].log|])
  {
    hide Steps, RaceSteps, AgreesAmong;
    if k == 0 {
      maps := [map[]];
      assert forall x :: Shows(h, run[0], map[], x);
    } else {
      maps := RunLinear(h, run, k - 1);
      maps := StepLinear(h, run[k - 1], run[k], maps);
    }
  }

  /** A race puts the key on its chain a second time. */
  lemma RaceDoubles(h: Hashing, s: State, s': State)
    requires RaceSteps(h, s, s')
    ensures !AllOnce(h, s')
  {
    var i: nat, a :| Enabled(h, s, i, a) && s' == Next(h, s, i, a) && Races(h, s, i, a);
    var op := s.procs[i].op;
    var b := h.bucket(op.key);
    var c := s.chains[b];
    assert s'.chains[b] == [(op.key, Entry(op.data, a.room))] + c;
    assert ([(op.key, Entry(op.data, a.room))] + c)[1..] == c;
    assert !Once(s'.chains[b]);
  }

  /** In any run no key is on a chain twice, at any moment, exactly as long as no store races. */
  lemma OnceExactly(h: Hashing, run: seq<State>, k: nat)
    requires Sound(h) && IsRun(h, run) && k < |run|
    ensures (forall j :: 0 <= j <= k ==> AllOnce(h, run[j])) <==> NoRace(h, run, k)
  {
    hide Steps, RaceSteps, AllOnce;
    if NoRace(h, run, k) {
      forall j | 0 <= j <= k
        ensures AllOnce(h, run[j])
      {
        var maps := RunLinear(h, run, j);
      }
    } else {
      var j :| 0 < j <= k && RaceSteps(h, run[j - 1], run[j]);
      RaceDoubles(h, run[j - 1], run[j]);
    }
  }

  /** Without stores that insert there is no race: replacing, deleting, updating and reading are safe. */
  lemma ReplacingNeverRaces(h: Hashing, run: seq<State>, k: nat)
    requires k < |run|
    requires forall j, i :: 0 <= j <= k && 0 <= i < |run[j].procs| && run[j].procs[i].Busy? ==>
               !Inserts(run[j].procs[i].op)
    ensures NoRace(h, run, k)
  {
    hide Next;
  }

  // ----- a process alone

  function Names(c: Chain): seq<Bytes> {
    seq(|c|, i requires 0 <= i < |c| => c[i].0)
  }

  lemma {:induction false} NamesRemove(c: Chain, k: Bytes)
    ensures Names(Remove(c, k)) == Without(Names(c), k)
  {
    if c == [] {
    } else {
      NamesRemove(c[1..], k);
      assert Names(c)[1..] == Names(c[1..]);
      assert Names([c[0]] + Remove(c[1..], k)) == [c[0].0] + Names(Remove(c[1..], k));
    }
  }

  lemma {:induction false} NamesOverwrite(c: Chain, k: Bytes, e: Entry)
    ensures Names(Overwrite(c, k, e)) == Names(c)
  {
    if c == [] {
    } else {
      NamesOverwrite(c[1..], k, e);
      assert Names(c)[1..] == Names(c[1..]);
      assert Names([c[0]] + Overwrite(c[1..], k, e)) == [c[0].0] + Names(Overwrite(c[1..], k, e));
    }
  }

  /**
   * The sections of an operation, when no other process comes between, do what the operation does alone:
   * the first one all of it, or with the second one the reply and the order of the chain.
   */
  lemma AloneAsDone(c: Chain, m: Model, b: nat, op: Op)
    requires b < |m.chains| && Names(c) == m.chains[b] && Find(c, op.key) == Lookup(m.table, op.key)
    ensures var (reply, m') := Do(m, b, op); var first := FirstReply(c, op);
            if first.Some?
            then
              && reply == first.value && m'.table == FirstMap(c, op, m.table)
              && m'.chains[b] == Names(FirstChain(c, op))
            else reply == Code(0) && m'.chains[b] == [op.key] + Names(if Inserts(op) then c else Remove(c, op.key))
  {
    hide Allocate, Find;
    NamesRemove(c, op.key);
    if Find(c, op.key).Some? && (op.Store? || op.Update?) {
      NamesOverwrite(c, op.key, Entry(op.data, Find(c, op.key).value.room));
    }
    if op.Delete? && op.key !in m.table {
      FindAt(c, op.key);
      assert op.key !in Names(c);
      WithoutAbsent(Names(c), op.key);
      assert m.table - {op.key} == m.table;
    }
    if op.Store? && op.key !in m.table {
      FindAt(c, op.key);
      assert op.key !in Names(c);
      WithoutAbsent(Names(c), op.key);
    }
  }

  // ----- replies and their time

  /** The reply of a process whose operation has taken effect. */
  function ReplyOf(p: Process): Option<Reply> {
    if p.Idle? then None
    else match p.place
         case Leaving(next) => next
         case Done(reply) => Some(reply)
         case _ => None
  }

  /** Since it was called, the operation has taken effect once, with this reply; or not at all, without one. */
  ghost predicate Timely(s: State, i: nat)
    requires i < |s.procs| && s.procs[i].Busy?
  {
    var p := s.procs[i];
    && p.since <= |s.log|
    && (ReplyOf(p).None? ==> forall e :: p.since <= e < |s.log| ==> s.log[e].who != i)
    && (ReplyOf(p).Some? ==> exists e :: p.since <= e < |s.log| && TookEffect(s.log, p.since, e, i)
                                         && s.log[e] == Event(i, p.op, ReplyOf(p).value))
  }

  /** Event `e` is the only one of process `i` since `since`. */
  ghost predicate TookEffect(log: seq<Event>, since: nat, e: int, i: nat) {
    since <= e < |log| && log[e].who == i && forall d :: since <= d < |log| && log[d].who == i ==> d == e
  }

  lemma StepTimely(h: Hashing, s: State, j: nat, a: Action, i: nat)
    requires Enabled(h, s, j, a) && i < |s.procs|
    requires s.procs[i].Busy? ==> Timely(s, i)
    ensures Next(h, s, j, a).procs[i].Busy? ==> Timely(Next(h, s, j, a), i)
  {
    hide FirstReply, FirstChain;
    var s' := Next(h, s, j, a);
    var p, p' := s.procs[i], s'.procs[i];
    if p'.Busy? && p.Busy? {
      if ReplyOf(p).Some? {
        var e :| p.since <= e < |s.log| && TookEffect(s.log, p.since, e, i)
                 && s.log[e] == Event(i, p.op, ReplyOf(p).value);
        assert TookEffect(s'.log, p.since, e, i);
      } else if ReplyOf(p').Some? {
        assert TookEffect(s'.log, p.since, |s.log|, i);
      }
    }
  }

  /**
   * What a process is told took effect in its own time: after its call, exactly once, and before it
   * returns. So the order in RunLinear respects the order of operations that do not overlap.
   */
  lemma {:induction false} RepliesInTime(h: Hashing, run: seq<State>, k: nat, i: nat)
    requires IsRun(h, run) && k < |run| && i < |run[k].procs|
    ensures run[k].procs[i].Busy? ==> Timely(run[k], i)
  {
    hide Timely;
    if k == 0 {
    } else {
      assert Steps(h, run[k - 1], run[k]);
      var j: nat, a :| Enabled(h, run[k - 1], j, a) && run[k] == Next(h, run[k - 1], j, a);
      RepliesInTime(h, run, k - 1, i);
      StepTimely(h, run[k - 1], j, a, i);
    }
  }

  // ----- two stores that insert the same key

  ghost predicate Leads(h: Hashing, s: State, s': State, n: nat)
    decreases n
  {
    if n == 0 then s == s' else exists i: nat, a :: Enabled(h, s, i, a) && Leads(h, Next(h, s, i, a), s', n - 1)
  }

  lemma LeadsOn(h: Hashing, s: State, i: nat, a: Action, s': State, n: nat)
    requires Enabled(h, s, i, a) && Leads(h, Next(h, s, i, a), s', n)
    ensures Leads(h, s, s', n + 1)
  {
  }

  lemma LeadsNowhere(h: Hashing, s: State, s': State)
    requires Leads(h, s, s', 0)
    ensures s == s'
  {
  }

  lemma LeadsFirst(h: Hashing, s: State, s': State, n: nat) returns (i: nat, a: Action)
    requires n > 0 && Leads(h, s, s', n)
    ensures Enabled(h, s, i, a) && Leads(h, Next(h, s, i, a), s', n - 1)
  {
    hide Next, Enabled;
    i, a :| Enabled(h, s, i, a) && Leads(h, Next(h, s, i, a), s', n - 1);
  }

  lemma {:induction false} LeadsThen(h: Hashing, s: State, s': State, m: nat, s'': State, n: nat)
    requires Leads(h, s, s', m) && Leads(h, s', s'', n)
    ensures Leads(h, s, s'', m + n)
    decreases m
  {
    hide Next, Enabled, Leads;
    if m == 0 {
      LeadsNowhere(h, s, s');
    } else {
      var i, a := LeadsFirst(h, s, s', m);
      LeadsThen(h, Next(h, s, i, a), s', m - 1, s'', n);
      LeadsOn(h, s, i, a, s'', m - 1 + n);
    }
  }

  /** An insert of a key that is not there looks, and goes for a block. */
  lemma Looks(h: Hashing, s: State, i: nat, op: Op)
    requires i < |s.procs| && s.procs[i] == Idle && Inserts(op) && |s.chains| == h.n && h.bucket(op.key) < h.n
    requires h.bucket(op.key) !in s.holder && Find(s.chains[h.bucket(op.key)], op.key) == None
    ensures Leads(h, s, s.(procs := s.procs[i := Busy(Allocating, op, |s.log|)]), 4)
  {
    hide Find, Leads;
    var b := h.bucket(op.key);
    var s1 := s.(procs := s.procs[i := Busy(Called, op, |s.log|)]);
    var s2 := s.(procs := s.procs[i := Busy(InFirst, op, |s.log|)], holder := s.holder[b := i]);
    var s3 := s.(procs := s.procs[i := Busy(Leaving(None), op, |s.log|)], holder := s.holder[b := i]);
    var s4 := s.(procs := s.procs[i := Busy(Allocating, op, |s.log|)]);
    assert Next(h, s, i, Call(op)) == s1;
    assert Next(h, s1, i, Action.Lock) == s2;
    assert Next(h, s2, i, First) == s3;
    assert s.holder[b := i] - {b} == s.holder;
    assert Next(h, s3, i, Unlock) == s4;
    LeadsHere(h, s4);
    LeadsOn(h, s3, i, Unlock, s4, 0);
    LeadsOn(h, s2, i, First, s4, 1);
    LeadsOn(h, s1, i, Action.Lock, s4, 2);
    LeadsOn(h, s, i, Call(op), s4, 3);
  }

  lemma LeadsHere(h: Hashing, s: State)
    ensures Leads(h, s, s, 0)
  {
  }

  /** With its block, it puts the record on the chain without looking again. */
  lemma Links(h: Hashing, s: State, i: nat, op: Op, since: nat, room: nat)
    requires i < |s.procs| && s.procs[i] == Busy(Allocating, op, since) && Inserts(op) && NewRoom(op, room)
    requires |s.chains| == h.n && h.bucket(op.key) < h.n && h.bucket(op.key) !in s.holder
    ensures var b := h.bucket(op.key);
            Leads(h, s, State(s.procs[i := Busy(Done(Code(0)), op, since)], s.holder,
                              s.chains[b := [(op.key, Entry(op.data, room))] + s.chains[b]],
                              s.log + [Event(i, op, Code(0))]), 3)
  {
    hide Leads;
    var b := h.bucket(op.key);
    var chains, log := s.chains[b := [(op.key, Entry(op.data, room))] + s.chains[b]], s.log + [Event(i, op, Code(0))];
    var s1 := s.(procs := s.procs[i := Busy(InSecond, op, since)], holder := s.holder[b := i]);
    var s2 := State(s.procs[i := Busy(Leaving(Some(Code(0))), op, since)], s.holder[b := i], chains, log);
    var s3 := State(s.procs[i := Busy(Done(Code(0)), op, since)], s.holder, chains, log);
    assert Next(h, s, i, Action.Lock) == s1;
    assert Next(h, s1, i, Link(room)) == s2;
    assert s.holder[b := i] - {b} == s.holder;
    assert Next(h, s2, i, Unlock) == s3;
    LeadsHere(h, s3);
    LeadsOn(h, s2, i, Unlock, s3, 0);
    LeadsOn(h, s1, i, Link(room), s3, 1);
    LeadsOn(h, s, i, Action.Lock, s3, 2);
  }

  /**
   * Two processes insert the same key into an empty file, whatever the key and the data: both can be told
   * that they have, and the key is on its chain twice.
   */
  lemma BothInsert(h: Hashing, s: State, op: Op, op': Op) returns (s': State)
    requires Sound(h) && Initial(h, s) && |s.procs| == 2
    requires Inserts(op) && Inserts(op') && op.key == op'.key
    ensures Leads(h, s, s', 14) && s'.procs == [Busy(Done(Code(0)), op, 0), Busy(Done(Code(0)), op', 0)]
    ensures !AllOnce(h, s')
  {
    hide Leads;
    var b, room, room' := h.bucket(op.key), |op.key| + |op.data|, |op'.key| + |op'.data|;
    var s1 := s.(procs := s.procs[0 := Busy(Allocating, op, 0)]);
    var s2 := s.(procs := [Busy(Allocating, op, 0), Busy(Allocating, op', 0)]);
    Looks(h, s, 0, op);
    Looks(h, s1, 1, op');
    assert s1.procs[1 := Busy(Allocating, op', 0)] == s2.procs;
    Links(h, s2, 0, op, 0, room);
    var s3 := State(s2.procs[0 := Busy(Done(Code(0)), op, 0)], s.holder,
                    s.chains[b := [(op.key, Entry(op.data, room))] + s.chains[b]], s.log + [Event(0, op, Code(0))]);
    Links(h, s3, 1, op', 0, room');
    s' := State(s3.procs[1 := Busy(Done(Code(0)), op', 0)], s.holder,
                s3.chains[b := [(op'.key, Entry(op'.data, room'))] + s3.chains[b]], s3.log + [Event(1, op', Code(0))]);
    LeadsThen(h, s, s1, 4, s2, 4);
    LeadsThen(h, s, s2, 8, s3, 3);
    LeadsThen(h, s, s3, 11, s', 3);
    assert s.chains[b] == [] && s3.chains[b] == [(op.key, Entry(op.data, room))] + s.chains[b];
    LinkChain(s.chains[b], op.key, Entry(op.data, room));
    LinkChain(s3.chains[b], op'.key, Entry(op'.data, room'));
    assert s'.chains[b] == [(op'.key, Entry(op'.data, room'))] + s3.chains[b];
    LinkFind(s.chains[b], op.key, Entry(op.data, room), op.key);
  }

  /** But in no order can both inserts of a key succeed on one map. */
  lemma NoOrder(op: Op, op': Op, m: Table, m': Table, m'': Table)
    requires Inserts(op) && Inserts(op') && op.key == op'.key
    requires AgreesAmong(m, op, Code(0), m')
    ensures !AgreesAmong(m', op', Code(0), m'')
  {
  }
}
