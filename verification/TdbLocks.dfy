// Several processes on one TDB file, each running data operations: the record
// locks they take exclude one another and never leave all of them waiting.

module TdbLocks {
  import opened TdbTrace

  /** A data operation and how it goes, as far as that decides the locks it takes. */
  datatype Request =
    // update, fetch, exists
    | Lookup(bucket: nat)
    // delete
    | Remove(bucket: nat, found: bool)
    // store
    | Put(bucket: nat, done: bool, expanded: bool, insert: bool, found: bool)
    // store that gets no block, whether or not it has tried to expand the file
    | PutFails(bucket: nat, expanded: bool)
    // traverse, firstkey, nextkey
    | Scan(first: nat, end: nat)

  function TraceOf(r: Request): Trace {
    match r
    case Lookup(b) => Section(b)
    case Remove(b, found) => DeleteTrace(b, found)
    case Put(b, done, expanded, insert, found) => StoreTrace(b, done, expanded, insert, found)
    case PutFails(b, expanded) => Section(b) + AllocateTrace(expanded)
    case Scan(lo, hi) => Sections(lo, hi)
  }

  function ScriptOf(rs: seq<Request>): Trace {
    if rs == [] then [] else TraceOf(rs[0]) + ScriptOf(rs[1..])
  }

  /** `held` is what `locked[]` counts, one entry a nesting level; `todo` is what is still to be called. */
  datatype Process = Process(held: multiset<int>, todo: Trace)

  /** `holder` is the table of byte-range locks the system keeps, one byte for each list. */
  datatype State = State(procs: seq<Process>, holder: map<int, nat>)

  /** Process `i` can make its next call; a first tdb_lock of a list waits while another process has the byte. */
  predicate Enabled(s: State, i: nat) {
    && i < |s.procs| && s.procs[i].todo != []
    && match s.procs[i].todo[0]
       case Acquire(l) => s.procs[i].held[l] > 0 || l !in s.holder
       case Release(l) => true
  }

  /**
   * The call itself: only the outermost lock and unlock of a list touch the byte-range lock, and an
   * unlock of a list that is not locked changes nothing.
   */
  function Next(s: State, i: nat): State
    requires Enabled(s, i)
  {
    var p := s.procs[i];
    match p.todo[0]
    case Acquire(l) =>
      State(s.procs[i := Process(p.held + multiset{l}, p.todo[1..])],
            if p.held[l] == 0 then s.holder[l := i] else s.holder)
    case Release(l) =>
      State(s.procs[i := Process(p.held - multiset{l}, p.todo[1..])],
            if p.held[l] == 1 then s.holder - {l} else s.holder)
  }

  /** Every process starts without locks, and with calls that follow the locking order. */
  ghost predicate Initial(s: State) {
    && s.holder == map[]
    && forall i :: 0 <= i < |s.procs| ==>
         s.procs[i].held == multiset{} && Orderly(multiset{}, s.procs[i].todo)
  }

  ghost predicate Steps(s: State, s': State) {
    exists i: nat :: Enabled(s, i) && s' == Next(s, i)
  }

  ghost predicate IsRun(run: seq<State>) {
    && run != [] && Initial(run[0])
    && forall k :: 0 < k < |run| ==> Steps(run[k - 1], run[k])
  }

  // ----- the locking order

  /**
   * The calls left are balanced, and a process that asks for a list it does not have yet either has
   * none at all or asks for the allocation list.
   */
  predicate Orderly(held: multiset<int>, todo: Trace)
    decreases |todo|
  {
    if todo == [] then held == multiset{}
    else match todo[0]
      case Acquire(l) =>
        (held[l] > 0 || l == ALLOC || held == multiset{}) && Orderly(held + multiset{l}, todo[1..])
      case Release(l) =>
        held[l] > 0 && Orderly(held - multiset{l}, todo[1..])
  }

  /** A chain may be asked for: it is held already, or nothing is. */
  predicate MayAsk(held: multiset<int>, b: int) {
    held[b] > 0 || held == multiset{}
  }

  // What a process may do next while it holds `held`, and that it then holds the same as before.

  lemma SectionExactly(held: multiset<int>, l: int, rest: Trace)
    ensures Orderly(held, Section(l) + rest) <==> (MayAsk(held, l) || l == ALLOC) && Orderly(held, rest)
  {
    var t := Section(l) + rest;
    assert t[0] == Acquire(l) && t[1..] == [Release(l)] + rest;
    assert t[1..][1..] == rest && held + multiset{l} - multiset{l} == held;
  }

  lemma AllocateExactly(held: multiset<int>, expanded: bool, rest: Trace)
    ensures Orderly(held, AllocateTrace(expanded) + rest) <==> Orderly(held, rest)
  {
    var t, inner := AllocateTrace(expanded) + rest, [Release(ALLOC)] + rest;
    var more := held + multiset{ALLOC};
    assert inner[1..] == rest && more - multiset{ALLOC} == held;
    if expanded {
      SectionExactly(more, ALLOC, inner);
      assert t[1..] == Section(ALLOC) + inner;
    } else {
      assert t[1..] == inner;
    }
  }

  lemma DeleteExactly(held: multiset<int>, b: nat, found: bool, rest: Trace)
    ensures Orderly(held, DeleteTrace(b, found) + rest) <==> MayAsk(held, b) && Orderly(held, rest)
  {
    var more := (if found then Section(ALLOC) else []) + rest;
    assert DeleteTrace(b, found) + rest == Section(b) + more;
    SectionExactly(held, b, more);
    if found {
      SectionExactly(held, ALLOC, rest);
    } else {
      assert more == rest;
    }
  }

  lemma NewExactly(held: multiset<int>, b: nat, expanded: bool, insert: bool, found: bool, rest: Trace)
    ensures Orderly(held, NewTrace(b, expanded, insert, found) + rest) <==> MayAsk(held, b) && Orderly(held, rest)
  {
    var last: Trace := [Release(b)] + rest;
    var mid: Trace := if insert then [] else DeleteTrace(b, found);
    var inner := [Acquire(b)] + (mid + last);
    var more := held + multiset{b as int};
    assert NewTrace(b, expanded, insert, found) + rest == AllocateTrace(expanded) + inner;
    AllocateExactly(held, expanded, inner);
    assert inner[1..] == mid + last && last[1..] == rest && more - multiset{b as int} == held;
    if insert {
      assert mid + last == last;
    } else {
      DeleteExactly(more, b, found, last);
    }
  }

  lemma {:induction false} SectionsExactly(held: multiset<int>, lo: nat, hi: nat, rest: Trace)
    ensures Orderly(held, Sections(lo, hi) + rest) <==>
            (forall b: nat :: lo <= b < hi ==> MayAsk(held, b)) && Orderly(held, rest)
    decreases hi - lo
  {
    if lo >= hi {
      assert Sections(lo, hi) + rest == rest;
    } else {
      assert Sections(lo, hi) + rest == Sections(lo, hi - 1) + (Section(hi - 1) + rest);
      SectionsExactly(held, lo, hi - 1, Section(hi - 1) + rest);
      SectionExactly(held, hi - 1, rest);
    }
  }

  /** The request locks the chain of bucket `b`. */
  predicate Uses(r: Request, b: nat) {
    match r
    case Scan(lo, hi) => lo <= b < hi
    case _ => b == r.bucket
  }

  ghost predicate MayRun(held: multiset<int>, r: Request) {
    forall b: nat :: Uses(r, b) ==> MayAsk(held, b)
  }

  lemma RequestExactly(held: multiset<int>, r: Request, rest: Trace)
    ensures Orderly(held, TraceOf(r) + rest) <==> MayRun(held, r) && Orderly(held, rest)
  {
    hide Section, DeleteTrace, NewTrace, AllocateTrace, Sections, Orderly, MayAsk;
    if !r.Scan? {
      assert Uses(r, r.bucket);
    }
    match r {
      case Lookup(b) =>
        SectionExactly(held, b, rest);
      case Remove(b, found) =>
        DeleteExactly(held, b, found, rest);
      case Put(b, done, expanded, insert, found) =>
        if done {
          SectionExactly(held, b, rest);
        } else {
          var more := NewTrace(b, expanded, insert, found);
          TraceAssoc(Section(b), more, rest);
          SectionExactly(held, b, more + rest);
          NewExactly(held, b, expanded, insert, found, rest);
        }
      case PutFails(b, expanded) =>
        TraceAssoc(Section(b), AllocateTrace(expanded), rest);
        SectionExactly(held, b, AllocateTrace(expanded) + rest);
        AllocateExactly(held, expanded, rest);
      case Scan(lo, hi) =>
        SectionsExactly(held, lo, hi, rest);
        assert forall b: nat :: lo <= b < hi <==> Uses(r, b);
    }
  }

  lemma {:induction false} ScriptExactly(held: multiset<int>, rs: seq<Request>, rest: Trace)
    ensures Orderly(held, ScriptOf(rs) + rest) <==> (forall r :: r in rs ==> MayRun(held, r)) && Orderly(held, rest)
  {
    hide TraceOf, Orderly, MayRun;
    if rs == [] {
      assert ScriptOf(rs) + rest == rest;
    } else {
      TraceAssoc(TraceOf(rs[0]), ScriptOf(rs[1..]), rest);
      RequestExactly(held, rs[0], ScriptOf(rs[1..]) + rest);
      ScriptExactly(held, rs[1..], rest);
      assert forall r :: r in rs <==> r == rs[0] || r in rs[1..];
    }
  }

  /** Every data operation follows the locking order and gives all back, and so does any sequence of them. */
  lemma ScriptOrderly(rs: seq<Request>)
    ensures Orderly(multiset{}, ScriptOf(rs))
  {
    ScriptExactly(multiset{}, rs, []);
    assert ScriptOf(rs) + [] == ScriptOf(rs);
  }

  /** Data operations while a list is kept: a chain by tdb_lockchain, the allocation list by tdb_writelock. */
  function Keeps(l: int, rs: seq<Request>): Trace {
    [Acquire(l)] + (ScriptOf(rs) + [Release(l)])
  }

  /**
   * A kept list leaves the locking order intact exactly when the operations lock no other chain: with a
   * chain, those on its own keys; with the allocation list, none that locks a chain at all.
   */
  lemma KeepsOrderly(l: int, rs: seq<Request>)
    ensures Orderly(multiset{}, Keeps(l, rs)) <==> forall r, b: nat :: r in rs && Uses(r, b) ==> b == l
  {
    var held: multiset<int> := multiset{l};
    var t := Keeps(l, rs);
    assert t[1..] == ScriptOf(rs) + [Release(l)] && multiset{} + held == held;
    assert held - multiset{l} == multiset{} && [Release(l)][1..] == [];
    ScriptExactly(held, rs, [Release(l)]);
    assert forall r :: MayRun(held, r) <==> forall b: nat :: Uses(r, b) ==> b == l;
  }

  // ----- what every step keeps

  /** Process `i` has list `l` locked. */
  predicate Holds(s: State, i: int, l: int) {
    0 <= i < |s.procs| && s.procs[i].held[l] > 0
  }

  /** A process holds the byte of a list exactly while it counts that list as locked. */
  ghost predicate TableAgrees(s: State) {
    && (forall i, l :: Holds(s, i, l) ==> l in s.holder && s.holder[l] == i)
    && (forall l :: l in s.holder ==> Holds(s, s.holder[l], l))
  }

  ghost predicate AllOrderly(s: State) {
    forall i :: 0 <= i < |s.procs| ==> Orderly(s.procs[i].held, s.procs[i].todo)
  }

  lemma StepTable(s: State, i: nat)
    requires TableAgrees(s) && Enabled(s, i)
    ensures TableAgrees(Next(s, i))
  {
    var s' := Next(s, i);
    var a := s.procs[i].todo[0];
    forall j, l | Holds(s', j, l)
      ensures l in s'.holder && s'.holder[l] == j
    {
      assert l != a.list || j != i ==> Holds(s, j, l);
      assert s.procs[i].held[a.list] > 0 ==> Holds(s, i, a.list);
    }
    forall l | l in s'.holder
      ensures Holds(s', s'.holder[l], l)
    {
    }
  }

  lemma StepOrderly(s: State, i: nat)
    requires AllOrderly(s) && Enabled(s, i)
    ensures AllOrderly(Next(s, i))
  {
    assert Orderly(s.procs[i].held, s.procs[i].todo);
  }

  lemma {:induction false} RunKeeps(run: seq<State>, k: nat)
    requires IsRun(run) && k < |run|
    ensures TableAgrees(run[k]) && AllOrderly(run[k])
  {
    if k == 0 {
    } else {
      RunKeeps(run, k - 1);
      assert Steps(run[k - 1], run[k]);
      var i: nat :| Enabled(run[k - 1], i) && run[k] == Next(run[k - 1], i);
      StepTable(run[k - 1], i);
      StepOrderly(run[k - 1], i);
    }
  }

  // ----- the main results

  /** No two processes have the same list locked, and the lock table says who has it. */
  lemma MutualExclusion(run: seq<State>, k: nat, i: nat, j: nat, l: int)
    requires IsRun(run) && k < |run| && i < |run[k].procs| && j < |run[k].procs|
    requires Holds(run[k], i, l) && Holds(run[k], j, l)
    ensures i == j && l in run[k].holder && run[k].holder[l] == i
  {
    RunKeeps(run, k);
  }

  /** A process that waits for a chain holds no lock at all; one that holds the allocation list waits for nothing. */
  lemma WaitingHolds(run: seq<State>, k: nat, i: nat)
    requires IsRun(run) && k < |run| && i < |run[k].procs| && run[k].procs[i].todo != [] && !Enabled(run[k], i)
    ensures run[k].procs[i].todo[0].Acquire? && run[k].procs[i].held[ALLOC] == 0
    ensures run[k].procs[i].todo[0].list != ALLOC ==> run[k].procs[i].held == multiset{}
  {
    RunKeeps(run, k);
    assert Orderly(run[k].procs[i].held, run[k].procs[i].todo);
  }

  /** As long as a process has anything left to do, some process can do its next call. */
  lemma NoDeadlock(run: seq<State>, k: nat, i: nat) returns (j: nat)
    requires IsRun(run) && k < |run| && i < |run[k].procs| && run[k].procs[i].todo != []
    ensures Enabled(run[k], j)
  {
    RunKeeps(run, k);
    var s := run[k];
    j := i;
    if !Enabled(s, j) {
      WaitingHolds(run, k, j);
      j := s.holder[s.procs[j].todo[0].list];
      assert Orderly(s.procs[j].held, s.procs[j].todo);
      if !Enabled(s, j) {
        WaitingHolds(run, k, j);
        j := s.holder[ALLOC];
        assert Orderly(s.procs[j].held, s.procs[j].todo);
        if !Enabled(s, j) {
          WaitingHolds(run, k, j);
        }
      }
    }
  }

  function Work(procs: seq<Process>): nat {
    if procs == [] then 0 else Work(procs[..|procs| - 1]) + |procs[|procs| - 1].todo|
  }

  lemma {:induction false} WorkLess(procs: seq<Process>, i: nat, p: Process)
    requires i < |procs| && |p.todo| + 1 == |procs[i].todo|
    ensures Work(procs[i := p]) + 1 == Work(procs)
  {
    var n := |procs| - 1;
    if i == n {
      assert procs[i := p][..n] == procs[..n];
    } else {
      WorkLess(procs[..n], i, p);
      assert procs[i := p][..n] == procs[..n][i := p];
    }
  }

  /** Every step is progress: a run is no longer than the calls there were to make. */
  lemma {:induction false} RunsEnd(run: seq<State>, k: nat)
    requires IsRun(run) && k < |run|
    ensures Work(run[k].procs) + k == Work(run[0].procs)
  {
    if k == 0 {
    } else {
      RunsEnd(run, k - 1);
      assert Steps(run[k - 1], run[k]);
      var i: nat :| Enabled(run[k - 1], i) && run[k] == Next(run[k - 1], i);
      WorkLess(run[k - 1].procs, i, run[k].procs[i]);
    }
  }

  /** A run that cannot go on has completed every operation of every process and left every list unlocked. */
  lemma CompletedRun(run: seq<State>, s: State)
    requires IsRun(run) && s == run[|run| - 1] && forall i :: !Enabled(s, i)
    ensures s.holder == map[]
    ensures forall i :: 0 <= i < |s.procs| ==> s.procs[i].todo == [] && s.procs[i].held == multiset{}
  {
    RunKeeps(run, |run| - 1);
    forall i | 0 <= i < |s.procs|
      ensures s.procs[i].todo == [] && s.procs[i].held == multiset{}
    {
      if s.procs[i].todo != [] {
        var j := NoDeadlock(run, |run| - 1, i);
      }
      assert Orderly(s.procs[i].held, s.procs[i].todo);
    }
    assert forall l :: l in s.holder ==> Holds(s, s.holder[l], l);
  }

  // ----- and what can happen outside the order

  /** `n` calls lead from one state to the other. */
  ghost predicate Leads(s: State, s': State, n: nat)
    decreases n
  {
    if n == 0 then s == s' else exists i: nat :: Enabled(s, i) && Leads(Next(s, i), s', n - 1)
  }

  lemma LeadsOn(s: State, i: nat, s': State, n: nat)
    requires Enabled(s, i) && Leads(Next(s, i), s', n)
    ensures Leads(s, s', n + 1)
  {
  }

  /** Both processes have calls left, and neither can make its next one. */
  ghost predicate Stuck(s: State) {
    |s.procs| == 2 && s.procs[0].todo != [] && s.procs[1].todo != [] && forall i :: !Enabled(s, i)
  }

  function Two(a: Trace, b: Trace): State {
    State([Process(multiset{}, a), Process(multiset{}, b)], map[])
  }

  /** Each of two processes has what the other asks for. */
  lemma Crossed(s: State, l: int, c: int)
    requires |s.procs| == 2 && l != c && l in s.holder && c in s.holder
    requires s.procs[0].todo != [] && s.procs[0].todo[0] == Acquire(c) && s.procs[0].held[c] == 0
    requires s.procs[1].todo != [] && s.procs[1].todo[0] == Acquire(l) && s.procs[1].held[l] == 0
    ensures Stuck(s)
  {
  }

  /** The chain a request asks for first. */
  function FirstChain(r: Request): nat {
    match r
    case Scan(lo, hi) => lo
    case _ => r.bucket
  }

  lemma {:induction false} FirstSection(lo: nat, hi: nat)
    requires lo < hi
    ensures Sections(lo, hi) == Section(lo) + Sections(lo + 1, hi)
    decreases hi - lo
  {
    if lo + 1 == hi {
      assert Sections(lo, hi - 1) == [] && Sections(lo + 1, hi) == [];
    } else {
      FirstSection(lo, hi - 1);
      TraceAssoc(Section(lo), Sections(lo + 1, hi - 1), Section(hi - 1));
    }
  }

  lemma FirstCall(r: Request, b: nat)
    requires Uses(r, b)
    ensures TraceOf(r) != [] && TraceOf(r)[0] == Acquire(FirstChain(r))
  {
    if r.Scan? {
      FirstSection(r.first, r.end);
    }
  }

  lemma KeepsOne(l: int, r: Request)
    ensures Keeps(l, [r]) == [Acquire(l)] + (TraceOf(r) + [Release(l)])
  {
    assert ScriptOf([r]) == TraceOf(r) + ScriptOf([]) == TraceOf(r);
  }

  /** Each of two processes keeps a chain and asks for the other's: `a` first, when it has locked its own. */
  lemma KeptCrossed(b: nat, a: Trace, c: nat)
    requires b != c && |a| > 0 && a[0] == Acquire(c)
    ensures var s := Two([Acquire(b)] + a, Keeps(c, [Lookup(b)]));
            Enabled(s, 0) && Enabled(Next(s, 0), 1) && Stuck(Next(Next(s, 0), 1))
  {
    KeepsOne(c, Lookup(b));
    var s := Two([Acquire(b)] + a, Keeps(c, [Lookup(b)]));
    var s2 := Next(Next(s, 0), 1);
    assert s2.procs[0].todo == a && s2.procs[1].todo[0] == Acquire(b);
    assert s2.procs[0].held == multiset{} + multiset{b as int} && s2.procs[1].held == multiset{} + multiset{c as int};
    Crossed(s2, b, c);
  }

  /** The same when the first process has locked and unlocked its own chain once more in between. */
  lemma KeptCrossedLater(b: nat, a: Trace, c: nat)
    requires b != c && |a| > 0 && a[0] == Acquire(c)
    ensures var s := Two([Acquire(b)] + (Section(b) + a), Keeps(c, [Lookup(b)]));
            exists stuck :: Leads(s, stuck, 4) && Stuck(stuck)
  {
    KeepsOne(c, Lookup(b));
    var q := Process(multiset{}, Keeps(c, [Lookup(b)]));
    var h1: multiset<int> := multiset{} + multiset{b as int};
    var h2 := h1 + multiset{b as int};
    var s := Two([Acquire(b)] + (Section(b) + a), q.todo);
    var s1 := State([Process(h1, Section(b) + a), q], map[b as int := 0]);
    var s2 := State([Process(h2, [Release(b)] + a), q], map[b as int := 0]);
    var s3 := State([Process(h1, a), q], map[b as int := 0]);
    assert s.procs[0].todo[1..] == Section(b) + a;
    assert Next(s, 0) == s1;
    assert s1.procs[0].todo[1..] == [Release(b)] + a;
    assert Next(s1, 0) == s2;
    assert s2.procs[0].todo[1..] == a && h2 - multiset{b as int} == h1;
    assert Next(s2, 0) == s3;
    var s4 := Next(s3, 1);
    assert s4.procs[1].todo[0] == Acquire(b);
    Crossed(s4, b, c);
    assert Leads(s4, s4, 0);
    LeadsOn(s3, 1, s4, 0);
    LeadsOn(s2, 0, s4, 1);
    LeadsOn(s1, 0, s4, 2);
    LeadsOn(s, 0, s4, 3);
  }

  lemma KeptOther(b: nat, r: Request, d: nat) returns (stuck: State)
    requires Uses(r, d) && FirstChain(r) != b
    ensures Leads(Two(Keeps(b, [r]), Keeps(FirstChain(r), [Lookup(b)])), stuck, 2) && Stuck(stuck)
  {
    hide Stuck, TraceOf, Keeps, FirstChain;
    FirstCall(r, d);
    KeepsOne(b, r);
    var c := FirstChain(r);
    var s := Two(Keeps(b, [r]), Keeps(c, [Lookup(b)]));
    KeptCrossed(b, TraceOf(r) + [Release(b)], c);
    stuck := Next(Next(s, 0), 1);
    assert Leads(stuck, stuck, 0);
    LeadsOn(Next(s, 0), 1, stuck, 0);
    LeadsOn(s, 0, stuck, 1);
  }

  lemma KeptLonger(b: nat, end: nat) returns (stuck: State)
    requires b + 1 < end
    ensures Leads(Two(Keeps(b, [Scan(b, end)]), Keeps(b + 1, [Lookup(b)])), stuck, 4) && Stuck(stuck)
  {
    hide Stuck, Keeps, Leads, Sections;
    KeepsOne(b, Scan(b, end));
    FirstSection(b, end);
    FirstSection(b + 1, end);
    var a := Sections(b + 1, end) + [Release(b)];
    TraceAssoc(Section(b), Sections(b + 1, end), [Release(b)]);
    KeptCrossedLater(b, a, b + 1);
    stuck :| Leads(Two([Acquire(b)] + (Section(b) + a), Keeps(b + 1, [Lookup(b)])), stuck, 4) && Stuck(stuck);
  }

  /**
   * tdb_lockchain: when a process keeps a chain for an operation that locks another chain, it and a
   * process that does the reverse can come to wait for each other. So it can for every operation that
   * KeepsOrderly does not let pass.
   */
  lemma LockchainDeadlock(b: nat, r: Request, d: nat) returns (c: nat, stuck: State, n: nat)
    requires Uses(r, d) && d != b
    ensures c != b && Leads(Two(Keeps(b, [r]), Keeps(c, [Lookup(b)])), stuck, n) && Stuck(stuck)
  {
    hide Stuck, Keeps, Leads;
    if FirstChain(r) != b {
      c, n := FirstChain(r), 2;
      stuck := KeptOther(b, r, d);
    } else {
      c, n := b + 1, 4;
      stuck := KeptLonger(b, r.end);
    }
  }

  // A store that replaces a record locks the allocation list while it has the chain of the key.

  function Replacing(c: nat): Request {
    Put(c, false, false, false, true)
  }

  lemma LeadsNowhere(s: State, s': State)
    requires Leads(s, s', 0)
    ensures s == s'
  {
  }

  lemma LeadsFirst(s: State, s': State, n: nat) returns (i: nat)
    requires n > 0 && Leads(s, s', n)
    ensures Enabled(s, i) && Leads(Next(s, i), s', n - 1)
  {
    hide Next, Enabled;
    i :| Enabled(s, i) && Leads(Next(s, i), s', n - 1);
  }

  lemma {:induction false} LeadsThen(s: State, s': State, m: nat, s'': State, n: nat)
    requires Leads(s, s', m) && Leads(s', s'', n)
    ensures Leads(s, s'', m + n)
    decreases m
  {
    hide Next, Enabled, Leads;
    if m == 0 {
      LeadsNowhere(s, s');
    } else {
      var i := LeadsFirst(s, s', m);
      LeadsThen(Next(s, i), s', m - 1, s'', n);
      LeadsOn(s, i, s'', m - 1 + n);
    }
  }

  /** The second process has the lists `held`, and the first, `p`, has none. */
  function Alone(p: Process, held: multiset<int>, todo: Trace): State {
    State([p, Process(held, todo)], map l | l in held :: 1)
  }

  lemma AcquireAlone(p: Process, held: multiset<int>, l: int, todo: Trace)
    ensures Leads(Alone(p, held, [Acquire(l)] + todo), Alone(p, held + multiset{l}, todo), 1)
  {
    var s := Alone(p, held, [Acquire(l)] + todo);
    assert s.procs[1].todo[1..] == todo;
    assert Next(s, 1) == Alone(p, held + multiset{l}, todo);
    assert Leads(Next(s, 1), Next(s, 1), 0);
    LeadsOn(s, 1, Next(s, 1), 0);
  }

  lemma ReleaseAlone(p: Process, held: multiset<int>, l: int, todo: Trace)
    ensures Leads(Alone(p, held + multiset{l}, [Release(l)] + todo), Alone(p, held, todo), 1)
  {
    var s := Alone(p, held + multiset{l}, [Release(l)] + todo);
    assert s.procs[1].todo[1..] == todo && held + multiset{l} - multiset{l} == held;
    assert Next(s, 1) == Alone(p, held, todo);
    assert Leads(Next(s, 1), Next(s, 1), 0);
    LeadsOn(s, 1, Next(s, 1), 0);
  }

  lemma SectionAlone(p: Process, held: multiset<int>, l: int, todo: Trace)
    ensures Leads(Alone(p, held, Section(l) + todo), Alone(p, held, todo), 2)
  {
    hide Alone, Leads;
    var inner := [Release(l)] + todo;
    AcquireAlone(p, held, l, inner);
    ReleaseAlone(p, held, l, todo);
    assert Section(l) + todo == [Acquire(l)] + inner;
    LeadsThen(Alone(p, held, Section(l) + todo), Alone(p, held + multiset{l}, inner), 1, Alone(p, held, todo), 1);
  }

  /** Such a store, alone, up to where it gives back the space of the old record. */
  lemma ReplacingAlone(p: Process, c: nat)
    ensures Leads(Alone(p, multiset{}, TraceOf(Replacing(c))),
                  Alone(p, multiset{c as int}, Section(ALLOC) + [Release(c)]), 7)
  {
    hide Leads, Alone;
    var none: multiset<int>, one: multiset<int> := multiset{}, multiset{c as int};
    var t7 := Section(ALLOC) + [Release(c)];
    var t5 := Section(c) + t7;
    var t4 := [Acquire(c)] + t5;
    var t2 := Section(ALLOC) + t4;
    assert TraceOf(Replacing(c)) == Section(c) + t2;
    assert none + one == one;
    SectionAlone(p, none, c, t2);
    SectionAlone(p, none, ALLOC, t4);
    AcquireAlone(p, none, c, t5);
    SectionAlone(p, one, c, t7);
    LeadsThen(Alone(p, none, Section(c) + t2), Alone(p, none, t2), 2, Alone(p, none, t4), 2);
    LeadsThen(Alone(p, none, Section(c) + t2), Alone(p, none, t4), 4, Alone(p, one, t5), 1);
    LeadsThen(Alone(p, none, Section(c) + t2), Alone(p, one, t5), 5, Alone(p, one, t7), 2);
  }

  /**
   * tdb_writelock: when a process keeps the allocation list for an operation that locks a chain, it can
   * come to wait for an ordinary store that replaces a record of that chain, and the store for it.
   */
  lemma WritelockDeadlock(r: Request, d: nat) returns (stuck: State)
    requires Uses(r, d)
    ensures Leads(Two(Keeps(ALLOC, [r]), TraceOf(Replacing(FirstChain(r)))), stuck, 8) && Stuck(stuck)
  {
    hide TraceOf, Keeps, FirstChain, Leads;
    FirstCall(r, d);
    KeepsOne(ALLOC, r);
    var c := FirstChain(r);
    var p := Process(multiset{}, Keeps(ALLOC, [r]));
    ReplacingAlone(p, c);
    var s := Alone(p, multiset{c as int}, Section(ALLOC) + [Release(c)]);
    assert p.todo[1..] == TraceOf(r) + [Release(ALLOC)];
    assert multiset{} + multiset{ALLOC} == multiset{ALLOC};
    stuck := Next(s, 0);
    Crossed(stuck, ALLOC, c);
    LastCall(s, stuck);
    assert Alone(p, multiset{}, TraceOf(Replacing(c))) == Two(p.todo, TraceOf(Replacing(c)));
    LeadsThen(Two(p.todo, TraceOf(Replacing(c))), s, 7, stuck, 1);
  }

  lemma LastCall(s: State, s': State)
    requires Enabled(s, 0) && s' == Next(s, 0)
    ensures Leads(s, s', 1)
  {
    assert Leads(s', s', 0);
  }
}
