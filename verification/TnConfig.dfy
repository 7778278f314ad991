// The settings of an emulator session: named values in a list, and the profile whose settings are
// promoted to settings of the session.

module TnConfig {
  import opened Options

  /** A string, a list, or the storage of a list that was put into a string variable. */
  datatype Value = Str(text: string) | List(items: seq<string>) | Misread(items: seq<string>)

  datatype Var = Var(name: string, value: Value)

  /** Where the first variable of that name is; the length of the list if there is none. */
  function Find(vars: seq<Var>, name: string): (i: nat)
    ensures i <= |vars| && (i < |vars| ==> vars[i].name == name)
    ensures forall k :: 0 <= k < i ==> vars[k].name != name
  {
    if vars == [] || vars[0].name == name then 0 else 1 + Find(vars[1..], name)
  }

  function Get(vars: seq<Var>, name: string): Option<Value> {
    var i := Find(vars, name);
    if i < |vars| then Some(vars[i].value) else None
  }

  /** What a string variable holds when this is put into it. */
  function Over(value: Value): Value {
    if value.List? then Misread(value.items) else value
  }

  /** A string variable is overwritten; next to a list a second variable of the name is made. */
  function Put(vars: seq<Var>, name: string, value: Value): seq<Var> {
    var i := Find(vars, name);
    if i < |vars| && !vars[i].value.List?
    then vars[i := Var(name, Over(value))]
    else vars + [Var(name, value)]
  }

  predicate Under(prefix: string, name: string) {
    |prefix| < |name| && name[..|prefix|] == prefix && name[|prefix|] == '.'
  }

  function Rest(prefix: string, name: string): string
    requires Under(prefix, name)
  {
    name[|prefix| + 1..]
  }

  /** What is left to walk over, counted so that a shorter name counts less. */
  function Work(vars: seq<Var>, i: nat): nat
    requires i <= |vars|
    decreases |vars| - i
  {
    if i == |vars| then 0 else |vars[i].name| + 1 + Work(vars, i + 1)
  }

  lemma {:induction false} WorkOfNames(vars: seq<Var>, vars': seq<Var>, i: nat)
    requires i <= |vars| == |vars'| && forall k :: i <= k < |vars| ==> vars'[k].name == vars[k].name
    ensures Work(vars', i) == Work(vars, i)
    decreases |vars| - i
  {
    if i == |vars| {
    } else {
      WorkOfNames(vars, vars', i + 1);
    }
  }

  lemma {:induction false} WorkSnoc(vars: seq<Var>, v: Var, i: nat)
    requires i <= |vars|
    ensures Work(vars + [v], i) == Work(vars, i) + |v.name| + 1
    decreases |vars| - i
  {
    if i < |vars| {
      WorkSnoc(vars, v, i + 1);
    } else {
      assert Work(vars + [v], |vars| + 1) == 0;
    }
  }

  /** To promote a variable adds less work than it takes away, though it may make the list longer. */
  lemma PutWork(prefix: string, vars: seq<Var>, i: nat)
    requires i < |vars| && Under(prefix, vars[i].name)
    ensures var vars' := Put(vars, Rest(prefix, vars[i].name), vars[i].value);
            i < |vars'| && Work(vars', i + 1) < Work(vars, i)
  {
    var x, v := Rest(prefix, vars[i].name), vars[i].value;
    var vars' := Put(vars, x, v);
    if |vars'| == |vars| {
      WorkOfNames(vars, vars', i + 1);
    } else {
      WorkSnoc(vars, Var(x, v), i + 1);
    }
  }

  /** The walk of promote from the `i`-th variable on. */
  function Promoted(prefix: string, vars: seq<Var>, i: nat): seq<Var>
    requires i <= |vars|
    decreases Work(vars, i)
  {
    if i == |vars| then vars
    else if Under(prefix, vars[i].name) then
      PutWork(prefix, vars, i);
      Promoted(prefix, Put(vars, Rest(prefix, vars[i].name), vars[i].value), i + 1)
    else Promoted(prefix, vars, i + 1)
  }

  class Config {
    var vars: seq<Var>

    constructor ()
      ensures vars == []
    {
      vars := [];
    }

    method GetStr(name: string) returns (i: nat)
      ensures i == Find(vars, name)
    {
      i := 0;
      while i < |vars|
        invariant i <= |vars| && forall k :: 0 <= k < i ==> vars[k].name != name
      {
        if vars[i].name == name {
          break;
        }
        i := i + 1;
      }
    }

    method Set(name: string, value: Value)
      modifies this
      ensures vars == Put(old(vars), name, value)
      ensures var was, i := old(vars), Find(old(vars), name);
              vars == if i == |was| || was[i].value.List? then was + [Var(name, value)]
                      else if value.List? then was[i := Var(name, Misread(value.items))]
                      else was[i := Var(name, value)]
    {
      var i := GetStr(name);
      if i < |vars| {
        if !vars[i].value.List? {
          vars := vars[i := Var(name, if value.List? then Misread(value.items) else value)];
          return;
        }
      }
      vars := vars + [Var(name, value)];
    }

    /** tnX_config_promote: it walks over a list that it appends to, and comes to an end. */
    method Promote(prefix: string)
      modifies this
      ensures vars == Promoted(prefix, old(vars), 0)
    {
      var i := 0;
      while i < |vars|
        invariant i <= |vars| && Promoted(prefix, vars, i) == Promoted(prefix, old(vars), 0)
        decreases Work(vars, i)
      {
        var data := vars[i];
        if Under(prefix, data.name) {
          PutWork(prefix, vars, i);
          Set(Rest(prefix, data.name), data.value);
        }
        i := i + 1;
      }
    }
  }

  // ----- what promote is for

  predicate Unique(vars: seq<Var>) {
    forall i, j :: 0 <= i < j < |vars| ==> vars[i].name != vars[j].name
  }

  predicate Strings(vars: seq<Var>) {
    forall i :: 0 <= i < |vars| ==> vars[i].value.Str?
  }

  /** The name of a setting in the profile. */
  function In(prefix: string, name: string): (r: string)
    ensures Under(prefix, r) && Rest(prefix, r) == name
  {
    prefix + "." + name
  }

  lemma InRest(prefix: string, name: string)
    requires Under(prefix, name)
    ensures In(prefix, Rest(prefix, name)) == name
  {
  }

  lemma FindAt(vars: seq<Var>, i: nat)
    requires Unique(vars) && i < |vars|
    ensures Find(vars, vars[i].name) == i
  {
  }

  lemma PutGet(vars: seq<Var>, name: string, value: Value, n: string)
    requires Strings(vars) && value.Str?
    ensures Get(Put(vars, name, value), n) == if n == name then Some(value) else Get(vars, n)
  {
    var i, vars' := Find(vars, name), Put(vars, name, value);
    var k, k' := Find(vars, n), Find(vars', n);
    assert forall j :: 0 <= j < |vars| ==> vars'[j].name == vars[j].name;
    if n == name {
      assert vars'[i].name == n;
    } else if k < |vars| {
      assert vars'[k].name == n;
    }
  }

  lemma PutKeeps(vars: seq<Var>, name: string, value: Value)
    requires Strings(vars) && Unique(vars) && value.Str?
    ensures var vars' := Put(vars, name, value);
            && Strings(vars') && Unique(vars') && |vars| <= |vars'|
            && forall k :: 0 <= k < |vars| ==>
                 vars'[k].name == vars[k].name && (vars[k].name != name ==> vars'[k] == vars[k])
  {
  }

  lemma GetSnoc(vars: seq<Var>, i: nat, n: string)
    requires i < |vars|
    ensures Get(vars[..i + 1], n) ==
            if Get(vars[..i], n).Some? then Get(vars[..i], n)
            else if vars[i].name == n then Some(vars[i].value) else None
    ensures Get(vars[..i], n).Some? ==> Get(vars, n) == Get(vars[..i], n)
  {
    var a, b, k := vars[..i], vars[..i + 1], Find(vars[..i], n);
    assert forall j :: 0 <= j < i ==> a[j] == b[j] == vars[j];
  }

  /** The value of the profile, where it has one. */
  function FromProfile(prefix: string, profile: seq<Var>, vars: seq<Var>, n: string): Option<Value> {
    if Get(profile, In(prefix, n)).Some? then Get(profile, In(prefix, n)) else Get(vars, n)
  }

  /** Every setting of the profile is a setting of the session afterwards, and the others are as before. */
  ghost predicate Promotes(prefix: string, vars: seq<Var>) {
    forall n :: Get(Promoted(prefix, vars, 0), n) == FromProfile(prefix, vars, vars, n)
  }

  /** Before a variable of a profile of that name within the profile stands the variable it is promoted to. */
  predicate InOrder(prefix: string, vars: seq<Var>) {
    forall j :: 0 <= j < |vars| ==> OrderedAt(prefix, vars, j)
  }

  predicate OrderedAt(prefix: string, vars: seq<Var>, j: nat)
    requires j < |vars|
  {
    Under(prefix, vars[j].name) && Under(prefix, Rest(prefix, vars[j].name)) ==>
      Get(vars[..j], Rest(prefix, vars[j].name)).Some?
  }

  // ----- what promote does when the profile is in order

  lemma NoneBefore(init: seq<Var>, j: nat, i: nat)
    requires Unique(init) && j <= i < |init|
    ensures Get(init[..j], init[i].name).None?
  {
    assert forall k :: 0 <= k < j ==> init[..j][k] == init[k];
  }

  /** What would go to the `i`-th variable from deeper in the profile comes later. */
  lemma NotYet(prefix: string, init: seq<Var>, i: nat)
    requires Unique(init) && InOrder(prefix, init) && i < |init|
    ensures forall k :: 0 <= k < i ==> init[k].name != In(prefix, init[i].name) || !Under(prefix, init[i].name)
  {
    forall k | 0 <= k < i && init[k].name == In(prefix, init[i].name) && Under(prefix, init[i].name)
      ensures false
    {
      assert OrderedAt(prefix, init, k);
      NoneBefore(init, k, i);
    }
  }

  /** Where there is a setting two levels down there is one a level down. */
  lemma NoGap(prefix: string, init: seq<Var>, n: string)
    requires InOrder(prefix, init) && Get(init, In(prefix, In(prefix, n))).Some?
    ensures Get(init, In(prefix, n)).Some?
  {
    var j := Find(init, In(prefix, In(prefix, n)));
    assert OrderedAt(prefix, init, j);
    var i := Find(init[..j], In(prefix, n));
    assert init[i].name == In(prefix, n);
  }

  /** The last variable of a name. */
  function LastOf(vars: seq<Var>, name: string): Option<Value> {
    if vars == [] then None
    else if vars[|vars| - 1].name == name then Some(vars[|vars| - 1].value)
    else LastOf(vars[..|vars| - 1], name)
  }

  lemma LastSnoc(vars: seq<Var>, v: Var, n: string)
    ensures LastOf(vars + [v], n) == if v.name == n then Some(v.value) else LastOf(vars, n)
  {
    assert (vars + [v])[..|vars|] == vars;
  }

  lemma FirstSnoc(vars: seq<Var>, v: Var, n: string)
    ensures Get(vars + [v], n) ==
            if Get(vars, n).Some? then Get(vars, n) else if v.name == n then Some(v.value) else None
  {
    var a, b := vars, vars + [v];
    assert forall k :: 0 <= k < |a| ==> a[k] == b[k];
    assert b[|a|] == v;
  }

  lemma {:induction false} LastIsFirst(vars: seq<Var>, n: string)
    requires Unique(vars)
    ensures LastOf(vars, n) == Get(vars, n)
  {
    if vars == [] {
    } else {
      var rest, v := vars[..|vars| - 1], vars[|vars| - 1];
      LastIsFirst(rest, n);
      assert vars == rest + [v];
      FirstSnoc(rest, v, n);
      assert forall k :: 0 <= k < |rest| ==> rest[k] == vars[k];
    }
  }

  lemma {:induction false} LastNone(vars: seq<Var>, n: string)
    ensures LastOf(vars, n).Some? <==> Get(vars, n).Some?
  {
    if vars == [] {
    } else {
      var rest, v := vars[..|vars| - 1], vars[|vars| - 1];
      LastNone(rest, n);
      assert vars == rest + [v];
      FirstSnoc(rest, v, n);
    }
  }

  // The variables that have been passed are put to others in their order, with the values that they had
  // at the start or were appended with: `log` has all of them.

  /** A variable of the start, with `done` put to others. */
  function Overlaid(prefix: string, v: Var, done: seq<Var>): Var {
    var last := LastOf(done, In(prefix, v.name));
    if v.value.List? || last.None? then v else Var(v.name, Over(last.value))
  }

  /** A variable that promote appends has come from one of the profile, and stands next to no string. */
  predicate Appended(prefix: string, init: seq<Var>, v: Var) {
    Get(init, In(prefix, v.name)).Some? && (Get(init, v.name).Some? ==> Get(init, v.name).value.List?)
  }

  ghost predicate LastAt(prefix: string, init: seq<Var>, log: seq<Var>, i: nat, n: string)
    requires i <= |log|
  {
    Get(init, n).Some? ==>
      var last := LastOf(log[..i], In(prefix, n));
      LastOf(log, n) == if Get(init, n).value.List? && last.Some? then last else Get(init, n)
  }

  ghost predicate FirstAt(prefix: string, init: seq<Var>, vars: seq<Var>, log: seq<Var>, i: nat, n: string)
    requires i <= |log|
  {
    Get(init, n).None? ==> Get(vars, n) == Get(log[..i], In(prefix, n))
  }

  ghost predicate Logged(prefix: string, init: seq<Var>, vars: seq<Var>, log: seq<Var>, i: nat) {
    && |init| <= |log| == |vars| && i <= |log| && log[..|init|] == init
    && (forall k :: |init| <= k < |vars| ==> vars[k] == log[k] && Appended(prefix, init, log[k]))
    && (forall k :: 0 <= k < |init| ==> vars[k] == Overlaid(prefix, init[k], log[..i]))
  }

  ghost predicate Walked(prefix: string, init: seq<Var>, vars: seq<Var>, log: seq<Var>, i: nat) {
    && Logged(prefix, init, vars, log, i)
    && (forall n :: LastAt(prefix, init, log, i, n))
    && (forall n :: FirstAt(prefix, init, vars, log, i, n))
  }

  lemma WalkedStart(prefix: string, init: seq<Var>)
    requires Unique(init)
    ensures Walked(prefix, init, init, init, 0)
  {
    assert init[..0] == [];
    forall n
      ensures LastAt(prefix, init, init, 0, n) && FirstAt(prefix, init, init, init, 0, n)
    {
      LastIsFirst(init, n);
    }
  }

  /** What is put is what stood there at the start, or was appended. */
  lemma PutFromLog(prefix: string, init: seq<Var>, vars: seq<Var>, log: seq<Var>, i: nat)
    requires Unique(init) && InOrder(prefix, init) && Walked(prefix, init, vars, log, i) && i < |log|
    ensures |vars| == |log| && vars[i].name == log[i].name && (Under(prefix, log[i].name) ==> vars[i] == log[i])
  {
    if i < |init| {
      assert log[i] == log[..|init|][i];
      if Under(prefix, log[i].name) {
        NotYet(prefix, init, i);
        assert forall k :: 0 <= k < i ==> log[..i][k] == log[..|init|][k];
        LastNone(log[..i], In(prefix, init[i].name));
      }
    }
  }

  /** Where the first variable of a name is, when the name was there at the start. */
  lemma FindKept(prefix: string, init: seq<Var>, vars: seq<Var>, log: seq<Var>, i: nat, n: string)
    requires Logged(prefix, init, vars, log, i)
    ensures Get(init, n).Some? ==> Find(vars, n) == Find(init, n)
    ensures Get(init, n).None? ==> |init| <= Find(vars, n)
  {
    assert forall k :: 0 <= k < |init| ==> vars[k].name == init[k].name;
  }

  lemma FirstInLog(init: seq<Var>, log: seq<Var>, i: nat, n: string)
    requires |init| <= |log| && log[..|init|] == init && i <= |log|
    requires Get(init, n).Some? && Get(log[..i], n).Some?
    ensures Find(log[..i], n) == Find(init, n)
  {
    assert forall k :: 0 <= k < |init| ==> log[k] == log[..|init|][k];
    assert forall k :: 0 <= k < i ==> log[k] == log[..i][k];
  }

  lemma SameName(init: seq<Var>, log: seq<Var>, k: nat, i: nat)
    requires Unique(init) && |init| <= |log| && log[..|init|] == init
    requires k < |init| && i < |log| && log[i].name == init[k].name
    ensures i == k || i >= |init|
  {
    assert i < |init| ==> log[i] == log[..|init|][i];
  }

  /** What has been put before, when there is a variable of the name now. */
  lemma PutAgain(prefix: string, init: seq<Var>, vars: seq<Var>, log: seq<Var>, i: nat, n: string)
    requires InOrder(prefix, init) && Logged(prefix, init, vars, log, i) && FirstAt(prefix, init, vars, log, i, n)
    requires i < |log| && log[i].name == In(prefix, n) && Get(init, n).None? && Get(vars, n).Some?
    requires Unique(init)
    ensures Get(vars, n).value.List?
  {
    var y := In(prefix, n);
    var k := Find(log[..i], y);
    assert log[k].name == y && k < i;
    var at := Find(vars, n);
    FindKept(prefix, init, vars, log, i, n);
    assert Appended(prefix, init, log[at]) && Get(init, y).Some?;
    var m := Find(init, y);
    FirstInLog(init, log, i, y);
    SameName(init, log, m, i);
    assert Appended(prefix, init, log[i]);
  }

  /** A variable that is none of the profile changes nothing. */
  lemma PassOne(prefix: string, init: seq<Var>, vars: seq<Var>, log: seq<Var>, i: nat)
    requires Walked(prefix, init, vars, log, i) && i < |log| && !Under(prefix, log[i].name)
    ensures Walked(prefix, init, vars, log, i + 1)
  {
    hide InOrder, Unique, Get;
    var next := i + 1;
    assert log[..next] == log[..i] + [log[i]];
    forall n
      ensures LastOf(log[..next], In(prefix, n)) == LastOf(log[..i], In(prefix, n))
      ensures Get(log[..next], In(prefix, n)) == Get(log[..i], In(prefix, n))
    {
      LastSnoc(log[..i], log[i], In(prefix, n));
      FirstSnoc(log[..i], log[i], In(prefix, n));
    }
    forall n
      ensures LastAt(prefix, init, log, next, n) && FirstAt(prefix, init, vars, log, next, n)
    {
      assert LastAt(prefix, init, log, i, n) && FirstAt(prefix, init, vars, log, i, n);
    }
  }

  /** Whether what is put into `x` overwrites a string of the start. */
  predicate Overwrites(init: seq<Var>, x: string) {
    Get(init, x).Some? && !Get(init, x).value.List?
  }

  function NextLog(prefix: string, init: seq<Var>, log: seq<Var>, i: nat): (r: seq<Var>)
    requires i < |log| && Under(prefix, log[i].name)
    ensures |r| >= |log|
  {
    var x := Rest(prefix, log[i].name);
    if Overwrites(init, x) then log else log + [Var(x, log[i].value)]
  }

  lemma PutPlace(prefix: string, init: seq<Var>, vars: seq<Var>, log: seq<Var>, i: nat, x: string)
    requires Unique(init) && InOrder(prefix, init) && Logged(prefix, init, vars, log, i)
    requires FirstAt(prefix, init, vars, log, i, x) && i < |log| && log[i].name == In(prefix, x)
    ensures var v := log[i].value;
            Put(vars, x, v) == if Overwrites(init, x) then vars[Find(init, x) := Var(x, Over(v))]
                               else vars + [Var(x, v)]
  {
    hide InOrder, Unique, FirstAt;
    FindKept(prefix, init, vars, log, i, x);
    if Get(init, x).None? && Get(vars, x).Some? {
      PutAgain(prefix, init, vars, log, i, x);
    }
  }

  lemma PutLogged(prefix: string, init: seq<Var>, vars: seq<Var>, log: seq<Var>, i: nat, x: string)
    requires Unique(init) && InOrder(prefix, init) && Logged(prefix, init, vars, log, i)
    requires FirstAt(prefix, init, vars, log, i, x) && i < |log| && log[i].name == In(prefix, x)
    ensures Logged(prefix, init, Put(vars, x, log[i].value), NextLog(prefix, init, log, i), i + 1)
  {
    hide InOrder, Unique, FirstAt, Put, Find, Appended;
    PutPlace(prefix, init, vars, log, i, x);
    var vars', log' := Put(vars, x, log[i].value), NextLog(prefix, init, log, i);
    assert log'[..i + 1] == log[..i] + [log[i]];
    forall k | 0 <= k < |init|
      ensures vars'[k] == Overlaid(prefix, init[k], log'[..i + 1])
    {
      LastSnoc(log[..i], log[i], In(prefix, init[k].name));
      OverlaidNext(prefix, init, x, k);
    }
    if !Overwrites(init, x) {
      NewAppended(prefix, init, vars, log, i, x);
    }
    assert log'[..|init|] == log[..|init|];
  }

  lemma OverlaidNext(prefix: string, init: seq<Var>, x: string, k: nat)
    requires Unique(init) && k < |init|
    ensures In(prefix, init[k].name) == In(prefix, x) <==> init[k].name == x
    ensures init[k].name == x ==> Find(init, x) == k && (Overwrites(init, x) <==> !init[k].value.List?)
    ensures Overwrites(init, x) ==> Find(init, x) < |init| && init[Find(init, x)].name == x
  {
    assert Rest(prefix, In(prefix, init[k].name)) == init[k].name && Rest(prefix, In(prefix, x)) == x;
    FindAt(init, k);
  }

  lemma NewAppended(prefix: string, init: seq<Var>, vars: seq<Var>, log: seq<Var>, i: nat, x: string)
    requires InOrder(prefix, init) && Logged(prefix, init, vars, log, i) && i < |log| && log[i].name == In(prefix, x)
    requires !Overwrites(init, x)
    ensures Appended(prefix, init, Var(x, log[i].value))
  {
    hide InOrder;
    if i < |init| {
      assert log[..|init|][i] == log[i];
      assert init[i].name == In(prefix, x);
    } else {
      assert Appended(prefix, init, log[i]);
      NoGap(prefix, init, x);
    }
  }

  lemma PutLast(prefix: string, init: seq<Var>, log: seq<Var>, i: nat, x: string, n: string)
    requires i < |log| && log[i].name == In(prefix, x) && LastAt(prefix, init, log, i, n)
    ensures LastAt(prefix, init, NextLog(prefix, init, log, i), i + 1, n)
  {
    hide Find;
    var log' := NextLog(prefix, init, log, i);
    assert log'[..i + 1] == log[..i] + [log[i]];
    LastSnoc(log[..i], log[i], In(prefix, n));
    LastSnoc(log, Var(x, log[i].value), n);
    assert Rest(prefix, In(prefix, n)) == n && Rest(prefix, In(prefix, x)) == x;
  }

  lemma PutFirst(prefix: string, init: seq<Var>, vars: seq<Var>, log: seq<Var>, i: nat, x: string, n: string)
    requires Unique(init) && InOrder(prefix, init) && Logged(prefix, init, vars, log, i)
    requires FirstAt(prefix, init, vars, log, i, x) && FirstAt(prefix, init, vars, log, i, n)
    requires i < |log| && log[i].name == In(prefix, x)
    ensures FirstAt(prefix, init, Put(vars, x, log[i].value), NextLog(prefix, init, log, i), i + 1, n)
  {
    hide Find, InOrder, Unique, Put, Logged;
    var log' := NextLog(prefix, init, log, i);
    assert log'[..i + 1] == log[..i] + [log[i]];
    FirstSnoc(log[..i], log[i], In(prefix, n));
    assert Rest(prefix, In(prefix, n)) == n && Rest(prefix, In(prefix, x)) == x;
    PutPlace(prefix, init, vars, log, i, x);
    if Overwrites(init, x) {
      OverwriteElsewhere(prefix, init, vars, log, i, x, n);
    } else {
      FirstSnoc(vars, Var(x, log[i].value), n);
    }
  }

  /** A variable that is overwritten is none of another name. */
  lemma OverwriteElsewhere(prefix: string, init: seq<Var>, vars: seq<Var>, log: seq<Var>, i: nat, x: string, n: string)
    requires Logged(prefix, init, vars, log, i) && Overwrites(init, x) && i < |log|
    ensures var vars' := vars[Find(init, x) := Var(x, Over(log[i].value))];
            n != x ==> Get(vars', n) == Get(vars, n)
  {
    FindKept(prefix, init, vars, log, i, x);
    var vars' := vars[Find(init, x) := Var(x, Over(log[i].value))];
    assert forall k :: 0 <= k < |vars| ==> vars'[k].name == vars[k].name;
    SameFind(vars, vars', n);
  }

  lemma {:induction false} SameFind(vars: seq<Var>, vars': seq<Var>, n: string)
    requires |vars| == |vars'| && forall k :: 0 <= k < |vars| ==> vars'[k].name == vars[k].name
    ensures Find(vars, n) == Find(vars', n)
  {
    if vars != [] {
      SameFind(vars[1..], vars'[1..], n);
    }
  }

  lemma PutOne(prefix: string, init: seq<Var>, vars: seq<Var>, log: seq<Var>, i: nat, x: string)
    requires Unique(init) && InOrder(prefix, init) && Walked(prefix, init, vars, log, i)
    requires i < |log| && log[i].name == In(prefix, x)
    ensures Walked(prefix, init, Put(vars, x, log[i].value), NextLog(prefix, init, log, i), i + 1)
  {
    hide InOrder, Unique, Put, Logged, LastAt, FirstAt, NextLog;
    PutLogged(prefix, init, vars, log, i, x);
    var vars', log', next := Put(vars, x, log[i].value), NextLog(prefix, init, log, i), i + 1;
    forall n
      ensures LastAt(prefix, init, log', next, n) && FirstAt(prefix, init, vars', log', next, n)
    {
      PutLast(prefix, init, log, i, x, n);
      PutFirst(prefix, init, vars, log, i, x, n);
    }
  }

  lemma WalkedLength(prefix: string, init: seq<Var>, vars: seq<Var>, log: seq<Var>, i: nat)
    requires Walked(prefix, init, vars, log, i)
    ensures |log| == |vars|
  {
  }

  lemma {:induction false} PromotedWalked(prefix: string, init: seq<Var>, vars: seq<Var>, log: seq<Var>, i: nat)
    returns (log': seq<Var>)
    requires Unique(init) && InOrder(prefix, init) && Walked(prefix, init, vars, log, i) && i <= |vars|
    ensures Walked(prefix, init, Promoted(prefix, vars, i), log', |log'|)
    decreases Work(vars, i)
  {
    hide InOrder, Unique, Put, Walked, NextLog;
    log' := log;
    WalkedLength(prefix, init, vars, log, i);
    if i < |vars| {
      PutFromLog(prefix, init, vars, log, i);
      if Under(prefix, vars[i].name) {
        var x := Rest(prefix, vars[i].name);
        InRest(prefix, vars[i].name);
        PutWork(prefix, vars, i);
        PutOne(prefix, init, vars, log, i, x);
        log' := PromotedWalked(prefix, init, Put(vars, x, vars[i].value), NextLog(prefix, init, log, i), i + 1);
      } else {
        PassOne(prefix, init, vars, log, i);
        log' := PromotedWalked(prefix, init, vars, log, i + 1);
      }
    }
  }

  // ----- what is there afterwards

  /**
   * A list of the profile is followed by what was a level deeper, because that could not be put into
   * the list and stands behind it: the last one that has something there.
   */
  function Deepest(prefix: string, vars: seq<Var>, i: nat): (k: nat)
    requires i < |vars|
    ensures i <= k < |vars|
    decreases |vars| - i
  {
    var j := Find(vars, In(prefix, vars[i].name));
    if vars[i].value.List? && i < j < |vars| then Deepest(prefix, vars, j) else i
  }

  lemma NoneComes(prefix: string, init: seq<Var>, vars: seq<Var>, log: seq<Var>, n: string)
    requires InOrder(prefix, init) && Logged(prefix, init, vars, log, |log|) && Get(init, In(prefix, n)).None?
    ensures LastOf(log, In(prefix, n)).None? && Get(log, In(prefix, n)).None?
  {
    hide InOrder;
    LastNone(log, In(prefix, n));
    var k := Find(log, In(prefix, n));
    assert forall j :: 0 <= j < |init| ==> log[j] == log[..|init|][j];
    if k < |log| {
      assert Appended(prefix, init, log[k]);
      NoGap(prefix, init, n);
    }
  }

  lemma {:induction false} LastDeepest(prefix: string, init: seq<Var>, vars: seq<Var>, log: seq<Var>, i: nat)
    requires Unique(init) && InOrder(prefix, init) && Walked(prefix, init, vars, log, |log|)
    requires i < |init| && Under(prefix, init[i].name)
    ensures LastOf(log, init[i].name) == Some(init[Deepest(prefix, init, i)].value)
    decreases |init| - i
  {
    hide InOrder, Unique, Overlaid, Appended;
    var y := init[i].name;
    FindAt(init, i);
    assert log[..|log|] == log;
    assert LastAt(prefix, init, log, |log|, y);
    var j := Find(init, In(prefix, y));
    if j < |init| {
      Deeper(prefix, init, i, j);
      LastDeepest(prefix, init, vars, log, j);
    } else {
      NoneComes(prefix, init, vars, log, y);
    }
  }

  /** Deeper in the profile is later in the list, if both are in the profile. */
  lemma Deeper(prefix: string, init: seq<Var>, i: nat, j: nat)
    requires Unique(init) && InOrder(prefix, init) && i < |init| && j < |init|
    requires init[j].name == In(prefix, init[i].name)
    ensures Under(prefix, init[i].name) ==> i < j
  {
    NotYet(prefix, init, i);
    assert i != j;
  }

  lemma PromotedAtEnd(prefix: string, vars: seq<Var>) returns (log: seq<Var>)
    requires Unique(vars) && InOrder(prefix, vars)
    ensures Walked(prefix, vars, Promoted(prefix, vars, 0), log, |log|) && log[..|log|] == log
  {
    WalkedStart(prefix, vars);
    log := PromotedWalked(prefix, vars, vars, vars, 0);
  }

  /** A name that was not there has the profile's value, whatever that is. */
  lemma PromotedAnew(prefix: string, vars: seq<Var>, n: string)
    requires Unique(vars) && InOrder(prefix, vars) && Get(vars, n).None?
    ensures Get(Promoted(prefix, vars, 0), n) == Get(vars, prefix + "." + n)
  {
    hide InOrder, Unique, Promoted;
    var y, end := In(prefix, n), Promoted(prefix, vars, 0);
    var log := PromotedAtEnd(prefix, vars);
    assert FirstAt(prefix, vars, end, log, |log|, n);
    if Get(vars, y).None? {
      NoneComes(prefix, vars, end, log, n);
    } else {
      var k := Find(vars, y);
      assert log[..|vars|][k].name == y;
      assert Get(log, y).Some? by { assert log[k].name == y; }
      FirstInLog(vars, log, |log|, y);
      assert log[k] == log[..|vars|][k];
    }
  }

  /**
   * A name that was there: a list stays; a string gets the profile's value if there is one. When that is
   * a list, it gets what is deepest below it, if that is in the profile too.
   */
  lemma PromotedOver(prefix: string, vars: seq<Var>, i: nat)
    requires Unique(vars) && InOrder(prefix, vars) && i < |vars|
    ensures var n := vars[i].name; var k := Find(vars, prefix + "." + n);
            Get(Promoted(prefix, vars, 0), n) ==
            Some(if vars[i].value.List? || k == |vars| then vars[i].value
                 else Over(vars[Deepest(prefix, vars, k)].value))
  {
    hide InOrder, Unique, Promoted;
    var n, end := vars[i].name, Promoted(prefix, vars, 0);
    var log := PromotedAtEnd(prefix, vars);
    FindAt(vars, i);
    FindKept(prefix, vars, end, log, |log|, n);
    assert end[i] == Overlaid(prefix, vars[i], log);
    var k := Find(vars, In(prefix, n));
    if k == |vars| {
      NoneComes(prefix, vars, end, log, n);
    } else {
      LastDeepest(prefix, vars, end, log, k);
    }
  }

  /** What a profile says of a name, and what is there of it already, with lists and strings. */
  function Expected(profile: Option<Value>, own: Option<Value>): Option<Value> {
    if profile.None? then own
    else if own.None? then profile
    else if own.value.List? then own
    else if profile.value.List? then Some(Misread(profile.value.items))
    else profile
  }

  /** That is what there is of it afterwards, unless a list of the profile has something below it. */
  lemma PromotedValue(prefix: string, vars: seq<Var>, n: string)
    requires Unique(vars) && InOrder(prefix, vars)
    requires var profile := Get(vars, prefix + "." + n);
             profile.Some? && profile.value.List? ==>
               Get(vars, n).None? || Get(vars, n).value.List? || Get(vars, prefix + "." + prefix + "." + n).None?
    ensures var profile, own, now := Get(vars, prefix + "." + n), Get(vars, n), Get(Promoted(prefix, vars, 0), n);
            && (profile.None? ==> now == own)
            && (profile.Some? && own.None? ==> now == profile)
            && (own.Some? && own.value.List? ==> now == own)
            && (profile.Some? && own.Some? && !own.value.List? ==>
                  now == Some(if profile.value.List? then Misread(profile.value.items) else profile.value))
  {
    hide InOrder, Unique, Promoted;
    var i := Find(vars, n);
    if i == |vars| {
      PromotedAnew(prefix, vars, n);
    } else {
      PromotedOver(prefix, vars, i);
      assert prefix + "." + prefix + "." + n == In(prefix, In(prefix, n));
    }
  }

  lemma InOrderPromotes(prefix: string, vars: seq<Var>)
    requires Strings(vars) && Unique(vars) && InOrder(prefix, vars)
    ensures Promotes(prefix, vars)
  {
    hide InOrder, Unique, Promoted, Find;
    forall n
      ensures Get(Promoted(prefix, vars, 0), n) == FromProfile(prefix, vars, vars, n)
    {
      PromotedValue(prefix, vars, n);
    }
  }

  // ----- and only then, whatever the values are

  /** Every variable holds a string at least as long as its name, as when each holds its own name. */
  ghost predicate Long(vars: seq<Var>) {
    Strings(vars) && Unique(vars) && forall k :: 0 <= k < |vars| ==> |vars[k].value.text| >= |vars[k].name|
  }

  /** The setting has come down two levels: its value is longer than its name by two prefixes. */
  ghost predicate CameFar(prefix: string, vars: seq<Var>, x: string) {
    var v := Get(vars, x);
    v.Some? && v.value.Str? && |v.value.text| >= |x| + 2 * (|prefix| + 1)
  }

  /** The variables after the `i`-th one has been passed. */
  function After(prefix: string, vars: seq<Var>, i: nat): seq<Var>
    requires i < |vars|
  {
    if Under(prefix, vars[i].name) then Put(vars, Rest(prefix, vars[i].name), vars[i].value) else vars
  }

  lemma AfterKeeps(prefix: string, vars: seq<Var>, i: nat)
    requires i < |vars| && Long(vars)
    ensures var vars' := After(prefix, vars, i);
            && Long(vars') && |vars| <= |vars'| && Promoted(prefix, vars, i) == Promoted(prefix, vars', i + 1)
            && Work(vars', i + 1) < Work(vars, i)
            && forall k :: 0 <= k < |vars| ==>
                 vars'[k].name == vars[k].name && (In(prefix, vars[k].name) != vars[i].name ==> vars'[k] == vars[k])
  {
    if Under(prefix, vars[i].name) {
      PutKeeps(vars, Rest(prefix, vars[i].name), vars[i].value);
      PutWork(prefix, vars, i);
      assert forall n :: n == Rest(prefix, vars[i].name) ==> In(prefix, n) == vars[i].name;
    }
  }

  /** It is there, and nothing can overwrite it any more. */
  lemma {:induction false} StaysFar(prefix: string, vars: seq<Var>, i: nat, k: nat, x: string)
    requires Long(vars) && k < i <= |vars| && vars[k].name == In(prefix, x) && CameFar(prefix, vars, x)
    ensures CameFar(prefix, Promoted(prefix, vars, i), x)
    decreases Work(vars, i)
  {
    hide After, Put, Find, Under;
    if i == |vars| {
    } else {
      AfterKeeps(prefix, vars, i);
      GetAfter(prefix, vars, i, x);
      StaysFar(prefix, After(prefix, vars, i), i + 1, k, x);
    }
  }

  lemma GetAfter(prefix: string, vars: seq<Var>, i: nat, x: string)
    requires i < |vars| && Strings(vars)
    ensures Get(After(prefix, vars, i), x) ==
            if vars[i].name == In(prefix, x) then Some(vars[i].value) else Get(vars, x)
  {
    if Under(prefix, vars[i].name) {
      InRest(prefix, vars[i].name);
      PutGet(vars, Rest(prefix, vars[i].name), vars[i].value, x);
    }
  }

  /** It is one level above, on a variable still to come. */
  lemma {:induction false} GoesOn(prefix: string, vars: seq<Var>, i: nat, j: nat, k: nat, x: string)
    requires Long(vars) && j < i <= k < |vars|
    requires vars[j].name == In(prefix, In(prefix, x)) && vars[k].name == In(prefix, x)
    requires |vars[k].value.text| >= |x| + 2 * (|prefix| + 1)
    ensures CameFar(prefix, Promoted(prefix, vars, i), x)
    decreases Work(vars, i)
  {
    hide After, Put, Promoted, Find;
    AfterKeeps(prefix, vars, i);
    if i < k {
      GoesOn(prefix, After(prefix, vars, i), i + 1, j, k, x);
    } else {
      GetAfter(prefix, vars, i, x);
      StaysFar(prefix, After(prefix, vars, i), i + 1, k, x);
    }
  }

  /** It is two levels above, and the variable between has not been passed. */
  lemma {:induction false} Starts(prefix: string, vars: seq<Var>, i: nat, j: nat, x: string)
    requires Long(vars) && i <= j < |vars| && vars[j].name == In(prefix, In(prefix, x))
    requires forall k :: 0 <= k < j ==> vars[k].name != In(prefix, x)
    ensures CameFar(prefix, Promoted(prefix, vars, i), x)
    decreases Work(vars, i)
  {
    hide After, Put, Promoted, Under, Find;
    AfterKeeps(prefix, vars, i);
    var vars' := After(prefix, vars, i);
    if i < j {
      Starts(prefix, vars', i + 1, j, x);
    } else {
      var k := ComesDown(prefix, vars, j, x);
      GoesOn(prefix, vars', i + 1, j, k, x);
    }
  }

  /** When the variable two levels above is passed, the one between gets its value. */
  lemma ComesDown(prefix: string, vars: seq<Var>, j: nat, x: string) returns (k: nat)
    requires Long(vars) && j < |vars| && vars[j].name == In(prefix, In(prefix, x))
    requires forall k :: 0 <= k < j ==> vars[k].name != In(prefix, x)
    ensures var vars' := After(prefix, vars, j);
            && j < k < |vars'| && vars'[k].name == In(prefix, x) && vars'[k].value.Str?
            && |vars'[k].value.text| >= |x| + 2 * (|prefix| + 1)
  {
    hide After, Put, Promoted, Under, Work;
    AfterKeeps(prefix, vars, j);
    GetAfter(prefix, vars, j, In(prefix, x));
    assert |vars[j].name| == |x| + 2 * (|prefix| + 1) && |In(prefix, x)| == |x| + |prefix| + 1;
    k := Find(After(prefix, vars, j), In(prefix, x));
  }

  /** Each variable holds its own name. */
  function Named(names: seq<string>): seq<Var> {
    seq(|names|, i requires 0 <= i < |names| => Var(names[i], Str(names[i])))
  }

  lemma OutOfOrder(prefix: string, names: seq<string>)
    requires Unique(Named(names)) && !InOrder(prefix, Named(names))
    ensures !Promotes(prefix, Named(names))
  {
    var vars := Named(names);
    var j :| 0 <= j < |vars| && !OrderedAt(prefix, vars, j);
    var above := Rest(prefix, vars[j].name);
    var x := Rest(prefix, above);
    InRest(prefix, vars[j].name);
    InRest(prefix, above);
    assert forall k :: 0 <= k < j ==> vars[..j][k] == vars[k];
    Starts(prefix, vars, 0, j, x);
    assert Get(Promoted(prefix, vars, 0), x) != FromProfile(prefix, vars, vars, x);
  }

  ghost predicate HasNames(vars: seq<Var>, names: seq<string>) {
    |vars| == |names| && forall i :: 0 <= i < |vars| ==> vars[i].name == names[i]
  }

  lemma UniqueNames(vars: seq<Var>, names: seq<string>)
    requires HasNames(vars, names) && Unique(Named(names))
    ensures Unique(vars)
  {
    assert forall i :: 0 <= i < |vars| ==> vars[i].name == Named(names)[i].name;
  }

  lemma OrderOfNames(prefix: string, vars: seq<Var>, names: seq<string>)
    requires HasNames(vars, names) && InOrder(prefix, Named(names))
    ensures InOrder(prefix, vars)
  {
    var named := Named(names);
    forall j | 0 <= j < |vars|
      ensures OrderedAt(prefix, vars, j)
    {
      assert OrderedAt(prefix, named, j);
      if Under(prefix, vars[j].name) && Under(prefix, Rest(prefix, vars[j].name)) {
        var k := Find(named[..j], Rest(prefix, vars[j].name));
        assert vars[..j][k].name == Rest(prefix, vars[j].name);
      }
    }
  }

  /** Promote does what it is for, whatever the values, exactly when the names are in order. */
  lemma PromotesExactly(prefix: string, names: seq<string>)
    requires Unique(Named(names))
    ensures (forall vars: seq<Var> :: Strings(vars) && HasNames(vars, names) ==> Promotes(prefix, vars)) <==>
            InOrder(prefix, Named(names))
  {
    if InOrder(prefix, Named(names)) {
      forall vars: seq<Var> | Strings(vars) && HasNames(vars, names)
        ensures Promotes(prefix, vars)
      {
        OrderOfNames(prefix, vars, names);
        UniqueNames(vars, names);
        InOrderPromotes(prefix, vars);
      }
    } else {
      OutOfOrder(prefix, names);
      assert HasNames(Named(names), names);
    }
  }

  // ----- and with lists

  ghost predicate PromotesLists(prefix: string, vars: seq<Var>) {
    forall n :: Get(Promoted(prefix, vars, 0), n) == Expected(Get(vars, In(prefix, n)), Get(vars, n))
  }

  /** A name that is in the profile, and in the profile within the profile. */
  predicate Nested(prefix: string, names: seq<string>, n: string) {
    n in names && In(prefix, n) in names && In(prefix, In(prefix, n)) in names
  }

  lemma NamesThere(vars: seq<Var>, names: seq<string>, n: string)
    requires HasNames(vars, names)
    ensures Get(vars, n).Some? <==> n in names
  {
    if n in names {
      var i :| 0 <= i < |names| && names[i] == n;
      assert vars[i].name == n;
    }
  }

  lemma NotNested(prefix: string, vars: seq<Var>, names: seq<string>)
    requires HasNames(vars, names) && Unique(vars) && InOrder(prefix, vars)
    requires forall n :: !Nested(prefix, names, n)
    ensures PromotesLists(prefix, vars)
  {
    hide InOrder, Unique, Promoted, Find;
    forall n
      ensures Get(Promoted(prefix, vars, 0), n) == Expected(Get(vars, In(prefix, n)), Get(vars, n))
    {
      NamesThere(vars, names, n);
      NamesThere(vars, names, In(prefix, n));
      NamesThere(vars, names, In(prefix, In(prefix, n)));
      assert !Nested(prefix, names, n);
      assert prefix + "." + prefix + "." + n == In(prefix, In(prefix, n));
      PromotedValue(prefix, vars, n);
    }
  }

  /** Empty strings, and an empty list for one name. */
  function OneList(names: seq<string>, list: string): seq<Var> {
    seq(|names|, i requires 0 <= i < |names| => Var(names[i], if names[i] == list then List([]) else Str("")))
  }

  /** The list goes to the string, and then what is below the list. */
  lemma NestedWrong(prefix: string, names: seq<string>, n: string)
    requires Unique(Named(names)) && InOrder(prefix, Named(names)) && Nested(prefix, names, n)
    ensures Get(Promoted(prefix, OneList(names, In(prefix, n)), 0), n) == Some(Str(""))
    ensures !PromotesLists(prefix, OneList(names, In(prefix, n)))
  {
    hide InOrder, Promoted;
    var vars := OneList(names, In(prefix, n));
    OrderOfNames(prefix, vars, names);
    NamesThere(vars, names, n);
    NamesThere(vars, names, In(prefix, n));
    NamesThere(vars, names, In(prefix, In(prefix, n)));
    UniqueNames(vars, names);
    var i, k, j := Find(vars, n), Find(vars, In(prefix, n)), Find(vars, In(prefix, In(prefix, n)));
    Deeper(prefix, vars, k, j);
    PromotedOver(prefix, vars, i);
    assert |In(prefix, In(prefix, n))| > |In(prefix, n)| > |n|;
    assert Get(Promoted(prefix, vars, 0), n) != Expected(Get(vars, In(prefix, n)), Get(vars, n));
  }

  /** With lists and strings alike, promote does so exactly when besides no name comes three levels deep. */
  lemma ListsExactly(prefix: string, names: seq<string>)
    requires Unique(Named(names))
    ensures (forall vars: seq<Var> :: HasNames(vars, names) ==> PromotesLists(prefix, vars)) <==>
            InOrder(prefix, Named(names)) && forall n :: !Nested(prefix, names, n)
  {
    hide InOrder, Unique, Promoted, Find;
    if !InOrder(prefix, Named(names)) {
      OutOfOrder(prefix, names);
      StringsToo(prefix, Named(names));
      assert HasNames(Named(names), names);
    } else if n :| Nested(prefix, names, n) {
      NestedWrong(prefix, names, n);
      assert HasNames(OneList(names, In(prefix, n)), names);
    } else {
      forall vars: seq<Var> | HasNames(vars, names)
        ensures PromotesLists(prefix, vars)
      {
        OrderOfNames(prefix, vars, names);
        UniqueNames(vars, names);
        NotNested(prefix, vars, names);
      }
    }
  }

  /** For strings the two say the same. */
  lemma StringsToo(prefix: string, vars: seq<Var>)
    requires Strings(vars)
    ensures PromotesLists(prefix, vars) ==> Promotes(prefix, vars)
  {
    hide Promoted, Find, In;
    forall n
      ensures Expected(Get(vars, In(prefix, n)), Get(vars, n)) == FromProfile(prefix, vars, vars, n)
    {
    }
  }
}
