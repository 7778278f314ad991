// The launch limiter of the attach daemon: how often one program may be started.

module Limiter {
  const CNT_INTVL := 60

  /** The launches counted, and when the counting started. */
  datatype Counter = Counter(count: int, start: int)

  /** A limit below 2 works like 2. */
  function Bound(limit: int): (m: int)
    ensures m >= 2
  {
    if limit < 2 then 2 else limit
  }

  /** Whether an attempt starts the counting anew. */
  predicate Opens(limit: int, c: Counter, now: int) {
    c.count == 0 || (c.count + 1 >= limit && now - c.start > CNT_INTVL)
  }

  predicate Admits(limit: int, c: Counter, now: int) {
    Opens(limit, c, now) || c.count + 1 < limit
  }

  function Attempt(limit: int, c: Counter, now: int): Counter {
    if Opens(limit, c, now) then Counter(1, now)
    else if Admits(limit, c, now) then c.(count := c.count + 1)
    else c.(count := 0)
  }

  class LocalTp {
    const limit: int
    var count: int
    var time: int

    constructor (limit: int)
      ensures this.limit == limit && count == 0
    {
      this.limit, count, time := limit, 0, 0;
    }

    ghost function State(): Counter
      reads this
    {
      Counter(count, time)
    }

    /** snatch_fork_tp, up to the fork. */
    method ForkTp(now: int) returns (launched: bool)
      modifies this
      ensures State() == Attempt(limit, old(State()), now) && launched == Admits(limit, old(State()), now)
      ensures launched <==> old(count) == 0 || old(count) + 1 < limit || now - old(time) > 60
      ensures if old(count) == 0 then count == 1 && time == now
              else if old(count) + 1 < limit then count == old(count) + 1 && time == old(time)
              else if now - old(time) > 60 then count == 1 && time == now
              else count == 0 && time == old(time)
    {
      count := count + 1;
      if count == 1 {
        time := now;
      } else if count >= limit {
        if now - time > CNT_INTVL {
          time := now;
          count := 1;
        } else {
          count := 0;
          return false;
        }
      }
      launched := true;
    }

    /** One attempt after the other, as requests come in. */
    method ForkAll(times: seq<int>) returns (launched: seq<bool>)
      modifies this
      ensures State() == After(limit, old(State()), times) && |launched| == |times|
      ensures forall i :: 0 <= i < |times| ==> launched[i] == Launched(limit, old(State()), times, i)
    {
      launched := [];
      for i := 0 to |times|
        invariant State() == After(limit, old(State()), times[..i]) && |launched| == i
        invariant forall k :: 0 <= k < i ==> launched[k] == Launched(limit, old(State()), times, k)
      {
        assert times[..i + 1][..i] == times[..i];
        var l := ForkTp(times[i]);
        launched := launched + [l];
      }
      assert times[..|times|] == times;
    }
  }

  // ----- runs

  function After(limit: int, c: Counter, times: seq<int>): Counter {
    if times == [] then c
    else Attempt(limit, After(limit, c, times[..|times| - 1]), times[|times| - 1])
  }

  predicate Launched(limit: int, c: Counter, times: seq<int>, i: nat)
    requires i < |times|
  {
    Admits(limit, After(limit, c, times[..i]), times[i])
  }

  /** The counting started as many attempts ago as there are launches counted. */
  lemma {:induction false} StartedBefore(limit: int, c: Counter, times: seq<int>)
    requires c.count == 0
    ensures var s, m := After(limit, c, times), if limit < 2 then 2 else limit;
            && 0 <= s.count < m && s.count <= |times|
            && (s.count > 0 ==> s.start == times[|times| - s.count])
  {
    if times == [] {
    } else {
      StartedBefore(limit, c, times[..|times| - 1]);
    }
  }

  /**
   * An attempt is refused exactly when the count is full, one below the limit, and the attempt with
   * which the counting started is at most 60 seconds ago.
   */
  lemma RefusedExactly(limit: int, c: Counter, times: seq<int>, i: nat)
    requires c.count == 0 && i < |times|
    ensures var m := if limit < 2 then 2 else limit;
            !Launched(limit, c, times, i) <==>
            After(limit, c, times[..i]).count == m - 1 && i >= m - 1 && times[i] - times[i - (m - 1)] <= 60
  {
    StartedBefore(limit, c, times[..i]);
  }

  /** An attempt at a full count, more than 60 seconds behind the start, is launched and starts anew. */
  lemma LaterStartsAnew(limit: int, c: Counter, times: seq<int>, i: nat)
    requires c.count == 0 && i < |times|
    requires var s := After(limit, c, times[..i]); s.count + 1 >= limit && times[i] - s.start > 60
    ensures Launched(limit, c, times, i) && After(limit, c, times[..i + 1]) == Counter(1, times[i])
  {
    assert times[..i + 1][..i] == times[..i];
  }

  /** How many times the counting has been started. */
  function Windows(limit: int, c: Counter, times: seq<int>): nat {
    if times == [] then 0
    else
      var n := |times| - 1;
      Windows(limit, c, times[..n]) + if Opens(limit, After(limit, c, times[..n]), times[n]) then 1 else 0
  }

  /** How many launches fall in the `w`-th window. */
  function LaunchesIn(limit: int, c: Counter, times: seq<int>, w: nat): nat {
    if times == [] then 0
    else
      var n := |times| - 1;
      LaunchesIn(limit, c, times[..n], w)
      + if Launched(limit, c, times, n) && Windows(limit, c, times) == w then 1 else 0
  }

  /** How many launches there are while the counter shows the start `t`. */
  function LaunchesSince(limit: int, c: Counter, times: seq<int>, t: int): nat {
    if times == [] then 0
    else
      var n := |times| - 1;
      LaunchesSince(limit, c, times[..n], t)
      + if Launched(limit, c, times, n) && After(limit, c, times).start == t then 1 else 0
  }

  function Launches(limit: int, c: Counter, times: seq<int>): nat {
    if times == [] then 0
    else Launches(limit, c, times[..|times| - 1]) + if Launched(limit, c, times, |times| - 1) then 1 else 0
  }

  /** The counter stays below the limit, and shows the launches of the window it is in. */
  lemma {:induction false} CounterCounts(limit: int, c: Counter, times: seq<int>, w: nat)
    requires c.count == 0
    ensures var s := After(limit, c, times);
            && 0 <= s.count < Bound(limit)
            && (w == Windows(limit, c, times) && s.count > 0 ==> LaunchesIn(limit, c, times, w) == s.count)
            && (w > Windows(limit, c, times) ==> LaunchesIn(limit, c, times, w) == 0)
            && LaunchesIn(limit, c, times, w) < Bound(limit)
  {
    if times == [] {
    } else {
      CounterCounts(limit, c, times[..|times| - 1], w);
    }
  }

  /** Whatever the clock shows, no window has as many launches as the limit. */
  lemma WindowsAreLimited(limit: int, c: Counter, times: seq<int>, w: nat)
    requires c.count == 0
    ensures LaunchesIn(limit, c, times, w) <= Bound(limit) - 1
  {
    CounterCounts(limit, c, times, w);
  }

  ghost predicate NonDecreasing(times: seq<int>) {
    forall i, j :: 0 <= i < j < |times| ==> times[i] <= times[j]
  }

  /** How many attempts there are while the clock shows `t`. */
  function AttemptsAt(times: seq<int>, t: int): nat {
    if times == [] then 0
    else AttemptsAt(times[..|times| - 1], t) + if times[|times| - 1] == t then 1 else 0
  }

  /**
   * As long as the clock shows `t` no more often than the limit, at most one window starts at `t`: when
   * that one is over, so is the time, or the attempts are used up.
   */
  lemma {:induction false} CounterCountsSince(limit: int, c: Counter, times: seq<int>, t: int)
    requires c.count == 0 && NonDecreasing(times) && AttemptsAt(times, t) <= Bound(limit)
    ensures var s, l := After(limit, c, times), LaunchesSince(limit, c, times, t);
            && 0 <= s.count < Bound(limit) && l < Bound(limit)
            && (s.count > 0 ==> times != [] && s.start <= times[|times| - 1])
            && (times == [] || times[|times| - 1] < t ==> l == 0)
            && (s.count > 0 && s.start == t ==> l == s.count)
            && (s.count > 0 && s.start == t && times[|times| - 1] == t ==> s.count <= AttemptsAt(times, t))
            && (l > 0 && times[|times| - 1] == t && !(s.count > 0 && s.start == t) ==>
                  AttemptsAt(times, t) == Bound(limit))
  {
    if times == [] {
    } else {
      var before := times[..|times| - 1];
      CounterCountsSince(limit, c, before, t);
    }
  }

  /** So a second with no more attempts than the limit has fewer launches under its start than the limit. */
  lemma StartIsLimited(limit: int, c: Counter, times: seq<int>, t: int)
    requires c.count == 0 && NonDecreasing(times) && AttemptsAt(times, t) <= Bound(limit)
    ensures LaunchesSince(limit, c, times, t) <= Bound(limit) - 1
  {
    CounterCountsSince(limit, c, times, t);
  }

  /** A clock that stands still: the attempt after a refusal starts a new window at once. */
  lemma {:induction false} StandingClock(limit: int, c: Counter, t: int, n: nat)
    requires c.count == 0
    ensures var times, s := Standing(t, n), After(limit, c, Standing(t, n));
            && s.count == n % Bound(limit) && (s.count > 0 ==> s.start == t)
            && LaunchesSince(limit, c, times, t) == n - n / Bound(limit)
            && AttemptsAt(times, t) == n && (forall u :: u != t ==> AttemptsAt(times, u) == 0)
  {
    if n == 0 {
    } else {
      StandingClock(limit, c, t, n - 1);
      assert Standing(t, n)[..n - 1] == Standing(t, n - 1);
      NextQuotient(n - 1, Bound(limit));
    }
  }

  function Standing(t: int, n: nat): seq<int> {
    seq(n, _ => t)
  }

  ghost predicate AtMost(times: seq<int>, m: nat) {
    forall u :: AttemptsAt(times, u) <= m
  }

  ghost predicate StartsLimited(limit: int, c: Counter, times: seq<int>) {
    forall t :: LaunchesSince(limit, c, times, t) <= Bound(limit) - 1
  }

  /**
   * With `m` attempts in a second at most and a clock that does not go back, no time at which a window
   * starts has as many launches as the limit, exactly when `m` is not above the limit.
   */
  lemma StartsAreLimited(limit: int, m: nat)
    ensures (forall c: Counter, times: seq<int> :: c.count == 0 && NonDecreasing(times) && AtMost(times, m) ==>
               StartsLimited(limit, c, times)) <==> m <= Bound(limit)
  {
    if m <= Bound(limit) {
      forall c: Counter, times: seq<int>, t: int | c.count == 0 && NonDecreasing(times) && AtMost(times, m)
        ensures LaunchesSince(limit, c, times, t) <= Bound(limit) - 1
      {
        assert AttemptsAt(times, t) <= m;
        StartIsLimited(limit, c, times, t);
      }
    } else {
      var c, n := Counter(0, 0), Bound(limit) + 1;
      StandingClock(limit, c, 0, n);
      NextQuotient(Bound(limit) - 1, Bound(limit));
      NextQuotient(Bound(limit), Bound(limit));
      assert n / Bound(limit) == 1;
      var times := Standing(0, n);
      assert AtMost(times, m) && NonDecreasing(times);
      assert !StartsLimited(limit, c, times);
    }
  }

  /** Every attempt comes within the interval since the counting started. */
  ghost predicate Burst(limit: int, c: Counter, times: seq<int>) {
    forall i :: 0 <= i < |times| ==>
      var s := After(limit, c, times[..i]); s.count == 0 || times[i] - s.start <= 60
  }

  lemma {:induction false} BurstCounter(limit: int, c: Counter, times: seq<int>)
    requires c.count == 0 && Burst(limit, c, times)
    ensures After(limit, c, times).count == |times| % Bound(limit)
    ensures Launches(limit, c, times) == |times| - |times| / Bound(limit)
  {
    hide Attempt, Admits, Bound;
    if times == [] {
      NoQuotient(Bound(limit));
    } else {
      var n := |times| - 1;
      BurstBefore(limit, c, times);
      BurstCounter(limit, c, times[..n]);
      BurstAttempt(limit, After(limit, c, times[..n]), times[n], n);
    }
  }

  lemma BurstBefore(limit: int, c: Counter, times: seq<int>)
    requires times != [] && Burst(limit, c, times)
    ensures Burst(limit, c, times[..|times| - 1])
    ensures var s := After(limit, c, times[..|times| - 1]);
            s.count == 0 || times[|times| - 1] - s.start <= 60
  {
    hide After;
    var n := |times| - 1;
    forall i | 0 <= i < n
      ensures times[..n][..i] == times[..i]
    {
    }
  }

  lemma BurstAttempt(limit: int, s: Counter, now: int, n: nat)
    requires s.count == n % Bound(limit) && (s.count == 0 || now - s.start <= 60)
    ensures Attempt(limit, s, now).count == (n + 1) % Bound(limit)
    ensures (n + 1) / Bound(limit) == n / Bound(limit) + if Admits(limit, s, now) then 0 else 1
  {
    NextQuotient(n, Bound(limit));
  }

  lemma NoQuotient(m: int)
    requires m > 0
    ensures 0 % m == 0 && 0 / m == 0
  {
  }

  lemma NextQuotient(n: nat, m: nat)
    requires m > 0
    ensures (n + 1) % m == (if n % m == m - 1 then 0 else n % m + 1)
    ensures (n + 1) / m == (if n % m == m - 1 then n / m + 1 else n / m)
  {
    var q, r := n / m, n % m;
    assert n == q * m + r;
    if r == m - 1 {
      assert n + 1 == (q + 1) * m;
      Quotient(n + 1, q + 1, 0, m);
    } else {
      assert n + 1 == q * m + (r + 1);
      Quotient(n + 1, q, r + 1, m);
    }
  }

  lemma Quotient(n: nat, q: nat, r: nat, m: nat)
    requires r < m && n == q * m + r
    ensures n / m == q && n % m == r
  {
    if n / m < q {
      Times(n / m + 1, q, m);
    } else if n / m > q {
      Times(q + 1, n / m, m);
    }
  }

  lemma Times(a: nat, b: nat, m: nat)
    requires a <= b
    ensures a * m <= b * m
  {
  }

  /** In a burst every attempt whose number is a multiple of the limit is refused, and no other. */
  lemma RefusedInBurst(limit: int, c: Counter, times: seq<int>, i: nat)
    requires c.count == 0 && Burst(limit, c, times) && i < |times|
    ensures !Launched(limit, c, times, i) <==> (i + 1) % Bound(limit) == 0
  {
    forall k | 0 <= k < i
      ensures times[..i][..k] == times[..k]
    {
    }
    BurstCounter(limit, c, times[..i]);
    NextQuotient(i, Bound(limit));
  }

  /** Attempts that all come within the interval after the first are a burst, if the clock does not go back. */
  lemma WithinIntervalIsBurst(limit: int, c: Counter, times: seq<int>)
    requires c.count == 0
    requires forall i, j :: 0 <= i < j < |times| ==> times[i] <= times[j]
    requires forall i :: 0 <= i < |times| ==> times[i] - times[0] <= 60
    ensures Burst(limit, c, times)
  {
    forall i | 0 <= i < |times|
      ensures var s := After(limit, c, times[..i]); s.count == 0 || times[i] - s.start <= 60
    {
      StartNotBeforeFirst(limit, c, times[..i]);
    }
  }

  lemma {:induction false} StartNotBeforeFirst(limit: int, c: Counter, times: seq<int>)
    requires c.count == 0 && forall i, j :: 0 <= i < j < |times| ==> times[i] <= times[j]
    ensures After(limit, c, times).count == 0 || (times != [] && After(limit, c, times).start >= times[0])
  {
    if times == [] {
    } else {
      StartNotBeforeFirst(limit, c, times[..|times| - 1]);
    }
  }
}
