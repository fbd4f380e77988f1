/** The exact timing of the round robin that the timer tick (scheduler.cpp) drives. */
module RoundRobinTiming {
  import opened SchedulerModel

  /** No interrupt reads the marker for its return address. */
  predicate Fresh(cs: seq<Context>) { forall i :: 0 <= i < |cs| ==> cs[i].eip != 0xC000_0123 }

  /** Ticks until the process k places behind position i runs, when the one at i has just begun. */
  function Wait(tasks: seq<Task>, i: nat, k: nat): nat
    requires i < |tasks|
    decreases k
  {
    if k == 0 then 0 else tasks[i].slice + 1 + Wait(tasks, After(|tasks|, i), k - 1)
  }

  /** While its slice lasts the running task keeps running. */
  lemma {:induction false} SliceRuns(s: State, cs: seq<Context>)
    requires WellFormed(s) && |cs| <= s.tasks[s.current].slice
    ensures var t := s.tasks[s.current];
      Ticks(s, cs) == s.(tasks := s.tasks[s.current := t.(slice := t.slice - |cs|)])
    decreases cs
  {
    if cs == [] {
      assert s.tasks[s.current := s.tasks[s.current]] == s.tasks;
    } else {
      SliceRuns(Tick(s, cs[0]), cs[1..]);
    }
  }

  /** One turn: slice + 1 ticks, after which the next task runs and the slice is full again. */
  lemma {:induction false} Turn(s: State, cs: seq<Context>)
    requires WellFormed(s) && !s.locked && Fresh(cs) && |cs| == s.tasks[s.current].slice + 1
    ensures var t := s.tasks[s.current]; var r := Ticks(s, cs);
      r.tasks == s.tasks[s.current := t.(slice := t.default, saved := cs[|cs| - 1])] && r.current == Next(s)
      && r.published == Publish(r.tasks[r.current])
  {
    var k := |cs| - 1;
    TicksSplit(s, cs, k);
    SliceRuns(s, cs[..k]);
    var r := Ticks(s, cs[..k]);
    assert cs[k..] == [cs[k]];
    assert Ticks(Tick(r, cs[k]), []) == Tick(r, cs[k]);
  }

  /** If the interrupt that ends a turn reads the marker, the running task gets another full slice: no context is saved
      and nobody else runs. */
  lemma {:induction false} MarkerRenewsSlice(s: State, cs: seq<Context>)
    requires WellFormed(s) && !s.locked && |cs| == s.tasks[s.current].slice + 1 && cs[|cs| - 1].eip == 0xC000_0123
    ensures var t := s.tasks[s.current];
      Ticks(s, cs) == s.(tasks := s.tasks[s.current := t.(slice := t.default)])
  {
    var k := |cs| - 1;
    TicksSplit(s, cs, k);
    SliceRuns(s, cs[..k]);
    var r := Ticks(s, cs[..k]);
    assert cs[k..] == [cs[k]];
    assert Ticks(Tick(r, cs[k]), []) == Tick(r, cs[k]);
  }

  /** The position d places behind i in a ring of n. */
  function Behind(n: nat, i: nat, d: nat): (r: nat)
    requires i < n && d <= n
    ensures r < n
  {
    if i + d < n then i + d else i + d - n
  }

  lemma BehindNext(n: nat, i: nat, d: nat)
    requires i < n && d < n
    ensures Behind(n, After(n, i), d) == Behind(n, i, d + 1)
  {}

  /** A wait depends only on the processes it passes. */
  lemma {:induction false} WaitElsewhere(tasks: seq<Task>, j: nat, t: Task, i: nat, k: nat)
    requires j < |tasks| && i < |tasks| && k <= |tasks|
    requires forall d: nat :: d < k ==> Behind(|tasks|, i, d) != j
    ensures Wait(tasks[j := t], i, k) == Wait(tasks, i, k)
    decreases k
  {
    if k > 0 {
      var n, i' := |tasks|, After(|tasks|, i);
      assert Behind(n, i, 0) == i;
      forall d: nat | d < k - 1 ensures Behind(n, i', d) != j {
        BehindNext(n, i, d);
        assert Behind(n, i, d + 1) != j;
      }
      WaitElsewhere(tasks, j, t, i', k - 1);
    }
  }

  /** What k turns leave: the processes that had their turn have full slices, the others are untouched, and
      nobody's default, pid or directory has changed. */
  ghost predicate TurnsTaken(s: State, r: State, k: nat)
    requires WellFormed(s) && k <= |s.tasks|
  {
    var n := |s.tasks|;
    |r.tasks| == n && r.current == Behind(n, s.current, k)
    && (forall d: nat :: d < k ==> var j := Behind(n, s.current, d);
          r.tasks[j] == s.tasks[j].(slice := s.tasks[j].default, saved := r.tasks[j].saved))
    && (forall d: nat :: k <= d < n ==> r.tasks[Behind(n, s.current, d)] == s.tasks[Behind(n, s.current, d)])
  }

  /** Exact round robin: with the lock clear, the process k places behind the running one runs after exactly
      the slices of the running task and of those between, plus one tick for each. */
  lemma {:induction false} RoundRobin(s: State, cs: seq<Context>, k: nat)
    requires WellFormed(s) && !s.locked && Fresh(cs) && k <= |s.tasks| && |cs| == Wait(s.tasks, s.current, k)
    ensures TurnsTaken(s, Ticks(s, cs), k)
    decreases k
  {
    var n, i := |s.tasks|, s.current;
    if k > 0 {
      var a := s.tasks[i].slice + 1;
      var s1 := Ticks(s, cs[..a]);
      Turn(s, cs[..a]);
      TicksSplit(s, cs, a);
      forall d: nat | d < k - 1 ensures Behind(n, After(n, i), d) != i { BehindNext(n, i, d); }
      WaitElsewhere(s.tasks, i, s1.tasks[i], After(n, i), k - 1);
      RoundRobin(s1, cs[a..], k - 1);
      TurnThenTurns(s, s1, Ticks(s1, cs[a..]), k);
    }
  }

  lemma TurnThenTurns(s: State, s1: State, r: State, k: nat)
    requires WellFormed(s) && WellFormed(s1) && 0 < k <= |s.tasks| == |s1.tasks|
    requires s1.current == Next(s)
    requires var t := s.tasks[s.current];
      s1.tasks == s.tasks[s.current := t.(slice := t.default, saved := s1.tasks[s.current].saved)]
    requires TurnsTaken(s1, r, k - 1)
    ensures TurnsTaken(s, r, k)
  {
    var n, i := |s.tasks|, s.current;
    BehindNext(n, i, k - 1);
    assert Behind(n, i, 0) == i == Behind(n, s1.current, n - 1);
    forall d: nat | 0 < d < n ensures Behind(n, i, d) == Behind(n, s1.current, d - 1) { BehindNext(n, i, d - 1); }
    forall d: nat | d < k
      ensures var j := Behind(n, i, d);
        r.tasks[j] == s.tasks[j].(slice := s.tasks[j].default, saved := r.tasks[j].saved)
    {
      if d == 0 {
        assert r.tasks[Behind(n, s1.current, n - 1)] == s1.tasks[Behind(n, s1.current, n - 1)];
      } else {
        assert Behind(n, i, d) == Behind(n, s1.current, d - 1);
      }
    }
    forall d: nat | k <= d < n ensures r.tasks[Behind(n, i, d)] == s.tasks[Behind(n, i, d)] {
      assert Behind(n, i, d) == Behind(n, s1.current, d - 1);
    }
  }

  /** And not before: until its wait is over the process before it runs. */
  lemma {:induction false} NotBefore(s: State, cs: seq<Context>, k: nat)
    requires WellFormed(s) && !s.locked && Fresh(cs) && k < |s.tasks|
    requires Wait(s.tasks, s.current, k) <= |cs|
    requires |cs| <= Wait(s.tasks, s.current, k) + s.tasks[Behind(|s.tasks|, s.current, k)].slice
    ensures Ticks(s, cs).current == Behind(|s.tasks|, s.current, k)
  {
    var w := Wait(s.tasks, s.current, k);
    RoundRobin(s, cs[..w], k);
    TicksSplit(s, cs, w);
    var r := Ticks(s, cs[..w]);
    assert r.tasks[Behind(|s.tasks|, s.current, k)] == s.tasks[Behind(|s.tasks|, s.current, k)];
    SliceRuns(r, cs[w..]);
  }

  /** A process created while the head runs is the next to run, from its first instruction on. */
  lemma {:induction false} NewcomerRunsNext(s: State, t: Task, cs: seq<Context>)
    requires WellFormed(s) && s.current == 0 && !s.locked && Fresh(cs) && |cs| == s.tasks[0].slice + 1
    ensures WellFormed(Insert(s, t)) && var r := Ticks(Insert(s, t), cs);
      r.tasks[r.current] == t && r.published == Publish(t)
  {
    hide Ticks;
    Turn(Insert(s, t), cs);
  }

  lemma {:induction false} WaitOneMore(tasks: seq<Task>, i: nat, k: nat)
    requires i < |tasks| && k < |tasks|
    ensures Wait(tasks, i, k + 1) == Wait(tasks, i, k) + tasks[Behind(|tasks|, i, k)].slice + 1
    decreases k
  {
    if k > 0 {
      BehindNext(|tasks|, i, k - 1);
      WaitOneMore(tasks, After(|tasks|, i), k - 1);
    }
  }

  // ---- Full rounds ----

  predicate Settled(tasks: seq<Task>) { forall j :: 0 <= j < |tasks| ==> tasks[j].slice == tasks[j].default }

  /** The length of a round of full slices: the sum of default + 1. */
  function Round(tasks: seq<Task>): nat
  {
    if tasks == [] then 0 else tasks[0].default + 1 + Round(tasks[1..])
  }

  /** A full round, whoever starts it. */
  lemma {:induction false} RoundIsWait(tasks: seq<Task>, i: nat)
    requires i < |tasks| && Settled(tasks)
    ensures Wait(tasks, i, |tasks|) == Round(tasks)
  {
    WaitToEnd(tasks, i);
    WaitSplit(tasks, i, |tasks| - i, i);
    if i > 0 { WaitFromStart(tasks, 0, i); }
    assert tasks[0..] == tasks;
    RoundSplit(tasks, i);
  }

  lemma {:induction false} WaitSplit(tasks: seq<Task>, i: nat, a: nat, b: nat)
    requires i < |tasks| && a + b <= |tasks|
    ensures Wait(tasks, i, a + b) == Wait(tasks, i, a) + Wait(tasks, Behind(|tasks|, i, a), b)
    decreases a
  {
    if a > 0 {
      BehindNext(|tasks|, i, a - 1);
      WaitSplit(tasks, After(|tasks|, i), a - 1, b);
    }
  }

  lemma {:induction false} WaitFromStart(tasks: seq<Task>, i: nat, j: nat)
    requires i < j < |tasks| && Settled(tasks)
    ensures Wait(tasks, i, j - i) == Round(tasks[i..j])
    decreases j - i
  {
    assert tasks[i..j][1..] == tasks[i + 1..j];
    if i + 1 < j { WaitFromStart(tasks, i + 1, j); }
  }

  lemma {:induction false} WaitToEnd(tasks: seq<Task>, i: nat)
    requires i < |tasks| && Settled(tasks)
    ensures Wait(tasks, i, |tasks| - i) == Round(tasks[i..])
    decreases |tasks| - i
  {
    assert tasks[i..][1..] == tasks[i + 1..];
    if i + 1 < |tasks| { WaitToEnd(tasks, i + 1); }
  }

  lemma {:induction false} RoundSplit(tasks: seq<Task>, i: nat)
    requires i <= |tasks|
    ensures Round(tasks) == Round(tasks[..i]) + Round(tasks[i..])
    decreases i
  {
    if i > 0 {
      assert tasks[..i][1..] == tasks[1..][..i - 1] && tasks[1..][i - 1..] == tasks[i..];
      RoundSplit(tasks[1..], i - 1);
    }
  }

  /** Two queues that differ in saved contexts only. */
  ghost predicate SameButContexts(a: seq<Task>, b: seq<Task>)
  {
    |a| == |b| && forall j :: 0 <= j < |a| ==> b[j] == a[j].(saved := b[j].saved)
  }

  /** After one full round every slice is full and the same task runs again. */
  lemma FirstRoundSettles(s: State, cs: seq<Context>)
    requires WellFormed(s) && !s.locked && Fresh(cs) && |cs| == Wait(s.tasks, s.current, |s.tasks|)
    ensures var r := Ticks(s, cs);
      r.current == s.current && Settled(r.tasks) && |r.tasks| == |s.tasks|
      && forall j :: 0 <= j < |s.tasks| ==>
        r.tasks[j] == s.tasks[j].(slice := s.tasks[j].default, saved := r.tasks[j].saved)
  {
    var n := |s.tasks|;
    RoundRobin(s, cs, n);
    var r := Ticks(s, cs);
    forall j | 0 <= j < n ensures r.tasks[j] == s.tasks[j].(slice := s.tasks[j].default, saved := r.tasks[j].saved) {
      var d := if j >= s.current then j - s.current else j + n - s.current;
      assert Behind(n, s.current, d) == j;
    }
  }

  lemma {:induction false} SameRound(a: seq<Task>, b: seq<Task>)
    requires SameButContexts(a, b)
    ensures Round(a) == Round(b) && (Settled(a) ==> Settled(b))
  {
    if a != [] {
      assert b[0].default == a[0].default;
      SameRoundTail(a, b);
      SameRound(a[1..], b[1..]);
      forall j | 0 <= j < |a| ensures b[j].slice == a[j].slice && b[j].default == a[j].default {}
    }
  }

  lemma SameRoundTail(a: seq<Task>, b: seq<Task>)
    requires SameButContexts(a, b) && a != []
    ensures SameButContexts(a[1..], b[1..])
  {
    forall j | 0 <= j < |a[1..]| ensures b[1..][j] == a[1..][j].(saved := b[1..][j].saved) {
      assert b[j + 1] == a[j + 1].(saved := b[j + 1].saved);
    }
  }

  /** One round of full slices. */
  lemma SettledRound(s: State, cs: seq<Context>)
    requires WellFormed(s) && !s.locked && Fresh(cs) && Settled(s.tasks) && |cs| == Round(s.tasks)
    ensures var r := Ticks(s, cs);
      WellFormed(r) && !r.locked && r.current == s.current && SameButContexts(s.tasks, r.tasks)
      && Settled(r.tasks) && Round(r.tasks) == Round(s.tasks)
  {
    hide Ticks, Wait, Round;
    RoundIsWait(s.tasks, s.current);
    FirstRoundSettles(s, cs);
    var r := Ticks(s, cs);
    forall j | 0 <= j < |s.tasks| ensures r.tasks[j] == s.tasks[j].(saved := r.tasks[j].saved) {
      assert r.tasks[j] == s.tasks[j].(slice := s.tasks[j].default, saved := r.tasks[j].saved);
    }
    SameRound(s.tasks, r.tasks);
  }

  lemma SameButContextsChain(a: seq<Task>, b: seq<Task>, c: seq<Task>)
    requires SameButContexts(a, b) && SameButContexts(b, c)
    ensures SameButContexts(a, c)
  {
    forall j | 0 <= j < |a| ensures c[j] == a[j].(saved := c[j].saved) {
      assert b[j] == a[j].(saved := b[j].saved) && c[j] == b[j].(saved := c[j].saved);
    }
  }

  lemma FreshParts(cs: seq<Context>, k: nat)
    requires Fresh(cs) && k <= |cs|
    ensures Fresh(cs[..k]) && Fresh(cs[k..])
  {}

  /** From full slices on the schedule repeats: every round takes exactly the sum of default + 1 ticks
      and ends where it began, with nothing changed but the saved contexts. */
  lemma {:induction false} RoundsRepeat(s: State, cs: seq<Context>, rounds: nat)
    requires WellFormed(s) && !s.locked && Fresh(cs) && Settled(s.tasks) && |cs| == rounds * Round(s.tasks)
    ensures var r := Ticks(s, cs); r.current == s.current && SameButContexts(s.tasks, r.tasks)
    decreases rounds
  {
    hide Round, Settled, Fresh;
    if rounds == 0 {
      assert SameButContexts(s.tasks, s.tasks);
    } else {
      var w := Round(s.tasks);
      assert |cs| - w == (rounds - 1) * w >= 0;
      FreshParts(cs, w);
      SettledRound(s, cs[..w]);
      TicksSplit(s, cs, w);
      RoundsRepeat(Ticks(s, cs[..w]), cs[w..], rounds - 1);
      SameButContextsChain(s.tasks, Ticks(s, cs[..w]).tasks, Ticks(s, cs).tasks);
    }
  }
}
