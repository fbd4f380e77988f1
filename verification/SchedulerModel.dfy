/** The process queue and the timer tick (scheduler.cpp) on values: what the ring does over whole runs. */
module SchedulerModel {
  import opened Bits

  // What ReadEIP returns in a task that has just been switched back to.
  const RESUMED: word := 0xC000_0123

  datatype Context = Context(eip: word, esp: word, ebp: word)

  datatype Task = Task(pid: word, slice: nat, default: nat, saved: Context, directory: word)

  /** The globals TaskSwitch loads. */
  datatype Published = Published(context: Context, directory: word)

  /** The tasks in the order of the next links from the head on, the one that runs, and the lock. */
  datatype State = State(tasks: seq<Task>, current: nat, locked: bool, published: Published)

  predicate WellFormed(s: State) { s.current < |s.tasks| }

  /** The position that position i's next link leads to in a ring of n. */
  function After(n: nat, i: nat): (r: nat)
    requires i < n
    ensures r < n
  {
    if i + 1 < n then i + 1 else 0
  }

  function Next(s: State): nat
    requires WellFormed(s)
  {
    After(|s.tasks|, s.current)
  }

  /** The running task goes through one timer interrupt that finds it in context c. */
  function Tick(s: State, c: Context): (r: State)
    requires WellFormed(s)
    ensures WellFormed(r) && |r.tasks| == |s.tasks| && r.locked == s.locked
  {
    var t := s.tasks[s.current];
    if t.slice > 0 then s.(tasks := s.tasks[s.current := t.(slice := t.slice - 1)])
    else if s.locked then s
    else if c.eip == RESUMED then s.(tasks := s.tasks[s.current := t.(slice := t.default)])
    else
      var tasks := s.tasks[s.current := t.(slice := t.default, saved := c)];
      s.(tasks := tasks, current := Next(s), published := Publish(tasks[Next(s)]))
  }

  function Publish(t: Task): Published { Published(t.saved, t.directory) }

  /** InsertProcessIntoQueue: behind the head. */
  function Insert(s: State, t: Task): State
  {
    if s.tasks == [] then s.(tasks := [t], current := 0)
    else s.(tasks := [s.tasks[0], t] + s.tasks[1..], current := if s.current == 0 then 0 else s.current + 1)
  }

  /** RemoveProcessFromQueue and the switch of EndProcess: process i leaves, the one behind it runs. */
  function End(s: State, i: nat): State
    requires 0 < i < |s.tasks|
  {
    var rest := s.tasks[..i] + s.tasks[i + 1..];
    var next := if i < |rest| then i else 0;
    s.(tasks := rest, current := next, published := Publish(rest[next]))
  }

  function Ticks(s: State, cs: seq<Context>): (r: State)
    requires WellFormed(s)
    ensures WellFormed(r) && |r.tasks| == |s.tasks| && r.locked == s.locked
    decreases cs
  {
    if cs == [] then s else Ticks(Tick(s, cs[0]), cs[1..])
  }

  lemma {:induction false} TicksSplit(s: State, cs: seq<Context>, k: nat)
    requires WellFormed(s) && k <= |cs|
    ensures Ticks(s, cs) == Ticks(Ticks(s, cs[..k]), cs[k..])
    decreases k
  {
    if k == 0 {
      assert cs[..0] == [] && cs[0..] == cs;
    } else {
      assert cs[..k][0] == cs[0] && cs[..k][1..] == cs[1..][..k - 1] && cs[k..] == cs[1..][k - 1..];
      TicksSplit(Tick(s, cs[0]), cs[1..], k - 1);
    }
  }

  // ---- The lock ----

  /** s with k ticks left in the slice of the running task. */
  function Sliced(s: State, k: nat): (r: State)
    requires WellFormed(s)
    ensures WellFormed(r)
  {
    s.(tasks := s.tasks[s.current := s.tasks[s.current].(slice := k)])
  }

  function Left(slice: nat, ticks: nat): nat { if ticks <= slice then slice - ticks else 0 }

  /** While the lock is held no interrupt switches tasks, saves a context or publishes one: all that
      happens is that the running task's slice runs down to zero. */
  lemma {:induction false} LockedTicksSwitchNothing(s: State, cs: seq<Context>)
    requires WellFormed(s) && s.locked
    ensures Ticks(s, cs) == Sliced(s, Left(s.tasks[s.current].slice, |cs|))
    decreases cs
  {
    if cs == [] {
      assert s.tasks[s.current := s.tasks[s.current]] == s.tasks;
    } else {
      var s1 := Tick(s, cs[0]);
      LockedTicksSwitchNothing(s1, cs[1..]);
      assert s.tasks[s.current := s.tasks[s.current]] == s.tasks;
    }
  }

  lemma SlicedInsert(s: State, k: nat, t: Task)
    requires WellFormed(s)
    ensures WellFormed(Insert(s, t)) && Sliced(Insert(s, t), k) == Insert(Sliced(s, k), t)
    ensures Insert(s, t).tasks[Insert(s, t).current] == s.tasks[s.current]
  {
    assert Sliced(Insert(s, t), k).tasks == Insert(Sliced(s, k), t).tasks;
  }

  /** CreateProcess and LoadELF with timer interrupts between their statements: the lock is read and
      taken, interrupts, the process is queued, interrupts, the lock gets its old value. */
  function Creation(s: State, t: Task, before: seq<Context>, behind: seq<Context>): State
    requires WellFormed(s)
  {
    var queued := Insert(Ticks(s.(locked := true), before), t);
    SlicedInsert(Ticks(s.(locked := true), before), 0, t);
    Ticks(queued, behind).(locked := s.locked)
  }

  /** However many interrupts arrive, creating a process is one indivisible insertion: the same task is
      running afterwards, the lock is as it was, and only its slice shows that time has passed. */
  lemma CreationIsOneStep(s: State, t: Task, before: seq<Context>, behind: seq<Context>)
    requires WellFormed(s)
    ensures Creation(s, t, before, behind) == Insert(Sliced(s, Left(s.tasks[s.current].slice, |before| + |behind|)), t)
  {
    hide Ticks;
    var slice := s.tasks[s.current].slice;
    var k := Left(slice, |before|);
    var s0 := s.(locked := true);
    LockedTicksSwitchNothing(s0, before);
    var s1 := Sliced(s0, k);
    SlicedInsert(s1, 0, t);
    var s2 := Insert(s1, t);
    LockedTicksSwitchNothing(s2, behind);
    SlicedInsert(s1, Left(k, |behind|), t);
    assert Sliced(s1, Left(k, |behind|)) == Sliced(s0, Left(slice, |before| + |behind|));
  }

  /** The exit system call takes the lock and never comes back to release it: the process behind the one
      that left runs, whatever interrupts follow, until some system call returns and clears the lock. */
  lemma ExitLeavesLockHeld(s: State, i: nat, cs: seq<Context>)
    requires 0 < i < |s.tasks|
    ensures var s1 := End(s.(locked := true), i); var r := Ticks(s1, cs);
      s1.tasks[s1.current] == s.tasks[After(|s.tasks|, i)] && s1.published == Publish(s1.tasks[s1.current])
      && r.locked && r.current == s1.current && r.published == s1.published
  {
    hide Ticks;
    LockedTicksSwitchNothing(End(s.(locked := true), i), cs);
  }
}
