/** What every run of the scheduler keeps: ticks, creations, exits and lock changes in any order. */
module SchedulerRuns {
  import opened Bits
  import opened Options
  import opened SchedulerModel

  /** Insertion is the one step of CreateProcess and LoadELF that changes the queue; the lock is set and
      cleared by them and by the system call handler. */
  datatype Event =
    | Timer(context: Context)
    | Create(entry: Context, directory: word, slice: nat, default: nat)
    | Exit(position: nat)
    | SetLock(held: bool)

  /** The scheduler's globals and the number of processes created so far. */
  datatype Machine = Machine(state: State, nextPid: word, created: nat)

  /** What an observer notes: births, contexts saved, exits, and what was published when a task was
      switched to. */
  datatype Note =
    | Born(pid: word, entry: Context, directory: word)
    | Saved(pid: word, context: Context)
    | Ended(pid: word)
    | Dispatched(pid: word, published: Published)

  predicate Possible(m: Machine, e: Event)
  {
    match e
    case Timer(_) => WellFormed(m.state)
    case Exit(i) => 0 < i < |m.state.tasks|
    case _ => true
  }

  function Newborn(m: Machine, e: Event): Task
    requires e.Create?
  {
    Task(m.nextPid, e.slice, e.default, e.entry, e.directory)
  }

  function Step(m: Machine, e: Event): Machine
    requires Possible(m, e)
  {
    match e
    case Timer(c) => m.(state := Tick(m.state, c))
    case Create(_, _, _, _) =>
      Machine(Insert(m.state, Newborn(m, e)), (m.nextPid + 1) % WORD, m.created + 1)
    case Exit(i) => m.(state := End(m.state, i))
    case SetLock(held) => m.(state := m.state.(locked := held))
  }

  predicate Switches(s: State, c: Context)
    requires WellFormed(s)
  {
    s.tasks[s.current].slice == 0 && !s.locked && c.eip != RESUMED
  }

  function Dispatch(s: State): Note
    requires WellFormed(s)
  {
    Dispatched(s.tasks[s.current].pid, s.published)
  }

  /** The notes one step adds. */
  function Notes(m: Machine, e: Event): seq<Note>
    requires Possible(m, e)
  {
    match e
    case Timer(c) =>
      if Switches(m.state, c)
      then [Saved(m.state.tasks[m.state.current].pid, c), Dispatch(Tick(m.state, c))]
      else []
    case Create(entry, directory, _, _) => [Born(m.nextPid, entry, directory)]
    case Exit(i) => [Ended(m.state.tasks[i].pid), Dispatch(End(m.state, i))]
    case SetLock(_) => []
  }

  predicate PossibleRun(m: Machine, events: seq<Event>)
    decreases events
  {
    events == [] || (Possible(m, events[0]) && PossibleRun(Step(m, events[0]), events[1..]))
  }

  function Run(m: Machine, events: seq<Event>): Machine
    requires PossibleRun(m, events)
    decreases events
  {
    if events == [] then m else Run(Step(m, events[0]), events[1..])
  }

  function RunNotes(m: Machine, events: seq<Event>): seq<Note>
    requires PossibleRun(m, events)
    decreases events
  {
    if events == [] then [] else Notes(m, events[0]) + RunNotes(Step(m, events[0]), events[1..])
  }

  // ---- What the notes say about a process ----

  /** The context last saved for a process, or the one it was born with. */
  function LastContext(notes: seq<Note>, pid: word): Option<Context>
  {
    if notes == [] then None
    else
      match notes[|notes| - 1]
      case Saved(p, c) => if p == pid then Some(c) else LastContext(notes[..|notes| - 1], pid)
      case Born(p, c, _) => if p == pid then Some(c) else LastContext(notes[..|notes| - 1], pid)
      case _ => LastContext(notes[..|notes| - 1], pid)
  }

  function Directory(notes: seq<Note>, pid: word): Option<word>
  {
    if notes == [] then None
    else
      match notes[|notes| - 1]
      case Born(p, _, d) => if p == pid then Some(d) else Directory(notes[..|notes| - 1], pid)
      case _ => Directory(notes[..|notes| - 1], pid)
  }

  /** The processes born and not ended. */
  function Live(notes: seq<Note>): set<word>
  {
    if notes == [] then {}
    else
      match notes[|notes| - 1]
      case Born(p, _, _) => Live(notes[..|notes| - 1]) + {p}
      case Ended(p) => Live(notes[..|notes| - 1]) - {p}
      case _ => Live(notes[..|notes| - 1])
  }

  /** Everything ever dispatched got what was last saved for it, in the address space it was born in. */
  ghost predicate Faithful(notes: seq<Note>)
  {
    forall i :: 0 <= i < |notes| && notes[i].Dispatched? ==>
      LastContext(notes[..i], notes[i].pid) == Some(notes[i].published.context)
      && Directory(notes[..i], notes[i].pid) == Some(notes[i].published.directory)
  }

  // ---- The invariant ----

  ghost predicate Has(tasks: seq<Task>, pid: word) { exists i :: 0 <= i < |tasks| && tasks[i].pid == pid }

  ghost predicate Distinct(tasks: seq<Task>)
  {
    forall i, j :: 0 <= i < j < |tasks| ==> tasks[i].pid != tasks[j].pid
  }

  ghost predicate Recorded(t: Task, notes: seq<Note>)
  {
    LastContext(notes, t.pid) == Some(t.saved) && Directory(notes, t.pid) == Some(t.directory)
  }

  ghost predicate Known(tasks: seq<Task>, notes: seq<Note>)
  {
    forall i :: 0 <= i < |tasks| ==> Recorded(tasks[i], notes)
  }

  ghost predicate Older(tasks: seq<Task>, created: nat)
  {
    forall i :: 0 <= i < |tasks| ==> tasks[i].pid < created
  }

  /** The queue holds exactly the live processes, each once. */
  ghost predicate Queue(tasks: seq<Task>, notes: seq<Note>)
  {
    Distinct(tasks) && (forall p: word :: p in Live(notes) <==> Has(tasks, p))
  }

  ghost predicate Invariant(m: Machine, notes: seq<Note>)
  {
    WellFormed(m.state) && m.created <= WORD && m.nextPid == m.created % WORD
    && m.state.tasks[0].pid == 0
    && Older(m.state.tasks, m.created) && Queue(m.state.tasks, notes)
    && Known(m.state.tasks, notes) && Faithful(notes)
  }

  lemma NotedLast(notes: seq<Note>, n: Note, pid: word)
    ensures LastContext(notes + [n], pid) ==
      if n.Saved? && n.pid == pid then Some(n.context)
      else if n.Born? && n.pid == pid then Some(n.entry)
      else LastContext(notes, pid)
    ensures Directory(notes + [n], pid) == if n.Born? && n.pid == pid then Some(n.directory) else Directory(notes, pid)
  {
    assert (notes + [n])[..|notes|] == notes;
  }

  lemma LiveLast(notes: seq<Note>, n: Note)
    ensures Live(notes + [n]) ==
      if n.Born? then Live(notes) + {n.pid} else if n.Ended? then Live(notes) - {n.pid} else Live(notes)
  {
    assert (notes + [n])[..|notes|] == notes;
  }

  lemma FaithfulLast(notes: seq<Note>, n: Note)
    requires Faithful(notes)
    requires n.Dispatched? ==>
      LastContext(notes, n.pid) == Some(n.published.context) && Directory(notes, n.pid) == Some(n.published.directory)
    ensures Faithful(notes + [n])
  {
    hide LastContext, Directory;
    forall i | 0 <= i < |notes + [n]| && (notes + [n])[i].Dispatched?
      ensures LastContext((notes + [n])[..i], (notes + [n])[i].pid) == Some((notes + [n])[i].published.context)
      ensures Directory((notes + [n])[..i], (notes + [n])[i].pid) == Some((notes + [n])[i].published.directory)
    {
      if i < |notes| {
        assert (notes + [n])[..i] == notes[..i] && (notes + [n])[i] == notes[i];
      } else {
        assert (notes + [n])[..i] == notes && (notes + [n])[i] == n;
      }
    }
  }

  /** A dispatch on record changes nothing that is recorded. */
  lemma DispatchKeeps(m: Machine, notes: seq<Note>)
    requires Invariant(m, notes) && m.state.published == Publish(m.state.tasks[m.state.current])
    ensures Invariant(m, notes + [Dispatch(m.state)])
  {
    hide LastContext, Directory, Live, Faithful, Distinct, Older;
    var n := Dispatch(m.state);
    NotedLast(notes, n, n.pid);
    LiveLast(notes, n);
    assert Recorded(m.state.tasks[m.state.current], notes);
    FaithfulLast(notes, n);
    forall i | 0 <= i < |m.state.tasks| ensures Recorded(m.state.tasks[i], notes + [n]) {
      assert Recorded(m.state.tasks[i], notes);
      NotedLast(notes, n, m.state.tasks[i].pid);
    }
  }

  /** Queues with the same pids in the same places. */
  ghost predicate SamePids(a: seq<Task>, b: seq<Task>)
  {
    |a| == |b| && forall i :: 0 <= i < |a| ==> b[i].pid == a[i].pid
  }

  lemma SamePidsKeep(a: seq<Task>, b: seq<Task>, notes: seq<Note>, notes': seq<Note>, created: nat)
    requires SamePids(a, b) && Queue(a, notes) && Older(a, created) && Live(notes') == Live(notes)
    ensures Queue(b, notes') && Older(b, created)
  {
    hide Live;
    forall p: word ensures Has(a, p) <==> Has(b, p) {
      if i :| 0 <= i < |a| && a[i].pid == p { assert b[i].pid == p; }
      if i :| 0 <= i < |b| && b[i].pid == p { assert a[i].pid == p; }
    }
  }

  /** The running task's context is saved and its slice refilled. */
  lemma SaveKeeps(m: Machine, notes: seq<Note>, c: Context, next: State)
    requires Invariant(m, notes) && WellFormed(next)
    requires var t := m.state.tasks[m.state.current];
      next.tasks == m.state.tasks[m.state.current := t.(slice := t.default, saved := c)]
    ensures Invariant(m.(state := next), notes + [Saved(m.state.tasks[m.state.current].pid, c)])
  {
    hide LastContext, Directory, Live, Faithful, Older, Queue;
    var s := m.state;
    var n := Saved(s.tasks[s.current].pid, c);
    LiveLast(notes, n);
    FaithfulLast(notes, n);
    SamePidsKeep(s.tasks, next.tasks, notes, notes + [n], m.created);
    assert Distinct(s.tasks) by { QueueDistinct(s.tasks, notes); }
    forall i | 0 <= i < |next.tasks| ensures Recorded(next.tasks[i], notes + [n]) {
      assert Recorded(s.tasks[i], notes);
      NotedLast(notes, n, s.tasks[i].pid);
    }
  }

  lemma QueueDistinct(tasks: seq<Task>, notes: seq<Note>)
    requires Queue(tasks, notes)
    ensures Distinct(tasks)
  {}

  lemma TimerKeeps(m: Machine, notes: seq<Note>, c: Context)
    requires Invariant(m, notes)
    ensures Invariant(Step(m, Timer(c)), notes + Notes(m, Timer(c)))
  {
    hide LastContext, Directory, Live, Faithful, Older, Queue;
    var s := m.state;
    var r := Tick(s, c);
    if Switches(s, c) {
      var n := Saved(s.tasks[s.current].pid, c);
      SaveKeeps(m, notes, c, r);
      DispatchKeeps(m.(state := r), notes + [n]);
      assert notes + [n] + [Dispatch(r)] == notes + Notes(m, Timer(c));
    } else {
      assert notes + [] == notes;
      SamePidsKeep(s.tasks, r.tasks, notes, notes, m.created);
      forall i | 0 <= i < |r.tasks| ensures Recorded(r.tasks[i], notes) { assert Recorded(s.tasks[i], notes); }
    }
  }

  lemma CreateKeeps(m: Machine, notes: seq<Note>, e: Event)
    requires Invariant(m, notes) && e.Create? && m.created < WORD
    ensures Invariant(Step(m, e), notes + Notes(m, e))
  {
    hide LastContext, Directory, Live, Faithful;
    var a, t := m.state.tasks, Newborn(m, e);
    var b := Insert(m.state, t).tasks;
    var n := Born(t.pid, e.entry, e.directory);
    LiveLast(notes, n);
    FaithfulLast(notes, n);
    assert t.pid == m.created;
    assert b[0] == a[0] && b[1] == t && forall i :: 1 <= i < |a| ==> b[i + 1] == a[i];
    forall i | 0 <= i < |b| ensures Recorded(b[i], notes + [n]) && b[i].pid < m.created + 1 {
      NotedLast(notes, n, b[i].pid);
      if i != 1 {
        var j := if i == 0 then 0 else i - 1;
        assert Recorded(a[j], notes) && b[i] == a[j];
      }
    }
    InsertedQueue(a, b, t, m.created, notes, notes + [n]);
  }

  lemma InsertedQueue(a: seq<Task>, b: seq<Task>, t: Task, created: nat, notes: seq<Note>, notes': seq<Note>)
    requires Queue(a, notes) && Older(a, created) && t.pid == created && a != []
    requires b == [a[0], t] + a[1..] && Live(notes') == Live(notes) + {t.pid}
    ensures Queue(b, notes')
  {
    hide Live;
    assert b[0] == a[0] && b[1] == t && forall i :: 2 <= i < |b| ==> b[i] == a[i - 1];
    forall p: word ensures Has(b, p) <==> Has(a, p) || p == t.pid {
      if i :| 0 <= i < |a| && a[i].pid == p { assert b[if i == 0 then 0 else i + 1].pid == p; }
      if p == t.pid { assert b[1].pid == p; }
      if i :| 0 <= i < |b| && b[i].pid == p { assert i == 1 || a[if i == 0 then 0 else i - 1].pid == p; }
    }
  }

  lemma ExitKeeps(m: Machine, notes: seq<Note>, i: nat)
    requires Invariant(m, notes) && 0 < i < |m.state.tasks|
    ensures Invariant(Step(m, Exit(i)), notes + Notes(m, Exit(i)))
  {
    hide LastContext, Directory, Live, Faithful;
    var a, r := m.state.tasks, End(m.state, i);
    var n := Ended(a[i].pid);
    LiveLast(notes, n);
    FaithfulLast(notes, n);
    assert r.tasks[0] == a[0];
    forall j | 0 <= j < |r.tasks| ensures Recorded(r.tasks[j], notes + [n]) && r.tasks[j].pid < m.created {
      var k := if j < i then j else j + 1;
      assert r.tasks[j] == a[k] && Recorded(a[k], notes);
      NotedLast(notes, n, a[k].pid);
    }
    RemovedQueue(a, r.tasks, i, notes, notes + [n]);
    DispatchKeeps(m.(state := r), notes + [n]);
    assert notes + [n] + [Dispatch(r)] == notes + Notes(m, Exit(i));
  }

  lemma RemovedQueue(a: seq<Task>, b: seq<Task>, i: nat, notes: seq<Note>, notes': seq<Note>)
    requires Queue(a, notes) && i < |a| && b == a[..i] + a[i + 1..] && Live(notes') == Live(notes) - {a[i].pid}
    ensures Queue(b, notes')
  {
    hide Live;
    assert forall j :: 0 <= j < |b| ==> b[j] == a[if j < i then j else j + 1];
    forall p: word ensures Has(b, p) <==> Has(a, p) && p != a[i].pid {
      if j :| 0 <= j < |a| && a[j].pid == p { assert j == i || b[if j < i then j else j - 1].pid == p; }
      if j :| 0 <= j < |b| && b[j].pid == p { assert a[if j < i then j else j + 1].pid == p; }
    }
  }

  /** The bound on creations is exact: the process created after 2^32 others gets the idle process's pid. */
  lemma PidsRunOut(m: Machine, notes: seq<Note>, e: Event)
    requires Invariant(m, notes) && e.Create? && m.created == WORD
    ensures !Distinct(Step(m, e).state.tasks)
  {
    var tasks := Step(m, e).state.tasks;
    assert tasks[0].pid == 0 && tasks[1].pid == 0;
  }

  function Creations(events: seq<Event>): nat
  {
    if events == [] then 0 else (if events[0].Create? then 1 else 0) + Creations(events[1..])
  }

  lemma {:induction false} RunKeeps(m: Machine, notes: seq<Note>, events: seq<Event>)
    requires Invariant(m, notes) && PossibleRun(m, events) && m.created + Creations(events) <= WORD
    ensures Invariant(Run(m, events), notes + RunNotes(m, events))
    decreases events
  {
    hide Invariant, Notes, Step;
    if events == [] {
      assert notes + [] == notes;
    } else {
      var e := events[0];
      var m1, notes1 := Step(m, e), notes + Notes(m, e);
      StepKeeps(m, notes, e);
      RunKeeps(m1, notes1, events[1..]);
      assert notes1 + RunNotes(m1, events[1..]) == notes + RunNotes(m, events);
    }
  }

  lemma StepKeeps(m: Machine, notes: seq<Note>, e: Event)
    requires Invariant(m, notes) && Possible(m, e) && (e.Create? ==> m.created < WORD)
    ensures Invariant(Step(m, e), notes + Notes(m, e))
    ensures Step(m, e).created == m.created + if e.Create? then 1 else 0
  {
    match e
    case Timer(c) => TimerKeeps(m, notes, c);
    case Create(_, _, _, _) => CreateKeeps(m, notes, e);
    case Exit(i) => ExitKeeps(m, notes, i);
    case SetLock(_) => assert notes + [] == notes;
  }

  // ---- From boot on ----

  /** What Initialize leaves: the idle process alone, running in the kernel's address space. */
  function Boot(entry: Context, directory: word): Machine
  {
    var idle := Task(0, 1, 1, entry, directory);
    Machine(State([idle], 0, false, Publish(idle)), 1, 1)
  }

  function BootNotes(entry: Context, directory: word): seq<Note>
  {
    [Born(0, entry, directory), Dispatched(0, Published(entry, directory))]
  }

  lemma BootInvariant(entry: Context, directory: word)
    ensures Invariant(Boot(entry, directory), BootNotes(entry, directory))
  {
    var m, born := Boot(entry, directory), Born(0, entry, directory);
    NotedLast([], born, 0);
    LiveLast([], born);
    FaithfulLast([], born);
    assert [] + [born] == [born];
    assert m.state.tasks[0].pid == 0;
    assert Invariant(m, [born]);
    DispatchKeeps(m, [born]);
    assert [born] + [Dispatch(m.state)] == BootNotes(entry, directory);
  }

  /** Whether the lock is held after some events, when it was or was not before them: only lock changes change it. */
  function LockAfter(held: bool, events: seq<Event>): bool
    decreases events
  {
    if events == [] then held
    else LockAfter(if events[0].SetLock? then events[0].held else held, events[1..])
  }

  lemma {:induction false} LockFollows(m: Machine, events: seq<Event>)
    requires PossibleRun(m, events)
    ensures Run(m, events).state.locked == LockAfter(m.state.locked, events)
    decreases events
  {
    if events != [] { LockFollows(Step(m, events[0]), events[1..]); }
  }

  function Timers(cs: seq<Context>): (r: seq<Event>)
    ensures |r| == |cs| && forall i :: 0 <= i < |cs| ==> r[i] == Timer(cs[i])
  {
    seq(|cs|, i requires 0 <= i < |cs| => Timer(cs[i]))
  }

  /** Interrupts, and then whatever follows them. */
  lemma {:induction false} TimersRun(m: Machine, cs: seq<Context>, rest: seq<Event>)
    requires WellFormed(m.state)
    ensures var r := m.(state := Ticks(m.state, cs));
      PossibleRun(m, Timers(cs) + rest) == PossibleRun(r, rest)
      && (PossibleRun(r, rest) ==> Run(m, Timers(cs) + rest) == Run(r, rest))
    decreases cs
  {
    if cs == [] {
      assert Timers(cs) + rest == rest;
    } else {
      var events := Timers(cs) + rest;
      assert events[0] == Timer(cs[0]) && events[1..] == Timers(cs[1..]) + rest;
      TimersRun(Step(m, Timer(cs[0])), cs[1..], rest);
    }
  }

  /** A system call takes the lock and clears it when it returns. However many interrupts arrive in between, the same
      task runs, nothing is saved or published, and all that is gone is time of its slice. */
  lemma SystemCallSwitchesNothing(m: Machine, cs: seq<Context>)
    requires WellFormed(m.state)
    ensures var s, events := m.state, [SetLock(true)] + Timers(cs) + [SetLock(false)];
      PossibleRun(m, events)
      && var r := Run(m, events).state; var t := s.tasks[s.current];
      !r.locked && r.current == s.current && r.published == s.published
      && r.tasks == s.tasks[s.current := t.(slice := if |cs| <= t.slice then t.slice - |cs| else 0)]
  {
    hide Ticks;
    var held := Step(m, SetLock(true));
    var r := held.(state := Ticks(held.state, cs));
    var rest := [SetLock(false)];
    LockedTicksSwitchNothing(held.state, cs);
    TimersRun(held, cs, rest);
    assert rest[1..] == [];
    assert PossibleRun(r, rest) && Run(r, rest) == Step(r, SetLock(false));
    var events := [SetLock(true)] + Timers(cs) + rest;
    assert events[0] == SetLock(true) && events[1..] == Timers(cs) + rest;
  }

  /** From boot: a process created then runs at the second interrupt, in the context and the address space it was
      created with. */
  lemma NewcomerFromBoot(entry: Context, directory: word, e: Event, a: Context, b: Context)
    requires e.Create? && a.eip != 0xC000_0123 && b.eip != 0xC000_0123
    ensures var events := [e, Timer(a), Timer(b)];
      PossibleRun(Boot(entry, directory), events)
      && var s := Run(Boot(entry, directory), events).state;
      s.tasks == [Task(0, 1, 1, b, directory), Task(1, e.slice, e.default, e.entry, e.directory)]
      && s.current == 1 && !s.locked && s.published == Published(e.entry, e.directory)
  {
    var m := Boot(entry, directory);
    var m1 := Step(m, e);
    var m2 := Step(m1, Timer(a));
    var m3 := Step(m2, Timer(b));
    var events := [e, Timer(a), Timer(b)];
    assert events[1..] == [Timer(a), Timer(b)] && events[1..][1..] == [Timer(b)] && events[1..][1..][1..] == [];
    assert PossibleRun(m3, []) && Run(m3, []) == m3;
    assert PossibleRun(m2, [Timer(b)]) && Run(m2, [Timer(b)]) == m3;
    assert PossibleRun(m1, [Timer(a), Timer(b)]) && Run(m1, [Timer(a), Timer(b)]) == m3;
  }

  /** Safety over whole runs. As long as fewer than 2^32 processes were created after the idle one,
      after any run: the running task is on the ring; the idle process is still its head; the ring
      holds exactly the processes born and not ended, each once; the lock is as the last lock change left it, and
      clear before the first one; and every task ever switched to was given the context last saved for it, or its
      first one, and the address space it was born in. */
  lemma EveryRun(entry: Context, directory: word, events: seq<Event>)
    requires PossibleRun(Boot(entry, directory), events) && Creations(events) < WORD
    ensures var m := Run(Boot(entry, directory), events);
      var notes := BootNotes(entry, directory) + RunNotes(Boot(entry, directory), events);
      WellFormed(m.state) && m.state.tasks[0].pid == 0 && Queue(m.state.tasks, notes) && Faithful(notes)
      && m.state.locked == LockAfter(false, events)
  {
    hide Queue, Faithful, Known, Older, PossibleRun, Run, RunNotes, Creations, BootNotes;
    LockFollows(Boot(entry, directory), events);
    BootInvariant(entry, directory);
    RunKeeps(Boot(entry, directory), BootNotes(entry, directory), events);
  }
}
