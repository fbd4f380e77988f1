/** Memory and scheduler together: programs are loaded, ask for memory and exit, interrupts come, and whoever runs finds
    its own image in memory. */
module KernelRuns {
  import opened Bits
  import opened Options
  import opened PageEntry
  import opened PhysicalMemory
  import opened Paging
  import opened AddressSpace
  import opened CreateSpace
  import opened Isolation
  import opened ElfLoader
  import opened ProgramPages
  import opened ProgramImages
  import P = ProgramRuns
  import opened ProgramSafety
  import S = SchedulerModel
  import R = SchedulerRuns
  import T = RoundRobinTiming

  /** The programs in memory, the scheduler, what was noted of its run, and the pid of every program, in the order of
      their records. */
  datatype Whole = Whole(store: P.Store, machine: R.Machine, notes: seq<R.Note>, pids: seq<word>)

  /** LoadELF; CreateProcess; EndProcess of the process at a place of the ring; SysMemalloc by the running process; the
      timer; a change of the scheduler lock. */
  datatype Event =
    | Launch(segments: seq<Segment>, entry: word, stackTop: word)
    | Spawn(entry: word, stackTop: word)
    | Exit(place: nat)
    | Alloc(amount: word)
    | Interrupt(context: S.Context)
    | Lock(held: bool)

  function IndexOf(pids: seq<word>, pid: word): (r: Option<nat>)
    ensures r.Some? ==> r.value < |pids| && pids[r.value] == pid
    ensures r.None? ==> pid !in pids
  {
    if pids == [] then None
    else if pids[|pids| - 1] == pid then Some(|pids| - 1) else IndexOf(pids[..|pids| - 1], pid)
  }

  /** The program a place of the ring belongs to; None for a process CreateProcess made. */
  function ProgramAt(w: Whole, place: nat): (r: Option<nat>)
    requires place < |w.machine.state.tasks|
    ensures r.Some? ==> r.value < |w.pids| && w.pids[r.value] == w.machine.state.tasks[place].pid
  {
    IndexOf(w.pids, w.machine.state.tasks[place].pid)
  }

  function Current(w: Whole): Option<nat>
    requires S.WellFormed(w.machine.state)
  {
    ProgramAt(w, w.machine.state.current)
  }

  ghost predicate Possible(w: Whole, l: Kernel, e: Event)
    requires S.WellFormed(w.machine.state)
  {
    match e
    case Launch(gs, _, _) => P.Possible(w.store, l, P.Launch(gs)) && w.machine.created < WORD
    case Spawn(_, _) => w.machine.created < WORD
    case Exit(i) => 0 < i < |w.machine.state.tasks|
    case Alloc(n) => Current(w).Some? && P.Possible(w.store, l, P.Grow(Current(w).value, n))
    case _ => true
  }

  /** What the event does to the programs in memory. */
  ghost function StoreEvent(w: Whole, e: Event): Option<P.Event>
    requires S.WellFormed(w.machine.state) && (e.Exit? ==> 0 < e.place < |w.machine.state.tasks|)
  {
    match e
    case Launch(gs, _, _) => Some(P.Launch(gs))
    case Exit(i) => (match ProgramAt(w, i) case None => None case Some(j) => Some(P.End(j)))
    case Alloc(n) => (match Current(w) case None => None case Some(j) => Some(P.Grow(j, n)))
    case _ => None
  }

  ghost function NextStore(w: Whole, l: Kernel, e: Event): P.Store
    requires Sane(w, l) && Possible(w, l, e)
  {
    match StoreEvent(w, e)
    case None => w.store
    case Some(p) => StoreEventPossible(w, l, e); P.Step(w.store, l, p)
  }

  ghost function Scheduled(w: Whole, store: P.Store, e: R.Event, pids: seq<word>): Whole
    requires R.Possible(w.machine, e)
  {
    Whole(store, R.Step(w.machine, e), w.notes + R.Notes(w.machine, e), pids)
  }

  ghost function DirectoryOf(store: P.Store, j: nat): word
  {
    if j < |store.records| && store.records[j].space < |store.memory.spaces|
    then store.memory.spaces[store.records[j].space].frame * PAGE_SIZE % WORD else 0
  }

  /** Where LoadELF never returns nothing is queued. */
  ghost function Step(w: Whole, l: Kernel, e: Event): Whole
    requires Sane(w, l) && Possible(w, l, e)
  {
    var store := NextStore(w, l, e);
    match e
    case Launch(_, entry, stackTop) =>
      if |store.records| == |w.store.records| then w
      else Scheduled(w, store, Born(store, |w.store.records|, entry, stackTop), w.pids + [w.machine.nextPid])
    case Spawn(entry, stackTop) => Scheduled(w, store, R.Create(S.Context(entry, stackTop, stackTop), 0, 1, 1), w.pids)
    case Exit(i) => Scheduled(w, store, R.Exit(i), w.pids)
    case Alloc(_) => w.(store := store)
    case Interrupt(c) => Scheduled(w, store, R.Timer(c), w.pids)
    case Lock(held) => Scheduled(w, store, R.SetLock(held), w.pids)
  }

  ghost function Born(store: P.Store, j: nat, entry: word, stackTop: word): R.Event
  {
    R.Create(S.Context(entry, stackTop, stackTop), DirectoryOf(store, j), 0, 15)
  }

  // ---- The invariant ----

  /** What the scheduler keeps, and that the running process is the one published. */
  ghost predicate Scheduling(w: Whole)
  {
    R.Invariant(w.machine, w.notes) && S.WellFormed(w.machine.state)
    && w.machine.state.published == S.Publish(w.machine.state.tasks[w.machine.state.current])
  }

  /** Program j: its pid is an old one, it was born in its own address space, and while it is on the ring it has not
      ended. */
  ghost predicate Known(w: Whole, j: nat)
    requires j < |w.pids| && j < |w.store.records|
  {
    w.pids[j] < w.machine.created
    && R.Directory(w.notes, w.pids[j]) == Some(DirectoryOf(w.store, j))
    && (forall i :: 0 <= i < |w.machine.state.tasks| && w.machine.state.tasks[i].pid == w.pids[j] ==>
        P.Running(w.store, j))
  }

  ghost predicate PidsDistinct(pids: seq<word>) { forall i, j :: 0 <= i < j < |pids| ==> pids[i] != pids[j] }

  ghost predicate Sane(w: Whole, l: Kernel)
  {
    P.Kept(w.store, l) && AllImaged(w.store, l) && Scheduling(w) && |w.pids| == |w.store.records|
    && PidsDistinct(w.pids)
    && forall j :: 0 <= j < |w.pids| ==> Known(w, j)
  }

  lemma StoreEventPossible(w: Whole, l: Kernel, e: Event)
    requires Sane(w, l) && Possible(w, l, e) && StoreEvent(w, e).Some?
    ensures P.Possible(w.store, l, StoreEvent(w, e).value)
  {
    hide P.Kept, AllImaged, R.Invariant, IndexOf, R.Directory;
    match e
    case Exit(i) => assert Known(w, ProgramAt(w, i).value);
    case _ =>
  }

  /** A program exits only while that hurts nobody, and none asks for memory where that takes pages of its own segments
      away. Both can be seen before the event. */
  ghost predicate Heedful(w: Whole, l: Kernel, e: Event)
    requires Sane(w, l) && Possible(w, l, e)
  {
    StoreEvent(w, e).Some? ==> (StoreEventPossible(w, l, e); Careful(w.store, l, StoreEvent(w, e).value))
  }

  lemma NextStoreSane(w: Whole, l: Kernel, e: Event)
    requires Sane(w, l) && Possible(w, l, e)
    ensures P.Kept(NextStore(w, l, e), l) && AllImaged(NextStore(w, l, e), l) <==> Heedful(w, l, e)
  {
    hide P.Kept, AllImaged, R.Invariant, IndexOf, R.Directory, P.Step, P.Possible, Careful, Known;
    if StoreEvent(w, e).Some? {
      StoreEventPossible(w, l, e);
      CarefulStep(w.store, l, StoreEvent(w, e).value);
    }
  }

  // ---- One event ----

  /** Only a birth says anything about an address space. */
  lemma DirectoryKept(m: R.Machine, notes: seq<R.Note>, e: R.Event, pid: word)
    requires R.Possible(m, e) && (e.Create? ==> pid != m.nextPid)
    ensures R.Directory(notes + R.Notes(m, e), pid) == R.Directory(notes, pid)
  {
    var added := R.Notes(m, e);
    assert notes + [] == notes;
    if |added| > 0 { R.NotedLast(notes, added[0], pid); }
    if |added| == 2 {
      R.NotedLast(notes + [added[0]], added[1], pid);
      assert notes + [added[0]] + [added[1]] == notes + added;
    } else {
      assert notes + added == if |added| == 1 then notes + [added[0]] else notes;
    }
  }

  /** Who is alive after a scheduler event: whoever was, less the one that exits, and a newborn. */
  lemma LiveAfter(m: R.Machine, notes: seq<R.Note>, e: R.Event, pid: word)
    requires R.Possible(m, e) && pid in R.Live(notes + R.Notes(m, e))
    ensures pid in R.Live(notes) || (e.Create? && pid == m.nextPid)
    ensures e.Exit? ==> pid != m.state.tasks[e.position].pid
  {
    hide R.Live, S.Tick, S.End;
    var added := R.Notes(m, e);
    assert notes + [] == notes;
    if |added| > 0 { R.LiveLast(notes, added[0]); }
    if |added| == 2 {
      R.LiveLast(notes + [added[0]], added[1]);
      assert notes + [added[0]] + [added[1]] == notes + added;
    } else {
      assert notes + added == if |added| == 1 then notes + [added[0]] else notes;
    }
  }

  lemma RingIsLive(m: R.Machine, notes: seq<R.Note>, pid: word)
    requires R.Invariant(m, notes)
    ensures R.Has(m.state.tasks, pid) <==> pid in R.Live(notes)
  {
    hide R.Live, R.Has, R.Faithful, R.Known, R.Older;
  }

  lemma PublishedAfter(w: Whole, e: R.Event)
    requires Scheduling(w) && R.Possible(w.machine, e) && (e.Create? ==> w.machine.created < WORD)
    ensures var m := R.Step(w.machine, e);
      R.Invariant(m, w.notes + R.Notes(w.machine, e)) && S.WellFormed(m.state)
      && m.state.published == S.Publish(m.state.tasks[m.state.current])
      && m.created == w.machine.created + (if e.Create? then 1 else 0)
  {
    hide R.Invariant;
    R.StepKeeps(w.machine, w.notes, e);
    InvariantWellFormed(R.Step(w.machine, e), w.notes + R.Notes(w.machine, e));
    if e.Create? { S.SlicedInsert(w.machine.state, 0, R.Newborn(w.machine, e)); }
  }

  lemma InvariantWellFormed(m: R.Machine, notes: seq<R.Note>)
    requires R.Invariant(m, notes)
    ensures S.WellFormed(m.state) && m.nextPid == m.created % WORD
  {}

  /** Spaces and programs already there stay what they are. */
  ghost predicate Extends(st: P.Store, st': P.Store)
  {
    |st.records| <= |st'.records| && |st.memory.spaces| <= |st'.memory.spaces|
    && st'.memory.spaces[..|st.memory.spaces|] == st.memory.spaces
    && forall j :: 0 <= j < |st.records| ==>
         st'.records[j].space == st.records[j].space && st'.records[j].segments == st.records[j].segments
  }

  lemma StoreExtends(st: P.Store, l: Kernel, e: P.Event)
    requires P.Kept(st, l) && P.Possible(st, l, e)
    ensures Extends(st, P.Step(st, l, e)) && (!e.Launch? ==> |P.Step(st, l, e).records| == |st.records|)
    ensures forall j :: 0 <= j < |st.records| && P.Running(st, j) && e != P.End(j) ==> P.Running(P.Step(st, l, e), j)
    ensures e.Launch? && |P.Step(st, l, e).records| != |st.records| ==>
      |P.Step(st, l, e).records| == |st.records| + 1 && P.Running(P.Step(st, l, e), |st.records|)
  {
    hide Consistent, P.RecordKept, P.BlocksKept, P.PagesKept, LoadElf, Perform, Program, BlocksNeeded, P.Homes, Create;
    P.KeptConsistent(st, l);
    match e
    case Launch(gs) => if |LoadElf(st.memory, l, gs).spaces| != |st.memory.spaces| { P.LoadElfLoads(st.memory, l, gs); }
    case End(j) => P.RunningRecord(st, l, j);
    case Grow(j, n) => GrowthShape(st.memory, l, st.records[j].space, n);
  }

  lemma SameDirectory(st: P.Store, st': P.Store, l: Kernel, j: nat)
    requires P.Kept(st, l) && Extends(st, st') && j < |st.records|
    ensures DirectoryOf(st', j) == DirectoryOf(st, j)
  {
    hide Consistent;
    P.KeptRecord(st, l, j);
    assert st'.memory.spaces[st.records[j].space] == st'.memory.spaces[..|st.memory.spaces|][st.records[j].space];
  }

  /** A program known before an event is known after it. */
  lemma KnownAfter(w: Whole, l: Kernel, store: P.Store, e: R.Event, pids: seq<word>, j: nat)
    requires P.Kept(w.store, l) && Scheduling(w) && |w.pids| == |w.store.records| && j < |w.pids| && Known(w, j)
    requires R.Possible(w.machine, e) && (e.Create? ==> w.machine.created < WORD) && w.pids <= pids
    requires Extends(w.store, store)
    requires P.Running(w.store, j) ==>
      P.Running(store, j) || (e.Exit? && w.machine.state.tasks[e.position].pid == w.pids[j])
    ensures Known(Scheduled(w, store, e, pids), j)
  {
    hide P.Kept, R.Invariant, R.Directory, R.Live, R.Notes, R.Step, DirectoryOf, Extends;
    PublishedAfter(w, e);
    InvariantWellFormed(w.machine, w.notes);
    DirectoryKept(w.machine, w.notes, e, w.pids[j]);
    SameDirectory(w.store, store, l, j);
    var r := Scheduled(w, store, e, pids);
    forall i | 0 <= i < |r.machine.state.tasks| && r.machine.state.tasks[i].pid == w.pids[j]
      ensures P.Running(store, j)
    {
      assert R.Has(r.machine.state.tasks, w.pids[j]);
      RingIsLive(r.machine, r.notes, w.pids[j]);
      LiveAfter(w.machine, w.notes, e, w.pids[j]);
      RingIsLive(w.machine, w.notes, w.pids[j]);
      var k :| 0 <= k < |w.machine.state.tasks| && w.machine.state.tasks[k].pid == w.pids[j];
      assert P.Running(w.store, j);
    }
  }

  /** A scheduler event with a store that keeps the old programs. */
  lemma ScheduledSane(w: Whole, l: Kernel, store: P.Store, e: R.Event, pids: seq<word>)
    requires Sane(w, l) && P.Kept(store, l) && AllImaged(store, l) && Extends(w.store, store)
    requires R.Possible(w.machine, e) && (e.Create? ==> w.machine.created < WORD)
    requires w.pids <= pids && |pids| == |store.records| && PidsDistinct(pids)
    requires forall j :: 0 <= j < |w.pids| && P.Running(w.store, j) ==>
      P.Running(store, j) || (e.Exit? && w.machine.state.tasks[e.position].pid == w.pids[j])
    requires forall j :: |w.pids| <= j < |pids| ==> Known(Scheduled(w, store, e, pids), j)
    ensures Sane(Scheduled(w, store, e, pids), l)
  {
    hide P.Kept, AllImaged, R.Invariant, Known, Extends, R.Step, R.Notes;
    PublishedAfter(w, e);
    forall j | 0 <= j < |w.pids| ensures Known(Scheduled(w, store, e, pids), j) { KnownAfter(w, l, store, e, pids, j); }
  }

  lemma ExtendsItself(st: P.Store)
    ensures Extends(st, st)
  {}

  lemma LaunchSane(w: Whole, l: Kernel, gs: seq<Segment>, entry: word, stackTop: word)
    requires Sane(w, l) && Possible(w, l, Launch(gs, entry, stackTop))
    requires var e := Launch(gs, entry, stackTop); P.Kept(NextStore(w, l, e), l) && AllImaged(NextStore(w, l, e), l)
    ensures Sane(Step(w, l, Launch(gs, entry, stackTop)), l)
  {
    hide P.Kept, AllImaged, R.Invariant, R.Directory, R.Step, P.Step, P.Possible, DirectoryOf, Extends;
    var e := Launch(gs, entry, stackTop);
    var (store, n) := (NextStore(w, l, e), |w.store.records|);
    StoreExtends(w.store, l, P.Launch(gs));
    if |store.records| != n {
      var born := Born(store, n, entry, stackTop);
      var pids := w.pids + [w.machine.nextPid];
      InvariantWellFormed(w.machine, w.notes);
      PublishedAfter(w, born);
      R.NotedLast(w.notes, R.Notes(w.machine, born)[0], w.machine.nextPid);
      forall j | 0 <= j < n ensures pids[j] != w.machine.nextPid { assert Known(w, j); }
      assert Known(Scheduled(w, store, born, pids), n);
      ScheduledSane(w, l, store, born, pids);
    }
  }

  lemma ExitSane(w: Whole, l: Kernel, i: nat)
    requires Sane(w, l) && Possible(w, l, Exit(i))
    requires P.Kept(NextStore(w, l, Exit(i)), l) && AllImaged(NextStore(w, l, Exit(i)), l)
    ensures Sane(Step(w, l, Exit(i)), l)
  {
    hide P.Kept, AllImaged, R.Invariant, R.Step, P.Step, IndexOf, Extends, Known;
    match ProgramAt(w, i)
    case None => ExtendsItself(w.store);
      ScheduledSane(w, l, w.store, R.Exit(i), w.pids);
    case Some(j) =>
      StoreEventPossible(w, l, Exit(i));
      StoreExtends(w.store, l, P.End(j));
      ScheduledSane(w, l, NextStore(w, l, Exit(i)), R.Exit(i), w.pids);
  }

  lemma AllocSane(w: Whole, l: Kernel, n: word)
    requires Sane(w, l) && Possible(w, l, Alloc(n))
    requires P.Kept(NextStore(w, l, Alloc(n)), l) && AllImaged(NextStore(w, l, Alloc(n)), l)
    ensures Sane(Step(w, l, Alloc(n)), l)
  {
    hide P.Kept, AllImaged, R.Invariant, R.Directory, P.Step, IndexOf, Extends, DirectoryOf;
    StoreEventPossible(w, l, Alloc(n));
    var p := P.Grow(Current(w).value, n);
    var store := NextStore(w, l, Alloc(n));
    StoreExtends(w.store, l, p);
    forall j | 0 <= j < |w.pids| ensures Known(w.(store := store), j) {
      assert Known(w, j);
      SameDirectory(w.store, store, l, j);
    }
  }

  lemma SaneWellFormed(w: Whole, l: Kernel)
    requires Sane(w, l)
    ensures S.WellFormed(w.machine.state) && |w.pids| == |w.store.records|
  {
    hide P.Kept, AllImaged, R.Invariant, Known;
  }

  /** Every event keeps the invariant if and only if it is heedful. */
  lemma StepSane(w: Whole, l: Kernel, e: Event)
    requires Sane(w, l) && Possible(w, l, e)
    ensures Sane(Step(w, l, e), l) <==> Heedful(w, l, e)
  {
    hide P.Kept, AllImaged, Scheduling, R.Step, P.Step, Extends, Known, Heedful, P.Possible, IndexOf;
    NextStoreSane(w, l, e);
    StepStore(w, l, e);
    SaneWellFormed(w, l);
    if Heedful(w, l, e) {
      ExtendsItself(w.store);
      match e
      case Launch(gs, entry, stackTop) => LaunchSane(w, l, gs, entry, stackTop);
      case Spawn(entry, stackTop) =>
        ScheduledSane(w, l, w.store, R.Create(S.Context(entry, stackTop, stackTop), 0, 1, 1), w.pids);
      case Exit(i) => ExitSane(w, l, i);
      case Alloc(n) => AllocSane(w, l, n);
      case Interrupt(c) => ScheduledSane(w, l, w.store, R.Timer(c), w.pids);
      case Lock(held) => ScheduledSane(w, l, w.store, R.SetLock(held), w.pids);
    }
  }

  lemma StepStore(w: Whole, l: Kernel, e: Event)
    requires Sane(w, l) && Possible(w, l, e)
    ensures Step(w, l, e).store == NextStore(w, l, e)
  {
    hide P.Kept, AllImaged, Scheduling, R.Step, Extends, Known, P.Possible, IndexOf;
    if e.Launch? { StoreExtends(w.store, l, P.Launch(e.segments)); }
  }

  // ---- Runs ----

  ghost predicate HeedfulRun(w: Whole, l: Kernel, es: seq<Event>)
    requires Sane(w, l)
    decreases es
  {
    es == [] || (
      Possible(w, l, es[0]) && Heedful(w, l, es[0])
      && (StepSane(w, l, es[0]); HeedfulRun(Step(w, l, es[0]), l, es[1..])))
  }

  ghost function Run(w: Whole, l: Kernel, es: seq<Event>): (r: Whole)
    requires Sane(w, l) && HeedfulRun(w, l, es)
    ensures Sane(r, l)
    decreases es
  {
    if es == [] then w else StepSane(w, l, es[0]); Run(Step(w, l, es[0]), l, es[1..])
  }

  /** Where every run may begin: the kernel's tables linked, its blocks reserved, nothing loaded, and the scheduler as
      Initialize leaves it. */
  lemma BootSane(m: Memory, l: Kernel, taken: set<nat>, idle: S.Context, directory: word)
    requires Linked(m, l) && Reserved(taken, l)
    ensures Sane(Whole(P.Store(System(m, taken, []), []), R.Boot(idle, directory), R.BootNotes(idle, directory), []), l)
  {
    hide Linked, Reserved, R.Invariant, P.Kept;
    P.EmptyKept(m, l, taken);
    R.BootInvariant(idle, directory);
  }

  // ---- What the running program sees ----

  /** Through the directory handed to the processor byte k of the segment is found, the file's or zero behind it, and
      may be written. */
  ghost predicate SeesByte(w: Whole, g: Segment, k: nat)
  {
    var (m, v, frame) := (w.store.memory.m, g.vaddr + k, w.machine.state.published.directory / PAGE_SIZE);
    v < WORD && frame < FRAMES && Walk(m, frame, v).Some? && WritableAt(m, frame, v)
    && ReadByte(m, Walk(m, frame, v).value) == if k < |g.data| then g.data[k] else 0
  }

  /** Loading, isolation, context switching, paging and ending at once. Programs are launched and exit, processes are
      created, memory is asked for and interrupts come in any order, as long as every exit hurts nobody and no program
      takes its own pages away: whichever program is switched to, the page directory handed to the processor leads every
      byte of every segment of it, on a page that none of its own later segments took over, to the byte of its file, or
      to zero behind it. */
  lemma RunningProgramSeesItself(w: Whole, l: Kernel, es: seq<Event>, i: nat, k: nat)
    requires Sane(w, l) && HeedfulRun(w, l, es)
    ensures var r := Run(w, l, es);
      S.WellFormed(r.machine.state) && |r.pids| == |r.store.records|
      && (Current(r).Some? ==>
           var gs := r.store.records[Current(r).value].segments;
           i < |gs| && k < gs[i].memsz && BytePage(gs[i], k) !in Later(gs, i) ==> SeesByte(r, gs[i], k))
  {
    hide Scheduling, Run, HeedfulRun, SeesByte, Known, P.Kept, AllImaged, IndexOf, PagesOf;
    var r := Run(w, l, es);
    SaneWellFormed(r, l);
    if Current(r).Some? {
      var gs := r.store.records[Current(r).value].segments;
      if i < |gs| && k < gs[i].memsz && BytePage(gs[i], k) !in Later(gs, i) { SeenNow(r, l, i, k); }
    }
  }

  lemma SeenNow(w: Whole, l: Kernel, i: nat, k: nat)
    requires Sane(w, l) && S.WellFormed(w.machine.state) && |w.pids| == |w.store.records| && Current(w).Some?
    requires var gs := w.store.records[Current(w).value].segments;
      i < |gs| && k < gs[i].memsz && BytePage(gs[i], k) !in Later(gs, i)
    ensures SeesByte(w, w.store.records[Current(w).value].segments[i], k)
  {
    hide P.Kept, P.RecordKept, Sound, Walk, ReadByte, HoldsByte, TableFramesOf, UserSegment, R.Queue, R.Faithful,
      R.Older, R.LastContext, R.Directory, Consistent, IndexOf, PagesOf;
    var (st, s, j) := (w.store, w.machine.state, Current(w).value);
    var (y, rec) := (st.memory, st.records[j]);
    assert Known(w, j) && P.Running(st, j);
    P.KeptConsistent(st, l);
    assert Imaged(st, l, j);
    assert SegmentIn(st, l, rec, i);
    assert R.Recorded(s.tasks[s.current], w.notes);
    SoundMember(y, l, rec.space);
    FrameBelow(y, l, rec.space);
    HeldByteIsWalked(y.m, l, y.spaces[rec.space], rec.blocks, TableFramesOf(y, l), rec.segments[i], k);
  }

  lemma FrameBelow(y: System, l: Kernel, i: nat)
    requires Consistent(y, l) && i < |y.spaces|
    ensures y.spaces[i].frame < FRAMES
  {}

  // ---- A program that exits ----

  /** EndProcess in the whole system: the process leaves the ring, nobody else does, and the blocks its load took, as
      many as its segments need, are free again, and only they, if and only if no later program has mapped one of its
      pages and it maps no page twice. */
  lemma ExitGivesBack(w: Whole, l: Kernel, i: nat)
    requires Sane(w, l) && S.WellFormed(w.machine.state) && Possible(w, l, Exit(i)) && ProgramAt(w, i).Some?
    ensures var (r, j) := (Step(w, l, Exit(i)), ProgramAt(w, i).value);
      j < |w.store.records| && var rec := w.store.records[j];
      r.machine.state.tasks == w.machine.state.tasks[..i] + w.machine.state.tasks[i + 1..]
      && |rec.blocks| == BlocksNeeded(rec.segments) && rec.blocks <= w.store.memory.taken
      && (r.store.memory.taken == w.store.memory.taken - rec.blocks
          <==> !P.Remapped(w.store, j) && Separate(rec.segments))
      && r.store.memory.m == w.store.memory.m
  {
    hide P.Kept, AllImaged, R.Invariant, IndexOf, R.Directory, P.Remapped, Separate, BlocksNeeded;
    StoreEventPossible(w, l, Exit(i));
    P.EndGivesBack(w.store, l, ProgramAt(w, i).value);
  }

  // ---- A program just launched ----

  function Interrupts(cs: seq<S.Context>): (es: seq<Event>)
    ensures |es| == |cs| && forall i :: 0 <= i < |cs| ==> es[i] == Interrupt(cs[i])
  {
    seq(|cs|, i requires 0 <= i < |cs| => Interrupt(cs[i]))
  }

  /** Interrupts are always heedful; they change what the scheduler's ticks change, and nothing in memory. */
  lemma {:induction false} InterruptsRun(w: Whole, l: Kernel, cs: seq<S.Context>)
    requires Sane(w, l)
    ensures S.WellFormed(w.machine.state) && HeedfulRun(w, l, Interrupts(cs))
    ensures var r := Run(w, l, Interrupts(cs));
      r.machine == w.machine.(state := S.Ticks(w.machine.state, cs)) && r.store == w.store && r.pids == w.pids
    decreases cs
  {
    hide P.Kept, AllImaged, Scheduling, Known, IndexOf, Sane;
    SaneWellFormed(w, l);
    if cs != [] {
      StepSane(w, l, Interrupt(cs[0]));
      var w1 := Step(w, l, Interrupt(cs[0]));
      assert Interrupts(cs)[1..] == Interrupts(cs[1..]);
      InterruptsRun(w1, l, cs[1..]);
    }
  }

  /** A launch is always heedful. */
  lemma LaunchHeedful(w: Whole, l: Kernel, gs: seq<Segment>, entry: word, stackTop: word)
    requires Sane(w, l) && Possible(w, l, Launch(gs, entry, stackTop))
    ensures Heedful(w, l, Launch(gs, entry, stackTop))
  {
    hide P.Kept, AllImaged, Scheduling, Known;
    StoreEventPossible(w, l, Launch(gs, entry, stackTop));
  }

  /** A launch whose load returns adds a record, the program's pid, and its process behind the head. */
  lemma LaunchedRecord(w: Whole, l: Kernel, gs: seq<Segment>, entry: word, stackTop: word)
    requires Sane(w, l) && Possible(w, l, Launch(gs, entry, stackTop))
    requires |Step(w, l, Launch(gs, entry, stackTop)).pids| != |w.pids|
    ensures var (r, n) := (Step(w, l, Launch(gs, entry, stackTop)), |w.store.records|);
      var t := S.Task(w.machine.nextPid, 0, 15, S.Context(entry, stackTop, stackTop), DirectoryOf(r.store, n));
      |r.store.records| == n + 1 && r.store.records[n].segments == gs && |w.pids| == n
      && r.pids == w.pids + [w.machine.nextPid] && r.machine.state == S.Insert(w.machine.state, t)
      && IndexOf(r.pids, t.pid) == Some(n)
  {
    hide P.Kept, AllImaged, Scheduling, Known, LoadElf, Perform, DirectoryOf;
    StoreExtends(w.store, l, P.Launch(gs));
  }

  /** LoadELF to the first instruction: a program launched while the idle process runs, whose load returns, is what runs
      once idle's slice is over. The processor gets its entry point and stack, and a directory that leads every byte of
      its segments, but on pages its own later segments took over, to the byte of its file. */
  lemma LaunchedRunsNext(w: Whole, l: Kernel, gs: seq<Segment>, entry: word, stackTop: word, cs: seq<S.Context>, i: nat,
      k: nat)
    requires Sane(w, l) && S.WellFormed(w.machine.state) && Possible(w, l, Launch(gs, entry, stackTop))
    requires |Step(w, l, Launch(gs, entry, stackTop)).pids| != |w.pids|
    requires w.machine.state.current == 0 && !w.machine.state.locked && T.Fresh(cs)
    requires |cs| == w.machine.state.tasks[0].slice + 1
    ensures var (es, n) := ([Launch(gs, entry, stackTop)] + Interrupts(cs), |w.store.records|);
      HeedfulRun(w, l, es) && var r := Run(w, l, es);
      S.WellFormed(r.machine.state) && Current(r) == Some(n) && n < |r.store.records|
      && r.store.records[n].segments == gs
      && r.machine.state.published.context == S.Context(entry, stackTop, stackTop)
      && (i < |gs| && k < gs[i].memsz && BytePage(gs[i], k) !in Later(gs, i) ==> SeesByte(r, gs[i], k))
  {
    hide P.Kept, AllImaged, Scheduling, Known, Sane, SeesByte, S.Ticks, PagesOf;
    var e := Launch(gs, entry, stackTop);
    var n := |w.store.records|;
    LaunchHeedful(w, l, gs, entry, stackTop);
    LaunchedRecord(w, l, gs, entry, stackTop);
    StepSane(w, l, e);
    var w1 := Step(w, l, e);
    var t := S.Task(w.machine.nextPid, 0, 15, S.Context(entry, stackTop, stackTop), DirectoryOf(w1.store, n));
    T.NewcomerRunsNext(w.machine.state, t, cs);
    InterruptsRun(w1, l, cs);
    var es := [e] + Interrupts(cs);
    assert es[0] == e && es[1..] == Interrupts(cs);
    RunningProgramSeesItself(w, l, es, i, k);
  }
}
