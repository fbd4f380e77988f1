/** The scheduler's globals and process records as scheduler.cpp updates them in place. */
module Schedulers {
  import opened Bits
  import L = Lists
  import M = Messages
  import opened SchedulerModel
  import opened SchedulerRuns

  class Process {
    var pid: word
    var timeSlice: nat
    var timeSliceDefault: nat
    var next: Process?
    var eip: word
    var esp: word
    var ebp: word
    var directory: word
    var messageQueue: seq<M.Message>

    /** A record from kmalloc after memset: everything zero, the message queue empty. */
    constructor ()
      ensures AsTask(this) == Task(0, 0, 0, Context(0, 0, 0), 0) && next == null && messageQueue == []
    {
      pid, timeSlice, timeSliceDefault, next := 0, 0, 0, null;
      eip, esp, ebp, directory := 0, 0, 0, 0;
      messageQueue := [];
    }

    method Ready(entry: word, stackTop: word, directory: word, slice: nat, default: nat)
      modifies this`directory, this`timeSliceDefault, this`timeSlice, this`esp, this`ebp, this`eip
      ensures AsTask(this) == Task(old(pid), slice, default, Context(entry, stackTop, stackTop), directory)
    {
      this.directory := directory;
      timeSliceDefault := default;
      timeSlice := slice;
      esp := stackTop;
      ebp := stackTop;
      eip := entry;
    }
  }

  function AsTask(p: Process): Task
    reads p
  {
    Task(p.pid, p.timeSlice, p.timeSliceDefault, Context(p.eip, p.esp, p.ebp), p.directory)
  }

  // ---- Rings of processes ----

  ghost predicate Apart(ring: seq<Process>)
  {
    forall i, j :: 0 <= i < j < |ring| ==> ring[i] != ring[j]
  }

  ghost predicate LinkedAt(ring: seq<Process>, i: nat)
    requires i < |ring|
    reads ring[i]
  {
    ring[i].next == ring[After(|ring|, i)]
  }

  /** Following next from any place visits the whole ring and comes back. */
  ghost predicate Cyclic(ring: seq<Process>)
    reads ring
  {
    forall i :: 0 <= i < |ring| ==> LinkedAt(ring, i)
  }

  ghost function Tasks(ring: seq<Process>): (r: seq<Task>)
    reads ring
    ensures |r| == |ring|
    ensures forall i :: 0 <= i < |r| ==> r[i] == AsTask(ring[i])
  {
    seq(|ring|, i requires 0 <= i < |ring| reads ring => AsTask(ring[i]))
  }

  function BoxOf(p: Process): M.Box
    reads p
  {
    M.Box(p.pid, p.messageQueue)
  }

  ghost function Boxes(ring: seq<Process>): (r: seq<M.Box>)
    reads ring
    ensures |r| == |ring|
    ensures forall i :: 0 <= i < |r| ==> r[i] == BoxOf(ring[i])
  {
    seq(|ring|, i requires 0 <= i < |ring| reads ring => BoxOf(ring[i]))
  }

  lemma ApartFrom(ring: seq<Process>, k: nat)
    requires Apart(ring) && k < |ring|
    ensures forall i :: 0 <= i < |ring| && i != k ==> ring[i] != ring[k]
  {}

  lemma ApartInserted(ring: seq<Process>, p: Process)
    requires Apart(ring) && p !in ring && ring != []
    ensures Apart([ring[0], p] + ring[1..])
  {}

  lemma ApartRemoved(ring: seq<Process>, i: nat)
    requires Apart(ring) && i < |ring|
    ensures Apart(L.Without(ring, i))
  {}

  /** Linking a record in behind the head. */
  twostate lemma Inserted(ring: seq<Process>, new p: Process)
    requires old(Cyclic(ring)) && ring != []
    requires p.next == old(ring[0].next) && ring[0].next == p
    requires forall i :: 0 < i < |ring| ==> ring[i].next == old(ring[i].next)
    requires forall i :: 0 <= i < |ring| ==> AsTask(ring[i]) == old(AsTask(ring[i]))
    ensures Cyclic([ring[0], p] + ring[1..])
    ensures Tasks([ring[0], p] + ring[1..]) == [old(Tasks(ring))[0], AsTask(p)] + old(Tasks(ring))[1..]
  {
    var r := [ring[0], p] + ring[1..];
    forall i | 0 <= i < |r| ensures LinkedAt(r, i) {
      if i < |ring| { assert old(LinkedAt(ring, i)); }
      if i > 0 { assert old(LinkedAt(ring, i - 1)); }
    }
  }

  /** Linking a record's predecessor to its successor. */
  twostate lemma Removed(ring: seq<Process>, new i: nat)
    requires old(Cyclic(ring)) && 0 < i < |ring|
    requires ring[i - 1].next == ring[After(|ring|, i)]
    requires forall j :: 0 <= j < |ring| && j != i - 1 ==> ring[j].next == old(ring[j].next)
    requires forall j :: 0 <= j < |ring| ==> AsTask(ring[j]) == old(AsTask(ring[j]))
    ensures Cyclic(L.Without(ring, i)) && Tasks(L.Without(ring, i)) == L.Without(old(Tasks(ring)), i)
  {
    var r := L.Without(ring, i);
    forall j | 0 <= j < |r| ensures LinkedAt(r, j) {
      assert old(LinkedAt(ring, if j < i then j else j + 1));
    }
  }

  /** Changing one record's fields but not its link. */
  twostate lemma Touched(ring: seq<Process>, new k: nat)
    requires old(Cyclic(ring)) && k < |ring| && ring[k].next == old(ring[k].next)
    requires forall i :: 0 <= i < |ring| && i != k ==>
      ring[i].next == old(ring[i].next) && AsTask(ring[i]) == old(AsTask(ring[i]))
    ensures Cyclic(ring) && Tasks(ring) == old(Tasks(ring))[k := AsTask(ring[k])]
  {
    forall i | 0 <= i < |ring| ensures LinkedAt(ring, i) { assert old(LinkedAt(ring, i)); }
  }

  /** The records are distinct, next closes them into one ring from the head on, and the running one is
      among them. */
  ghost predicate OnRing(ring: seq<Process>, at: nat, start: Process?, current: Process?)
    reads ring
  {
    Apart(ring) && Cyclic(ring)
    && (if ring == [] then start == null && current == null
        else start == ring[0] && at < |ring| && current == ring[at])
  }

  lemma Alone(ring: seq<Process>, at: nat, start: Process?, current: Process?)
    requires OnRing(ring, at, start, current) && |ring| == 1
    ensures start == ring[0] && current == ring[0] && ring[0].next == ring[0]
  {
    assert LinkedAt(ring, 0);
  }

  lemma FoundIs(ring: seq<Process>, pid: nat, proc: Process?)
    requires proc != null ==> exists i ::
      0 <= i < |ring| && proc == ring[i] && proc.pid == pid && forall j :: 0 <= j < i ==> ring[j].pid != pid
    requires proc == null <==> forall j :: 0 <= j < |ring| ==> ring[j].pid != pid
    ensures var f := M.Find(Boxes(ring), pid); if proc == null then f.None? else f.Some? && ring[f.value] == proc
  {
    hide M.FindFrom;
  }

  /** Changing nothing but one record's message queue. */
  twostate lemma QueueChanged(ring: seq<Process>, new k: nat)
    requires old(Cyclic(ring)) && Apart(ring) && k < |ring|
    requires forall i :: 0 <= i < |ring| ==>
      ring[i].next == old(ring[i].next) && AsTask(ring[i]) == old(AsTask(ring[i]))
    requires forall i :: 0 <= i < |ring| && ring[i] != ring[k] ==> ring[i].messageQueue == old(ring[i].messageQueue)
    ensures Cyclic(ring) && Tasks(ring) == old(Tasks(ring)) && Boxes(ring) == old(Boxes(ring))[k := BoxOf(ring[k])]
  {
    hide Apart;
    ApartFrom(ring, k);
    forall i | 0 <= i < |ring| ensures LinkedAt(ring, i) { assert old(LinkedAt(ring, i)); }
  }

  twostate lemma BoxesKept(ring: seq<Process>)
    requires forall i :: 0 <= i < |ring| ==> ring[i].pid == old(ring[i].pid)
    requires forall i :: 0 <= i < |ring| ==> ring[i].messageQueue == old(ring[i].messageQueue)
    ensures Boxes(ring) == old(Boxes(ring))
  {}

  twostate lemma BoxesInserted(ring: seq<Process>, new p: Process)
    requires forall i :: 0 <= i < |ring| ==> ring[i].pid == old(ring[i].pid)
    requires forall i :: 0 <= i < |ring| ==> ring[i].messageQueue == old(ring[i].messageQueue)
    ensures Boxes(if ring == [] then [p] else [ring[0], p] + ring[1..])
            == M.Opened(old(Boxes(ring)), M.Box(p.pid, p.messageQueue))
  {
    hide Boxes;
    var was, box := old(Boxes(ring)), M.Box(p.pid, p.messageQueue);
    if ring == [] {
      assert Boxes([p])[0] == box && M.Opened(was, box) == [box];
    } else {
      var now := [ring[0], p] + ring[1..];
      forall i | 0 <= i < |now| ensures Boxes(now)[i] == M.Opened(was, box)[i] {
        if i == 0 {
          assert now[i] == ring[0];
        } else if i > 1 {
          assert now[i] == ring[i - 1];
        }
      }
    }
  }

  twostate lemma BoxesRemoved(ring: seq<Process>, new i: nat)
    requires i < |ring| && forall j :: 0 <= j < |ring| ==> ring[j].pid == old(ring[j].pid)
    requires forall j :: 0 <= j < |ring| ==> ring[j].messageQueue == old(ring[j].messageQueue)
    ensures Boxes(L.Without(ring, i)) == M.Closed(old(Boxes(ring)), i)
  {}

  /** The lock that a creation takes and puts back makes no difference to it. */
  lemma CreateWhileLocked(m: Machine, e: Event)
    requires e.Create?
    ensures var r := Step(m.(state := m.state.(locked := true)), e);
      r.(state := r.state.(locked := m.state.locked)) == Step(m, e)
  {}

  lemma CreateIs(m: Machine, numbered: Machine, t: Task, r: Machine)
    requires t.pid == m.nextPid
    requires numbered == m.(nextPid := (m.nextPid + 1) % WORD, created := m.created + 1)
    requires r == numbered.(state := Insert(numbered.state, t))
    ensures r == Step(m, Create(t.saved, t.directory, t.slice, t.default))
  {}

  lemma FirstProcess(m: Machine, c: Context)
    requires m.state.tasks == [] && m.nextPid == 0 && m.created == 0
    ensures Step(m, Create(c, 0, 1, 1)) == Machine(m.state.(tasks := [Task(0, 1, 1, c, 0)], current := 0), 1, 1)
  {}

  lemma ExitIs(m: Machine, i: nat, r: Machine)
    requires 0 < i < |m.state.tasks| && r.state.tasks == L.Without(m.state.tasks, i)
    requires r.state.current == if i < |r.state.tasks| then i else 0
    requires r.state.published == SchedulerModel.Publish(r.state.tasks[r.state.current])
    requires r == m.(state := r.state) && r.state.locked == m.state.locked
    ensures r == Step(m, Exit(i))
  {}

  class Scheduler {
    var processQueueStart: Process?
    var currentProcess: Process?
    var nextPID: word
    var schedulerLock: bool
    var processEntryPoint: word
    var processStack: word
    var processBase: word
    var processPageDirectory: word
    ghost var ring: seq<Process>
    ghost var at: nat
    ghost var created: nat

    ghost predicate Valid()
      reads this, ring
    {
      OnRing(ring, at, processQueueStart, currentProcess)
    }

    ghost function Image(): Machine
      reads this, ring
    {
      Machine(
        State(Tasks(ring), at, schedulerLock,
              Published(Context(processEntryPoint, processStack, processBase), processPageDirectory)),
        nextPID, created)
    }

    constructor ()
      ensures Valid() && ring == [] && nextPID == 0 && created == 0 && schedulerLock
    {
      processQueueStart, currentProcess, nextPID, schedulerLock := null, null, 0, true;
      processEntryPoint, processStack, processBase, processPageDirectory := 0, 0, 0, 0;
      ring, at, created := [], 0, 0;
    }

    method FindProcessByPID(pid: nat) returns (proc: Process?)
      requires Valid() && ring != []
      ensures proc != null ==> exists i ::
        0 <= i < |ring| && proc == ring[i] && proc.pid == pid && forall j :: 0 <= j < i ==> ring[j].pid != pid
      ensures proc == null <==> forall j :: 0 <= j < |ring| ==> ring[j].pid != pid
    {
      hide Tasks, Boxes;
      if pid == processQueueStart.pid {
        return processQueueStart;
      }
      assert LinkedAt(ring, 0);
      ApartFrom(ring, 0);
      var p := processQueueStart.next;
      ghost var i: nat := After(|ring|, 0);
      while p != processQueueStart
        invariant p != null && i < |ring| && p == ring[i]
        invariant forall j :: 0 <= j < (if i == 0 then |ring| else i) ==> ring[j].pid != pid
        decreases if p == processQueueStart then 0 else |ring| - i
      {
        if pid == p.pid {
          return p;
        }
        assert LinkedAt(ring, i);
        i := After(|ring|, i);
        p := p.next;
      }
      return null;
    }

    method InsertProcessIntoQueue(proc: Process)
      requires Valid() && proc !in ring
      modifies this`processQueueStart, this`currentProcess, this`ring, this`at, proc`next, ring`next
      ensures Valid() && AsTask(proc) == old(AsTask(proc))
      ensures ring == if old(ring) == [] then [proc] else [old(ring)[0], proc] + old(ring)[1..]
      ensures Image() == old(Image()).(state := Insert(old(Image()).state, AsTask(proc)))
    {
      hide Tasks, Boxes;
      assert ring != [] ==> LinkedAt(ring, 0);
      if processQueueStart == null {
        processQueueStart := proc;
        proc.next := proc;
        currentProcess := proc;
        ring, at := [proc], 0;
      } else if processQueueStart.next != null {
        proc.next := processQueueStart.next;
        processQueueStart.next := proc;
        ghost var was := ring;
        ApartInserted(was, proc);
        ApartFrom(was, 0);
        ring, at := [was[0], proc] + was[1..], if at == 0 then 0 else at + 1;
        Inserted(was, proc);
      } else {
        assert false;
      }
    }

    /** Never called for the head: the queue's start is not moved. */
    method RemoveProcessFromQueue(proc: Process, ghost place: nat)
      requires Valid() && 0 < place < |ring| && proc == ring[place]
      modifies this`ring, ring`next
      ensures ring == L.Without(old(ring), place)
      ensures OnRing(ring, if place < |ring| then place else 0, processQueueStart, proc.next)
      ensures proc.next == ring[if place < |ring| then place else 0]
      ensures Tasks(ring) == L.Without(old(Tasks(ring)), place)
    {
      hide Tasks, Boxes;
      ApartFrom(ring, place);
      assert LinkedAt(ring, place);
      var nextProc := proc.next;
      var p := proc.next;
      ghost var i: nat := After(|ring|, place);
      while p.next != null && p != proc
        invariant ring == old(ring) && p != null && i < |ring| && p == ring[i] && i != place && LinkedAt(ring, i)
        invariant Cyclic(ring) && forall q :: q in ring ==> q.next == old(q.next) && AsTask(q) == old(AsTask(q))
        decreases if i > place then place + |ring| - i else place - i
      {
        assert LinkedAt(ring, i);
        if p.next == proc {
          assert i == place - 1;
          p.next := nextProc;
          ApartRemoved(ring, place);
          ApartFrom(ring, i);
          Removed(ring, place);
          ring := L.Without(ring, place);
          break;
        }
        i := After(|ring|, i);
        p := p.next;
      }
    }

    method Publish()
      requires currentProcess != null
      modifies this`processEntryPoint, this`processStack, this`processBase, this`processPageDirectory
      ensures Published(Context(processEntryPoint, processStack, processBase), processPageDirectory)
        == SchedulerModel.Publish(AsTask(currentProcess))
    {
      processEntryPoint := currentProcess.eip;
      processStack := currentProcess.esp;
      processBase := currentProcess.ebp;
      processPageDirectory := currentProcess.directory;
    }

    /** The timer interrupt; what ReadEIP and the stack registers hold comes in as arguments. */
    method Tick(currentEIP: word, currentESP: word, currentEBP: word)
      requires Valid() && ring != []
      modifies this, ring`timeSlice, ring`eip, ring`esp, ring`ebp
      ensures Valid() && ring == old(ring)
      ensures Image() == Step(old(Image()), Timer(Context(currentEIP, currentESP, currentEBP)))
      ensures Boxes(ring) == old(Boxes(ring))
    {
      hide Tasks, Apart, Boxes, BoxOf;
      ApartFrom(ring, at);
      if currentProcess.timeSlice > 0 {
        currentProcess.timeSlice := currentProcess.timeSlice - 1;
        Touched(ring, at);
        BoxesKept(ring);
        return;
      }
      if schedulerLock {
        return;
      }
      currentProcess.timeSlice := currentProcess.timeSliceDefault;
      if currentEIP == RESUMED {
        Touched(ring, at);
        BoxesKept(ring);
        return;
      }
      currentProcess.esp := currentESP;
      currentProcess.eip := currentEIP;
      currentProcess.ebp := currentEBP;
      Touched(ring, at);
      BoxesKept(ring);
      SwitchToNext();
    }

    method SwitchToNext()
      requires Valid() && ring != []
      modifies this`currentProcess, this`at, this`processEntryPoint, this`processStack, this`processBase,
        this`processPageDirectory
      ensures Valid()
      ensures var s := old(Image()).state; var next := After(|s.tasks|, s.current);
        Image() == old(Image()).(state := s.(current := next, published := SchedulerModel.Publish(s.tasks[next])))
    {
      assert LinkedAt(ring, at);
      currentProcess := currentProcess.next;
      at := After(|ring|, at);
      Publish();
    }

    /** What CreateProcess and LoadELF have in common: a zeroed record with the next pid,
        made ready to run. */
    method NewProcess(entry: word, stackTop: word, directory: word, slice: nat, default: nat) returns (proc: Process)
      requires Valid()
      modifies this`nextPID, this`created
      ensures fresh(proc) && proc.messageQueue == [] && proc.pid == old(nextPID)
      ensures AsTask(proc) == Task(old(nextPID), slice, default, Context(entry, stackTop, stackTop), directory)
      ensures Valid() && old(nextPID) == old(Image()).nextPid
      ensures Image() == old(Image()).(nextPid := (old(nextPID) + 1) % WORD, created := old(Image()).created + 1)
    {
      hide Tasks, OnRing;
      proc := new Process();
      proc.pid := nextPID;
      nextPID := (nextPID + 1) % WORD;
      created := created + 1;
      proc.Ready(entry, stackTop, directory, slice, default);
    }

    /** The new record goes into the queue. */
    method QueueNew(entry: word, stackTop: word, directory: word, slice: nat, default: nat) returns (proc: Process)
      requires Valid()
      modifies this`processQueueStart, this`currentProcess, this`ring, this`at, this`nextPID, this`created, ring`next
      ensures Valid() && fresh(proc) && proc.messageQueue == [] && proc.pid == old(nextPID)
      ensures AsTask(proc) == Task(old(nextPID), slice, default, Context(entry, stackTop, stackTop), directory)
      ensures ring == if old(ring) == [] then [proc] else [old(ring)[0], proc] + old(ring)[1..]
      ensures Image() == Step(old(Image()), Create(Context(entry, stackTop, stackTop), directory, slice, default))
      ensures Boxes(ring) == M.Opened(old(Boxes(ring)), M.Box(old(nextPID), []))
    {
      hide Tasks, Boxes, OnRing, Insert, Step, M.Opened, Image, AsTask, BoxOf;
      proc := NewProcess(entry, stackTop, directory, slice, default);
      ghost var numbered := Image();
      InsertProcessIntoQueue(proc);
      BoxesInserted(old(ring), proc);
      CreateIs(old(Image()), numbered, AsTask(proc), Image());
    }

    /** Addresses from the kernel's page allocator come in as arguments. */
    method CreateProcess(entry: word, stackTop: word) returns (pid: word, ghost proc: Process)
      requires Valid()
      modifies this, ring`next
      ensures Valid() && fresh(proc) && proc.messageQueue == [] && pid == proc.pid == old(nextPID)
      ensures proc.timeSlice == 1 && proc.timeSliceDefault == 1 && proc.directory == 0
      ensures proc.eip == entry && proc.esp == stackTop && proc.ebp == stackTop && schedulerLock == old(schedulerLock)
      ensures ring == if old(ring) == [] then [proc] else [old(ring)[0], proc] + old(ring)[1..]
      ensures Image() == Step(old(Image()), Create(Context(entry, stackTop, stackTop), 0, 1, 1))
      ensures Boxes(ring) == M.Opened(old(Boxes(ring)), M.Box(pid, []))
    {
      hide Tasks, Boxes, OnRing, Insert, Step, M.Opened;
      var schedulerState := schedulerLock;
      schedulerLock := true;
      var p := QueueNew(entry, stackTop, 0, 1, 1);
      schedulerLock := schedulerState;
      CreateWhileLocked(old(Image()), Create(Context(entry, stackTop, stackTop), 0, 1, 1));
      return p.pid, p;
    }

    /** LoadELF without the loading of segments: the new process starts with an empty slice. */
    method QueueProgram(entry: word, stackTop: word, directory: word) returns (pid: word, ghost proc: Process)
      requires Valid()
      modifies this, ring`next
      ensures Valid() && fresh(proc) && proc.messageQueue == [] && pid == proc.pid == old(nextPID)
      ensures proc.timeSlice == 0 && proc.timeSliceDefault == 15 && proc.directory == directory
      ensures proc.eip == entry && proc.esp == stackTop && proc.ebp == stackTop && schedulerLock == old(schedulerLock)
      ensures ring == if old(ring) == [] then [proc] else [old(ring)[0], proc] + old(ring)[1..]
      ensures Image() == Step(old(Image()), Create(Context(entry, stackTop, stackTop), directory, 0, 15))
      ensures Boxes(ring) == M.Opened(old(Boxes(ring)), M.Box(pid, []))
    {
      hide Tasks, Boxes, OnRing, Insert, Step, M.Opened;
      var schedulerState := schedulerLock;
      schedulerLock := true;
      var p := QueueNew(entry, stackTop, directory, 0, 15);
      schedulerLock := schedulerState;
      CreateWhileLocked(old(Image()), Create(Context(entry, stackTop, stackTop), directory, 0, 15));
      return p.pid, p;
    }

    /** The idle process, alone on the ring, put into the kernel's address space and published; the lock is cleared. */
    method StartIdle(kernelDirectory: word)
      requires Valid() && |ring| == 1
      modifies this`schedulerLock, this`processEntryPoint, this`processStack, this`processBase,
        this`processPageDirectory, ring`directory
      ensures Valid()
      ensures var m := old(Image()); var idle := m.state.tasks[0].(directory := kernelDirectory);
        Image() == m.(state := State([idle], at, false, SchedulerModel.Publish(idle)))
    {
      hide Apart, Tasks;
      currentProcess.directory := kernelDirectory;
      Touched(ring, 0);
      Publish();
      schedulerLock := false;
    }

    /** The idle process is made and switched to. */
    method Initialize(idle: word, stackTop: word, kernelDirectory: word)
      requires Valid() && ring == [] && nextPID == 0 && created == 0
      modifies this
      ensures Valid() && Image() == Boot(Context(idle, stackTop, stackTop), kernelDirectory)
      ensures |ring| == 1 && fresh(ring[0]) && currentProcess == ring[0] && ring[0].next == ring[0] && !schedulerLock
      ensures var p := ring[0];
        p.pid == 0 && p.timeSlice == 1 && p.timeSliceDefault == 1 && p.messageQueue == []
        && p.eip == idle && p.esp == stackTop && p.ebp == stackTop && p.directory == kernelDirectory
      ensures processEntryPoint == idle && processStack == stackTop && processBase == stackTop
      ensures processPageDirectory == kernelDirectory && nextPID == 1
    {
      hide Boxes, OnRing, Tasks, M.Opened, Step;
      schedulerLock := true;
      FirstProcess(Image(), Context(idle, stackTop, stackTop));
      var _, _ := CreateProcess(idle, stackTop);
      StartIdle(kernelDirectory);
      Alone(ring, at, processQueueStart, currentProcess);
    }

    /** Closing the descriptors and freeing the segments' blocks is not the queue's concern. */
    method EndProcess(proc: Process, ghost place: nat)
      requires Valid() && 0 < place < |ring| && proc == ring[place]
      modifies this, ring`next
      ensures Valid() && ring == L.Without(old(ring), place)
      ensures Image() == Step(old(Image()), Exit(place))
      ensures Boxes(ring) == M.Closed(old(Boxes(ring)), place)
    {
      hide Tasks, Boxes, OnRing, Step, End, L.Without, M.Closed, AsTask, BoxOf;
      RemoveProcessFromQueue(proc, place);
      BoxesRemoved(old(ring), place);
      currentProcess := proc.next;
      at := if place < |ring| then place else 0;
      Publish();
      ExitIs(old(Image()), place, Image());
    }

    /** Send by pid: true means that no process has it. */
    method SendMessage(msg: M.Message) returns (failed: bool)
      requires Valid() && ring != []
      modifies ring
      ensures Valid() && Image() == old(Image())
      ensures failed == M.Find(old(Boxes(ring)), msg.receiver).None?
      ensures Boxes(ring) == M.Step(old(Boxes(ring)), M.Send(msg))
    {
      hide M.FindFrom, M.Find, Apart, Cyclic;
      var proc := FindProcessByPID(msg.receiver);
      FoundIs(ring, msg.receiver, proc);
      if proc == null {
        return true;
      }
      SendMessageTo(proc, msg, M.Find(Boxes(ring), msg.receiver).value);
      return false;
    }

    /** Send to a process at hand, whatever receiver the message names. */
    method SendMessageTo(proc: Process, msg: M.Message, ghost place: nat)
      requires Valid() && place < |ring| && proc == ring[place]
      modifies proc`messageQueue
      ensures Valid() && Image() == old(Image())
      ensures proc.messageQueue == old(proc.messageQueue) + [msg]
      ensures Boxes(ring) == M.Post(old(Boxes(ring)), place, msg)
    {
      proc.messageQueue := proc.messageQueue + [msg];
      QueueChanged(ring, place);
    }

    /** The oldest message; all zero and no change when there is none. */
    method ReceiveMessage(proc: Process, ghost place: nat) returns (msg: M.Message)
      requires Valid() && place < |ring| && proc == ring[place]
      modifies proc`messageQueue
      ensures Valid() && Image() == old(Image())
      ensures var queue := old(proc.messageQueue);
        if queue == [] then msg == M.Message(0, 0, 0, 0, 0) && proc.messageQueue == []
        else [msg] + proc.messageQueue == queue
      ensures msg == M.Taken(old(Boxes(ring))[place])
      ensures Boxes(ring) == M.Take(old(Boxes(ring)), place)
    {
      if |proc.messageQueue| <= 0 {
        return M.NO_MESSAGE;
      }
      msg := proc.messageQueue[0];
      proc.messageQueue := proc.messageQueue[1..];
      QueueChanged(ring, place);
    }
  }
}
