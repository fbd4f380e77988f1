/** Several address spaces over one physical memory: none reaches into another. */
module Isolation {
  import opened Bits
  import opened Options
  import opened PageEntry
  import opened PhysicalMemory
  import opened Paging
  import opened AddressSpace
  import opened CreateSpace
  import opened ProcessAllocator

  datatype System = System(m: Memory, taken: set<nat>, spaces: seq<Process>)

  /** CreateAddressSpace; MapVirtualPages below 0xC0000000 into the directory of a space; the same into the kernel's
      own tables, as the loader does to reach the pages of a segment; SysMemalloc in a space. */
  datatype Operation =
    | NewSpace
    | MapUser(i: nat, phys: word, virt: word, n: nat)
    | MapShared(phys: word, virt: word, n: nat)
    | Memalloc(i: nat, amount: word)

  /** Page-aligned frames below 2 GiB, addresses below 0xC0000000. */
  predicate InUserHalf(phys: word, virt: word, n: nat)
  {
    virt / PAGE_SIZE + n <= KERNEL_PAGE && phys % PAGE_SIZE == 0 && phys + n * PAGE_SIZE <= HIGH
  }

  /** Spaces and pages are asked for only while the blocks for them last, and a call returns. */
  ghost predicate Allowed(y: System, l: Kernel, op: Operation)
  {
    match op
    case NewSpace => KERNEL_TABLE < |FreeBlocks(y.taken)|
    case MapUser(i, phys, virt, n) => i < |y.spaces| && InUserHalf(phys, virt, n)
    case MapShared(phys, virt, n) => InUserHalf(phys, virt, n)
    case Memalloc(i, n) =>
      i < |y.spaces| && 0 < n <= |FreeBlocks(y.taken)| && n + 2 < WORD
      && ClaimStart(UserPresence(y.m, l, y.spaces[i]), n).Some?
  }

  ghost function Perform(y: System, l: Kernel, op: Operation): System
    requires Consistent(y, l) && Allowed(y, l, op)
  {
    match op
    case NewSpace =>
      (match Create(y.m, l, y.taken)
       case None => y
       case Some((s, m', taken')) => CreateIs(y.m, l, y.taken); System(m', taken', y.spaces + [s]))
    case MapUser(i, phys, virt, n) => y.(m := MapUserPages(y.m, l, y.spaces[i], phys, virt, n))
    case MapShared(phys, virt, n) => y.(m := MapPages(y.m, l, phys, virt, n))
    case Memalloc(i, n) =>
      (match Malloc(y.m, l, y.spaces[i], y.taken, n)
       case None => y
       case Some((_, m', taken')) => System(m', taken', y.spaces))
  }

  /** The kernel's tables are linked, every space is sound in frames that are taken, and no two spaces
      share a frame. */
  ghost predicate Consistent(y: System, l: Kernel)
  {
    Linked(y.m, l) && Reserved(y.taken, l)
    && (forall i :: 0 <= i < |y.spaces| ==> Sound(y.m, l, y.spaces[i]) && Frames(y.m, l, y.spaces[i]) <= y.taken)
    && (forall i, j :: 0 <= i < j < |y.spaces| ==> Frames(y.m, l, y.spaces[i]) !! Frames(y.m, l, y.spaces[j]))
  }

  /** What an operation that is not about s leaves of s. */
  ghost predicate Spares(m: Memory, m': Memory, l: Kernel, s: Process)
  {
    (forall p :: KERNEL_PAGE <= p < PAGES && Present(Entry(m, l, p)) ==>
      Present(Entry(m', l, p)) && FrameOf(m', l, p) == FrameOf(m, l, p))
    && (forall f :: f in Frames(m, l, s) ==> m'[f] == m[f])
    && m'[0] == m[0]
  }

  lemma SparedSound(m: Memory, m': Memory, l: Kernel, s: Process)
    requires Sound(m, l, s) && Spares(m, m', l, s) && Linked(m', l)
    ensures Sound(m', l, s) && Frames(m', l, s) == Frames(m, l, s)
  {
    hide Linked;
    SparedBacked(m, m', l, s);
    SparedTables(m, m', l, s);
  }

  lemma SparedBacked(m: Memory, m': Memory, l: Kernel, s: Process)
    requires Backed(m, l, s) && Spares(m, m', l, s)
    ensures Backed(m', l, s) && Frames(m', l, s) == Frames(m, l, s)
    ensures forall p: nat :: p < PAGES && Owns(s, p) ==> FrameOf(m', l, p) == FrameOf(m, l, p)
  {}

  /** The directory and the tables of a spared space read the same. */
  lemma SparedTables(m: Memory, m': Memory, l: Kernel, s: Process)
    requires Backed(m, l, s) && Spares(m, m', l, s)
    ensures m'[s.frame] == m[s.frame]
    ensures m'[0] == m[0]
    ensures forall q :: 0 <= q < KERNEL_PAGE ==> UserEntry(m', l, s, q) == UserEntry(m, l, s, q)
  {
    assert Owns(s, s.directory);
    forall q | 0 <= q < KERNEL_PAGE ensures UserEntry(m', l, s, q) == UserEntry(m, l, s, q) {
      assert Owns(s, s.tables + q / PAGES_PER_TABLE);
      assert FrameOf(m, l, s.tables + q / PAGES_PER_TABLE) in Frames(m, l, s);
    }
  }

  /** A spared space translates every user address with an anchored table as before. */
  lemma SparedWalk(m: Memory, m': Memory, l: Kernel, s: Process, v: word)
    requires Sound(m, l, s) && Sound(m', l, s) && Spares(m, m', l, s) && v / PAGE_SIZE < KERNEL_PAGE
    requires Anchored(m, l, s, v / PAGE_SIZE / PAGES_PER_TABLE)
    ensures Walk(m', s.frame, v) == Walk(m, s.frame, v) && Anchored(m', l, s, v / PAGE_SIZE / PAGES_PER_TABLE)
  {
    hide Walk, Linked, Backed, Spares, Frames;
    SparedTables(m, m', l, s);
    SparedBacked(m, m', l, s);
    assert Owns(s, s.tables + v / PAGE_SIZE / PAGES_PER_TABLE);
    UserWalk(m, l, s, v);
    UserWalk(m', l, s, v);
  }

  // ---- One operation ----

  lemma SoundMember(y: System, l: Kernel, i: nat)
    requires Consistent(y, l) && i < |y.spaces|
    ensures Sound(y.m, l, y.spaces[i]) && Frames(y.m, l, y.spaces[i]) <= y.taken
    ensures Linked(y.m, l) && Reserved(y.taken, l)
  {}

  lemma ApartMembers(y: System, l: Kernel, i: nat, j: nat)
    requires Consistent(y, l) && i < |y.spaces| && j < |y.spaces| && i != j
    ensures Frames(y.m, l, y.spaces[i]) !! Frames(y.m, l, y.spaces[j])
  {
    if i < j { assert Frames(y.m, l, y.spaces[i]) !! Frames(y.m, l, y.spaces[j]); }
    else { assert Frames(y.m, l, y.spaces[j]) !! Frames(y.m, l, y.spaces[i]); }
  }

  lemma FramesProper(m: Memory, l: Kernel, s: Process)
    requires Backed(m, l, s)
    ensures 0 !in Frames(m, l, s) && forall f :: f in Frames(m, l, s) ==> f < FRAMES && !l.Holds(f)
  {}

  /** A new space spares the old ones. */
  lemma CreateSpares(y: System, l: Kernel, i: nat)
    requires Consistent(y, l) && Allowed(y, l, NewSpace) && i < |y.spaces| && Create(y.m, l, y.taken).Some?
    ensures Spares(y.m, Create(y.m, l, y.taken).value.1, l, y.spaces[i])
  {
    hide Create, FreeBlocks, Linked;
    CreateIs(y.m, l, y.taken);
    FramesProper(y.m, l, y.spaces[i]);
    FrameZeroUntouched(y.m, l, y.taken, Create(y.m, l, y.taken).value.1, Create(y.m, l, y.taken).value.2);
  }

  /** Whatever changes the frames of space i only spares the others. */
  lemma WithinSpares(y: System, l: Kernel, i: nat, m': Memory, j: nat)
    requires Consistent(y, l) && i < |y.spaces| && j < |y.spaces| && j != i
    requires SameKernel(y.m, m', l) && WithinFrames(y.m, m', l, y.spaces[i])
    ensures Spares(y.m, m', l, y.spaces[j])
  {
    hide Linked, Backed, Directed, Frames, Consistent;
    SoundMember(y, l, i);
    SameKernelKeeps(y.m, m', l, y.spaces[j]);
    KernelSame(y.m, m', l);
    ApartMembers(y, l, i, j);
    FramesProper(y.m, l, y.spaces[i]);
    SoundMember(y, l, j);
    FramesProper(y.m, l, y.spaces[j]);
  }

  /** And keeps the system consistent as long as space i itself stays sound. */
  lemma WithinConsistent(y: System, l: Kernel, i: nat, m': Memory, taken': set<nat>)
    requires Consistent(y, l) && i < |y.spaces| && y.taken <= taken' && Reserved(taken', l)
    requires SameKernel(y.m, m', l) && WithinFrames(y.m, m', l, y.spaces[i]) && Sound(m', l, y.spaces[i])
    ensures Consistent(System(m', taken', y.spaces), l)
  {
    hide Linked, Frames, Sound, Spares, Reserved, SameKernel, WithinFrames;
    SoundLinked(m', l, y.spaces[i]);
    forall j | 0 <= j < |y.spaces|
      ensures Sound(m', l, y.spaces[j]) && Frames(m', l, y.spaces[j]) == Frames(y.m, l, y.spaces[j])
    {
      if j != i {
        WithinSpares(y, l, i, m', j);
        SparedSound(y.m, m', l, y.spaces[j]);
      } else {
        SameKernelFrames(y.m, m', l, y.spaces[i]);
      }
    }
  }

  lemma SameKernelFrames(m: Memory, m': Memory, l: Kernel, s: Process)
    requires SameKernel(m, m', l)
    ensures Frames(m', l, s) == Frames(m, l, s)
  {
    hide Linked, Backed;
    SameKernelKeeps(m, m', l, s);
  }

  /** SysMemalloc in space i writes frames of that space only. */
  lemma MemallocWithin(y: System, l: Kernel, i: nat, n: word)
    requires Consistent(y, l) && Allowed(y, l, Memalloc(i, n))
    ensures var z := Perform(y, l, Memalloc(i, n));
      z.spaces == y.spaces && SameKernel(y.m, z.m, l) && WithinFrames(y.m, z.m, l, y.spaces[i])
      && Sound(z.m, l, y.spaces[i])
      && y.taken <= z.taken && Reserved(z.taken, l)
  {
    hide Linked, Frames, Sound, Reserved, SameKernel, WithinFrames, Malloc, FreeBlocks, Placed, Aimed;
    SoundMember(y, l, i);
    MallocIs(y.m, l, y.spaces[i], y.taken, n, 0, 0);
  }

  /** Mapping below 0xC0000000 in the kernel's own tables spares every space. */
  lemma MapSharedSpares(y: System, l: Kernel, phys: word, virt: word, n: nat, i: nat)
    requires Consistent(y, l) && Allowed(y, l, MapShared(phys, virt, n)) && i < |y.spaces|
    ensures Spares(y.m, MapPages(y.m, l, phys, virt, n), l, y.spaces[i])
  {
    hide Linked, Directed, MapPages, Consistent, MapEntry;
    SoundMember(y, l, i);
    FramesProper(y.m, l, y.spaces[i]);
    MapPagesIs(y.m, l, phys, virt, n);
    MapPagesElsewhere(y.m, l, phys, virt, n);
    forall p | KERNEL_PAGE <= p < PAGES ensures PagesAfter(virt, p) >= n {}
    FrameZeroElsewhere(y.m, MapPages(y.m, l, phys, virt, n), l);
  }

  lemma FrameZeroElsewhere(m: Memory, m': Memory, l: Kernel)
    requires SameElsewhere(m, m', l)
    ensures m'[0] == m[0]
  {}

  // ---- Runs ----

  lemma CreateConsistent(y: System, l: Kernel)
    requires Consistent(y, l) && Allowed(y, l, NewSpace)
    ensures Consistent(Perform(y, l, NewSpace), l)
  {
    hide Create, FreeBlocks, Linked, Frames, Sound, Spares, Consistent, Reserved, Grows;
    if Create(y.m, l, y.taken).Some? {
      var (s, m', taken') := Create(y.m, l, y.taken).value;
      ConsistentLinked(y, l);
      CreateIs(y.m, l, y.taken);
      GrowsLinked(y.m, y.taken, m', taken', l);
      forall i | 0 <= i < |y.spaces|
        ensures Sound(m', l, y.spaces[i]) && Frames(m', l, y.spaces[i]) == Frames(y.m, l, y.spaces[i])
      {
        SoundMember(y, l, i);
        CreateSpares(y, l, i);
        SparedSound(y.m, m', l, y.spaces[i]);
      }
      SpaceAdded(y, l, m', taken', s);
    }
  }

  lemma ConsistentLinked(y: System, l: Kernel)
    requires Consistent(y, l)
    ensures Linked(y.m, l) && Reserved(y.taken, l)
  {}

  lemma SpaceAdded(y: System, l: Kernel, m': Memory, taken': set<nat>, s: Process)
    requires Consistent(y, l) && Linked(m', l) && Reserved(taken', l) && y.taken <= taken'
    requires forall i :: 0 <= i < |y.spaces| ==>
      Sound(m', l, y.spaces[i]) && Frames(m', l, y.spaces[i]) == Frames(y.m, l, y.spaces[i])
    requires CreateSpace.NewSpace(m', l, y.taken, taken', s)
    ensures Consistent(System(m', taken', y.spaces + [s]), l)
  {
    hide Linked, Frames, Sound, Reserved;
  }

  lemma MapUserConsistent(y: System, l: Kernel, i: nat, phys: word, virt: word, n: nat)
    requires Consistent(y, l) && Allowed(y, l, MapUser(i, phys, virt, n))
    ensures Consistent(Perform(y, l, MapUser(i, phys, virt, n)), l)
  {
    hide Linked, Frames, Sound, MapUserPages, Reserved, SameKernel, WithinFrames, Consistent;
    SoundMember(y, l, i);
    MapUserPagesKeeps(y.m, l, y.spaces[i], phys, virt, n);
    WithinConsistent(y, l, i, MapUserPages(y.m, l, y.spaces[i], phys, virt, n), y.taken);
  }

  lemma MemallocConsistent(y: System, l: Kernel, i: nat, n: word)
    requires Consistent(y, l) && Allowed(y, l, Memalloc(i, n))
    ensures Consistent(Perform(y, l, Memalloc(i, n)), l)
  {
    hide Linked, Frames, Sound, Reserved, SameKernel, WithinFrames, Consistent, Malloc, FreeBlocks, ClaimStart,
      UserPresence;
    MemallocWithin(y, l, i, n);
    var z := Perform(y, l, Memalloc(i, n));
    WithinConsistent(y, l, i, z.m, z.taken);
  }

  lemma SoundLinked(m: Memory, l: Kernel, s: Process)
    requires Sound(m, l, s)
    ensures Linked(m, l)
  {}

  lemma MapSharedConsistent(y: System, l: Kernel, phys: word, virt: word, n: nat)
    requires Consistent(y, l) && Allowed(y, l, MapShared(phys, virt, n))
    ensures Consistent(Perform(y, l, MapShared(phys, virt, n)), l)
  {
    hide Linked, Frames, Sound, Spares, MapPages, Reserved;
    MapPagesLinked(y.m, l, phys, virt, n);
    var m' := MapPages(y.m, l, phys, virt, n);
    forall j | 0 <= j < |y.spaces|
      ensures Sound(m', l, y.spaces[j]) && Frames(m', l, y.spaces[j]) == Frames(y.m, l, y.spaces[j])
    {
      MapSharedSpares(y, l, phys, virt, n, j);
      SparedSound(y.m, m', l, y.spaces[j]);
    }
  }

  lemma PerformConsistent(y: System, l: Kernel, op: Operation)
    requires Consistent(y, l) && Allowed(y, l, op)
    ensures Consistent(Perform(y, l, op), l)
    ensures |y.spaces| <= |Perform(y, l, op).spaces| && Perform(y, l, op).spaces[..|y.spaces|] == y.spaces
  {
    hide Consistent, Create, MapUserPages, MapPages, Malloc, ClaimStart, UserPresence, FreeBlocks;
    match op
    case NewSpace => CreateConsistent(y, l);
    case MapUser(i, phys, virt, n) => MapUserConsistent(y, l, i, phys, virt, n);
    case MapShared(phys, virt, n) => MapSharedConsistent(y, l, phys, virt, n);
    case Memalloc(i, n) => MemallocConsistent(y, l, i, n);
  }

  ghost predicate AllAllowed(y: System, l: Kernel, ops: seq<Operation>)
    requires Consistent(y, l)
    decreases ops
  {
    if ops == [] then true
    else
      Allowed(y, l, ops[0]) && (PerformConsistent(y, l, ops[0]); AllAllowed(Perform(y, l, ops[0]), l, ops[1..]))
  }

  ghost function PerformAll(y: System, l: Kernel, ops: seq<Operation>): System
    requires Consistent(y, l) && AllAllowed(y, l, ops)
    decreases ops
  {
    if ops == [] then y
    else
      PerformConsistent(y, l, ops[0]);
      PerformAll(Perform(y, l, ops[0]), l, ops[1..])
  }

  /** The operation is about space i. */
  predicate About(op: Operation, i: nat)
  {
    (op.MapUser? || op.Memalloc?) && op.i == i
  }

  predicate NotAbout(ops: seq<Operation>, i: nat)
  {
    forall k :: 0 <= k < |ops| ==> !About(ops[k], i)
  }

  lemma OperationSpares(y: System, l: Kernel, op: Operation, i: nat)
    requires Consistent(y, l) && Allowed(y, l, op) && i < |y.spaces| && !About(op, i)
    ensures Spares(y.m, Perform(y, l, op).m, l, y.spaces[i])
  {
    hide Consistent, Create, MapUserPages, MapPages, Linked, Frames, Malloc, ClaimStart, UserPresence, FreeBlocks,
      SameKernel, WithinFrames, Sound;
    match op
    case NewSpace =>
      if Create(y.m, l, y.taken).Some? { CreateSpares(y, l, i); }
    case MapUser(j, phys, virt, n) =>
      SoundMember(y, l, j);
      MapUserPagesKeeps(y.m, l, y.spaces[j], phys, virt, n);
      WithinSpares(y, l, j, MapUserPages(y.m, l, y.spaces[j], phys, virt, n), i);
    case MapShared(phys, virt, n) => MapSharedSpares(y, l, phys, virt, n, i);
    case Memalloc(j, n) =>
      MemallocWithin(y, l, j, n);
      WithinSpares(y, l, j, Perform(y, l, op).m, i);
  }

  /** Isolation: over every run of address-space creations, mappings and SysMemalloc calls, a space that no operation
      is about translates every user address as it did at the start, as long as the directory led the address to a
      table of the space, or to frame 0 as at creation. (An address whose table SysMemalloc has unlinked is read
      through a frame that may belong to anybody.) */
  lemma {:induction false} AnchoredIsIsolated(y: System, l: Kernel, ops: seq<Operation>, i: nat, v: word)
    requires Consistent(y, l) && AllAllowed(y, l, ops) && i < |y.spaces| && NotAbout(ops, i)
    requires v / PAGE_SIZE < KERNEL_PAGE && Anchored(y.m, l, y.spaces[i], v / PAGE_SIZE / PAGES_PER_TABLE)
    ensures var z := PerformAll(y, l, ops);
      i < |z.spaces| && z.spaces[i] == y.spaces[i] && Walk(z.m, y.spaces[i].frame, v) == Walk(y.m, y.spaces[i].frame, v)
    decreases ops
  {
    hide Consistent, Perform, Walk, Spares, Sound, Allowed, Anchored;
    SoundMember(y, l, i);
    if ops != [] {
      var y1 := Perform(y, l, ops[0]);
      PerformConsistent(y, l, ops[0]);
      assert y1.spaces[i] == y1.spaces[..|y.spaces|][i];
      OperationSpares(y, l, ops[0], i);
      SoundMember(y1, l, i);
      SparedWalk(y.m, y1.m, l, y.spaces[i], v);
      AnchoredIsIsolated(y1, l, ops[1..], i, v);
    }
  }

  lemma {:induction false} RunConsistent(y: System, l: Kernel, ops: seq<Operation>)
    requires Consistent(y, l) && AllAllowed(y, l, ops)
    ensures Consistent(PerformAll(y, l, ops), l)
    decreases ops
  {
    hide Consistent, Perform, Allowed;
    if ops != [] {
      PerformConsistent(y, l, ops[0]);
      RunConsistent(Perform(y, l, ops[0]), l, ops[1..]);
    }
  }

  /** And whatever happened, in every system a run reaches all spaces read the same tables from 0xC0000000 up, those
      of the kernel. */
  lemma SharedHalf(y: System, l: Kernel, ops: seq<Operation>, i: nat, v: word)
    requires Consistent(y, l) && AllAllowed(y, l, ops) && v / PAGE_SIZE >= KERNEL_PAGE
    ensures var z := PerformAll(y, l, ops);
      i < |z.spaces| ==> Walk(z.m, z.spaces[i].frame, v) == Walk(z.m, l.directory, v)
  {
    hide Consistent, PerformAll, AllAllowed, Walk, Linked, Backed, Directed;
    RunConsistent(y, l, ops);
    var z := PerformAll(y, l, ops);
    if i < |z.spaces| {
      SoundMember(z, l, i);
      SoundParts(z.m, l, z.spaces[i]);
      KernelHalf(z.m, l, z.spaces[i], v);
    }
  }
}
