/** Which spaces keep every directory entry on a table of their own, and what that makes of isolation. */
module Anchors {
  import opened Bits
  import opened Options
  import opened PageEntry
  import opened PhysicalMemory
  import opened Paging
  import opened AddressSpace
  import opened CreateSpace
  import opened ProcessAllocator
  import opened Isolation

  /** Every directory entry of s leads to its own table, or still to frame 0. */
  ghost predicate SpaceAnchored(m: Memory, l: Kernel, s: Process)
  {
    forall k :: 0 <= k < KERNEL_TABLE ==> Anchored(m, l, s, k)
  }

  ghost predicate AllAnchored(y: System, l: Kernel)
  {
    forall i :: 0 <= i < |y.spaces| ==> SpaceAnchored(y.m, l, y.spaces[i])
  }

  // ---- What each operation does to its own space ----

  /** Mapping into a space. */
  lemma {:induction false} MapUserAnchors(m: Memory, l: Kernel, s: Process, phys: word, virt: word, n: nat, k: nat)
    requires Sound(m, l, s) && virt / PAGE_SIZE + n <= KERNEL_PAGE
    requires phys % PAGE_SIZE == 0 && phys + n * PAGE_SIZE <= HIGH && k < KERNEL_TABLE && Anchored(m, l, s, k)
    ensures Anchored(MapUserPages(m, l, s, phys, virt, n), l, s, k)
    decreases n
  {
    hide Sound, MapUserPage, Anchored;
    if n > 0 {
      MapOneAnchors(m, l, s, phys, virt, k);
      MapUserPageSound(m, l, s, phys, virt);
      MapUserAnchors(MapUserPage(m, l, s, phys, virt), l, s, phys + PAGE_SIZE, virt + PAGE_SIZE, n - 1, k);
    }
  }

  lemma MapOneAnchors(m: Memory, l: Kernel, s: Process, phys: word, virt: word, k: nat)
    requires Sound(m, l, s) && virt / PAGE_SIZE < KERNEL_PAGE && k < KERNEL_TABLE && Anchored(m, l, s, k)
    ensures Anchored(MapUserPage(m, l, s, phys, virt), l, s, k)
  {
    hide MapUserPage, UserEntry, Linked, Backed, Directed, Enabled;
    DirectoryBelow(m, l, s, virt / PAGE_SIZE / PAGES_PER_TABLE);
    MapUserPageIs(m, l, s, phys, virt);
    SameKernelKeeps(m, MapUserPage(m, l, s, phys, virt), l, s);
  }

  /** SysMemalloc, from the state before: entry k is anchored afterwards exactly when its table holds a returned page,
      or it was before and the table is not one that holds only padding, or the number written to such a one happens
      to be that of its frame or 0. */
  lemma MemallocAnchors(m: Memory, l: Kernel, s: Process, taken: set<nat>, n: word, k: nat)
    requires Sound(m, l, s) && Reserved(taken, l) && 0 < n <= |FreeBlocks(taken)| && n + 2 < WORD && k < KERNEL_TABLE
    ensures match ClaimStart(UserPresence(m, l, s), n)
      case None => Malloc(m, l, s, taken, n) == None
      case Some(p) =>
        Malloc(m, l, s, taken, n).Some?
        && (Anchored(Malloc(m, l, s, taken, n).value.1, l, s, k) <==>
             if PaddingOnly(p, n, k) then WrittenFits(m, l, s, k) else TableTouched(p, n, k) || Anchored(m, l, s, k))
  {
    hide Sound, Reserved, FreeBlocks, Malloc, UserEntry, WithinFrames, FrameOf, UserPresence, ClaimStart, TableTouched,
      PaddingOnly;
    MallocIs(m, l, s, taken, n, 0, k);
    if ClaimStart(UserPresence(m, l, s), n).Some? {
      var (p, m', _) := Malloc(m, l, s, taken, n).value;
      SameKernelKeeps(m, m', l, s);
      TouchedMore(p, n, k);
    }
  }

  /** The number the allocator writes for table k is that of its frame, or 0. */
  predicate WrittenFits(m: Memory, l: Kernel, s: Process, k: nat)
    requires k < KERNEL_TABLE
  {
    s.tables + k == KERNEL_PAGE || s.tables + k - KERNEL_PAGE == FrameOf(m, l, s.tables + k)
  }

  // ---- Operations and runs ----

  /** The operation lets no space lose a table: a condition on the state before it, and on SysMemalloc only. */
  ghost predicate KeepsAnchors(y: System, l: Kernel, op: Operation)
    requires Allowed(y, l, op)
  {
    match op
    case Memalloc(i, n) =>
      var p := ClaimStart(UserPresence(y.m, l, y.spaces[i]), n).value;
      forall k :: 0 <= k < KERNEL_TABLE && PaddingOnly(p, n, k) ==> WrittenFits(y.m, l, y.spaces[i], k)
    case _ => true
  }

  lemma SparedAnchors(m: Memory, m': Memory, l: Kernel, s: Process, k: nat)
    requires Sound(m, l, s) && Spares(m, m', l, s) && k < KERNEL_TABLE
    ensures Anchored(m', l, s, k) <==> Anchored(m, l, s, k)
  {
    hide Linked, Directed, Spares, Frames;
    SparedTables(m, m', l, s);
    SparedBacked(m, m', l, s);
    assert Owns(s, s.tables + k);
  }

  /** Another space, anchored before, is anchored after. */
  lemma OtherAnchored(y: System, l: Kernel, op: Operation, i: nat)
    requires Consistent(y, l) && Allowed(y, l, op) && i < |y.spaces| && !About(op, i)
    requires SpaceAnchored(y.m, l, y.spaces[i])
    ensures SpaceAnchored(Perform(y, l, op).m, l, y.spaces[i])
  {
    hide Consistent, Perform, Allowed, Spares, Anchored, Sound;
    SoundMember(y, l, i);
    OperationSpares(y, l, op, i);
    forall k | 0 <= k < KERNEL_TABLE ensures Anchored(Perform(y, l, op).m, l, y.spaces[i], k) {
      SparedAnchors(y.m, Perform(y, l, op).m, l, y.spaces[i], k);
    }
  }

  /** The space an operation is about. */
  lemma OwnAnchored(y: System, l: Kernel, op: Operation, i: nat)
    requires Consistent(y, l) && Allowed(y, l, op) && i < |y.spaces| && About(op, i)
    requires SpaceAnchored(y.m, l, y.spaces[i])
    ensures SpaceAnchored(Perform(y, l, op).m, l, y.spaces[i]) <==> KeepsAnchors(y, l, op)
  {
    hide Consistent, Anchored, Sound, MapUserPages, Malloc, FreeBlocks, UserPresence, ClaimStart, WrittenFits,
      PaddingOnly, TableTouched, Reserved;
    SoundMember(y, l, i);
    match op
    case MapUser(_, phys, virt, n) =>
      forall k | 0 <= k < KERNEL_TABLE ensures Anchored(Perform(y, l, op).m, l, y.spaces[i], k) {
        MapUserAnchors(y.m, l, y.spaces[i], phys, virt, n, k);
      }
    case Memalloc(_, n) => MemallocOwn(y, l, i, n);
  }

  lemma MemallocOwn(y: System, l: Kernel, i: nat, n: word)
    requires Consistent(y, l) && Allowed(y, l, Memalloc(i, n)) && SpaceAnchored(y.m, l, y.spaces[i])
    ensures var op := Memalloc(i, n);
      SpaceAnchored(Perform(y, l, op).m, l, y.spaces[i]) <==> KeepsAnchors(y, l, op)
  {
    hide Consistent, Anchored, Sound, Malloc, FreeBlocks, UserPresence, ClaimStart, WrittenFits, PaddingOnly,
      TableTouched, Reserved;
    SoundMember(y, l, i);
    var p := ClaimStart(UserPresence(y.m, l, y.spaces[i]), n).value;
    forall k | 0 <= k < KERNEL_TABLE
      ensures Anchored(Perform(y, l, Memalloc(i, n)).m, l, y.spaces[i], k)
              <==> (PaddingOnly(p, n, k) ==> WrittenFits(y.m, l, y.spaces[i], k))
    {
      MemallocAnchors(y.m, l, y.spaces[i], y.taken, n, k);
    }
  }

  lemma NewAnchored(y: System, l: Kernel)
    requires Consistent(y, l) && Allowed(y, l, NewSpace)
    ensures var z := Perform(y, l, NewSpace);
      |z.spaces| == |y.spaces| || (|z.spaces| == |y.spaces| + 1 && SpaceAnchored(z.m, l, z.spaces[|y.spaces|]))
  {
    hide Consistent, Create, FreeBlocks, Linked, Sound, Frames, Reserved, Grows;
    ConsistentLinked(y, l);
    if Create(y.m, l, y.taken).Some? { CreateIs(y.m, l, y.taken); }
  }

  /** From a system whose spaces are all anchored, an operation leaves them all anchored, a new one included, if and
      only if it keeps anchors; all but SysMemalloc do. */
  lemma OperationAnchors(y: System, l: Kernel, op: Operation)
    requires Consistent(y, l) && Allowed(y, l, op) && AllAnchored(y, l)
    ensures AllAnchored(Perform(y, l, op), l) <==> KeepsAnchors(y, l, op)
  {
    hide Consistent, Perform, Allowed, SpaceAnchored, KeepsAnchors;
    var z := Perform(y, l, op);
    PerformConsistent(y, l, op);
    SpacesAfter(y, l, op);
    assert forall i :: 0 <= i < |y.spaces| ==> z.spaces[i] == z.spaces[..|y.spaces|][i];
    forall i | 0 <= i < |y.spaces| && !About(op, i) ensures SpaceAnchored(z.m, l, z.spaces[i]) {
      OtherAnchored(y, l, op, i);
    }
    if op.MapUser? || op.Memalloc? {
      AllowedIndex(y, l, op);
      OwnAnchored(y, l, op, op.i);
    } else if op.NewSpace? {
      NewAnchored(y, l);
      KeepsAnyway(y, l, op);
    } else {
      KeepsAnyway(y, l, op);
    }
  }

  lemma SpacesAfter(y: System, l: Kernel, op: Operation)
    requires Consistent(y, l) && Allowed(y, l, op)
    ensures !op.NewSpace? ==> |Perform(y, l, op).spaces| == |y.spaces|
  {}

  lemma AllowedIndex(y: System, l: Kernel, op: Operation)
    requires Allowed(y, l, op) && (op.MapUser? || op.Memalloc?)
    ensures op.i < |y.spaces|
  {}

  lemma KeepsAnyway(y: System, l: Kernel, op: Operation)
    requires Allowed(y, l, op) && !op.Memalloc?
    ensures KeepsAnchors(y, l, op)
  {}

  ghost predicate AllKeep(y: System, l: Kernel, ops: seq<Operation>)
    requires Consistent(y, l) && AllAllowed(y, l, ops)
    decreases ops
  {
    ops == []
    || (KeepsAnchors(y, l, ops[0])
        && (PerformConsistent(y, l, ops[0]); AllKeep(Perform(y, l, ops[0]), l, ops[1..])))
  }

  /** Runs without SysMemalloc are such runs. */
  lemma {:induction false} WithoutMemalloc(y: System, l: Kernel, ops: seq<Operation>)
    requires Consistent(y, l) && AllAllowed(y, l, ops) && forall k :: 0 <= k < |ops| ==> !ops[k].Memalloc?
    ensures AllKeep(y, l, ops)
    decreases ops
  {
    hide Consistent, Perform, Allowed, KeepsAnchors;
    if ops != [] {
      PerformConsistent(y, l, ops[0]);
      KeepsAnyway(y, l, ops[0]);
      WithoutMemalloc(Perform(y, l, ops[0]), l, ops[1..]);
    }
  }

  lemma {:induction false} RunAnchored(y: System, l: Kernel, ops: seq<Operation>)
    requires Consistent(y, l) && AllAllowed(y, l, ops) && AllKeep(y, l, ops) && AllAnchored(y, l)
    ensures Consistent(PerformAll(y, l, ops), l) && AllAnchored(PerformAll(y, l, ops), l)
    decreases ops
  {
    hide Consistent, Perform, Allowed, KeepsAnchors, AllAnchored;
    if ops != [] {
      PerformConsistent(y, l, ops[0]);
      OperationAnchors(y, l, ops[0]);
      RunAnchored(Perform(y, l, ops[0]), l, ops[1..]);
    }
  }

  /** Isolation from the start. Begin with no space at all and let any run of creations, mappings and SysMemalloc calls
      that take no table away lead to some system: from there on, whatever is done for other spaces, a space that no
      operation is about translates every user address as it did. */
  lemma SpacesAreIsolated(m: Memory, l: Kernel, taken: set<nat>, before: seq<Operation>, ops: seq<Operation>, i: nat,
      v: word)
    requires Linked(m, l) && Reserved(taken, l) && v / PAGE_SIZE < KERNEL_PAGE
    requires var y := System(m, taken, []);
      AllAllowed(y, l, before) && AllKeep(y, l, before) && (RunConsistent(y, l, before);
      AllAllowed(PerformAll(y, l, before), l, ops))
    requires NotAbout(ops, i)
    ensures var y := PerformAll(System(m, taken, []), l, before);
      Consistent(y, l) && (i < |y.spaces| ==>
        var z := PerformAll(y, l, ops);
        i < |z.spaces| && z.spaces[i] == y.spaces[i]
        && Walk(z.m, y.spaces[i].frame, v) == Walk(y.m, y.spaces[i].frame, v))
  {
    hide PerformAll, AllAllowed, AllKeep, Walk, Linked, Reserved, NotAbout, Anchored;
    var y0 := System(m, taken, []);
    RunAnchored(y0, l, before);
    var y := PerformAll(y0, l, before);
    if i < |y.spaces| {
      assert SpaceAnchored(y.m, l, y.spaces[i]);
      assert Anchored(y.m, l, y.spaces[i], v / PAGE_SIZE / PAGES_PER_TABLE);
      AnchoredIsIsolated(y, l, ops, i, v);
    }
  }
}
