/** CreateAddressSpace (paging.cpp), step by step, and what the new space and the old ones are worth. */
module CreateSpace {
  import opened Bits
  import opened Options
  import opened PageEntry
  import opened PhysicalMemory
  import opened PhysicalAllocator
  import opened Paging
  import opened RunAllocator
  import opened AddressSpace

  // (sizeof(page_table_t) * 768 + 1) / PAGE_SIZE pages for the tables below 0xC0000000.
  const TABLE_PAGES: word := (PAGE_SIZE * KERNEL_TABLE + 1) / PAGE_SIZE

  /** A physical block mapped at kernel page p. */
  function BackPage(m: Memory, l: Kernel, taken: set<nat>, p: nat): (Memory, set<nat>)
    requires p < PAGES
  {
    var (b, t) := AllocateBlock(taken);
    (MapPage(m, l, b * PAGE_SIZE, p * PAGE_SIZE), t)
  }

  function BackPages(m: Memory, l: Kernel, taken: set<nat>, p: nat, count: nat): (Memory, set<nat>)
    requires p + count <= PAGES
    decreases count, p
  {
    if count == 0 then (m, taken)
    else
      var (m1, t1) := BackPage(m, l, taken, p);
      BackPages(m1, l, t1, p + 1, count - 1)
  }

  /** memset of kernel page p to 0. */
  function ZeroPage(m: Memory, l: Kernel, p: nat): Memory
    requires p < PAGES
  {
    m[FrameOf(m, l, p) := ZeroFrame()]
  }

  function ZeroPages(m: Memory, l: Kernel, p: nat, count: nat): Memory
    requires p + count <= PAGES
    decreases count, p
  {
    if count == 0 then m else ZeroPages(ZeroPage(m, l, p), l, p + 1, count - 1)
  }

  /** Directory entries i to 1023 of the directory at kernel page p pointed at the kernel's tables. */
  function ShareKernel(m: Memory, l: Kernel, p: nat, i: nat): Memory
    requires p < PAGES && i <= TABLES
    decreases TABLES - i, p
  {
    if i == TABLES then m
    else
      var f := FrameOf(m, l, p);
      ShareKernel(Put(m, f, i, MapEntry(m[f][i], (l.tables + i) * PAGE_SIZE)), l, p, i + 1)
  }

  /** Directory entries i to 767 made present, writable and user accessible. */
  function GrantUser(m: Memory, l: Kernel, p: nat, i: nat): Memory
    requires p < PAGES && i <= KERNEL_TABLE
    decreases KERNEL_TABLE - i, p
  {
    if i == KERNEL_TABLE then m
    else
      var f := FrameOf(m, l, p);
      GrantUser(Put(m, f, i, SetFlags(m[f][i], PRESENT + WRITABLE + USER)), l, p, i + 1)
  }

  /** The directory: a fresh kernel page backed by a block, cleared, with the kernel's half shared. */
  function MakeDirectory(m: Memory, l: Kernel, taken: set<nat>): Option<(nat, nat, Memory, set<nat>)>
  {
    match KernelAllocate(m, l, 1)
    case None => None
    case Some((address, m1)) =>
      var d := address / PAGE_SIZE;
      var (b, t) := AllocateBlock(taken);
      Some((d, b, ShareKernel(ZeroPage(BackPage(m1, l, taken, d).0, l, d), l, d, KERNEL_TABLE), t))
  }

  /** The tables: 768 kernel pages, each backed by a block. */
  function MakeTables(m: Memory, l: Kernel, taken: set<nat>): Option<(nat, Memory, set<nat>)>
  {
    KernelAllocateReserves(m, l, TABLE_PAGES);
    match KernelAllocate(m, l, TABLE_PAGES)
    case None => None
    case Some((address, m1)) =>
      var t := address / PAGE_SIZE;
      var (m2, taken2) := BackPages(m1, l, taken, t, KERNEL_TABLE);
      Some((t, m2, taken2))
  }

  /** The new space, memory and taken blocks. None where the kernel runs out of pages and spins. */
  function Create(m: Memory, l: Kernel, taken: set<nat>): Option<(Space, Memory, set<nat>)>
  {
    match MakeDirectory(m, l, taken)
    case None => None
    case Some((d, b, m1, taken1)) =>
      match MakeTables(m1, l, taken1)
      case None => None
      case Some((t, m2, taken2)) =>
        TablesFit(m1, l, taken1); DirectoryFits(m, l, taken);
        Some((Space(d, b, t), ZeroPages(GrantUser(m2, l, d, 0), l, t, KERNEL_TABLE), taken2))
  }

  lemma TablesFit(m: Memory, l: Kernel, taken: set<nat>)
    ensures MakeTables(m, l, taken).Some? ==>
      KERNEL_PAGE < MakeTables(m, l, taken).value.0 && MakeTables(m, l, taken).value.0 + KERNEL_TABLE <= PAGES
  {
    KernelAllocateReserves(m, l, TABLE_PAGES);
  }

  lemma DirectoryFits(m: Memory, l: Kernel, taken: set<nat>)
    ensures MakeDirectory(m, l, taken).Some? ==>
      KERNEL_PAGE < MakeDirectory(m, l, taken).value.0 < PAGES && MakeDirectory(m, l, taken).value.1 < FRAMES
  {
    KernelAllocateReserves(m, l, 1);
  }

  // ---- What the rest of the system keeps while a space is being made ----

  ghost function FreeBlocks(taken: set<nat>): set<nat>
  {
    set i: nat | i < BLOCKS && i !in taken
  }

  /** Block 0, the kernel image and everything from 2 GiB up are not for allocation. */
  ghost predicate Reserved(taken: set<nat>, l: Kernel)
  {
    0 in taken && (forall f :: 0 <= f < FRAMES && l.Holds(f) ==> f in taken)
    && (forall f :: 0x8_0000 <= f < FRAMES ==> f in taken)
  }

  /** Frames taken, other than the kernel's tables, are untouched. */
  ghost predicate Untouched(m: Memory, m': Memory, l: Kernel, taken: set<nat>)
  {
    forall f :: 0 <= f < FRAMES && f in taken && !l.Holds(f) ==> m'[f] == m[f]
  }

  /** From m with some blocks taken to m': kernel pages that were present keep their frames, frames that
      were taken keep their contents, and no block is given back. */
  ghost predicate Grows(m: Memory, taken: set<nat>, m': Memory, taken': set<nat>, l: Kernel)
  {
    Linked(m', l) && KeepsMappings(m, m', l) && Untouched(m, m', l, taken) && taken <= taken' && Reserved(taken', l)
  }

  lemma GrowsTrans(m: Memory, t: set<nat>, m1: Memory, t1: set<nat>, m2: Memory, t2: set<nat>, l: Kernel)
    requires Grows(m, t, m1, t1, l) && Grows(m1, t1, m2, t2, l)
    ensures Grows(m, t, m2, t2, l)
  {
    hide Linked, Reserved;
  }

  lemma ReserveGrows(m: Memory, l: Kernel, n: word, taken: set<nat>)
    requires Linked(m, l) && Reserved(taken, l) && n + 1 < WORD && KernelAllocate(m, l, n).Some?
    ensures var (address, m') := KernelAllocate(m, l, n).value;
      Grows(m, taken, m', taken, l) && Reserves(m, m', l, address / PAGE_SIZE, n)
  {
    var (address, m') := KernelAllocate(m, l, n).value;
    assert Linked(m', l) by {
      KernelRunBound(m, l, n);
      MarkRunLinked(m, l, KernelRun(m, l, n).value.0, KernelRun(m, l, n).value.1);
    }
    assert Reserves(m, m', l, address / PAGE_SIZE, n) by { KernelAllocateReserves(m, l, n); }
    ReservesKeeps(m, m', l, address / PAGE_SIZE, n);
  }

  lemma ReservesKeeps(m: Memory, m': Memory, l: Kernel, first: nat, n: nat)
    requires Reserves(m, m', l, first, n)
    ensures KeepsMappings(m, m', l)
  {
    forall q | 0 <= q < PAGES && Present(Entry(m, l, q))
      ensures Present(Entry(m', l, q)) && FrameOf(m', l, q) == FrameOf(m, l, q)
    {
      SetWritableIs(Entry(m, l, q));
      SetFlagsIs(Entry(m, l, q), PRESENT + WRITABLE);
    }
  }

  /** A fresh block is none of the reserved ones. */
  lemma FreshBlock(taken: set<nat>, l: Kernel)
    requires Reserved(taken, l) && FreeBlocks(taken) != {}
    ensures var (b, t) := AllocateBlock(taken);
      0 < b < 0x8_0000 && b !in taken && t == taken + {b} && !l.Holds(b) && Reserved(t, l)
      && FreeBlocks(t) == FreeBlocks(taken) - {b} && b in FreeBlocks(taken)
  {
    var (b, t) := AllocateBlock(taken);
    var x :| x in FreeBlocks(taken);
    AllocationFails(taken);
  }

  /** The count kernel pages from p on are present in m', on as many different frames that were free. */
  ghost predicate BackedFresh(m: Memory, m': Memory, l: Kernel, taken: set<nat>, taken': set<nat>, p: nat, count: nat)
  {
    p + count <= PAGES && SameElsewhere(m, m', l)
    && (forall q :: 0 <= q < PAGES && !(p <= q < p + count) ==> Entry(m', l, q) == Entry(m, l, q))
    && (forall q :: p <= q < p + count ==>
         Present(Entry(m', l, q)) && FrameOf(m', l, q) !in taken && FrameOf(m', l, q) in taken')
    && (forall q, r :: p <= q < r < p + count ==> FrameOf(m', l, q) != FrameOf(m', l, r))
  }

  lemma BackPageIs(m: Memory, l: Kernel, taken: set<nat>, p: nat)
    requires Linked(m, l) && Reserved(taken, l) && FreeBlocks(taken) != {} && p < PAGES
    ensures var (m', taken') := BackPage(m, l, taken, p);
      Linked(m', l) && BackedFresh(m, m', l, taken, taken', p, 1)
      && FrameOf(m', l, p) == AllocateBlock(taken).0
  {
    hide Linked, Reserved, FreeBlocks, MapPage, MapEntry;
    var b := AllocateBlock(taken).0;
    FreshBlock(taken, l);
    assert p * PAGE_SIZE / PAGE_SIZE == p;
    MapPageIs(m, l, b * PAGE_SIZE, p * PAGE_SIZE);
    EntryBelow(m, l, p);
    MapEntryIs(Entry(m, l, p), b * PAGE_SIZE);
    MapPageLinked(m, l, b * PAGE_SIZE, p * PAGE_SIZE);
  }

  lemma {:induction false} BackPagesIs(m: Memory, l: Kernel, taken: set<nat>, p: nat, count: nat)
    requires Linked(m, l) && Reserved(taken, l) && count <= |FreeBlocks(taken)| && p + count <= PAGES
    ensures var (m', taken') := BackPages(m, l, taken, p, count);
      Linked(m', l) && BackedFresh(m, m', l, taken, taken', p, count) && taken <= taken' && Reserved(taken', l)
      && |FreeBlocks(taken')| == |FreeBlocks(taken)| - count
    decreases count
  {
    hide Linked, Reserved, FreeBlocks, BackPage, BackedFresh;
    if count == 0 {
      BackNone(m, l, taken, p);
    } else {
      FreshBlock(taken, l);
      BackPageIs(m, l, taken, p);
      var (m1, t1) := BackPage(m, l, taken, p);
      assert t1 == AllocateBlock(taken).1 by { BackPageTaken(m, l, taken, p); }
      BackPagesIs(m1, l, t1, p + 1, count - 1);
      var (m', taken') := BackPages(m1, l, t1, p + 1, count - 1);
      BackMore(m, m1, m', l, taken, t1, taken', p, count);
    }
  }

  lemma BackPageTaken(m: Memory, l: Kernel, taken: set<nat>, p: nat)
    requires p < PAGES
    ensures BackPage(m, l, taken, p).1 == AllocateBlock(taken).1
  {}

  lemma BackNone(m: Memory, l: Kernel, taken: set<nat>, p: nat)
    requires p <= PAGES
    ensures BackedFresh(m, m, l, taken, taken, p, 0)
  {}

  lemma BackMore(m: Memory, m1: Memory, m': Memory, l: Kernel, t: set<nat>, t1: set<nat>, t': set<nat>, p: nat,
      count: nat)
    requires count > 0 && BackedFresh(m, m1, l, t, t1, p, 1) && BackedFresh(m1, m', l, t1, t', p + 1, count - 1)
    requires t <= t1 <= t'
    ensures BackedFresh(m, m', l, t, t', p, count)
  {}

  // ---- Filling the new frames ----

  ghost predicate OnlyFrame(m: Memory, m': Memory, f: nat)
  {
    forall g :: 0 <= g < FRAMES && g != f ==> m'[g] == m[g]
  }

  lemma OnlyFrameKeepsKernel(m: Memory, m': Memory, l: Kernel, f: nat)
    requires OnlyFrame(m, m', f) && !l.Holds(f)
    ensures SameKernel(m, m', l)
    ensures forall q :: 0 <= q < PAGES ==> Entry(m', l, q) == Entry(m, l, q)
    ensures Linked(m, l) ==> Linked(m', l)
  {
    KernelSame(m, m', l);
  }

  lemma {:induction false} ShareKernelIs(m: Memory, l: Kernel, p: nat, i: nat, f: nat)
    requires p < PAGES && i <= TABLES && f == FrameOf(m, l, p) && !l.Holds(f)
    ensures var m' := ShareKernel(m, l, p, i);
      OnlyFrame(m, m', f)
      && forall k :: 0 <= k < TABLES ==>
        m'[f][k] == if k >= i then MapEntry(m[f][k], (l.tables + k) * PAGE_SIZE) else m[f][k]
    decreases TABLES - i
  {
    if i < TABLES {
      var m1 := Put(m, f, i, MapEntry(m[f][i], (l.tables + i) * PAGE_SIZE));
      OnlyFrameKeepsKernel(m, m1, l, f);
      ShareKernelIs(m1, l, p, i + 1, f);
    }
  }

  lemma {:induction false} GrantUserIs(m: Memory, l: Kernel, p: nat, i: nat, f: nat)
    requires p < PAGES && i <= KERNEL_TABLE && f == FrameOf(m, l, p) && !l.Holds(f)
    ensures var m' := GrantUser(m, l, p, i);
      OnlyFrame(m, m', f)
      && forall k :: 0 <= k < TABLES ==>
           m'[f][k] == if i <= k < KERNEL_TABLE then SetFlags(m[f][k], PRESENT + WRITABLE + USER) else m[f][k]
    decreases KERNEL_TABLE - i
  {
    if i < KERNEL_TABLE {
      var m1 := Put(m, f, i, SetFlags(m[f][i], PRESENT + WRITABLE + USER));
      OnlyFrameKeepsKernel(m, m1, l, f);
      GrantUserIs(m1, l, p, i + 1, f);
    }
  }

  /** The frames of count kernel pages. */
  ghost function RunFrames(m: Memory, l: Kernel, p: nat, count: nat): set<nat>
    requires p + count <= PAGES
  {
    set q: nat | p <= q < p + count :: FrameOf(m, l, q)
  }

  /** Clearing pages none of whose frames belong to the kernel clears their frames and no other. */
  lemma {:induction false} ZeroPagesIs(m: Memory, l: Kernel, p: nat, count: nat)
    requires p + count <= PAGES && forall f :: f in RunFrames(m, l, p, count) ==> !l.Holds(f)
    ensures forall g :: 0 <= g < FRAMES ==>
      ZeroPages(m, l, p, count)[g] == if g in RunFrames(m, l, p, count) then ZeroFrame() else m[g]
    decreases count
  {
    hide RunFrames, Linked, FrameOf;
    if count == 0 {
      NoFrames(m, l, p);
    } else {
      var m1 := ZeroPage(m, l, p);
      ZeroPageKeeps(m, l, p, count);
      ZeroPagesIs(m1, l, p + 1, count - 1);
    }
  }

  lemma NoFrames(m: Memory, l: Kernel, p: nat)
    requires p <= PAGES
    ensures RunFrames(m, l, p, 0) == {}
  {}

  lemma ZeroPageKeeps(m: Memory, l: Kernel, p: nat, count: nat)
    requires 0 < count && p + count <= PAGES && forall f :: f in RunFrames(m, l, p, count) ==> !l.Holds(f)
    ensures RunFrames(m, l, p, count) == {FrameOf(m, l, p)} + RunFrames(ZeroPage(m, l, p), l, p + 1, count - 1)
  {
    var m1 := ZeroPage(m, l, p);
    assert FrameOf(m, l, p) in RunFrames(m, l, p, count);
    OnlyFrameKeepsKernel(m, m1, l, FrameOf(m, l, p));
    RunFramesSplit(m, m1, l, p, count);
  }

  lemma RunFramesSplit(m: Memory, m1: Memory, l: Kernel, p: nat, count: nat)
    requires 0 < count && p + count <= PAGES
    requires forall q :: 0 <= q < PAGES ==> Entry(m1, l, q) == Entry(m, l, q)
    ensures RunFrames(m, l, p, count) == {FrameOf(m, l, p)} + RunFrames(m1, l, p + 1, count - 1)
  {
    forall f | f in RunFrames(m, l, p, count) ensures f in {FrameOf(m, l, p)} + RunFrames(m1, l, p + 1, count - 1) {
      var q: nat :| p <= q < p + count && f == FrameOf(m, l, q);
      assert q > p ==> f == FrameOf(m1, l, q);
    }
    forall f | f in RunFrames(m1, l, p + 1, count - 1) ensures f in RunFrames(m, l, p, count) {
      var q: nat :| p + 1 <= q < p + count && f == FrameOf(m1, l, q);
      assert f == FrameOf(m, l, q);
    }
  }

  // ---- The steps of CreateAddressSpace ----

  lemma FillGrows(m: Memory, t: set<nat>, m1: Memory, t1: set<nat>, m2: Memory, l: Kernel, f: nat)
    requires Grows(m, t, m1, t1, l) && OnlyFrame(m1, m2, f) && f !in t && !l.Holds(f)
    ensures Grows(m, t, m2, t1, l)
  {
    hide Linked, Reserved;
    OnlyFrameKeepsKernel(m1, m2, l, f);
  }

  lemma BackGrows(m: Memory, t: set<nat>, m1: Memory, t1: set<nat>, m2: Memory, t2: set<nat>, l: Kernel, p: nat,
      count: nat)
    requires Grows(m, t, m1, t1, l) && BackedFresh(m1, m2, l, t1, t2, p, count)
    requires forall q :: p <= q < p + count ==> !Present(Entry(m, l, q))
    requires Linked(m2, l) && t1 <= t2 && Reserved(t2, l)
    ensures Grows(m, t, m2, t2, l)
  {
    hide Linked, Reserved;
  }

  /** The directory just made: its page was absent, its frame was free, and only its kernel half is filled. */
  ghost predicate FreshDirectory(m: Memory, m': Memory, l: Kernel, taken: set<nat>, taken': set<nat>, d: nat, f: nat)
  {
    KERNEL_PAGE < d < PAGES && f < FRAMES && Present(Entry(m', l, d)) && FrameOf(m', l, d) == f
    && f !in taken && f in taken' && !l.Holds(f)
    && forall k :: 0 <= k < TABLES ==>
      m'[f][k] == if k >= KERNEL_TABLE then MapEntry(0, (l.tables + k) * PAGE_SIZE) else 0
  }

  lemma MakeDirectoryIs(m: Memory, l: Kernel, taken: set<nat>)
    requires Linked(m, l) && Reserved(taken, l) && FreeBlocks(taken) != {} && MakeDirectory(m, l, taken).Some?
    ensures var (d, b, m', taken') := MakeDirectory(m, l, taken).value;
      Grows(m, taken, m', taken', l) && FreshDirectory(m, m', l, taken, taken', d, b)
      && |FreeBlocks(taken')| == |FreeBlocks(taken)| - 1
  {
    hide Linked, Reserved, FreeBlocks, Grows, FreshDirectory, BackPage;
    var (address, m1) := KernelAllocate(m, l, 1).value;
    var d := address / PAGE_SIZE;
    ReserveGrows(m, l, 1, taken);
    FreshBlock(taken, l);
    GrowsLinked(m, taken, m1, taken, l);
    BackPageIs(m1, l, taken, d);
    BackPageTaken(m1, l, taken, d);
    var (m2, t) := BackPage(m1, l, taken, d);
    BackGrows(m, taken, m1, taken, m2, t, l, d, 1);
    FillDirectory(m, taken, m2, t, l, d, AllocateBlock(taken).0);
  }

  lemma GrowsLinked(m: Memory, t: set<nat>, m1: Memory, t1: set<nat>, l: Kernel)
    requires Grows(m, t, m1, t1, l)
    ensures Linked(m1, l) && Reserved(t1, l) && t <= t1
  {}

  lemma FillDirectory(m: Memory, t: set<nat>, m1: Memory, t1: set<nat>, l: Kernel, d: nat, f: nat)
    requires Grows(m, t, m1, t1, l) && KERNEL_PAGE < d < PAGES && FrameOf(m1, l, d) == f && Present(Entry(m1, l, d))
    requires f !in t && f in t1 && !l.Holds(f)
    ensures var m' := ShareKernel(ZeroPage(m1, l, d), l, d, KERNEL_TABLE);
      Grows(m, t, m', t1, l) && FreshDirectory(m, m', l, t, t1, d, f)
  {
    hide Linked, Reserved, Grows, ShareKernel;
    var m2 := ZeroPage(m1, l, d);
    OnlyFrameKeepsKernel(m1, m2, l, f);
    ShareKernelIs(m2, l, d, KERNEL_TABLE, f);
    var m3 := ShareKernel(m2, l, d, KERNEL_TABLE);
    OnlyFrameKeepsKernel(m2, m3, l, f);
    FillGrows(m, t, m1, t1, m3, l, f);
  }

  /** The tables just made: their pages were absent and their frames are different and were free. */
  ghost predicate FreshTables(m: Memory, m': Memory, l: Kernel, taken: set<nat>, taken': set<nat>, p: nat)
  {
    KERNEL_PAGE < p && p + KERNEL_TABLE <= PAGES
    && (forall q :: p <= q < p + KERNEL_TABLE ==>
         !Present(Entry(m, l, q)) && Present(Entry(m', l, q)) && FrameOf(m', l, q) !in taken
         && FrameOf(m', l, q) in taken')
    && (forall q, r :: p <= q < r < p + KERNEL_TABLE ==> FrameOf(m', l, q) != FrameOf(m', l, r))
  }

  lemma MakeTablesIs(m: Memory, l: Kernel, taken: set<nat>)
    requires Linked(m, l) && Reserved(taken, l) && KERNEL_TABLE <= |FreeBlocks(taken)| && MakeTables(m, l, taken).Some?
    ensures var (p, m', taken') := MakeTables(m, l, taken).value;
      Grows(m, taken, m', taken', l) && FreshTables(m, m', l, taken, taken', p)
      && |FreeBlocks(taken')| == |FreeBlocks(taken)| - KERNEL_TABLE
  {
    hide Linked, Reserved, FreeBlocks, Grows, BackPages;
    var (address, m1) := KernelAllocate(m, l, TABLE_PAGES).value;
    var p := address / PAGE_SIZE;
    ReserveGrows(m, l, TABLE_PAGES, taken);
    GrowsLinked(m, taken, m1, taken, l);
    BackPagesIs(m1, l, taken, p, KERNEL_TABLE);
    var (m2, t) := BackPages(m1, l, taken, p, KERNEL_TABLE);
    BackGrows(m, taken, m1, taken, m2, t, l, p, KERNEL_TABLE);
  }

  // ---- The new space ----

  /** A space all of whose frames were free and are taken now, its tables empty; its directory entries for them hold
      nothing but the flags present, writable and user, those above name the kernel's tables. */
  ghost predicate NewSpace(m: Memory, l: Kernel, taken: set<nat>, taken': set<nat>, s: Process)
  {
    Sound(m, l, s) && (forall f :: f in Frames(m, l, s) ==> f !in taken && f in taken')
    && (forall k :: 0 <= k < TABLES ==> m[s.frame][k] == if k < 768 then 7 else (l.tables + k) * PAGE_SIZE + 3)
    && forall q :: 0 <= q < KERNEL_PAGE ==> UserEntry(m, l, s, q) == 0
  }

  /** CreateAddressSpace with enough free blocks makes a sound, empty space in frames that were free, gives every
      kernel page that was present the same frame as before, and leaves the frames taken before alone. */
  lemma CreateIs(m: Memory, l: Kernel, taken: set<nat>)
    requires Linked(m, l) && Reserved(taken, l) && KERNEL_TABLE < |FreeBlocks(taken)| && Create(m, l, taken).Some?
    ensures var (s, m', taken') := Create(m, l, taken).value;
      s.Valid() && Grows(m, taken, m', taken', l) && NewSpace(m', l, taken, taken', s)
      && |FreeBlocks(taken')| == |FreeBlocks(taken)| - KERNEL_TABLE - 1
  {
    hide Linked, Reserved, FreeBlocks, Grows, MakeDirectory, MakeTables, FreshDirectory, FreshTables, GrantUser,
      ZeroPages;
    var (d, b, m1, t1) := MakeDirectory(m, l, taken).value;
    assert FreeBlocks(taken) != {};
    MakeDirectoryIs(m, l, taken);
    GrowsLinked(m, taken, m1, t1, l);
    var (p, m2, t2) := MakeTables(m1, l, t1).value;
    MakeTablesIs(m1, l, t1);
    GrowsTrans(m, taken, m1, t1, m2, t2, l);
    FinishSpace(m, l, taken, m1, t1, m2, t2, d, b, p);
  }

  /** The pages of the space being made are backed by distinct frames that were free. */
  lemma NewBacked(m: Memory, l: Kernel, taken: set<nat>, m1: Memory, t1: set<nat>, m2: Memory, t2: set<nat>, s: Space)
    requires Reserved(taken, l) && taken <= t1 && Reserved(t1, l)
    requires FreshDirectory(m, m1, l, taken, t1, s.directory, s.frame)
    requires Grows(m1, t1, m2, t2, l) && FreshTables(m1, m2, l, t1, t2, s.tables)
    ensures s.Valid() && Backed(m2, l, s)
    ensures forall f :: f in Frames(m2, l, s) ==> f !in taken && f in t2
  {
    hide Linked;
    assert FrameOf(m2, l, s.directory) == s.frame && Present(Entry(m2, l, s.directory));
  }

  lemma ZeroTables(m: Memory, l: Kernel, s: Process)
    requires Backed(m, l, s)
    ensures var m' := ZeroPages(m, l, s.tables, KERNEL_TABLE);
      SameKernel(m, m', l) && m'[s.frame] == m[s.frame] && WithinFrames(m, m', l, s)
      && forall q :: 0 <= q < KERNEL_PAGE ==> UserEntry(m', l, s, q) == 0
  {
    hide ZeroPages, RunFrames, Frames, Backed, UserEntry;
    var m' := ZeroPages(m, l, s.tables, KERNEL_TABLE);
    TableFrames(m, l, s);
    ZeroPagesIs(m, l, s.tables, KERNEL_TABLE);
    KernelSame(m, m', l);
    forall q | 0 <= q < KERNEL_PAGE ensures UserEntry(m', l, s, q) == 0 {
      ZeroEntry(m, m', l, s, q);
    }
  }

  lemma ZeroEntry(m: Memory, m': Memory, l: Kernel, s: Process, q: nat)
    requires q < KERNEL_PAGE
    requires forall p :: 0 <= p < PAGES ==> Entry(m', l, p) == Entry(m, l, p)
    requires forall g :: 0 <= g < FRAMES && g in RunFrames(m, l, s.tables, KERNEL_TABLE) ==> m'[g] == ZeroFrame()
    ensures UserEntry(m', l, s, q) == 0
  {
    assert FrameOf(m, l, s.tables + q / PAGES_PER_TABLE) in RunFrames(m, l, s.tables, KERNEL_TABLE);
  }

  lemma TableFrames(m: Memory, l: Kernel, s: Process)
    requires Backed(m, l, s)
    ensures s.frame !in RunFrames(m, l, s.tables, KERNEL_TABLE)
    ensures forall f :: f in RunFrames(m, l, s.tables, KERNEL_TABLE) ==> !l.Holds(f) && f in Frames(m, l, s)
  {
    forall f | f in RunFrames(m, l, s.tables, KERNEL_TABLE)
      ensures !l.Holds(f) && f != s.frame && f in Frames(m, l, s)
    {
      var q: nat :| s.tables <= q < s.tables + KERNEL_TABLE && f == FrameOf(m, l, q);
      assert Owns(s, q) && Owns(s, s.directory);
    }
  }

  /** The directory of a new space: user entries present at frame 0, kernel entries at the kernel's tables. */
  lemma NewDirectory(m: Memory, l: Kernel, s: Process, w: Frame)
    requires s.frame == FrameOf(m, l, s.directory)
    requires forall q :: 0 <= q < KERNEL_PAGE ==> UserEntry(m, l, s, q) == 0
    requires forall k :: 0 <= k < TABLES ==>
      w[k] == if k >= KERNEL_TABLE then MapEntry(0, (l.tables + k) * PAGE_SIZE) else 0
    requires forall k :: 0 <= k < TABLES ==>
      m[s.frame][k] == if 0 <= k < KERNEL_TABLE then SetFlags(w[k], PRESENT + WRITABLE + USER) else w[k]
    ensures Directed(m, l, s)
    ensures forall k :: 0 <= k < TABLES ==> m[s.frame][k] == if k < 768 then 7 else (l.tables + k) * PAGE_SIZE + 3
  {
    hide MapEntry, SetFlags;
    SetWritableIs(0);
    forall k | 0 <= k < TABLES
      ensures m[s.frame][k] == if k < 768 then 7 else (l.tables + k) * PAGE_SIZE + 3
      ensures Present(m[s.frame][k]) && m[s.frame][k] < HIGH && Granted(m[s.frame][k], k)
      ensures k >= KERNEL_TABLE ==> HardwareFrame(m[s.frame][k]) == l.tables + k
    {
      if k >= KERNEL_TABLE { MappedEmpty(l.tables + k); }
    }
  }

  /** Mapping a frame into an empty entry leaves the frame's address with the flags present and writable. */
  lemma MappedEmpty(f: nat)
    requires f < 0x8_0000
    ensures var e := MapEntry(0, f * PAGE_SIZE);
      e == f * PAGE_SIZE + 3 && e < HIGH && Present(e) && e % 4 == 3 && HardwareFrame(e) == f
  {
    hide MapEntry;
    MapEntryIs(0, f * PAGE_SIZE);
    TwelveBits(MapEntry(0, f * PAGE_SIZE));
  }

  lemma WithinGrows(m: Memory, t: set<nat>, m1: Memory, t1: set<nat>, m2: Memory, l: Kernel, s: Process)
    requires Grows(m, t, m1, t1, l) && SameKernel(m1, m2, l) && WithinFrames(m1, m2, l, s)
    requires forall f :: f in Frames(m1, l, s) ==> f !in t
    ensures Grows(m, t, m2, t1, l)
  {
    hide Linked, Reserved, Frames;
    SameKernelKeeps(m1, m2, l, s);
  }

  lemma GrantWithin(m: Memory, l: Kernel, s: Process)
    requires Backed(m, l, s)
    ensures var m' := GrantUser(m, l, s.directory, 0);
      SameKernel(m, m', l) && Backed(m', l, s) && WithinFrames(m, m', l, s)
      && forall k :: 0 <= k < TABLES ==>
           m'[s.frame][k]
             == if 0 <= k < KERNEL_TABLE then SetFlags(m[s.frame][k], PRESENT + WRITABLE + USER) else m[s.frame][k]
  {
    hide GrantUser;
    var m' := GrantUser(m, l, s.directory, 0);
    assert Owns(s, s.directory);
    GrantUserIs(m, l, s.directory, 0, s.frame);
    OnlyFrameKeepsKernel(m, m', l, s.frame);
    SameKernelKeeps(m, m', l, s);
  }

  lemma WithinTrans(m: Memory, m1: Memory, m2: Memory, l: Kernel, s: Process)
    requires SameKernel(m, m1, l) && WithinFrames(m, m1, l, s) && SameKernel(m1, m2, l) && WithinFrames(m1, m2, l, s)
    ensures SameKernel(m, m2, l) && WithinFrames(m, m2, l, s) && Frames(m2, l, s) == Frames(m, l, s)
  {
    SameKernelKeeps(m, m1, l, s);
    SameKernelKeeps(m1, m2, l, s);
    assert Frames(m1, l, s) == Frames(m, l, s);
  }

  lemma FinishSpace(m: Memory, l: Kernel, taken: set<nat>, m1: Memory, t1: set<nat>, m2: Memory, t2: set<nat>, d: nat,
      b: nat, p: nat)
    requires Reserved(taken, l) && Grows(m, taken, m1, t1, l) && FreshDirectory(m, m1, l, taken, t1, d, b)
    requires Grows(m1, t1, m2, t2, l) && FreshTables(m1, m2, l, t1, t2, p) && Grows(m, taken, m2, t2, l)
    ensures var s := Space(d, b, p); var m' := ZeroPages(GrantUser(m2, l, d, 0), l, p, KERNEL_TABLE);
      s.Valid() && Grows(m, taken, m', t2, l) && NewSpace(m', l, taken, t2, s)
  {
    var sp := Space(d, b, p);
    GrowsLinked(m, taken, m1, t1, l);
    NewBacked(m, l, taken, m1, t1, m2, t2, sp);
    var s: Process := sp;
    assert m2[b] == m1[b] && !l.Holds(b);
    var w := m1[b];
    assert forall k :: 0 <= k < TABLES ==>
      w[k] == if k >= KERNEL_TABLE then MapEntry(0, (l.tables + k) * PAGE_SIZE) else 0;
    ClearSpace(m, l, taken, m2, t2, s, w);
  }

  lemma ClearSpace(m: Memory, l: Kernel, taken: set<nat>, m2: Memory, t2: set<nat>, s: Process, w: Frame)
    requires Grows(m, taken, m2, t2, l) && Backed(m2, l, s) && m2[s.frame] == w
    requires forall f :: f in Frames(m2, l, s) ==> f !in taken && f in t2
    requires forall k :: 0 <= k < TABLES ==>
      w[k] == if k >= KERNEL_TABLE then MapEntry(0, (l.tables + k) * PAGE_SIZE) else 0
    ensures var m' := ZeroPages(GrantUser(m2, l, s.directory, 0), l, s.tables, KERNEL_TABLE);
      Grows(m, taken, m', t2, l) && NewSpace(m', l, taken, t2, s)
  {
    hide Linked, Reserved, FreeBlocks, GrantUser, ZeroPages, Grows, Backed, Frames, UserEntry, Directed, SameKernel,
      WithinFrames;
    GrantWithin(m2, l, s);
    var m3 := GrantUser(m2, l, s.directory, 0);
    ZeroTables(m3, l, s);
    var m' := ZeroPages(m3, l, s.tables, KERNEL_TABLE);
    SameKernelKeeps(m3, m', l, s);
    DirectoryFrame(m', l, s);
    NewDirectory(m', l, s, w);
    WithinTrans(m2, m3, m', l, s);
    WithinGrows(m, taken, m2, t2, m', l, s);
    GrowsLinked(m, taken, m', t2, l);
  }

  lemma DirectoryFrame(m: Memory, l: Kernel, s: Process)
    requires Backed(m, l, s)
    ensures s.frame == FrameOf(m, l, s.directory)
  {}

  /** The user half of a new space is not empty: its directory entries are present with frame 0, so the
      processor takes physical frame 0 for the page table of every user address. A user address faults
      exactly when the word it selects there is not present. */
  lemma NewSpaceReadsFrameZero(m: Memory, l: Kernel, taken: set<nat>, v: word)
    requires Linked(m, l) && Reserved(taken, l) && KERNEL_TABLE < |FreeBlocks(taken)|
    requires v / PAGE_SIZE < KERNEL_PAGE
    ensures var r := Create(m, l, taken);
      r.Some? ==>
        var (s, m', taken') := r.value;
        s.Valid() && (Walk(m', s.frame, v) == None <==> !Present(m[0][v / PAGE_SIZE % PAGES_PER_TABLE]))
  {
    hide Create, FreeBlocks, Linked, Reserved, Backed, Walk;
    if Create(m, l, taken).Some? {
      var (s, m', taken') := Create(m, l, taken).value;
      CreateIs(m, l, taken);
      FrameZeroUntouched(m, l, taken, m', taken');
      UserWalk(m', l, s, v);
    }
  }

  lemma FrameZeroUntouched(m: Memory, l: Kernel, taken: set<nat>, m': Memory, taken': set<nat>)
    requires Reserved(taken, l) && Grows(m, taken, m', taken', l)
    ensures m'[0] == m[0]
  {}

  // ---- When it returns ----

  /** Each of the two reservations returns if and only if there is a run of absent kernel pages for it, with one page
      more than it asks for. */
  lemma StepsReturn(m: Memory, l: Kernel, taken: set<nat>)
    ensures MakeDirectory(m, l, taken).Some? <==> HasKernelRun(m, l, 2)
    ensures MakeTables(m, l, taken).Some? <==> HasKernelRun(m, l, KERNEL_TABLE + 1)
  {
    KernelAllocateReserves(m, l, 1);
    KernelAllocateReserves(m, l, TABLE_PAGES);
  }

  /** CreateAddressSpace returns if and only if both do, the second after the first. */
  lemma CreateReturns(m: Memory, l: Kernel, taken: set<nat>)
    ensures var r := MakeDirectory(m, l, taken);
      (r.Some? <==> HasKernelRun(m, l, 2))
      && (Create(m, l, taken).Some? <==> r.Some? && HasKernelRun(r.value.2, l, KERNEL_TABLE + 1))
  {
    hide MakeDirectory, MakeTables, GrantUser, ZeroPages;
    StepsReturn(m, l, taken);
    if MakeDirectory(m, l, taken).Some? {
      var (_, _, m1, t1) := MakeDirectory(m, l, taken).value;
      StepsReturn(m1, l, t1);
    }
  }

  /** The first reservation makes two pages present at most, the page of the directory and the one below. */
  lemma DirectoryPages(m: Memory, l: Kernel, taken: set<nat>, q: nat)
    requires Linked(m, l) && Reserved(taken, l) && FreeBlocks(taken) != {} && MakeDirectory(m, l, taken).Some?
    requires q < PAGES && !Present(Entry(m, l, q))
    ensures var (d, b, m', taken') := MakeDirectory(m, l, taken).value;
      q + 1 != d && q != d ==> !Present(Entry(m', l, q))
  {
    hide Linked, Reserved, FreeBlocks, Grows, FreshDirectory, BackPage, ShareKernel;
    var (address, m1) := KernelAllocate(m, l, 1).value;
    var d := address / PAGE_SIZE;
    KernelAllocateReserves(m, l, 1);
    ReserveGrows(m, l, 1, taken);
    GrowsLinked(m, taken, m1, taken, l);
    FreshBlock(taken, l);
    BackPageIs(m1, l, taken, d);
    BackPageTaken(m1, l, taken, d);
    var m2 := BackPage(m1, l, taken, d).0;
    var f := AllocateBlock(taken).0;
    var m3 := ZeroPage(m2, l, d);
    OnlyFrameKeepsKernel(m2, m3, l, f);
    ShareKernelIs(m3, l, d, KERNEL_TABLE, f);
    OnlyFrameKeepsKernel(m3, ShareKernel(m3, l, d, KERNEL_TABLE), l, f);
  }

  /** So 771 absent pages in a row anywhere are enough. The tables then start no later than three pages into them, on
      pages that were absent. */
  lemma CreateFits(m: Memory, l: Kernel, taken: set<nat>, q: nat)
    requires Linked(m, l) && Reserved(taken, l) && KERNEL_TABLE < |FreeBlocks(taken)|
    requires KERNEL_PAGE <= q && FreeRun(KernelPresence(m, l), q, KERNEL_TABLE + 3)
    ensures Create(m, l, taken).Some?
    ensures var t := Create(m, l, taken).value.0.tables;
      KERNEL_PAGE < t <= q + 3 && t < PAGES && !Present(Entry(m, l, t))
  {
    hide Linked, Reserved, FreeBlocks, MakeDirectory, MakeTables, GrantUser, ZeroPages, Grows;
    assert FreeBlocks(taken) != {};
    FreeRunPart(KernelPresence(m, l), q, KERNEL_TABLE + 3, 0, 2);
    DirectoryFirst(m, l, taken, q);
    MakeDirectoryIs(m, l, taken);
    var (d, b, m1, t1) := MakeDirectory(m, l, taken).value;
    forall r | q + 2 <= r < q + 2 + KERNEL_TABLE + 1 ensures !KernelPresence(m1, l)[r] {
      assert !KernelPresence(m, l)[r];
      DirectoryPages(m, l, taken, r);
    }
    TablesFirst(m1, l, t1, q + 2);
    GrowsLinked(m, taken, m1, t1, l);
    MakeTablesIs(m1, l, t1);
    CreateReturns(m, l, taken);
    StillPresent(m, taken, m1, t1, l, Create(m, l, taken).value.0.tables);
  }

  lemma StillPresent(m: Memory, t: set<nat>, m1: Memory, t1: set<nat>, l: Kernel, p: nat)
    requires Grows(m, t, m1, t1, l) && p < PAGES && !Present(Entry(m1, l, p))
    ensures !Present(Entry(m, l, p))
  {
    hide Linked, Reserved;
  }

  lemma FreeRunPart(present: seq<bool>, q: nat, n: nat, a: nat, b: nat)
    requires FreeRun(present, q, n) && a + b <= n
    ensures FreeRun(present, q + a, b)
  {}

  lemma DirectoryFirst(m: Memory, l: Kernel, taken: set<nat>, q: nat)
    requires KERNEL_PAGE <= q && FreeRun(KernelPresence(m, l), q, 2)
    ensures MakeDirectory(m, l, taken).Some? && MakeDirectory(m, l, taken).value.0 <= q + 1
    ensures HasKernelRun(m, l, 2)
  {
    KernelAllocateFirst(m, l, 1, q);
  }

  lemma TablesFirst(m: Memory, l: Kernel, taken: set<nat>, q: nat)
    requires KERNEL_PAGE <= q && FreeRun(KernelPresence(m, l), q, KERNEL_TABLE + 1)
    ensures MakeTables(m, l, taken).Some? && MakeTables(m, l, taken).value.0 <= q + 1
    ensures HasKernelRun(m, l, KERNEL_TABLE + 1)
  {
    KernelAllocateFirst(m, l, TABLE_PAGES, q);
  }
}
