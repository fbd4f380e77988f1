/** What runs of programs keep of the images in memory, and the two things that destroy them. */
module ProgramSafety {
  import opened Bits
  import opened Options
  import opened PageEntry
  import opened PhysicalMemory
  import A = PhysicalAllocator
  import opened Paging
  import opened AddressSpace
  import opened CreateSpace
  import opened ProcessAllocator
  import opened Isolation
  import opened ElfLoader
  import opened ProgramPages
  import opened ProgramImages
  import opened ProgramEnd
  import opened ProgramRuns

  /** The images of all segments of program j are in place, but for the pages its own later segments took over. */
  ghost predicate Imaged(st: Store, l: Kernel, j: nat)
    requires j < |st.records|
  {
    forall k :: 0 <= k < |st.records[j].segments| ==> SegmentIn(st, l, st.records[j], k)
  }

  ghost predicate SegmentIn(st: Store, l: Kernel, r: Record, k: nat)
    requires k < |r.segments|
  {
    HasImage(st.memory, l, r.space, r.blocks, r.segments[k], Later(r.segments, k))
  }

  ghost predicate AllImaged(st: Store, l: Kernel)
  {
    forall j :: 0 <= j < |st.records| && !st.records[j].ended ==> Imaged(st, l, j)
  }

  // ---- Loading ----

  lemma LaunchImaged(st: Store, l: Kernel, gs: seq<Segment>)
    requires Kept(st, l) && AllImaged(st, l) && Possible(st, l, Launch(gs))
    ensures AllImaged(Step(st, l, Launch(gs)), l)
  {
    hide Consistent, LoadElf, RecordKept, BlocksKept, PagesKept, Program, FreeBlocks, BlocksNeeded, Homes, Perform,
      HasImage, Kept;
    KeptConsistent(st, l);
    var y := st.memory;
    var z := LoadElf(y, l, gs);
    if |z.spaces| != |y.spaces| {
      var st' := Step(st, l, Launch(gs));
      LoadElfLoads(y, l, gs);
      NewRecordKept(st, l, gs, Perform(y, l, NewSpace), z);
      forall j | 0 <= j < |st'.records| && !st'.records[j].ended ensures Imaged(st', l, j) {
        var r := st'.records[j];
        forall k | 0 <= k < |r.segments| ensures SegmentIn(st', l, r, k) {
          if j < |st.records| {
            assert Imaged(st, l, j);
            assert SegmentIn(st, l, st.records[j], k);
            LoadElfImages(y, l, gs, 0, r.space, r.blocks, r.segments[k], Later(r.segments, k));
          } else {
            LoadElfImages(y, l, gs, k, 0, {}, gs[k], {});
          }
        }
      }
    }
  }

  // ---- Ending ----

  lemma EndImaged(st: Store, l: Kernel, j: nat)
    requires Kept(st, l) && AllImaged(st, l) && Running(st, j) && Program(st.records[j].segments)
    requires Kept(Ended(st, l, j), l)
    ensures AllImaged(Ended(st, l, j), l)
  {
    hide Consistent, FreeProgram, Program, Holds, TableFramesOf, BlocksNeeded;
    var st' := Ended(st, l, j);
    forall i | 0 <= i < |st'.records| && !st'.records[i].ended ensures Imaged(st', l, i) {
      KeptRecord(st', l, i);
      assert Imaged(st, l, i);
      forall k | 0 <= k < |st.records[i].segments| ensures SegmentIn(st', l, st.records[i], k) {
        assert SegmentIn(st, l, st.records[i], k);
        SameSystemTables(st.memory, st'.memory, l);
      }
    }
  }

  lemma SameSystemTables(y: System, z: System, l: Kernel)
    requires z.m == y.m && z.spaces == y.spaces
    ensures TableFramesOf(z, l) == TableFramesOf(y, l)
  {
    hide Frames;
    SameTables(y, z, l);
  }

  // ---- SysMemalloc ----

  /** SysMemalloc for n pages does not take page q of s away: it does not put another block under it, and its table
      stays linked. */
  ghost predicate Leaves(m: Memory, l: Kernel, s: Process, n: word, q: nat)
    requires q < KERNEL_PAGE
  {
    match ClaimStart(UserPresence(m, l, s), n)
    case None => true
    case Some(p) =>
      var k := q / PAGES_PER_TABLE;
      !(p <= q < p + n) && (PaddingOnly(p, n, k) ==> FrameOf(m, l, s.tables + k) == s.tables + k - KERNEL_PAGE)
  }

  /** A call of SysMemalloc by program j leaves it all pages with bytes of its segments, as far as it had them. */
  ghost predicate Harmless(st: Store, l: Kernel, j: nat, n: word)
    requires j < |st.records| && RecordKept(st, l, st.records[j])
  {
    var r := st.records[j];
    forall i, k :: 0 <= i < |r.segments| && 0 <= k < r.segments[i].memsz ==>
      BytePage(r.segments[i], k) in Later(r.segments, i) || LeavesByte(st.memory, l, r.space, r.segments[i], n, k)
  }

  ghost predicate LeavesByte(y: System, l: Kernel, i: nat, g: Segment, n: word, k: nat)
    requires i < |y.spaces|
  {
    BytePage(g, k) < KERNEL_PAGE && Leaves(y.m, l, y.spaces[i], n, BytePage(g, k))
  }

  /** One byte of an image across SysMemalloc by its own process. */
  lemma ByteAcrossGrowth(y: System, l: Kernel, i: nat, blocks: set<nat>, g: Segment, n: word, k: nat)
    requires Consistent(y, l) && Allowed(y, l, Memalloc(i, n)) && UserSegment(g) && k < g.memsz && blocks <= y.taken
    requires HoldsByte(y.m, l, y.spaces[i], blocks, TableFramesOf(y, l), g, k)
    ensures var z := Perform(y, l, Memalloc(i, n));
      HoldsByte(z.m, l, y.spaces[i], blocks, TableFramesOf(z, l), g, k) <==> LeavesByte(y, l, i, g, n, k)
  {
    hide Consistent, Malloc, UserEntry, SameKernel, WithinFrames, Sound, Reserved, FreeBlocks, ClaimStart,
      UserPresence, TableLinked, TableFramesOf, ReadByte, PaddingOnly, FrameOf, Aimed, Enabled;
    var (m, s) := (y.m, y.spaces[i]);
    var q := (g.vaddr + k) / PAGE_SIZE;
    SegmentCovered(g, k);
    SoundMember(y, l, i);
    MallocIs(m, l, s, y.taken, n, q, q / PAGES_PER_TABLE);
    MallocDirectory(m, l, s, y.taken, n, q / PAGES_PER_TABLE);
    var m' := Perform(y, l, Memalloc(i, n)).m;
    MarkedPresent(UserEntry(m, l, s, q));
    GrowthKeepsTables(y, l, i, n);
    DataUntouched(y, l, i, m', HardwareFrame(UserEntry(m, l, s, q)), (g.vaddr + k) % PAGE_SIZE);
  }

  lemma GrowthKeepsTables(y: System, l: Kernel, i: nat, n: word)
    requires Consistent(y, l) && Allowed(y, l, Memalloc(i, n))
    ensures var z := Perform(y, l, Memalloc(i, n)); z.spaces == y.spaces && TableFramesOf(z, l) == TableFramesOf(y, l)
  {
    hide Consistent, Malloc, SameKernel, WithinFrames, Sound, Reserved, FreeBlocks, ClaimStart, UserPresence, Frames;
    MemallocWithin(y, l, i, n);
    var z := Perform(y, l, Memalloc(i, n));
    forall j | 0 <= j < |y.spaces| ensures Frames(z.m, l, y.spaces[j]) == Frames(y.m, l, y.spaces[j]) {
      SameKernelFrames(y.m, z.m, l, y.spaces[j]);
    }
    SameTables(y, z, l);
  }

  lemma DataUntouched(y: System, l: Kernel, i: nat, m': Memory, f: nat, o: nat)
    requires i < |y.spaces| && WithinFrames(y.m, m', l, y.spaces[i]) && f < FRAMES && o < PAGE_SIZE
    ensures f !in TableFramesOf(y, l) ==> ReadByte(m', f * PAGE_SIZE + o) == ReadByte(y.m, f * PAGE_SIZE + o)
  {
    hide Frames;
    SameFrameSameByte(y.m, m', f, o);
  }

  /** SysMemalloc keeps the images of the program that calls it if and only if it is harmless: a condition on the
      state before the call. */
  lemma GrowImagesExactly(st: Store, l: Kernel, j: nat, n: word)
    requires Kept(st, l) && Possible(st, l, Grow(j, n)) && Imaged(st, l, j)
    ensures RecordKept(st, l, st.records[j]) && (Imaged(Step(st, l, Grow(j, n)), l, j) <==> Harmless(st, l, j, n))
  {
    hide Consistent, Perform, Allowed, HoldsByte, TableFramesOf, UserSegment, LeavesByte, Kept, Injective,
      BlocksNeeded, MapsAny, Program;
    KeptRecord(st, l, j);
    KeptConsistent(st, l);
    var r := st.records[j];
    var (y, z) := (st.memory, Step(st, l, Grow(j, n)).memory);
    GrowthShape(y, l, r.space, n);
    BlocksTaken(st, l, j);
    forall i, k | 0 <= i < |r.segments| && 0 <= k < r.segments[i].memsz
      && BytePage(r.segments[i], k) !in Later(r.segments, i)
      ensures UserSegment(r.segments[i])
      ensures HoldsByte(z.m, l, y.spaces[r.space], r.blocks, TableFramesOf(z, l), r.segments[i], k)
              <==> LeavesByte(y, l, r.space, r.segments[i], n, k)
    {
      assert SegmentIn(st, l, r, i);
      ByteAcrossGrowth(y, l, r.space, r.blocks, r.segments[i], n, k);
    }
    forall i | 0 <= i < |r.segments|
      ensures SegmentIn(Step(st, l, Grow(j, n)), l, r, i)
              <==> forall k :: 0 <= k < r.segments[i].memsz ==>
                BytePage(r.segments[i], k) in Later(r.segments, i) || LeavesByte(y, l, r.space, r.segments[i], n, k)
    {
      assert SegmentIn(st, l, r, i);
    }
  }

  lemma BlocksTaken(st: Store, l: Kernel, j: nat)
    requires Kept(st, l) && Running(st, j)
    ensures st.records[j].blocks <= st.memory.taken
  {
    KeptRecord(st, l, j);
  }

  lemma GrowthShape(y: System, l: Kernel, i: nat, n: word)
    requires Consistent(y, l) && Allowed(y, l, Memalloc(i, n))
    ensures var z := Perform(y, l, Memalloc(i, n)); z.spaces == y.spaces && y.taken <= z.taken
  {
    hide Consistent, Malloc, SameKernel, WithinFrames, Sound, Reserved, FreeBlocks, ClaimStart, UserPresence;
    MemallocWithin(y, l, i, n);
  }

  /** And it always keeps the images of the others. */
  lemma GrowImagesOthers(st: Store, l: Kernel, j: nat, n: word, i: nat)
    requires Kept(st, l) && Possible(st, l, Grow(j, n)) && i < |st.records| && i != j && Imaged(st, l, i)
    ensures Imaged(Step(st, l, Grow(j, n)), l, i)
  {
    hide Consistent, Perform, Allowed, Holds, TableFramesOf, UserSegment, Injective, BlocksNeeded, MapsAny, Program,
      SameKernel, WithinFrames, Sound, Reserved, DataKept, Spares, UserEntry, HasImage;
    var (y, z) := (st.memory, Step(st, l, Grow(j, n)).memory);
    var (a, b) := (st.records[j].space, st.records[i].space);
    KeptRecord(st, l, i);
    KeptRecord(st, l, j);
    if i < j { assert Apart(st.records[i], st.records[j]); } else { assert Apart(st.records[j], st.records[i]); }
    MemallocWithin(y, l, a, n);
    WithinSpares(y, l, a, z.m, b);
    GrowthKeepsData(y, l, a, n);
    SoundMember(y, l, b);
    forall k | 0 <= k < |st.records[i].segments|
      ensures SegmentIn(Step(st, l, Grow(j, n)), l, st.records[i], k)
    {
      var h := st.records[i].segments[k];
      assert SegmentIn(st, l, st.records[i], k);
      ImageBounds(y, l, b, st.records[i].blocks, h, Later(st.records[i].segments, k));
      SegmentFits(h);
      forall q | FirstPage(h) <= q < FirstPage(h) + PageCount(h.memsz)
        ensures LeadsAsBefore(y.m, z.m, l, y.spaces[b], q)
      {
        SparedElsewhere(y.m, z.m, l, y.spaces[b], q);
      }
      ImageKept(y, z, l, b, st.records[i].blocks, h, Later(st.records[i].segments, k),
        Later(st.records[i].segments, k));
    }
  }

  lemma GrowthKeepsData(y: System, l: Kernel, i: nat, n: word)
    requires Consistent(y, l) && Allowed(y, l, Memalloc(i, n))
    ensures DataKept(y, Perform(y, l, Memalloc(i, n)), l)
  {
    hide Consistent, Malloc, Sound, Reserved, FreeBlocks, ClaimStart, UserPresence, Frames;
    MemallocWithin(y, l, i, n);
    GrowthKeepsTables(y, l, i, n);
    forall f | f in Frames(y.m, l, y.spaces[i]) ensures f in TableFramesOf(y, l) {}
  }

  // ---- Runs ----

  /** A program ends only while that hurts nobody, and none asks SysMemalloc for pages where that takes pages of its own
      segments away. Both can be seen before the event. */
  ghost predicate Careful(st: Store, l: Kernel, e: Event)
    requires Kept(st, l) && Possible(st, l, e)
  {
    Orderly(st, l, e) && (e.Grow? ==> (KeptRecord(st, l, e.j); Harmless(st, l, e.j, e.amount)))
  }

  /** The careful steps are exactly those that keep order and every image. */
  lemma CarefulStep(st: Store, l: Kernel, e: Event)
    requires Kept(st, l) && AllImaged(st, l) && Possible(st, l, e)
    ensures Kept(Step(st, l, e), l) && AllImaged(Step(st, l, e), l) <==> Careful(st, l, e)
  {
    hide Kept, AllImaged, Harmless, Step, HurtsNone, Ended, Program, Allowed, RecordKept, FreeBlocks, BlocksNeeded;
    StepKept(st, l, e);
    match e
    case Launch(gs) => LaunchImaged(st, l, gs);
    case End(j) => if Kept(Step(st, l, e), l) { EndStep(st, l, j); }
    case Grow(j, n) => KeptRecord(st, l, j); GrowImaged(st, l, j, n);
  }

  lemma EndStep(st: Store, l: Kernel, j: nat)
    requires Kept(st, l) && AllImaged(st, l) && Possible(st, l, End(j)) && Kept(Step(st, l, End(j)), l)
    ensures AllImaged(Step(st, l, End(j)), l)
  {
    hide Kept, AllImaged, Ended;
    RunningRecord(st, l, j);
    EndImaged(st, l, j);
  }

  lemma GrowImaged(st: Store, l: Kernel, j: nat, n: word)
    requires Kept(st, l) && AllImaged(st, l) && Possible(st, l, Grow(j, n)) && RecordKept(st, l, st.records[j])
    ensures AllImaged(Step(st, l, Grow(j, n)), l) <==> Harmless(st, l, j, n)
  {
    hide Kept, Imaged, Harmless, Perform, Allowed, RecordKept;
    GrowRecords(st, l, j, n);
    var st' := Step(st, l, Grow(j, n));
    assert Imaged(st, l, j);
    GrowImagesExactly(st, l, j, n);
    forall i | 0 <= i < |st'.records| && !st'.records[i].ended && i != j ensures Imaged(st', l, i) {
      GrowImagesOthers(st, l, j, n, i);
    }
  }

  lemma GrowRecords(st: Store, l: Kernel, j: nat, n: word)
    requires Kept(st, l) && Possible(st, l, Grow(j, n))
    ensures Step(st, l, Grow(j, n)).records == st.records
  {}

  // ---- What goes wrong otherwise ----

  /** A program loaded twice, with the first copy ended: EndProcess gives back every block under a page of the second
      copy, which still runs, and none of the first one's own. */
  lemma SecondCopyLosesBlocks(st: Store, st1: Store, st2: Store, l: Kernel, gs: seq<Segment>)
    requires Kept(st, l) && Possible(st, l, Launch(gs)) && st1 == Step(st, l, Launch(gs))
    requires |st1.records| > |st.records|
    requires Kept(st1, l) && Possible(st1, l, Launch(gs)) && st2 == Step(st1, l, Launch(gs))
    requires |st2.records| > |st1.records|
    ensures var i := |st.records|;
      |st2.records| == i + 2 && Running(st2, i) && Running(st2, i + 1) && Program(st2.records[i].segments)
      && var y := Ended(st2, l, i).memory; var home := st2.records[i + 1].home;
      Consistent(y, l) && y.taken == st2.memory.taken - home.Values
      && st2.records[i].blocks <= y.taken && |home.Values| == |PagesOf(gs)|
  {
    hide Consistent, RecordKept, BlocksKept, PagesKept, Perform, Possible, FreeProgram, LoadElf, Kept, Remapped,
      BlocksNeeded, Step, PagesOf, FramesIn, TableFramesOf;
    LaunchKept(st1, l, gs);
    var i := |st.records|;
    LaunchedRecords(st, l, gs);
    LaunchedRecords(st1, l, gs);
    KeptRecord(st2, l, i + 1);
    RunningRecord(st2, l, i);
    LastNotRemapped(st2, i + 1);
    FramesAtHome(st2, l, i + 1);
    HomeFits(st2, l, st2.records[i + 1]);
    assert st2.records[i] == st2.records[..i + 1][i];
    KeptConsistent(st2, l);
    EndTakes(st2, l, i);
    OwnBlocks(st2, l, i + 1);
    StillConsistent(st2.memory, l, st2.records[i + 1].home.Values);
    KeptApart(st2, l, i, i + 1);
  }

  lemma HomeFits(st: Store, l: Kernel, r: Record)
    requires RecordKept(st, l, r)
    ensures r.home.Values <= r.blocks && |r.home.Values| == |PagesOf(r.segments)|
  {
    hide PagesOf;
    HomeCount(r.home);
  }

  lemma LaunchedRecords(st: Store, l: Kernel, gs: seq<Segment>)
    requires Kept(st, l) && Possible(st, l, Launch(gs)) && |Step(st, l, Launch(gs)).records| > |st.records|
    ensures var st' := Step(st, l, Launch(gs));
      |st'.records| == |st.records| + 1 && st'.records[..|st.records|] == st.records
      && st'.records[|st.records|].segments == gs && !st'.records[|st.records|].ended
  {
    hide Consistent, LoadElf, Homes;
  }

  lemma LastNotRemapped(st: Store, j: nat)
    requires j + 1 == |st.records|
    ensures !Remapped(st, j)
  {}

  lemma KeptApart(st: Store, l: Kernel, i: nat, j: nat)
    requires Kept(st, l) && Running(st, i) && Running(st, j) && i < j
    ensures st.records[i].blocks !! st.records[j].blocks
    ensures st.records[i].blocks <= st.memory.taken && st.records[j].blocks <= st.memory.taken
  {
    KeptRecord(st, l, i);
    KeptRecord(st, l, j);
    assert Apart(st.records[i], st.records[j]);
  }

  /** The first page of a program, unless it is mapped again, sits on the first block free after its space was made. */
  lemma FirstPageBlock(y: System, l: Kernel, gs: seq<Segment>)
    requires Consistent(y, l) && Program(gs) && KERNEL_TABLE + 1 + BlocksNeeded(gs) <= |FreeBlocks(y.taken)|
    requires |LoadElf(y, l, gs).spaces| != |y.spaces| && gs != [] && gs[0].memsz > 0
    requires !MapsAny(gs[1..], FirstPage(gs[0]))
    ensures var x := Perform(y, l, NewSpace); var z := LoadElf(y, l, gs);
      |z.spaces| == |y.spaces| + 1 && FirstPage(gs[0]) < KERNEL_PAGE
      && Shared(z.m, l, z.spaces[|y.spaces|], FirstPage(gs[0]), A.AllocateBlock(x.taken).0)
  {
    hide Consistent, FreeBlocks, LoadInto, Create, Entry, TableFramesOf, LoadSegment, UserEntry, TableLinked,
      A.AllocateBlock, Perform, MapsAny, Shared, KeepsPage;
    var (x, i, g) := (Perform(y, l, NewSpace), |y.spaces|, gs[0]);
    PerformConsistent(y, l, NewSpace);
    Created(y, l);
    CreateFreeBlocks(y, l);
    SegmentBlock(x, l, i, g);
    var x1 := LoadInto(x, l, i, g);
    LoadConsistent(x, l, i, g);
    LoadIntoSpaces(x, l, i, g);
    PageAfterProgram(x1, l, i, gs[1..], FirstPage(g));
    SharedStays(x1.m, LoadElf(y, l, gs).m, l, x.spaces[i], FirstPage(g), A.AllocateBlock(x.taken).0);
  }

  lemma SegmentBlock(x: System, l: Kernel, i: nat, g: Segment)
    requires Consistent(x, l) && i < |x.spaces| && UserSegment(g) && PageCount(g.memsz) <= |FreeBlocks(x.taken)|
    ensures FirstPage(g) < KERNEL_PAGE
              && Shared(LoadInto(x, l, i, g).m, l, x.spaces[i], FirstPage(g), A.AllocateBlock(x.taken).0)
  {
    hide Consistent, FreeBlocks, LoadSegment, Ready, A.AllocateBlock, Shared;
    SpaceReady(x, l, i);
    SegmentFirstBlock(x.m, l, x.spaces[i], x.taken, g);
  }

  lemma SharedStays(m: Memory, m': Memory, l: Kernel, s: Process, p: nat, f: nat)
    requires p < KERNEL_PAGE && Shared(m, l, s, p, f) && KeepsPage(m, m', l, s, p)
    ensures Shared(m', l, s, p, f)
  {
    hide UserEntry, TableLinked;
  }

  /** The directory of a new space sits on the first free block. */
  lemma NewSpaceBlock(y: System, l: Kernel)
    requires Consistent(y, l) && Allowed(y, l, NewSpace) && Create(y.m, l, y.taken).Some?
    ensures var x := Perform(y, l, NewSpace);
      |x.spaces| == |y.spaces| + 1 && x.spaces[|y.spaces|].frame == A.AllocateBlock(y.taken).0
  {
    hide Consistent, FreeBlocks, ZeroPages, GrantUser, ShareKernel, BackPages, A.AllocateBlock;
  }

  /** A present directory entry has an odd first byte. */
  lemma DirectoryByteOdd(m: Memory, l: Kernel, s: Process, o: nat)
    requires Sound(m, l, s) && o < PAGE_SIZE && o % 4 == 0
    ensures ReadByte(m, s.frame * PAGE_SIZE + o) % 2 == 1
  {
    var (a, w) := (s.frame * PAGE_SIZE + o, m[s.frame][o / 4]);
    assert a / FRAME_BYTES == s.frame && a % FRAME_BYTES == o && a % 4 == 0;
    assert Present(w);
    assert w % 256 % 2 == w % 2;
  }

  /** Another space is read through the same tables after LoadELF. */
  lemma LoadElfKeepsPage(y: System, l: Kernel, gs: seq<Segment>, j: nat, q: nat)
    requires Consistent(y, l) && Program(gs) && KERNEL_TABLE + 1 + BlocksNeeded(gs) <= |FreeBlocks(y.taken)|
    requires |LoadElf(y, l, gs).spaces| != |y.spaces| && j < |y.spaces| && q < KERNEL_PAGE
    ensures var z := LoadElf(y, l, gs);
      |z.spaces| == |y.spaces| + 1 && z.spaces[j] == y.spaces[j] && LeadsAsBefore(y.m, z.m, l, y.spaces[j], q)
  {
    hide Consistent, FreeBlocks, LoadAllInto, Create, UserEntry, TableLinked, Spares, Sound;
    var x := Perform(y, l, NewSpace);
    PerformConsistent(y, l, NewSpace);
    Created(y, l);
    CreateFreeBlocks(y, l);
    CreateSpares(y, l, j);
    SoundMember(y, l, j);
    SparedElsewhere(y.m, x.m, l, y.spaces[j], q);
    LoadAllKeepsPage(x, l, |y.spaces|, gs, j, q);
  }

  /** The new page directory after LoadELF: the first block that was free, the first byte of every word odd. */
  lemma NewDirectoryBlock(y: System, l: Kernel, hs: seq<Segment>, o: nat)
    requires Consistent(y, l) && Program(hs) && KERNEL_TABLE + 1 + BlocksNeeded(hs) <= |FreeBlocks(y.taken)|
    requires |LoadElf(y, l, hs).spaces| != |y.spaces| && o < PAGE_SIZE && o % 4 == 0
    ensures var (z, f) := (LoadElf(y, l, hs), A.AllocateBlock(y.taken).0);
      Consistent(z, l) && f < FRAMES && ReadByte(z.m, f * PAGE_SIZE + o) % 2 == 1
  {
    hide Consistent, FreeBlocks, LoadAllInto, Create, Sound, ReadByte, A.AllocateBlock;
    PerformConsistent(y, l, NewSpace);
    Created(y, l);
    CreateFreeBlocks(y, l);
    NewSpaceBlock(y, l);
    LoadAllConsistent(Perform(y, l, NewSpace), l, |y.spaces|, hs);
    var z := LoadElf(y, l, hs);
    SoundMember(z, l, |y.spaces|);
    DirectoryByteOdd(z.m, l, z.spaces[|y.spaces|], o);
  }

  /** A shared page is translated to its frame, before and after. */
  lemma SharedWalks(m: Memory, m': Memory, l: Kernel, s: Process, v: word, f: nat)
    requires Sound(m, l, s) && Sound(m', l, s) && v / PAGE_SIZE < KERNEL_PAGE && Shared(m, l, s, v / PAGE_SIZE, f)
    requires LeadsAsBefore(m, m', l, s, v / PAGE_SIZE)
    ensures Walk(m, s.frame, v) == Walk(m', s.frame, v) == Some(f * PAGE_SIZE + v % PAGE_SIZE)
  {
    hide Linked, Backed, Directed, Walk, UserEntry, TableLinked, WalkedEntry;
    SoundParts(m, l, s);
    SoundParts(m', l, s);
    UserWalk(m, l, s, v);
    UserWalk(m', l, s, v);
  }

  /** Freeing a program's pages right after it was loaded frees the block under each of them, and none that was taken
      before, whoever they are freed for. */
  lemma FreedAtOnce(y1: System, y2: System, y: System, l: Kernel, gs: seq<Segment>)
    requires Consistent(y1, l) && Program(gs) && KERNEL_TABLE + 1 + BlocksNeeded(gs) <= |FreeBlocks(y1.taken)|
    requires y2 == LoadElf(y1, l, gs) && |y2.spaces| != |y1.spaces|
    requires y == y2.(taken := FreeProgram(y2.m, l, y2.taken, gs))
    ensures Perform(y1, l, NewSpace).taken <= y.taken && Consistent(y, l)
    ensures forall q :: q in PagesOf(gs) && q < PAGES ==> FrameOf(y2.m, l, q) !in y.taken
  {
    hide LoadElf, FreeBlocks, BlocksNeeded, FreeProgram, Perform, PagesOf, Linked, Sound, Frames, EntryAfter, Program,
      FrameOf, DataKept;
    LoadElfLoads(y1, l, gs);
    ProgramSegments(gs);
    FreeProgramIs(y2.m, l, y2.taken, gs);
    forall i | 0 <= i < |y2.spaces| ensures Frames(y2.m, l, y2.spaces[i]) <= y.taken {
      forall f | f in Frames(y2.m, l, y2.spaces[i]) ensures f in TableFramesOf(y2, l) {}
    }
  }

  /** The first free block is the first free block of any larger set of taken ones that leaves it free. */
  lemma FirstFreeStays(taken: set<nat>, more: set<nat>)
    requires taken <= more && 0 in taken && A.AllocateBlock(taken).0 !in more
    ensures A.AllocateBlock(more).0 == A.AllocateBlock(taken).0
  {
    var b := A.AllocateBlock(taken).0;
    A.AllocationFails(taken);
    A.LeastFreeIs(more, b);
  }

  lemma ProgramSegments(gs: seq<Segment>)
    requires Program(gs)
    ensures forall i :: 0 <= i < |gs| ==> UserSegment(gs[i])
  {}

  /** LoadELF of these segments, called in system y, returns and leaves z. */
  ghost predicate LoadedTo(y: System, l: Kernel, gs: seq<Segment>, z: System)
  {
    Consistent(y, l) && Program(gs) && KERNEL_TABLE + 1 + BlocksNeeded(gs) <= |FreeBlocks(y.taken)|
    && z == LoadElf(y, l, gs) && |z.spaces| != |y.spaces|
  }

  /** At v the processor finds the same address in both memories of s, and in the second one no longer the byte b. */
  ghost predicate Lost(m: Memory, m': Memory, s: Process, v: word, b: byte)
  {
    Walk(m', s.frame, v) == Walk(m, s.frame, v) && Walk(m', s.frame, v).Some?
    && ReadByte(m', Walk(m', s.frame, v).value) != b
  }

  /** So the next program loaded gets a block of the running second copy for its page directory. From any system: load
      a program (y1) and load it again (y2), end the first copy (y), load any program (z). The second copy still runs,
      and every byte at the start of a word of its first page is gone, if it was even and its own later segments left
      the page alone. */
  lemma {:induction false} RunningByteGone(y0: System, y1: System, y2: System, y: System, z: System, l: Kernel,
      gs: seq<Segment>, hs: seq<Segment>, k: nat)
    requires gs != [] && k < gs[0].memsz && BytePage(gs[0], k) == FirstPage(gs[0]) && (gs[0].vaddr + k) % 4 == 0
    requires ImageByte(gs[0], k) % 2 == 0 && Program(gs) && !MapsAny(gs[1..], FirstPage(gs[0]))
    requires y == y2.(taken := FreeProgram(y2.m, l, y2.taken, gs))
    requires LoadedTo(y0, l, gs, y1) && LoadedTo(y1, l, gs, y2) && LoadedTo(y, l, hs, z)
    ensures |y2.spaces| == |y1.spaces| + 1 && gs[0].vaddr + k < WORD
    ensures Lost(y2.m, z.m, y2.spaces[|y1.spaces|], gs[0].vaddr + k, ImageByte(gs[0], k))
  {
    hide Consistent, LoadElf, FreeBlocks, BlocksNeeded, Walk, ReadByte, Sound, FreeProgram, A.AllocateBlock, Program,
      MapsAny, PagesOf, Shared, LeadsAsBefore, HasImage, UserSegment, Lost, ImageByte;
    var g, j, v, f := gs[0], |y1.spaces|, gs[0].vaddr + k, A.AllocateBlock(y.taken).0;
    ProgramSegments(gs);
    SegmentCovered(g, k);
    SecondCopyBlock(y1, y2, y, l, gs);
    WordStart(v);
    NewDirectoryBlock(y, l, hs, v % PAGE_SIZE);
    LoadElfKeepsPage(y, l, hs, j, FirstPage(g));
    SoundMember(y2, l, j);
    SoundMember(z, l, j);
    SharedWalks(y2.m, z.m, l, y2.spaces[j], v, f);
    OddIsLost(y2.m, z.m, y2.spaces[j], v, ImageByte(g, k), f * PAGE_SIZE + v % PAGE_SIZE);
  }

  lemma WordStart(v: nat)
    requires v % 4 == 0
    ensures v % PAGE_SIZE % 4 == 0
  {}

  lemma OddIsLost(m: Memory, m': Memory, s: Process, v: word, b: byte, a: nat)
    requires Walk(m, s.frame, v) == Walk(m', s.frame, v) == Some(a) && a < WORD && ReadByte(m', a) % 2 == 1
    requires b % 2 == 0
    ensures Lost(m, m', s, v, b)
  {
    hide Walk, ReadByte;
  }

  /** The first block free after the first copy ended is the one under the first page of the second. */
  lemma SecondCopyBlock(y1: System, y2: System, y: System, l: Kernel, gs: seq<Segment>)
    requires LoadedTo(y1, l, gs, y2) && gs != [] && gs[0].memsz > 0 && !MapsAny(gs[1..], FirstPage(gs[0]))
    requires y == y2.(taken := FreeProgram(y2.m, l, y2.taken, gs))
    ensures |y2.spaces| == |y1.spaces| + 1 && Consistent(y2, l) && Consistent(y, l) && FirstPage(gs[0]) < KERNEL_PAGE
    ensures Shared(y2.m, l, y2.spaces[|y1.spaces|], FirstPage(gs[0]), A.AllocateBlock(y.taken).0)
  {
    hide Consistent, LoadElf, FreeBlocks, BlocksNeeded, UserEntry, TableLinked, Entry, FreeProgram, Perform,
      A.AllocateBlock, Program, FrameOf, MapsAny, PagesOf, HasImage;
    ProgramSegments(gs);
    FirstPageBlock(y1, l, gs);
    FreedAtOnce(y1, y2, y, l, gs);
    FirstMapped(gs);
    SpaceTaken(y1, l);
    FirstFreeStays(Perform(y1, l, NewSpace).taken, y.taken);
    LoadElfImages(y1, l, gs, 0, 0, {}, gs[0], {});
  }

  lemma FirstMapped(gs: seq<Segment>)
    requires gs != [] && gs[0].memsz > 0 && UserSegment(gs[0])
    ensures FirstPage(gs[0]) in PagesOf(gs)
  {
    assert MapsPage(gs[0], FirstPage(gs[0]));
  }

  lemma SpaceTaken(y: System, l: Kernel)
    requires Consistent(y, l) && Allowed(y, l, NewSpace)
    ensures 0 in Perform(y, l, NewSpace).taken
  {
    hide Perform, Linked, Sound, Frames, FreeBlocks;
    PerformConsistent(y, l, NewSpace);
  }
}
