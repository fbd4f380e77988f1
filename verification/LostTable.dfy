/** A program that loses a table of live pages to SysMemalloc, from boot on. */
module LostTable {
  import opened Bits
  import opened Options
  import opened PageEntry
  import opened PhysicalMemory
  import A = PhysicalAllocator
  import opened Paging
  import K = RunAllocator
  import opened AddressSpace
  import opened CreateSpace
  import U = ProcessAllocator
  import opened Isolation
  import opened ElfLoader
  import opened ProgramPages
  import opened ProgramImages
  import opened ProgramEnd
  import opened ProgramRuns
  import opened ProgramSafety

  // The kernel image: 16 MiB mapped at 0xC0000000, with its tables and its directory.
  const IMAGE_PAGES := 0x1000
  const TABLE_FRAME := 0x100
  const DIRECTORY_FRAME := 0x500
  const FIRST_FREE := 0x2000

  function Image(): Kernel { Layout(TABLE_FRAME, DIRECTORY_FRAME) }

  function KernelWord(p: nat): word
  {
    if KERNEL_PAGE <= p < KERNEL_PAGE + IMAGE_PAGES then (p - KERNEL_PAGE) * PAGE_SIZE + 3 else 0
  }

  function Word(f: nat, j: nat): word
    requires j < FRAME_WORDS
  {
    if f == DIRECTORY_FRAME then (TABLE_FRAME + j) * PAGE_SIZE + 3
    else if TABLE_FRAME <= f < TABLE_FRAME + TABLES then KernelWord((f - TABLE_FRAME) * PAGES_PER_TABLE + j)
    else 0
  }

  function Words(f: nat): Frame { seq(FRAME_WORDS, j requires 0 <= j < FRAME_WORDS => Word(f, j)) }

  /** Memory with the kernel's own mappings only. */
  function Booted(): Memory { seq<Frame>(FRAMES, f requires 0 <= f < FRAMES => Words(f)) }

  /** The first 32 MiB and everything from 2 GiB up are taken. */
  function Taken(): set<nat> { set b: nat | b < A.BLOCKS && InUse(b) }

  predicate InUse(b: nat) { b < FIRST_FREE || b >= 0x8_0000 }

  /** No program yet. */
  function Start(): Store { Store(System(Booted(), Taken(), []), []) }

  // ---- The state at boot ----

  lemma WordAt(f: nat, j: nat)
    requires f < FRAMES && j < FRAME_WORDS
    ensures Booted()[f][j] == Word(f, j)
  {
    hide Word;
  }

  lemma KernelEntries(p: nat)
    requires p < PAGES
    ensures Entry(Booted(), Image(), p) == KernelWord(p)
  {
    hide KernelWord, Booted;
    WordAt(TABLE_FRAME + p / PAGES_PER_TABLE, p % PAGES_PER_TABLE);
    assert p / PAGES_PER_TABLE * PAGES_PER_TABLE + p % PAGES_PER_TABLE == p;
  }

  lemma BootedLinked()
    ensures Linked(Booted(), Image()) && Reserved(Taken(), Image())
  {
    hide Booted, Entry;
    var m, l := Booted(), Image();
    forall p | 0 <= p < PAGES ensures Entry(m, l, p) < HIGH && Present(m[l.directory][p / PAGES_PER_TABLE]) {
      KernelEntries(p);
      WordAt(DIRECTORY_FRAME, p / PAGES_PER_TABLE);
    }
    forall k | 0 <= k < TABLES ensures m[l.directory][k] < HIGH && HardwareFrame(m[l.directory][k]) == l.tables + k {
      WordAt(DIRECTORY_FRAME, k);
    }
  }

  lemma ManyFree()
    ensures 4000 <= |FreeBlocks(Taken())|
  {
    hide FreeBlocks;
    var some := U.PageRange(FIRST_FREE, 4000);
    RangeCount(FIRST_FREE, 4000);
    assert some <= FreeBlocks(Taken()) by { SomeFree(); }
    Subset(some, FreeBlocks(Taken()));
  }

  lemma SomeFree()
    ensures U.PageRange(FIRST_FREE, 4000) <= FreeBlocks(Taken())
  {}

  lemma Subset(a: set<nat>, b: set<nat>)
    requires a <= b
    ensures |a| <= |b|
  {
    assert a + (b - a) == b;
  }

  lemma ImagePages(p: nat)
    requires KERNEL_PAGE <= p < PAGES
    ensures Present(Entry(Booted(), Image(), p)) <==> p < KERNEL_PAGE + IMAGE_PAGES
  {
    hide Entry, Booted;
    KernelEntries(p);
  }

  lemma RoomBehind()
    ensures K.FreeRun(K.KernelPresence(Booted(), Image()), KERNEL_PAGE + IMAGE_PAGES, KERNEL_TABLE + 3)
  {
    hide Entry, Booted;
    var q: nat := KERNEL_PAGE + IMAGE_PAGES;
    forall p | q <= p < q + KERNEL_TABLE + 3 ensures !K.KernelPresence(Booted(), Image())[p] { ImagePages(p); }
  }

  // ---- The program ----

  /** Two segments that fill pages 0 to 1022 and 1026 to 1527: the three pages between them lie on both sides of the
      border of tables 0 and 1. */
  function Segments(): seq<Segment>
  {
    [Segment(0, 1021 * PAGE_SIZE, []), Segment(1026 * PAGE_SIZE, 500 * PAGE_SIZE, [])]
  }

  lemma SegmentsAre()
    ensures Program(Segments()) && BlocksNeeded(Segments()) == 1525
    ensures forall q: nat :: MapsAny(Segments(), q) <==> q < 1023 || 1026 <= q < 1528
  {
    var gs := Segments();
    assert gs[1..][1..] == [] && gs[1..][0] == gs[1];
    assert BlocksNeeded(gs[1..][1..]) == 0;
    forall q: nat ensures MapsAny(gs, q) <==> q < 1023 || 1026 <= q < 1528 {
      assert MapsPage(gs[0], q) <==> q < 1023;
      assert MapsPage(gs[1], q) <==> 1026 <= q < 1528;
    }
  }

  /** It can be loaded from the start, and LoadELF returns. */
  lemma Launches()
    ensures Kept(Start(), Image()) && Possible(Start(), Image(), Launch(Segments())) && AllImaged(Start(), Image())
    ensures Consistent(Start().memory, Image()) && Program(Segments())
    ensures var z := LoadElf(Start().memory, Image(), Segments());
      |z.spaces| == 1 && KERNEL_PAGE + IMAGE_PAGES <= z.spaces[0].tables <= KERNEL_PAGE + IMAGE_PAGES + 3
  {
    hide Booted, Taken, Linked, Reserved, FreeBlocks, Program, BlocksNeeded, LoadAllInto, Create, K.KernelPresence;
    BootedLinked();
    ManyFree();
    SegmentsAre();
    EmptyKept(Booted(), Image(), Taken());
    RoomBehind();
    CreateFits(Booted(), Image(), Taken(), KERNEL_PAGE + IMAGE_PAGES);
    var y := Start().memory;
    KeptConsistent(Start(), Image());
    CreateFreeBlocks(y, Image());
    ImagePages(Create(Booted(), Image(), Taken()).value.0.tables);
  }

  ghost function LoadedSystem(): System
  {
    Launches();
    LoadElf(Start().memory, Image(), Segments())
  }

  /** The program is loaded. */
  ghost function AfterLoad(): Store
  {
    Launches();
    Step(Start(), Image(), Launch(Segments()))
  }

  lemma LoadedIs()
    ensures var st := AfterLoad();
      Kept(st, Image()) && AllImaged(st, Image()) && |st.records| == 1 && Running(st, 0)
      && st.records[0].segments == Segments() && st.records[0].space == 0 && |st.memory.spaces| == 1
      && st.memory == LoadedSystem()
  {
    hide Booted, Taken, LoadElf, Segments, Image, Kept, AllImaged, Step, Possible;
    Launches();
    LaunchReturns(Start(), Image(), Segments());
  }

  lemma LaunchReturns(st: Store, l: Kernel, gs: seq<Segment>)
    requires Kept(st, l) && Possible(st, l, Launch(gs)) && AllImaged(st, l) && Consistent(st.memory, l) && Program(gs)
    requires |LoadElf(st.memory, l, gs).spaces| == |st.memory.spaces| + 1
    ensures var st' := Step(st, l, Launch(gs)); var n := |st.records|;
      Kept(st', l) && AllImaged(st', l) && |st'.records| == n + 1 && Running(st', n)
      && st'.records[n].segments == gs && st'.records[n].space == |st.memory.spaces|
      && st'.memory == LoadElf(st.memory, l, gs)
  {
    hide LoadElf, Kept, AllImaged, Homes, Program, FreeBlocks, BlocksNeeded, Consistent, Perform;
    LaunchKept(st, l, gs);
    LaunchImaged(st, l, gs);
  }

  /** Where a claim of one page starts: on page 1022, with its padding in table 1. */
  lemma HoleFound()
    ensures var st := AfterLoad();
      |st.memory.spaces| == 1
      && U.ClaimStart(U.UserPresence(st.memory.m, Image(), st.memory.spaces[0]), 1) == Some(1022)
  {
    hide AfterLoad, UserEntry, LoadElf, MapsAny, Consistent, FreeBlocks, BlocksNeeded, Program, U.ClaimStart,
      TableLinked, Booted, Taken, Segments, Kept, Image;
    LoadedIs();
    Launches();
    SegmentsAre();
    KeptConsistent(Start(), Image());
    var (m, s) := (AfterLoad().memory.m, AfterLoad().memory.spaces[0]);
    var present := U.UserPresence(m, Image(), s);
    forall q: nat | q < KERNEL_PAGE ensures present[q] <==> q < 1023 || 1026 <= q < 1528 {
      LoadElfPresence(Start().memory, Image(), Segments(), q);
    }
    HoleIs(present);
  }

  lemma HoleIs(present: seq<bool>)
    requires |present| == KERNEL_PAGE
    requires forall q: nat :: q < KERNEL_PAGE ==> (present[q] <==> q < 1023 || 1026 <= q < 1528)
    ensures U.ClaimStart(present, 1) == Some(1022)
  {
    hide U.ClaimStart;
    assert present[0] && !K.FreeRun(present, 0, 3);
    assert K.FreeRun(present, 1023, 3);
    forall q: nat | q <= 1022 ensures !K.FreeRun(present, q, 3) { assert present[q]; }
    assert U.StartsAt(present, 1, 1022);
    U.UserRunIs(present, 1);
  }

  /** The frame with the number of table 1's kernel page holds zeros and belongs to nobody, table 1 has another one. */
  lemma WrittenNumber()
    ensures var st := AfterLoad();
      |st.memory.spaces| == 1
      && var s := st.memory.spaces[0]; var x := s.tables + 1 - KERNEL_PAGE;
      FIRST_FREE <= FrameOf(st.memory.m, Image(), s.tables + 1) && x < FIRST_FREE
      && st.memory.m[x] == ZeroFrame() && x !in Frames(st.memory.m, Image(), s)
  {
    hide AfterLoad, LoadElf, Consistent, FreeBlocks, BlocksNeeded, Program, Booted, Segments, Kept, Frames, DataKept,
      TableFramesOf, EntryAfter, FrameOf, Entry, FramesIn, PagesOf, Create;
    LoadedIs();
    Launches();
    SegmentsAre();
    KeptConsistent(Start(), Image());
    var y := Start().memory;
    LoadElfLoads(y, Image(), Segments());
    var z := AfterLoad().memory;
    var s := z.spaces[0];
    var x := s.tables + 1 - KERNEL_PAGE;
    OwnFrames(z);
    ZeroWords(x);
    NoTables(y);
    UntouchedFrame(y, z, x);
  }

  lemma NoTables(y: System)
    requires y.spaces == []
    ensures TableFramesOf(y, Image()) == {}
  {}

  lemma UntouchedFrame(y: System, z: System, f: nat)
    requires DataKept(y, z, Image()) && f in y.taken && f < FRAMES && !Image().Holds(f)
    requires TableFramesOf(y, Image()) == {}
    ensures z.m[f] == y.m[f]
  {}

  lemma ZeroWords(f: nat)
    requires f < FRAMES && f != DIRECTORY_FRAME && !(TABLE_FRAME <= f < TABLE_FRAME + TABLES)
    ensures Booted()[f] == ZeroFrame()
  {
    hide Booted;
    forall j | 0 <= j < FRAME_WORDS ensures Booted()[f][j] == 0 { WordAt(f, j); }
  }

  /** The frames of the program's space were free at boot. */
  lemma OwnFrames(z: System)
    requires z == AfterLoad().memory && |z.spaces| == 1
    ensures forall f :: f in Frames(z.m, Image(), z.spaces[0]) ==> f !in Taken() && f < FRAMES
    ensures FrameOf(z.m, Image(), z.spaces[0].tables + 1) in Frames(z.m, Image(), z.spaces[0])
  {
    hide AfterLoad, Consistent, FreeBlocks, BlocksNeeded, Program, Booted, Taken, Segments, Kept, Create, LoadAllInto,
      Linked, Reserved, Sound, FrameOf, Grows;
    LoadedIs();
    Launches();
    SegmentsAre();
    var y := Start().memory;
    KeptConsistent(Start(), Image());
    BootedLinked();
    var x := Perform(y, Image(), NewSpace);
    PerformConsistent(y, Image(), NewSpace);
    Created(y, Image());
    CreateFreeBlocks(y, Image());
    CreateIs(y.m, Image(), y.taken);
    LoadAllConsistent(x, Image(), 0, Segments());
    LoadAllGrows(x, Image(), 0, Segments());
    OneSpace(x, Image());
    OneSpace(z, Image());
    assert Owns(z.spaces[0], z.spaces[0].tables + 1);
  }

  lemma OneSpace(y: System, l: Kernel)
    requires |y.spaces| == 1
    ensures TableFramesOf(y, l) == Frames(y.m, l, y.spaces[0])
  {
    hide Frames;
  }

  // ---- The call ----

  lemma CallPossible()
    ensures Kept(AfterLoad(), Image()) && Possible(AfterLoad(), Image(), Grow(0, 1))
  {
    hide AfterLoad, Kept, LoadElf, Booted, Taken, Segments, FreeBlocks, Consistent, Program, BlocksNeeded, AllImaged,
      U.ClaimStart, U.UserPresence;
    LoadedIs();
    HoleFound();
    BlocksLeft();
  }

  lemma BlocksLeft()
    ensures 1 <= |FreeBlocks(AfterLoad().memory.taken)|
  {
    hide AfterLoad, Consistent, FreeBlocks, BlocksNeeded, Program, Booted, Taken, Segments, Kept, Create, LoadAllInto,
      AllImaged;
    LoadedIs();
    Launches();
    SegmentsAre();
    ManyFree();
    var y := Start().memory;
    KeptConsistent(Start(), Image());
    PerformConsistent(y, Image(), NewSpace);
    Created(y, Image());
    CreateFreeBlocks(y, Image());
    LoadAllConsistent(Perform(y, Image(), NewSpace), Image(), 0, Segments());
  }

  /** From boot: LoadELF of the two segments, then SysMemalloc for one page. The call is not harmless: page 1500 with
      its bytes, present before and outside the range returned, is a page fault afterwards, and the image is gone. */
  lemma LivePagesLost()
    ensures Kept(AfterLoad(), Image()) && Possible(AfterLoad(), Image(), Grow(0, 1)) && AllImaged(AfterLoad(), Image())
    ensures var st := AfterLoad(); var st' := Step(st, Image(), Grow(0, 1));
      |st.records| == 1 && RecordKept(st, Image(), st.records[0]) && |st.memory.spaces| == 1
      && !Harmless(st, Image(), 0, 1) && Imaged(st, Image(), 0) && |st'.records| == 1 && !Imaged(st', Image(), 0)
      && var f := st.memory.spaces[0].frame;
      Walk(st.memory.m, f, 1500 * PAGE_SIZE).Some? && Walk(st'.memory.m, f, 1500 * PAGE_SIZE) == None
  {
    hide AfterLoad, Kept, LoadElf, Booted, Taken, FreeBlocks, Consistent, Program, BlocksNeeded, U.ClaimStart,
      U.UserPresence, Perform, Walk, Frames, FrameOf, PagesOf, HasImage;
    LoadedIs();
    CallPossible();
    var st := AfterLoad();
    KeptRecord(st, Image(), 0);
    GrowRecords(st, Image(), 0, 1);
    NotHarmless();
    GrowImagesExactly(st, Image(), 0, 1);
    PageFault();
  }

  lemma NotHarmless()
    ensures var st := AfterLoad();
      |st.records| == 1 && RecordKept(st, Image(), st.records[0]) && !Harmless(st, Image(), 0, 1)
  {
    hide AfterLoad, Kept, AllImaged, LoadedSystem, RecordKept, Segments, PagesOf, Leaves, Image;
    LoadedIs();
    PageTaken();
    ByteOfPage();
    var st := AfterLoad();
    KeptRecord(st, Image(), 0);
    assert !LeavesByte(st.memory, Image(), 0, Segments()[1], 1, 474 * PAGE_SIZE);
  }

  /** Page 1500 is that of a byte of the second segment. */
  lemma ByteOfPage()
    ensures |Segments()| == 2 && 474 * PAGE_SIZE < Segments()[1].memsz
    ensures BytePage(Segments()[1], 474 * PAGE_SIZE) == 1500 && Later(Segments(), 1) == {}
  {
    hide PagesOf;
    assert Segments()[2..] == [];
    NoPages();
  }

  lemma PageTaken()
    ensures |AfterLoad().memory.spaces| == 1
    ensures !Leaves(AfterLoad().memory.m, Image(), AfterLoad().memory.spaces[0], 1, 1500)
  {
    hide AfterLoad, U.ClaimStart, U.UserPresence, FrameOf, Frames;
    HoleFound();
    WrittenNumber();
    assert U.PaddingOnly(1022, 1, 1);
  }

  lemma PageFault()
    ensures Kept(AfterLoad(), Image()) && Possible(AfterLoad(), Image(), Grow(0, 1)) && |AfterLoad().memory.spaces| == 1
    ensures var st := AfterLoad(); var f := st.memory.spaces[0].frame;
      Walk(st.memory.m, f, 1500 * PAGE_SIZE).Some?
      && Walk(Step(st, Image(), Grow(0, 1)).memory.m, f, 1500 * PAGE_SIZE) == None
  {
    hide AfterLoad, Kept, LoadElf, Booted, Taken, FreeBlocks, Consistent, Program, BlocksNeeded, U.ClaimStart,
      U.UserPresence, FrameOf, Frames, Walk, WalkedEntry, UserEntry, U.Malloc, Sound, Segments, MapsAny, Reserved;
    LoadedIs();
    CallPossible();
    HoleFound();
    WrittenNumber();
    SegmentsAre();
    Launches();
    KeptConsistent(Start(), Image());
    LoadElfPresence(Start().memory, Image(), Segments(), 1500);
    var (y, l, v: word) := (AfterLoad().memory, Image(), 1500 * PAGE_SIZE);
    KeptConsistent(AfterLoad(), l);
    var (s, x) := (y.spaces[0], y.spaces[0].tables + 1 - KERNEL_PAGE);
    SoundMember(y, l, 0);
    U.MallocIs(y.m, l, s, y.taken, 1, 1500, 1);
    U.MallocSpares(y.m, l, s, y.taken, 1, v);
    var m' := U.Malloc(y.m, l, s, y.taken, 1).value.1;
    assert U.PaddingOnly(1022, 1, 1);
    U.TouchedMore(1022, 1, 1);
    WalksTo(y.m, l, s, v);
    WalksTo(m', l, s, v);
    U.WalkedElsewhere(m', s, 1500, x);
  }

  /** The walk in terms of the entry found. */
  lemma WalksTo(m: Memory, l: Kernel, s: Process, v: word)
    requires Sound(m, l, s) && v / PAGE_SIZE < KERNEL_PAGE
    ensures Walk(m, s.frame, v).Some? <==> Present(WalkedEntry(m, s, v / PAGE_SIZE))
    ensures TableLinked(m, l, s, v / PAGE_SIZE / PAGES_PER_TABLE) ==>
      WalkedEntry(m, s, v / PAGE_SIZE) == UserEntry(m, l, s, v / PAGE_SIZE)
  {
    hide Walk, WalkedEntry, UserEntry, Linked, Backed;
    UserWalk(m, l, s, v);
  }
}
