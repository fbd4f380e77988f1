/** LoadELF over the whole system: the images of all programs at once. */
module ProgramImages {
  import opened Bits
  import opened PageEntry
  import opened PhysicalMemory
  import opened Paging
  import opened AddressSpace
  import opened CreateSpace
  import opened Isolation
  import opened ElfLoader
  import opened ProgramPages

  /** The frames of all directories and tables. */
  ghost function TableFramesOf(y: System, l: Kernel): set<nat>
  {
    set i: nat, f: nat | i < |y.spaces| && f in Frames(y.m, l, y.spaces[i]) :: f
  }

  /** Space i holds the image of segment g, but for the pages in gone, in the given blocks. */
  ghost predicate HasImage(y: System, l: Kernel, i: nat, blocks: set<nat>, g: Segment, gone: set<nat>)
  {
    i < |y.spaces| && UserSegment(g) && blocks <= y.taken
    && Holds(y.m, l, y.spaces[i], blocks, TableFramesOf(y, l), g, gone)
  }

  /** One segment loaded into space i. */
  ghost function LoadInto(y: System, l: Kernel, i: nat, g: Segment): System
    requires i < |y.spaces| && UserSegment(g)
  {
    var (m', taken') := LoadSegment(y.m, l, y.spaces[i], y.taken, g);
    System(m', taken', y.spaces)
  }

  lemma SpaceReady(y: System, l: Kernel, i: nat)
    requires Consistent(y, l) && i < |y.spaces|
    ensures Ready(y.m, l, y.spaces[i], y.taken)
  {
    hide Sound, Frames;
  }

  /** Every other space is spared by a load into space i. */
  lemma LoadSpares(y: System, l: Kernel, i: nat, g: Segment, j: nat)
    requires Consistent(y, l) && i < |y.spaces| && j < |y.spaces| && i != j
    requires UserSegment(g) && PageCount(g.memsz) <= |FreeBlocks(y.taken)|
    ensures Spares(y.m, LoadInto(y, l, i, g).m, l, y.spaces[j])
  {
    hide Consistent, Sound, Linked, Frames, FreeBlocks, LoadSegment, LoadPages, Arena, ReadVirtual, UserEntry;
    SpaceReady(y, l, i);
    LoadSegmentKeeps(y.m, l, y.spaces[i], y.taken, g);
    SoundMember(y, l, i);
    SoundMember(y, l, j);
    ApartMembers(y, l, i, j);
    SoundParts(y.m, l, y.spaces[i]);
    SoundParts(y.m, l, y.spaces[j]);
    FramesProper(y.m, l, y.spaces[i]);
    FramesProper(y.m, l, y.spaces[j]);
    LeftBySpares(y.m, LoadInto(y, l, i, g).m, l, y.spaces[i], y.spaces[j], y.taken);
  }

  lemma LeftBySpares(m: Memory, m': Memory, l: Kernel, s: Process, r: Process, taken: set<nat>)
    requires LeavesTaken(m, m', l, s, taken) && Reserved(taken, l)
    requires Frames(m, l, r) <= taken && Frames(m, l, r) !! Frames(m, l, s) && 0 !in Frames(m, l, s)
    requires forall f :: f in Frames(m, l, r) ==> f < FRAMES && !l.Holds(f)
    ensures Spares(m, m', l, r)
  {
    hide Sound, Frames;
  }

  lemma LoadSpace(y: System, l: Kernel, i: nat, g: Segment, j: nat)
    requires Consistent(y, l) && i < |y.spaces| && j < |y.spaces|
    requires UserSegment(g) && PageCount(g.memsz) <= |FreeBlocks(y.taken)|
    ensures var m' := LoadInto(y, l, i, g).m;
      Sound(m', l, y.spaces[j]) && Frames(m', l, y.spaces[j]) == Frames(y.m, l, y.spaces[j])
  {
    hide Consistent, Sound, Linked, Frames, FreeBlocks, LoadSegment, LoadPages, Arena, ReadVirtual, UserEntry, Reserved;
    SpaceReady(y, l, i);
    SpaceReady(y, l, j);
    LoadSegmentKeeps(y.m, l, y.spaces[i], y.taken, g);
    var z := LoadInto(y, l, i, g);
    ReadyLinked(z.m, l, y.spaces[i], z.taken);
    if j != i {
      LoadSpares(y, l, i, g, j);
      SparedSound(y.m, z.m, l, y.spaces[j]);
    }
  }

  /** Loading a segment keeps the system consistent. */
  lemma LoadConsistent(y: System, l: Kernel, i: nat, g: Segment)
    requires Consistent(y, l) && i < |y.spaces| && UserSegment(g) && PageCount(g.memsz) <= |FreeBlocks(y.taken)|
    ensures var z := LoadInto(y, l, i, g);
      Consistent(z, l) && TableFramesOf(z, l) == TableFramesOf(y, l) && y.taken <= z.taken
      && |FreeBlocks(z.taken)| == |FreeBlocks(y.taken)| - PageCount(g.memsz)
  {
    hide Sound, Linked, Frames, FreeBlocks, LoadSegment, LoadPages, Arena, ReadVirtual, UserEntry, Reserved,
      LeavesTaken;
    var z := LoadInto(y, l, i, g);
    SpaceReady(y, l, i);
    LoadSegmentKeeps(y.m, l, y.spaces[i], y.taken, g);
    ReadyLinked(z.m, l, y.spaces[i], z.taken);
    forall j | 0 <= j < |y.spaces|
      ensures Sound(z.m, l, y.spaces[j]) && Frames(z.m, l, y.spaces[j]) == Frames(y.m, l, y.spaces[j])
    {
      LoadSpace(y, l, i, g, j);
    }
  }

  /** The segment is there afterwards. */
  lemma LoadHasImage(y: System, l: Kernel, i: nat, g: Segment)
    requires Consistent(y, l) && i < |y.spaces| && UserSegment(g) && PageCount(g.memsz) <= |FreeBlocks(y.taken)|
    ensures var z := LoadInto(y, l, i, g); HasImage(z, l, i, z.taken - y.taken, g, {})
  {
    hide Consistent, Sound, Linked, Frames, FreeBlocks, LoadSegment, Reserved, Holds;
    SpaceReady(y, l, i);
    LoadConsistent(y, l, i, g);
    TableFramesTaken(y, l);
    LoadSegmentHolds(y.m, l, y.spaces[i], y.taken, TableFramesOf(y, l), g);
  }

  lemma TableFramesTaken(y: System, l: Kernel)
    requires Consistent(y, l)
    ensures TableFramesOf(y, l) <= y.taken
  {
    hide Sound, Linked, Frames, Reserved;
  }

  // ---- Images are kept ----

  /** Page q of r leads where it led. */
  ghost predicate LeadsAsBefore(m: Memory, m': Memory, l: Kernel, r: Process, q: nat)
    requires q < KERNEL_PAGE
  {
    UserEntry(m', l, r, q) == UserEntry(m, l, r, q)
    && (TableLinked(m, l, r, q / PAGES_PER_TABLE) ==> TableLinked(m', l, r, q / PAGES_PER_TABLE))
  }

  /** From y to z no data frame is written or given up, and none becomes a table. */
  ghost predicate DataKept(y: System, z: System, l: Kernel)
  {
    y.taken <= z.taken
    && (forall f :: 0 <= f < FRAMES && f in y.taken && !l.Holds(f) && f !in TableFramesOf(y, l) ==> z.m[f] == y.m[f])
    && (forall f :: f in y.taken && f !in TableFramesOf(y, l) ==> f !in TableFramesOf(z, l))
  }

  lemma ImageKept(y: System, z: System, l: Kernel, j: nat, blocks: set<nat>, h: Segment, gone: set<nat>,
      gone': set<nat>)
    requires HasImage(y, l, j, blocks, h, gone) && gone <= gone'
    requires DataKept(y, z, l) && j < |z.spaces| && z.spaces[j] == y.spaces[j]
    requires forall q :: FirstPage(h) <= q < FirstPage(h) + PageCount(h.memsz) && q !in gone' ==>
      LeadsAsBefore(y.m, z.m, l, y.spaces[j], q)
    ensures HasImage(z, l, j, blocks, h, gone')
  {
    hide TableFramesOf, UserEntry, TableLinked, DataKept, LeadsAsBefore, HoldsByte;
    DataKeptGrows(y, z, l);
    forall k | 0 <= k < h.memsz && BytePage(h, k) !in gone'
      ensures HoldsByte(z.m, l, z.spaces[j], blocks, TableFramesOf(z, l), h, k)
    {
      SegmentCovered(h, k);
      ByteKept(y, z, l, j, blocks, h, k);
    }
  }

  lemma DataKeptGrows(y: System, z: System, l: Kernel)
    requires DataKept(y, z, l)
    ensures y.taken <= z.taken
  {}

  lemma ByteKept(y: System, z: System, l: Kernel, j: nat, blocks: set<nat>, h: Segment, k: nat)
    requires UserSegment(h) && k < h.memsz && j < |y.spaces| && j < |z.spaces| && z.spaces[j] == y.spaces[j]
    requires HoldsByte(y.m, l, y.spaces[j], blocks, TableFramesOf(y, l), h, k) && DataKept(y, z, l)
    requires blocks <= y.taken && BytePage(h, k) < KERNEL_PAGE
    requires LeadsAsBefore(y.m, z.m, l, y.spaces[j], BytePage(h, k))
    ensures HoldsByte(z.m, l, z.spaces[j], blocks, TableFramesOf(z, l), h, k)
  {
    hide TableFramesOf, UserEntry, TableLinked, ReadByte;
    var f := HardwareFrame(UserEntry(y.m, l, y.spaces[j], BytePage(h, k)));
    SameFrameSameByte(y.m, z.m, f, (h.vaddr + k) % PAGE_SIZE);
  }

  lemma SameFrameSameByte(m: Memory, m': Memory, f: nat, o: nat)
    requires f < FRAMES && o < PAGE_SIZE
    ensures m'[f] == m[f] ==> ReadByte(m', f * PAGE_SIZE + o) == ReadByte(m, f * PAGE_SIZE + o)
  {
    assert (f * PAGE_SIZE + o) / FRAME_BYTES == f;
  }

  lemma LoadKeepsData(y: System, l: Kernel, i: nat, g: Segment)
    requires Consistent(y, l) && i < |y.spaces| && UserSegment(g) && PageCount(g.memsz) <= |FreeBlocks(y.taken)|
    ensures DataKept(y, LoadInto(y, l, i, g), l)
  {
    hide Consistent, Sound, Linked, Frames, FreeBlocks, LoadSegment, LoadPages, Arena, ReadVirtual, UserEntry, Reserved;
    LoadConsistent(y, l, i, g);
    SpaceReady(y, l, i);
    LoadSegmentKeeps(y.m, l, y.spaces[i], y.taken, g);
  }

  /** A load into space i keeps every image of another space, and of an image in space i the pages that are not among
      those mapped. */
  lemma LoadKeepsImage(y: System, l: Kernel, i: nat, g: Segment, j: nat, blocks: set<nat>, h: Segment, gone: set<nat>)
    requires Consistent(y, l) && i < |y.spaces| && UserSegment(g) && PageCount(g.memsz) <= |FreeBlocks(y.taken)|
    requires HasImage(y, l, j, blocks, h, gone) && g.memsz > 0
    ensures HasImage(LoadInto(y, l, i, g), l, j, blocks, h, if j == i then gone + PagesIn(g) else gone)
  {
    hide Consistent, Sound, Linked, Frames, FreeBlocks, LoadSegment, LoadPages, Reserved, TableFramesOf, UserEntry,
      TableLinked, Holds, DataKept, HasImage;
    var z := LoadInto(y, l, i, g);
    LoadKeepsData(y, l, i, g);
    ImageBounds(y, l, j, blocks, h, gone);
    var gone' := if j == i then gone + PagesIn(g) else gone;
    forall q | FirstPage(h) <= q < FirstPage(h) + PageCount(h.memsz) && q !in gone'
      ensures LeadsAsBefore(y.m, z.m, l, y.spaces[j], q)
    {
      InPages(g, q);
      if j != i { OtherPageKept(y, l, i, g, j, q); } else { OwnPageKept(y, l, i, g, q); }
    }
    ImageKept(y, z, l, j, blocks, h, gone, gone');
  }

  /** And a page that is mapped again is lost: the image stays whole if and only if no byte of it lies in a page mapped
      for g. */
  lemma LoadKeepsImageExactly(y: System, l: Kernel, i: nat, g: Segment, blocks: set<nat>, h: Segment)
    requires Consistent(y, l) && i < |y.spaces| && UserSegment(g) && PageCount(g.memsz) <= |FreeBlocks(y.taken)|
    requires HasImage(y, l, i, blocks, h, {}) && g.memsz > 0
    ensures HasImage(LoadInto(y, l, i, g), l, i, blocks, h, {})
            <==> forall k: nat :: k < h.memsz ==> !MapsPage(g, BytePage(h, k))
  {
    hide Consistent, FreeBlocks, LoadInto, HasImage, MapsPage, PageAfter;
    var z := LoadInto(y, l, i, g);
    LoadIntoSpaces(y, l, i, g);
    LoadKeepsImage(y, l, i, g, i, blocks, h, {});
    ImageBounds(y, l, i, blocks, h, {});
    if forall k: nat :: k < h.memsz ==> !MapsPage(g, BytePage(h, k)) {
      NoneGone(z, l, i, blocks, h, {} + PagesIn(g), g);
    } else {
      var k: nat :| k < h.memsz && MapsPage(g, BytePage(h, k));
      SegmentCovered(h, k);
      PageAfterLoad(y, l, i, g, BytePage(h, k));
      NewBlockHoldsNothing(y, z, l, i, blocks, h, k);
    }
  }

  /** Pages without a byte of g may as well not be gone. */
  lemma NoneGone(z: System, l: Kernel, i: nat, blocks: set<nat>, h: Segment, gone: set<nat>, g: Segment)
    requires HasImage(z, l, i, blocks, h, gone) && gone == PagesIn(g)
    requires forall k: nat :: k < h.memsz ==> !MapsPage(g, BytePage(h, k))
    ensures HasImage(z, l, i, blocks, h, {})
  {
    hide TableFramesOf, HoldsByte;
    forall k | 0 <= k < h.memsz ensures BytePage(h, k) !in gone {
      InPages(g, BytePage(h, k));
      assert !MapsPage(g, BytePage(h, k));
    }
  }

  /** A byte whose page got a block that was free before is not held in older blocks. */
  lemma NewBlockHoldsNothing(y: System, z: System, l: Kernel, i: nat, blocks: set<nat>, h: Segment, k: nat)
    requires blocks <= y.taken && i < |y.spaces| && z.spaces == y.spaces && UserSegment(h) && k < h.memsz
    requires BytePage(h, k) < KERNEL_PAGE && PageAfter(y, z, l, i, BytePage(h, k))
    ensures !HasImage(z, l, i, blocks, h, {})
  {
    hide TableFramesOf, UserEntry, TableLinked;
    assert HasImage(z, l, i, blocks, h, {}) ==> HoldsByte(z.m, l, z.spaces[i], blocks, TableFramesOf(z, l), h, k);
  }

  lemma ImageBounds(y: System, l: Kernel, j: nat, blocks: set<nat>, h: Segment, gone: set<nat>)
    requires HasImage(y, l, j, blocks, h, gone)
    ensures j < |y.spaces| && UserSegment(h) && blocks <= y.taken
  {}

  /** Page q of space i and page q of the kernel's tables share a block that was free in y and is taken in z. */
  ghost predicate PageAfter(y: System, z: System, l: Kernel, i: nat, q: nat)
    requires q < KERNEL_PAGE && i < |y.spaces|
  {
    var f := FrameOf(z.m, l, q);
    f !in y.taken && f in z.taken && Shared(z.m, l, y.spaces[i], q, f)
  }

  /** Page q after one load: shared on such a block if the load maps it, else where it was. */
  lemma PageAfterLoad(y: System, l: Kernel, i: nat, g: Segment, q: nat)
    requires Consistent(y, l) && i < |y.spaces| && UserSegment(g) && g.memsz > 0
    requires PageCount(g.memsz) <= |FreeBlocks(y.taken)|
    requires q < KERNEL_PAGE
    ensures var z := LoadInto(y, l, i, g);
      if MapsPage(g, q) then PageAfter(y, z, l, i, q) else KeepsPage(y.m, z.m, l, y.spaces[i], q)
  {
    hide Consistent, Sound, Linked, Frames, FreeBlocks, LoadSegment, LoadPages, Reserved, Arena, ReadVirtual,
      LeavesTaken, LeavesAlone, UserEntry, Shared;
    SpaceReady(y, l, i);
    LoadSegmentKeeps(y.m, l, y.spaces[i], y.taken, g);
    LoadPagesIs(y.m, l, y.spaces[i], y.taken, FirstPage(g), PageCount(g.memsz), q);
    var (m1, t1) := LoadPages(y.m, l, y.spaces[i], y.taken, FirstPage(g), PageCount(g.memsz));
    if MapsPage(g, q) {
      LoadedShared(y.m, m1, LoadInto(y, l, i, g).m, l, y.spaces[i], y.taken, t1, FirstPage(g), PageCount(g.memsz), q);
    }
  }

  lemma OtherPageKept(y: System, l: Kernel, i: nat, g: Segment, j: nat, q: nat)
    requires Consistent(y, l) && i < |y.spaces| && j < |y.spaces| && i != j && q < KERNEL_PAGE
    requires UserSegment(g) && PageCount(g.memsz) <= |FreeBlocks(y.taken)|
    ensures LeadsAsBefore(y.m, LoadInto(y, l, i, g).m, l, y.spaces[j], q)
  {
    hide Consistent, Linked, Directed, Frames, FreeBlocks, LoadSegment, LoadPages, Reserved, UserEntry, Spares;
    LoadSpares(y, l, i, g, j);
    SoundMember(y, l, j);
    SparedElsewhere(y.m, LoadInto(y, l, i, g).m, l, y.spaces[j], q);
  }

  lemma SparedElsewhere(m: Memory, m': Memory, l: Kernel, r: Process, q: nat)
    requires Sound(m, l, r) && Spares(m, m', l, r) && q < KERNEL_PAGE
    ensures LeadsAsBefore(m, m', l, r, q)
  {
    hide Linked, Frames, UserEntry, Spares;
    SparedTables(m, m', l, r);
    SparedBacked(m, m', l, r);
    assert Owns(r, r.tables + q / PAGES_PER_TABLE);
  }

  lemma OwnPageKept(y: System, l: Kernel, i: nat, g: Segment, q: nat)
    requires Consistent(y, l) && i < |y.spaces| && q < KERNEL_PAGE
    requires UserSegment(g) && PageCount(g.memsz) <= |FreeBlocks(y.taken)|
    requires !(FirstPage(g) <= q < FirstPage(g) + PageCount(g.memsz))
    ensures LeadsAsBefore(y.m, LoadInto(y, l, i, g).m, l, y.spaces[i], q)
  {
    hide Consistent, Sound, Linked, Frames, FreeBlocks, LoadSegment, LoadPages, Reserved, Arena, ReadVirtual,
      LeavesTaken, LeavesAlone, UserEntry;
    SpaceReady(y, l, i);
    LoadSegmentKeeps(y.m, l, y.spaces[i], y.taken, g);
    LoadPagesIs(y.m, l, y.spaces[i], y.taken, FirstPage(g), PageCount(g.memsz), q);
  }

  // ---- A whole program ----

  ghost function LoadAllInto(y: System, l: Kernel, i: nat, gs: seq<Segment>): (z: System)
    requires i < |y.spaces| && Program(gs)
    ensures z.spaces == y.spaces
    decreases gs
  {
    if gs == [] then y
    else if gs[0].memsz == 0 then LoadAllInto(y, l, i, gs[1..])
    else LoadAllInto(LoadInto(y, l, i, gs[0]), l, i, gs[1..])
  }

  lemma {:induction false} LoadAllConsistent(y: System, l: Kernel, i: nat, gs: seq<Segment>)
    requires Consistent(y, l) && i < |y.spaces| && Program(gs) && BlocksNeeded(gs) <= |FreeBlocks(y.taken)|
    ensures var z := LoadAllInto(y, l, i, gs);
      Consistent(z, l) && z.spaces == y.spaces && |FreeBlocks(z.taken)| == |FreeBlocks(y.taken)| - BlocksNeeded(gs)
    decreases gs
  {
    hide Consistent, LoadInto, FreeBlocks;
    if gs != [] {
      if gs[0].memsz == 0 {
        LoadAllConsistent(y, l, i, gs[1..]);
      } else {
        LoadConsistent(y, l, i, gs[0]);
        LoadIntoSpaces(y, l, i, gs[0]);
        LoadAllConsistent(LoadInto(y, l, i, gs[0]), l, i, gs[1..]);
      }
    }
  }

  lemma LoadIntoSpaces(y: System, l: Kernel, i: nat, g: Segment)
    requires i < |y.spaces| && UserSegment(g)
    ensures LoadInto(y, l, i, g).spaces == y.spaces
  {}

  /** Images of other spaces, and of space i on other pages, survive. */
  lemma {:induction false} LoadAllKeepsImage(y: System, l: Kernel, i: nat, gs: seq<Segment>, j: nat, blocks: set<nat>,
      h: Segment, gone: set<nat>)
    requires Consistent(y, l) && i < |y.spaces| && Program(gs) && BlocksNeeded(gs) <= |FreeBlocks(y.taken)|
    requires HasImage(y, l, j, blocks, h, gone)
    ensures HasImage(LoadAllInto(y, l, i, gs), l, j, blocks, h, if j == i then gone + PagesOf(gs) else gone)
    decreases gs
  {
    hide Consistent, LoadInto, FreeBlocks, HasImage, PagesOf, PagesIn;
    if gs == [] {
      NoPages();
      assert gone + {} == gone;
    } else {
      var rest := gs[1..];
      PagesSplit(gs);
      if gs[0].memsz == 0 {
        EmptyPages(gs[0]);
        LoadAllKeepsImage(y, l, i, rest, j, blocks, h, gone);
        assert gone + PagesOf(rest) == gone + PagesOf(gs);
      } else {
        LoadConsistent(y, l, i, gs[0]);
        LoadIntoSpaces(y, l, i, gs[0]);
        LoadKeepsImage(y, l, i, gs[0], j, blocks, h, gone);
        var gone1 := if j == i then gone + PagesIn(gs[0]) else gone;
        LoadAllKeepsImage(LoadInto(y, l, i, gs[0]), l, i, rest, j, blocks, h, gone1);
        assert (gone + PagesIn(gs[0])) + PagesOf(rest) == gone + PagesOf(gs);
      }
    }
  }

  /** In the end every segment of the program is there in the blocks the program took, but for the pages that were
      mapped again for a later one. */
  lemma {:induction false} LoadAllHasImages(y: System, l: Kernel, i: nat, gs: seq<Segment>, k: nat)
    requires Consistent(y, l) && i < |y.spaces| && Program(gs) && BlocksNeeded(gs) <= |FreeBlocks(y.taken)|
    requires k < |gs|
    ensures var z := LoadAllInto(y, l, i, gs); HasImage(z, l, i, z.taken - y.taken, gs[k], Later(gs, k))
    decreases gs
  {
    hide Consistent, LoadInto, FreeBlocks, HasImage, PagesOf;
    var y1 := if gs[0].memsz == 0 then y else LoadInto(y, l, i, gs[0]);
    if gs[0].memsz == 0 {
      EmptySegment(y, l, i, gs[0]);
      assert y1.taken - y.taken == {};
    } else {
      LoadConsistent(y, l, i, gs[0]);
      LoadIntoSpaces(y, l, i, gs[0]);
      LoadHasImage(y, l, i, gs[0]);
    }
    var z := LoadAllInto(y1, l, i, gs[1..]);
    LoadAllGrows(y1, l, i, gs[1..]);
    if k == 0 {
      LoadAllKeepsImage(y1, l, i, gs[1..], i, y1.taken - y.taken, gs[0], {});
      assert {} + PagesOf(gs[1..]) == PagesOf(gs[1..]);
      ImageInMore(z, l, i, y1.taken - y.taken, z.taken - y.taken, gs[0], PagesOf(gs[1..]));
    } else {
      LoadAllHasImages(y1, l, i, gs[1..], k - 1);
      assert gs[1..][k..] == gs[k + 1..];
      ImageInMore(z, l, i, z.taken - y1.taken, z.taken - y.taken, gs[k], PagesOf(gs[k + 1..]));
    }
  }

  /** Page q after a program: shared on a block the program took if it maps q, else where it was. */
  lemma {:induction false} PageAfterProgram(y: System, l: Kernel, i: nat, gs: seq<Segment>, q: nat)
    requires Consistent(y, l) && i < |y.spaces| && Program(gs) && BlocksNeeded(gs) <= |FreeBlocks(y.taken)|
    requires q < KERNEL_PAGE
    ensures var z := LoadAllInto(y, l, i, gs);
      if MapsAny(gs, q) then PageAfter(y, z, l, i, q) else KeepsPage(y.m, z.m, l, y.spaces[i], q)
    decreases gs
  {
    hide Consistent, LoadInto, FreeBlocks, MapsPage, TableFramesOf, MapsAny, PageAfter, KeepsPage;
    if gs == [] {
      NothingMapped(q);
      SamePage(y, l, i, q);
    } else {
      MapsSplit(gs, q);
      if gs[0].memsz == 0 {
        EmptyMapsNothing(gs[0], q);
        PageAfterProgram(y, l, i, gs[1..], q);
      } else {
        var y1 := LoadInto(y, l, i, gs[0]);
        LoadConsistent(y, l, i, gs[0]);
        LoadIntoSpaces(y, l, i, gs[0]);
        PageAfterLoad(y, l, i, gs[0], q);
        PageAfterProgram(y1, l, i, gs[1..], q);
        LoadAllGrows(y1, l, i, gs[1..]);
        ThenKept(y, y1, LoadAllInto(y1, l, i, gs[1..]), l, i, q);
      }
    }
  }

  lemma SamePage(y: System, l: Kernel, i: nat, q: nat)
    requires i < |y.spaces| && q < KERNEL_PAGE
    ensures KeepsPage(y.m, y.m, l, y.spaces[i], q)
  {}

  lemma ThenKept(y: System, y1: System, z: System, l: Kernel, i: nat, q: nat)
    requires i < |y.spaces| && y1.spaces == y.spaces && q < KERNEL_PAGE && y.taken <= y1.taken <= z.taken
    ensures PageAfter(y1, z, l, i, q) ==> PageAfter(y, z, l, i, q)
    ensures KeepsPage(y1.m, z.m, l, y.spaces[i], q) && PageAfter(y, y1, l, i, q) ==> PageAfter(y, z, l, i, q)
    ensures KeepsPage(y1.m, z.m, l, y.spaces[i], q) && KeepsPage(y.m, y1.m, l, y.spaces[i], q) ==>
      KeepsPage(y.m, z.m, l, y.spaces[i], q)
  {
    hide UserEntry;
  }

  /** The system when the first k segments are loaded. */
  ghost function LoadedFirst(y: System, l: Kernel, i: nat, gs: seq<Segment>, k: nat): System
    requires i < |y.spaces| && Program(gs) && k <= |gs|
  {
    LoadAllInto(y, l, i, gs[..k])
  }

  lemma {:induction false} LoadedThen(y: System, l: Kernel, i: nat, gs: seq<Segment>, k: nat)
    requires Consistent(y, l) && i < |y.spaces| && Program(gs) && BlocksNeeded(gs) <= |FreeBlocks(y.taken)|
    requires k <= |gs|
    ensures LoadAllInto(y, l, i, gs) == LoadAllInto(LoadedFirst(y, l, i, gs, k), l, i, gs[k..])
    ensures Consistent(LoadedFirst(y, l, i, gs, k), l)
    ensures BlocksNeeded(gs[k..]) <= |FreeBlocks(LoadedFirst(y, l, i, gs, k).taken)|
    decreases gs
  {
    hide Consistent, LoadInto, FreeBlocks, UserSegment;
    if k == 0 {
      assert gs[..0] == [] && gs[0..] == gs;
    } else {
      assert gs[..k][0] == gs[0] && gs[..k][1..] == gs[1..][..k - 1] && gs[1..][k - 1..] == gs[k..];
      if gs[0].memsz == 0 {
        LoadedThen(y, l, i, gs[1..], k - 1);
      } else {
        LoadConsistent(y, l, i, gs[0]);
        LoadIntoSpaces(y, l, i, gs[0]);
        LoadedThen(LoadInto(y, l, i, gs[0]), l, i, gs[1..], k - 1);
      }
    }
  }

  /** The blocks the load of segment k took. */
  ghost function BlocksFor(y: System, l: Kernel, i: nat, gs: seq<Segment>, k: nat): set<nat>
    requires i < |y.spaces| && Program(gs) && k < |gs|
  {
    LoadedFirst(y, l, i, gs, k + 1).taken - LoadedFirst(y, l, i, gs, k).taken
  }

  /** Which segments are whole: segment k stands in the blocks its own load took if and only if no page with a byte of
      it is mapped for a later segment. */
  lemma LoadAllImagesExactly(y: System, l: Kernel, i: nat, gs: seq<Segment>, k: nat)
    requires Consistent(y, l) && i < |y.spaces| && Program(gs) && BlocksNeeded(gs) <= |FreeBlocks(y.taken)|
    requires k < |gs|
    ensures HasImage(LoadAllInto(y, l, i, gs), l, i, BlocksFor(y, l, i, gs, k), gs[k], {})
            <==> forall o: nat :: o < gs[k].memsz ==> !MapsAny(gs[k + 1..], BytePage(gs[k], o))
  {
    hide Consistent, LoadInto, LoadAllInto, FreeBlocks, HasImage, PagesOf, MapsAny, PageAfter;
    var (a, b) := (LoadedFirst(y, l, i, gs, k), LoadedFirst(y, l, i, gs, k + 1));
    var (z, rest, own) := (LoadAllInto(y, l, i, gs), gs[k + 1..], BlocksFor(y, l, i, gs, k));
    LoadedThen(y, l, i, gs, k);
    LoadedThen(y, l, i, gs, k + 1);
    OneMore(y, l, i, gs, k);
    LoadAllHasImages(a, l, i, [gs[k]], 0);
    assert [gs[k]][1..] == [];
    NoPages();
    LoadAllKeepsImage(b, l, i, rest, i, own, gs[k], {});
    assert {} + PagesOf(rest) == PagesOf(rest);
    ImageBounds(b, l, i, own, gs[k], {});
    if forall o: nat :: o < gs[k].memsz ==> !MapsAny(rest, BytePage(gs[k], o)) {
      forall o | 0 <= o < gs[k].memsz ensures BytePage(gs[k], o) !in PagesOf(rest) {
        PagesMapped(rest, BytePage(gs[k], o));
      }
      WholeImage(z, l, i, own, gs[k], PagesOf(rest));
    } else {
      var o: nat :| o < gs[k].memsz && MapsAny(rest, BytePage(gs[k], o));
      SegmentCovered(gs[k], o);
      PageAfterProgram(b, l, i, rest, BytePage(gs[k], o));
      NewBlockHoldsNothing(b, z, l, i, own, gs[k], o);
    }
  }

  lemma OneMore(y: System, l: Kernel, i: nat, gs: seq<Segment>, k: nat)
    requires Consistent(y, l) && i < |y.spaces| && Program(gs) && BlocksNeeded(gs) <= |FreeBlocks(y.taken)|
    requires k < |gs|
    ensures LoadedFirst(y, l, i, gs, k + 1) == LoadAllInto(LoadedFirst(y, l, i, gs, k), l, i, [gs[k]])
    ensures BlocksNeeded([gs[k]]) <= |FreeBlocks(LoadedFirst(y, l, i, gs, k).taken)|
  {
    hide Consistent, FreeBlocks, LoadInto, LoadAllInto, UserSegment;
    var hs := gs[..k + 1];
    assert hs[..k] == gs[..k] && hs[k..] == [gs[k]];
    NeededFirst(gs, k + 1);
    LoadedThen(y, l, i, hs, k);
  }

  lemma {:induction false} NeededFirst(gs: seq<Segment>, k: nat)
    requires k <= |gs|
    ensures BlocksNeeded(gs[..k]) <= BlocksNeeded(gs)
    decreases k
  {
    if k > 0 {
      assert gs[..k][0] == gs[0] && gs[..k][1..] == gs[1..][..k - 1];
      NeededFirst(gs[1..], k - 1);
    }
  }

  lemma WholeImage(z: System, l: Kernel, i: nat, blocks: set<nat>, h: Segment, gone: set<nat>)
    requires HasImage(z, l, i, blocks, h, gone) && forall k :: 0 <= k < h.memsz ==> BytePage(h, k) !in gone
    ensures HasImage(z, l, i, blocks, h, {})
  {
    hide TableFramesOf, HoldsByte;
  }

  lemma {:induction false} LoadAllGrows(y: System, l: Kernel, i: nat, gs: seq<Segment>)
    requires Consistent(y, l) && i < |y.spaces| && Program(gs) && BlocksNeeded(gs) <= |FreeBlocks(y.taken)|
    ensures var z := LoadAllInto(y, l, i, gs);
      y.taken <= z.taken && DataKept(y, z, l) && TableFramesOf(z, l) == TableFramesOf(y, l)
    decreases gs
  {
    hide Consistent, LoadInto, FreeBlocks, TableFramesOf;
    if gs != [] {
      if gs[0].memsz == 0 {
        LoadAllGrows(y, l, i, gs[1..]);
      } else {
        var y1 := LoadInto(y, l, i, gs[0]);
        LoadConsistent(y, l, i, gs[0]);
        LoadIntoSpaces(y, l, i, gs[0]);
        LoadKeepsData(y, l, i, gs[0]);
        LoadAllGrows(y1, l, i, gs[1..]);
      }
    }
  }

  lemma ImageInMore(y: System, l: Kernel, i: nat, blocks: set<nat>, more: set<nat>, g: Segment, gone: set<nat>)
    requires HasImage(y, l, i, blocks, g, gone) && blocks <= more <= y.taken
    ensures HasImage(y, l, i, more, g, gone)
  {
    hide TableFramesOf, UserEntry, TableLinked;
    forall k | 0 <= k < g.memsz && BytePage(g, k) !in gone
      ensures HoldsByte(y.m, l, y.spaces[i], more, TableFramesOf(y, l), g, k)
    {
      assert HoldsByte(y.m, l, y.spaces[i], blocks, TableFramesOf(y, l), g, k);
    }
  }

  lemma EmptySegment(y: System, l: Kernel, i: nat, g: Segment)
    requires i < |y.spaces| && UserSegment(g) && g.memsz == 0
    ensures HasImage(y, l, i, {}, g, {})
  {}

  /** LoadELF: a new address space and the program's segments in it. */
  ghost function LoadElf(y: System, l: Kernel, gs: seq<Segment>): System
    requires Consistent(y, l) && Program(gs) && KERNEL_TABLE + 1 + BlocksNeeded(gs) <= |FreeBlocks(y.taken)|
  {
    var z := Perform(y, l, NewSpace);
    if |z.spaces| == |y.spaces| then y else LoadAllInto(z, l, |y.spaces|, gs)
  }

  lemma CreateKeepsImage(y: System, l: Kernel, j: nat, blocks: set<nat>, h: Segment, gone: set<nat>)
    requires Consistent(y, l) && Allowed(y, l, NewSpace) && HasImage(y, l, j, blocks, h, gone)
    ensures HasImage(Perform(y, l, NewSpace), l, j, blocks, h, gone)
  {
    hide Consistent, Create, FreeBlocks, Frames, UserEntry, TableLinked, Holds, TableFramesOf, Sound, Spares;
    if Create(y.m, l, y.taken).Some? {
      var z := Perform(y, l, NewSpace);
      CreateKeepsData(y, l);
      SoundMember(y, l, j);
      CreateSpares(y, l, j);
      forall q | FirstPage(h) <= q < FirstPage(h) + PageCount(h.memsz)
        ensures LeadsAsBefore(y.m, z.m, l, y.spaces[j], q)
      {
        SparedElsewhere(y.m, z.m, l, y.spaces[j], q);
      }
      ImageKept(y, z, l, j, blocks, h, gone, gone);
    }
  }

  lemma CreateKeepsData(y: System, l: Kernel)
    requires Consistent(y, l) && Allowed(y, l, NewSpace) && Create(y.m, l, y.taken).Some?
    ensures DataKept(y, Perform(y, l, NewSpace), l)
  {
    hide Consistent, Create, FreeBlocks, Linked, Sound, Reserved, Spares, Frames;
    ConsistentLinked(y, l);
    CreateIs(y.m, l, y.taken);
    var z := Perform(y, l, NewSpace);
    forall j | 0 <= j < |y.spaces| ensures Frames(z.m, l, z.spaces[j]) == Frames(y.m, l, y.spaces[j]) {
      SoundMember(y, l, j);
      CreateSpares(y, l, j);
      GrowsLinked(y.m, y.taken, z.m, z.taken, l);
      SparedSound(y.m, z.m, l, y.spaces[j]);
    }
  }

  lemma CreateFreeBlocks(y: System, l: Kernel)
    requires Consistent(y, l) && Allowed(y, l, NewSpace) && Create(y.m, l, y.taken).Some?
    ensures |FreeBlocks(Perform(y, l, NewSpace).taken)| == |FreeBlocks(y.taken)| - KERNEL_TABLE - 1
    ensures |Perform(y, l, NewSpace).spaces| == |y.spaces| + 1
  {
    hide Consistent, Create, FreeBlocks, Linked, Sound, Reserved, Frames, Grows;
    ConsistentLinked(y, l);
    CreateIs(y.m, l, y.taken);
  }

  /** LoadELF on a consistent system with enough free blocks: the system stays consistent, the new process holds every
      byte of every segment of the program in the blocks its loop took, but for the pages mapped again for a later
      segment, and every image held before is still held. */
  lemma LoadElfImages(y: System, l: Kernel, gs: seq<Segment>, k: nat, j: nat, blocks: set<nat>, h: Segment,
      gone: set<nat>)
    requires Consistent(y, l) && Program(gs) && KERNEL_TABLE + 1 + BlocksNeeded(gs) <= |FreeBlocks(y.taken)|
    ensures var z := LoadElf(y, l, gs);
      Consistent(z, l) && (HasImage(y, l, j, blocks, h, gone) ==> HasImage(z, l, j, blocks, h, gone))
      && (k < |gs| && |z.spaces| != |y.spaces| ==>
           HasImage(z, l, |y.spaces|, z.taken - Perform(y, l, NewSpace).taken, gs[k], Later(gs, k)))
  {
    hide Consistent, FreeBlocks, HasImage, LoadAllInto, Perform, Create, PagesOf;
    PerformConsistent(y, l, NewSpace);
    var z := Perform(y, l, NewSpace);
    if |z.spaces| != |y.spaces| {
      Created(y, l);
      CreateFreeBlocks(y, l);
      LoadAllConsistent(z, l, |y.spaces|, gs);
      if HasImage(y, l, j, blocks, h, gone) {
        CreateKeepsImage(y, l, j, blocks, h, gone);
        ImageBounds(y, l, j, blocks, h, gone);
        LoadAllKeepsImage(z, l, |y.spaces|, gs, j, blocks, h, gone);
      }
      if k < |gs| { LoadAllHasImages(z, l, |y.spaces|, gs, k); }
    }
  }

  /** Of a program just loaded exactly the pages mapped for its segments are present. */
  lemma LoadElfPresence(y: System, l: Kernel, gs: seq<Segment>, q: nat)
    requires Consistent(y, l) && Program(gs) && KERNEL_TABLE + 1 + BlocksNeeded(gs) <= |FreeBlocks(y.taken)|
    requires |LoadElf(y, l, gs).spaces| != |y.spaces| && q < KERNEL_PAGE
    ensures var z := LoadElf(y, l, gs);
      |z.spaces| == |y.spaces| + 1 && (Present(UserEntry(z.m, l, z.spaces[|y.spaces|], q)) <==> MapsAny(gs, q))
      && (MapsAny(gs, q) ==> TableLinked(z.m, l, z.spaces[|y.spaces|], q / PAGES_PER_TABLE))
  {
    hide Consistent, FreeBlocks, LoadAllInto, Create, MapsAny, UserEntry, TableLinked, Sound, Linked, Reserved, Grows,
      Frames, BlocksNeeded;
    var x := Perform(y, l, NewSpace);
    PerformConsistent(y, l, NewSpace);
    Created(y, l);
    CreateFreeBlocks(y, l);
    ConsistentLinked(y, l);
    CreateIs(y.m, l, y.taken);
    PageAfterProgram(x, l, |y.spaces|, gs, q);
  }

  /** LoadELF that returns puts every segment whole into the blocks of its own load if and only if no page with a byte
      of a segment is mapped for a later one. */
  lemma LoadElfWholeExactly(y: System, l: Kernel, gs: seq<Segment>)
    requires Consistent(y, l) && Program(gs) && KERNEL_TABLE + 1 + BlocksNeeded(gs) <= |FreeBlocks(y.taken)|
    requires |LoadElf(y, l, gs).spaces| != |y.spaces|
    ensures |Perform(y, l, NewSpace).spaces| == |y.spaces| + 1
    ensures (forall k :: 0 <= k < |gs| ==> WholeSegment(y, l, gs, k)) <==> Ordered(gs)
  {
    hide Consistent, FreeBlocks, HasImage, LoadAllInto, Perform, Create, BlocksFor, BlocksNeeded, MapsAny;
    var x := Perform(y, l, NewSpace);
    PerformConsistent(y, l, NewSpace);
    Created(y, l);
    CreateFreeBlocks(y, l);
    forall k | 0 <= k < |gs|
      ensures WholeSegment(y, l, gs, k)
              <==> forall o: nat :: o < gs[k].memsz ==> !MapsAny(gs[k + 1..], BytePage(gs[k], o))
    {
      LoadAllImagesExactly(x, l, |y.spaces|, gs, k);
    }
    OrderedSplit(gs);
  }

  ghost predicate WholeSegment(y: System, l: Kernel, gs: seq<Segment>, k: nat)
    requires Consistent(y, l) && Program(gs) && KERNEL_TABLE + 1 + BlocksNeeded(gs) <= |FreeBlocks(y.taken)|
    requires k < |gs| && |Perform(y, l, NewSpace).spaces| == |y.spaces| + 1
  {
    HasImage(LoadElf(y, l, gs), l, |y.spaces|, BlocksFor(Perform(y, l, NewSpace), l, |y.spaces|, gs, k), gs[k], {})
  }

  /** A common layout, loaded in both orders: with the text first both segments are whole, with the data first the
      text's padding page takes the data away. */
  lemma FileOrderMatters(y: System, l: Kernel, code: seq<byte>, values: seq<byte>)
    requires |code| <= 0x5D4 && |values| <= 0x120
    requires Consistent(y, l) && KERNEL_TABLE + 5 <= |FreeBlocks(y.taken)| && Create(y.m, l, y.taken).Some?
    ensures var (there, back) := ([Text(code), Data(values)], [Data(values), Text(code)]);
      Program(there) && BlocksNeeded(there) == 4 && Program(back) && BlocksNeeded(back) == 4
      && |Perform(y, l, NewSpace).spaces| == |y.spaces| + 1
      && WholeSegment(y, l, there, 0) && WholeSegment(y, l, there, 1) && !WholeSegment(y, l, back, 0)
  {
    hide Consistent, FreeBlocks, HasImage, LoadAllInto, Perform, Create, BlocksFor, BlocksNeeded, Text, Data, MapsPage;
    var (there, back) := ([Text(code), Data(values)], [Data(values), Text(code)]);
    TextBeforeData(code, values);
    CreateFreeBlocks(y, l);
    LoadElfWholeExactly(y, l, there);
    PerformConsistent(y, l, NewSpace);
    LoadAllImagesExactly(Perform(y, l, NewSpace), l, |y.spaces|, back, 0);
    TextSize(values);
    assert back[1..] == [Text(code)] && MapsPage([Text(code)][0], BytePage(back[0], 0));
  }

  lemma TextSize(values: seq<byte>)
    ensures Data(values).memsz == 0x120
  {}

  lemma Created(y: System, l: Kernel)
    requires Consistent(y, l) && Allowed(y, l, NewSpace) && |Perform(y, l, NewSpace).spaces| != |y.spaces|
    ensures Create(y.m, l, y.taken).Some?
  {
    hide Create;
  }
}
