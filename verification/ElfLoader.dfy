/** Loading the segments of a program into a new address space and giving their blocks back (LoadELF and
    EndProcess, scheduler.cpp). */
module ElfLoader {
  import opened Bits
  import opened Options
  import opened PageEntry
  import opened PhysicalMemory
  import opened PhysicalAllocator
  import opened Paging
  import opened AddressSpace
  import opened CreateSpace
  import Isolation

  /** A loadable segment: elf32_program_header_t with the p_filesz bytes found at p_offset. */
  datatype Segment = Segment(vaddr: word, memsz: word, data: seq<byte>)

  function FirstPage(g: Segment): nat { g.vaddr / PAGE_SIZE }

  /** Below 0xC0000000 with its padding, and no longer in the file than in memory. */
  predicate UserSegment(g: Segment)
  {
    FirstPage(g) + PageCount(g.memsz) <= KERNEL_PAGE && |g.data| <= g.memsz
  }

  /** One page: a block mapped in the kernel's own tables and in those of s. */
  function LoadPage(m: Memory, l: Kernel, s: Process, b: nat, p: nat): Memory
    requires b < BLOCKS && p < KERNEL_PAGE
  {
    MapUserPage(MapPage(m, l, b * PAGE_SIZE, p * PAGE_SIZE), l, s, b * PAGE_SIZE, p * PAGE_SIZE)
  }

  function LoadPages(m: Memory, l: Kernel, s: Process, taken: set<nat>, p: nat, n: nat): (Memory, set<nat>)
    requires p + n <= KERNEL_PAGE
    decreases n, p
  {
    if n == 0 then (m, taken)
    else
      var (b, t) := AllocateBlock(taken);
      LoadPages(LoadPage(m, l, s, b, p), l, s, t, p + 1, n - 1)
  }

  /** A byte stored by the kernel at virtual address v, with the kernel's directory loaded. */
  function StoreByte(m: Memory, l: Kernel, v: word, b: byte): Memory
  {
    match Walk(m, l.directory, v)
    case None => m
    case Some(a) => WriteByte(m, a, b)
  }

  function Fill(m: Memory, l: Kernel, v: word, count: nat): Memory
    decreases count, v
  {
    if count == 0 then m else Fill(StoreByte(m, l, v, 0), l, (v + 1) % WORD, count - 1)
  }

  function Copy(m: Memory, l: Kernel, v: word, data: seq<byte>): Memory
    decreases |data|
  {
    if data == [] then m else Copy(StoreByte(m, l, v, data[0]), l, (v + 1) % WORD, data[1..])
  }

  /** One segment: its pages, then memset and memcpy through the kernel's tables. */
  function LoadSegment(m: Memory, l: Kernel, s: Process, taken: set<nat>, g: Segment): (Memory, set<nat>)
    requires UserSegment(g)
  {
    var (m1, t) := LoadPages(m, l, s, taken, FirstPage(g), PageCount(g.memsz));
    (Copy(Fill(m1, l, g.vaddr, g.memsz), l, g.vaddr, g.data), t)
  }

  // ---- Mapping the pages ----

  /** What loading into s relies on: s is sound and its frames are taken. */
  ghost predicate Ready(m: Memory, l: Kernel, s: Process, taken: set<nat>)
  {
    Sound(m, l, s) && Frames(m, l, s) <= taken && Reserved(taken, l)
  }

  /** Page q of s and page q of the kernel's tables lead to the same frame f. */
  ghost predicate Shared(m: Memory, l: Kernel, s: Process, q: nat, f: nat)
    requires q < KERNEL_PAGE
  {
    Present(Entry(m, l, q)) && FrameOf(m, l, q) == f
    && Present(UserEntry(m, l, s, q)) && HardwareFrame(UserEntry(m, l, s, q)) == f
    && UserEntry(m, l, s, q) % 4 == 3 && TableLinked(m, l, s, q / PAGES_PER_TABLE)
  }

  /** Pages other than p lead where they led before, in both sets of tables. */
  ghost predicate KeepsPage(m: Memory, m': Memory, l: Kernel, s: Process, q: nat)
    requires q < KERNEL_PAGE
  {
    Entry(m', l, q) == Entry(m, l, q) && UserEntry(m', l, s, q) == UserEntry(m, l, s, q)
    && (TableLinked(m, l, s, q / PAGES_PER_TABLE) ==> TableLinked(m', l, s, q / PAGES_PER_TABLE))
  }

  /** Outside the kernel's tables and the frames of s nothing changes, and s stays what it is. */
  ghost predicate LeavesAlone(m: Memory, m': Memory, l: Kernel, s: Process)
  {
    Sound(m', l, s) && Frames(m', l, s) == Frames(m, l, s)
    && (forall p :: KERNEL_PAGE <= p < PAGES ==> Entry(m', l, p) == Entry(m, l, p))
    && forall f :: 0 <= f < FRAMES && !l.Holds(f) && f !in Frames(m, l, s) ==> m'[f] == m[f]
  }

  lemma MapPageSpares(m: Memory, l: Kernel, s: Process, b: nat, p: nat)
    requires Sound(m, l, s) && b < 0x8_0000 && p < KERNEL_PAGE
    ensures var m' := MapPage(m, l, b * PAGE_SIZE, p * PAGE_SIZE);
      Sound(m', l, s) && Isolation.Spares(m, m', l, s) && SameElsewhere(m, m', l)
      && (forall q :: 0 <= q < PAGES && q != p ==> Entry(m', l, q) == Entry(m, l, q))
      && Present(Entry(m', l, p)) && FrameOf(m', l, p) == b
  {
    hide Linked, Directed, MapPage, MapEntry;
    assert p * PAGE_SIZE / PAGE_SIZE == p;
    MapPageIs(m, l, b * PAGE_SIZE, p * PAGE_SIZE);
    EntryBelow(m, l, p);
    MapEntryIs(Entry(m, l, p), b * PAGE_SIZE);
    MapPageLinked(m, l, b * PAGE_SIZE, p * PAGE_SIZE);
    Isolation.FramesProper(m, l, s);
    Isolation.FrameZeroElsewhere(m, MapPage(m, l, b * PAGE_SIZE, p * PAGE_SIZE), l);
    Isolation.SparedSound(m, MapPage(m, l, b * PAGE_SIZE, p * PAGE_SIZE), l, s);
  }

  lemma SharedPageSpares(m: Memory, l: Kernel, s: Process, b: nat, p: nat, q: nat)
    requires Sound(m, l, s) && b < 0x8_0000 && p < KERNEL_PAGE && q < KERNEL_PAGE
    ensures var m' := MapPage(m, l, b * PAGE_SIZE, p * PAGE_SIZE);
      UserEntry(m', l, s, q) == UserEntry(m, l, s, q)
      && (TableLinked(m', l, s, q / PAGES_PER_TABLE) <==> TableLinked(m, l, s, q / PAGES_PER_TABLE))
  {
    hide Linked, Backed, Directed, MapPage, UserEntry, Isolation.Spares;
    MapPageSpares(m, l, s, b, p);
    Isolation.SparedTables(m, MapPage(m, l, b * PAGE_SIZE, p * PAGE_SIZE), l, s);
    Isolation.SparedBacked(m, MapPage(m, l, b * PAGE_SIZE, p * PAGE_SIZE), l, s);
    assert Owns(s, s.tables + q / PAGES_PER_TABLE);
  }

  lemma LoadPageIs(m: Memory, l: Kernel, s: Process, b: nat, p: nat, q: nat)
    requires Sound(m, l, s) && b < 0x8_0000 && p < KERNEL_PAGE && q < KERNEL_PAGE
    ensures var m' := LoadPage(m, l, s, b, p);
      LeavesAlone(m, m', l, s) && Shared(m', l, s, p, b) && (q != p ==> KeepsPage(m, m', l, s, q))
  {
    hide Sound, Linked, Backed, Directed, MapPage, MapUserPage, UserEntry, Frames, TableLinked, MapEntry;
    var m1 := MapPage(m, l, b * PAGE_SIZE, p * PAGE_SIZE);
    var m' := MapUserPage(m1, l, s, b * PAGE_SIZE, p * PAGE_SIZE);
    assert p * PAGE_SIZE / PAGE_SIZE == p;
    MapPageSpares(m, l, s, b, p);
    SoundParts(m, l, s);
    Isolation.SparedBacked(m, m1, l, s);
    MapUserPageSound(m1, l, s, b * PAGE_SIZE, p * PAGE_SIZE);
    KernelSame(m1, m', l);
    SharedPageSpares(m, l, s, b, p, q);
    MapUserPageAt(m1, l, s, b * PAGE_SIZE, p * PAGE_SIZE, q);
    MapUserPageAt(m1, l, s, b * PAGE_SIZE, p * PAGE_SIZE, p);
    UserEntryBelow(m1, l, s, p);
    MapEntryIs(UserEntry(m1, l, s, p), b * PAGE_SIZE);
  }

  /** After loading count pages from p on: each is shared between the two sets of tables on a block that
      was free, and every other page is kept. */
  ghost predicate Loaded(m: Memory, m': Memory, l: Kernel, s: Process, taken: set<nat>, taken': set<nat>, p: nat,
      n: nat, q: nat)
    requires q < KERNEL_PAGE
  {
    if p <= q < p + n
    then FrameOf(m', l, q) !in taken && FrameOf(m', l, q) in taken' && Shared(m', l, s, q, FrameOf(m', l, q))
    else KeepsPage(m, m', l, s, q)
  }

  lemma {:induction false} LoadPagesIs(m: Memory, l: Kernel, s: Process, taken: set<nat>, p: nat, n: nat, q: nat)
    requires Ready(m, l, s, taken) && n <= |FreeBlocks(taken)| && p + n <= KERNEL_PAGE && q < KERNEL_PAGE
    ensures var (m', taken') := LoadPages(m, l, s, taken, p, n);
      Ready(m', l, s, taken') && LeavesAlone(m, m', l, s) && taken <= taken'
      && |FreeBlocks(taken')| == |FreeBlocks(taken)| - n && |taken'| == |taken| + n
      && Loaded(m, m', l, s, taken, taken', p, n, q)
    decreases n
  {
    hide Sound, Reserved, Frames, FreeBlocks, LoadPage, AllocateBlock, LeavesAlone, KeepsPage, Shared, Loaded;
    if n == 0 {
      NothingLoaded(m, l, s, taken, p, q);
    } else {
      var (b, t) := AllocateBlock(taken);
      assert FreeBlocks(taken) != {};
      FreshBlock(taken, l);
      var m1 := LoadPage(m, l, s, b, p);
      LoadPageIs(m, l, s, b, p, q);
      StillReady(m, m1, l, s, taken, t);
      LoadPagesIs(m1, l, s, t, p + 1, n - 1, q);
      var (m', t') := LoadPages(m1, l, s, t, p + 1, n - 1);
      LeavesAloneTrans(m, m1, m', l, s);
      LoadedNext(m, m1, m', l, s, taken, b, t', p, n, q);
    }
  }

  lemma NothingLoaded(m: Memory, l: Kernel, s: Process, taken: set<nat>, p: nat, q: nat)
    requires Sound(m, l, s) && q < KERNEL_PAGE
    ensures LeavesAlone(m, m, l, s) && Loaded(m, m, l, s, taken, taken, p, 0, q)
  {}

  lemma StillReady(m: Memory, m1: Memory, l: Kernel, s: Process, t: set<nat>, t1: set<nat>)
    requires LeavesAlone(m, m1, l, s) && Frames(m, l, s) <= t && t <= t1 && Reserved(t1, l)
    ensures Ready(m1, l, s, t1)
  {}

  lemma LeavesAloneTrans(m: Memory, m1: Memory, m2: Memory, l: Kernel, s: Process)
    requires LeavesAlone(m, m1, l, s) && LeavesAlone(m1, m2, l, s)
    ensures LeavesAlone(m, m2, l, s)
  {
    hide Sound, Frames;
  }

  lemma LoadedNext(m: Memory, m1: Memory, m': Memory, l: Kernel, s: Process, t: set<nat>, b: nat, t': set<nat>, p: nat,
      n: nat, q: nat)
    requires 0 < n && p < KERNEL_PAGE && q < KERNEL_PAGE && b !in t && t + {b} <= t'
    requires Shared(m1, l, s, p, b) && (q != p ==> KeepsPage(m, m1, l, s, q))
    requires Loaded(m1, m', l, s, t + {b}, t', p + 1, n - 1, q)
    ensures Loaded(m, m', l, s, t, t', p, n, q)
  {
    hide UserEntry;
  }

  /** One turn of the page loop and the rest of it. */
  lemma LoadStep(m: Memory, l: Kernel, s: Process, taken: set<nat>, p: nat, n: nat)
    requires Ready(m, l, s, taken) && 0 < n <= |FreeBlocks(taken)| && p + n <= KERNEL_PAGE
    ensures var (b, t) := AllocateBlock(taken); var m1 := LoadPage(m, l, s, b, p);
      t == taken + {b} && b !in taken && Ready(m1, l, s, t) && n - 1 <= |FreeBlocks(t)| && Shared(m1, l, s, p, b)
      && LoadPages(m, l, s, taken, p, n) == LoadPages(m1, l, s, t, p + 1, n - 1)
  {
    hide Sound, Reserved, Frames, FreeBlocks, LoadPage, AllocateBlock, LeavesAlone, KeepsPage, Shared;
    var (b, t) := AllocateBlock(taken);
    assert FreeBlocks(taken) != {};
    FreshBlock(taken, l);
    LoadPageIs(m, l, s, b, p, p);
    StillReady(m, LoadPage(m, l, s, b, p), l, s, taken, t);
  }

  /** No two loaded pages share a block. */
  lemma {:induction false} LoadedDistinct(m: Memory, l: Kernel, s: Process, taken: set<nat>, p: nat, n: nat, q: nat,
      r: nat)
    requires Ready(m, l, s, taken) && n <= |FreeBlocks(taken)| && p + n <= KERNEL_PAGE && p <= q < r < p + n
    ensures var m' := LoadPages(m, l, s, taken, p, n).0; FrameOf(m', l, q) != FrameOf(m', l, r)
    decreases n
  {
    hide Ready, FreeBlocks, LoadPage, LoadPages, AllocateBlock, LeavesAlone, Shared, Loaded, FrameOf;
    LoadStep(m, l, s, taken, p, n);
    var (b, t) := AllocateBlock(taken);
    var m1 := LoadPage(m, l, s, b, p);
    if q == p {
      LoadPagesIs(m1, l, s, t, p + 1, n - 1, q);
      LoadPagesIs(m1, l, s, t, p + 1, n - 1, r);
      var (m', t') := LoadPages(m1, l, s, t, p + 1, n - 1);
      LoadedApart(m1, m', l, s, t, b, t', p, n, r);
    } else {
      LoadedDistinct(m1, l, s, t, p + 1, n - 1, q, r);
    }
  }

  lemma LoadedApart(m1: Memory, m': Memory, l: Kernel, s: Process, t: set<nat>, b: nat, t': set<nat>, p: nat, n: nat,
      r: nat)
    requires 0 < n && p < r < p + n && r < KERNEL_PAGE && b in t && Shared(m1, l, s, p, b)
    requires Loaded(m1, m', l, s, t, t', p + 1, n - 1, p) && Loaded(m1, m', l, s, t, t', p + 1, n - 1, r)
    ensures FrameOf(m', l, p) != FrameOf(m', l, r)
  {}

  // ---- Writing the bytes ----

  /** Pages p to p + n - 1 of the kernel's tables lead to n different data frames: none of the kernel's
      and none of s. */
  ghost predicate Arena(m: Memory, l: Kernel, s: Process, p: nat, n: nat)
  {
    Linked(m, l) && p + n <= KERNEL_PAGE
    && (forall q :: p <= q < p + n ==>
         Present(Entry(m, l, q)) && !l.Holds(FrameOf(m, l, q)) && FrameOf(m, l, q) !in Frames(m, l, s))
    && (forall q, r :: p <= q < r < p + n ==> FrameOf(m, l, q) != FrameOf(m, l, r))
  }

  /** The byte the kernel reads at v. */
  function ReadVirtual(m: Memory, l: Kernel, v: word): byte
  {
    match Walk(m, l.directory, v)
    case None => 0
    case Some(a) => ReadByte(m, a)
  }

  /** m' may differ from m in the frames of the n pages from p on only. */
  ghost predicate OnlyPages(m: Memory, m': Memory, l: Kernel, p: nat, n: nat)
    requires p + n <= KERNEL_PAGE
  {
    SameKernel(m, m', l) && forall f :: 0 <= f < FRAMES && f !in RunFrames(m, l, p, n) ==> m'[f] == m[f]
  }

  lemma ArenaWalk(m: Memory, l: Kernel, s: Process, p: nat, n: nat, v: word)
    requires Arena(m, l, s, p, n) && p <= v / PAGE_SIZE < p + n
    ensures Walk(m, l.directory, v) == Some(FrameOf(m, l, v / PAGE_SIZE) * PAGE_SIZE + v % PAGE_SIZE)
    ensures !l.Holds(FrameOf(m, l, v / PAGE_SIZE)) && FrameOf(m, l, v / PAGE_SIZE) in RunFrames(m, l, p, n)
  {
    WalkIsTables(m, l, v);
  }

  /** A change inside the data frames keeps the arena and everything around it. */
  lemma ArenaKept(m: Memory, m': Memory, l: Kernel, s: Process, p: nat, n: nat)
    requires Arena(m, l, s, p, n) && OnlyPages(m, m', l, p, n)
    ensures Arena(m', l, s, p, n) && RunFrames(m', l, p, n) == RunFrames(m, l, p, n)
    ensures Frames(m', l, s) == Frames(m, l, s)
    ensures forall q :: 0 <= q < PAGES ==> Entry(m', l, q) == Entry(m, l, q)
  {
    hide Linked;
    SameKernelKeeps(m, m', l, s);
    KernelSame(m, m', l);
  }

  lemma OnlyPagesTrans(m: Memory, m1: Memory, m2: Memory, l: Kernel, p: nat, n: nat)
    requires p + n <= KERNEL_PAGE && OnlyPages(m, m1, l, p, n) && OnlyPages(m1, m2, l, p, n)
    requires RunFrames(m1, l, p, n) == RunFrames(m, l, p, n)
    ensures OnlyPages(m, m2, l, p, n)
  {
    hide RunFrames;
  }

  /** A byte stored at v is read back at v and changes no other byte of the arena. */
  lemma StoreIs(m: Memory, l: Kernel, s: Process, p: nat, n: nat, v: word, b: byte, w: word)
    requires Arena(m, l, s, p, n) && p <= v / PAGE_SIZE < p + n && p <= w / PAGE_SIZE < p + n
    ensures var m' := StoreByte(m, l, v, b);
      OnlyPages(m, m', l, p, n) && ReadVirtual(m', l, w) == if w == v then b else ReadVirtual(m, l, w)
  {
    hide Linked, RunFrames, Frames, Walk, WriteByte, ReadByte;
    var m' := StoreByte(m, l, v, b);
    ArenaWalk(m, l, s, p, n, v);
    ArenaWalk(m, l, s, p, n, w);
    var (f, g) := (FrameOf(m, l, v / PAGE_SIZE), FrameOf(m, l, w / PAGE_SIZE));
    WriteByteFrame(m, f, v % PAGE_SIZE, b);
    ArenaKept(m, m', l, s, p, n);
    ArenaWalk(m', l, s, p, n, w);
    WriteByteReads(m, f * PAGE_SIZE + v % PAGE_SIZE, b, g * PAGE_SIZE + w % PAGE_SIZE);
    SameVirtual(v, w, f, g);
  }

  lemma SameVirtual(v: nat, w: nat, f: nat, g: nat)
    requires v / PAGE_SIZE == w / PAGE_SIZE <==> f == g
    ensures f * PAGE_SIZE + v % PAGE_SIZE == g * PAGE_SIZE + w % PAGE_SIZE <==> v == w
  {}

  lemma WriteByteFrame(m: Memory, f: nat, o: nat, b: byte)
    requires f < FRAMES && o < PAGE_SIZE
    ensures OnlyFrame(m, WriteByte(m, f * PAGE_SIZE + o, b), f)
  {
    assert (f * PAGE_SIZE + o) / FRAME_BYTES == f;
  }

  /** memset of count bytes to 0. */
  lemma {:induction false} FillIs(m: Memory, l: Kernel, s: Process, p: nat, n: nat, v: word, count: nat, w: word)
    requires p + n <= KERNEL_PAGE && Arena(m, l, s, p, n) && p * PAGE_SIZE <= v && v + count <= (p + n) * PAGE_SIZE
    requires p <= w / PAGE_SIZE < p + n
    ensures var m' := Fill(m, l, v, count);
      OnlyPages(m, m', l, p, n) && ReadVirtual(m', l, w) == if v <= w < v + count then 0 else ReadVirtual(m, l, w)
    decreases count
  {
    hide Arena, OnlyPages, ReadVirtual, StoreByte, RunFrames;
    if count == 0 {
      NoChange(m, l, p, n, s);
    } else {
      var m1 := StoreByte(m, l, v, 0);
      StoreIs(m, l, s, p, n, v, 0, w);
      ArenaKept(m, m1, l, s, p, n);
      FillIs(m1, l, s, p, n, v + 1, count - 1, w);
      OnlyPagesTrans(m, m1, Fill(m1, l, v + 1, count - 1), l, p, n);
    }
  }

  /** memcpy of data. */
  lemma {:induction false} CopyIs(m: Memory, l: Kernel, s: Process, p: nat, n: nat, v: word, data: seq<byte>, w: word)
    requires p + n <= KERNEL_PAGE && Arena(m, l, s, p, n) && p * PAGE_SIZE <= v && v + |data| <= (p + n) * PAGE_SIZE
    requires p <= w / PAGE_SIZE < p + n
    ensures var m' := Copy(m, l, v, data);
      OnlyPages(m, m', l, p, n)
      && ReadVirtual(m', l, w) == if v <= w < v + |data| then data[w - v] else ReadVirtual(m, l, w)
    decreases |data|
  {
    hide Arena, OnlyPages, ReadVirtual, StoreByte, RunFrames;
    if data == [] {
      NoChange(m, l, p, n, s);
    } else {
      var m1 := StoreByte(m, l, v, data[0]);
      StoreIs(m, l, s, p, n, v, data[0], w);
      ArenaKept(m, m1, l, s, p, n);
      CopyIs(m1, l, s, p, n, v + 1, data[1..], w);
      OnlyPagesTrans(m, m1, Copy(m1, l, v + 1, data[1..]), l, p, n);
    }
  }

  lemma NoChange(m: Memory, l: Kernel, p: nat, n: nat, s: Process)
    requires p + n <= KERNEL_PAGE
    ensures OnlyPages(m, m, l, p, n)
  {}

  // ---- One segment ----

  /** Every byte of a segment lies in the pages mapped for it. */
  lemma SegmentCovered(g: Segment, k: nat)
    requires UserSegment(g) && k < g.memsz
    ensures g.vaddr + k < WORD && FirstPage(g) <= (g.vaddr + k) / PAGE_SIZE < FirstPage(g) + PageCount(g.memsz)
    ensures FirstPage(g) * PAGE_SIZE <= g.vaddr && g.vaddr + g.memsz <= (FirstPage(g) + PageCount(g.memsz)) * PAGE_SIZE
  {}

  /** Byte k of the image of a segment: the file's byte, or 0 past the end of the file's part. */
  function ImageByte(g: Segment, k: nat): byte { if k < |g.data| then g.data[k] else 0 }

  /** The page of byte k of a segment. */
  function BytePage(g: Segment, k: nat): nat { (g.vaddr + k) / PAGE_SIZE }

  /** s holds the image of g but for the pages in gone: through the walk of its own directory every byte of the segment
      is found, in one of the given blocks, which belongs neither to the kernel nor to the table frames ts. */
  ghost predicate Holds(m: Memory, l: Kernel, s: Process, blocks: set<nat>, ts: set<nat>, g: Segment, gone: set<nat>)
    requires UserSegment(g)
  {
    forall k :: 0 <= k < g.memsz && BytePage(g, k) !in gone ==> HoldsByte(m, l, s, blocks, ts, g, k)
  }

  ghost predicate HoldsByte(m: Memory, l: Kernel, s: Process, blocks: set<nat>, ts: set<nat>, g: Segment, k: nat)
    requires UserSegment(g) && k < g.memsz
  {
    SegmentCovered(g, k);
    var q := BytePage(g, k);
    var f := HardwareFrame(UserEntry(m, l, s, q));
    TableLinked(m, l, s, q / PAGES_PER_TABLE) && Present(UserEntry(m, l, s, q)) && UserEntry(m, l, s, q) % 4 == 3
    && f in blocks && !l.Holds(f) && f !in ts
    && ReadByte(m, f * PAGE_SIZE + (g.vaddr + k) % PAGE_SIZE) == ImageByte(g, k)
  }

  /** What HoldsByte means to the processor: it finds the byte of the file, or zero behind it, and may write there. */
  lemma HeldByteIsWalked(m: Memory, l: Kernel, s: Process, blocks: set<nat>, ts: set<nat>, g: Segment, k: nat)
    requires UserSegment(g) && k < g.memsz && Sound(m, l, s)
    requires HoldsByte(m, l, s, blocks, ts, g, k)
    ensures g.vaddr + k < WORD && Walk(m, s.frame, g.vaddr + k).Some?
            && ReadByte(m, Walk(m, s.frame, g.vaddr + k).value) == (if k < |g.data| then g.data[k] else 0)
            && WritableAt(m, s.frame, g.vaddr + k)
  {
    hide Linked, Backed, Walk, ReadByte, Frames, UserEntry, TableLinked, WritableAt;
    SegmentCovered(g, k);
    UserWalk(m, l, s, g.vaddr + k);
    UserWritable(m, l, s, g.vaddr + k);
  }

  lemma LoadMakesArena(m: Memory, l: Kernel, s: Process, taken: set<nat>, p: nat, n: nat)
    requires Ready(m, l, s, taken) && n <= |FreeBlocks(taken)| && p + n <= KERNEL_PAGE
    ensures var (m', taken') := LoadPages(m, l, s, taken, p, n);
      Arena(m', l, s, p, n) && (forall f :: f in RunFrames(m', l, p, n) ==> f !in taken)
  {
    hide Sound, Linked, Reserved, FreeBlocks, LoadPages, LeavesAlone, UserEntry, TableLinked, Frames, FrameOf;
    var (m', taken') := LoadPages(m, l, s, taken, p, n);
    LoadPagesIs(m, l, s, taken, p, n, 0);
    ReadyLinked(m', l, s, taken');
    forall q | p <= q < p + n
      ensures Present(Entry(m', l, q)) && FrameOf(m', l, q) !in taken && !l.Holds(FrameOf(m', l, q))
                && FrameOf(m', l, q) !in Frames(m', l, s)
    {
      LoadPagesIs(m, l, s, taken, p, n, q);
      NotReserved(m, m', l, s, taken, FrameOf(m', l, q));
    }
    forall q, r | p <= q < r < p + n ensures FrameOf(m', l, q) != FrameOf(m', l, r) {
      LoadedDistinct(m, l, s, taken, p, n, q, r);
    }
  }

  lemma ReadyLinked(m: Memory, l: Kernel, s: Process, taken: set<nat>)
    requires Ready(m, l, s, taken)
    ensures Linked(m, l) && Sound(m, l, s) && Reserved(taken, l) && Frames(m, l, s) <= taken
  {}

  lemma NotReserved(m: Memory, m': Memory, l: Kernel, s: Process, taken: set<nat>, f: nat)
    requires Ready(m, l, s, taken) && LeavesAlone(m, m', l, s) && f !in taken && f < FRAMES
    ensures !l.Holds(f) && f !in Frames(m', l, s)
  {
    hide Sound, Frames;
  }

  /** memset and memcpy of a segment into its arena. */
  lemma BytesWritten(m: Memory, l: Kernel, s: Process, g: Segment)
    requires UserSegment(g) && Arena(m, l, s, FirstPage(g), PageCount(g.memsz))
    ensures var m' := Copy(Fill(m, l, g.vaddr, g.memsz), l, g.vaddr, g.data);
      OnlyPages(m, m', l, FirstPage(g), PageCount(g.memsz))
      && forall k :: 0 <= k < g.memsz ==> g.vaddr + k < WORD && ReadVirtual(m', l, g.vaddr + k) == ImageByte(g, k)
  {
    hide Arena, OnlyPages, ReadVirtual, Fill, Copy, RunFrames;
    var (p, n) := (FirstPage(g), PageCount(g.memsz));
    var m1 := Fill(m, l, g.vaddr, g.memsz);
    var m' := Copy(m1, l, g.vaddr, g.data);
    SegmentSpans(g);
    assert p <= p * PAGE_SIZE / PAGE_SIZE < p + n;
    FillIs(m, l, s, p, n, g.vaddr, g.memsz, p * PAGE_SIZE);
    ArenaKept(m, m1, l, s, p, n);
    CopyIs(m1, l, s, p, n, g.vaddr, g.data, p * PAGE_SIZE);
    OnlyPagesTrans(m, m1, m', l, p, n);
    forall k | 0 <= k < g.memsz ensures g.vaddr + k < WORD && ReadVirtual(m', l, g.vaddr + k) == ImageByte(g, k) {
      SegmentCovered(g, k);
      FillIs(m, l, s, p, n, g.vaddr, g.memsz, g.vaddr + k);
      CopyIs(m1, l, s, p, n, g.vaddr, g.data, g.vaddr + k);
    }
  }

  lemma SegmentSpans(g: Segment)
    requires UserSegment(g)
    ensures FirstPage(g) * PAGE_SIZE <= g.vaddr && g.vaddr + g.memsz <= (FirstPage(g) + PageCount(g.memsz)) * PAGE_SIZE
  {}

  /** Writing data frames leaves s as it is. */
  lemma DataKeepsSpace(m: Memory, m': Memory, l: Kernel, s: Process, p: nat, n: nat)
    requires p + n <= KERNEL_PAGE && Arena(m, l, s, p, n) && OnlyPages(m, m', l, p, n) && Sound(m, l, s)
    requires 0 !in RunFrames(m, l, p, n)
    ensures Sound(m', l, s) && Frames(m', l, s) == Frames(m, l, s) && m'[s.frame] == m[s.frame]
    ensures forall q :: 0 <= q < PAGES ==> Entry(m', l, q) == Entry(m, l, q)
    ensures forall q :: 0 <= q < KERNEL_PAGE ==> UserEntry(m', l, s, q) == UserEntry(m, l, s, q)
  {
    hide Linked, Backed, Directed, UserEntry;
    ArenaKept(m, m', l, s, p, n);
    ArenaLinked(m', l, s, p, n);
    Isolation.FramesProper(m, l, s);
    assert Isolation.Spares(m, m', l, s) by { SparesFromArena(m, m', l, s, p, n); }
    Isolation.SparedSound(m, m', l, s);
    Isolation.SparedTables(m, m', l, s);
  }

  lemma ArenaLinked(m: Memory, l: Kernel, s: Process, p: nat, n: nat)
    requires Arena(m, l, s, p, n)
    ensures Linked(m, l)
  {}

  lemma SparesFromArena(m: Memory, m': Memory, l: Kernel, s: Process, p: nat, n: nat)
    requires p + n <= KERNEL_PAGE && Arena(m, l, s, p, n) && OnlyPages(m, m', l, p, n) && 0 !in RunFrames(m, l, p, n)
    requires forall q :: 0 <= q < PAGES ==> Entry(m', l, q) == Entry(m, l, q)
    ensures Isolation.Spares(m, m', l, s)
  {}

  /** Taken frames outside the kernel's tables and the frames of s keep their contents; the kernel's
      entries from 0xC0000000 up and s itself are kept. */
  ghost predicate LeavesTaken(m: Memory, m': Memory, l: Kernel, s: Process, taken: set<nat>)
  {
    Sound(m', l, s) && Frames(m', l, s) == Frames(m, l, s)
    && (forall p :: KERNEL_PAGE <= p < PAGES ==> Entry(m', l, p) == Entry(m, l, p))
    && forall f :: 0 <= f < FRAMES && f in taken && !l.Holds(f) && f !in Frames(m, l, s) ==> m'[f] == m[f]
  }

  lemma LoadSegmentKeeps(m: Memory, l: Kernel, s: Process, taken: set<nat>, g: Segment)
    requires UserSegment(g) && Ready(m, l, s, taken) && PageCount(g.memsz) <= |FreeBlocks(taken)|
    ensures var (m', taken') := LoadSegment(m, l, s, taken, g);
      var (m1, t1) := LoadPages(m, l, s, taken, FirstPage(g), PageCount(g.memsz));
      taken' == t1 && Ready(m', l, s, taken') && LeavesTaken(m, m', l, s, taken) && taken <= taken'
      && |FreeBlocks(taken')| == |FreeBlocks(taken)| - PageCount(g.memsz)
      && Arena(m', l, s, FirstPage(g), PageCount(g.memsz))
      && (forall k :: 0 <= k < g.memsz ==> g.vaddr + k < WORD && ReadVirtual(m', l, g.vaddr + k) == ImageByte(g, k))
      && (forall q :: 0 <= q < PAGES ==> Entry(m', l, q) == Entry(m1, l, q))
      && (forall q :: 0 <= q < KERNEL_PAGE ==>
          UserEntry(m', l, s, q) == UserEntry(m1, l, s, q)) && m'[s.frame] == m1[s.frame]
  {
    hide Sound, Linked, Reserved, Frames, FreeBlocks, LoadPages, Fill, Copy, UserEntry, Arena, OnlyPages, RunFrames,
      ReadVirtual, LeavesAlone, LeavesTaken, Loaded;
    var (p, n) := (FirstPage(g), PageCount(g.memsz));
    var (m1, t) := LoadPages(m, l, s, taken, p, n);
    LoadPagesIs(m, l, s, taken, p, n, 0);
    LoadMakesArena(m, l, s, taken, p, n);
    BytesWritten(m1, l, s, g);
    var m' := Copy(Fill(m1, l, g.vaddr, g.memsz), l, g.vaddr, g.data);
    ReadyLinked(m1, l, s, t);
    ReadyLinked(m, l, s, taken);
    ZeroTaken(taken, l);
    DataKeepsSpace(m1, m', l, s, p, n);
    ArenaKept(m1, m', l, s, p, n);
    LeftAlone(m, m1, m', l, s, taken, p, n);
  }

  lemma ZeroTaken(taken: set<nat>, l: Kernel)
    requires Reserved(taken, l)
    ensures 0 in taken
  {}

  lemma LeftAlone(m: Memory, m1: Memory, m': Memory, l: Kernel, s: Process, taken: set<nat>, p: nat, n: nat)
    requires LeavesAlone(m, m1, l, s) && p + n <= KERNEL_PAGE && OnlyPages(m1, m', l, p, n)
    requires forall f :: f in RunFrames(m1, l, p, n) ==> f !in taken
    requires Sound(m', l, s) && Frames(m', l, s) == Frames(m1, l, s)
    requires forall q :: 0 <= q < PAGES ==> Entry(m', l, q) == Entry(m1, l, q)
    ensures LeavesTaken(m, m', l, s, taken)
  {
    hide Sound, Frames, RunFrames;
  }

  /** Loading a segment puts its image into s. */
  lemma LoadSegmentHolds(m: Memory, l: Kernel, s: Process, taken: set<nat>, ts: set<nat>, g: Segment)
    requires ts <= taken && UserSegment(g) && Ready(m, l, s, taken) && PageCount(g.memsz) <= |FreeBlocks(taken)|
    ensures var (m', taken') := LoadSegment(m, l, s, taken, g); Holds(m', l, s, taken' - taken, ts, g, {})
  {
    hide Ready, LoadPages, UserEntry, FreeBlocks, LeavesTaken, Arena, LoadSegment, HoldsByte, ReadVirtual, LeavesAlone,
      Loaded;
    var (m', taken') := LoadSegment(m, l, s, taken, g);
    LoadSegmentKeeps(m, l, s, taken, g);
    var (p, n) := (FirstPage(g), PageCount(g.memsz));
    var (m1, t) := LoadPages(m, l, s, taken, p, n);
    forall k | 0 <= k < g.memsz ensures HoldsByte(m', l, s, taken' - taken, ts, g, k) {
      SegmentCovered(g, k);
      var q := (g.vaddr + k) / PAGE_SIZE;
      LoadPagesIs(m, l, s, taken, p, n, q);
      LoadedShared(m, m1, m', l, s, taken, t, p, n, q);
      SharedByteHeld(m', l, s, taken' - taken, ts, g, k);
    }
  }

  lemma LoadedShared(m: Memory, m1: Memory, m': Memory, l: Kernel, s: Process, taken: set<nat>, taken': set<nat>,
      p: nat, n: nat, q: nat)
    requires p <= q < p + n && q < KERNEL_PAGE && Loaded(m, m1, l, s, taken, taken', p, n, q)
    requires forall q :: 0 <= q < PAGES ==> Entry(m', l, q) == Entry(m1, l, q)
    requires forall q :: 0 <= q < KERNEL_PAGE ==> UserEntry(m', l, s, q) == UserEntry(m1, l, s, q)
    requires m'[s.frame] == m1[s.frame]
    ensures Shared(m', l, s, q, FrameOf(m', l, q)) && FrameOf(m', l, q) in taken' && FrameOf(m', l, q) !in taken
  {
    hide UserEntry;
  }

  lemma SharedByteHeld(m: Memory, l: Kernel, s: Process, blocks: set<nat>, ts: set<nat>, g: Segment, k: nat)
    requires UserSegment(g) && k < g.memsz && Arena(m, l, s, FirstPage(g), PageCount(g.memsz))
    requires g.vaddr + k < WORD && ReadVirtual(m, l, g.vaddr + k) == ImageByte(g, k)
    requires var q := (g.vaddr + k) / PAGE_SIZE;
      q < KERNEL_PAGE && Shared(m, l, s, q, FrameOf(m, l, q)) && FrameOf(m, l, q) in blocks && FrameOf(m, l, q) !in ts
    ensures HoldsByte(m, l, s, blocks, ts, g, k)
  {
    hide Linked, UserEntry, Walk, ReadByte, RunFrames, Frames, TableLinked;
    SegmentCovered(g, k);
    ArenaWalk(m, l, s, FirstPage(g), PageCount(g.memsz), g.vaddr + k);
  }

  /** The first page of a segment gets the first block the allocator hands out. */
  lemma SegmentFirstBlock(m: Memory, l: Kernel, s: Process, taken: set<nat>, g: Segment)
    requires UserSegment(g) && Ready(m, l, s, taken) && PageCount(g.memsz) <= |FreeBlocks(taken)|
    ensures Shared(LoadSegment(m, l, s, taken, g).0, l, s, FirstPage(g), AllocateBlock(taken).0)
  {
    hide Sound, Reserved, Frames, FreeBlocks, LoadPage, AllocateBlock, LeavesAlone, UserEntry, TableLinked,
      LeavesTaken, Arena, ReadVirtual, LoadSegment;
    var (p, n) := (FirstPage(g), PageCount(g.memsz));
    var (b, t) := AllocateBlock(taken);
    assert FreeBlocks(taken) != {};
    FreshBlock(taken, l);
    var m1 := LoadPage(m, l, s, b, p);
    LoadPageIs(m, l, s, b, p, p);
    StillReady(m, m1, l, s, taken, t);
    LoadPagesIs(m1, l, s, t, p + 1, n - 1, p);
    LoadSegmentKeeps(m, l, s, taken, g);
    SharedKept(m1, LoadPages(m, l, s, taken, p, n).0, LoadSegment(m, l, s, taken, g).0, l, s, p, b);
  }

  lemma SharedKept(m1: Memory, m2: Memory, m': Memory, l: Kernel, s: Process, p: nat, b: nat)
    requires p < KERNEL_PAGE && Shared(m1, l, s, p, b) && KeepsPage(m1, m2, l, s, p)
    requires Entry(m', l, p) == Entry(m2, l, p) && UserEntry(m', l, s, p) == UserEntry(m2, l, s, p)
    requires m'[s.frame] == m2[s.frame]
    requires forall q :: 0 <= q < PAGES ==> Entry(m', l, q) == Entry(m2, l, q)
    ensures Shared(m', l, s, p, b)
  {
    hide UserEntry;
  }
}
