/** Giving back the blocks of a program (EndProcess, scheduler.cpp). */
module ProgramEnd {
  import opened Bits
  import opened PageEntry
  import opened PhysicalMemory
  import opened PhysicalAllocator
  import opened Paging
  import opened AddressSpace
  import opened CreateSpace
  import opened Isolation
  import opened ElfLoader
  import opened ProgramPages
  import opened ProgramImages

  /** The blocks freed for n pages: each is looked up in the kernel's own tables. */
  function FreePagesOf(m: Memory, l: Kernel, taken: set<nat>, p: nat, n: nat): set<nat>
    requires p + n <= KERNEL_PAGE
    decreases n, p
  {
    if n == 0 then taken
    else FreePagesOf(m, l, taken - {VirtualToPhysical(m, l, p * PAGE_SIZE) / BLOCK_SIZE}, p + 1, n - 1)
  }

  /** EndProcess: the taken blocks after the loop over the program headers. */
  function FreeProgram(m: Memory, l: Kernel, taken: set<nat>, gs: seq<Segment>): set<nat>
    requires forall i :: 0 <= i < |gs| ==> UserSegment(gs[i])
    decreases gs
  {
    if gs == [] then taken
    else if gs[0].memsz == 0 then FreeProgram(m, l, taken, gs[1..])
    else
      assert UserSegment(gs[0]);
      FreeProgram(m, l, FreePagesOf(m, l, taken, FirstPage(gs[0]), PageCount(gs[0].memsz)), gs[1..])
  }

  /** The 32-bit usage counter after n blocks were given back. */
  function Less(used: word, n: nat): word { (used - n) % WORD }

  lemma LessNothing(used: word)
    ensures Less(used, 0) == used
  {}

  lemma LessMore(used: word, a: nat, b: nat)
    ensures Less(used, a + b) == Less(Less(used, a), b) && Less(Less(used, a), 1) == (Less(used, a) - 1) % WORD
  {
    var q := (used - a) / WORD;
    assert Less(used, a) == used - a - WORD * q;
    ModMultiple(used - a - b, q);
  }

  /** Counting down n times keeps the counter's distance if and only if as many blocks were given back. */
  lemma CounterAfter(used: word, taken: set<nat>, blocks: set<nat>, n: nat)
    requires blocks <= taken && |blocks| <= n < WORD
    ensures Drift(Less(used, n), taken - blocks) == Drift(used, taken) <==> |blocks| == n
  {
    assert (taken - blocks) + blocks == taken;
    var (d: int, c) := (n, n - |blocks|);
    ModShift(used, |taken|, -d);
    assert Less(used, n) - |taken - blocks| == (Less(used, n) - (|taken| - n)) - c;
    SameModulo(Less(used, n) - (|taken| - n), c);
  }

  lemma SameModulo(x: int, c: nat)
    requires c < WORD
    ensures (x - c) % WORD == x % WORD <==> c == 0
  {}

  /** The frames of pages in the kernel's tables. */
  ghost function FramesIn(m: Memory, l: Kernel, qs: set<nat>): set<nat>
  {
    set q | q in qs && q < PAGES :: FrameOf(m, l, q)
  }

  lemma {:induction false} FreePagesIs(m: Memory, l: Kernel, taken: set<nat>, p: nat, n: nat)
    requires Linked(m, l) && p + n <= KERNEL_PAGE
    ensures FreePagesOf(m, l, taken, p, n) == taken - RunFrames(m, l, p, n)
    decreases n
  {
    hide Linked, RunFrames, FrameOf;
    if n == 0 {
      NoFrames(m, l, p);
    } else {
      KernelLooksUp(m, l, p);
      RunFramesFirst(m, l, p, n);
      FreePagesIs(m, l, taken - {FrameOf(m, l, p)}, p + 1, n - 1);
    }
  }

  lemma KernelLooksUp(m: Memory, l: Kernel, p: nat)
    requires Linked(m, l) && p < KERNEL_PAGE
    ensures VirtualToPhysical(m, l, p * PAGE_SIZE) / BLOCK_SIZE == FrameOf(m, l, p)
  {
    assert p * PAGE_SIZE / PAGE_SIZE == p;
    FramesDiffer(Entry(m, l, p));
  }

  lemma RunFramesFirst(m: Memory, l: Kernel, p: nat, n: nat)
    requires 0 < n && p + n <= PAGES
    ensures RunFrames(m, l, p, n) == {FrameOf(m, l, p)} + RunFrames(m, l, p + 1, n - 1)
  {
    RunFramesSplit(m, m, l, p, n);
  }

  /** The frames of a program's pages: those of its first segment and those of the rest. */
  lemma FramesSplit(m: Memory, l: Kernel, gs: seq<Segment>)
    requires gs != [] && UserSegment(gs[0])
    ensures FramesIn(m, l, PagesOf(gs))
            == FramesIn(m, l, PagesOf(gs[1..]))
               + (if gs[0].memsz == 0 then {} else RunFrames(m, l, FirstPage(gs[0]), PageCount(gs[0].memsz)))
  {
    hide FrameOf;
    var g := gs[0];
    var rest := FramesIn(m, l, PagesOf(gs[1..]))
      + (if g.memsz == 0 then {} else RunFrames(m, l, FirstPage(g), PageCount(g.memsz)));
    forall q | q in PagesOf(gs) ensures FrameOf(m, l, q) in rest {
      var k :| 0 <= k < |gs| && MapsPage(gs[k], q);
      if k > 0 { assert MapsPage(gs[1..][k - 1], q); assert q in PagesOf(gs[1..]); }
    }
    forall q | q in PagesOf(gs[1..]) ensures q in PagesOf(gs) {
      var k :| 0 <= k < |gs[1..]| && MapsPage(gs[1..][k], q);
      assert MapsPage(gs[k + 1], q);
    }
    forall q | MapsPage(g, q) ensures q in PagesOf(gs) { assert MapsPage(gs[0], q); }
  }

  lemma {:induction false} FreeProgramIs(m: Memory, l: Kernel, taken: set<nat>, gs: seq<Segment>)
    requires Linked(m, l) && forall i :: 0 <= i < |gs| ==> UserSegment(gs[i])
    ensures FreeProgram(m, l, taken, gs) == taken - FramesIn(m, l, PagesOf(gs))
    decreases gs
  {
    hide Linked, RunFrames, FrameOf, FreePagesOf, PageCount, FirstPage, UserSegment;
    if gs == [] {
      NoPagesNoFrames(m, l);
    } else {
      FramesSplit(m, l, gs);
      if gs[0].memsz == 0 {
        FreeProgramIs(m, l, taken, gs[1..]);
      } else {
        SegmentFits(gs[0]);
        FreePagesIs(m, l, taken, FirstPage(gs[0]), PageCount(gs[0].memsz));
        FreeProgramIs(m, l, taken - RunFrames(m, l, FirstPage(gs[0]), PageCount(gs[0].memsz)), gs[1..]);
      }
    }
  }

  lemma NoPagesNoFrames(m: Memory, l: Kernel)
    ensures FramesIn(m, l, PagesOf([])) == {}
  {}

  // ---- What a load takes ----

  lemma {:induction false} LoadAllCount(y: System, l: Kernel, i: nat, gs: seq<Segment>)
    requires Consistent(y, l) && i < |y.spaces| && Program(gs) && BlocksNeeded(gs) <= |FreeBlocks(y.taken)|
    ensures var z := LoadAllInto(y, l, i, gs); y.taken <= z.taken && |z.taken - y.taken| == BlocksNeeded(gs)
    decreases gs
  {
    hide Consistent, LoadInto, FreeBlocks, UserSegment;
    if gs == [] {
      assert y.taken - y.taken == {};
    } else if gs[0].memsz == 0 {
      LoadAllCount(y, l, i, gs[1..]);
    } else {
      var y1 := LoadInto(y, l, i, gs[0]);
      LoadConsistent(y, l, i, gs[0]);
      LoadIntoSpaces(y, l, i, gs[0]);
      LoadCount(y, l, i, gs[0]);
      LoadAllCount(y1, l, i, gs[1..]);
      TakenTwice(y.taken, y1.taken, LoadAllInto(y1, l, i, gs[1..]).taken);
    }
  }

  lemma LoadCount(y: System, l: Kernel, i: nat, g: Segment)
    requires Consistent(y, l) && i < |y.spaces| && UserSegment(g) && PageCount(g.memsz) <= |FreeBlocks(y.taken)|
    ensures var z := LoadInto(y, l, i, g); y.taken <= z.taken && |z.taken - y.taken| == PageCount(g.memsz)
  {
    hide Consistent, Sound, Linked, Frames, FreeBlocks, LoadSegment, LoadPages, Reserved, Arena, ReadVirtual,
      LeavesTaken, LeavesAlone, UserEntry, Loaded;
    SpaceReady(y, l, i);
    LoadSegmentKeeps(y.m, l, y.spaces[i], y.taken, g);
    LoadPagesIs(y.m, l, y.spaces[i], y.taken, FirstPage(g), PageCount(g.memsz), 0);
    SubsetCardinality(LoadInto(y, l, i, g).taken, y.taken);
  }

  lemma SubsetCardinality(a: set<nat>, b: set<nat>)
    requires b <= a
    ensures |a - b| == |a| - |b|
  {}

  lemma TakenTwice(a: set<nat>, b: set<nat>, c: set<nat>)
    requires a <= b <= c
    ensures |c - a| == |b - a| + |c - b|
  {
    assert c - a == (b - a) + (c - b);
  }

  /** Blocks taken are blocks of the bitmap. */
  lemma {:induction false} LoadPagesBlocks(m: Memory, l: Kernel, s: Process, taken: set<nat>, p: nat, n: nat, f: nat)
    requires p + n <= KERNEL_PAGE && f in LoadPages(m, l, s, taken, p, n).1 && f !in taken
    ensures f < BLOCKS
    decreases n
  {
    hide LoadPage, FirstFree;
    if n > 0 {
      var (b, t) := AllocateBlock(taken);
      if f !in t { LoadPagesBlocks(LoadPage(m, l, s, b, p), l, s, t, p + 1, n - 1, f); }
    }
  }

  lemma {:induction false} LoadAllBlocks(y: System, l: Kernel, i: nat, gs: seq<Segment>, f: nat)
    requires i < |y.spaces| && Program(gs) && f in LoadAllInto(y, l, i, gs).taken && f !in y.taken
    ensures f < BLOCKS
    decreases gs
  {
    hide LoadPages, UserSegment, Fill, Copy;
    if gs != [] {
      if gs[0].memsz == 0 {
        LoadAllBlocks(y, l, i, gs[1..], f);
      } else {
        var y1 := LoadInto(y, l, i, gs[0]);
        LoadIntoSpaces(y, l, i, gs[0]);
        SegmentFits(gs[0]);
        if f in y1.taken {
          LoadPagesBlocks(y.m, l, y.spaces[i], y.taken, FirstPage(gs[0]), PageCount(gs[0].memsz), f);
        } else {
          LoadAllBlocks(y1, l, i, gs[1..], f);
        }
      }
    }
  }

  /** Of the blocks a load takes, the frames its pages have in the kernel's tables: as many as there are pages, and all
      of them if and only if no page is mapped for two segments. */
  lemma LoadAllTakes(y: System, l: Kernel, i: nat, gs: seq<Segment>)
    requires Consistent(y, l) && i < |y.spaces| && Program(gs) && BlocksNeeded(gs) <= |FreeBlocks(y.taken)|
    ensures var z := LoadAllInto(y, l, i, gs); var frames := FramesIn(z.m, l, PagesOf(gs));
      frames <= z.taken - y.taken && |frames| == |PagesOf(gs)| && (frames == z.taken - y.taken <==> Separate(gs))
  {
    hide Consistent, FreeBlocks, LoadAllInto, FrameOf, MapsAny, UserSegment, Separate, BlocksNeeded, Shared;
    var z := LoadAllInto(y, l, i, gs);
    forall q | q in PagesOf(gs) ensures FrameOf(z.m, l, q) in z.taken - y.taken { PageAfterProgram(y, l, i, gs, q); }
    forall q, r | q in PagesOf(gs) && r in PagesOf(gs) && q < r ensures FrameOf(z.m, l, q) != FrameOf(z.m, l, r) {
      ProgramFramesDistinct(y, l, i, gs, q, r);
    }
    FramesCounted(z.m, l, PagesOf(gs));
    LoadAllCount(y, l, i, gs);
    PagesCounted(gs);
    SameCount(FramesIn(z.m, l, PagesOf(gs)), z.taken - y.taken);
  }

  lemma SameCount(a: set<nat>, b: set<nat>)
    requires a <= b
    ensures a == b <==> |a| == |b|
  {
    assert |b - a| == |b| - |a|;
    if |a| == |b| { assert b - a == {}; assert b == a + (b - a); }
  }

  /** Pages on different frames have as many frames. */
  lemma {:induction false} FramesCounted(m: Memory, l: Kernel, qs: set<nat>)
    requires forall q :: q in qs ==> q < KERNEL_PAGE
    requires forall q, r :: q in qs && r in qs && q < r ==> FrameOf(m, l, q) != FrameOf(m, l, r)
    ensures |FramesIn(m, l, qs)| == |qs|
    decreases qs
  {
    hide FrameOf;
    if qs != {} {
      var p :| p in qs;
      FramesCounted(m, l, qs - {p});
      forall q | q in qs - {p} ensures FrameOf(m, l, q) != FrameOf(m, l, p) {
        if q < p { assert FrameOf(m, l, q) != FrameOf(m, l, p); } else { assert FrameOf(m, l, p) != FrameOf(m, l, q); }
      }
      assert FramesIn(m, l, qs) == FramesIn(m, l, qs - {p}) + {FrameOf(m, l, p)};
    }
  }

  /** No two pages of a program share a block. */
  lemma {:induction false} ProgramFramesDistinct(y: System, l: Kernel, i: nat, gs: seq<Segment>, q: nat, r: nat)
    requires Consistent(y, l) && i < |y.spaces| && Program(gs) && BlocksNeeded(gs) <= |FreeBlocks(y.taken)|
    requires MapsAny(gs, q) && MapsAny(gs, r) && q < r < KERNEL_PAGE
    ensures var z := LoadAllInto(y, l, i, gs); FrameOf(z.m, l, q) != FrameOf(z.m, l, r)
    decreases gs
  {
    hide Consistent, LoadInto, FreeBlocks, MapsPage, TableFramesOf, MapsAny, FrameOf, UserSegment, PageAfter, KeepsPage;
    if gs == [] {
      NothingMapped(q);
    } else {
      MapsSplit(gs, q);
      MapsSplit(gs, r);
      if gs[0].memsz == 0 {
        EmptyMapsNothing(gs[0], q);
        EmptyMapsNothing(gs[0], r);
        ProgramFramesDistinct(y, l, i, gs[1..], q, r);
      } else {
        var y1 := LoadInto(y, l, i, gs[0]);
        LoadConsistent(y, l, i, gs[0]);
        LoadIntoSpaces(y, l, i, gs[0]);
        PageAfterLoad(y, l, i, gs[0], q);
        PageAfterLoad(y, l, i, gs[0], r);
        PageAfterProgram(y1, l, i, gs[1..], q);
        PageAfterProgram(y1, l, i, gs[1..], r);
        var z := LoadAllInto(y1, l, i, gs[1..]);
        if MapsAny(gs[1..], q) && MapsAny(gs[1..], r) {
          ProgramFramesDistinct(y1, l, i, gs[1..], q, r);
        } else if MapsAny(gs[1..], q) {
          KeptFrameOlder(y, y1, z, l, i, r, q);
        } else if MapsAny(gs[1..], r) {
          KeptFrameOlder(y, y1, z, l, i, q, r);
        } else {
          SegmentFramesDistinct(y, l, i, gs[0], q, r);
          SameFrame(y1.m, z.m, l, y1.spaces[i], q);
          SameFrame(y1.m, z.m, l, y1.spaces[i], r);
        }
      }
    }
  }

  /** A frame taken by the first load and kept is none that a later load took. */
  lemma KeptFrameOlder(y: System, y1: System, z: System, l: Kernel, i: nat, q: nat, r: nat)
    requires q < KERNEL_PAGE && r < KERNEL_PAGE && i < |y.spaces| && y1.spaces == y.spaces
    requires PageAfter(y, y1, l, i, q) && KeepsPage(y1.m, z.m, l, y1.spaces[i], q) && PageAfter(y1, z, l, i, r)
    ensures FrameOf(z.m, l, q) != FrameOf(z.m, l, r)
  {
    hide UserEntry;
  }

  lemma SegmentFramesDistinct(y: System, l: Kernel, i: nat, g: Segment, q: nat, r: nat)
    requires Consistent(y, l) && i < |y.spaces| && UserSegment(g) && PageCount(g.memsz) <= |FreeBlocks(y.taken)|
    requires MapsPage(g, q) && MapsPage(g, r) && q < r < KERNEL_PAGE
    ensures var z := LoadInto(y, l, i, g); FrameOf(z.m, l, q) != FrameOf(z.m, l, r)
  {
    hide Consistent, Sound, Linked, Frames, FreeBlocks, LoadSegment, LoadPages, Reserved, ReadVirtual, LeavesTaken,
      LeavesAlone, UserEntry, TableLinked;
    SpaceReady(y, l, i);
    LoadSegmentKeeps(y.m, l, y.spaces[i], y.taken, g);
  }

  lemma SameFrame(m: Memory, m': Memory, l: Kernel, s: Process, q: nat)
    requires q < KERNEL_PAGE && KeepsPage(m, m', l, s, q)
    ensures FrameOf(m', l, q) == FrameOf(m, l, q)
  {
    hide UserEntry;
  }

  /** A page of any space other than the one loaded into, and a page the program does not map, leads where it led. */
  lemma {:induction false} LoadAllKeepsPage(y: System, l: Kernel, i: nat, gs: seq<Segment>, j: nat, q: nat)
    requires Consistent(y, l) && i < |y.spaces| && j < |y.spaces| && Program(gs)
    requires BlocksNeeded(gs) <= |FreeBlocks(y.taken)|
    requires q < KERNEL_PAGE && (j != i || !MapsAny(gs, q))
    ensures LeadsAsBefore(y.m, LoadAllInto(y, l, i, gs).m, l, y.spaces[j], q)
    decreases gs
  {
    hide Consistent, LoadInto, FreeBlocks, TableFramesOf, MapsAny, UserEntry, TableLinked;
    if gs != [] {
      MapsSplit(gs, q);
      if gs[0].memsz == 0 {
        LoadAllKeepsPage(y, l, i, gs[1..], j, q);
      } else {
        LoadConsistent(y, l, i, gs[0]);
        LoadIntoSpaces(y, l, i, gs[0]);
        if j != i { OtherPageKept(y, l, i, gs[0], j, q); } else { OwnPageKept(y, l, i, gs[0], q); }
        LoadAllKeepsPage(LoadInto(y, l, i, gs[0]), l, i, gs[1..], j, q);
      }
    }
  }
}
