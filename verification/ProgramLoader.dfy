/** The loader's loops as they run (LoadELF and EndProcess, scheduler.cpp), against the functions of
    ElfLoader and ProgramEnd. */
module ProgramLoader {
  import opened Bits
  import opened Options
  import opened PageEntry
  import opened PhysicalMemory
  import opened PhysicalAllocator
  import opened Paging
  import opened AddressSpace
  import opened VirtualMemory
  import opened ElfLoader
  import opened ProgramPages
  import opened ProgramImages
  import opened ProgramEnd
  import opened Isolation
  import CreateSpace
  import R = RunAllocator

  class Loader {
    const mmu: Mmu

    constructor (mmu: Mmu)
      ensures this.mmu == mmu
    {
      this.mmu := mmu;
    }

    /** The page loop of a segment: every block is mapped in the kernel's tables and in those of dir. */
    method LoadSegmentPages(dir: Process, vaddr: word, n: nat)
      requires mmu.Valid() && vaddr / PAGE_SIZE + n <= KERNEL_PAGE && Backed(mmu.Mem(), mmu.layout, dir)
      modifies mmu.ram.cells, mmu.blocks`usedBlocks, mmu.blocks.bitmap
      ensures mmu.Valid() && mmu.blocks.CounterDrift() == old(mmu.blocks.CounterDrift())
      ensures (mmu.Mem(), mmu.blocks.Blocks())
              == LoadPages(old(mmu.Mem()), mmu.layout, dir, old(mmu.blocks.Blocks()), vaddr / PAGE_SIZE, n)
    {
      hide Backed, LoadPages, MapPage, MapUserPage, MapPages, MapUserPages, AllocateBlock, LoadPage, Drift,
        Allocator.CounterDrift, Allocator.Blocks;
      var p := vaddr / PAGE_SIZE;
      var i: nat := 0;
      while i < n
        invariant 0 <= i <= n && mmu.Valid() && Backed(mmu.Mem(), mmu.layout, dir)
        invariant mmu.blocks.CounterDrift() == old(mmu.blocks.CounterDrift())
        invariant LoadPages(mmu.Mem(), mmu.layout, dir, mmu.blocks.Blocks(), p + i, n - i)
                  == LoadPages(old(mmu.Mem()), mmu.layout, dir, old(mmu.blocks.Blocks()), p, n)
      {
        ghost var m := mmu.Mem();
        LoadPagesUnfold(m, mmu.layout, dir, mmu.blocks.Blocks(), p + i, n - i);
        var phys := mmu.blocks.AllocatePhysicalMemoryBlock();
        var v: word := vaddr + i * PAGE_SIZE;
        LowMapKeepsBacked(m, mmu.layout, dir, phys, v);
        OnePage(m, mmu.layout, dir, phys, v, p + i);
        var ok := mmu.MapVirtualPages(phys, v, 1);
        ok := mmu.MapVirtualPagesInto(phys, v, 1, dir);
        i := i + 1;
      }
      LoadPagesUnfold(mmu.Mem(), mmu.layout, dir, mmu.blocks.Blocks(), p + i, 0);
    }

    /** A byte written by the kernel at v, with the kernel's directory loaded. */
    method WriteVirtual(v: word, b: byte)
      requires mmu.Valid()
      modifies mmu.ram.cells
      ensures mmu.Mem() == StoreByte(old(mmu.Mem()), mmu.layout, v, b)
    {
      var a := mmu.Translate(mmu.layout.directory, v);
      if a.Some? { mmu.PutByte(a.value, b); }
    }

    /** memset(v, 0, count) */
    method Clear(v: word, count: nat)
      requires mmu.Valid()
      modifies mmu.ram.cells
      ensures mmu.Mem() == Fill(old(mmu.Mem()), mmu.layout, v, count)
    {
      hide StoreByte;
      var i: nat, a: word := 0, v;
      while i < count
        invariant 0 <= i <= count
        invariant Fill(mmu.Mem(), mmu.layout, a, count - i) == Fill(old(mmu.Mem()), mmu.layout, v, count)
      {
        WriteVirtual(a, 0);
        i, a := i + 1, (a + 1) % WORD;
      }
    }

    /** memcpy(v, data, |data|) */
    method CopyIn(v: word, data: seq<byte>)
      requires mmu.Valid()
      modifies mmu.ram.cells
      ensures mmu.Mem() == Copy(old(mmu.Mem()), mmu.layout, v, data)
    {
      hide StoreByte;
      var i: nat, a: word := 0, v;
      while i < |data|
        invariant 0 <= i <= |data|
        invariant Copy(mmu.Mem(), mmu.layout, a, data[i..]) == Copy(old(mmu.Mem()), mmu.layout, v, data)
      {
        assert data[i..][0] == data[i] && data[i..][1..] == data[i + 1..];
        WriteVirtual(a, data[i]);
        i, a := i + 1, (a + 1) % WORD;
      }
    }

    /** The body of the loader's loop over the program headers. */
    method LoadOneSegment(dir: Process, g: Segment)
      requires mmu.Valid() && UserSegment(g) && Backed(mmu.Mem(), mmu.layout, dir)
      modifies mmu.ram.cells, mmu.blocks`usedBlocks, mmu.blocks.bitmap
      ensures mmu.Valid() && mmu.blocks.CounterDrift() == old(mmu.blocks.CounterDrift())
      ensures (mmu.Mem(), mmu.blocks.Blocks())
              == LoadSegment(old(mmu.Mem()), mmu.layout, dir, old(mmu.blocks.Blocks()), g)
      ensures Ready(old(mmu.Mem()), mmu.layout, dir, old(mmu.blocks.Blocks()))
              && PageCount(g.memsz) <= |CreateSpace.FreeBlocks(old(mmu.blocks.Blocks()))| ==>
        Holds(mmu.Mem(), mmu.layout, dir, mmu.blocks.Blocks() - old(mmu.blocks.Blocks()), {}, g, {})
    {
      hide Backed, LoadPages, Fill, Copy, Ready, Holds, CreateSpace.FreeBlocks;
      ghost var (m, taken) := (mmu.Mem(), mmu.blocks.Blocks());
      if Ready(m, mmu.layout, dir, taken) && PageCount(g.memsz) <= |CreateSpace.FreeBlocks(taken)| {
        LoadSegmentHolds(m, mmu.layout, dir, taken, {}, g);
      }
      LoadSegmentPages(dir, g.vaddr, PageCount(g.memsz));
      Clear(g.vaddr, g.memsz);
      CopyIn(g.vaddr, g.data);
    }

    /** The loader's loop over the program headers: every segment goes into s, the last of the spaces; empty ones are
        skipped. */
    method LoadSegments(s: Process, gs: seq<Segment>, ghost spaces: seq<Process>)
      requires mmu.Valid() && Consistent(System(mmu.Mem(), mmu.blocks.Blocks(), spaces + [s]), mmu.layout)
      requires Program(gs) && BlocksNeeded(gs) <= |CreateSpace.FreeBlocks(mmu.blocks.Blocks())|
      modifies mmu.ram.cells, mmu.blocks`usedBlocks, mmu.blocks.bitmap
      ensures mmu.Valid() && mmu.blocks.CounterDrift() == old(mmu.blocks.CounterDrift())
      ensures System(mmu.Mem(), mmu.blocks.Blocks(), spaces + [s])
              == LoadAllInto(System(old(mmu.Mem()), old(mmu.blocks.Blocks()), spaces + [s]), mmu.layout, |spaces|, gs)
    {
      hide Consistent, CreateSpace.FreeBlocks, LoadInto, LoadAllInto, LoadSegment, Backed, BlocksNeeded;
      ghost var z := System(mmu.Mem(), mmu.blocks.Blocks(), spaces + [s]);
      assert gs[0..] == gs;
      var i := 0;
      while i < |gs|
        invariant 0 <= i <= |gs| && mmu.Valid() && Program(gs[i..])
        invariant mmu.blocks.CounterDrift() == old(mmu.blocks.CounterDrift())
        invariant Consistent(System(mmu.Mem(), mmu.blocks.Blocks(), spaces + [s]), mmu.layout)
        invariant BlocksNeeded(gs[i..]) <= |CreateSpace.FreeBlocks(mmu.blocks.Blocks())|
        invariant LoadAllInto(System(mmu.Mem(), mmu.blocks.Blocks(), spaces + [s]), mmu.layout, |spaces|, gs[i..])
                  == LoadAllInto(z, mmu.layout, |spaces|, gs)
      {
        ghost var w := System(mmu.Mem(), mmu.blocks.Blocks(), spaces + [s]);
        NextSegment(w, mmu.layout, |spaces|, gs, i);
        if gs[i].memsz != 0 {
          LoadConsistent(w, mmu.layout, |spaces|, gs[i]);
          SpaceBacked(w, mmu.layout, |spaces|);
          LoadOneSegment(s, gs[i]);
          LoadedSystem(w, mmu.layout, |spaces|, gs[i]);
        }
        i := i + 1;
      }
      NoMoreSegments(System(mmu.Mem(), mmu.blocks.Blocks(), spaces + [s]), mmu.layout, |spaces|, gs[i..]);
    }

    /** LoadELF up to the process structure: a new address space and every segment of the program in it.
        None where the kernel runs out of pages and spins: exactly when there are no 2 absent kernel pages in a row
        for the directory, or then no 769 for the tables. 771 to begin with are enough. */
    method LoadProgram(gs: seq<Segment>, ghost spaces: seq<Process>) returns (r: Option<Space>)
      requires mmu.Valid() && Consistent(System(mmu.Mem(), mmu.blocks.Blocks(), spaces), mmu.layout) && Program(gs)
      requires KERNEL_TABLE + 1 + BlocksNeeded(gs) <= |CreateSpace.FreeBlocks(mmu.blocks.Blocks())|
      modifies mmu.ram.cells, mmu.blocks`usedBlocks, mmu.blocks.bitmap
      ensures mmu.Valid() && mmu.blocks.CounterDrift() == old(mmu.blocks.CounterDrift())
      ensures var (m, l, taken) := (old(mmu.Mem()), mmu.layout, old(mmu.blocks.Blocks()));
        r.Some? <==> R.HasKernelRun(m, l, 2) && CreateSpace.MakeDirectory(m, l, taken).Some?
                     && R.HasKernelRun(CreateSpace.MakeDirectory(m, l, taken).value.2, l, 769)
      ensures var present := R.KernelPresence(old(mmu.Mem()), mmu.layout);
        forall q: nat :: KERNEL_PAGE <= q && R.FreeRun(present, q, 771) ==> r.Some?
      ensures r.Some? ==> r.value.Valid()
      ensures r.Some? ==> System(mmu.Mem(), mmu.blocks.Blocks(), spaces + [r.value])
                          == LoadElf(System(old(mmu.Mem()), old(mmu.blocks.Blocks()), spaces), mmu.layout, gs)
    {
      hide Consistent, CreateSpace.FreeBlocks, LoadAllInto, CreateSpace.Create, CreateSpace.MakeDirectory, Linked,
        BlocksNeeded, R.HasKernelRun, R.FreeRun, R.KernelPresence;
      ghost var y := System(mmu.Mem(), mmu.blocks.Blocks(), spaces);
      ConsistentLinked(y, mmu.layout);
      ReservedImage(y.taken, mmu.layout);
      WhenCreated(y.m, mmu.layout, y.taken);
      r := mmu.CreateAddressSpace();
      if r == None { return; }
      PerformConsistent(y, mmu.layout, NewSpace);
      CreateFreeBlocks(y, mmu.layout);
      NewSpaceAppended(y, mmu.layout);
      LoadSegments(r.value, gs, spaces);
    }

    /** The loops of EndProcess: every page of every header is translated and its block freed. */
    method FreeSegment(vaddr: word, n: nat)
      requires mmu.Valid() && vaddr / PAGE_SIZE + n <= KERNEL_PAGE
      modifies mmu.blocks`usedBlocks, mmu.blocks.bitmap
      ensures mmu.Valid() && mmu.Mem() == old(mmu.Mem())
      ensures mmu.blocks.Blocks() == FreePagesOf(mmu.Mem(), mmu.layout, old(mmu.blocks.Blocks()), vaddr / PAGE_SIZE, n)
      ensures mmu.blocks.usedBlocks == Less(old(mmu.blocks.usedBlocks), n)
    {
      hide VirtualToPhysical, FreePagesOf, Less;
      LessNothing(mmu.blocks.usedBlocks);
      var p := vaddr / PAGE_SIZE;
      ghost var m := mmu.Mem();
      var i: nat := 0;
      while i < n
        invariant 0 <= i <= n && mmu.Valid() && mmu.Mem() == m
        invariant FreePagesOf(m, mmu.layout, mmu.blocks.Blocks(), p + i, n - i)
                  == FreePagesOf(m, mmu.layout, old(mmu.blocks.Blocks()), p, n)
        invariant mmu.blocks.usedBlocks == Less(old(mmu.blocks.usedBlocks), i)
      {
        LessMore(old(mmu.blocks.usedBlocks), i, 1);
        FreePagesOfUnfold(m, mmu.layout, mmu.blocks.Blocks(), p + i, n - i);
        var v: word := vaddr + i * PAGE_SIZE;
        SamePageAddress(m, mmu.layout, v, p + i);
        var address := mmu.VirtualToPhysicalAddress(v);
        mmu.blocks.FreePhysicalMemoryBlock(address);
        i := i + 1;
      }
      FreePagesOfUnfold(m, mmu.layout, mmu.blocks.Blocks(), p + i, 0);
    }

    method FreeProgramBlocks(headers: seq<Segment>)
      requires mmu.Valid() && forall i :: 0 <= i < |headers| ==> UserSegment(headers[i]) && headers[i].memsz > 0
      modifies mmu.blocks`usedBlocks, mmu.blocks.bitmap
      ensures mmu.Valid() && mmu.Mem() == old(mmu.Mem())
      ensures mmu.blocks.Blocks() == FreeProgram(mmu.Mem(), mmu.layout, old(mmu.blocks.Blocks()), headers)
      ensures Linked(mmu.Mem(), mmu.layout) ==>
        mmu.blocks.Blocks() == old(mmu.blocks.Blocks()) - FramesIn(mmu.Mem(), mmu.layout, PagesOf(headers))
      ensures mmu.blocks.usedBlocks == (old(mmu.blocks.usedBlocks) - BlocksNeeded(headers)) % WORD
    {
      hide FreePagesOf, Linked, FramesIn, PagesOf, Less;
      if Linked(mmu.Mem(), mmu.layout) { FreeProgramIs(mmu.Mem(), mmu.layout, mmu.blocks.Blocks(), headers); }
      LessNothing(mmu.blocks.usedBlocks);
      assert headers[0..] == headers;
      ghost var m := mmu.Mem();
      var i := 0;
      while i < |headers|
        invariant 0 <= i <= |headers| && mmu.Valid() && mmu.Mem() == m
        invariant FreeProgram(m, mmu.layout, mmu.blocks.Blocks(), headers[i..])
                  == FreeProgram(m, mmu.layout, old(mmu.blocks.Blocks()), headers)
        invariant BlocksNeeded(headers[i..]) <= BlocksNeeded(headers)
        invariant mmu.blocks.usedBlocks
                  == Less(old(mmu.blocks.usedBlocks), BlocksNeeded(headers) - BlocksNeeded(headers[i..]))
      {
        assert headers[i..][0] == headers[i] && headers[i..][1..] == headers[i + 1..];
        assert UserSegment(headers[i]);
        LessMore(old(mmu.blocks.usedBlocks), BlocksNeeded(headers) - BlocksNeeded(headers[i..]),
          PageCount(headers[i].memsz));
        FreeSegment(headers[i].vaddr, PageCount(headers[i].memsz));
        i := i + 1;
      }
      LessIs(old(mmu.blocks.usedBlocks), BlocksNeeded(headers));
    }
  }

  lemma ReservedImage(taken: set<nat>, l: Kernel)
    requires CreateSpace.Reserved(taken, l)
    ensures ImageTaken(taken, l)
  {}

  lemma LessIs(used: word, n: nat)
    ensures Less(used, n) == (used - n) % WORD
  {}

  /** When the first step of LoadELF returns. */
  lemma WhenCreated(m: Memory, l: Kernel, taken: set<nat>)
    requires Linked(m, l) && CreateSpace.Reserved(taken, l) && KERNEL_TABLE < |CreateSpace.FreeBlocks(taken)|
    ensures var r := CreateSpace.MakeDirectory(m, l, taken);
      CreateSpace.Create(m, l, taken).Some? <==> R.HasKernelRun(m, l, 2) && r.Some? && R.HasKernelRun(r.value.2, l, 769)
    ensures forall q: nat :: KERNEL_PAGE <= q && R.FreeRun(R.KernelPresence(m, l), q, 771) ==>
      CreateSpace.Create(m, l, taken).Some?
  {
    hide CreateSpace.MakeDirectory, CreateSpace.Create, CreateSpace.Reserved, CreateSpace.FreeBlocks, R.FreeRun,
      R.KernelPresence, Linked, R.HasKernelRun;
    CreateSpace.CreateReturns(m, l, taken);
    forall q: nat | KERNEL_PAGE <= q && R.FreeRun(R.KernelPresence(m, l), q, 771)
      ensures CreateSpace.Create(m, l, taken).Some?
    {
      CreateSpace.CreateFits(m, l, taken, q);
    }
  }

  lemma NewSpaceAppended(y: System, l: Kernel)
    requires Consistent(y, l) && Allowed(y, l, NewSpace) && CreateSpace.Create(y.m, l, y.taken).Some?
    ensures var (s, m', taken') := CreateSpace.Create(y.m, l, y.taken).value;
      s.Valid() && Perform(y, l, NewSpace) == System(m', taken', y.spaces + [s])
  {
    hide CreateSpace.Create, CreateSpace.FreeBlocks;
    CreateSpace.CreateIs(y.m, l, y.taken);
  }

  lemma NextSegment(w: System, l: Kernel, i: nat, gs: seq<Segment>, k: nat)
    requires k < |gs| && i < |w.spaces| && Program(gs[k..])
    ensures UserSegment(gs[k]) && Program(gs[k + 1..])
    ensures BlocksNeeded(gs[k..])
            == (if gs[k].memsz == 0 then 0 else PageCount(gs[k].memsz)) + BlocksNeeded(gs[k + 1..])
    ensures LoadAllInto(w, l, i, gs[k..])
            == LoadAllInto(if gs[k].memsz == 0 then w else LoadInto(w, l, i, gs[k]), l, i, gs[k + 1..])
  {
    hide LoadInto, UserSegment;
    assert gs[k..][0] == gs[k] && gs[k..][1..] == gs[k + 1..];
  }

  lemma NoMoreSegments(w: System, l: Kernel, i: nat, gs: seq<Segment>)
    requires i < |w.spaces| && gs == []
    ensures LoadAllInto(w, l, i, gs) == w
  {}

  lemma SpaceBacked(y: System, l: Kernel, i: nat)
    requires Consistent(y, l) && i < |y.spaces|
    ensures Backed(y.m, l, y.spaces[i])
  {
    SoundMember(y, l, i);
  }

  lemma LoadedSystem(y: System, l: Kernel, i: nat, g: Segment)
    requires i < |y.spaces| && UserSegment(g)
    ensures LoadInto(y, l, i, g)
            == System(LoadSegment(y.m, l, y.spaces[i], y.taken, g).0,
                      LoadSegment(y.m, l, y.spaces[i], y.taken, g).1, y.spaces)
  {
    hide LoadSegment;
  }

  lemma LoadPagesUnfold(m: Memory, l: Kernel, s: Process, taken: set<nat>, p: nat, n: nat)
    requires p + n <= KERNEL_PAGE
    ensures LoadPages(m, l, s, taken, p, n)
            == if n == 0 then (m, taken)
               else LoadPages(LoadPage(m, l, s, AllocateBlock(taken).0, p), l, s, AllocateBlock(taken).1, p + 1, n - 1)
  {}

  /** Mapping below 0xC0000000 in the kernel's tables leaves the backing of every space alone. */
  lemma LowMapKeepsBacked(m: Memory, l: Kernel, s: Process, phys: word, v: word)
    requires Backed(m, l, s) && v / PAGE_SIZE < KERNEL_PAGE
    ensures Backed(MapPages(m, l, phys, v, 1), l, s)
  {
    hide MapEntry;
    MapPageIs(m, l, phys, v);
  }

  /** The two one-page mappings of the loop are one turn of the page loop. */
  lemma OnePage(m: Memory, l: Kernel, s: Process, phys: word, v: word, p: nat)
    requires v / PAGE_SIZE == p < KERNEL_PAGE && phys % PAGE_SIZE == 0
    ensures MapUserPages(MapPages(m, l, phys, v, 1), l, s, phys, v, 1) == LoadPage(m, l, s, phys / PAGE_SIZE, p)
  {
    hide MapPage, MapUserPage;
    SamePage(m, l, s, phys, v, p * PAGE_SIZE);
    SamePage(MapPage(m, l, phys, v), l, s, phys, v, p * PAGE_SIZE);
  }

  /** Only the page of the address matters. */
  lemma SamePage(m: Memory, l: Kernel, s: Process, phys: word, v: word, w: word)
    requires v / PAGE_SIZE == w / PAGE_SIZE
    ensures MapPage(m, l, phys, v) == MapPage(m, l, phys, w)
    ensures v / PAGE_SIZE < KERNEL_PAGE ==> MapUserPage(m, l, s, phys, v) == MapUserPage(m, l, s, phys, w)
  {}

  lemma FreePagesOfUnfold(m: Memory, l: Kernel, taken: set<nat>, p: nat, n: nat)
    requires p + n <= KERNEL_PAGE
    ensures FreePagesOf(m, l, taken, p, n)
            == if n == 0 then taken
               else FreePagesOf(m, l, taken - {VirtualToPhysical(m, l, p * PAGE_SIZE) / BLOCK_SIZE}, p + 1, n - 1)
  {}

  lemma SamePageAddress(m: Memory, l: Kernel, v: word, p: nat)
    requires v / PAGE_SIZE == p < KERNEL_PAGE
    ensures VirtualToPhysical(m, l, v) == VirtualToPhysical(m, l, p * PAGE_SIZE)
  {
    assert p * PAGE_SIZE / PAGE_SIZE == p;
  }
}
