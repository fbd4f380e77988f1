/** paging.cpp as it runs: the loops that read and write physical memory in place, each against the
    function that specifies it. */
module VirtualMemory {
  import opened Bits
  import opened Options
  import opened PageEntry
  import opened PhysicalMemory
  import opened PhysicalAllocator
  import opened Paging
  import opened RunAllocator
  import opened AddressSpace
  import opened CreateSpace
  import opened ProcessAllocator

  lemma PutTwice(m: Memory, f: nat, j: nat, a: word, b: word)
    requires f < FRAMES && j < FRAME_WORDS
    ensures Put(Put(m, f, j, a), f, j, b) == Put(m, f, j, b)
  {
    assert m[f][j := a][j := b] == m[f][j := b];
  }

  lemma PresentIsBit(e: word)
    ensures And(e, PRESENT) != 0 <==> Present(e)
  {
    AndOneBit(e, 0);
  }

  class Mmu {
    const ram: Ram
    const layout: Kernel
    const blocks: Allocator

    ghost predicate Valid()
      reads this, ram, blocks
    {
      ram.Valid() && blocks.Valid() && ram.cells as object != blocks.bitmap as object
    }

    ghost function Mem(): Memory
      requires Valid()
      reads this, ram, ram.cells, blocks
    {
      ram.Contents()
    }

    constructor (ram: Ram, layout: Kernel, blocks: Allocator)
      requires ram.Valid() && blocks.Valid() && ram.cells as object != blocks.bitmap as object
      ensures Valid() && this.ram == ram && this.layout == layout && this.blocks == blocks
    {
      this.ram, this.layout, this.blocks := ram, layout, blocks;
    }

    /** kernelPageTables[i][j] */
    method PageTable(i: nat, j: nat) returns (e: word)
      requires Valid() && i < TABLES && j < PAGES_PER_TABLE
      ensures e == Entry(Mem(), layout, i * PAGES_PER_TABLE + j)
    {
      e := ram.Load(layout.tables + i, j);
    }

    method SetPageTable(i: nat, j: nat, e: word)
      requires Valid() && i < TABLES && j < PAGES_PER_TABLE
      modifies ram.cells
      ensures Mem() == SetEntry(old(Mem()), layout, i * PAGES_PER_TABLE + j, e)
    {
      ram.Store(layout.tables + i, j, e);
    }

    /** kernelPageDirectory[k] made present and pointed at kernelPageTables[k]. */
    method LinkKernelTable(k: nat)
      requires Valid() && k < TABLES
      modifies ram.cells
      ensures Mem() == LinkTable(old(Mem()), layout, k)
    {
      var pde := ram.Load(layout.directory, k);
      ram.Store(layout.directory, k, SetFlags(pde, PRESENT + WRITABLE));
      ram.Store(layout.directory, k, SetFrame(SetFlags(pde, PRESENT + WRITABLE), (layout.tables + k) * PAGE_SIZE));
      PutTwice(old(Mem()), layout.directory, k, SetFlags(pde, PRESENT + WRITABLE),
               SetFrame(SetFlags(pde, PRESENT + WRITABLE), (layout.tables + k) * PAGE_SIZE));
    }

    /** KernelAllocateVirtualPages. None where the source logs the error and spins. */
    method KernelAllocateVirtualPages(amount: word) returns (r: Option<word>)
      requires Valid()
      modifies ram.cells
      ensures match KernelAllocate(old(Mem()), layout, amount)
        case None => r == None && Mem() == old(Mem())
        case Some((address, m')) => r == Some(address) && Mem() == m'
      ensures amount + 1 < WORD ==>
        match r
        case None => !HasKernelRun(old(Mem()), layout, amount + 1)
        case Some(address) => address % 4096 == 0 && Reserves(old(Mem()), Mem(), layout, address / 4096, amount)
    {
      hide KernelAllocate, Scan, MarkRun, KernelPresence, SetEntry, LinkTable, HasKernelRun, Reserves;
      if amount + 1 < WORD { KernelAllocateReserves(Mem(), layout, amount); }
      var pageDirIndex: nat, offset: nat, counter: nat := KERNEL_TABLE, 0, 0;
      var need := (amount + 1) % WORD;
      ghost var m := Mem();
      ghost var present := KernelPresence(m, layout);
      PresenceLength(m, layout);
      ghost var found := Scan(present, KERNEL_PAGE, KERNEL_PAGE, 0, need);
      var i := KERNEL_TABLE;
      while i < TABLES
        invariant KERNEL_TABLE <= i <= TABLES && Mem() == m
        invariant Scan(present, i * PAGES_PER_TABLE, pageDirIndex * PAGES_PER_TABLE + offset, counter, need) == found
      {
        var j := 0;
        while j < PAGES_PER_TABLE
          invariant 0 <= j <= PAGES_PER_TABLE && Mem() == m
          invariant Scan(present, i * PAGES_PER_TABLE + j, pageDirIndex * PAGES_PER_TABLE + offset, counter, need)
            == found
        {
          var e := PageTable(i, j);
          PresentIsBit(e);
          PresenceAt(m, layout, i * PAGES_PER_TABLE + j);
          ScanStep(present, i * PAGES_PER_TABLE + j, pageDirIndex * PAGES_PER_TABLE + offset, counter, need);
          if And(e, PRESENT) != 0 {
            offset, pageDirIndex, counter := j, i, 0;
          } else {
            counter := counter + 1;
            if counter >= need {
              KernelAllocateAt(m, layout, amount, pageDirIndex * PAGES_PER_TABLE + offset, counter);
              var address := (pageDirIndex * PAGES_PER_TABLE + offset) * PAGE_SIZE + PAGE_SIZE;
              MarkKernelRun(pageDirIndex * PAGES_PER_TABLE + offset, counter);
              return Some(address);
            }
          }
          j := j + 1;
        }
        i := i + 1;
      }
      ScanEnd(present, PAGES, pageDirIndex * PAGES_PER_TABLE + offset, counter, need);
      KernelAllocateNone(m, layout, amount);
      return None;
    }

    /** One kernel page made present. */
    method MarkKernelPage(i: nat, j: nat)
      requires Valid() && i < TABLES && j < PAGES_PER_TABLE
      modifies ram.cells
      ensures Mem() == MarkPage(old(Mem()), layout, i * PAGES_PER_TABLE + j)
    {
      hide LinkTable, SetEntry;
      var e := PageTable(i, j);
      SetPageTable(i, j, SetFlags(e, PRESENT + WRITABLE));
      LinkKernelTable(i);
    }

    /** The marking loop, from page s on. */
    method MarkKernelRun(s: nat, count: nat)
      requires Valid() && s + count <= PAGES
      modifies ram.cells
      ensures Mem() == MarkRun(old(Mem()), layout, s, count)
    {
      hide MarkPage, MarkRun;
      ghost var m := Mem();
      var pageDirIndex, offset, counter := s / PAGES_PER_TABLE, s % PAGES_PER_TABLE, count;
      while counter > 0
        invariant 0 <= counter && 0 <= offset < PAGES_PER_TABLE && 0 <= pageDirIndex
        invariant pageDirIndex * PAGES_PER_TABLE + offset + counter == s + count
        invariant MarkRun(Mem(), layout, pageDirIndex * PAGES_PER_TABLE + offset, counter)
          == MarkRun(m, layout, s, count)
      {
        MarkRunStep(Mem(), layout, pageDirIndex * PAGES_PER_TABLE + offset, counter);
        MarkKernelPage(pageDirIndex, offset);
        offset := offset + 1;
        counter := counter - 1;
        if offset >= PAGES_PER_TABLE {
          pageDirIndex, offset := pageDirIndex + 1, 0;
        }
      }
      MarkRunStep(Mem(), layout, pageDirIndex * PAGES_PER_TABLE + offset, counter);
    }

    method FreeVirtualPages(virt: word, amount: word)
      requires Valid()
      modifies ram.cells
      ensures Mem() == FreePages(old(Mem()), layout, virt, amount)
      ensures amount <= PAGES ==> Freed(old(Mem()), Mem(), layout, virt, amount)
    {
      hide FreePages, Freed;
      if amount <= PAGES { FreePagesFreed(Mem(), layout, virt, amount); }
      var i: nat := 0;
      while i < amount
        invariant 0 <= i <= amount
        invariant FreePages(Mem(), layout, (virt + i * PAGE_SIZE) % WORD, amount - i)
          == FreePages(old(Mem()), layout, virt, amount)
      {
        var v: word := (virt + i * PAGE_SIZE) % WORD;
        FreePagesStep(Mem(), layout, v, amount - i);
        ClearKernelPage(v / PAGE_SIZE);
        NextAddress(virt, i);
        i := i + 1;
      }
      FreePagesStep(Mem(), layout, (virt + i * PAGE_SIZE) % WORD, 0);
    }

    method ClearKernelPage(p: nat)
      requires Valid() && p < PAGES
      modifies ram.cells
      ensures Mem() == SetEntry(old(Mem()), layout, p, ClearFlags(Entry(old(Mem()), layout, p), PRESENT + WRITABLE))
    {
      var e := PageTable(p / PAGES_PER_TABLE, p % PAGES_PER_TABLE);
      SetPageTable(p / PAGES_PER_TABLE, p % PAGES_PER_TABLE, ClearFlags(e, PRESENT + WRITABLE));
    }

    method VirtualToPhysicalAddress(addr: word) returns (phys: word)
      requires Valid()
      ensures phys == VirtualToPhysical(Mem(), layout, addr)
      ensures phys == Entry(Mem(), layout, addr / 4096) / 4096 % 0x8_0000 * 4096
    {
      GetFrameIs(Entry(Mem(), layout, addr / 4096));
      var p := addr / PAGE_SIZE;
      var e := PageTable(p / PAGES_PER_TABLE, p % PAGES_PER_TABLE);
      FramesDiffer(e);
      phys := GetFrame(e) * PAGE_SIZE;
    }

    /** One turn of the mapping loop, in the kernel's tables. */
    method MapKernelPage(phys: word, virt: word)
      requires Valid()
      modifies ram.cells
      ensures Mem() == MapPage(old(Mem()), layout, phys, virt)
    {
      hide LinkTable, SetEntry;
      var p := virt / PAGE_SIZE;
      var e := PageTable(p / PAGES_PER_TABLE, p % PAGES_PER_TABLE);
      SetPageTable(p / PAGES_PER_TABLE, p % PAGES_PER_TABLE, MapEntry(e, phys));
      LinkKernelTable(p / PAGES_PER_TABLE);
    }

    /** MapVirtualPages into the current tables. */
    method MapVirtualPages(phys: word, virt: word, amount: word) returns (ok: bool)
      requires Valid()
      modifies ram.cells
      ensures ok == (amount != 0)
      ensures Mem() == MapPages(old(Mem()), layout, phys, virt, amount)
      ensures Linked(old(Mem()), layout) && phys % 4096 == 0 && amount <= PAGES && phys + amount * 4096 <= HIGH ==>
        Mapped(old(Mem()), Mem(), layout, phys, virt, amount)
    {
      hide MapPage, MapPages, Mapped, Linked;
      if Linked(Mem(), layout) && phys % PAGE_SIZE == 0 && amount <= PAGES && phys + amount * PAGE_SIZE <= HIGH {
        MapPagesMapped(Mem(), layout, phys, virt, amount);
      }
      MapPagesUnfold(Mem(), layout, phys, virt, 0);
      if amount == 0 { return false; }
      var i: nat, f: word, v: word := 0, phys, virt;
      while i < amount
        invariant 0 <= i <= amount
        invariant MapPages(Mem(), layout, f, v, amount - i) == MapPages(old(Mem()), layout, phys, virt, amount)
      {
        MapPagesUnfold(Mem(), layout, f, v, amount - i);
        MapKernelPage(f, v);
        i, f, v := i + 1, (f + PAGE_SIZE) % WORD, (v + PAGE_SIZE) % WORD;
      }
      MapPagesUnfold(Mem(), layout, f, v, 0);
      return true;
    }

    // ---- Kernel heap memory, reached through the kernel's tables ----

    /** Word j of kernel page p. */
    method LoadWord(p: nat, j: nat) returns (v: word)
      requires Valid() && p < PAGES && j < FRAME_WORDS
      ensures v == Mem()[FrameOf(Mem(), layout, p)][j]
    {
      var e := PageTable(p / PAGES_PER_TABLE, p % PAGES_PER_TABLE);
      v := ram.Load(HardwareFrame(e), j);
    }

    method StoreWord(p: nat, j: nat, v: word)
      requires Valid() && p < PAGES && j < FRAME_WORDS
      modifies ram.cells
      ensures Mem() == Put(old(Mem()), FrameOf(old(Mem()), layout, p), j, v)
    {
      var e := PageTable(p / PAGES_PER_TABLE, p % PAGES_PER_TABLE);
      ram.Store(HardwareFrame(e), j, v);
    }

    // ---- Into the directory of a process ----

    /** SetFlags and SetPageFrame on word j of heap page p. */
    method MapWord(p: nat, j: nat, addr: word)
      requires Valid() && p < PAGES && j < FRAME_WORDS && !layout.Holds(FrameOf(Mem(), layout, p))
      modifies ram.cells
      ensures var f := FrameOf(old(Mem()), layout, p); Mem() == Put(old(Mem()), f, j, MapEntry(old(Mem())[f][j], addr))
    {
      hide MapEntry, SetFlags, SetFrame;
      var e := LoadWord(p, j);
      HeapStore(Mem(), layout, p, j, SetFlags(e, PRESENT + WRITABLE));
      StoreWord(p, j, SetFlags(e, PRESENT + WRITABLE));
      var e' := LoadWord(p, j);
      StoreWord(p, j, SetFrame(e', addr));
      PutTwice(old(Mem()), FrameOf(old(Mem()), layout, p), j, SetFlags(e, PRESENT + WRITABLE), SetFrame(e', addr));
      MapEntryIsBoth(e, addr);
    }

    /** The directory entry of table k: flags first, then the frame the kernel's translation gives. */
    method LinkUserTableEntry(dir: Process, k: nat)
      requires Valid() && k < KERNEL_TABLE && !layout.Holds(FrameOf(Mem(), layout, dir.directory))
      modifies ram.cells
      ensures Mem() == LinkUserTable(old(Mem()), layout, dir, k)
    {
      hide MapEntry, SetFlags, SetFrame, VirtualToPhysical;
      var pde := LoadWord(dir.directory, k);
      HeapStore(Mem(), layout, dir.directory, k, SetFlags(pde, PRESENT + WRITABLE));
      StoreWord(dir.directory, k, SetFlags(pde, PRESENT + WRITABLE));
      HeapStoreTranslates(old(Mem()), layout, dir.directory, k, SetFlags(pde, PRESENT + WRITABLE),
        (dir.tables + k) * PAGE_SIZE);
      var addr := VirtualToPhysicalAddress((dir.tables + k) * PAGE_SIZE);
      var pde' := LoadWord(dir.directory, k);
      StoreWord(dir.directory, k, SetFrame(pde', addr));
      PutTwice(old(Mem()), FrameOf(old(Mem()), layout, dir.directory), k, SetFlags(pde, PRESENT + WRITABLE),
        SetFrame(pde', addr));
      MapEntryIsBoth(pde, addr);
    }

    method MapTableEntry(dir: Process, p: nat, phys: word)
      requires Valid() && p < KERNEL_PAGE && Backed(Mem(), layout, dir)
      modifies ram.cells
      ensures Mem() == SetUserEntry(old(Mem()), layout, dir, p, MapEntry(UserEntry(old(Mem()), layout, dir, p), phys))
    {
      hide Backed, MapEntry;
      BackedFrames(Mem(), layout, dir, p / PAGES_PER_TABLE);
      MapWord(dir.tables + p / PAGES_PER_TABLE, p % PAGES_PER_TABLE, phys);
    }

    /** One turn of the mapping loop, into the tables of dir. */
    method MapProcessPage(phys: word, virt: word, dir: Process)
      requires Valid() && virt / PAGE_SIZE < KERNEL_PAGE && Backed(Mem(), layout, dir)
      modifies ram.cells
      ensures Mem() == MapUserPage(old(Mem()), layout, dir, phys, virt)
      ensures Backed(Mem(), layout, dir)
    {
      hide MapEntry, LinkUserTable, Backed, UserEntry, SetUserEntry;
      var p := virt / PAGE_SIZE;
      MapTableEntry(dir, p, phys);
      EntryStillBacked(old(Mem()), layout, dir, p, MapEntry(UserEntry(old(Mem()), layout, dir, p), phys));
      BackedFrames(Mem(), layout, dir, p / PAGES_PER_TABLE);
      LinkedStillBacked(Mem(), layout, dir, p / PAGES_PER_TABLE);
      LinkUserTableEntry(dir, p / PAGES_PER_TABLE);
    }

    /** MapVirtualPages with a directory. */
    method MapVirtualPagesInto(phys: word, virt: word, amount: word, dir: Process) returns (ok: bool)
      requires Valid() && virt / PAGE_SIZE + amount <= KERNEL_PAGE && Backed(Mem(), layout, dir)
      modifies ram.cells
      ensures ok == (amount != 0)
      ensures Mem() == MapUserPages(old(Mem()), layout, dir, phys, virt, amount)
      ensures Backed(Mem(), layout, dir)
      ensures Sound(old(Mem()), layout, dir) && phys % 4096 == 0 && phys + amount * 4096 <= HIGH ==>
        UserMapped(Mem(), dir, phys, virt, amount) && KeepsOthers(old(Mem()), Mem(), layout, dir)
    {
      hide MapUserPage, MapUserPages, Backed, Sound, UserMapped, KeepsOthers;
      if Sound(Mem(), layout, dir) && phys % PAGE_SIZE == 0 && phys + amount * PAGE_SIZE <= HIGH {
        MapUserPagesMapped(Mem(), layout, dir, phys, virt, amount);
      }
      MapUserPagesUnfold(Mem(), layout, dir, phys, virt, 0);
      if amount == 0 { return false; }
      var i: nat, f: word, v: word := 0, phys, virt;
      while i < amount
        invariant 0 <= i <= amount && v == virt + i * PAGE_SIZE && Backed(Mem(), layout, dir)
        invariant MapUserPages(Mem(), layout, dir, f, v, amount - i)
          == MapUserPages(old(Mem()), layout, dir, phys, virt, amount)
      {
        MapUserPagesUnfold(Mem(), layout, dir, f, v, amount - i);
        MapProcessPage(f, v, dir);
        i, f, v := i + 1, (f + PAGE_SIZE) % WORD, v + PAGE_SIZE;
      }
      MapUserPagesUnfold(Mem(), layout, dir, f, v, 0);
      return true;
    }

    // ---- AllocateVirtualPages ----

    /** dir.page_tables[i][j] */
    method ProcessTable(dir: Process, i: nat, j: nat) returns (e: word)
      requires Valid() && i < KERNEL_TABLE && j < PAGES_PER_TABLE
      ensures e == UserEntry(Mem(), layout, dir, i * PAGES_PER_TABLE + j)
    {
      e := LoadWord(dir.tables + i, j);
    }

    /** page_tables[pdi][offset] of dir made present, and its directory entry pointed at the table's
        address minus 0xC0000000. */
    method MarkProcessPage(dir: Process, p: nat)
      requires Valid() && p < KERNEL_PAGE && Backed(Mem(), layout, dir)
      modifies ram.cells
      ensures Mem() == MarkUserPage(old(Mem()), layout, dir, p)
      ensures Backed(Mem(), layout, dir)
    {
      hide SetFlags, MapEntry, Backed, Entry, HardwareFrame;
      var k := p / PAGES_PER_TABLE;
      var e := LoadWord(dir.tables + k, p % PAGES_PER_TABLE);
      EntryStillBacked(Mem(), layout, dir, p, SetFlags(e, PRESENT + WRITABLE));
      StoreWord(dir.tables + k, p % PAGES_PER_TABLE, SetFlags(e, PRESENT + WRITABLE));
      BackedFrames(Mem(), layout, dir, k);
      MislinkedStillBacked(Mem(), layout, dir, k);
      MapWord(dir.directory, k, (dir.tables + k - KERNEL_PAGE) * PAGE_SIZE);
    }

    method MarkProcessRun(dir: Process, s: nat, count: nat)
      requires Valid() && s + count <= KERNEL_PAGE && Backed(Mem(), layout, dir)
      modifies ram.cells
      ensures Mem() == MarkUserRun(old(Mem()), layout, dir, s, count)
      ensures Backed(Mem(), layout, dir)
    {
      hide MarkUserPage, MarkUserRun, Backed;
      ghost var m := Mem();
      var pageDirIndex, offset, counter := s / PAGES_PER_TABLE, s % PAGES_PER_TABLE, count;
      while counter > 0
        invariant 0 <= counter && 0 <= offset < PAGES_PER_TABLE && 0 <= pageDirIndex && Backed(Mem(), layout, dir)
        invariant pageDirIndex * PAGES_PER_TABLE + offset + counter == s + count
        invariant MarkUserRun(Mem(), layout, dir, pageDirIndex * PAGES_PER_TABLE + offset, counter)
          == MarkUserRun(m, layout, dir, s, count)
      {
        MarkUserRunStep(Mem(), layout, dir, pageDirIndex * PAGES_PER_TABLE + offset, counter);
        MarkProcessPage(dir, pageDirIndex * PAGES_PER_TABLE + offset);
        offset := offset + 1;
        counter := counter - 1;
        if offset >= PAGES_PER_TABLE {
          pageDirIndex, offset := pageDirIndex + 1, 0;
        }
      }
      MarkUserRunStep(Mem(), layout, dir, pageDirIndex * PAGES_PER_TABLE + offset, counter);
    }

    /** AllocateVirtualPages: the first page of the range. None where the source leaves the 768 tables of
        dir, or spins. */
    method AllocateVirtualPages(amount: word, dir: Process) returns (r: Option<nat>)
      requires Valid() && Backed(Mem(), layout, dir)
      modifies ram.cells
      ensures match AllocateUser(old(Mem()), layout, dir, amount)
        case None => r == None && Mem() == old(Mem())
        case Some((p, m')) => r == Some(p) && Mem() == m'
      ensures Backed(Mem(), layout, dir)
      ensures Sound(old(Mem()), layout, dir) && amount + 2 < WORD ==>
        r == ClaimStart(UserPresence(old(Mem()), layout, dir), amount)
        && (r.Some? ==> Claimed(old(Mem()), Mem(), layout, dir, r.value, amount + 2))
    {
      hide AllocateUser, Scan, MarkUserRun, UserPresence, Backed, UserEntry, Sound, Claimed, ClaimStart;
      if Sound(Mem(), layout, dir) && amount + 2 < WORD { AllocateUserIs(Mem(), layout, dir, amount); }
      var pageDirIndex: nat, offset: nat, counter: nat := 0, SEED, 0;
      var need := (amount + 2) % WORD;
      ghost var m := Mem();
      ghost var present := UserPresence(m, layout, dir);
      UserPresenceAt(m, layout, dir, 0);
      ghost var found := Scan(present, 0, SEED, 0, need);
      var i := 0;
      while i < KERNEL_TABLE
        invariant 0 <= i <= KERNEL_TABLE && Mem() == m
        invariant Scan(present, i * PAGES_PER_TABLE, pageDirIndex * PAGES_PER_TABLE + offset, counter, need) == found
      {
        var j := 0;
        while j < PAGES_PER_TABLE
          invariant 0 <= j <= PAGES_PER_TABLE && Mem() == m
          invariant Scan(present, i * PAGES_PER_TABLE + j, pageDirIndex * PAGES_PER_TABLE + offset, counter, need)
            == found
        {
          var e := ProcessTable(dir, i, j);
          PresentIsBit(e);
          UserPresenceAt(m, layout, dir, i * PAGES_PER_TABLE + j);
          ScanStep(present, i * PAGES_PER_TABLE + j, pageDirIndex * PAGES_PER_TABLE + offset, counter, need);
          if And(e, PRESENT) != 0 {
            offset, pageDirIndex, counter := j, i, 0;
          } else {
            counter := counter + 1;
            if counter >= need {
              AllocateUserAt(m, layout, dir, amount, pageDirIndex * PAGES_PER_TABLE + offset, counter);
              if pageDirIndex * PAGES_PER_TABLE + offset + counter > KERNEL_PAGE { return None; }
              MarkProcessRun(dir, pageDirIndex * PAGES_PER_TABLE + offset, counter);
              return Some(pageDirIndex * PAGES_PER_TABLE + offset);
            }
          }
          j := j + 1;
        }
        i := i + 1;
      }
      ScanEnd(present, KERNEL_PAGE, pageDirIndex * PAGES_PER_TABLE + offset, counter, need);
      AllocateUserNone(m, layout, dir, amount);
      return None;
    }

    // ---- CreateAddressSpace ----

    /** memset of kernel page p. */
    method ClearPage(p: nat)
      requires Valid() && p < PAGES
      modifies ram.cells
      ensures Mem() == ZeroPage(old(Mem()), layout, p)
    {
      var e := PageTable(p / PAGES_PER_TABLE, p % PAGES_PER_TABLE);
      var f := HardwareFrame(e);
      ghost var m := Mem();
      var j := 0;
      while j < FRAME_WORDS
        invariant 0 <= j <= FRAME_WORDS
        invariant forall g :: 0 <= g < FRAMES && g != f ==> Mem()[g] == m[g]
        invariant forall k :: 0 <= k < j ==> Mem()[f][k] == 0
      {
        ghost var before := Mem();
        ram.Store(f, j, 0);
        assert Mem()[f] == before[f][j := 0];
        j := j + 1;
      }
      assert Mem()[f] == ZeroFrame();
    }

    method ClearPages(p: nat, count: nat)
      requires Valid() && p + count <= PAGES
      modifies ram.cells
      ensures Mem() == ZeroPages(old(Mem()), layout, p, count)
    {
      hide ZeroPage, ZeroPages;
      var i := 0;
      while i < count
        invariant 0 <= i <= count
        invariant ZeroPages(Mem(), layout, p + i, count - i) == ZeroPages(old(Mem()), layout, p, count)
      {
        ZeroPagesUnfold(Mem(), layout, p + i, count - i);
        ClearPage(p + i);
        i := i + 1;
      }
      ZeroPagesUnfold(Mem(), layout, p + i, 0);
    }

    /** Directory entries 768 to 1023 of the directory at page d. */
    method ShareKernelTables(d: nat)
      requires Valid() && d < PAGES && !layout.Holds(FrameOf(Mem(), layout, d))
      modifies ram.cells
      ensures Mem() == ShareKernel(old(Mem()), layout, d, KERNEL_TABLE)
      ensures SameKernel(old(Mem()), Mem(), layout)
    {
      hide ShareKernel, MapEntry, FrameOf, SameKernel;
      ghost var m := Mem();
      SameKernelSelf(m, layout);
      var i := KERNEL_TABLE;
      while i < TABLES
        invariant KERNEL_TABLE <= i <= TABLES && !layout.Holds(FrameOf(Mem(), layout, d))
        invariant SameKernel(m, Mem(), layout)
        invariant ShareKernel(Mem(), layout, d, i) == ShareKernel(m, layout, d, KERNEL_TABLE)
      {
        ShareKernelUnfold(Mem(), layout, d, i);
        ghost var before := Mem();
        var addr := (layout.tables + i) * PAGE_SIZE;
        HeapMapStore(before, layout, d, i, MapEntry(before[FrameOf(before, layout, d)][i], addr));
        MapWord(d, i, addr);
        SameKernelTrans(m, before, Mem(), layout);
        i := i + 1;
      }
      ShareKernelUnfold(Mem(), layout, d, i);
    }

    /** PDE_PRESENT, PDE_WRITABLE and PDE_USER on directory entries 0 to 767. */
    method GrantUserEntries(d: nat)
      requires Valid() && d < PAGES
      modifies ram.cells
      ensures Mem() == GrantUser(old(Mem()), layout, d, 0)
    {
      hide GrantUser, SetFlags, FrameOf;
      ghost var m := Mem();
      var i := 0;
      while i < KERNEL_TABLE
        invariant 0 <= i <= KERNEL_TABLE
        invariant GrantUser(Mem(), layout, d, i) == GrantUser(m, layout, d, 0)
      {
        GrantUserUnfold(Mem(), layout, d, i);
        var pde := LoadWord(d, i);
        StoreWord(d, i, SetFlags(pde, PRESENT + WRITABLE + USER));
        i := i + 1;
      }
      GrantUserUnfold(Mem(), layout, d, i);
    }

    /** A physical block mapped at kernel page p. */
    method BackKernelPage(p: nat) returns (phys: word)
      requires Valid() && p < PAGES
      modifies ram.cells, blocks`usedBlocks, blocks.bitmap
      ensures Valid() && blocks.CounterDrift() == old(blocks.CounterDrift())
      ensures (Mem(), blocks.Blocks()) == BackPage(old(Mem()), layout, old(blocks.Blocks()), p)
      ensures phys == AllocateBlock(old(blocks.Blocks())).0 * BLOCK_SIZE
    {
      hide MapPage, AllocateBlock;
      phys := blocks.AllocatePhysicalMemoryBlock();
      MapKernelPage(phys, p * PAGE_SIZE);
    }

    method BackKernelPages(p: nat, count: nat)
      requires Valid() && p + count <= PAGES
      modifies ram.cells, blocks`usedBlocks, blocks.bitmap
      ensures Valid() && blocks.CounterDrift() == old(blocks.CounterDrift())
      ensures (Mem(), blocks.Blocks()) == BackPages(old(Mem()), layout, old(blocks.Blocks()), p, count)
    {
      hide BackPage, BackPages, Drift, Allocator.CounterDrift, Allocator.Blocks;
      var i := 0;
      while i < count
        invariant 0 <= i <= count && Valid() && blocks.CounterDrift() == old(blocks.CounterDrift())
        invariant BackPages(Mem(), layout, blocks.Blocks(), p + i, count - i)
                  == BackPages(old(Mem()), layout, old(blocks.Blocks()), p, count)
      {
        BackPagesUnfold(Mem(), layout, blocks.Blocks(), p + i, count - i);
        var phys := BackKernelPage(p + i);
        i := i + 1;
      }
      BackPagesUnfold(Mem(), layout, blocks.Blocks(), p + i, 0);
    }

    /** The directory of a new space: kernel page and frame. None where the source spins. */
    method NewDirectoryPage() returns (r: Option<(nat, nat)>)
      requires Valid() && Linked(Mem(), layout) && ImageTaken(blocks.Blocks(), layout)
      modifies ram.cells, blocks`usedBlocks, blocks.bitmap
      ensures Valid() && blocks.CounterDrift() == old(blocks.CounterDrift())
      ensures match MakeDirectory(old(Mem()), layout, old(blocks.Blocks()))
        case None => r == None
        case Some((d, f, m', taken')) => r == Some((d, f)) && Mem() == m' && blocks.Blocks() == taken'
    {
      hide Linked, KernelAllocate, BackPage, ZeroPage, ShareKernel, AllocateBlock, ImageTaken, FrameOf;
      ghost var m, taken := Mem(), blocks.Blocks();
      var address := KernelAllocateVirtualPages(1);
      if address == None { return None; }
      KernelAllocateLinked(m, layout, 1);
      var d := address.value / PAGE_SIZE;
      ghost var m1 := Mem();
      var phys := BackKernelPage(d);
      BackPageTaken(m1, layout, taken, d);
      DirectoryOutside(m1, layout, taken, d);
      ClearPage(d);
      ShareKernelTables(d);
      return Some((d, phys / BLOCK_SIZE));
    }

    method NewTablePages() returns (r: Option<nat>)
      requires Valid()
      modifies ram.cells, blocks`usedBlocks, blocks.bitmap
      ensures Valid() && blocks.CounterDrift() == old(blocks.CounterDrift())
      ensures match MakeTables(old(Mem()), layout, old(blocks.Blocks()))
        case None => r == None
        case Some((t, m', taken')) => r == Some(t) && Mem() == m' && blocks.Blocks() == taken'
    {
      hide KernelAllocate, BackPages;
      ghost var m := Mem();
      var address := KernelAllocateVirtualPages(TABLE_PAGES);
      if address == None { return None; }
      TablePagesFit(m, layout);
      BackKernelPages(address.value / PAGE_SIZE, KERNEL_TABLE);
      return Some(address.value / PAGE_SIZE);
    }

    /** CreateAddressSpace */
    method CreateAddressSpace() returns (r: Option<Space>)
      requires Valid() && Linked(Mem(), layout) && ImageTaken(blocks.Blocks(), layout)
      modifies ram.cells, blocks`usedBlocks, blocks.bitmap
      ensures Valid() && blocks.CounterDrift() == old(blocks.CounterDrift())
      ensures match Create(old(Mem()), layout, old(blocks.Blocks()))
        case None => r == None
        case Some((s, m', taken')) => r == Some(s) && Mem() == m' && blocks.Blocks() == taken'
      ensures Reserved(old(blocks.Blocks()), layout) && 768 < |FreeBlocks(old(blocks.Blocks()))| && r.Some? ==>
        r.value.Valid() && NewSpace(Mem(), layout, old(blocks.Blocks()), blocks.Blocks(), r.value)
        && Grows(old(Mem()), old(blocks.Blocks()), Mem(), blocks.Blocks(), layout)
    {
      hide Linked, MakeDirectory, MakeTables, GrantUser, ZeroPages, NewSpace, Grows, Reserved, FreeBlocks;
      WhenRoomy(Mem(), layout, blocks.Blocks());
      DirectoryFits(Mem(), layout, blocks.Blocks());
      var d := NewDirectoryPage();
      if d == None { return None; }
      TablesFit(Mem(), layout, blocks.Blocks());
      var t := NewTablePages();
      if t == None { return None; }
      GrantUserEntries(d.value.0);
      ClearPages(t.value, KERNEL_TABLE);
      return Some(Space(d.value.0, d.value.1, t.value));
    }

    // ---- SysMemalloc (syscall.cpp) ----

    /** n blocks mapped into dir from page p on. */
    method BackProcessPages(dir: Process, p: nat, n: nat)
      requires Valid() && p + n <= KERNEL_PAGE && Backed(Mem(), layout, dir)
      modifies ram.cells, blocks`usedBlocks, blocks.bitmap
      ensures Valid() && blocks.CounterDrift() == old(blocks.CounterDrift())
      ensures (Mem(), blocks.Blocks()) == BackUser(old(Mem()), layout, dir, old(blocks.Blocks()), p, n)
    {
      hide Backed, BackUser, MapUserPage, AllocateBlock, Drift, Allocator.CounterDrift, Allocator.Blocks;
      var i := 0;
      while i < n
        invariant 0 <= i <= n && Valid() && blocks.CounterDrift() == old(blocks.CounterDrift())
          && Backed(Mem(), layout, dir)
        invariant BackUser(Mem(), layout, dir, blocks.Blocks(), p + i, n - i)
                  == BackUser(old(Mem()), layout, dir, old(blocks.Blocks()), p, n)
      {
        BackUserUnfold(Mem(), layout, dir, blocks.Blocks(), p + i, n - i);
        var phys := blocks.AllocatePhysicalMemoryBlock();
        MapProcessPage(phys, (p + i) * PAGE_SIZE, dir);
        i := i + 1;
      }
      BackUserUnfold(Mem(), layout, dir, blocks.Blocks(), p + i, 0);
    }

    /** The processor's translation of v. */
    method Translate(directory: nat, v: word) returns (r: Option<nat>)
      requires Valid() && directory < FRAMES
      ensures r == Walk(Mem(), directory, v) && (r.Some? ==> r.value < WORD)
    {
      var pde := ram.Load(directory, v / 0x40_0000);
      if !Present(pde) { return None; }
      var pte := ram.Load(HardwareFrame(pde), v / PAGE_SIZE % PAGES_PER_TABLE);
      if !Present(pte) { return None; }
      return Some(HardwareFrame(pte) * PAGE_SIZE + v % PAGE_SIZE);
    }

    method PutByte(a: nat, b: byte)
      requires Valid() && a < WORD
      modifies ram.cells
      ensures Mem() == WriteByte(old(Mem()), a, b)
    {
      var w := ram.Load(a / FRAME_BYTES, a % FRAME_BYTES / 4);
      WithByteBound(w, a % 4, b);
      ram.Store(a / FRAME_BYTES, a % FRAME_BYTES / 4, WithByte(w, a % 4, b));
    }

    /** A 32-bit store at v; false is a page fault. */
    method PutLong(directory: nat, v: word, w: word) returns (ok: bool)
      requires Valid() && directory < FRAMES
      modifies ram.cells
      ensures ok == LongMapped(old(Mem()), directory, v)
      ensures if ok then LongStands(old(Mem()), Mem(), directory, v, w) else Mem() == old(Mem())
    {
      hide Walk, WriteByte, WordByte, LongStands;
      var a := Translate(directory, v);
      var b := Translate(directory, (v + 1) % WORD);
      var c := Translate(directory, (v + 2) % WORD);
      var d := Translate(directory, (v + 3) % WORD);
      if a == None || b == None || c == None || d == None { return false; }
      PutByte(a.value, WordByte(w, 0));
      PutByte(b.value, WordByte(w, 1));
      PutByte(c.value, WordByte(w, 2));
      PutByte(d.value, WordByte(w, 3));
      StoreLongReads(old(Mem()), directory, v, w);
      return true;
    }

    /** SysMemalloc: error 1 when an argument is 0; else the range is made and its address stands where the second
        argument points, through the directory of the calling process. None where the source spins, leaves the user
        tables or takes a page fault: exactly when there is no range, or one of the four bytes for its address is not
        mapped afterwards. */
    method SysMemalloc(amount: word, address: word, dir: Process) returns (error: nat, r: Option<word>)
      requires Valid() && Backed(Mem(), layout, dir)
      modifies ram.cells, blocks`usedBlocks, blocks.bitmap
      ensures Valid() && blocks.CounterDrift() == old(blocks.CounterDrift())
      ensures error == (if amount == 0 || address == 0 then 1 else 0)
      ensures error == 1 ==> r == None && Mem() == old(Mem()) && blocks.Blocks() == old(blocks.Blocks())
      ensures error == 0 ==>
        match Malloc(old(Mem()), layout, dir, old(blocks.Blocks()), amount)
        case None => r == None
        case Some((p, m1, taken')) =>
          blocks.Blocks() == taken'
          && if LongMapped(m1, dir.frame, address)
             then r == Some(p * 4096) && LongStands(m1, Mem(), dir.frame, address, p * 4096)
             else r == None && Mem() == m1
    {
      hide Backed, AllocateUser, BackUser, LongMapped, LongStands;
      if amount == 0 || address == 0 { return 1, None; }
      var p := AllocateVirtualPages(amount, dir);
      if p == None || p.value + amount > KERNEL_PAGE { return 0, None; }
      BackProcessPages(dir, p.value, amount);
      var ok := PutLong(dir.frame, address, p.value * PAGE_SIZE);
      return 0, if ok then Some(p.value * PAGE_SIZE) else None;
    }
  }

  lemma MapPagesUnfold(m: Memory, l: Kernel, phys: word, virt: word, n: nat)
    ensures MapPages(m, l, phys, virt, n)
            == if n == 0 then m
               else MapPages(MapPage(m, l, phys, virt), l, (phys + PAGE_SIZE) % WORD, (virt + PAGE_SIZE) % WORD, n - 1)
  {}

  lemma MapUserPagesUnfold(m: Memory, l: Kernel, s: Process, phys: word, virt: word, n: nat)
    requires virt / PAGE_SIZE + n <= KERNEL_PAGE
    ensures MapUserPages(m, l, s, phys, virt, n)
            == if n == 0 then m
               else MapUserPages(MapUserPage(m, l, s, phys, virt), l, s, (phys + PAGE_SIZE) % WORD, virt + PAGE_SIZE,
                                 n - 1)
  {}

  lemma WhenRoomy(m: Memory, l: Kernel, taken: set<nat>)
    requires Linked(m, l)
    ensures Reserved(taken, l) && 768 < |FreeBlocks(taken)| && Create(m, l, taken).Some? ==>
      var (s, m', taken') := Create(m, l, taken).value;
      s.Valid() && NewSpace(m', l, taken, taken', s) && Grows(m, taken, m', taken', l)
  {
    hide Linked, Reserved, FreeBlocks, Grows, NewSpace, Create;
    if Reserved(taken, l) && 768 < |FreeBlocks(taken)| && Create(m, l, taken).Some? { CreateIs(m, l, taken); }
  }

  lemma MapEntryIsBoth(e: word, addr: word)
    ensures SetFrame(SetFlags(e, PRESENT + WRITABLE), addr) == MapEntry(e, addr)
  {}

  /** A store into a frame outside the kernel's tables leaves the translation alone. */
  lemma HeapStore(m: Memory, l: Kernel, p: nat, j: nat, v: word)
    requires p < PAGES && j < FRAME_WORDS && !l.Holds(FrameOf(m, l, p))
    ensures var m' := Put(m, FrameOf(m, l, p), j, v);
      SameKernel(m, m', l) && FrameOf(m', l, p) == FrameOf(m, l, p) && m'[FrameOf(m, l, p)][j] == v
  {
    KernelSame(m, Put(m, FrameOf(m, l, p), j, v), l);
  }

  lemma HeapStoreTranslates(m: Memory, l: Kernel, p: nat, j: nat, v: word, a: word)
    requires p < PAGES && j < FRAME_WORDS && !l.Holds(FrameOf(m, l, p))
    ensures VirtualToPhysical(Put(m, FrameOf(m, l, p), j, v), l, a) == VirtualToPhysical(m, l, a)
  {
    HeapStore(m, l, p, j, v);
    KernelSame(m, Put(m, FrameOf(m, l, p), j, v), l);
  }

  lemma BackedFrames(m: Memory, l: Kernel, s: Process, k: nat)
    requires Backed(m, l, s) && k < KERNEL_TABLE
    ensures !l.Holds(FrameOf(m, l, s.tables + k)) && !l.Holds(FrameOf(m, l, s.directory))
  {
    assert Owns(s, s.tables + k) && Owns(s, s.directory);
  }

  lemma EntryStillBacked(m: Memory, l: Kernel, s: Process, p: nat, e: word)
    requires Backed(m, l, s) && p < KERNEL_PAGE
    ensures Backed(SetUserEntry(m, l, s, p, e), l, s)
  {
    BackedFrames(m, l, s, p / PAGES_PER_TABLE);
    HeapStore(m, l, s.tables + p / PAGES_PER_TABLE, p % PAGES_PER_TABLE, e);
    SameKernelKeeps(m, SetUserEntry(m, l, s, p, e), l, s);
  }

  lemma LinkedStillBacked(m: Memory, l: Kernel, s: Process, k: nat)
    requires Backed(m, l, s) && k < KERNEL_TABLE
    ensures var m' := LinkUserTable(m, l, s, k); SameKernel(m, m', l) && Backed(m', l, s)
  {
    BackedFrames(m, l, s, k);
    SameKernelKeeps(m, LinkUserTable(m, l, s, k), l, s);
  }

  lemma MislinkedStillBacked(m: Memory, l: Kernel, s: Process, k: nat)
    requires Backed(m, l, s) && k < KERNEL_TABLE
    ensures Backed(MislinkTable(m, l, s, k), l, s)
  {
    BackedFrames(m, l, s, k);
    SameKernelKeeps(m, MislinkTable(m, l, s, k), l, s);
  }

  lemma UserPresenceAt(m: Memory, l: Kernel, s: Process, p: nat)
    requires p < KERNEL_PAGE
    ensures |UserPresence(m, l, s)| == KERNEL_PAGE && UserPresence(m, l, s)[p] == Present(UserEntry(m, l, s, p))
  {}

  lemma AllocateUserAt(m: Memory, l: Kernel, s: Process, n: word, p: nat, c: nat)
    requires |UserPresence(m, l, s)| == KERNEL_PAGE
    requires Scan(UserPresence(m, l, s), 0, SEED, 0, (n + 2) % WORD) == Some((p, c))
    ensures AllocateUser(m, l, s, n) == if p + c <= KERNEL_PAGE then Some((p, MarkUserRun(m, l, s, p, c))) else None
  {}

  lemma AllocateUserNone(m: Memory, l: Kernel, s: Process, n: word)
    requires |UserPresence(m, l, s)| == KERNEL_PAGE
    requires Scan(UserPresence(m, l, s), 0, SEED, 0, (n + 2) % WORD) == None
    ensures AllocateUser(m, l, s, n) == None
  {}

  lemma MarkUserRunStep(m: Memory, l: Kernel, s: Process, p: nat, count: nat)
    requires p + count <= KERNEL_PAGE
    ensures MarkUserRun(m, l, s, p, count)
      == if count == 0 then m else MarkUserRun(MarkUserPage(m, l, s, p), l, s, p + 1, count - 1)
  {}

  lemma ZeroPagesUnfold(m: Memory, l: Kernel, p: nat, count: nat)
    requires p + count <= PAGES
    ensures ZeroPages(m, l, p, count) == if count == 0 then m else ZeroPages(ZeroPage(m, l, p), l, p + 1, count - 1)
  {}

  lemma ShareKernelUnfold(m: Memory, l: Kernel, p: nat, i: nat)
    requires p < PAGES && i <= TABLES
    ensures ShareKernel(m, l, p, i)
            == if i == TABLES then m
               else ShareKernel(
                 Put(m, FrameOf(m, l, p), i, MapEntry(m[FrameOf(m, l, p)][i], (l.tables + i) * PAGE_SIZE)), l, p, i + 1)
  {}

  lemma GrantUserUnfold(m: Memory, l: Kernel, p: nat, i: nat)
    requires p < PAGES && i <= KERNEL_TABLE
    ensures GrantUser(m, l, p, i)
            == if i == KERNEL_TABLE then m
               else GrantUser(
                 Put(m, FrameOf(m, l, p), i, SetFlags(m[FrameOf(m, l, p)][i], PRESENT + WRITABLE + USER)), l, p, i + 1)
  {}

  lemma BackPagesUnfold(m: Memory, l: Kernel, taken: set<nat>, p: nat, count: nat)
    requires p + count <= PAGES
    ensures BackPages(m, l, taken, p, count)
            == if count == 0 then (m, taken)
               else BackPages(BackPage(m, l, taken, p).0, l, BackPage(m, l, taken, p).1, p + 1, count - 1)
  {}

  lemma HeapMapStore(m: Memory, l: Kernel, p: nat, j: nat, v: word)
    requires p < PAGES && j < FRAME_WORDS && !l.Holds(FrameOf(m, l, p))
    ensures var m' := Put(m, FrameOf(m, l, p), j, v); SameKernel(m, m', l) && !l.Holds(FrameOf(m', l, p))
  {
    HeapStore(m, l, p, j, v);
  }

  lemma SameKernelSelf(m: Memory, l: Kernel)
    ensures SameKernel(m, m, l)
  {}

  lemma SameKernelTrans(m: Memory, m1: Memory, m2: Memory, l: Kernel)
    requires SameKernel(m, m1, l) && SameKernel(m1, m2, l)
    ensures SameKernel(m, m2, l)
  {}

  /** The frames of the kernel image are marked taken. */
  ghost predicate ImageTaken(taken: set<nat>, l: Kernel)
  {
    forall f :: 0 <= f < FRAMES && l.Holds(f) ==> f in taken
  }

  lemma KernelAllocateLinked(m: Memory, l: Kernel, n: word)
    requires Linked(m, l) && KernelAllocate(m, l, n).Some?
    ensures Linked(KernelAllocate(m, l, n).value.1, l) && KernelAllocate(m, l, n).value.0 / PAGE_SIZE < PAGES
  {
    KernelRunBound(m, l, n);
    MarkRunLinked(m, l, KernelRun(m, l, n).value.0, KernelRun(m, l, n).value.1);
  }

  lemma TablePagesFit(m: Memory, l: Kernel)
    ensures KernelAllocate(m, l, TABLE_PAGES).Some? ==>
      KernelAllocate(m, l, TABLE_PAGES).value.0 / PAGE_SIZE + KERNEL_TABLE <= PAGES
  {
    KernelAllocateReserves(m, l, TABLE_PAGES);
  }

  /** A page just backed leads outside the kernel's tables, even when memory has run out. */
  lemma DirectoryOutside(m: Memory, l: Kernel, taken: set<nat>, p: nat)
    requires Linked(m, l) && ImageTaken(taken, l) && p < PAGES
    ensures var m1 := BackPage(m, l, taken, p).0;
      !l.Holds(FrameOf(m1, l, p)) && !l.Holds(FrameOf(ZeroPage(m1, l, p), l, p))
  {
    hide Linked;
    var b := AllocateBlock(taken).0;
    var m1 := BackPage(m, l, taken, p).0;
    assert p * PAGE_SIZE / PAGE_SIZE == p;
    MapPageIs(m, l, b * PAGE_SIZE, p * PAGE_SIZE);
    EntryBelow(m, l, p);
    MapEntryIs(Entry(m, l, p), b * PAGE_SIZE);
    assert !l.Holds(b);
    OnlyFrameKeepsKernel(m1, ZeroPage(m1, l, p), l, b);
  }

  lemma BackUserUnfold(m: Memory, l: Kernel, s: Process, taken: set<nat>, p: nat, n: nat)
    requires p + n <= KERNEL_PAGE
    ensures BackUser(m, l, s, taken, p, n)
            == if n == 0 then (m, taken)
               else BackUser(MapUserPage(m, l, s, AllocateBlock(taken).0 * PAGE_SIZE, p * PAGE_SIZE), l, s,
                             AllocateBlock(taken).1, p + 1, n - 1)
  {}

  lemma FreePagesStep(m: Memory, l: Kernel, virt: word, n: nat)
    ensures FreePages(m, l, virt, n)
            == if n == 0 then m
               else FreePages(
                 SetEntry(m, l, virt / PAGE_SIZE, ClearFlags(Entry(m, l, virt / PAGE_SIZE), PRESENT + WRITABLE)), l,
                 (virt + PAGE_SIZE) % WORD, n - 1)
  {}

  lemma NextAddress(virt: word, i: nat)
    ensures ((virt + i * PAGE_SIZE) % WORD + PAGE_SIZE) % WORD == (virt + (i + 1) * PAGE_SIZE) % WORD
  {}

  lemma MarkRunStep(m: Memory, l: Kernel, p: nat, count: nat)
    requires p + count <= PAGES
    ensures MarkRun(m, l, p, count) == if count == 0 then m else MarkRun(MarkPage(m, l, p), l, p + 1, count - 1)
  {}

  lemma PresenceLength(m: Memory, l: Kernel)
    ensures |KernelPresence(m, l)| == PAGES
  {}

  lemma PresenceAt(m: Memory, l: Kernel, p: nat)
    requires p < PAGES
    ensures |KernelPresence(m, l)| == PAGES && KernelPresence(m, l)[p] == Present(Entry(m, l, p))
  {}

  lemma ScanStep(present: seq<bool>, p: nat, cursor: nat, counter: nat, need: nat)
    requires p < |present|
    ensures Scan(present, p, cursor, counter, need)
            == if present[p] then Scan(present, p + 1, p, 0, need)
               else if counter + 1 >= need then Some((cursor, counter + 1))
               else Scan(present, p + 1, cursor, counter + 1, need)
  {}

  lemma ScanEnd(present: seq<bool>, p: nat, cursor: nat, counter: nat, need: nat)
    requires p == |present|
    ensures Scan(present, p, cursor, counter, need) == None
  {}

  lemma KernelAllocateAt(m: Memory, l: Kernel, n: word, s: nat, c: nat)
    requires Scan(KernelPresence(m, l), KERNEL_PAGE, KERNEL_PAGE, 0, (n + 1) % WORD) == Some((s, c))
    ensures s + c <= PAGES && s < PAGES - 1
    ensures KernelAllocate(m, l, n) == Some((s * PAGE_SIZE + PAGE_SIZE, MarkRun(m, l, s, c)))
  {
    KernelRunBound(m, l, n);
  }

  lemma KernelAllocateNone(m: Memory, l: Kernel, n: word)
    requires Scan(KernelPresence(m, l), KERNEL_PAGE, KERNEL_PAGE, 0, (n + 1) % WORD) == None
    ensures KernelAllocate(m, l, n) == None
  {}
}
