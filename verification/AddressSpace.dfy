/** Process address spaces (CreateAddressSpace and MapVirtualPages into a directory, paging.cpp): a
    directory and 768 tables that live in frames reached through the kernel's own tables. */
module AddressSpace {
  import opened Bits
  import opened Options
  import opened PageEntry
  import opened PhysicalMemory
  import opened Paging

  /** page_directory_ptr_t: the kernel page of the directory, its physical frame, and the kernel page
      of the first of its 768 tables. */
  datatype Space = Space(directory: nat, frame: nat, tables: nat) {
    predicate Valid()
    {
      KERNEL_PAGE <= directory < PAGES && frame < FRAMES
      && KERNEL_PAGE <= tables && tables + KERNEL_TABLE <= PAGES
      && !(tables <= directory < tables + KERNEL_TABLE)
    }
  }

  type Process = s: Space | s.Valid() witness Space(KERNEL_PAGE, 0, KERNEL_PAGE + 1)

  /** The frame the processor reaches at kernel page p. */
  function FrameOf(m: Memory, l: Kernel, p: nat): (f: nat)
    requires p < PAGES
    ensures f < FRAMES
  {
    HardwareFrame(Entry(m, l, p))
  }

  /** s.page_tables[p / 1024][p % 1024], read through the kernel's tables. */
  function UserEntry(m: Memory, l: Kernel, s: Process, p: nat): word
    requires p < KERNEL_PAGE
  {
    m[FrameOf(m, l, s.tables + p / PAGES_PER_TABLE)][p % PAGES_PER_TABLE]
  }

  function SetUserEntry(m: Memory, l: Kernel, s: Process, p: nat, e: word): Memory
    requires p < KERNEL_PAGE
  {
    Put(m, FrameOf(m, l, s.tables + p / PAGES_PER_TABLE), p % PAGES_PER_TABLE, e)
  }

  /** Directory entry k of s made present and pointed at where the kernel's translation puts table k. */
  function LinkUserTable(m: Memory, l: Kernel, s: Process, k: nat): Memory
    requires k < KERNEL_TABLE
  {
    var f := FrameOf(m, l, s.directory);
    Put(m, f, k, MapEntry(m[f][k], VirtualToPhysical(m, l, (s.tables + k) * PAGE_SIZE)))
  }

  /** One turn of MapVirtualPages into the directory of s. */
  function MapUserPage(m: Memory, l: Kernel, s: Process, phys: word, virt: word): Memory
    requires virt / PAGE_SIZE < KERNEL_PAGE
  {
    var p := virt / PAGE_SIZE;
    LinkUserTable(SetUserEntry(m, l, s, p, MapEntry(UserEntry(m, l, s, p), phys)), l, s, p / PAGES_PER_TABLE)
  }

  function MapUserPages(m: Memory, l: Kernel, s: Process, phys: word, virt: word, n: nat): Memory
    requires virt / PAGE_SIZE + n <= KERNEL_PAGE
    decreases n, virt
  {
    if n == 0 then m
    else MapUserPages(MapUserPage(m, l, s, phys, virt), l, s, (phys + PAGE_SIZE) % WORD, virt + PAGE_SIZE, n - 1)
  }

  /** The pages the loader maps for a segment, whatever the alignment of its address. */
  function PageCount(memsz: word): nat { memsz / PAGE_SIZE + 2 }

  // ---- What a set of address spaces keeps ----

  predicate Owns(s: Process, p: nat) { p == s.directory || s.tables <= p < s.tables + KERNEL_TABLE }

  ghost function Frames(m: Memory, l: Kernel, s: Process): set<nat>
  {
    set p: nat | p < PAGES && Owns(s, p) :: FrameOf(m, l, p)
  }

  /** The frames of s are its own: one frame a page, mapped, none in the kernel image, none the frame 0. */
  ghost predicate Backed(m: Memory, l: Kernel, s: Process)
  {
    (forall p: nat :: p < PAGES && Owns(s, p) ==>
      Present(Entry(m, l, p)) && !l.Holds(FrameOf(m, l, p)) && FrameOf(m, l, p) != 0)
    && (forall p: nat, q: nat :: p < PAGES && q < PAGES && Owns(s, p) && Owns(s, q) && p != q ==>
        FrameOf(m, l, p) != FrameOf(m, l, q))
    && s.frame == FrameOf(m, l, s.directory)
  }

  /** The flags of directory entry k: bits 0 and 1, present and writable, are set, and below 0xC0000000 bit 2, user. */
  predicate Granted(e: word, k: nat)
  {
    e % 4 == 3 && (k < 768 ==> e / 4 % 2 == 1)
  }

  /** Every directory entry of s is present, writable and accessible to user mode below 768, those from 768 on are the
      kernel's tables, and no user entry has bit 31 set. Where the user directory entries lead is another matter: see
      TableLinked. */
  ghost predicate Directed(m: Memory, l: Kernel, s: Process)
  {
    (forall k :: 0 <= k < TABLES ==> Present(m[s.frame][k]) && m[s.frame][k] < HIGH && Granted(m[s.frame][k], k))
    && (forall k :: KERNEL_TABLE <= k < TABLES ==> HardwareFrame(m[s.frame][k]) == l.tables + k)
    && (forall p :: 0 <= p < KERNEL_PAGE ==> UserEntry(m, l, s, p) < HIGH)
  }

  /** The kernel's entries for pages already present keep their frames. */
  ghost predicate KeepsMappings(m: Memory, m': Memory, l: Kernel)
  {
    forall p :: 0 <= p < PAGES && Present(Entry(m, l, p)) ==>
      Present(Entry(m', l, p)) && FrameOf(m', l, p) == FrameOf(m, l, p)
  }

  // ---- Mapping into one space ----

  lemma KernelSame(m: Memory, m': Memory, l: Kernel)
    requires forall f :: 0 <= f < FRAMES && l.Holds(f) ==> m'[f] == m[f]
    ensures forall p :: 0 <= p < PAGES ==> Entry(m', l, p) == Entry(m, l, p)
    ensures m'[l.directory] == m[l.directory]
    ensures Linked(m, l) ==> Linked(m', l)
  {
    forall p | 0 <= p < PAGES ensures Entry(m', l, p) == Entry(m, l, p) {
      assert l.Holds(l.tables + p / PAGES_PER_TABLE);
    }
  }

  /** The words a map turn writes: one table entry and one directory entry of s. */
  ghost predicate MappedOne(m: Memory, m': Memory, l: Kernel, s: Process, phys: word, p: nat)
    requires p < KERNEL_PAGE
  {
    (forall f :: 0 <= f < FRAMES && f != FrameOf(m, l, s.tables + p / PAGES_PER_TABLE) && f != s.frame ==>
      m'[f] == m[f])
    && (forall q :: 0 <= q < KERNEL_PAGE ==>
         UserEntry(m', l, s, q) == if q == p then MapEntry(UserEntry(m, l, s, q), phys) else UserEntry(m, l, s, q))
    && (forall k :: 0 <= k < TABLES && k != p / PAGES_PER_TABLE ==> m'[s.frame][k] == m[s.frame][k])
    && Present(m'[s.frame][p / PAGES_PER_TABLE]) && m'[s.frame][p / PAGES_PER_TABLE] < HIGH
    && Enabled(m[s.frame][p / PAGES_PER_TABLE], m'[s.frame][p / PAGES_PER_TABLE])
    && HardwareFrame(m'[s.frame][p / PAGES_PER_TABLE]) == FrameOf(m, l, s.tables + p / PAGES_PER_TABLE)
  }

  lemma TableFrame(m: Memory, l: Kernel, s: Process, k: nat)
    requires Linked(m, l) && Backed(m, l, s) && k < KERNEL_TABLE
    ensures var f := FrameOf(m, l, s.tables + k);
      f < 0x8_0000 && f != s.frame && !l.Holds(f) && !l.Holds(s.frame) && f != 0
      && VirtualToPhysical(m, l, (s.tables + k) * PAGE_SIZE) == f * PAGE_SIZE
  {
    var p := s.tables + k;
    assert Owns(s, p) && Owns(s, s.directory);
    assert p * PAGE_SIZE / PAGE_SIZE == p;
    FramesDiffer(Entry(m, l, p));
  }

  /** The kernel's tables and directory are untouched. */
  ghost predicate SameKernel(m: Memory, m': Memory, l: Kernel)
  {
    forall f :: 0 <= f < FRAMES && l.Holds(f) ==> m'[f] == m[f]
  }

  lemma OneUserEntry(m: Memory, m': Memory, l: Kernel, s: Process, p: nat, e: word)
    requires Backed(m, l, s) && p < KERNEL_PAGE && SameKernel(m, m', l)
    requires m' == SetUserEntry(m, l, s, p, e)
    ensures forall q :: 0 <= q < KERNEL_PAGE ==> UserEntry(m', l, s, q) == if q == p then e else UserEntry(m, l, s, q)
  {
    KernelSame(m, m', l);
    forall q | 0 <= q < KERNEL_PAGE && q != p ensures UserEntry(m', l, s, q) == UserEntry(m, l, s, q) {
      DistinctPages(p, q);
      assert Owns(s, s.tables + p / PAGES_PER_TABLE) && Owns(s, s.tables + q / PAGES_PER_TABLE);
    }
  }

  lemma OtherUserEntries(m: Memory, m': Memory, l: Kernel, s: Process)
    requires Backed(m, l, s) && SameKernel(m, m', l)
    requires forall f :: 0 <= f < FRAMES && f != s.frame ==> m'[f] == m[f]
    ensures forall q :: 0 <= q < KERNEL_PAGE ==> UserEntry(m', l, s, q) == UserEntry(m, l, s, q)
  {
    KernelSame(m, m', l);
    forall q | 0 <= q < KERNEL_PAGE ensures UserEntry(m', l, s, q) == UserEntry(m, l, s, q) {
      assert Owns(s, s.tables + q / PAGES_PER_TABLE) && Owns(s, s.directory);
    }
  }

  lemma SameKernelKeeps(m: Memory, m': Memory, l: Kernel, s: Process)
    requires SameKernel(m, m', l)
    ensures forall p :: 0 <= p < PAGES ==> FrameOf(m', l, p) == FrameOf(m, l, p)
    ensures Backed(m, l, s) ==> Backed(m', l, s)
    ensures Linked(m, l) ==> Linked(m', l)
  {
    KernelSame(m, m', l);
  }

  /** m' is m with table entry p of s set to e. */
  ghost predicate TableWritten(m: Memory, m': Memory, l: Kernel, s: Process, p: nat, e: word)
    requires p < KERNEL_PAGE
  {
    SameKernel(m, m', l) && m'[s.frame] == m[s.frame]
    && (forall f :: 0 <= f < FRAMES && f != FrameOf(m, l, s.tables + p / PAGES_PER_TABLE) ==> m'[f] == m[f])
    && (forall q :: 0 <= q < KERNEL_PAGE ==> UserEntry(m', l, s, q) == if q == p then e else UserEntry(m, l, s, q))
  }

  /** m' is m with directory entry k of s present and pointed at the frame of its table k. */
  ghost predicate DirectoryWritten(m: Memory, m': Memory, l: Kernel, s: Process, k: nat)
    requires k < KERNEL_TABLE
  {
    SameKernel(m, m', l)
    && (forall f :: 0 <= f < FRAMES && f != s.frame ==> m'[f] == m[f])
    && (forall q :: 0 <= q < KERNEL_PAGE ==> UserEntry(m', l, s, q) == UserEntry(m, l, s, q))
    && (forall i :: 0 <= i < TABLES && i != k ==> m'[s.frame][i] == m[s.frame][i])
    && Present(m'[s.frame][k]) && m'[s.frame][k] < HIGH && Enabled(m[s.frame][k], m'[s.frame][k])
    && HardwareFrame(m'[s.frame][k]) == FrameOf(m, l, s.tables + k)
  }

  lemma TableWrite(m: Memory, l: Kernel, s: Process, p: nat, e: word)
    requires Linked(m, l) && Backed(m, l, s) && p < KERNEL_PAGE
    ensures TableWritten(m, SetUserEntry(m, l, s, p, e), l, s, p, e)
  {
    hide Linked;
    TableFrame(m, l, s, p / PAGES_PER_TABLE);
    OneUserEntry(m, SetUserEntry(m, l, s, p, e), l, s, p, e);
  }

  lemma DirectoryWrite(m: Memory, l: Kernel, s: Process, k: nat)
    requires Linked(m, l) && Backed(m, l, s) && k < KERNEL_TABLE && m[s.frame][k] < HIGH
    ensures DirectoryWritten(m, LinkUserTable(m, l, s, k), l, s, k)
  {
    TableFrame(m, l, s, k);
    MapEntryIs(m[s.frame][k], FrameOf(m, l, s.tables + k) * PAGE_SIZE);
    OtherUserEntries(m, LinkUserTable(m, l, s, k), l, s);
  }

  lemma BothWritten(m: Memory, m1: Memory, m': Memory, l: Kernel, s: Process, phys: word, p: nat)
    requires p < KERNEL_PAGE && TableWritten(m, m1, l, s, p, MapEntry(UserEntry(m, l, s, p), phys))
    requires DirectoryWritten(m1, m', l, s, p / PAGES_PER_TABLE)
    ensures SameKernel(m, m', l) && MappedOne(m, m', l, s, phys, p)
  {
    SameKernelKeeps(m, m1, l, s);
  }

  lemma MapUserPageIs(m: Memory, l: Kernel, s: Process, phys: word, virt: word)
    requires Linked(m, l) && Backed(m, l, s) && virt / PAGE_SIZE < KERNEL_PAGE
    requires m[s.frame][virt / PAGE_SIZE / PAGES_PER_TABLE] < HIGH
    ensures var m' := MapUserPage(m, l, s, phys, virt);
      SameKernel(m, m', l) && MappedOne(m, m', l, s, phys, virt / PAGE_SIZE)
  {
    var p := virt / PAGE_SIZE;
    var e := MapEntry(UserEntry(m, l, s, p), phys);
    var k := p / PAGES_PER_TABLE;
    var m1 := SetUserEntry(m, l, s, p, e);
    TableWrite(m, l, s, p, e);
    assert Linked(m1, l) && Backed(m1, l, s) && m1[s.frame] == m[s.frame] by { SameKernelKeeps(m, m1, l, s); }
    DirectoryWrite(m1, l, s, k);
    BothWritten(m, m1, LinkUserTable(m1, l, s, k), l, s, phys, p);
  }

  lemma MapUserPageDirected(m: Memory, l: Kernel, s: Process, phys: word, virt: word)
    requires Linked(m, l) && Backed(m, l, s) && Directed(m, l, s) && virt / PAGE_SIZE < KERNEL_PAGE
    requires phys < HIGH && phys % PAGE_SIZE == 0
    ensures Directed(MapUserPage(m, l, s, phys, virt), l, s)
  {
    var m' := MapUserPage(m, l, s, phys, virt);
    MapUserPageIs(m, l, s, phys, virt);
    MapEntryIs(UserEntry(m, l, s, virt / PAGE_SIZE), phys);
    DirectedStep(m, m', l, s, phys, virt / PAGE_SIZE);
  }

  lemma DirectedStep(m: Memory, m': Memory, l: Kernel, s: Process, phys: word, p: nat)
    requires p < KERNEL_PAGE && Directed(m, l, s) && SameKernel(m, m', l) && MappedOne(m, m', l, s, phys, p)
    requires MapEntry(UserEntry(m, l, s, p), phys) < HIGH
    ensures Directed(m', l, s)
  {
    hide MapEntry, Linked, Backed, Entry, Granted, Enabled;
    SameKernelKeeps(m, m', l, s);
    StaysGranted(m[s.frame][p / PAGES_PER_TABLE], m'[s.frame][p / PAGES_PER_TABLE], p / PAGES_PER_TABLE);
  }

  lemma StaysGranted(was: word, e: word, k: nat)
    requires Granted(was, k) && Enabled(was, e)
    ensures Granted(e, k)
  {
    SameParity(was / 4, e / 4);
  }

  lemma SameParity(x: nat, y: nat)
    requires x % 1024 == y % 1024
    ensures x % 2 == y % 2
  {
    EvenPart(x, 512 * (x / 1024), x % 1024);
    EvenPart(y, 512 * (y / 1024), y % 1024);
  }

  lemma EvenPart(x: nat, half: nat, r: nat)
    requires x == 2 * half + r
    ensures x % 2 == r % 2
  {}

  /** What mapping into s relies on and keeps. */
  ghost predicate Sound(m: Memory, l: Kernel, s: Process)
  {
    Linked(m, l) && Backed(m, l, s) && Directed(m, l, s)
  }

  lemma SoundParts(m: Memory, l: Kernel, s: Process)
    requires Sound(m, l, s)
    ensures Linked(m, l) && Backed(m, l, s) && Directed(m, l, s)
  {}

  /** m' may differ from m in the frames of s only. */
  ghost predicate WithinFrames(m: Memory, m': Memory, l: Kernel, s: Process)
  {
    forall f :: 0 <= f < FRAMES && f !in Frames(m, l, s) ==> m'[f] == m[f]
  }

  lemma MapUserPageSound(m: Memory, l: Kernel, s: Process, phys: word, virt: word)
    requires Sound(m, l, s) && virt / PAGE_SIZE < KERNEL_PAGE && phys < HIGH && phys % PAGE_SIZE == 0
    ensures var m' := MapUserPage(m, l, s, phys, virt);
      KeepsOthers(m, m', l, s)
  {
    hide MapEntry, Linked, MapUserPage, UserEntry, Enabled, Directed;
    var m' := MapUserPage(m, l, s, phys, virt);
    DirectoryBelow(m, l, s, virt / PAGE_SIZE / PAGES_PER_TABLE);
    MapUserPageIs(m, l, s, phys, virt);
    MapUserPageDirected(m, l, s, phys, virt);
    SameKernelKeeps(m, m', l, s);
    var p := s.tables + virt / PAGE_SIZE / PAGES_PER_TABLE;
    assert Owns(s, s.directory) && Owns(s, p);
    assert FrameOf(m, l, p) in Frames(m, l, s) && s.frame in Frames(m, l, s);
  }

  /** What mapping into s keeps: the kernel's tables, every frame that is not a frame of s, and soundness. */
  ghost predicate KeepsOthers(m: Memory, m': Memory, l: Kernel, s: Process)
  {
    SameKernel(m, m', l) && Sound(m', l, s) && Frames(m', l, s) == Frames(m, l, s) && WithinFrames(m, m', l, s)
  }

  lemma KeepsOthersTrans(m: Memory, m1: Memory, m': Memory, l: Kernel, s: Process)
    requires KeepsOthers(m, m1, l, s) && KeepsOthers(m1, m', l, s)
    ensures KeepsOthers(m, m', l, s)
  {
    hide Sound, Frames;
  }

  lemma {:induction false} MapUserPagesKeeps(m: Memory, l: Kernel, s: Process, phys: word, virt: word, n: nat)
    requires Sound(m, l, s) && virt / PAGE_SIZE + n <= KERNEL_PAGE
    requires phys % PAGE_SIZE == 0 && phys + n * PAGE_SIZE <= HIGH
    ensures KeepsOthers(m, MapUserPages(m, l, s, phys, virt, n), l, s)
    decreases n
  {
    hide Sound, MapUserPage;
    if n > 0 {
      MapUserPageSound(m, l, s, phys, virt);
      var m1 := MapUserPage(m, l, s, phys, virt);
      MapUserPagesKeeps(m1, l, s, phys + PAGE_SIZE, virt + PAGE_SIZE, n - 1);
      KeepsOthersTrans(m, m1, MapUserPages(m, l, s, phys, virt, n), l, s);
    }
  }

  lemma DirectoryBelow(m: Memory, l: Kernel, s: Process, k: nat)
    requires Sound(m, l, s) && k < TABLES
    ensures m[s.frame][k] < HIGH
  {}

  lemma MapUserPageAt(m: Memory, l: Kernel, s: Process, phys: word, virt: word, q: nat)
    requires Sound(m, l, s) && virt / PAGE_SIZE < KERNEL_PAGE && q < KERNEL_PAGE
    ensures var m' := MapUserPage(m, l, s, phys, virt); var p := virt / PAGE_SIZE;
      UserEntry(m', l, s, q) == (if q == p then MapEntry(UserEntry(m, l, s, q), phys) else UserEntry(m, l, s, q))
      && (q == p || TableLinked(m, l, s, q / PAGES_PER_TABLE) ==> TableLinked(m', l, s, q / PAGES_PER_TABLE))
  {
    hide MapUserPage, UserEntry, Linked, Backed, Directed, Enabled;
    assert m[s.frame][virt / PAGE_SIZE / PAGES_PER_TABLE] < HIGH by {
      DirectoryBelow(m, l, s, virt / PAGE_SIZE / PAGES_PER_TABLE);
    }
    MapUserPageIs(m, l, s, phys, virt);
    SameKernelKeeps(m, MapUserPage(m, l, s, phys, virt), l, s);
  }

  /** The entries of s after mapping: n of them point at the n physical pages, each through a linked table. */
  lemma {:induction false} MapUserPagesIs(m: Memory, l: Kernel, s: Process, phys: word, virt: word, n: nat, q: nat)
    requires Sound(m, l, s) && virt / PAGE_SIZE + n <= KERNEL_PAGE
    requires phys % PAGE_SIZE == 0 && phys + n * PAGE_SIZE <= HIGH && q < KERNEL_PAGE
    ensures var m' := MapUserPages(m, l, s, phys, virt, n); var p := virt / PAGE_SIZE;
      UserEntry(m', l, s, q) == (if p <= q < p + n then MapEntry(UserEntry(m, l, s, q), phys + (q - p) * PAGE_SIZE)
                                 else UserEntry(m, l, s, q))
      && (p <= q < p + n || TableLinked(m, l, s, q / PAGES_PER_TABLE) ==> TableLinked(m', l, s, q / PAGES_PER_TABLE))
    decreases n
  {
    hide Sound, MapUserPage, UserEntry, TableLinked;
    if n > 0 {
      MapUserPageAt(m, l, s, phys, virt, q);
      MapUserPageSound(m, l, s, phys, virt);
      MapUserPagesIs(MapUserPage(m, l, s, phys, virt), l, s, phys + PAGE_SIZE, virt + PAGE_SIZE, n - 1, q);
    }
  }

  /** Directory entry k of s leads to the table the kernel writes. */
  predicate TableLinked(m: Memory, l: Kernel, s: Process, k: nat)
    requires k < KERNEL_TABLE
  {
    HardwareFrame(m[s.frame][k]) == FrameOf(m, l, s.tables + k)
  }

  /** The table entry the processor finds for page p of s, wherever the directory leads it. */
  function WalkedEntry(m: Memory, s: Process, p: nat): word
    requires p < KERNEL_PAGE
  {
    m[HardwareFrame(m[s.frame][p / PAGES_PER_TABLE])][p % PAGES_PER_TABLE]
  }

  /** The walk of s below 0xC0000000: through a linked table it is the entry the kernel wrote; otherwise the
      processor takes whatever frame the directory names for a page table. */
  lemma UserWalk(m: Memory, l: Kernel, s: Process, v: word)
    requires Directed(m, l, s) && v / PAGE_SIZE < KERNEL_PAGE
    ensures var p := v / PAGE_SIZE; var e := WalkedEntry(m, s, p);
      Walk(m, s.frame, v) == (if Present(e) then Some(HardwareFrame(e) * PAGE_SIZE + v % PAGE_SIZE) else None)
      && (TableLinked(m, l, s, p / PAGES_PER_TABLE) ==> e == UserEntry(m, l, s, p))
  {
    assert v / PAGE_SIZE / PAGES_PER_TABLE == v / 0x40_0000;
  }

  /** Directory entry k of s leads to its own table, or still to frame 0 as CreateAddressSpace left it. */
  predicate Anchored(m: Memory, l: Kernel, s: Process, k: nat)
    requires k < KERNEL_TABLE
  {
    TableLinked(m, l, s, k) || HardwareFrame(m[s.frame][k]) == 0
  }

  /** The walk of s from 0xC0000000 up is the kernel's tables, whatever s is. */
  lemma KernelHalf(m: Memory, l: Kernel, s: Process, v: word)
    requires Linked(m, l) && Directed(m, l, s) && v / PAGE_SIZE >= KERNEL_PAGE
    ensures Walk(m, s.frame, v) == Walk(m, l.directory, v)
  {
    assert v / PAGE_SIZE / PAGES_PER_TABLE == v / 0x40_0000;
    WalkIsTables(m, l, v);
  }

  lemma UserWalkOfMapped(m: Memory, l: Kernel, s: Process, v: word, e: word, phys: word)
    requires Sound(m, l, s) && v / PAGE_SIZE < KERNEL_PAGE && TableLinked(m, l, s, v / PAGE_SIZE / PAGES_PER_TABLE)
    requires UserEntry(m, l, s, v / PAGE_SIZE) == MapEntry(e, phys)
    requires e < HIGH && phys % PAGE_SIZE == 0
    ensures Walk(m, s.frame, v) == Some(phys + v % PAGE_SIZE)
  {
    UserWalk(m, l, s, v);
    MapEntryIs(e, phys);
  }

  lemma UserEntryBelow(m: Memory, l: Kernel, s: Process, p: nat)
    requires Sound(m, l, s) && p < KERNEL_PAGE
    ensures UserEntry(m, l, s, p) < HIGH
  {}

  /** Every directory entry of s being writable, the entry of the page decides. */
  lemma UserWritable(m: Memory, l: Kernel, s: Process, v: word)
    requires Sound(m, l, s) && v / PAGE_SIZE < KERNEL_PAGE
    ensures WritableAt(m, s.frame, v) <==> WalkedEntry(m, s, v / PAGE_SIZE) % 4 == 3
  {
    hide Linked, Backed;
    assert v / PAGE_SIZE / PAGES_PER_TABLE == v / 0x40_0000;
    assert Granted(m[s.frame][v / 0x40_0000], v / 0x40_0000);
  }

  lemma UserMappedWritable(m: Memory, l: Kernel, s: Process, v: word, e: word, phys: word)
    requires Sound(m, l, s) && v / PAGE_SIZE < KERNEL_PAGE && TableLinked(m, l, s, v / PAGE_SIZE / PAGES_PER_TABLE)
    requires UserEntry(m, l, s, v / PAGE_SIZE) == MapEntry(e, phys) && phys % PAGE_SIZE == 0
    ensures WritableAt(m, s.frame, v)
  {
    hide Linked, Backed, WritableAt;
    UserWalk(m, l, s, v);
    MapEntryIs(e, phys);
    UserWritable(m, l, s, v);
  }

  /** After MapVirtualPages into the directory of s the processor, walking that directory, sends every
      address of the n pages to its place in the n physical pages, and lets it be written. */
  lemma UserMapReaches(m: Memory, l: Kernel, s: Process, phys: word, virt: word, n: nat, v: word)
    requires Sound(m, l, s) && virt / PAGE_SIZE + n <= KERNEL_PAGE
    requires phys % PAGE_SIZE == 0 && phys + n * PAGE_SIZE <= HIGH
    requires virt / PAGE_SIZE <= v / PAGE_SIZE < virt / PAGE_SIZE + n
    ensures Walk(MapUserPages(m, l, s, phys, virt, n), s.frame, v)
            == Some(phys + (v / PAGE_SIZE - virt / PAGE_SIZE) * PAGE_SIZE + v % PAGE_SIZE)
    ensures WritableAt(MapUserPages(m, l, s, phys, virt, n), s.frame, v)
  {
    hide Sound, UserEntry, TableLinked, Walk, MapUserPages, MapEntry, WritableAt;
    var e := UserEntry(m, l, s, v / PAGE_SIZE);
    UserEntryBelow(m, l, s, v / PAGE_SIZE);
    MapUserPagesIs(m, l, s, phys, virt, n, v / PAGE_SIZE);
    MapUserPagesKeeps(m, l, s, phys, virt, n);
    UserWalkOfMapped(MapUserPages(m, l, s, phys, virt, n), l, s, v, e,
      phys + (v / PAGE_SIZE - virt / PAGE_SIZE) * PAGE_SIZE);
    UserMappedWritable(MapUserPages(m, l, s, phys, virt, n), l, s, v, e,
      phys + (v / PAGE_SIZE - virt / PAGE_SIZE) * PAGE_SIZE);
  }

  /** For every address of the n pages at once. */
  ghost predicate UserMapped(m: Memory, s: Process, phys: word, virt: word, n: nat)
  {
    forall v: word :: virt / PAGE_SIZE <= v / PAGE_SIZE < virt / PAGE_SIZE + n ==>
      Walk(m, s.frame, v) == Some(phys + (v / PAGE_SIZE - virt / PAGE_SIZE) * PAGE_SIZE + v % PAGE_SIZE)
      && WritableAt(m, s.frame, v)
  }

  lemma MapUserPagesMapped(m: Memory, l: Kernel, s: Process, phys: word, virt: word, n: nat)
    requires Sound(m, l, s) && virt / PAGE_SIZE + n <= KERNEL_PAGE
    requires phys % PAGE_SIZE == 0 && phys + n * PAGE_SIZE <= HIGH
    ensures var m' := MapUserPages(m, l, s, phys, virt, n);
      UserMapped(m', s, phys, virt, n) && KeepsOthers(m, m', l, s)
  {
    hide Sound, Walk, MapUserPages, WritableAt, KeepsOthers;
    MapUserPagesKeeps(m, l, s, phys, virt, n);
    forall v: word | virt / PAGE_SIZE <= v / PAGE_SIZE < virt / PAGE_SIZE + n
      ensures var m' := MapUserPages(m, l, s, phys, virt, n);
        Walk(m', s.frame, v) == Some(phys + (v / PAGE_SIZE - virt / PAGE_SIZE) * PAGE_SIZE + v % PAGE_SIZE)
        && WritableAt(m', s.frame, v)
    {
      UserMapReaches(m, l, s, phys, virt, n, v);
    }
  }
}
