/** The kernel's page tables (paging.cpp, paging.h) and the processor's walk over them. */
module Paging {
  import opened Bits
  import opened Options
  import opened PageEntry
  import opened PhysicalMemory

  const PAGES := 0x10_0000
  const TABLES := 1024
  const PAGES_PER_TABLE := 1024
  // Directory index and page number of 0xC0000000.
  const KERNEL_TABLE := 768
  const KERNEL_PAGE := 0xC_0000

  /** Where the kernel image holds its tables: the first of the 1024 frames of kernelPageTables and
      the frame of kernelPageDirectory, as physical frames (their address minus 0xC0000000). */
  datatype Layout = Layout(tables: nat, directory: nat) {
    predicate Valid()
    {
      0 < tables && tables + TABLES <= 0x4_0000 && 0 < directory < 0x4_0000
      && !(tables <= directory < tables + TABLES)
    }

    predicate Holds(f: nat)
    {
      tables <= f < tables + TABLES || f == directory
    }
  }

  type Kernel = l: Layout | l.Valid() witness Layout(1, 2000)

  /** The translation of 32-bit paging: directory entry, table entry, page offset. None is a page fault. */
  function Walk(m: Memory, directory: nat, v: word): Option<nat>
    requires directory < FRAMES
  {
    var pde := m[directory][v / 0x40_0000];
    if !Present(pde) then None
    else
      var pte := m[HardwareFrame(pde)][v / PAGE_SIZE % PAGES_PER_TABLE];
      if !Present(pte) then None else Some(HardwareFrame(pte) * PAGE_SIZE + v % PAGE_SIZE)
  }

  /** Where byte k of a 32-bit access at v is. */
  function LongAt(m: Memory, directory: nat, v: word, k: nat): (r: Option<nat>)
    requires directory < FRAMES
    ensures r.Some? ==> r.value < WORD && r.value % PAGE_SIZE == (v + k) % PAGE_SIZE
  {
    WalkOffset(m, directory, (v + k) % WORD);
    Walk(m, directory, (v + k) % WORD)
  }

  lemma WalkOffset(m: Memory, directory: nat, v: word)
    requires directory < FRAMES
    ensures var r := Walk(m, directory, v); r.Some? ==> r.value < WORD && r.value % PAGE_SIZE == v % PAGE_SIZE
  {
    if Walk(m, directory, v).Some? {
      var pde := m[directory][v / 0x40_0000];
      FrameOffset(HardwareFrame(m[HardwareFrame(pde)][v / PAGE_SIZE % PAGES_PER_TABLE]), v % PAGE_SIZE);
    }
  }

  lemma FrameOffset(f: nat, o: nat)
    requires f < FRAMES && o < PAGE_SIZE
    ensures f * PAGE_SIZE + o < WORD && (f * PAGE_SIZE + o) % PAGE_SIZE == o
  {}

  /** A 32-bit store at virtual address v: every byte goes where the walk leads it. None is a page fault, and then
      nothing is written. */
  function StoreLong(m: Memory, directory: nat, v: word, w: word): Option<Memory>
    requires directory < FRAMES
  {
    match (LongAt(m, directory, v, 0), LongAt(m, directory, v, 1), LongAt(m, directory, v, 2),
      LongAt(m, directory, v, 3))
    case (Some(a), Some(b), Some(c), Some(d)) =>
      Some(WriteByte(WriteByte(WriteByte(WriteByte(m, a, WordByte(w, 0)), b, WordByte(w, 1)), c, WordByte(w, 2)),
                     d, WordByte(w, 3)))
    case _ => None
  }

  /** In m' the word w stands at v, its least significant byte first: where the walk in m leads the four addresses
      from v on, which wrap at 2^32. Every other byte is as in m. */
  ghost predicate LongStands(m: Memory, m': Memory, directory: nat, v: word, w: word)
    requires directory < FRAMES
  {
    var (a, b) := (Walk(m, directory, v), Walk(m, directory, (v + 1) % WORD));
    var (c, d) := (Walk(m, directory, (v + 2) % WORD), Walk(m, directory, (v + 3) % WORD));
    WalkOffset(m, directory, v); WalkOffset(m, directory, (v + 1) % WORD);
    WalkOffset(m, directory, (v + 2) % WORD); WalkOffset(m, directory, (v + 3) % WORD);
    a.Some? && b.Some? && c.Some? && d.Some?
    && ReadByte(m', a.value) + 0x100 * ReadByte(m', b.value) + 0x1_0000 * ReadByte(m', c.value)
       + 0x100_0000 * ReadByte(m', d.value) == w
    && forall x :: 0 <= x < WORD && Some(x) != a && Some(x) != b && Some(x) != c && Some(x) != d ==>
         ReadByte(m', x) == ReadByte(m, x)
  }

  /** All four addresses of a 32-bit access are mapped. */
  predicate LongMapped(m: Memory, directory: nat, v: word)
    requires directory < FRAMES
  {
    Walk(m, directory, v).Some? && Walk(m, directory, (v + 1) % WORD).Some?
    && Walk(m, directory, (v + 2) % WORD).Some? && Walk(m, directory, (v + 3) % WORD).Some?
  }

  /** The store succeeds if and only if they are, and then the word stands there. */
  lemma StoreLongReads(m: Memory, directory: nat, v: word, w: word)
    requires directory < FRAMES
    ensures match StoreLong(m, directory, v, w)
      case None => !LongMapped(m, directory, v)
      case Some(m') => LongMapped(m, directory, v) && LongStands(m, m', directory, v, w)
  {
    hide ReadByte, WriteByte, WordByte, Walk, LongAt;
    LongAtIs(m, directory, v, 0); LongAtIs(m, directory, v, 1);
    LongAtIs(m, directory, v, 2); LongAtIs(m, directory, v, 3);
    if StoreLong(m, directory, v, w).Some? {
      var (a, b) := (LongAt(m, directory, v, 0).value, LongAt(m, directory, v, 1).value);
      var (c, d) := (LongAt(m, directory, v, 2).value, LongAt(m, directory, v, 3).value);
      BytesApart(v, a, b, c, d);
      FourBytes(m, a, b, c, d, w);
      BytesOfWord(w);
    }
  }

  lemma LongAtIs(m: Memory, directory: nat, v: word, k: nat)
    requires directory < FRAMES
    ensures LongAt(m, directory, v, k) == Walk(m, directory, (v + k) % WORD)
  {}

  lemma BytesApart(v: word, a: nat, b: nat, c: nat, d: nat)
    requires a % PAGE_SIZE == v % PAGE_SIZE && b % PAGE_SIZE == (v + 1) % PAGE_SIZE
    requires c % PAGE_SIZE == (v + 2) % PAGE_SIZE && d % PAGE_SIZE == (v + 3) % PAGE_SIZE
    ensures a != b && a != c && a != d && b != c && b != d && c != d
  {}

  lemma FourBytes(m: Memory, a: nat, b: nat, c: nat, d: nat, w: word)
    requires a < WORD && b < WORD && c < WORD && d < WORD
    ensures var m' := WriteByte(WriteByte(WriteByte(WriteByte(m, a, WordByte(w, 0)), b, WordByte(w, 1)), c,
                                          WordByte(w, 2)), d, WordByte(w, 3));
      forall x :: 0 <= x < WORD ==>
        ReadByte(m', x) == if x == d then WordByte(w, 3) else if x == c then WordByte(w, 2)
                           else if x == b then WordByte(w, 1) else if x == a then WordByte(w, 0) else ReadByte(m, x)
  {
    hide ReadByte, WriteByte, WordByte;
    var m1 := WriteByte(m, a, WordByte(w, 0));
    var m2 := WriteByte(m1, b, WordByte(w, 1));
    var m3 := WriteByte(m2, c, WordByte(w, 2));
    forall x | 0 <= x < WORD
      ensures ReadByte(WriteByte(m3, d, WordByte(w, 3)), x)
              == if x == d then WordByte(w, 3) else if x == c then WordByte(w, 2) else if x == b then WordByte(w, 1)
                 else if x == a then WordByte(w, 0) else ReadByte(m, x)
    {
      WriteByteReads(m, a, WordByte(w, 0), x);
      WriteByteReads(m1, b, WordByte(w, 1), x);
      WriteByteReads(m2, c, WordByte(w, 2), x);
      WriteByteReads(m3, d, WordByte(w, 3), x);
    }
  }

  /** kernelPageTables[p / 1024][p % 1024] */
  function Entry(m: Memory, l: Kernel, p: nat): word
    requires p < PAGES
  {
    m[l.tables + p / PAGES_PER_TABLE][p % PAGES_PER_TABLE]
  }

  function SetEntry(m: Memory, l: Kernel, p: nat, e: word): Memory
    requires p < PAGES
  {
    Put(m, l.tables + p / PAGES_PER_TABLE, p % PAGES_PER_TABLE, e)
  }

  /** Points directory entry k at the kernel's k-th table and makes it present. */
  function LinkTable(m: Memory, l: Kernel, k: nat): Memory
    requires k < TABLES
  {
    Put(m, l.directory, k,
        SetFrame(SetFlags(m[l.directory][k], PRESENT + WRITABLE), (l.tables + k) * PAGE_SIZE))
  }

  /** VirtualToPhysicalAddress: the frame's address, read from the kernel's tables. */
  function VirtualToPhysical(m: Memory, l: Kernel, v: word): word
  {
    FramesDiffer(Entry(m, l, v / PAGE_SIZE));
    GetFrame(Entry(m, l, v / PAGE_SIZE)) * PAGE_SIZE
  }

  /** One turn of MapVirtualPages. */
  function MapPage(m: Memory, l: Kernel, phys: word, virt: word): Memory
  {
    var p := virt / PAGE_SIZE;
    LinkTable(SetEntry(m, l, p, MapEntry(Entry(m, l, p), phys)), l, p / PAGES_PER_TABLE)
  }

  /** MapVirtualPages into the current (kernel) tables; both addresses wrap at 2^32. */
  function MapPages(m: Memory, l: Kernel, phys: word, virt: word, n: nat): Memory
    decreases n, virt
  {
    if n == 0 then m
    else MapPages(MapPage(m, l, phys, virt), l, (phys + PAGE_SIZE) % WORD, (virt + PAGE_SIZE) % WORD, n - 1)
  }

  /** How many pages after the page of virt page q lies, going round the address space. */
  function PagesAfter(virt: word, q: nat): nat { (q - virt / PAGE_SIZE) % PAGES }

  /** Memory outside the kernel's own tables is the same. */
  ghost predicate SameElsewhere(m: Memory, m': Memory, l: Kernel)
  {
    forall f :: 0 <= f < FRAMES && !l.Holds(f) ==> m'[f] == m[f]
  }

  /** A present directory entry points at the table array the kernel writes, every page present in the
      tables has its directory entry, and no entry has bit 31 set. */
  ghost predicate Linked(m: Memory, l: Kernel)
  {
    (forall p :: 0 <= p < PAGES ==> Entry(m, l, p) < HIGH) &&
    (forall k :: 0 <= k < TABLES ==> m[l.directory][k] < HIGH) &&
    (forall k :: 0 <= k < TABLES && Present(m[l.directory][k]) ==> HardwareFrame(m[l.directory][k]) == l.tables + k) &&
    (forall p :: 0 <= p < PAGES && Present(Entry(m, l, p)) ==> Present(m[l.directory][p / PAGES_PER_TABLE]))
  }

  lemma SetEntryIs(m: Memory, l: Kernel, p: nat, e: word)
    requires p < PAGES
    ensures forall q :: 0 <= q < PAGES ==> Entry(SetEntry(m, l, p, e), l, q) == if q == p then e else Entry(m, l, q)
    ensures SetEntry(m, l, p, e)[l.directory] == m[l.directory]
    ensures SameElsewhere(m, SetEntry(m, l, p, e), l)
  {
    forall q | 0 <= q < PAGES && q != p
      ensures Entry(SetEntry(m, l, p, e), l, q) == Entry(m, l, q)
    {
      DistinctPages(p, q);
    }
  }

  lemma DistinctPages(p: nat, q: nat)
    requires p != q
    ensures p / PAGES_PER_TABLE != q / PAGES_PER_TABLE || p % PAGES_PER_TABLE != q % PAGES_PER_TABLE
  {}

  lemma LinkTableIs(m: Memory, l: Kernel, k: nat)
    requires k < TABLES
    ensures var m' := LinkTable(m, l, k);
      (forall q :: 0 <= q < PAGES ==> Entry(m', l, q) == Entry(m, l, q))
      && (forall i :: 0 <= i < TABLES && i != k ==> m'[l.directory][i] == m[l.directory][i])
      && SameElsewhere(m, m', l)
    ensures m[l.directory][k] < HIGH ==>
      var pde := LinkTable(m, l, k)[l.directory][k];
      Present(pde) && pde < HIGH && HardwareFrame(pde) == l.tables + k
    ensures Enabled(m[l.directory][k], LinkTable(m, l, k)[l.directory][k])
  {
    MapEntryIs(m[l.directory][k], (l.tables + k) * PAGE_SIZE);
  }

  lemma MapPageIs(m: Memory, l: Kernel, phys: word, virt: word)
    ensures var m' := MapPage(m, l, phys, virt);
      (forall q :: 0 <= q < PAGES ==>
        Entry(m', l, q) == if q == virt / PAGE_SIZE then MapEntry(Entry(m, l, q), phys) else Entry(m, l, q))
      && SameElsewhere(m, m', l)
  {
    var p := virt / PAGE_SIZE;
    var e := MapEntry(Entry(m, l, p), phys);
    SetEntryIs(m, l, p, e);
    LinkTableIs(SetEntry(m, l, p, e), l, p / PAGES_PER_TABLE);
  }

  lemma MapPageLinked(m: Memory, l: Kernel, phys: word, virt: word)
    requires Linked(m, l) && phys < HIGH && phys % PAGE_SIZE == 0
    ensures Linked(MapPage(m, l, phys, virt), l)
  {
    var p := virt / PAGE_SIZE;
    var e := MapEntry(Entry(m, l, p), phys);
    SetEntryIs(m, l, p, e);
    MapEntryIs(Entry(m, l, p), phys);
    LinkKeeps(SetEntry(m, l, p, e), l, p);
  }

  /** Linking the table of a page just made present restores the invariant. */
  lemma LinkKeeps(m: Memory, l: Kernel, p: nat)
    requires p < PAGES
    requires forall q :: 0 <= q < PAGES ==> Entry(m, l, q) < HIGH
    requires forall k :: 0 <= k < TABLES ==> m[l.directory][k] < HIGH
    requires forall k :: 0 <= k < TABLES && Present(m[l.directory][k]) ==>
      HardwareFrame(m[l.directory][k]) == l.tables + k
    requires forall q :: 0 <= q < PAGES && Present(Entry(m, l, q)) && q != p ==>
      Present(m[l.directory][q / PAGES_PER_TABLE])
    ensures Linked(LinkTable(m, l, p / PAGES_PER_TABLE), l)
  {
    LinkTableIs(m, l, p / PAGES_PER_TABLE);
  }

  /** m' is m with the n entries from virt on, going round the address space, mapped to phys on. */
  ghost predicate Maps(m: Memory, m': Memory, l: Kernel, phys: word, virt: word, n: nat)
    requires phys + n * PAGE_SIZE <= WORD
  {
    forall q :: 0 <= q < PAGES ==>
      Entry(m', l, q)
        == if PagesAfter(virt, q) < n then MapEntry(Entry(m, l, q), phys + PagesAfter(virt, q) * PAGE_SIZE)
                         else Entry(m, l, q)
  }

  lemma {:induction false} MapPagesIs(m: Memory, l: Kernel, phys: word, virt: word, n: nat)
    requires n <= PAGES && phys + n * PAGE_SIZE <= WORD
    ensures Maps(m, MapPages(m, l, phys, virt, n), l, phys, virt, n)
    decreases n
  {
    if n > 0 {
      var m1 := MapPage(m, l, phys, virt);
      var phys1, virt1 := (phys + PAGE_SIZE) % WORD, (virt + PAGE_SIZE) % WORD;
      MapPageIs(m, l, phys, virt);
      MapPagesIs(m1, l, phys1, virt1, n - 1);
      MapsStep(m, m1, MapPages(m1, l, phys1, virt1, n - 1), l, phys, virt, n);
    }
  }

  lemma MapsStep(m: Memory, m1: Memory, m': Memory, l: Kernel, phys: word, virt: word, n: nat)
    requires 0 < n <= PAGES && phys + n * PAGE_SIZE <= WORD
    requires forall q :: 0 <= q < PAGES ==>
      Entry(m1, l, q) == if q == virt / PAGE_SIZE then MapEntry(Entry(m, l, q), phys) else Entry(m, l, q)
    requires Maps(m1, m', l, (phys + PAGE_SIZE) % WORD, (virt + PAGE_SIZE) % WORD, n - 1)
    ensures Maps(m, m', l, phys, virt, n)
  {
    hide Entry, MapEntry, PagesAfter;
    forall q | 0 <= q < PAGES
      ensures Entry(m', l, q)
        == if PagesAfter(virt, q) < n then MapEntry(Entry(m, l, q), phys + PagesAfter(virt, q) * PAGE_SIZE)
                                 else Entry(m, l, q)
    {
      NextPage(virt, q);
      var k := PagesAfter(virt, q);
      if 0 < k < n { assert (phys + PAGE_SIZE) % WORD + (k - 1) * PAGE_SIZE == phys + k * PAGE_SIZE; }
    }
  }

  lemma {:induction false} MapPagesElsewhere(m: Memory, l: Kernel, phys: word, virt: word, n: nat)
    ensures SameElsewhere(m, MapPages(m, l, phys, virt, n), l)
    decreases n
  {
    if n > 0 {
      MapPageIs(m, l, phys, virt);
      MapPagesElsewhere(MapPage(m, l, phys, virt), l, (phys + PAGE_SIZE) % WORD, (virt + PAGE_SIZE) % WORD, n - 1);
    }
  }

  lemma {:induction false} MapPagesLinked(m: Memory, l: Kernel, phys: word, virt: word, n: nat)
    requires Linked(m, l) && phys % PAGE_SIZE == 0 && phys + n * PAGE_SIZE <= HIGH
    ensures Linked(MapPages(m, l, phys, virt, n), l)
    decreases n
  {
    hide Linked, MapPage;
    if n > 0 {
      MapPageLinked(m, l, phys, virt);
      MapPagesLinked(MapPage(m, l, phys, virt), l, phys + PAGE_SIZE, (virt + PAGE_SIZE) % WORD, n - 1);
    }
  }

  /** The directory entry of every page mapped is present and writable. */
  lemma {:induction false} MapPagesEnable(m: Memory, l: Kernel, phys: word, virt: word, n: nat, p: nat)
    requires n <= PAGES && p < PAGES && (PagesAfter(virt, p) < n || m[l.directory][p / PAGES_PER_TABLE] % 4 == 3)
    ensures MapPages(m, l, phys, virt, n)[l.directory][p / PAGES_PER_TABLE] % 4 == 3
    decreases n
  {
    hide MapPage, PagesAfter;
    NextPage(virt, p);
    if n > 0 {
      if PagesAfter(virt, p) == 0 || m[l.directory][p / PAGES_PER_TABLE] % 4 == 3 {
        MapPageEnables(m, l, phys, virt, p / PAGES_PER_TABLE);
      }
      MapPagesEnable(MapPage(m, l, phys, virt), l, (phys + PAGE_SIZE) % WORD, (virt + PAGE_SIZE) % WORD, n - 1, p);
    }
  }

  lemma MapPageEnables(m: Memory, l: Kernel, phys: word, virt: word, k: nat)
    requires k < TABLES && (k == virt / PAGE_SIZE / PAGES_PER_TABLE || m[l.directory][k] % 4 == 3)
    ensures MapPage(m, l, phys, virt)[l.directory][k] % 4 == 3
  {
    hide MapEntry, LinkTable;
    var p := virt / PAGE_SIZE;
    var e := MapEntry(Entry(m, l, p), phys);
    SetEntryIs(m, l, p, e);
    LinkTableIs(SetEntry(m, l, p, e), l, p / PAGES_PER_TABLE);
  }

  lemma NextPage(virt: word, q: nat)
    requires q < PAGES
    ensures PagesAfter(virt, q) == 0 <==> q == virt / PAGE_SIZE
    ensures PagesAfter((virt + PAGE_SIZE) % WORD, q)
      == if PagesAfter(virt, q) == 0 then PAGES - 1 else PagesAfter(virt, q) - 1
  {
    assert (virt + PAGE_SIZE) % WORD / PAGE_SIZE == (virt / PAGE_SIZE + 1) % PAGES;
  }

  /** Under the invariant the walk of the kernel's directory is the kernel's own tables. */
  lemma WalkIsTables(m: Memory, l: Kernel, v: word)
    requires Linked(m, l)
    ensures var e := Entry(m, l, v / PAGE_SIZE);
      Walk(m, l.directory, v) == if Present(e) then Some(HardwareFrame(e) * PAGE_SIZE + v % PAGE_SIZE) else None
  {
    var p := v / PAGE_SIZE;
    assert p / PAGES_PER_TABLE == v / 0x40_0000;
    assert Present(Entry(m, l, p)) ==> Present(m[l.directory][p / PAGES_PER_TABLE]);
  }

  lemma WalkOfMapped(m: Memory, l: Kernel, v: word, e: word, phys: word)
    requires Linked(m, l) && e < HIGH && phys < HIGH && phys % PAGE_SIZE == 0
    requires Entry(m, l, v / PAGE_SIZE) == MapEntry(e, phys)
    ensures Walk(m, l.directory, v) == Some(phys + v % PAGE_SIZE)
    ensures VirtualToPhysical(m, l, v) == phys
  {
    WalkIsTables(m, l, v);
    MapEntryIs(e, phys);
  }

  lemma WalkOfUnchanged(m: Memory, m': Memory, l: Kernel, v: word)
    requires Linked(m, l) && Linked(m', l)
    requires Entry(m', l, v / PAGE_SIZE) == Entry(m, l, v / PAGE_SIZE)
    ensures Walk(m', l.directory, v) == Walk(m, l.directory, v)
    ensures VirtualToPhysical(m', l, v) == VirtualToPhysical(m, l, v)
  {
    WalkIsTables(m, l, v);
    WalkIsTables(m', l, v);
  }

  lemma EntryAfterMap(m: Memory, l: Kernel, phys: word, virt: word, n: nat, p: nat)
    requires n <= PAGES && phys + n * PAGE_SIZE <= WORD && p < PAGES
    ensures var k := PagesAfter(virt, p);
      Entry(MapPages(m, l, phys, virt, n), l, p)
      == if k < n then MapEntry(Entry(m, l, p), phys + k * PAGE_SIZE) else Entry(m, l, p)
  {
    MapPagesIs(m, l, phys, virt, n);
  }

  lemma EntryBelow(m: Memory, l: Kernel, p: nat)
    requires Linked(m, l) && p < PAGES
    ensures Entry(m, l, p) < HIGH
  {}

  /** The processor may write at v: in both entries of its walk bit 0, present, and bit 1, writable, are set. */
  predicate WritableAt(m: Memory, directory: nat, v: word)
    requires directory < FRAMES
  {
    var pde := m[directory][v / 0x40_0000];
    pde % 4 == 3 && m[HardwareFrame(pde)][v / PAGE_SIZE % PAGES_PER_TABLE] % 4 == 3
  }

  lemma MappedWritable(m: Memory, l: Kernel, v: word, e: word, phys: word)
    requires Linked(m, l) && phys % PAGE_SIZE == 0
    requires Entry(m, l, v / PAGE_SIZE) == MapEntry(e, phys) && m[l.directory][v / 0x40_0000] % 4 == 3
    ensures WritableAt(m, l.directory, v)
  {
    MapEntryIs(e, phys);
    assert v / PAGE_SIZE / PAGES_PER_TABLE == v / 0x40_0000;
  }

  /** MapVirtualPages agrees with the processor: afterwards every address of the n pages, going round
      the address space if need be, is sent to its place in the n physical pages and may be written, and the
      kernel's own translation says the same. */
  lemma MapReaches(m: Memory, l: Kernel, phys: word, virt: word, n: nat, v: word)
    requires Linked(m, l) && phys % PAGE_SIZE == 0 && n <= PAGES && phys + n * PAGE_SIZE <= HIGH
    requires PagesAfter(virt, v / PAGE_SIZE) < n
    ensures var m' := MapPages(m, l, phys, virt, n); var k := PagesAfter(virt, v / PAGE_SIZE);
      Walk(m', l.directory, v) == Some(phys + k * PAGE_SIZE + v % PAGE_SIZE) && WritableAt(m', l.directory, v)
      && VirtualToPhysical(m', l, v) == phys + k * PAGE_SIZE
  {
    hide Linked, Walk, VirtualToPhysical, MapPages, MapEntry, Entry, PagesAfter, WritableAt;
    var k := PagesAfter(virt, v / PAGE_SIZE);
    MapPagesLinked(m, l, phys, virt, n);
    EntryBelow(m, l, v / PAGE_SIZE);
    EntryAfterMap(m, l, phys, virt, n, v / PAGE_SIZE);
    WalkOfMapped(MapPages(m, l, phys, virt, n), l, v, Entry(m, l, v / PAGE_SIZE), phys + k * PAGE_SIZE);
    MapPagesEnable(m, l, phys, virt, n, v / PAGE_SIZE);
    assert v / PAGE_SIZE / PAGES_PER_TABLE == v / 0x40_0000;
    MappedWritable(MapPages(m, l, phys, virt, n), l, v, Entry(m, l, v / PAGE_SIZE), phys + k * PAGE_SIZE);
  }

  /** And every address of any other page goes where it went before. */
  lemma MapSpares(m: Memory, l: Kernel, phys: word, virt: word, n: nat, v: word)
    requires Linked(m, l) && phys % PAGE_SIZE == 0 && n <= PAGES && phys + n * PAGE_SIZE <= HIGH
    requires PagesAfter(virt, v / PAGE_SIZE) >= n
    ensures var m' := MapPages(m, l, phys, virt, n);
      Walk(m', l.directory, v) == Walk(m, l.directory, v) && VirtualToPhysical(m', l, v) == VirtualToPhysical(m, l, v)
  {
    MapPagesLinked(m, l, phys, virt, n);
    EntryAfterMap(m, l, phys, virt, n, v / PAGE_SIZE);
    WalkOfUnchanged(m, MapPages(m, l, phys, virt, n), l, v);
  }

  /** Both at once, for every address: m' is m with the n pages from virt on sent to phys on. */
  ghost predicate Mapped(m: Memory, m': Memory, l: Kernel, phys: word, virt: word, n: nat)
  {
    forall v: word ::
      if PagesAfter(virt, v / PAGE_SIZE) < n
      then Walk(m', l.directory, v) == Some(phys + PagesAfter(virt, v / PAGE_SIZE) * PAGE_SIZE + v % PAGE_SIZE)
           && WritableAt(m', l.directory, v)
      else Walk(m', l.directory, v) == Walk(m, l.directory, v)
  }

  lemma MapPagesMapped(m: Memory, l: Kernel, phys: word, virt: word, n: nat)
    requires Linked(m, l) && phys % PAGE_SIZE == 0 && n <= PAGES && phys + n * PAGE_SIZE <= HIGH
    ensures Mapped(m, MapPages(m, l, phys, virt, n), l, phys, virt, n)
  {
    hide Linked, Walk, MapPages, PagesAfter, WritableAt;
    forall v: word
      ensures var m' := MapPages(m, l, phys, virt, n); var k := PagesAfter(virt, v / PAGE_SIZE);
        if k < n
        then Walk(m', l.directory, v) == Some(phys + k * PAGE_SIZE + v % PAGE_SIZE) && WritableAt(m', l.directory, v)
        else Walk(m', l.directory, v) == Walk(m, l.directory, v)
    {
      if PagesAfter(virt, v / PAGE_SIZE) < n { MapReaches(m, l, phys, virt, n, v); }
      else { MapSpares(m, l, phys, virt, n, v); }
    }
  }
}
