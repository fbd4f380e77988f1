/** First-fit search for runs of absent pages, and the kernel's allocator of virtual pages
    (KernelAllocateVirtualPages and FreeVirtualPages of paging.cpp). */
module RunAllocator {
  import opened Bits
  import opened Options
  import opened PageEntry
  import opened PhysicalMemory
  import opened Paging

  /** The scan both allocators make from page p on: the cursor is put on every present page met, the
      counter counts the absent pages since. Result: cursor and counter when the counter reaches need. */
  function Scan(present: seq<bool>, p: nat, cursor: nat, counter: nat, need: nat): Option<(nat, nat)>
    requires p <= |present|
    decreases |present| - p
  {
    if p == |present| then None
    else if present[p] then Scan(present, p + 1, p, 0, need)
    else if counter + 1 >= need then Some((cursor, counter + 1))
    else Scan(present, p + 1, cursor, counter + 1, need)
  }

  predicate Absent(present: seq<bool>, a: nat, b: nat)
    requires b <= |present|
  {
    forall q :: a <= q < b ==> !present[q]
  }

  /** need absent pages from q on. */
  predicate FreeRun(present: seq<bool>, q: nat, need: nat)
  {
    q + need <= |present| && Absent(present, q, q + need)
  }

  /** The first page of the run a scan stopped at: after the cursor when the cursor is on a present page. */
  function RunStart(present: seq<bool>, cursor: nat): nat
    requires cursor < |present|
  {
    if present[cursor] then cursor + 1 else cursor
  }

  /** The state of a scan that began at start with its cursor there. */
  predicate Tracks(present: seq<bool>, start: nat, p: nat, cursor: nat, counter: nat)
  {
    start <= cursor && p <= |present| && counter <= p - start && Absent(present, p - counter, p)
    && (if cursor + counter == p then cursor == start else cursor + counter + 1 == p && present[cursor])
  }

  /** The scan finds the first free run at or after its start, and fails only when there is none. */
  lemma {:induction false} ScanFindsFirst(present: seq<bool>, start: nat, p: nat, cursor: nat, counter: nat, need: nat)
    requires Tracks(present, start, p, cursor, counter) && counter < need
    ensures match Scan(present, p, cursor, counter, need)
      case None => forall q :: p - counter <= q ==> !FreeRun(present, q, need)
      case Some((s, c)) =>
        c == need && start <= s < |present| && s + need <= |present|
        && (s > start ==> present[s])
        && FreeRun(present, RunStart(present, s), need)
        && forall q :: p - counter <= q < RunStart(present, s) ==> !FreeRun(present, q, need)
    decreases |present| - p
  {
    if p < |present| {
      if present[p] {
        ScanFindsFirst(present, start, p + 1, p, 0, need);
        forall q | p - counter <= q <= p ensures !FreeRun(present, q, need) {
          assert q <= p < q + need;
        }
      } else if counter + 1 < need {
        ScanFindsFirst(present, start, p + 1, cursor, counter + 1, need);
      }
    } else {
      forall q | p - counter <= q ensures !FreeRun(present, q, need) {}
    }
  }

  // ---- The kernel's allocator ----

  function KernelPresence(m: Memory, l: Kernel): seq<bool>
  {
    seq(PAGES, p requires 0 <= p < PAGES => Present(Entry(m, l, p)))
  }

  /** Makes one kernel page present and writable and links its table; the page's frame stays what it was. */
  function MarkPage(m: Memory, l: Kernel, p: nat): Memory
    requires p < PAGES
  {
    LinkTable(SetEntry(m, l, p, SetFlags(Entry(m, l, p), PRESENT + WRITABLE)), l, p / PAGES_PER_TABLE)
  }

  function MarkRun(m: Memory, l: Kernel, p: nat, count: nat): Memory
    requires p + count <= PAGES
    decreases count, p
  {
    if count == 0 then m else MarkRun(MarkPage(m, l, p), l, p + 1, count - 1)
  }

  /** Where the scan for n pages stops. The amount searched for is n + 1, in 32 bits. */
  function KernelRun(m: Memory, l: Kernel, n: word): Option<(nat, nat)>
  {
    Scan(KernelPresence(m, l), KERNEL_PAGE, KERNEL_PAGE, 0, (n + 1) % WORD)
  }

  lemma KernelRunBound(m: Memory, l: Kernel, n: word)
    ensures KernelRun(m, l, n).Some? ==>
      var (s, c) := KernelRun(m, l, n).value; KERNEL_PAGE <= s && s + c <= PAGES && s < PAGES - 1
  {
    ScanBound(KernelPresence(m, l), KERNEL_PAGE, KERNEL_PAGE, 0, (n + 1) % WORD);
  }

  lemma {:induction false} ScanBound(present: seq<bool>, p: nat, cursor: nat, counter: nat, need: nat)
    requires KERNEL_PAGE <= cursor && p <= |present| == PAGES
    requires cursor + counter <= p && (counter == 0 ==> cursor < p || cursor == KERNEL_PAGE)
    ensures match Scan(present, p, cursor, counter, need)
      case None => true
      case Some((s, c)) => KERNEL_PAGE <= s && s + c <= PAGES && s < PAGES - 1
    decreases |present| - p
  {
    if p < |present| {
      if present[p] { ScanBound(present, p + 1, p, 0, need); }
      else if counter + 1 < need { ScanBound(present, p + 1, cursor, counter + 1, need); }
    }
  }

  /** KernelAllocateVirtualPages: the address one page above the cursor and the memory after marking,
      or None where the source reports no more pages and spins. */
  function KernelAllocate(m: Memory, l: Kernel, n: word): Option<(word, Memory)>
  {
    KernelRunBound(m, l, n);
    match KernelRun(m, l, n)
    case None => None
    case Some((s, c)) => Some((s * PAGE_SIZE + PAGE_SIZE, MarkRun(m, l, s, c)))
  }

  /** FreeVirtualPages */
  function FreePages(m: Memory, l: Kernel, virt: word, n: nat): Memory
    decreases n, virt
  {
    if n == 0 then m
    else
      var p := virt / PAGE_SIZE;
      FreePages(SetEntry(m, l, p, ClearFlags(Entry(m, l, p), PRESENT + WRITABLE)), l, (virt + PAGE_SIZE) % WORD, n - 1)
  }

  lemma MarkPageIs(m: Memory, l: Kernel, p: nat)
    requires p < PAGES
    ensures var m' := MarkPage(m, l, p);
      (forall q :: 0 <= q < PAGES ==>
        Entry(m', l, q) == if q == p then Entry(m, l, q) / 4 * 4 + 3 else Entry(m, l, q))
      && SameElsewhere(m, m', l)
  {
    SetWritableIs(Entry(m, l, p));
    var e := SetFlags(Entry(m, l, p), PRESENT + WRITABLE);
    SetEntryIs(m, l, p, e);
    LinkTableIs(SetEntry(m, l, p, e), l, p / PAGES_PER_TABLE);
  }

  lemma MarkPageLinked(m: Memory, l: Kernel, p: nat)
    requires p < PAGES && Linked(m, l)
    ensures Linked(MarkPage(m, l, p), l)
  {
    var e := SetFlags(Entry(m, l, p), PRESENT + WRITABLE);
    SetEntryIs(m, l, p, e);
    SetFlagsIs(Entry(m, l, p), PRESENT + WRITABLE);
    LinkKeeps(SetEntry(m, l, p, e), l, p);
  }

  /** After marking bits 0 and 1 of the entries of the run are set; nothing else has changed in any entry. */
  lemma {:induction false} MarkRunIs(m: Memory, l: Kernel, p: nat, count: nat)
    requires p + count <= PAGES
    ensures forall q :: 0 <= q < PAGES ==>
      Entry(MarkRun(m, l, p, count), l, q)
      == if p <= q < p + count then Entry(m, l, q) / 4 * 4 + 3 else Entry(m, l, q)
    ensures SameElsewhere(m, MarkRun(m, l, p, count), l)
    decreases count
  {
    if count > 0 {
      MarkPageIs(m, l, p);
      MarkRunIs(MarkPage(m, l, p), l, p + 1, count - 1);
    }
  }

  lemma {:induction false} MarkRunLinked(m: Memory, l: Kernel, p: nat, count: nat)
    requires p + count <= PAGES && Linked(m, l)
    ensures Linked(MarkRun(m, l, p, count), l)
    decreases count
  {
    if count > 0 {
      MarkPageLinked(m, l, p);
      MarkRunLinked(MarkPage(m, l, p), l, p + 1, count - 1);
    }
  }

  /** Freeing clears bits 0 and 1 of the entries of the n pages and leaves all other bits and entries alone. */
  lemma {:induction false} FreePagesIs(m: Memory, l: Kernel, virt: word, n: nat)
    requires n <= PAGES
    ensures forall q :: 0 <= q < PAGES ==>
      Entry(FreePages(m, l, virt, n), l, q)
      == if PagesAfter(virt, q) < n then Entry(m, l, q) / 4 * 4 else Entry(m, l, q)
    ensures SameElsewhere(m, FreePages(m, l, virt, n), l)
    decreases n
  {
    if n > 0 {
      var p := virt / PAGE_SIZE;
      var e := ClearFlags(Entry(m, l, p), PRESENT + WRITABLE);
      ClearFlagsIs(Entry(m, l, p));
      SetEntryIs(m, l, p, e);
      FreePagesIs(SetEntry(m, l, p, e), l, (virt + PAGE_SIZE) % WORD, n - 1);
      forall q | 0 <= q < PAGES
        ensures Entry(FreePages(m, l, virt, n), l, q)
                == if PagesAfter(virt, q) < n then Entry(m, l, q) / 4 * 4 else Entry(m, l, q)
      {
        NextPage(virt, q);
      }
    }
  }

  /** m' is m with bits 0 and 1 of the entries of the n pages from virt on clear: absent and not writable. */
  ghost predicate Freed(m: Memory, m': Memory, l: Kernel, virt: word, n: nat)
  {
    (forall q :: 0 <= q < PAGES ==>
      Entry(m', l, q) == if PagesAfter(virt, q) < n then Entry(m, l, q) / 4 * 4 else Entry(m, l, q))
    && SameElsewhere(m, m', l)
  }

  lemma FreePagesFreed(m: Memory, l: Kernel, virt: word, n: nat)
    requires n <= PAGES
    ensures Freed(m, FreePages(m, l, virt, n), l, virt, n)
  {
    hide PagesAfter, Entry, FreePages;
    FreePagesIs(m, l, virt, n);
  }

  /** The n pages from the returned address were absent and are present; only they and the page below
      them are written, and only bits 0 and 1 of their entries, which are set: present and writable. */
  ghost predicate Reserves(m: Memory, m': Memory, l: Kernel, first: nat, n: nat)
  {
    KERNEL_PAGE < first && first + n <= PAGES
    && (forall q :: first <= q < first + n ==> !Present(Entry(m, l, q)) && Present(Entry(m', l, q)))
    && (forall q :: 0 <= q < PAGES ==>
         Entry(m', l, q)
           == if first - 1 <= q < first + n then Entry(m, l, q) / 4 * 4 + 3 else Entry(m, l, q))
    && SameElsewhere(m, m', l)
  }

  /** Some need consecutive pages above 0xC0000000 are absent. */
  ghost predicate HasKernelRun(m: Memory, l: Kernel, need: nat)
  {
    exists q: nat :: KERNEL_PAGE <= q && FreeRun(KernelPresence(m, l), q, need)
  }

  /** A reservation of n pages fails exactly when no n + 1 consecutive pages above 0xC0000000 are
      absent; otherwise it reserves n pages that were absent. */
  lemma KernelAllocateReserves(m: Memory, l: Kernel, n: word)
    requires n + 1 < WORD
    ensures match KernelAllocate(m, l, n)
      case None => !HasKernelRun(m, l, n + 1)
      case Some((address, m')) =>
        HasKernelRun(m, l, n + 1) && address % PAGE_SIZE == 0 && Reserves(m, m', l, address / PAGE_SIZE, n)
  {
    var present := KernelPresence(m, l);
    ScanFindsFirst(present, KERNEL_PAGE, KERNEL_PAGE, KERNEL_PAGE, 0, n + 1);
    KernelRunBound(m, l, n);
    if KernelRun(m, l, n).Some? {
      var (s, c) := KernelRun(m, l, n).value;
      assert FreeRun(present, RunStart(present, s), n + 1);
      ReservesRun(m, l, s, n);
    }
  }

  /** And the reservation is the first that fits: it starts no later than one page into any run that does. */
  lemma KernelAllocateFirst(m: Memory, l: Kernel, n: word, q: nat)
    requires n + 1 < WORD && KERNEL_PAGE <= q && FreeRun(KernelPresence(m, l), q, n + 1)
    ensures HasKernelRun(m, l, n + 1) && KernelAllocate(m, l, n).Some?
    ensures KERNEL_PAGE < KernelAllocate(m, l, n).value.0 / PAGE_SIZE <= q + 1
  {
    var present := KernelPresence(m, l);
    ScanFindsFirst(present, KERNEL_PAGE, KERNEL_PAGE, KERNEL_PAGE, 0, n + 1);
    KernelRunBound(m, l, n);
  }

  lemma ReservesRun(m: Memory, l: Kernel, s: nat, n: nat)
    requires KERNEL_PAGE <= s && s + n + 1 <= PAGES
    requires FreeRun(KernelPresence(m, l), RunStart(KernelPresence(m, l), s), n + 1)
    ensures Reserves(m, MarkRun(m, l, s, n + 1), l, s + 1, n)
  {
    var present := KernelPresence(m, l);
    MarkRunIs(m, l, s, n + 1);
    forall q | s + 1 <= q < s + 1 + n
      ensures !Present(Entry(m, l, q)) && Present(Entry(MarkRun(m, l, s, n + 1), l, q))
    {
      assert !present[q];
      MarkedPresent(Entry(m, l, q));
    }
  }

  /** The largest amount wraps: the search for 2^32 - 1 pages stops at the first absent page and marks
      one page, so the call succeeds without having reserved anything. */
  lemma LargestAmountReservesNothing(m: Memory, l: Kernel)
    requires KernelAllocate(m, l, WORD - 1).Some?
    ensures var (address, m') := KernelAllocate(m, l, WORD - 1).value;
      forall q :: 0 <= q < PAGES && q + 1 != address / PAGE_SIZE ==> Entry(m', l, q) == Entry(m, l, q)
  {
    KernelRunBound(m, l, WORD - 1);
    var (s, c) := KernelRun(m, l, WORD - 1).value;
    ScanForNothing(KernelPresence(m, l), KERNEL_PAGE, KERNEL_PAGE);
    MarkRunIs(m, l, s, c);
  }

  lemma {:induction false} ScanForNothing(present: seq<bool>, p: nat, cursor: nat)
    requires p <= |present|
    ensures Scan(present, p, cursor, 0, 0).Some? ==> Scan(present, p, cursor, 0, 0).value.1 == 1
    decreases |present| - p
  {
    if p < |present| && present[p] { ScanForNothing(present, p + 1, p); }
  }

  // ---- Runs of reservations, releases and mappings ----

  datatype Operation = Reserve(n: word) | Release(i: nat) | MapAt(phys: word, virt: word, count: nat)

  /** The memory and the page ranges handed out and not yet freed: first page and number of pages. */
  datatype Heap = Heap(m: Memory, ranges: seq<(nat, nat)>)

  function Perform(h: Heap, l: Kernel, op: Operation): Heap
  {
    match op
    case Reserve(n) =>
      (match KernelAllocate(h.m, l, n)
       case None => h
       case Some((address, m')) => Heap(m', h.ranges + [(address / PAGE_SIZE, n)]))
    case Release(i) =>
      if i < |h.ranges| && h.ranges[i].0 < PAGES
      then Heap(FreePages(h.m, l, h.ranges[i].0 * PAGE_SIZE, h.ranges[i].1), h.ranges[..i] + h.ranges[i + 1..])
      else h
    case MapAt(phys, virt, count) => Heap(MapPages(h.m, l, phys, virt, count), h.ranges)
  }

  function PerformAll(h: Heap, l: Kernel, ops: seq<Operation>): Heap
    decreases ops
  {
    if ops == [] then h else PerformAll(Perform(h, l, ops[0]), l, ops[1..])
  }

  predicate Apart(a: (nat, nat), b: (nat, nat)) { a.1 == 0 || b.1 == 0 || a.0 + a.1 <= b.0 || b.0 + b.1 <= a.0 }

  ghost predicate InUse(m: Memory, l: Kernel, r: (nat, nat))
  {
    KERNEL_PAGE <= r.0 < PAGES && r.0 + r.1 <= PAGES && forall q :: r.0 <= q < r.0 + r.1 ==> Present(Entry(m, l, q))
  }

  /** Every range handed out is present and no two of them share a page. */
  ghost predicate Consistent(h: Heap, l: Kernel)
  {
    (forall i :: 0 <= i < |h.ranges| ==> InUse(h.m, l, h.ranges[i]))
    && (forall i, j :: 0 <= i < j < |h.ranges| ==> Apart(h.ranges[i], h.ranges[j]))
  }

  /** Reservations of 2^32 - 1 pages are left out: they reserve nothing. */
  predicate Sized(ops: seq<Operation>)
  {
    forall k :: 0 <= k < |ops| && ops[k].Reserve? ==> ops[k].n + 1 < WORD
  }

  /** Under every run of reservations, releases of handed-out ranges and arbitrary mappings, the ranges
      handed out are present pages above 0xC0000000 and pairwise disjoint. */
  lemma {:induction false} HeapStaysConsistent(h: Heap, l: Kernel, ops: seq<Operation>)
    requires Consistent(h, l) && Sized(ops)
    ensures Consistent(PerformAll(h, l, ops), l)
    decreases ops
  {
    if ops != [] {
      assert Sized(ops[1..]);
      match ops[0] {
        case Reserve(n) => ReserveKeeps(h, l, n);
        case Release(i) => ReleaseKeeps(h, l, i);
        case MapAt(phys, virt, count) => MapKeeps(h, l, phys, virt, count);
      }
      HeapStaysConsistent(Perform(h, l, ops[0]), l, ops[1..]);
    }
  }

  lemma ReserveKeeps(h: Heap, l: Kernel, n: word)
    requires Consistent(h, l) && n + 1 < WORD
    ensures Consistent(Perform(h, l, Reserve(n)), l)
  {
    KernelAllocateReserves(h.m, l, n);
    if KernelAllocate(h.m, l, n).Some? {
      var (address, m') := KernelAllocate(h.m, l, n).value;
      var r := (address / PAGE_SIZE, n);
      forall i | 0 <= i < |h.ranges| ensures InUse(m', l, h.ranges[i]) && Apart(h.ranges[i], r) {
        ReservedApart(h.m, m', l, h.ranges[i], r);
      }
      assert InUse(m', l, r);
    }
  }

  lemma ReservedApart(m: Memory, m': Memory, l: Kernel, a: (nat, nat), r: (nat, nat))
    requires InUse(m, l, a) && Reserves(m, m', l, r.0, r.1)
    ensures InUse(m', l, a) && Apart(a, r)
  {
    forall q | a.0 <= q < a.0 + a.1 ensures Present(Entry(m', l, q)) {
      assert Present(Entry(m, l, q));
      MarkedPresent(Entry(m, l, q));
    }
    var q := if a.0 <= r.0 then r.0 else a.0;
    assert q < a.0 + a.1 ==> Present(Entry(m, l, q));
  }

  lemma ReleaseKeeps(h: Heap, l: Kernel, i: nat)
    requires Consistent(h, l)
    ensures Consistent(Perform(h, l, Release(i)), l)
  {
    if i < |h.ranges| {
      var r := h.ranges[i];
      var m' := FreePages(h.m, l, r.0 * PAGE_SIZE, r.1);
      var rest := h.ranges[..i] + h.ranges[i + 1..];
      forall k | 0 <= k < |rest| ensures InUse(m', l, rest[k]) {
        var a := if k < i then h.ranges[k] else h.ranges[k + 1];
        assert rest[k] == a && InUse(h.m, l, a) && Apart(a, r);
        FreeSpares(h.m, l, r, a);
      }
    }
  }

  lemma FreeSpares(m: Memory, l: Kernel, r: (nat, nat), a: (nat, nat))
    requires InUse(m, l, a) && InUse(m, l, r) && Apart(a, r)
    ensures InUse(FreePages(m, l, r.0 * PAGE_SIZE, r.1), l, a)
  {
    hide Entry, FreePages;
    FreePagesIs(m, l, r.0 * PAGE_SIZE, r.1);
    forall q | a.0 <= q < a.0 + a.1 ensures PagesAfter(r.0 * PAGE_SIZE, q) >= r.1 {
      assert r.0 * PAGE_SIZE / PAGE_SIZE == r.0;
    }
  }

  lemma MapKeeps(h: Heap, l: Kernel, phys: word, virt: word, count: nat)
    requires Consistent(h, l)
    ensures Consistent(Perform(h, l, MapAt(phys, virt, count)), l)
  {
    MapKeepsPresent(h.m, l, phys, virt, count);
  }

  lemma {:induction false} MapKeepsPresent(m: Memory, l: Kernel, phys: word, virt: word, n: nat)
    ensures forall q :: 0 <= q < PAGES && Present(Entry(m, l, q)) ==>
      Present(Entry(MapPages(m, l, phys, virt, n), l, q))
    decreases n
  {
    if n > 0 {
      MapPageIs(m, l, phys, virt);
      MapEntryPresent(Entry(m, l, virt / PAGE_SIZE), phys);
      MapKeepsPresent(MapPage(m, l, phys, virt), l, (phys + PAGE_SIZE) % WORD, (virt + PAGE_SIZE) % WORD, n - 1);
    }
  }

  lemma MapEntryPresent(e: word, phys: word)
    ensures Present(MapEntry(e, phys))
  {
    var f := SetFlags(e, PRESENT + WRITABLE);
    SetFlagsIs(e, PRESENT + WRITABLE);
    AndHalves(f, Complement(FRAME_MASK));
    OrHalves(And(f, Complement(FRAME_MASK)), phys);
  }
}
