/** The allocator of user pages (AllocateVirtualPages, paging.cpp) and the system call on top of it
    (SysMemalloc, syscall.cpp). */
module ProcessAllocator {
  import opened Bits
  import opened Options
  import opened PageEntry
  import opened PhysicalMemory
  import opened PhysicalAllocator
  import opened Paging
  import opened RunAllocator
  import opened AddressSpace
  import opened CreateSpace

  // The cursor is seeded with the page of 0x40000, although the scan starts at page 0.
  const SEED := 64

  // ---- The scan, on which pages are present ----

  /** Where the scan for n pages stops: cursor and counter. None when it runs past the last user table,
      or when the run from the cursor would. */
  function UserRun(present: seq<bool>, n: word): Option<(nat, nat)>
  {
    match Scan(present, 0, SEED, 0, (n + 2) % WORD)
    case None => None
    case Some((s, c)) => if s + c <= |present| then Some((s, c)) else None
  }

  function MarkPresent(present: seq<bool>, a: nat, count: nat): seq<bool>
  {
    seq(|present|, q requires 0 <= q < |present| => present[q] || a <= q < a + count)
  }

  predicate Within(q: nat, a: nat, count: nat) { a <= q < a + count }

  function PageRange(a: nat, count: nat): set<nat> { set q: nat | q < a + count && Within(q, a, count) }

  /** Which user pages are present, and which belong to somebody: to a range handed out or to a segment. */
  datatype UserMap = UserMap(present: seq<bool>, claimed: set<nat>)

  datatype Request = Claim(n: word) | Segment(vaddr: word, memsz: word)

  /** The pages the bytes of a segment lie in. */
  function BytePages(vaddr: word, memsz: word): nat
  {
    if memsz == 0 then 0 else (vaddr % PAGE_SIZE + memsz - 1) / PAGE_SIZE + 1
  }

  /** The last page mapped for the segment holds none of its bytes. */
  predicate Roomy(vaddr: word, memsz: word) { BytePages(vaddr, memsz) < PageCount(memsz) }

  /** Claim: AllocateVirtualPages(n), whose n pages are used from the returned one on. Segment: the loader's page
      loop, after which the pages of the bytes are in use. */
  function Serve(u: UserMap, r: Request): UserMap
  {
    match r
    case Claim(n) =>
      (match UserRun(u.present, n)
       case None => u
       case Some((s, c)) => UserMap(MarkPresent(u.present, s, c), u.claimed + PageRange(s, n)))
    case Segment(vaddr, memsz) =>
      if memsz == 0 then u
      else
        var first := vaddr / PAGE_SIZE;
        UserMap(MarkPresent(u.present, first, PageCount(memsz)), u.claimed + PageRange(first, BytePages(vaddr, memsz)))
  }

  function ServeAll(u: UserMap, rs: seq<Request>): UserMap
    decreases rs
  {
    if rs == [] then u else ServeAll(Serve(u, rs[0]), rs[1..])
  }

  /** Claimed pages are present. */
  predicate Owned(u: UserMap)
  {
    forall q :: q in u.claimed ==> q < |u.present| && u.present[q]
  }

  /** And the last page of every run of present pages is claimed by nobody. */
  predicate Padded(u: UserMap)
  {
    Owned(u)
    && (forall q :: 0 <= q && q + 1 < |u.present| && u.present[q] && !u.present[q + 1] ==> q !in u.claimed)
  }

  /** No run of need absent pages starts on page s or before. */
  ghost predicate NoRunUpTo(present: seq<bool>, s: nat, need: nat)
  {
    forall q: nat :: q <= s ==> !FreeRun(present, q, need)
  }

  ghost predicate NoFreeRun(present: seq<bool>, need: nat)
  {
    forall q: nat :: !FreeRun(present, q, need)
  }

  /** A scan whose run lies at the bottom of the address space stops on the seed, wherever that is. */
  lemma {:induction false} LowRunStopsOnSeed(present: seq<bool>, p: nat, need: nat)
    requires p < need <= |present| && Absent(present, 0, need)
    ensures Scan(present, p, SEED, p, need) == Some((SEED, need))
    decreases need - p
  {
    if p + 1 < need { LowRunStopsOnSeed(present, p + 1, need); }
  }

  /** A scan that meets a present page first stops after a present page. */
  lemma {:induction false} HighRunStopsOnPresent(present: seq<bool>, p: nat, need: nat)
    requires p < need && p <= |present| && Absent(present, 0, p) && !FreeRun(present, 0, need)
    ensures match Scan(present, p, SEED, p, need)
      case None => NoFreeRun(present, need)
      case Some((s, c)) =>
        c == need && s < |present| && present[s] && FreeRun(present, s + 1, need) && NoRunUpTo(present, s, need)
    decreases |present| - p
  {
    if p < |present| {
      if present[p] {
        ScanFindsFirst(present, p, p + 1, p, 0, need);
        forall q: nat | q <= p ensures !FreeRun(present, q, need) { assert q <= p < q + need; }
      } else {
        assert Absent(present, 0, p + 1);
        assert p + 1 < need;
        HighRunStopsOnPresent(present, p + 1, need);
      }
    }
  }

  /** A claim for n pages starts on page s: page 64 when the first n + 2 pages are absent, else the present page before
      the first n + 2 absent ones. */
  ghost predicate StartsAt(present: seq<bool>, n: nat, s: nat)
  {
    if FreeRun(present, 0, n + 2) then s == 64 && 64 + n + 2 <= |present|
    else s < |present| && present[s] && FreeRun(present, s + 1, n + 2) && NoRunUpTo(present, s, n + 2)
  }

  ghost function ClaimStart(present: seq<bool>, n: nat): Option<nat>
  {
    if exists s: nat :: StartsAt(present, n, s) then var s: nat :| StartsAt(present, n, s); Some(s) else None
  }

  /** Where the scan stops, said without the scan. */
  lemma UserRunIs(present: seq<bool>, n: word)
    requires n + 2 < WORD
    ensures UserRun(present, n) == match ClaimStart(present, n) case None => None case Some(s) => Some((s, n + 2))
    ensures forall s: nat :: ClaimStart(present, n) == Some(s) <==> StartsAt(present, n, s)
    ensures ClaimStart(present, n) == None && !FreeRun(present, 0, n + 2) ==> NoFreeRun(present, n + 2)
  {
    hide Scan;
    if FreeRun(present, 0, n + 2) {
      LowRunStopsOnSeed(present, 0, n + 2);
      assert StartsAt(present, n, 64) <==> 64 + n + 2 <= |present|;
    } else {
      HighRunStopsOnPresent(present, 0, n + 2);
      match Scan(present, 0, SEED, 0, n + 2)
      case None => forall s: nat ensures !StartsAt(present, n, s) { assert !FreeRun(present, s + 1, n + 2); }
      case Some((s, c)) =>
        assert StartsAt(present, n, s);
        forall r: nat ensures StartsAt(present, n, r) ==> r == s { OneStart(present, n, r, s); }
    }
  }

  lemma OneStart(present: seq<bool>, n: nat, r: nat, s: nat)
    requires StartsAt(present, n, s)
    ensures StartsAt(present, n, r) ==> r == s
  {
    assert !FreeRun(present, 0, n + 2) && StartsAt(present, n, r) ==> FreeRun(present, r + 1, n + 2);
  }

  /** Which states a claim is safe in: the returned pages belong to nobody exactly when the scan meets a
      present page before it has counted n + 2, or the n pages from the seed belong to nobody. */
  lemma ClaimIsFresh(u: UserMap, n: word)
    requires Padded(u) && n + 2 < WORD && ClaimStart(u.present, n).Some?
    ensures PageRange(ClaimStart(u.present, n).value, n) !! u.claimed
            <==> !FreeRun(u.present, 0, n + 2) || PageRange(64, n) !! u.claimed
  {
    UserRunIs(u.present, n);
    if FreeRun(u.present, 0, n + 2) {
      LowRunStopsOnSeed(u.present, 0, n + 2);
    } else {
      ClaimAfterPresent(u, n);
    }
  }

  /** Past the first present page a claim takes the padding page its cursor is on and pages that were
      absent; it fails only when no n + 2 consecutive pages are absent. */
  lemma ClaimAfterPresent(u: UserMap, n: word)
    requires Padded(u) && n + 2 < WORD && !FreeRun(u.present, 0, n + 2)
    ensures match UserRun(u.present, n)
      case None => NoFreeRun(u.present, n + 2)
      case Some((s, c)) =>
        c == n + 2 && StartsAt(u.present, n, s) && u.present[s] && PageRange(s, n) !! u.claimed
  {
    HighRunStopsOnPresent(u.present, 0, n + 2);
    if UserRun(u.present, n).Some? {
      var s := UserRun(u.present, n).value.0;
      assert !u.present[s + 1];
    }
  }

  /** Requests a run is made of: amounts whose padding does not wrap, segments inside the user half whose
      mapped pages nobody claims. */
  predicate Admissible(u: UserMap, r: Request)
  {
    match r
    case Claim(n) => n + 2 < WORD
    case Segment(vaddr, memsz) =>
      var first := vaddr / PAGE_SIZE;
      first + PageCount(memsz) <= |u.present| && PageRange(first, PageCount(memsz)) !! u.claimed
  }

  predicate AllAdmissible(u: UserMap, rs: seq<Request>)
    decreases rs
  {
    rs == [] || (Admissible(u, rs[0]) && AllAdmissible(Serve(u, rs[0]), rs[1..]))
  }

  /** Every segment of the run leaves its last mapped page free. */
  predicate AllRoomy(rs: seq<Request>)
  {
    forall k :: 0 <= k < |rs| && rs[k].Segment? ==> rs[k].memsz == 0 || Roomy(rs[k].vaddr, rs[k].memsz)
  }

  lemma BytesMapped(vaddr: word, memsz: word)
    ensures BytePages(vaddr, memsz) <= PageCount(memsz)
  {}

  lemma ServeKeepsOwned(u: UserMap, r: Request)
    requires Owned(u) && Admissible(u, r) && |u.present| > 0 && u.present[0]
    ensures Owned(Serve(u, r)) && |Serve(u, r).present| == |u.present| && Serve(u, r).present[0]
  {
    match r
    case Claim(n) =>
      assert !FreeRun(u.present, 0, n + 2);
      HighRunStopsOnPresent(u.present, 0, n + 2);
    case Segment(vaddr, memsz) => BytesMapped(vaddr, memsz);
  }

  lemma ServeKeepsPadded(u: UserMap, r: Request)
    requires Padded(u) && Admissible(u, r) && |u.present| > 0 && u.present[0]
    requires r.Segment? ==> r.memsz == 0 || Roomy(r.vaddr, r.memsz)
    ensures Padded(Serve(u, r))
  {
    match r
    case Claim(n) =>
      assert !FreeRun(u.present, 0, n + 2);
      ClaimAfterPresent(u, n);
    case Segment(_, _) =>
  }

  /** The pages a claim would return belong to somebody. */
  predicate Collides(u: UserMap, n: word)
  {
    UserRun(u.present, n).Some? && !(PageRange(UserRun(u.present, n).value.0, n) !! u.claimed)
  }

  /** Once page 0 is present, over every run of claims and segment loads: the next claim collides if and only if
      the present page before the first long enough run of absent ones is claimed. */
  lemma {:induction false} ClaimCollidesOnCursor(u: UserMap, rs: seq<Request>, n: word)
    requires Owned(u) && |u.present| > 0 && u.present[0] && AllAdmissible(u, rs) && 0 < n && n + 2 < WORD
    ensures var z := ServeAll(u, rs);
      !FreeRun(z.present, 0, n + 2)
      && (Collides(z, n) <==> exists s: nat :: StartsAt(z.present, n, s) && s in z.claimed)
    decreases rs
  {
    if rs == [] {
      assert !FreeRun(u.present, 0, n + 2);
      UserRunIs(u.present, n);
      if UserRun(u.present, n).Some? {
        var s := UserRun(u.present, n).value.0;
        assert s in PageRange(s, n) && StartsAt(u.present, n, s);
      }
    } else {
      ServeKeepsOwned(u, rs[0]);
      ClaimCollidesOnCursor(Serve(u, rs[0]), rs[1..], n);
    }
  }

  /** And it never does as long as every segment leaves its last mapped page free: no claim meets an earlier claim
      or a byte of a segment. */
  lemma {:induction false} ClaimsNeverOverlap(u: UserMap, rs: seq<Request>, n: word)
    requires Padded(u) && |u.present| > 0 && u.present[0] && AllAdmissible(u, rs) && AllRoomy(rs) && n + 2 < WORD
    ensures Padded(ServeAll(u, rs)) && !Collides(ServeAll(u, rs), n)
    decreases rs
  {
    if rs == [] {
      assert !FreeRun(u.present, 0, n + 2);
      ClaimAfterPresent(u, n);
    } else {
      ServeKeepsOwned(u, rs[0]);
      ServeKeepsPadded(u, rs[0]);
      ClaimsNeverOverlap(Serve(u, rs[0]), rs[1..], n);
    }
  }

  /** Only such segments are safe: let any segment be loaded behind the present pages. Every claim then starts on
      its last mapped page, and it misses the bytes of the segment if and only if that page holds none. */
  lemma SegmentEndIsReturned(u: UserMap, vaddr: word, memsz: word, n: word)
    requires Owned(u) && 0 < memsz && 0 < n && n + 2 < WORD
    requires vaddr / PAGE_SIZE + PageCount(memsz) + n + 2 <= |u.present|
    requires forall q :: 0 <= q < |u.present| ==> (u.present[q] <==> q < vaddr / PAGE_SIZE)
    ensures var z := Serve(u, Segment(vaddr, memsz)); var last := vaddr / PAGE_SIZE + PageCount(memsz) - 1;
      UserRun(z.present, n) == Some((last, n + 2)) && (Collides(z, n) <==> !Roomy(vaddr, memsz))
  {
    var z := Serve(u, Segment(vaddr, memsz));
    var last := vaddr / PAGE_SIZE + PageCount(memsz) - 1;
    BytesMapped(vaddr, memsz);
    assert z.present[0];
    assert !FreeRun(z.present, 0, n + 2);
    HighRunStopsOnPresent(z.present, 0, n + 2);
    assert FreeRun(z.present, last + 1, n + 2);
    var s := UserRun(z.present, n).value.0;
    assert z.present[s] && !z.present[s + 1];
    assert s == last && UserRun(z.present, n).value.1 == n + 2;
    assert Within(last, last, n) && last in PageRange(last, n);
    assert last in z.claimed <==> !Roomy(vaddr, memsz);
    forall q | q in PageRange(last, n) ensures q == last || q !in z.claimed {}
  }

  /** A segment the loader accepts whose last mapped page holds its last byte. */
  lemma FullSegment()
    ensures !Roomy(0x0804_8FFF, 4098)
  {}

  /** While page 0 is absent they do collide: with the first n + 2 pages absent every claim for n pages
      returns page 64, so a second small claim repeats the first one. */
  lemma SmallClaimsRepeat(present: seq<bool>, a: word, b: word)
    requires 0 < a <= 62 && 0 < b <= 62 && 64 + a + 2 <= |present| && 64 + b + 2 <= |present|
    requires Absent(present, 0, 64)
    ensures UserRun(present, a) == Some((64, a + 2))
    ensures UserRun(MarkPresent(present, 64, a + 2), b) == Some((64, b + 2))
    ensures !(PageRange(64, a) !! PageRange(64, b))
  {
    LowRunStopsOnSeed(present, 0, a + 2);
    LowRunStopsOnSeed(MarkPresent(present, 64, a + 2), 0, b + 2);
    assert 64 in PageRange(64, a) && 64 in PageRange(64, b);
  }

  // ---- The allocation in memory ----

  function UserPresence(m: Memory, l: Kernel, s: Process): seq<bool>
  {
    seq(KERNEL_PAGE, p requires 0 <= p < KERNEL_PAGE => Present(UserEntry(m, l, s, p)))
  }

  /** Directory entry k of s pointed at its table's kernel address minus 0xC0000000, which is the table's
      physical address only for tables in the kernel image. */
  function MislinkTable(m: Memory, l: Kernel, s: Process, k: nat): Memory
    requires k < KERNEL_TABLE
  {
    var f := FrameOf(m, l, s.directory);
    Put(m, f, k, MapEntry(m[f][k], (s.tables + k - KERNEL_PAGE) * PAGE_SIZE))
  }

  function MarkUserPage(m: Memory, l: Kernel, s: Process, p: nat): Memory
    requires p < KERNEL_PAGE
  {
    MislinkTable(SetUserEntry(m, l, s, p, SetFlags(UserEntry(m, l, s, p), PRESENT + WRITABLE)), l, s,
      p / PAGES_PER_TABLE)
  }

  function MarkUserRun(m: Memory, l: Kernel, s: Process, p: nat, count: nat): Memory
    requires p + count <= KERNEL_PAGE
    decreases count, p
  {
    if count == 0 then m else MarkUserRun(MarkUserPage(m, l, s, p), l, s, p + 1, count - 1)
  }

  /** AllocateVirtualPages: the first page of the run and the memory after marking. */
  function AllocateUser(m: Memory, l: Kernel, s: Process, n: word): Option<(nat, Memory)>
  {
    match UserRun(UserPresence(m, l, s), n)
    case None => None
    case Some((p, c)) => Some((p, MarkUserRun(m, l, s, p, c)))
  }

  /** The mapping loop of SysMemalloc: n blocks mapped from page p of s on. */
  function BackUser(m: Memory, l: Kernel, s: Process, taken: set<nat>, p: nat, n: nat): (Memory, set<nat>)
    requires p + n <= KERNEL_PAGE
    decreases n, p
  {
    if n == 0 then (m, taken)
    else
      var (b, t) := AllocateBlock(taken);
      BackUser(MapUserPage(m, l, s, b * PAGE_SIZE, p * PAGE_SIZE), l, s, t, p + 1, n - 1)
  }

  /** SysMemalloc for n > 0 pages: first page, memory and taken blocks. None where the source spins or
      leaves the user tables. */
  function Malloc(m: Memory, l: Kernel, s: Process, taken: set<nat>, n: word): Option<(nat, Memory, set<nat>)>
  {
    match AllocateUser(m, l, s, n)
    case None => None
    case Some((p, m1)) =>
      if p + n <= KERNEL_PAGE then
        var (m2, t) := BackUser(m1, l, s, taken, p, n);
        Some((p, m2, t))
      else None
  }

  /** m' is m with directory entry k of s present and pointed at frame f. */
  ghost predicate Pointed(m: Memory, m': Memory, l: Kernel, s: Process, k: nat, f: nat)
    requires k < KERNEL_TABLE
  {
    SameKernel(m, m', l)
    && (forall g :: 0 <= g < FRAMES && g != s.frame ==> m'[g] == m[g])
    && (forall q :: 0 <= q < KERNEL_PAGE ==> UserEntry(m', l, s, q) == UserEntry(m, l, s, q))
    && (forall i :: 0 <= i < TABLES && i != k ==> m'[s.frame][i] == m[s.frame][i])
    && Present(m'[s.frame][k]) && m'[s.frame][k] < HIGH && HardwareFrame(m'[s.frame][k]) == f
    && Enabled(m[s.frame][k], m'[s.frame][k])
  }

  /** One turn of either loop: entry e at page p, and the directory entry of p's table at frame f. */
  ghost predicate Written(m: Memory, m': Memory, l: Kernel, s: Process, p: nat, e: word, f: nat)
    requires p < KERNEL_PAGE
  {
    SameKernel(m, m', l) && WithinFrames(m, m', l, s)
    && (forall q :: 0 <= q < KERNEL_PAGE ==> UserEntry(m', l, s, q) == if q == p then e else UserEntry(m, l, s, q))
    && (forall i :: 0 <= i < TABLES && i != p / PAGES_PER_TABLE ==> m'[s.frame][i] == m[s.frame][i])
    && Present(m'[s.frame][p / PAGES_PER_TABLE]) && m'[s.frame][p / PAGES_PER_TABLE] < HIGH
    && HardwareFrame(m'[s.frame][p / PAGES_PER_TABLE]) == f
    && Enabled(m[s.frame][p / PAGES_PER_TABLE], m'[s.frame][p / PAGES_PER_TABLE])
  }

  lemma MislinkWrite(m: Memory, l: Kernel, s: Process, k: nat)
    requires Linked(m, l) && Backed(m, l, s) && k < KERNEL_TABLE && m[s.frame][k] < HIGH
    ensures Pointed(m, MislinkTable(m, l, s, k), l, s, k, s.tables + k - KERNEL_PAGE)
  {
    TableFrame(m, l, s, k);
    MapEntryIs(m[s.frame][k], (s.tables + k - KERNEL_PAGE) * PAGE_SIZE);
    OtherUserEntries(m, MislinkTable(m, l, s, k), l, s);
  }

  lemma WrittenBy(m: Memory, m1: Memory, m': Memory, l: Kernel, s: Process, p: nat, e: word, f: nat)
    requires p < KERNEL_PAGE && Backed(m, l, s) && TableWritten(m, m1, l, s, p, e)
    requires Pointed(m1, m', l, s, p / PAGES_PER_TABLE, f)
    ensures Written(m, m', l, s, p, e, f)
  {
    SameKernelKeeps(m, m1, l, s);
    OwnFrames(m, l, s, p);
  }

  lemma OwnFrames(m: Memory, l: Kernel, s: Process, p: nat)
    requires Backed(m, l, s) && p < KERNEL_PAGE
    ensures FrameOf(m, l, s.tables + p / PAGES_PER_TABLE) in Frames(m, l, s) && s.frame in Frames(m, l, s)
  {
    assert Owns(s, s.directory) && Owns(s, s.tables + p / PAGES_PER_TABLE);
  }

  lemma MarkUserPageIs(m: Memory, l: Kernel, s: Process, p: nat)
    requires Sound(m, l, s) && p < KERNEL_PAGE
    ensures Written(m, MarkUserPage(m, l, s, p), l, s, p, SetFlags(UserEntry(m, l, s, p), PRESENT + WRITABLE),
                    s.tables + p / PAGES_PER_TABLE - KERNEL_PAGE)
  {
    hide Linked, Backed, Pointed, TableWritten;
    var e := SetFlags(UserEntry(m, l, s, p), PRESENT + WRITABLE);
    var m1 := SetUserEntry(m, l, s, p, e);
    TableWrite(m, l, s, p, e);
    TableWriteKeeps(m, m1, l, s, p, e);
    MislinkWrite(m1, l, s, p / PAGES_PER_TABLE);
    WrittenBy(m, m1, MislinkTable(m1, l, s, p / PAGES_PER_TABLE), l, s, p, e,
      s.tables + p / PAGES_PER_TABLE - KERNEL_PAGE);
  }

  lemma TableWriteKeeps(m: Memory, m1: Memory, l: Kernel, s: Process, p: nat, e: word)
    requires Linked(m, l) && Backed(m, l, s) && p < KERNEL_PAGE && TableWritten(m, m1, l, s, p, e)
    ensures Linked(m1, l) && Backed(m1, l, s) && m1[s.frame] == m[s.frame]
  {
    SameKernelKeeps(m, m1, l, s);
  }

  lemma MapUserPageWrites(m: Memory, l: Kernel, s: Process, phys: word, virt: word)
    requires Sound(m, l, s) && virt / PAGE_SIZE < KERNEL_PAGE
    ensures var p := virt / PAGE_SIZE;
      Written(m, MapUserPage(m, l, s, phys, virt), l, s, p, MapEntry(UserEntry(m, l, s, p), phys),
              FrameOf(m, l, s.tables + p / PAGES_PER_TABLE))
  {
    hide Linked, Backed, MapUserPage;
    MapUserPageIs(m, l, s, phys, virt);
    OwnFrames(m, l, s, virt / PAGE_SIZE);
  }

  lemma WrittenKeeps(m: Memory, m': Memory, l: Kernel, s: Process, p: nat, e: word, f: nat)
    requires Sound(m, l, s) && p < KERNEL_PAGE && Written(m, m', l, s, p, e, f) && e < HIGH
    ensures Sound(m', l, s) && Frames(m', l, s) == Frames(m, l, s)
    ensures forall q :: 0 <= q < PAGES ==> FrameOf(m', l, q) == FrameOf(m, l, q)
  {
    hide Linked, Backed, Granted, Enabled;
    SameKernelKeeps(m, m', l, s);
    StaysGranted(m[s.frame][p / PAGES_PER_TABLE], m'[s.frame][p / PAGES_PER_TABLE], p / PAGES_PER_TABLE);
  }

  /** Table k holds one of the count pages from p on. */
  predicate TableTouched(p: nat, count: nat, k: nat)
  {
    count > 0 && p / PAGES_PER_TABLE <= k <= (p + count - 1) / PAGES_PER_TABLE
  }

  lemma TouchedNext(p: nat, count: nat, k: nat)
    requires count > 0
    ensures TableTouched(p, count, k) <==> k == p / PAGES_PER_TABLE || TableTouched(p + 1, count - 1, k)
  {}

  /** After marking: bits 0 and 1 of the entries of the run are set, and the tables they lie in are mislinked. */
  lemma {:induction false} MarkUserRunIs(m: Memory, l: Kernel, s: Process, p: nat, count: nat, q: nat, k: nat)
    requires Sound(m, l, s) && p + count <= KERNEL_PAGE && q < KERNEL_PAGE && k < KERNEL_TABLE
    ensures var m' := MarkUserRun(m, l, s, p, count);
      Sound(m', l, s) && SameKernel(m, m', l) && WithinFrames(m, m', l, s)
      && UserEntry(m', l, s, q)
         == (if p <= q < p + count then UserEntry(m, l, s, q) / 4 * 4 + 3 else UserEntry(m, l, s, q))
      && (if TableTouched(p, count, k) then HardwareFrame(m'[s.frame][k]) == s.tables + k - KERNEL_PAGE
          else m'[s.frame][k] == m[s.frame][k])
    decreases count
  {
    hide Sound, UserEntry, MarkUserPage, WithinFrames, SameKernel, TableTouched;
    if count == 0 {
      NothingWritten(m, l, s, p, k);
    } else {
      var m1 := MarkUserPage(m, l, s, p);
      var e := SetFlags(UserEntry(m, l, s, p), PRESENT + WRITABLE);
      EntryLow(m, l, s, p);
      SetFlagsIs(UserEntry(m, l, s, p), PRESENT + WRITABLE);
      SetWritableIs(UserEntry(m, l, s, p));
      MarkUserPageIs(m, l, s, p);
      WrittenKeeps(m, m1, l, s, p, e, s.tables + p / PAGES_PER_TABLE - KERNEL_PAGE);
      MarkUserRunIs(m1, l, s, p + 1, count - 1, q, k);
      WithinBoth(m, m1, MarkUserRun(m1, l, s, p + 1, count - 1), l, s);
      TouchedNext(p, count, k);
    }
  }

  /** Bits 0 and 1 of the count user entries from p on are set, their tables' directory entries hold the frames the
      kernel pages of the tables would have in the kernel image, and nothing else in s has changed. */
  ghost predicate Claimed(m: Memory, m': Memory, l: Kernel, s: Process, p: nat, count: nat)
  {
    SameKernel(m, m', l) && WithinFrames(m, m', l, s)
    && (forall q :: 0 <= q < KERNEL_PAGE ==>
         UserEntry(m', l, s, q)
           == if p <= q < p + count then UserEntry(m, l, s, q) / 4 * 4 + 3 else UserEntry(m, l, s, q))
    && (forall k :: 0 <= k < KERNEL_TABLE ==>
         if TableTouched(p, count, k) then HardwareFrame(m'[s.frame][k]) == s.tables + k - 0xC_0000
         else m'[s.frame][k] == m[s.frame][k])
  }

  /** AllocateVirtualPages as a whole: where the claim starts, and what it leaves. */
  lemma AllocateUserIs(m: Memory, l: Kernel, s: Process, n: word)
    requires Sound(m, l, s) && n + 2 < WORD
    ensures match ClaimStart(UserPresence(m, l, s), n)
      case None => AllocateUser(m, l, s, n) == None
      case Some(p) =>
        AllocateUser(m, l, s, n).Some? && AllocateUser(m, l, s, n).value.0 == p
        && Claimed(m, AllocateUser(m, l, s, n).value.1, l, s, p, n + 2)
  {
    hide Sound, UserEntry, MarkUserRun, WithinFrames, SameKernel, TableTouched, UserRun, UserPresence, ClaimStart,
      StartsAt, Claimed;
    UserRunIs(UserPresence(m, l, s), n);
    if UserRun(UserPresence(m, l, s), n).Some? {
      RunFits(m, l, s, n);
      var p := UserRun(UserPresence(m, l, s), n).value.0;
      MarkUserRunClaims(m, l, s, p, n + 2);
    }
  }

  lemma MarkUserRunClaims(m: Memory, l: Kernel, s: Process, p: nat, count: nat)
    requires Sound(m, l, s) && p + count <= KERNEL_PAGE
    ensures Claimed(m, MarkUserRun(m, l, s, p, count), l, s, p, count)
  {
    hide Sound, UserEntry, MarkUserRun, WithinFrames, SameKernel, TableTouched;
    var m' := MarkUserRun(m, l, s, p, count);
    MarkUserRunIs(m, l, s, p, count, 0, 0);
    forall q | 0 <= q < KERNEL_PAGE
      ensures UserEntry(m', l, s, q)
              == if p <= q < p + count then UserEntry(m, l, s, q) / 4 * 4 + 3 else UserEntry(m, l, s, q)
    {
      MarkUserRunIs(m, l, s, p, count, q, 0);
    }
    forall k | 0 <= k < KERNEL_TABLE
      ensures if TableTouched(p, count, k) then HardwareFrame(m'[s.frame][k]) == s.tables + k - 0xC_0000
              else m'[s.frame][k] == m[s.frame][k]
    {
      MarkUserRunIs(m, l, s, p, count, 0, k);
    }
  }

  lemma EntryLow(m: Memory, l: Kernel, s: Process, q: nat)
    requires Sound(m, l, s) && q < KERNEL_PAGE
    ensures UserEntry(m, l, s, q) < HIGH
  {}

  lemma NothingWritten(m: Memory, l: Kernel, s: Process, p: nat, k: nat)
    ensures SameKernel(m, m, l) && WithinFrames(m, m, l, s) && !TableTouched(p, 0, k)
  {}

  lemma WithinBoth(m: Memory, m1: Memory, m2: Memory, l: Kernel, s: Process)
    requires SameKernel(m, m1, l) && WithinFrames(m, m1, l, s) && SameKernel(m1, m2, l) && WithinFrames(m1, m2, l, s)
    requires Frames(m1, l, s) == Frames(m, l, s)
    ensures SameKernel(m, m2, l) && WithinFrames(m, m2, l, s)
  {
    hide Frames;
  }

  /** After the mapping loop: every page of the range sits on a block that was free, and the tables they
      lie in are linked. */
  ghost predicate BackedBy(m: Memory, m': Memory, l: Kernel, s: Process, taken: set<nat>, taken': set<nat>, p: nat,
      n: nat, q: nat)
    requires q < KERNEL_PAGE
  {
    var e := UserEntry(m', l, s, q);
    if p <= q < p + n then
      Present(e) && Enabled(UserEntry(m, l, s, q), e) && HardwareFrame(e) !in taken && HardwareFrame(e) in taken'
    else e == UserEntry(m, l, s, q)
  }

  lemma {:induction false} BackUserIs(m: Memory, l: Kernel, s: Process, taken: set<nat>, p: nat, n: nat, q: nat, k: nat)
    requires Sound(m, l, s) && Reserved(taken, l) && n <= |FreeBlocks(taken)|
    requires p + n <= KERNEL_PAGE && q < KERNEL_PAGE && k < KERNEL_TABLE
    ensures var (m', taken') := BackUser(m, l, s, taken, p, n);
      Sound(m', l, s) && SameKernel(m, m', l) && WithinFrames(m, m', l, s) && taken <= taken' && Reserved(taken', l)
      && |FreeBlocks(taken')| == |FreeBlocks(taken)| - n
      && BackedBy(m, m', l, s, taken, taken', p, n, q)
      && (if TableTouched(p, n, k) then HardwareFrame(m'[s.frame][k]) == FrameOf(m, l, s.tables + k)
          else m'[s.frame][k] == m[s.frame][k])
    decreases n
  {
    hide Sound, UserEntry, MapUserPage, MapEntry, WithinFrames, SameKernel, TableTouched, FreeBlocks, Reserved,
      AllocateBlock, BackedBy, FrameOf;
    if n == 0 {
      NothingWritten(m, l, s, p, k);
      NothingBacked(m, l, s, taken, p, q);
    } else {
      var (b, t) := AllocateBlock(taken);
      assert FreeBlocks(taken) != {};
      FreshBlock(taken, l);
      var m1 := MapUserPage(m, l, s, b * PAGE_SIZE, p * PAGE_SIZE);
      BackStep(m, l, s, b, p);
      BackUserIs(m1, l, s, t, p + 1, n - 1, q, k);
      var (m', t') := BackUser(m1, l, s, t, p + 1, n - 1);
      WithinBoth(m, m1, m', l, s);
      TouchedNext(p, n, k);
      BackedNext(m, m1, m', l, s, taken, t, t', p, n, q);
    }
  }

  lemma NothingBacked(m: Memory, l: Kernel, s: Process, taken: set<nat>, p: nat, q: nat)
    requires q < KERNEL_PAGE
    ensures BackedBy(m, m, l, s, taken, taken, p, 0, q)
  {}

  lemma BackedNext(m: Memory, m1: Memory, m': Memory, l: Kernel, s: Process, t: set<nat>, t1: set<nat>, t': set<nat>,
      p: nat, n: nat, q: nat)
    requires 0 < n && q < KERNEL_PAGE && p < KERNEL_PAGE && t <= t1 <= t'
    requires BackedBy(m1, m', l, s, t1, t', p + 1, n - 1, q)
    requires q != p ==> UserEntry(m1, l, s, q) == UserEntry(m, l, s, q)
    requires Present(UserEntry(m1, l, s, p)) && Enabled(UserEntry(m, l, s, p), UserEntry(m1, l, s, p))
    requires HardwareFrame(UserEntry(m1, l, s, p)) !in t
    requires HardwareFrame(UserEntry(m1, l, s, p)) in t1
    ensures BackedBy(m, m', l, s, t, t', p, n, q)
  {
    hide UserEntry;
  }

  lemma BackStep(m: Memory, l: Kernel, s: Process, b: nat, p: nat)
    requires Sound(m, l, s) && 0 < b < 0x8_0000 && p < KERNEL_PAGE
    ensures var m1 := MapUserPage(m, l, s, b * PAGE_SIZE, p * PAGE_SIZE);
      Sound(m1, l, s) && SameKernel(m, m1, l) && WithinFrames(m, m1, l, s) && Frames(m1, l, s) == Frames(m, l, s)
      && Present(UserEntry(m1, l, s, p)) && HardwareFrame(UserEntry(m1, l, s, p)) == b
      && Enabled(UserEntry(m, l, s, p), UserEntry(m1, l, s, p))
      && (forall q :: 0 <= q < KERNEL_PAGE && q != p ==> UserEntry(m1, l, s, q) == UserEntry(m, l, s, q))
      && (forall i :: 0 <= i < TABLES && i != p / PAGES_PER_TABLE ==> m1[s.frame][i] == m[s.frame][i])
      && HardwareFrame(m1[s.frame][p / PAGES_PER_TABLE]) == FrameOf(m, l, s.tables + p / PAGES_PER_TABLE)
      && forall i :: 0 <= i < PAGES ==> FrameOf(m1, l, i) == FrameOf(m, l, i)
  {
    hide Sound, UserEntry, MapUserPage, MapEntry, WithinFrames, SameKernel;
    var m1 := MapUserPage(m, l, s, b * PAGE_SIZE, p * PAGE_SIZE);
    var e := MapEntry(UserEntry(m, l, s, p), b * PAGE_SIZE);
    assert p * PAGE_SIZE / PAGE_SIZE == p;
    EntryLow(m, l, s, p);
    MapEntryIs(UserEntry(m, l, s, p), b * PAGE_SIZE);
    MapUserPageWrites(m, l, s, b * PAGE_SIZE, p * PAGE_SIZE);
    WrittenKeeps(m, m1, l, s, p, e, FrameOf(m, l, s.tables + p / PAGES_PER_TABLE));
  }

  /** No two pages of the range sit on the same block. */
  lemma {:induction false} BackUserDistinct(m: Memory, l: Kernel, s: Process, taken: set<nat>, p: nat, n: nat, q: nat,
      r: nat)
    requires Sound(m, l, s) && Reserved(taken, l) && n <= |FreeBlocks(taken)|
    requires p + n <= KERNEL_PAGE && p <= q < r < p + n
    ensures var m' := BackUser(m, l, s, taken, p, n).0;
      HardwareFrame(UserEntry(m', l, s, q)) != HardwareFrame(UserEntry(m', l, s, r))
    decreases n
  {
    hide Sound, UserEntry, MapUserPage, MapEntry, WithinFrames, SameKernel, FreeBlocks, Reserved, AllocateBlock,
      FrameOf, BackedBy;
    var (b, t) := AllocateBlock(taken);
    assert FreeBlocks(taken) != {};
    FreshBlock(taken, l);
    var m1 := MapUserPage(m, l, s, b * PAGE_SIZE, p * PAGE_SIZE);
    BackStep(m, l, s, b, p);
    if q == p {
      var (m', t') := BackUser(m1, l, s, t, p + 1, n - 1);
      BackUserIs(m1, l, s, t, p + 1, n - 1, q, 0);
      BackUserIs(m1, l, s, t, p + 1, n - 1, r, 0);
      FirstDistinct(m1, m', l, s, t, t', p, n, r);
    } else {
      BackUserDistinct(m1, l, s, t, p + 1, n - 1, q, r);
    }
  }

  lemma FirstDistinct(m1: Memory, m': Memory, l: Kernel, s: Process, t: set<nat>, t': set<nat>, p: nat, n: nat, r: nat)
    requires p < r < p + n <= KERNEL_PAGE && HardwareFrame(UserEntry(m1, l, s, p)) in t
    requires BackedBy(m1, m', l, s, t, t', p + 1, n - 1, p) && BackedBy(m1, m', l, s, t, t', p + 1, n - 1, r)
    ensures HardwareFrame(UserEntry(m', l, s, p)) != HardwareFrame(UserEntry(m', l, s, r))
  {
    hide UserEntry;
  }

  // ---- SysMemalloc ----

  /** Page 0 is present, so the scan does not fall for its seed. */
  predicate Seeded(m: Memory, l: Kernel, s: Process)
  {
    Present(UserEntry(m, l, s, 0))
  }

  /** Where SysMemalloc puts page q of s: the first n pages of the run on blocks that were free, the two padding
      pages where they were, all of them present and writable with the other flags as they were. */
  ghost predicate Placed(m: Memory, m': Memory, l: Kernel, s: Process, taken: set<nat>, taken': set<nat>, p: nat,
      n: nat, q: nat)
    requires q < KERNEL_PAGE
  {
    var e := UserEntry(m', l, s, q);
    if p <= q < p + n then
      Present(e) && Enabled(UserEntry(m, l, s, q), e) && HardwareFrame(e) !in taken && HardwareFrame(e) in taken'
    else if p + n <= q < p + n + 2 then e == UserEntry(m, l, s, q) / 4 * 4 + 3
    else e == UserEntry(m, l, s, q)
  }

  /** Where directory entry k of s leads afterwards: the allocator points the tables of the whole run at their kernel
      addresses, the mapping loop points those of the first n pages where they are. */
  ghost predicate Aimed(m: Memory, m': Memory, l: Kernel, s: Process, p: nat, n: nat, k: nat)
    requires k < KERNEL_TABLE
  {
    if TableTouched(p, n, k) then TableLinked(m', l, s, k)
    else if TableTouched(p, n + 2, k) then HardwareFrame(m'[s.frame][k]) == s.tables + k - KERNEL_PAGE
    else m'[s.frame][k] == m[s.frame][k]
  }

  /** What SysMemalloc leaves, and what it keeps: it may be called again. */
  lemma MallocIs(m: Memory, l: Kernel, s: Process, taken: set<nat>, n: word, q: nat, k: nat)
    requires Sound(m, l, s) && Reserved(taken, l) && 0 < n <= |FreeBlocks(taken)| && n + 2 < WORD
    requires q < KERNEL_PAGE && k < KERNEL_TABLE
    ensures match ClaimStart(UserPresence(m, l, s), n)
      case None => Malloc(m, l, s, taken, n) == None
      case Some(p) =>
        p + n + 2 <= KERNEL_PAGE && Malloc(m, l, s, taken, n).Some?
        && var (first, m', taken') := Malloc(m, l, s, taken, n).value;
        first == p && Sound(m', l, s) && SameKernel(m, m', l) && WithinFrames(m, m', l, s)
        && taken <= taken' && Reserved(taken', l) && |FreeBlocks(taken')| == |FreeBlocks(taken)| - n
        && Placed(m, m', l, s, taken, taken', p, n, q) && Aimed(m, m', l, s, p, n, k)
  {
    hide Sound, Reserved, FreeBlocks, MarkUserRun, BackUser, UserEntry, WithinFrames, SameKernel, FrameOf,
      TableTouched, Placed, Aimed, UserRun, UserPresence, ClaimStart, StartsAt;
    UserRunIs(UserPresence(m, l, s), n);
    if UserRun(UserPresence(m, l, s), n).Some? {
      var p := UserRun(UserPresence(m, l, s), n).value.0;
      RunFits(m, l, s, n);
      var m1 := MarkUserRun(m, l, s, p, n + 2);
      var (m', taken') := BackUser(m1, l, s, taken, p, n);
      MarkUserRunIs(m, l, s, p, n + 2, q, k);
      BackUserIs(m1, l, s, taken, p, n, q, k);
      SameKernelKeeps(m, m1, l, s);
      SameKernelKeeps(m1, m', l, s);
      WithinBoth(m, m1, m', l, s);
      PlacedBy(m, m1, m', l, s, taken, taken', p, n, q);
      AimedBy(m, m1, m', l, s, p, n, k);
    }
  }

  lemma RunFits(m: Memory, l: Kernel, s: Process, n: word)
    requires UserRun(UserPresence(m, l, s), n).Some?
    ensures var (p, c) := UserRun(UserPresence(m, l, s), n).value; p + c <= KERNEL_PAGE
  {}

  lemma PlacedBy(m: Memory, m1: Memory, m': Memory, l: Kernel, s: Process, taken: set<nat>, taken': set<nat>, p: nat,
      n: nat, q: nat)
    requires q < KERNEL_PAGE && BackedBy(m1, m', l, s, taken, taken', p, n, q)
    requires UserEntry(m1, l, s, q)
             == (if p <= q < p + (n + 2) then UserEntry(m, l, s, q) / 4 * 4 + 3 else UserEntry(m, l, s, q))
    ensures Placed(m, m', l, s, taken, taken', p, n, q)
  {
    hide UserEntry;
  }

  lemma AimedBy(m: Memory, m1: Memory, m': Memory, l: Kernel, s: Process, p: nat, n: nat, k: nat)
    requires 0 < n && k < KERNEL_TABLE && SameKernel(m, m1, l) && SameKernel(m1, m', l)
    requires if TableTouched(p, n + 2, k) then HardwareFrame(m1[s.frame][k]) == s.tables + k - KERNEL_PAGE
             else m1[s.frame][k] == m[s.frame][k]
    requires if TableTouched(p, n, k) then HardwareFrame(m'[s.frame][k]) == FrameOf(m1, l, s.tables + k)
             else m'[s.frame][k] == m1[s.frame][k]
    ensures Aimed(m, m', l, s, p, n, k)
  {
    hide TableTouched, FrameOf;
    SameKernelKeeps(m1, m', l, s);
    TouchedMore(p, n, k);
  }

  /** The range SysMemalloc returns starts on a page that was present and goes on with pages that were absent, unless
      the bottom of the address space is free: then it starts on page 64, whatever is there. */
  lemma MallocPages(m: Memory, l: Kernel, s: Process, n: word)
    requires n + 2 < WORD && ClaimStart(UserPresence(m, l, s), n).Some?
    ensures var p := ClaimStart(UserPresence(m, l, s), n).value;
      if FreeRun(UserPresence(m, l, s), 0, n + 2) then p == 64 && 64 + n + 2 <= KERNEL_PAGE
      else p + n + 3 <= KERNEL_PAGE && Present(UserEntry(m, l, s, p))
           && forall q :: p < q < p + n + 3 ==> !Present(UserEntry(m, l, s, q))
  {
    hide UserEntry, ClaimStart;
    var present := UserPresence(m, l, s);
    UserRunIs(present, n);
    var p := ClaimStart(present, n).value;
    assert StartsAt(present, n, p);
    if !FreeRun(present, 0, n + 2) {
      assert FreeRun(present, p + 1, n + 2);
      forall q | p < q < p + n + 3 ensures !Present(UserEntry(m, l, s, q)) { assert !present[q]; }
      assert present[p];
    }
  }

  /** v translates to a block outside taken and inside taken', and may be written. */
  ghost predicate OnFreshBlock(m: Memory, s: Process, taken: set<nat>, taken': set<nat>, v: word)
  {
    Walk(m, s.frame, v).Some? && WritableAt(m, s.frame, v)
    && var a := Walk(m, s.frame, v).value;
    a % PAGE_SIZE == v % PAGE_SIZE && a / PAGE_SIZE !in taken && a / PAGE_SIZE in taken'
  }

  /** SysMemalloc with enough free blocks: every page it returns translates, in the walk of the process's
      own directory, to a block that was free before the call, a different one for each page. */
  lemma MallocBacks(m: Memory, l: Kernel, s: Process, taken: set<nat>, n: word, v: word, w: word)
    requires Sound(m, l, s) && Reserved(taken, l) && 0 < n <= |FreeBlocks(taken)| && n + 2 < WORD
    ensures var r := Malloc(m, l, s, taken, n);
      r.Some? ==>
        var (p, m', taken') := r.value;
        Sound(m', l, s) && Reserved(taken', l)
        && (p <= v / PAGE_SIZE < p + n ==> OnFreshBlock(m', s, taken, taken', v))
        && (p <= v / PAGE_SIZE < p + n && p <= w / PAGE_SIZE < p + n && v / PAGE_SIZE != w / PAGE_SIZE ==>
             HardwareFrame(WalkedEntry(m', s, v / PAGE_SIZE)) != HardwareFrame(WalkedEntry(m', s, w / PAGE_SIZE)))
  {
    hide Sound, Reserved, FreeBlocks, MarkUserRun, BackUser, UserEntry, WithinFrames, SameKernel, Walk, WalkedEntry,
      FrameOf;
    if Malloc(m, l, s, taken, n).Some? {
      MallocIs(m, l, s, taken, n, 0, 0);
      var p := Malloc(m, l, s, taken, n).value.0;
      if p <= v / PAGE_SIZE < p + n { MallocAt(m, l, s, taken, n, v); }
      if p <= w / PAGE_SIZE < p + n { MallocAt(m, l, s, taken, n, w); }
      MallocDistinct(m, l, s, taken, n, v / PAGE_SIZE, w / PAGE_SIZE);
    }
  }

  lemma MallocDistinct(m: Memory, l: Kernel, s: Process, taken: set<nat>, n: word, q: nat, r: nat)
    requires Sound(m, l, s) && Reserved(taken, l) && 0 < n <= |FreeBlocks(taken)| && n + 2 < WORD
    requires Malloc(m, l, s, taken, n).Some?
    ensures var (p, m', _) := Malloc(m, l, s, taken, n).value;
      p <= q < p + n && p <= r < p + n && q != r ==>
        r < KERNEL_PAGE && q < KERNEL_PAGE
        && HardwareFrame(UserEntry(m', l, s, q)) != HardwareFrame(UserEntry(m', l, s, r))
  {
    hide Sound, Reserved, FreeBlocks, MarkUserRun, BackUser, UserEntry, WithinFrames, SameKernel, FrameOf;
    UserRunIs(UserPresence(m, l, s), n);
    MallocIs(m, l, s, taken, n, 0, 0);
    var p := Malloc(m, l, s, taken, n).value.0;
    var m1 := MarkUserRun(m, l, s, p, n + 2);
    MarkUserRunIs(m, l, s, p, n + 2, 0, 0);
    if p <= q < r < p + n { BackUserDistinct(m1, l, s, taken, p, n, q, r); }
    if p <= r < q < p + n { BackUserDistinct(m1, l, s, taken, p, n, r, q); }
  }

  lemma MallocAt(m: Memory, l: Kernel, s: Process, taken: set<nat>, n: word, v: word)
    requires Sound(m, l, s) && Reserved(taken, l) && 0 < n <= |FreeBlocks(taken)| && n + 2 < WORD
    requires Malloc(m, l, s, taken, n).Some?
    requires var p := Malloc(m, l, s, taken, n).value.0; p <= v / PAGE_SIZE < p + n
    ensures var (p, m', taken') := Malloc(m, l, s, taken, n).value;
      OnFreshBlock(m', s, taken, taken', v) && v / PAGE_SIZE < KERNEL_PAGE
      && WalkedEntry(m', s, v / PAGE_SIZE) == UserEntry(m', l, s, v / PAGE_SIZE)
  {
    hide Sound, Reserved, FreeBlocks, Malloc, UserEntry, WithinFrames, SameKernel, Walk, WalkedEntry, FrameOf, Linked,
      Backed, Directed, WritableAt;
    var q := v / PAGE_SIZE;
    MallocIs(m, l, s, taken, n, 0, 0);
    MallocIs(m, l, s, taken, n, q, q / PAGES_PER_TABLE);
    var (p, m', taken') := Malloc(m, l, s, taken, n).value;
    SoundParts(m', l, s);
    UserWalk(m', l, s, v);
    UserWritable(m', l, s, v);
    WalkAddress(HardwareFrame(UserEntry(m', l, s, q)), v);
    assert TableTouched(p, n, q / PAGES_PER_TABLE);
  }

  lemma WalkAddress(f: nat, v: word)
    ensures (f * PAGE_SIZE + v % PAGE_SIZE) / PAGE_SIZE == f
              && (f * PAGE_SIZE + v % PAGE_SIZE) % PAGE_SIZE == v % PAGE_SIZE
  {}

  /** Table k holds padding of the run only: it is the table of the last padding page, and the n pages end in the
      table before. */
  predicate PaddingOnly(p: nat, n: nat, k: nat)
  {
    0 < n && k == (p + n + 1) / PAGES_PER_TABLE != (p + n - 1) / PAGES_PER_TABLE
  }

  lemma TouchedMore(p: nat, n: nat, k: nat)
    requires 0 < n
    ensures TableTouched(p, n, k) ==> TableTouched(p, n + 2, k)
    ensures TableTouched(p, n + 2, k) && !TableTouched(p, n, k) <==> PaddingOnly(p, n, k)
  {}

  /** Which tables SysMemalloc leaves linked, from the presence of pages before the call: one that holds only padding
      of the run does not stay linked, unless its frame happens to be the number written; one that holds a returned
      page is linked; all others are as they were. */
  lemma MallocDirectory(m: Memory, l: Kernel, s: Process, taken: set<nat>, n: word, k: nat)
    requires Sound(m, l, s) && Reserved(taken, l) && 0 < n <= |FreeBlocks(taken)| && n + 2 < WORD && k < KERNEL_TABLE
    ensures match ClaimStart(UserPresence(m, l, s), n)
      case None => Malloc(m, l, s, taken, n) == None
      case Some(p) =>
        Malloc(m, l, s, taken, n).Some? && var m' := Malloc(m, l, s, taken, n).value.1;
        (TableLinked(m', l, s, k) <==>
          if PaddingOnly(p, n, k) then FrameOf(m, l, s.tables + k) == s.tables + k - KERNEL_PAGE
          else TableTouched(p, n, k) || TableLinked(m, l, s, k))
  {
    hide Sound, Reserved, FreeBlocks, Malloc, UserEntry, WithinFrames, FrameOf, UserRun, UserPresence, ClaimStart,
      TableTouched, PaddingOnly;
    MallocIs(m, l, s, taken, n, 0, k);
    if ClaimStart(UserPresence(m, l, s), n).Some? {
      var (p, m', _) := Malloc(m, l, s, taken, n).value;
      SameKernelKeeps(m, m', l, s);
      TouchedMore(p, n, k);
    }
  }

  /** Two table entries translate alike. */
  predicate SameTarget(e: word, f: word)
  {
    Present(e) == Present(f) && (Present(e) ==> HardwareFrame(e) == HardwareFrame(f))
  }

  /** What SysMemalloc leaves alone. An address outside the marked run whose table was linked is translated as before
      if and only if its table holds other than padding of the run, or the word the processor reads instead, from the
      frame with the number of the table's kernel page, happens to translate alike. A table full of live pages is
      lost like any other. */
  lemma MallocSpares(m: Memory, l: Kernel, s: Process, taken: set<nat>, n: word, v: word)
    requires Sound(m, l, s) && Reserved(taken, l) && 0 < n <= |FreeBlocks(taken)| && n + 2 < WORD
    requires v / PAGE_SIZE < KERNEL_PAGE && TableLinked(m, l, s, v / PAGE_SIZE / PAGES_PER_TABLE)
    ensures var q := v / PAGE_SIZE; var k := q / PAGES_PER_TABLE; var x := s.tables + k - KERNEL_PAGE;
      match ClaimStart(UserPresence(m, l, s), n)
      case None => true
      case Some(p) =>
        p <= q < p + n + 2 || (
          Malloc(m, l, s, taken, n).Some? && var m' := Malloc(m, l, s, taken, n).value.1;
          (Walk(m', s.frame, v) == Walk(m, s.frame, v) <==>
            !PaddingOnly(p, n, k) || SameTarget(m'[x][q % PAGES_PER_TABLE], UserEntry(m, l, s, q)))
          && (x !in Frames(m, l, s) ==> m'[x] == m[x]))
  {
    hide Sound, Linked, Backed, Directed, Reserved, FreeBlocks, Malloc, UserEntry, FrameOf, UserRun, UserPresence,
      ClaimStart, TableTouched, PaddingOnly, Walk, WalkedEntry, Frames;
    var q := v / PAGE_SIZE;
    var k := q / PAGES_PER_TABLE;
    MallocIs(m, l, s, taken, n, q, k);
    if ClaimStart(UserPresence(m, l, s), n).Some? {
      var (p, m', _) := Malloc(m, l, s, taken, n).value;
      SameKernelKeeps(m, m', l, s);
      SoundParts(m, l, s);
      SoundParts(m', l, s);
      UserWalk(m, l, s, v);
      UserWalk(m', l, s, v);
      TouchedMore(p, n, k);
      if !(p <= q < p + n + 2) {
        if PaddingOnly(p, n, k) {
          WalkedElsewhere(m', s, q, s.tables + k - KERNEL_PAGE);
          SameWalk(WalkedEntry(m', s, q), UserEntry(m, l, s, q), v);
        }
      }
    }
  }

  lemma WalkedElsewhere(m: Memory, s: Process, q: nat, x: nat)
    requires q < KERNEL_PAGE && x < FRAMES && HardwareFrame(m[s.frame][q / PAGES_PER_TABLE]) == x
    ensures WalkedEntry(m, s, q) == m[x][q % PAGES_PER_TABLE]
  {}

  lemma SameWalk(e: word, f: word, v: word)
    ensures SameTarget(e, f) <==>
      (if Present(e) then Some(HardwareFrame(e) * PAGE_SIZE + v % PAGE_SIZE) else None)
      == (if Present(f) then Some(HardwareFrame(f) * PAGE_SIZE + v % PAGE_SIZE) else None)
  {}

  /** In terms of which pages are present, SysMemalloc is a claim. */
  lemma MallocIsClaim(m: Memory, l: Kernel, s: Process, taken: set<nat>, n: word, claimed: set<nat>)
    requires Sound(m, l, s) && Reserved(taken, l) && 0 < n <= |FreeBlocks(taken)| && n + 2 < WORD
    ensures Malloc(m, l, s, taken, n).Some? ==>
      UserPresence(Malloc(m, l, s, taken, n).value.1, l, s)
        == Serve(UserMap(UserPresence(m, l, s), claimed), Claim(n)).present
  {
    hide Sound, Reserved, FreeBlocks, Malloc, UserEntry, WithinFrames, SameKernel, FrameOf, UserRun, Aimed, ClaimStart;
    UserRunIs(UserPresence(m, l, s), n);
    MallocIs(m, l, s, taken, n, 0, 0);
    if Malloc(m, l, s, taken, n).Some? {
      var (p, m', _) := Malloc(m, l, s, taken, n).value;
      forall q | 0 <= q < KERNEL_PAGE
        ensures Present(UserEntry(m', l, s, q)) == (Present(UserEntry(m, l, s, q)) || p <= q < p + (n + 2))
      {
        MallocIs(m, l, s, taken, n, q, 0);
        MarkedPresent(UserEntry(m, l, s, q));
      }
    }
  }
}
