/** Programs over their whole lives: loading, SysMemalloc and giving the blocks back, in any order. */
module ProgramRuns {
  import opened Bits
  import opened PageEntry
  import opened PhysicalMemory
  import A = PhysicalAllocator
  import opened Paging
  import opened AddressSpace
  import opened CreateSpace
  import opened Isolation
  import opened ElfLoader
  import opened ProgramPages
  import opened ProgramImages
  import opened ProgramEnd

  /** A program that was loaded: its space, its segments, the blocks its load took for them, the block each mapped page
      sits on in the end, and whether it has ended. */
  datatype Record =
    Record(space: nat, segments: seq<Segment>, blocks: set<nat>, home: map<nat, nat>, ended: bool)

  /** Memory, and the programs in the order they were loaded. */
  datatype Store = Store(memory: System, records: seq<Record>)

  /** LoadELF, EndProcess of program j, SysMemalloc by program j. */
  datatype Event = Launch(segments: seq<Segment>) | End(j: nat) | Grow(j: nat, amount: word)

  predicate Running(st: Store, j: nat) { j < |st.records| && !st.records[j].ended }

  ghost predicate Possible(st: Store, l: Kernel, e: Event)
  {
    match e
    case Launch(gs) => Program(gs) && KERNEL_TABLE + 1 + BlocksNeeded(gs) <= |FreeBlocks(st.memory.taken)|
    case End(j) => Running(st, j)
    case Grow(j, n) => Running(st, j) && Allowed(st.memory, l, Memalloc(st.records[j].space, n))
  }

  ghost function Homes(z: System, l: Kernel, gs: seq<Segment>): map<nat, nat>
  {
    map q | q in PagesOf(gs) && q < PAGES :: FrameOf(z.m, l, q)
  }

  /** LoadELF made z of y, by way of x with the new space only. */
  ghost function NewRecord(y: System, x: System, z: System, l: Kernel, gs: seq<Segment>): Record
  {
    Record(|y.spaces|, gs, z.taken - x.taken, Homes(z, l, gs), false)
  }

  /** Where the kernel runs out of pages LoadELF never returns. */
  ghost function Step(st: Store, l: Kernel, e: Event): Store
    requires Kept(st, l) && Possible(st, l, e)
  {
    match e
    case Launch(gs) =>
      var z := LoadElf(st.memory, l, gs);
      if |z.spaces| == |st.memory.spaces| then st
      else Store(z, st.records + [NewRecord(st.memory, Perform(st.memory, l, NewSpace), z, l, gs)])
    case End(j) => Ended(st, l, j)
    case Grow(j, n) => st.(memory := Perform(st.memory, l, Memalloc(st.records[j].space, n)))
  }

  ghost function Ended(st: Store, l: Kernel, j: nat): Store
    requires j < |st.records| && Program(st.records[j].segments)
  {
    var y := st.memory;
    Store(y.(taken := FreeProgram(y.m, l, y.taken, st.records[j].segments)),
          st.records[j := st.records[j].(ended := true)])
  }

  // ---- What is kept ----

  /** A program loaded after program j mapped page q, whether it still runs or not. */
  ghost predicate RemappedAt(st: Store, j: nat, q: nat)
  {
    exists k :: j < k < |st.records| && MapsAny(st.records[k].segments, q)
  }

  ghost predicate Remapped(st: Store, j: nat)
    requires j < |st.records|
  {
    exists q :: q in PagesOf(st.records[j].segments) && RemappedAt(st, j, q)
  }

  ghost predicate Injective(h: map<nat, nat>) { forall q, r :: q in h && r in h && q != r ==> h[q] != h[r] }

  predicate Loose(l: Kernel, f: nat) { 0 < f < 0x8_0000 && !l.Holds(f) }

  /** A page of the program in the kernel's tables: on its own block until a later program maps it. */
  ghost predicate PageKept(st: Store, l: Kernel, j: nat, q: nat)
    requires j < |st.records| && q in st.records[j].home && q < PAGES
  {
    var home := st.records[j].home;
    Present(Entry(st.memory.m, l, q))
    && (if RemappedAt(st, j, q) then FrameOf(st.memory.m, l, q) !in st.records[j].blocks
        else FrameOf(st.memory.m, l, q) == home[q])
  }

  ghost predicate RecordKept(st: Store, l: Kernel, r: Record)
  {
    r.space < |st.memory.spaces| && Program(r.segments) && r.home.Keys == PagesOf(r.segments) && Injective(r.home)
    && r.home.Values <= r.blocks && |r.blocks| == BlocksNeeded(r.segments)
    && (r.home.Values == r.blocks <==> Separate(r.segments))
  }

  /** The blocks of a program that has not ended are taken, and neither the kernel's nor those of any space. */
  ghost predicate BlocksKept(st: Store, l: Kernel, r: Record)
  {
    r.blocks <= st.memory.taken
    && forall f :: f in r.blocks ==> Loose(l, f) && f !in TableFramesOf(st.memory, l)
  }

  ghost predicate PagesKept(st: Store, l: Kernel, j: nat)
    requires j < |st.records|
  {
    forall q :: q in st.records[j].home && q < PAGES ==> PageKept(st, l, j, q)
  }

  ghost predicate Apart(r: Record, s: Record)
  {
    r.space != s.space && (!r.ended && !s.ended ==> r.blocks !! s.blocks)
  }

  ghost predicate Kept(st: Store, l: Kernel)
  {
    Consistent(st.memory, l)
    && (forall j :: 0 <= j < |st.records| ==> RecordKept(st, l, st.records[j]))
    && (forall j :: 0 <= j < |st.records| && !st.records[j].ended ==>
        BlocksKept(st, l, st.records[j]) && PagesKept(st, l, j))
    && (forall i, j :: 0 <= i < j < |st.records| ==> Apart(st.records[i], st.records[j]))
  }

  lemma KeptRecord(st: Store, l: Kernel, j: nat)
    requires Kept(st, l) && j < |st.records|
    ensures RecordKept(st, l, st.records[j])
    ensures !st.records[j].ended ==> BlocksKept(st, l, st.records[j]) && PagesKept(st, l, j)
  {}

  lemma KeptConsistent(st: Store, l: Kernel)
    requires Kept(st, l)
    ensures Consistent(st.memory, l)
  {}

  // ---- Giving back ----

  /** EndProcess looks frames up in the kernel's own tables, which every load overwrites. Whatever was loaded and ended
      in between, it gives back exactly the blocks the program's own load took, as many as its segments need, if and
      only if no program loaded later has mapped one of its pages and the program itself maps no page twice. */
  lemma EndGivesBack(st: Store, l: Kernel, j: nat)
    requires Kept(st, l) && Running(st, j)
    ensures var r := st.records[j];
      |r.blocks| == BlocksNeeded(r.segments) && r.blocks <= st.memory.taken
      && (FreeProgram(st.memory.m, l, st.memory.taken, r.segments) == st.memory.taken - r.blocks
          <==> !Remapped(st, j) && Separate(r.segments))
  {
    hide Consistent, FreeProgram, MapsAny, TableFramesOf, FrameOf, Entry, PageKept, Separate;
    KeptRecord(st, l, j);
    ConsistentLinked(st.memory, l);
    var (r, m) := (st.records[j], st.memory.m);
    FreeProgramIs(m, l, st.memory.taken, r.segments);
    if Remapped(st, j) {
      var q :| q in PagesOf(r.segments) && RemappedAt(st, j, q);
      forall p | p in PagesOf(r.segments) ensures FrameOf(m, l, p) != r.home[q] { OwnBlockElsewhere(st, l, j, q, p); }
      assert r.home[q] in r.home.Values && r.home[q] !in FramesIn(m, l, PagesOf(r.segments));
    } else {
      FramesAtHome(st, l, j);
      SameRest(st.memory.taken, r.home.Values, r.blocks);
    }
  }

  lemma SameRest(taken: set<nat>, a: set<nat>, b: set<nat>)
    requires a <= b <= taken
    ensures taken - a == taken - b <==> a == b
  {
    if taken - a == taken - b { assert a == taken - (taken - a) && b == taken - (taken - b); }
  }

  /** No page of the program leads to the block of a page that was mapped again. */
  lemma OwnBlockElsewhere(st: Store, l: Kernel, j: nat, q: nat, p: nat)
    requires j < |st.records| && RecordKept(st, l, st.records[j]) && PagesKept(st, l, j)
    requires q in st.records[j].home && p in st.records[j].home && p < PAGES && RemappedAt(st, j, q)
    ensures FrameOf(st.memory.m, l, p) != st.records[j].home[q]
  {
    hide Program, RemappedAt, FrameOf;
    assert PageKept(st, l, j, p);
    assert st.records[j].home[q] in st.records[j].home.Values;
  }

  lemma FramesAtHome(st: Store, l: Kernel, j: nat)
    requires j < |st.records| && RecordKept(st, l, st.records[j]) && PagesKept(st, l, j) && !Remapped(st, j)
    ensures FramesIn(st.memory.m, l, PagesOf(st.records[j].segments)) == st.records[j].home.Values
  {
    hide Program, RemappedAt, FrameOf, Entry;
    var (r, m) := (st.records[j], st.memory.m);
    forall q | q in r.home ensures q < PAGES && FrameOf(m, l, q) == r.home[q] {
      assert q in PagesOf(r.segments);
      assert PageKept(st, l, j, q);
    }
  }

  /** What the end of a program leaves taken for good where no later program mapped its pages: one block for every page
      mapped twice. The usage counter, which goes down once for every page mapped, keeps its distance to the number of
      taken blocks if and only if there is none. */
  lemma EndLeaks(st: Store, l: Kernel, j: nat, used: word)
    requires Kept(st, l) && Running(st, j) && !Remapped(st, j)
    ensures var (y, r) := (st.memory, st.records[j]); var gs := r.segments;
      Program(gs)
      && |FreeProgram(y.m, l, y.taken, gs) * r.blocks| == BlocksNeeded(gs) - |PagesOf(gs)|
      && (A.Drift(Less(used, BlocksNeeded(gs)), FreeProgram(y.m, l, y.taken, gs)) == A.Drift(used, y.taken)
          <==> Separate(gs))
  {
    hide Consistent, FreeProgram, Remapped, Program, BlocksNeeded, A.Drift, Less, PageKept, TableFramesOf, FramesIn,
      PagesOf, Separate;
    KeptRecord(st, l, j);
    RunningRecord(st, l, j);
    ConsistentLinked(st.memory, l);
    var (y, r) := (st.memory, st.records[j]);
    FreeProgramIs(y.m, l, y.taken, r.segments);
    FramesAtHome(st, l, j);
    PagesCounted(r.segments);
    HomeCount(r.home);
    assert (y.taken - r.home.Values) * r.blocks == r.blocks - r.home.Values;
    SubsetCardinality(r.blocks, r.home.Values);
    LooseCount(l, r.blocks);
    CounterAfter(used, y.taken, r.home.Values, |r.blocks|);
  }

  lemma {:induction false} HomeCount(h: map<nat, nat>)
    requires Injective(h)
    ensures |h.Values| == |h.Keys|
    decreases |h|
  {
    if h.Keys == {} {
      assert h.Values == {};
    } else {
      var q :| q in h.Keys;
      var rest := h - {q};
      assert rest.Keys == h.Keys - {q};
      assert forall p :: p in rest ==> rest[p] == h[p];
      HomeCount(rest);
      assert h.Values == rest.Values + {h[q]};
      assert h[q] !in rest.Values;
    }
  }

  lemma InRange(s: set<nat>, n: nat)
    requires forall f :: f in s ==> f < n
    ensures |s| <= n
    decreases n
  {
    if n == 0 {
      assert s == {};
    } else {
      InRange(s - {n - 1}, n - 1);
      if n - 1 !in s { assert s - {n - 1} == s; }
    }
  }

  lemma LooseCount(l: Kernel, blocks: set<nat>)
    requires forall f :: f in blocks ==> Loose(l, f)
    ensures |blocks| <= 0x8_0000
  {
    InRange(blocks, 0x8_0000);
  }

  lemma RunningRecord(st: Store, l: Kernel, j: nat)
    requires Kept(st, l) && Running(st, j)
    ensures Program(st.records[j].segments)
  {}

  // ---- Loading ----

  /** The kernel's entry of page q after LoadELF: a block the program took, or what was there. */
  ghost predicate EntryAfter(y: System, x: System, z: System, l: Kernel, gs: seq<Segment>, q: nat)
    requires q < PAGES
  {
    if MapsAny(gs, q) then Present(Entry(z.m, l, q)) && FrameOf(z.m, l, q) !in x.taken && FrameOf(z.m, l, q) in z.taken
    else Present(Entry(y.m, l, q)) ==> Present(Entry(z.m, l, q)) && FrameOf(z.m, l, q) == FrameOf(y.m, l, q)
  }

  /** LoadELF that returns: what it makes of the system, by way of the system x with the new space only. */
  ghost predicate Loads(y: System, x: System, z: System, l: Kernel, gs: seq<Segment>)
  {
    Consistent(z, l) && |z.spaces| == |y.spaces| + 1 && z.spaces[..|y.spaces|] == y.spaces
    && y.taken <= x.taken <= z.taken && Reserved(x.taken, l) && DataKept(y, z, l) && TableFramesOf(z, l) <= x.taken
    && FramesIn(z.m, l, PagesOf(gs)) <= z.taken - x.taken && |z.taken - x.taken| == BlocksNeeded(gs)
    && (FramesIn(z.m, l, PagesOf(gs)) == z.taken - x.taken <==> Separate(gs))
    && (forall f :: f in z.taken - x.taken ==> f < FRAMES)
    && (forall q :: 0 <= q < KERNEL_PAGE ==> EntryAfter(y, x, z, l, gs, q))
    && (forall q, r :: q in PagesOf(gs) && r in PagesOf(gs) && q < r < KERNEL_PAGE ==>
        FrameOf(z.m, l, q) != FrameOf(z.m, l, r))
  }

  lemma LoadElfLoads(y: System, l: Kernel, gs: seq<Segment>)
    requires Consistent(y, l) && Program(gs) && KERNEL_TABLE + 1 + BlocksNeeded(gs) <= |FreeBlocks(y.taken)|
    requires |LoadElf(y, l, gs).spaces| != |y.spaces|
    ensures Loads(y, Perform(y, l, NewSpace), LoadElf(y, l, gs), l, gs)
  {
    hide Consistent, FreeBlocks, LoadAllInto, Create, MapsAny, Entry, FrameOf, TableFramesOf, DataKept, FramesIn,
      PagesOf, EntryAfter, Program, BlocksNeeded, Reserved;
    var x := Perform(y, l, NewSpace);
    var z := LoadElf(y, l, gs);
    var i := |y.spaces|;
    PerformConsistent(y, l, NewSpace);
    Created(y, l);
    CreateFreeBlocks(y, l);
    CreateKeepsData(y, l);
    CreateGrows(y, l);
    LoadAllConsistent(x, l, i, gs);
    LoadAllGrows(x, l, i, gs);
    DataKeptTrans(y, x, z, l);
    TableFramesTaken(x, l);
    LoadAllTakes(x, l, i, gs);
    LoadAllCount(x, l, i, gs);
    forall f | f in z.taken - x.taken ensures f < FRAMES { LoadAllBlocks(x, l, i, gs, f); }
    forall q | 0 <= q < KERNEL_PAGE ensures EntryAfter(y, x, z, l, gs, q) { EntryLoaded(y, l, gs, q); }
    forall q, r | q in PagesOf(gs) && r in PagesOf(gs) && q < r < KERNEL_PAGE
      ensures FrameOf(z.m, l, q) != FrameOf(z.m, l, r)
    {
      PagesMapped(gs, q);
      PagesMapped(gs, r);
      ProgramFramesDistinct(x, l, i, gs, q, r);
    }
  }

  lemma CreateGrows(y: System, l: Kernel)
    requires Consistent(y, l) && Allowed(y, l, NewSpace) && Create(y.m, l, y.taken).Some?
    ensures var x := Perform(y, l, NewSpace); KeepsMappings(y.m, x.m, l) && y.taken <= x.taken && Reserved(x.taken, l)
  {
    hide Consistent, Create, FreeBlocks, Linked, Reserved;
    ConsistentLinked(y, l);
    CreateIs(y.m, l, y.taken);
  }

  lemma DataKeptTrans(y: System, x: System, z: System, l: Kernel)
    requires DataKept(y, x, l) && DataKept(x, z, l)
    ensures DataKept(y, z, l)
  {
    hide TableFramesOf;
  }

  lemma EntryLoaded(y: System, l: Kernel, gs: seq<Segment>, q: nat)
    requires Consistent(y, l) && Program(gs) && KERNEL_TABLE + 1 + BlocksNeeded(gs) <= |FreeBlocks(y.taken)|
    requires |LoadElf(y, l, gs).spaces| != |y.spaces| && q < KERNEL_PAGE
    ensures EntryAfter(y, Perform(y, l, NewSpace), LoadElf(y, l, gs), l, gs, q)
  {
    hide Consistent, FreeBlocks, LoadAllInto, Create, MapsAny, Entry, TableFramesOf, DataKept, FramesIn, PagesOf,
      Program, BlocksNeeded, Reserved, FrameOf;
    var x := Perform(y, l, NewSpace);
    var z := LoadElf(y, l, gs);
    PerformConsistent(y, l, NewSpace);
    Created(y, l);
    CreateFreeBlocks(y, l);
    CreateGrows(y, l);
    PageAfterProgram(x, l, |y.spaces|, gs, q);
    if !MapsAny(gs, q) { SameFrame(x.m, z.m, l, x.spaces[|y.spaces|], q); }
  }

  /** The record of the program just loaded. */
  lemma NewRecordKept(st: Store, l: Kernel, gs: seq<Segment>, x: System, z: System)
    requires Loads(st.memory, x, z, l, gs) && Program(gs)
    ensures var r := NewRecord(st.memory, x, z, l, gs); var st' := Store(z, st.records + [r]);
      RecordKept(st', l, r) && BlocksKept(st', l, r) && PagesKept(st', l, |st.records|)
  {
    hide Consistent, MapsAny, Entry, FrameOf, TableFramesOf, DataKept, Program, BlocksNeeded, Homes, Separate;
    var home := Homes(z, l, gs);
    var r := NewRecord(st.memory, x, z, l, gs);
    var st' := Store(z, st.records + [r]);
    HomesAre(z, l, gs);
    forall f | f in r.blocks ensures Loose(l, f) { FreshLoose(x.taken, l, f); }
    forall q, p | q in home && p in home && q != p ensures home[q] != home[p] {
      if q < p { assert home[q] != home[p]; } else { assert home[p] != home[q]; }
    }
    forall q | q in home && q < PAGES ensures PageKept(st', l, |st.records|, q) {
      assert EntryAfter(st.memory, x, z, l, gs, q);
      PagesMapped(gs, q);
    }
  }

  lemma HomesAre(z: System, l: Kernel, gs: seq<Segment>)
    ensures var home := Homes(z, l, gs);
      home.Keys == PagesOf(gs) && home.Values == FramesIn(z.m, l, PagesOf(gs))
      && forall q :: q in home ==> q < KERNEL_PAGE && home[q] == FrameOf(z.m, l, q)
  {
    hide FrameOf, MapsAny;
  }

  lemma FreshLoose(taken: set<nat>, l: Kernel, f: nat)
    requires Reserved(taken, l) && f !in taken && f < FRAMES
    ensures Loose(l, f)
  {}

  /** An older record after a launch. */
  lemma OldRecordKept(st: Store, l: Kernel, gs: seq<Segment>, x: System, st': Store, j: nat)
    requires Loads(st.memory, x, st'.memory, l, gs) && j < |st.records|
    requires |st'.records| == |st.records| + 1 && st'.records[..|st.records|] == st.records
    requires st'.records[|st.records|].segments == gs
    requires RecordKept(st, l, st.records[j])
    ensures st'.records[j] == st.records[j] && RecordKept(st', l, st.records[j])
    ensures BlocksKept(st, l, st.records[j]) ==> BlocksKept(st', l, st.records[j])
    ensures BlocksKept(st, l, st.records[j]) && PagesKept(st, l, j) ==> PagesKept(st', l, j)
  {
    hide Consistent, MapsAny, Entry, FrameOf, TableFramesOf, Program, BlocksNeeded, Reserved, FramesIn;
    var r := st.records[j];
    assert st'.records[j] == st'.records[..|st.records|][j];
    if BlocksKept(st, l, r) && PagesKept(st, l, j) {
      forall q | q in r.home && q < PAGES ensures PageKept(st', l, j, q) {
        assert PageKept(st, l, j, q);
        PagesMapped(r.segments, q);
        assert EntryAfter(st.memory, x, st'.memory, l, gs, q);
        RemappedMore(st, st', j, q);
      }
    }
  }

  lemma RemappedMore(st: Store, st': Store, j: nat, q: nat)
    requires j < |st.records| && |st'.records| == |st.records| + 1 && st'.records[..|st.records|] == st.records
    ensures RemappedAt(st', j, q) <==> RemappedAt(st, j, q) || MapsAny(st'.records[|st.records|].segments, q)
  {
    hide MapsAny;
    assert forall k :: 0 <= k < |st.records| ==> st'.records[k] == st'.records[..|st.records|][k];
    if RemappedAt(st, j, q) {
      var k :| j < k < |st.records| && MapsAny(st.records[k].segments, q);
      assert MapsAny(st'.records[k].segments, q);
    }
  }

  lemma LaunchKept(st: Store, l: Kernel, gs: seq<Segment>)
    requires Kept(st, l) && Possible(st, l, Launch(gs))
    ensures Kept(Step(st, l, Launch(gs)), l)
  {
    hide Consistent, LoadElf, Kept, Program, FreeBlocks, BlocksNeeded, Homes, Perform, Loads;
    KeptConsistent(st, l);
    var (y, z) := (st.memory, LoadElf(st.memory, l, gs));
    if |z.spaces| != |y.spaces| {
      LoadElfLoads(y, l, gs);
      LaunchedKept(st, l, gs, Perform(y, l, NewSpace), z);
    }
  }

  lemma LaunchedKept(st: Store, l: Kernel, gs: seq<Segment>, x: System, z: System)
    requires Kept(st, l) && Loads(st.memory, x, z, l, gs) && Program(gs)
    ensures Kept(Store(z, st.records + [NewRecord(st.memory, x, z, l, gs)]), l)
  {
    hide Consistent, RecordKept, BlocksKept, PagesKept, Program, BlocksNeeded, Homes, Apart, EntryAfter, TableFramesOf,
      DataKept, FramesIn, PagesOf;
    NewRecordKept(st, l, gs, x, z);
    var st' := Store(z, st.records + [NewRecord(st.memory, x, z, l, gs)]);
    forall j | 0 <= j < |st.records|
      ensures st'.records[j] == st.records[j] && RecordKept(st', l, st'.records[j])
      ensures !st'.records[j].ended ==> BlocksKept(st', l, st'.records[j]) && PagesKept(st', l, j)
      ensures Apart(st'.records[j], st'.records[|st.records|])
    {
      OldRecordKept(st, l, gs, x, st', j);
      NewApart(st, l, st.records[j], st'.records[|st.records|], x.taken);
    }
    AllApart(st.records, st'.records);
  }

  lemma AllApart(rs: seq<Record>, rs': seq<Record>)
    requires |rs'| == |rs| + 1 && rs'[..|rs|] == rs && forall i, j :: 0 <= i < j < |rs| ==> Apart(rs[i], rs[j])
    requires forall i :: 0 <= i < |rs| ==> Apart(rs'[i], rs'[|rs|])
    ensures forall i, j :: 0 <= i < j < |rs'| ==> Apart(rs'[i], rs'[j])
  {
    hide Apart;
    forall i, j | 0 <= i < j < |rs'| ensures Apart(rs'[i], rs'[j]) {
      assert rs'[i] == rs[i];
      if j < |rs| { assert rs'[j] == rs[j]; }
    }
  }

  lemma NewApart(st: Store, l: Kernel, r: Record, s: Record, taken: set<nat>)
    requires RecordKept(st, l, r) && (!r.ended ==> BlocksKept(st, l, r)) && s.space == |st.memory.spaces|
    requires st.memory.taken <= taken && s.blocks !! taken
    ensures Apart(r, s)
  {
    hide Program, TableFramesOf, BlocksNeeded;
  }

  // ---- Ending ----

  /** No page of program j leads, in the kernel's tables, to a block that belongs to the kernel, to an address space or
      to another program that still runs. */
  ghost predicate HurtsNone(st: Store, l: Kernel, j: nat)
    requires j < |st.records|
  {
    forall f :: f in FramesIn(st.memory.m, l, PagesOf(st.records[j].segments)) ==> NobodyElses(st, l, j, f)
  }

  ghost predicate NobodyElses(st: Store, l: Kernel, j: nat, f: nat)
  {
    Loose(l, f) && f !in TableFramesOf(st.memory, l)
    && forall i :: 0 <= i < |st.records| && i != j && !st.records[i].ended ==> f !in st.records[i].blocks
  }

  /** That is so as long as no later program has mapped one of its pages. */
  lemma NotRemappedHurtsNone(st: Store, l: Kernel, j: nat)
    requires Kept(st, l) && Running(st, j) && !Remapped(st, j)
    ensures HurtsNone(st, l, j)
  {
    hide Consistent, RecordKept, BlocksKept, PagesKept, TableFramesOf, FramesIn, PagesOf, Remapped;
    KeptRecord(st, l, j);
    FramesAtHome(st, l, j);
    OwnBlocks(st, l, j);
    forall f | f in st.records[j].home.Values ensures NobodyElses(st, l, j, f) {
      assert f in st.records[j].blocks;
      forall i | 0 <= i < |st.records| && i != j && !st.records[i].ended ensures f !in st.records[i].blocks {
        if i < j { assert Apart(st.records[i], st.records[j]); } else { assert Apart(st.records[j], st.records[i]); }
      }
    }
  }

  lemma OwnBlocks(st: Store, l: Kernel, j: nat)
    requires j < |st.records| && BlocksKept(st, l, st.records[j])
    ensures forall f :: f in st.records[j].blocks ==> Loose(l, f) && f !in TableFramesOf(st.memory, l)
  {
    hide TableFramesOf;
  }

  /** Ending a program keeps order if and only if it hurts nobody. */
  lemma EndKept(st: Store, l: Kernel, j: nat)
    requires Kept(st, l) && Running(st, j)
    ensures Program(st.records[j].segments) && (Kept(Ended(st, l, j), l) <==> HurtsNone(st, l, j))
  {
    hide Consistent, RecordKept, BlocksKept, PagesKept, FreeProgram, HurtsNone, Apart;
    KeptRecord(st, l, j);
    RunningRecord(st, l, j);
    if HurtsNone(st, l, j) {
      EndHarmless(st, l, j);
    } else if Kept(Ended(st, l, j), l) {
      EndHarmful(st, l, j);
    }
  }

  lemma EndTakes(st: Store, l: Kernel, j: nat)
    requires Consistent(st.memory, l) && j < |st.records| && Program(st.records[j].segments)
    ensures var y := st.memory;
      Ended(st, l, j).memory.taken == y.taken - FramesIn(y.m, l, PagesOf(st.records[j].segments))
  {
    hide FreeProgram, FramesIn, PagesOf, Linked, Sound, Frames, Reserved;
    FreeProgramIs(st.memory.m, l, st.memory.taken, st.records[j].segments);
  }

  lemma EndHarmless(st: Store, l: Kernel, j: nat)
    requires Kept(st, l) && Running(st, j) && Program(st.records[j].segments) && HurtsNone(st, l, j)
    ensures Kept(Ended(st, l, j), l)
  {
    hide Consistent, RecordKept, BlocksKept, PagesKept, FreeProgram, Program, FramesIn, PagesOf, TableFramesOf;
    KeptRecord(st, l, j);
    EndTakes(st, l, j);
    var st' := Ended(st, l, j);
    StillConsistent(st.memory, l, FramesIn(st.memory.m, l, PagesOf(st.records[j].segments)));
    forall i | 0 <= i < |st.records|
      ensures RecordKept(st', l, st'.records[i])
      ensures !st'.records[i].ended ==> BlocksKept(st', l, st'.records[i]) && PagesKept(st', l, i)
    {
      KeptRecord(st, l, i);
      if i != j { OtherEnded(st, l, j, i); } else { SelfEnded(st, l, j); }
    }
    forall a, b | 0 <= a < b < |st'.records| ensures Apart(st'.records[a], st'.records[b]) {
      assert Apart(st.records[a], st.records[b]);
    }
  }

  lemma EndHarmful(st: Store, l: Kernel, j: nat)
    requires Kept(st, l) && Running(st, j) && Program(st.records[j].segments) && Kept(Ended(st, l, j), l)
    ensures HurtsNone(st, l, j)
  {
    hide Consistent, RecordKept, PagesKept, FreeProgram, Program, PagesOf, TableFramesOf, Apart;
    KeptConsistent(st, l);
    EndTakes(st, l, j);
    var st' := Ended(st, l, j);
    KeptConsistent(st', l);
    forall f | f in FramesIn(st.memory.m, l, PagesOf(st.records[j].segments)) ensures NobodyElses(st, l, j, f) {
      assert f !in st'.memory.taken && f < FRAMES;
      NotTaken(st'.memory, l, f);
      SameTables(st.memory, st'.memory, l);
      forall i | 0 <= i < |st.records| && i != j && !st.records[i].ended ensures f !in st.records[i].blocks {
        assert st'.records[i] == st.records[i];
        KeptRecord(st', l, i);
      }
    }
  }

  lemma NotTaken(y: System, l: Kernel, f: nat)
    requires Consistent(y, l) && f !in y.taken && f < FRAMES
    ensures Loose(l, f) && f !in TableFramesOf(y, l)
  {
    hide Linked, Sound, Frames;
  }

  lemma StillConsistent(y: System, l: Kernel, fs: set<nat>)
    requires Consistent(y, l) && forall f :: f in fs ==> Loose(l, f) && f !in TableFramesOf(y, l)
    ensures Consistent(y.(taken := y.taken - fs), l)
  {
    hide Linked, Sound, Frames;
    forall i | 0 <= i < |y.spaces| ensures Frames(y.m, l, y.spaces[i]) <= y.taken - fs {
      forall f | f in Frames(y.m, l, y.spaces[i]) ensures f in TableFramesOf(y, l) {}
    }
  }

  lemma SelfEnded(st: Store, l: Kernel, j: nat)
    requires j < |st.records| && RecordKept(st, l, st.records[j])
    ensures RecordKept(Ended(st, l, j), l, Ended(st, l, j).records[j])
  {
    hide Program, FreeProgram;
  }

  lemma OtherEnded(st: Store, l: Kernel, j: nat, i: nat)
    requires Kept(st, l) && Running(st, j) && i < |st.records| && i != j && Program(st.records[j].segments)
    requires HurtsNone(st, l, j)
    ensures var st' := Ended(st, l, j); var r := st.records[i];
      RecordKept(st', l, r) && (!r.ended ==> BlocksKept(st', l, r) && PagesKept(st', l, i))
  {
    hide Consistent, FreeProgram, Program, MapsAny, Entry, FrameOf, BlocksNeeded, FramesIn, PagesOf, Apart;
    var st' := Ended(st, l, j);
    var r := st.records[i];
    KeptRecord(st, l, i);
    KeptConsistent(st, l);
    EndTakes(st, l, j);
    SameTables(st.memory, st'.memory, l);
    if !r.ended {
      forall q | q in r.home && q < PAGES ensures PageKept(st', l, i, q) {
        assert PageKept(st, l, i, q);
        SameSegments(st, st', i, q);
      }
    }
  }

  lemma SameTables(y: System, z: System, l: Kernel)
    requires z.spaces == y.spaces
    requires forall i :: 0 <= i < |y.spaces| ==> Frames(z.m, l, y.spaces[i]) == Frames(y.m, l, y.spaces[i])
    ensures TableFramesOf(z, l) == TableFramesOf(y, l)
  {
    hide Frames;
  }

  lemma SameSegments(st: Store, st': Store, j: nat, q: nat)
    requires |st'.records| == |st.records|
    requires forall k :: 0 <= k < |st.records| ==> st'.records[k].segments == st.records[k].segments
    ensures RemappedAt(st', j, q) <==> RemappedAt(st, j, q)
  {
    hide MapsAny;
    if RemappedAt(st, j, q) {
      var k :| j < k < |st.records| && MapsAny(st.records[k].segments, q);
      assert MapsAny(st'.records[k].segments, q);
    }
  }

  // ---- SysMemalloc ----

  lemma GrowKept(st: Store, l: Kernel, j: nat, n: word)
    requires Kept(st, l) && Possible(st, l, Grow(j, n))
    ensures Kept(Step(st, l, Grow(j, n)), l)
  {
    hide Consistent, RecordKept, BlocksKept, PagesKept, Perform, Allowed, SameKernel, WithinFrames, Sound, Reserved;
    var i := st.records[j].space;
    KeptRecord(st, l, j);
    PerformConsistent(st.memory, l, Memalloc(i, n));
    MemallocWithin(st.memory, l, i, n);
    var st' := Step(st, l, Grow(j, n));
    forall k | 0 <= k < |st.records|
      ensures RecordKept(st', l, st'.records[k])
      ensures !st'.records[k].ended ==> BlocksKept(st', l, st'.records[k]) && PagesKept(st', l, k)
    {
      KeptRecord(st, l, k);
      GrownRecord(st, st', l, k);
    }
  }

  lemma GrownRecord(st: Store, st': Store, l: Kernel, k: nat)
    requires k < |st.records| && st'.records == st.records && st'.memory.spaces == st.memory.spaces
    requires SameKernel(st.memory.m, st'.memory.m, l) && st.memory.taken <= st'.memory.taken
    requires RecordKept(st, l, st.records[k])
    ensures RecordKept(st', l, st.records[k])
    ensures BlocksKept(st, l, st.records[k]) ==> BlocksKept(st', l, st.records[k])
    ensures PagesKept(st, l, k) ==> PagesKept(st', l, k)
  {
    hide Program, MapsAny, Entry, Frames, BlocksNeeded;
    var (m, m') := (st.memory.m, st'.memory.m);
    KernelSame(m, m', l);
    forall i | 0 <= i < |st.memory.spaces|
      ensures Frames(m', l, st.memory.spaces[i]) == Frames(m, l, st.memory.spaces[i])
    {
      SameKernelFrames(m, m', l, st.memory.spaces[i]);
    }
    SameTables(st.memory, st'.memory, l);
    if PagesKept(st, l, k) {
      forall q | q in st.records[k].home && q < PAGES ensures PageKept(st', l, k, q) {
        assert PageKept(st, l, k, q);
        SameSegments(st, st', k, q);
      }
    }
  }

  // ---- Runs ----

  /** A program ends only while that hurts nobody. */
  ghost predicate Orderly(st: Store, l: Kernel, e: Event)
  {
    e.End? && e.j < |st.records| ==> HurtsNone(st, l, e.j)
  }

  lemma StepKept(st: Store, l: Kernel, e: Event)
    requires Kept(st, l) && Possible(st, l, e)
    ensures Kept(Step(st, l, e), l) <==> Orderly(st, l, e)
  {
    hide Consistent, RecordKept, BlocksKept, PagesKept, Perform, Allowed, Ended, LoadElf, HurtsNone;
    match e
    case Launch(gs) => LaunchKept(st, l, gs);
    case End(j) => EndKept(st, l, j);
    case Grow(j, n) => GrowKept(st, l, j, n);
  }

  ghost predicate OrderlyRun(st: Store, l: Kernel, es: seq<Event>)
    requires Kept(st, l)
    decreases es
  {
    es == [] || (
      Possible(st, l, es[0]) && Orderly(st, l, es[0])
      && (StepKept(st, l, es[0]); OrderlyRun(Step(st, l, es[0]), l, es[1..])))
  }

  ghost function Run(st: Store, l: Kernel, es: seq<Event>): (r: Store)
    requires Kept(st, l) && OrderlyRun(st, l, es)
    ensures Kept(r, l)
    decreases es
  {
    if es == [] then st else StepKept(st, l, es[0]); Run(Step(st, l, es[0]), l, es[1..])
  }

  /** Conservation over runs: launches, SysMemalloc calls and ends in any order, as long as every end hurt nobody.
      Every program still running can give back exactly its own blocks if and only if it maps no page twice and no later
      one has mapped a page of it. */
  lemma RunGivesBack(st: Store, l: Kernel, es: seq<Event>, j: nat)
    requires Kept(st, l) && OrderlyRun(st, l, es)
    ensures var r := Run(st, l, es);
      Running(r, j) ==>
        var (y, p) := (r.memory, r.records[j]);
        |p.blocks| == BlocksNeeded(p.segments) && p.blocks <= y.taken && Program(p.segments)
        && (FreeProgram(y.m, l, y.taken, p.segments) == y.taken - p.blocks
            <==> !Remapped(r, j) && Separate(p.segments))
  {
    hide Kept, Run, OrderlyRun, FreeProgram, Remapped;
    var r := Run(st, l, es);
    if Running(r, j) {
      RunningRecord(r, l, j);
      EndGivesBack(r, l, j);
    }
  }

  /** Where runs begin: no program, no space. */
  lemma EmptyKept(m: Memory, l: Kernel, taken: set<nat>)
    requires Linked(m, l) && Reserved(taken, l)
    ensures Kept(Store(System(m, taken, []), []), l)
  {}
}
