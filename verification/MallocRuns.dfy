/** Runs of SysMemalloc in the memory of one process. */
module MallocRuns {
  import opened Bits
  import opened Options
  import opened PageEntry
  import opened PhysicalMemory
  import opened Paging
  import opened RunAllocator
  import opened AddressSpace
  import opened CreateSpace
  import opened ProcessAllocator
  import E = ElfLoader
  import G = ProgramImages
  import I = Isolation
  import P = ProgramPages

  /** One call that returned: its range, and memory and taken blocks afterwards. */
  datatype Call = Call(first: nat, count: nat, m: Memory, taken: set<nat>)

  /** The calls for these amounts, up to the first that does not return. */
  function Calls(m: Memory, l: Kernel, s: Process, taken: set<nat>, ns: seq<word>): seq<Call>
    decreases ns
  {
    if ns == [] then []
    else
      match Malloc(m, l, s, taken, ns[0])
      case None => []
      case Some((p, m1, t1)) => [Call(p, ns[0], m1, t1)] + Calls(m1, l, s, t1, ns[1..])
  }

  function Total(ns: seq<word>): nat { if ns == [] then 0 else ns[0] + Total(ns[1..]) }

  predicate Sized(ns: seq<word>) { forall i :: 0 <= i < |ns| ==> 0 < ns[i] < WORD - 2 }

  function PagesIn(c: Call): set<nat> { PageRange(c.first, c.count) }

  /** Page q is what it was in m in the memory that every call leaves. */
  ghost predicate Untouched(m: Memory, cs: seq<Call>, l: Kernel, s: Process, q: nat)
    requires q < KERNEL_PAGE
  {
    forall i :: 0 <= i < |cs| ==> UserEntry(cs[i].m, l, s, q) == UserEntry(m, l, s, q)
  }

  ghost predicate Misses(cs: seq<Call>, claimed: set<nat>) { forall i :: 0 <= i < |cs| ==> PagesIn(cs[i]) !! claimed }

  ghost predicate Disjoint(cs: seq<Call>)
  {
    forall i, j :: 0 <= i < j < |cs| ==> PagesIn(cs[i]) !! PagesIn(cs[j])
  }

  /** Each page of a range returned is present, on a block that this call took, and stays on it. */
  ghost predicate Settled(cs: seq<Call>, l: Kernel, s: Process, taken: set<nat>, i: nat, j: nat, q: nat)
    requires i <= j < |cs| && q < KERNEL_PAGE
  {
    var e := UserEntry(cs[j].m, l, s, q);
    Present(e) && HardwareFrame(e) in cs[i].taken && HardwareFrame(e) !in (if i == 0 then taken else cs[i - 1].taken)
  }

  ghost predicate AllSettled(cs: seq<Call>, l: Kernel, s: Process, taken: set<nat>)
  {
    (forall i, q :: 0 <= i < |cs| && q in PagesIn(cs[i]) ==> q < KERNEL_PAGE)
    && (forall i, j, q :: 0 <= i <= j < |cs| && q < KERNEL_PAGE && q in PagesIn(cs[i]) ==>
        Settled(cs, l, s, taken, i, j, q))
  }

  ghost predicate AllSound(cs: seq<Call>, l: Kernel, s: Process) { forall i :: 0 <= i < |cs| ==> Sound(cs[i].m, l, s) }

  /** One call: what the next one starts from. */
  lemma FirstCall(m: Memory, l: Kernel, s: Process, taken: set<nat>, n: word, claimed: set<nat>)
    requires Sound(m, l, s) && Reserved(taken, l) && Seeded(m, l, s) && 0 < n <= |FreeBlocks(taken)| && n + 2 < WORD
    requires Padded(UserMap(UserPresence(m, l, s), claimed)) && Malloc(m, l, s, taken, n).Some?
    ensures var (p, m1, t1) := Malloc(m, l, s, taken, n).value;
      Sound(m1, l, s) && Reserved(t1, l) && Seeded(m1, l, s) && |FreeBlocks(t1)| == |FreeBlocks(taken)| - n
      && taken <= t1
      && PageRange(p, n) !! claimed && Padded(UserMap(UserPresence(m1, l, s), claimed + PageRange(p, n)))
  {
    hide Sound, Reserved, FreeBlocks, Malloc, UserEntry, SameKernel, WithinFrames, Aimed, ClaimStart;
    var u := UserMap(UserPresence(m, l, s), claimed);
    assert u.present[0];
    UserRunIs(u.present, n);
    MallocIs(m, l, s, taken, n, 0, 0);
    MallocIsClaim(m, l, s, taken, n, claimed);
    assert !FreeRun(u.present, 0, n + 2);
    ClaimAfterPresent(u, n);
    ServeKeepsPadded(u, Claim(n));
    ServeKeepsOwned(u, Claim(n));
    SeededIs(m, l, s);
    SeededIs(Malloc(m, l, s, taken, n).value.1, l, s);
  }

  lemma SeededIs(m: Memory, l: Kernel, s: Process)
    ensures Seeded(m, l, s) <==> UserPresence(m, l, s)[0]
  {}

  lemma OwnedBelow(m: Memory, l: Kernel, s: Process, claimed: set<nat>)
    requires Padded(UserMap(UserPresence(m, l, s), claimed))
    ensures forall q :: q in claimed ==> q < KERNEL_PAGE
  {}

  /** Where the first call leaves its own pages and the claimed ones. */
  ghost predicate Starts(m: Memory, c: Call, l: Kernel, s: Process, taken: set<nat>, claimed: set<nat>)
  {
    Sound(c.m, l, s) && PagesIn(c) !! claimed
    && (forall q :: q in PagesIn(c) ==> q < KERNEL_PAGE && OnNewBlock(c, l, s, taken, q))
    && (forall q :: q in claimed ==> q < KERNEL_PAGE && UserEntry(c.m, l, s, q) == UserEntry(m, l, s, q))
  }

  ghost predicate OnNewBlock(c: Call, l: Kernel, s: Process, taken: set<nat>, q: nat)
    requires q < KERNEL_PAGE
  {
    var e := UserEntry(c.m, l, s, q);
    Present(e) && HardwareFrame(e) in c.taken && HardwareFrame(e) !in taken
  }

  lemma FirstStarts(m: Memory, l: Kernel, s: Process, taken: set<nat>, n: word, claimed: set<nat>)
    requires Sound(m, l, s) && Reserved(taken, l) && Seeded(m, l, s) && 0 < n <= |FreeBlocks(taken)| && n + 2 < WORD
    requires Padded(UserMap(UserPresence(m, l, s), claimed)) && Malloc(m, l, s, taken, n).Some?
    ensures var (p, m1, t1) := Malloc(m, l, s, taken, n).value; Starts(m, Call(p, n, m1, t1), l, s, taken, claimed)
  {
    hide Sound, Reserved, FreeBlocks, Malloc, UserEntry, SameKernel, WithinFrames, Aimed, ClaimStart, UserPresence,
      Seeded;
    FirstCall(m, l, s, taken, n, claimed);
    MallocIs(m, l, s, taken, n, 0, 0);
    var (p, m1, t1) := Malloc(m, l, s, taken, n).value;
    OwnedBelow(m, l, s, claimed);
    forall q | q in PagesIn(Call(p, n, m1, t1))
      ensures q < KERNEL_PAGE && OnNewBlock(Call(p, n, m1, t1), l, s, taken, q)
    {
      MallocIs(m, l, s, taken, n, q, 0);
    }
    MallocPages(m, l, s, n);
    ClaimAfterSeed(m, l, s, n, claimed);
    forall q | q in claimed
      ensures UserEntry(m1, l, s, q) == UserEntry(m, l, s, q)
    {
      MallocIs(m, l, s, taken, n, q, 0);
    }
  }

  /** The padding of a claim is nobody's. */
  lemma ClaimAfterSeed(m: Memory, l: Kernel, s: Process, n: word, claimed: set<nat>)
    requires Seeded(m, l, s) && n + 2 < WORD && Padded(UserMap(UserPresence(m, l, s), claimed))
    requires ClaimStart(UserPresence(m, l, s), n).Some?
    ensures PageRange(ClaimStart(UserPresence(m, l, s), n).value, n + 2) !! claimed
  {
    hide UserEntry, ClaimStart, UserRun;
    var u := UserMap(UserPresence(m, l, s), claimed);
    SeededIs(m, l, s);
    assert !FreeRun(u.present, 0, n + 2);
    UserRunIs(u.present, n);
    ClaimAfterPresent(u, n);
    var p := ClaimStart(u.present, n).value;
    assert u.present[p] && !u.present[p + 1];
    forall q | q in PageRange(p, n + 2) ensures q !in claimed { assert q == p || !u.present[q]; }
  }

  lemma AddCall(m: Memory, l: Kernel, s: Process, taken: set<nat>, c: Call, rest: seq<Call>, claimed: set<nat>)
    requires Starts(m, c, l, s, taken, claimed)
    requires Misses(rest, claimed + PagesIn(c)) && Disjoint(rest) && AllSound(rest, l, s)
    requires AllSettled(rest, l, s, c.taken)
    requires forall q :: q in claimed + PagesIn(c) ==> q < KERNEL_PAGE && Untouched(c.m, rest, l, s, q)
    ensures var cs := [c] + rest;
      Misses(cs, claimed) && Disjoint(cs) && AllSound(cs, l, s) && AllSettled(cs, l, s, taken)
      && forall q :: q in claimed ==> q < KERNEL_PAGE && Untouched(m, cs, l, s, q)
  {
    hide Sound, UserEntry, PagesIn;
    var cs := [c] + rest;
    assert forall i :: 0 < i < |cs| ==> cs[i] == rest[i - 1];
    forall i, j, q | 0 <= i <= j < |cs| && q < KERNEL_PAGE && q in PagesIn(cs[i])
      ensures Settled(cs, l, s, taken, i, j, q)
    {
      if i > 0 {
        assert Settled(rest, l, s, c.taken, i - 1, j - 1, q);
      } else {
        assert OnNewBlock(c, l, s, taken, q) && Untouched(c.m, rest, l, s, q);
        if j > 0 { assert UserEntry(rest[j - 1].m, l, s, q) == UserEntry(c.m, l, s, q); }
      }
    }
    assert AllSettled(cs, l, s, taken);
    forall q | q in claimed ensures Untouched(m, cs, l, s, q) {
      forall i | 0 <= i < |cs| ensures UserEntry(cs[i].m, l, s, q) == UserEntry(m, l, s, q) {
        if i > 0 { assert UserEntry(rest[i - 1].m, l, s, q) == UserEntry(c.m, l, s, q); }
      }
    }
  }

  /** Over any run of SysMemalloc calls, from any state in which page 0 is present and the claimed pages are padded:
      every range returned misses the claimed pages and every other range, all spaces stay sound, and every page
      returned keeps the block its own call took for it, as every claimed page keeps what it had. */
  lemma {:induction false} RunOfCalls(m: Memory, l: Kernel, s: Process, taken: set<nat>, ns: seq<word>,
      claimed: set<nat>)
    requires Sound(m, l, s) && Reserved(taken, l) && Seeded(m, l, s) && Sized(ns) && Total(ns) <= |FreeBlocks(taken)|
    requires Padded(UserMap(UserPresence(m, l, s), claimed))
    ensures var cs := Calls(m, l, s, taken, ns);
      Misses(cs, claimed) && Disjoint(cs) && AllSound(cs, l, s) && AllSettled(cs, l, s, taken)
      && forall q :: q in claimed ==> q < KERNEL_PAGE && Untouched(m, cs, l, s, q)
    decreases ns
  {
    hide Sound, Reserved, FreeBlocks, Malloc, UserEntry, UserPresence, Padded, Seeded, Misses, Disjoint, AllSound,
      AllSettled, Starts;
    OwnedBelow(m, l, s, claimed);
    NoCalls(m, l, s, taken, claimed);
    if ns != [] && Malloc(m, l, s, taken, ns[0]).Some? {
      var n := ns[0];
      var (p, m1, t1) := Malloc(m, l, s, taken, n).value;
      FirstCall(m, l, s, taken, n, claimed);
      FirstStarts(m, l, s, taken, n, claimed);
      var claimed1 := claimed + PageRange(p, n);
      RunOfCalls(m1, l, s, t1, ns[1..], claimed1);
      OwnedBelow(m1, l, s, claimed1);
      AddCall(m, l, s, taken, Call(p, n, m1, t1), Calls(m1, l, s, t1, ns[1..]), claimed);
    }
  }

  lemma NoCalls(m: Memory, l: Kernel, s: Process, taken: set<nat>, claimed: set<nat>)
    ensures Misses([], claimed) && Disjoint([]) && AllSound([], l, s) && AllSettled([], l, s, taken)
    ensures forall q :: q in claimed && q < KERNEL_PAGE ==> Untouched(m, [], l, s, q)
  {}

  // ---- Where SysMemalloc meets the loader ----

  /** In terms of which pages are present, loading a segment is a Segment request. */
  lemma LoadSegmentIsServed(m: Memory, l: Kernel, s: Process, taken: set<nat>, g: E.Segment, claimed: set<nat>)
    requires E.UserSegment(g) && 0 < g.memsz && E.Ready(m, l, s, taken) && PageCount(g.memsz) <= |FreeBlocks(taken)|
    ensures UserPresence(E.LoadSegment(m, l, s, taken, g).0, l, s)
            == Serve(UserMap(UserPresence(m, l, s), claimed), Segment(g.vaddr, g.memsz)).present
  {
    hide Sound, Reserved, FreeBlocks, UserEntry, E.LoadSegment, E.LoadPages, E.Ready, E.LeavesTaken, E.LeavesAlone,
      E.Arena, E.ReadVirtual;
    E.LoadSegmentKeeps(m, l, s, taken, g);
    var m1 := E.LoadPages(m, l, s, taken, E.FirstPage(g), PageCount(g.memsz)).0;
    var m' := E.LoadSegment(m, l, s, taken, g).0;
    forall q | 0 <= q < KERNEL_PAGE
      ensures Present(UserEntry(m', l, s, q))
              == (Present(UserEntry(m, l, s, q)) || E.FirstPage(g) <= q < E.FirstPage(g) + PageCount(g.memsz))
    {
      E.LoadPagesIs(m, l, s, taken, E.FirstPage(g), PageCount(g.memsz), q);
    }
  }

  /** The pages in which the bytes of a segment lie are the ones a Segment request claims. */
  lemma BytesClaimed(g: E.Segment, q: nat)
    requires E.UserSegment(g)
    ensures q in PageRange(E.FirstPage(g), BytePages(g.vaddr, g.memsz))
            <==> exists k: nat :: k < g.memsz && ByteIn(g, k, q)
  {
    var n := BytePages(g.vaddr, g.memsz);
    if Within(q, E.FirstPage(g), n) {
      var k: nat := if q == E.FirstPage(g) then 0 else q * PAGE_SIZE - g.vaddr;
      assert ByteIn(g, k, q);
    }
  }

  predicate ByteIn(g: E.Segment, k: nat, q: nat) { (g.vaddr + k) / PAGE_SIZE == q }

  // ---- The first calls of a program ----

  /** While pages 0 to 63 are absent, calls for at most 62 pages return the address 0x40000 one after another, and each
      puts new blocks under the pages of the one before. */
  lemma SmallCallsRepeat(m: Memory, l: Kernel, s: Process, taken: set<nat>, a: word, b: word)
    requires Sound(m, l, s) && Reserved(taken, l) && 0 < a <= 62 && 0 < b <= 62 && a + b <= |FreeBlocks(taken)|
    requires forall q :: 0 <= q < 64 ==> !Present(UserEntry(m, l, s, q))
    ensures Malloc(m, l, s, taken, a).Some?
    ensures var (p1, m1, t1) := Malloc(m, l, s, taken, a).value;
      p1 * 4096 == 0x4_0000 && Malloc(m1, l, s, t1, b).Some?
      && var (p2, m2, t2) := Malloc(m1, l, s, t1, b).value;
      p2 * 4096 == 0x4_0000
      && HardwareFrame(UserEntry(m1, l, s, 64)) in t1 && HardwareFrame(UserEntry(m2, l, s, 64)) !in t1
  {
    hide Sound, Reserved, FreeBlocks, Malloc, UserEntry, WithinFrames, SameKernel, Aimed, ClaimStart, Enabled;
    StartsLow(m, l, s, a);
    MallocIs(m, l, s, taken, a, 64, 0);
    var (_, m1, t1) := Malloc(m, l, s, taken, a).value;
    forall q | 0 <= q < 64 ensures !Present(UserEntry(m1, l, s, q)) { MallocIs(m, l, s, taken, a, q, 0); }
    StartsLow(m1, l, s, b);
    MallocIs(m1, l, s, t1, b, 64, 0);
  }

  lemma StartsLow(m: Memory, l: Kernel, s: Process, n: word)
    requires 0 < n <= 62 && forall q :: 0 <= q < 64 ==> !Present(UserEntry(m, l, s, q))
    ensures ClaimStart(UserPresence(m, l, s), n) == Some(64)
  {
    hide UserEntry;
    UserRunIs(UserPresence(m, l, s), n);
    assert StartsAt(UserPresence(m, l, s), n, 64);
  }

  /** So it is for every program just loaded above page 63, which all usual ones are. */
  lemma FirstCallsOfProgram(y: I.System, l: Kernel, gs: seq<E.Segment>, a: word, b: word)
    requires I.Consistent(y, l) && P.Program(gs)
    requires KERNEL_TABLE + 1 + P.BlocksNeeded(gs) <= |FreeBlocks(y.taken)|
    requires |G.LoadElf(y, l, gs).spaces| != |y.spaces| && forall q :: 0 <= q < 64 ==> !P.MapsAny(gs, q)
    requires 0 < a <= 62 && 0 < b <= 62 && a + b <= |FreeBlocks(G.LoadElf(y, l, gs).taken)|
    ensures var z := G.LoadElf(y, l, gs);
      |z.spaces| == |y.spaces| + 1 && var s := z.spaces[|y.spaces|];
      Malloc(z.m, l, s, z.taken, a).Some?
      && var (p1, m1, t1) := Malloc(z.m, l, s, z.taken, a).value;
      p1 * 4096 == 0x4_0000 && Malloc(m1, l, s, t1, b).Some? && Malloc(m1, l, s, t1, b).value.0 * 4096 == 0x4_0000
  {
    hide I.Consistent, FreeBlocks, G.LoadElf, Malloc, UserEntry, Sound, Reserved, P.MapsAny, P.BlocksNeeded;
    var z := G.LoadElf(y, l, gs);
    G.LoadElfPresence(y, l, gs, 0);
    var s := z.spaces[|y.spaces|];
    G.LoadElfImages(y, l, gs, |gs|, 0, {}, E.Segment(0, 0, []), {});
    I.SoundMember(z, l, |y.spaces|);
    forall q | 0 <= q < 64 ensures !Present(UserEntry(z.m, l, s, q)) { G.LoadElfPresence(y, l, gs, q); }
    SmallCallsRepeat(z.m, l, s, z.taken, a, b);
  }
}
