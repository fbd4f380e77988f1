/** The bitmap of physical memory blocks (pyhsicalallocator.cpp): one bit a 4 KiB block. */
module PhysicalAllocator {
  import opened Bits

  const BITMAP_DWORDS := 32768
  const BLOCKS := 0x10_0000
  const BLOCK_SIZE := 4096

  type Bitmap = b: seq<word> | |b| == BITMAP_DWORDS ghost witness seq(BITMAP_DWORDS, _ => 0)

  predicate Set(b: Bitmap, i: nat)
    requires i < BLOCKS
  {
    Bit(b[i / 32], i % 32)
  }

  /** The blocks whose bit is set. */
  ghost function Taken(b: Bitmap): set<nat>
  {
    set i: nat | i < BLOCKS && Set(b, i)
  }

  /** The least block at or above i that is not taken; BLOCKS when there is none. */
  function LeastFree(taken: set<nat>, i: nat): (r: nat)
    requires i <= BLOCKS
    ensures i <= r <= BLOCKS
    ensures forall k :: i <= k < r ==> k in taken
    ensures r < BLOCKS ==> r !in taken
    decreases BLOCKS - i, taken
  {
    if i == BLOCKS || i !in taken then i else LeastFree(taken, i + 1)
  }

  /** The block search: the least clear bit of the whole bitmap, and 0 when every bit is set. */
  function FirstFree(taken: set<nat>): (r: nat)
    ensures r < BLOCKS
    ensures r in taken <==> forall k :: 0 <= k < BLOCKS ==> k in taken
    ensures forall k :: 0 <= k < r ==> k in taken
  {
    var r := LeastFree(taken, 0);
    if r == BLOCKS then 0 else r
  }

  /** One allocation: the block (0 on failure) and the blocks taken afterwards. */
  function AllocateBlock(taken: set<nat>): (r: (nat, set<nat>))
    ensures r.0 < BLOCKS
    ensures r.0 != 0 ==> r.0 !in taken && r.1 == taken + {r.0}
    ensures r.0 == 0 ==> r.1 == taken
  {
    var i := FirstFree(taken);
    if i == 0 then (0, taken) else (i, taken + {i})
  }

  /** An allocation fails exactly when every block is taken or the reserved block 0 is marked free. */
  lemma AllocationFails(taken: set<nat>)
    ensures AllocateBlock(taken).0 == 0 <==> 0 !in taken || forall k :: 0 <= k < BLOCKS ==> k in taken
  {
    assert 0 < BLOCKS;
  }

  /** Freeing block 0 makes every later allocation fail, however many blocks are free. */
  lemma FreeingBlockZeroStopsAllocation(taken: set<nat>)
    ensures AllocateBlock(taken - {0}) == (0, taken - {0})
  {
    var t := taken - {0};
    LeastFreeIs(t, 0);
  }

  /** The bitmap and the set of its taken blocks determine each other. */
  lemma TakenDeterminesBitmap(a: Bitmap, b: Bitmap)
    requires Taken(a) == Taken(b)
    ensures a == b
  {
    Pow2Word();
    forall d | 0 <= d < BITMAP_DWORDS ensures a[d] == b[d] {
      forall j | 0 <= j < 32 ensures Bit(a[d], j) == Bit(b[d], j) {
        var i := d * 32 + j;
        assert i / 32 == d && i % 32 == j;
        assert Set(a, i) <==> i in Taken(a);
        assert Set(b, i) <==> i in Taken(b);
      }
      SameBits(a[d], b[d], 32);
    }
  }

  /** How far the usage counter is from the number of taken blocks, as a 32-bit difference. */
  ghost function Drift(used: word, taken: set<nat>): int { (used - |taken|) % WORD }

  class Allocator {
    const bitmap: array<word>
    var usedBlocks: word

    ghost predicate Valid()
      reads this
    {
      bitmap.Length == BITMAP_DWORDS
    }

    ghost function Blocks(): set<nat>
      requires Valid()
      reads this, bitmap
    {
      Taken(bitmap[..])
    }

    ghost function CounterDrift(): int
      requires Valid()
      reads this, bitmap
    {
      Drift(usedBlocks, Blocks())
    }

    method BitSet(bit: nat)
      requires Valid() && bit < BLOCKS
      modifies bitmap
      ensures Blocks() == old(Blocks()) + {bit}
    {
      Pow2Less(bit % 32, 32); Pow2Word();
      var d := bit / 32;
      OrBound(bitmap[d], Pow2(bit % 32), 32);
      ghost var before := bitmap[..];
      bitmap[d] := Or(bitmap[d], Pow2(bit % 32));
      forall i | 0 <= i < BLOCKS ensures Set(bitmap[..], i) <==> i == bit || Set(before, i) {
        if i / 32 == d {
          OrBit(before[d], Pow2(bit % 32), i % 32);
          Pow2Bit(bit % 32, i % 32);
        }
      }
    }

    method BitClear(bit: nat)
      requires Valid() && bit < BLOCKS
      modifies bitmap
      ensures Blocks() == old(Blocks()) - {bit}
    {
      Pow2Less(bit % 32, 32); Pow2Word();
      var d := bit / 32;
      var mask := Complement(Pow2(bit % 32));
      AndBound(bitmap[d], mask);
      ghost var before := bitmap[..];
      bitmap[d] := And(bitmap[d], mask);
      forall i | 0 <= i < BLOCKS ensures Set(bitmap[..], i) <==> i != bit && Set(before, i) {
        if i / 32 == d {
          AndBit(before[d], mask, i % 32);
          FlipBit(Pow2(bit % 32), 32, i % 32);
          Pow2Bit(bit % 32, i % 32);
        }
      }
    }

    /** Skips full dwords, then scans the bits of the first dword that is not full. */
    method GetFirstFreeMemoryBlock() returns (index: nat)
      requires Valid()
      ensures index == FirstFree(Blocks())
    {
      var i := 0;
      while i < BITMAP_DWORDS
        invariant 0 <= i <= BITMAP_DWORDS
        invariant forall k :: 0 <= k < i * 32 ==> k in Blocks()
      {
        if bitmap[i] != 0xFFFF_FFFF {
          var j := 0;
          while j < 32
            invariant 0 <= j <= 32
            invariant forall k :: 0 <= k < i * 32 + j ==> k in Blocks()
            invariant forall k :: 0 <= k < j ==> Bit(bitmap[i], k)
          {
            AndOneBit(bitmap[i], j);
            if And(bitmap[i], Pow2(j)) == 0 {
              LeastFreeIs(Blocks(), i * 32 + j);
              return i * 32 + j;
            }
            assert Set(bitmap[..], i * 32 + j);
            j := j + 1;
          }
          Pow2Word();
          AllBitsSet(bitmap[i], 32);
        } else {
          FullDword(bitmap[..], i);
        }
        i := i + 1;
      }
      return 0;
    }

    method AllocatePhysicalMemoryBlock() returns (addr: word)
      requires Valid()
      modifies this`usedBlocks, bitmap
      ensures Valid()
      ensures addr == AllocateBlock(old(Blocks())).0 * BLOCK_SIZE
      ensures Blocks() == AllocateBlock(old(Blocks())).1
      ensures usedBlocks == if addr == 0 then old(usedBlocks) else (old(usedBlocks) + 1) % WORD
      ensures CounterDrift() == old(CounterDrift())
    {
      StepKeepsDrift(Ledger(Blocks(), usedBlocks, {}), Allocate);
      var index := GetFirstFreeMemoryBlock();
      if index == 0 { return 0; }
      BitSet(index);
      usedBlocks := (usedBlocks + 1) % WORD;
      return index * BLOCK_SIZE;
    }

    method FreePhysicalMemoryBlock(addr: word)
      requires Valid()
      modifies this`usedBlocks, bitmap
      ensures Valid()
      ensures Blocks() == old(Blocks()) - {addr / BLOCK_SIZE}
      ensures usedBlocks == (old(usedBlocks) - 1) % WORD
    {
      var index := addr / BLOCK_SIZE;
      BitClear(index);
      usedBlocks := (usedBlocks - 1) % WORD;
    }
  }

  lemma LeastFreeIs(taken: set<nat>, i: nat)
    requires i < BLOCKS && i !in taken
    requires forall k :: 0 <= k < i ==> k in taken
    ensures FirstFree(taken) == i
  {}

  lemma FullDword(b: Bitmap, d: nat)
    requires d < BITMAP_DWORDS && b[d] == 0xFFFF_FFFF
    ensures forall k :: d * 32 <= k < d * 32 + 32 ==> k in Taken(b)
  {
    Pow2Word();
    forall k | d * 32 <= k < d * 32 + 32 ensures k in Taken(b) {
      FlipBit(0, 32, k % 32);
      ZeroBit(k % 32);
      assert Set(b, k);
    }
  }

  // ---- Runs of allocations and frees ----

  datatype Request = Allocate | Free(addr: word)

  /** The allocator's state with the blocks handed out and not yet given back. */
  datatype Ledger = Ledger(taken: set<nat>, used: word, held: set<nat>)

  function Step(l: Ledger, r: Request): Ledger
  {
    match r
    case Allocate =>
      var (b, t) := AllocateBlock(l.taken);
      if b == 0 then l else Ledger(t, (l.used + 1) % WORD, l.held + {b})
    case Free(addr) =>
      Ledger(l.taken - {addr / BLOCK_SIZE}, (l.used - 1) % WORD, l.held - {addr / BLOCK_SIZE})
  }

  function Run(l: Ledger, rs: seq<Request>): Ledger
    decreases rs
  {
    if rs == [] then l else Run(Step(l, rs[0]), rs[1..])
  }

  /** Only blocks that are held are given back. */
  predicate FreesOnlyHeld(l: Ledger, rs: seq<Request>)
    decreases rs
  {
    rs == [] ||
    ((rs[0].Free? ==> rs[0].addr / BLOCK_SIZE in l.held) && FreesOnlyHeld(Step(l, rs[0]), rs[1..]))
  }

  /** The blocks handed out are apart from the ones reserved at the start. */
  predicate Accounted(l: Ledger, reserved: set<nat>)
  {
    0 in reserved && reserved !! l.held && l.taken == reserved + l.held
    && forall b :: b in l.held ==> b < BLOCKS
  }

  /** Over every run that frees only held blocks: the reserved blocks stay taken, exactly the held
      blocks are taken besides, and the usage counter tracks the number of taken blocks. */
  lemma {:induction false} RunKeepsAccounts(l: Ledger, rs: seq<Request>, reserved: set<nat>)
    requires Accounted(l, reserved) && FreesOnlyHeld(l, rs)
    ensures Accounted(Run(l, rs), reserved)
    ensures Drift(Run(l, rs).used, Run(l, rs).taken) == Drift(l.used, l.taken)
    decreases rs
  {
    if rs != [] {
      StepKeepsAccounts(l, rs[0], reserved);
      StepKeepsDrift(l, rs[0]);
      RunKeepsAccounts(Step(l, rs[0]), rs[1..], reserved);
    }
  }

  lemma StepKeepsAccounts(l: Ledger, r: Request, reserved: set<nat>)
    requires Accounted(l, reserved)
    requires r.Free? ==> r.addr / BLOCK_SIZE in l.held
    ensures Accounted(Step(l, r), reserved)
  {}

  lemma StepKeepsDrift(l: Ledger, r: Request)
    requires r.Free? ==> r.addr / BLOCK_SIZE in l.taken
    ensures Drift(Step(l, r).used, Step(l, r).taken) == Drift(l.used, l.taken)
  {
    match r
    case Allocate =>
      ModShift(l.used, |l.taken|, 1);
    case Free(addr) =>
      CardinalityMinus(l.taken, addr / BLOCK_SIZE);
      ModShift(l.used, |l.taken|, -1);
  }

  lemma CardinalityMinus(s: set<nat>, b: nat)
    requires b in s
    ensures |s - {b}| == |s| - 1
  {}

  lemma ModShift(u: int, c: int, d: int)
    ensures ((u + d) % WORD - (c + d)) % WORD == (u - c) % WORD
  {
    var q := (u + d) / WORD;
    assert (u + d) % WORD == u + d - WORD * q;
    ModMultiple(u - c, q);
  }

  lemma ModMultiple(x: int, q: int)
    ensures (x - WORD * q) % WORD == x % WORD
  {
    var k := x / WORD;
    assert x == WORD * k + x % WORD;
    assert x - WORD * q == WORD * (k - q) + x % WORD;
  }

  /** An allocation after any such run hands out a block nobody holds, at a nonzero page-aligned
      address of at most 2^32 - 4096; freeing it restores the bitmap. It fails only when memory is full. */
  lemma AllocateAfterRun(l: Ledger, rs: seq<Request>, reserved: set<nat>)
    requires Accounted(l, reserved) && FreesOnlyHeld(l, rs)
    ensures var s := Run(l, rs); var b := AllocateBlock(s.taken).0;
      if b == 0 then forall k :: 0 <= k < BLOCKS ==> k in s.taken
      else b !in s.held && b !in reserved && 0 < b * BLOCK_SIZE <= WORD - BLOCK_SIZE
           && Step(Step(s, Allocate), Free(b * BLOCK_SIZE)) == s
  {
    RunKeepsAccounts(l, rs, reserved);
    var s := Run(l, rs);
    AllocationFails(s.taken);
    AllocateThenFree(s, reserved);
  }

  lemma AllocateThenFree(s: Ledger, reserved: set<nat>)
    requires Accounted(s, reserved)
    ensures var b := AllocateBlock(s.taken).0;
      b != 0 ==> b * BLOCK_SIZE < WORD && Step(Step(s, Allocate), Free(b * BLOCK_SIZE)) == s
  {
    var b := AllocateBlock(s.taken).0;
    if b != 0 {
      var addr: word := b * BLOCK_SIZE;
      assert addr / BLOCK_SIZE == b;
      assert s.taken + {b} - {b} == s.taken;
      assert s.held + {b} - {b} == s.held;
      UsedRestored(s.used);
    }
  }

  lemma UsedRestored(u: word)
    ensures ((u + 1) % WORD - 1) % WORD == u
  {}
}
