/** memcpy_optimized and the two block loops under it (sse2.cpp, sse2.asm). */
module BlockCopy {
  import opened Bits

  const BLOCK := 16

  /** A stretch of memory: its first address and its bytes. */
  class Buffer {
    const base: word
    const bytes: array<byte>

    constructor (base: word, size: nat)
      requires base + size <= WORD
      ensures this.base == base && fresh(bytes) && bytes.Length == size
    {
      this.base := base;
      bytes := new byte[size];
    }

    predicate Valid() { base + bytes.Length <= WORD }
  }

  /** a with the bytes from position at on replaced. */
  function Overwritten(a: seq<byte>, at: nat, bytes: seq<byte>): (r: seq<byte>)
    requires at + |bytes| <= |a|
    ensures |r| == |a|
    ensures forall i :: 0 <= i < |r| ==> r[i] == if at <= i < at + |bytes| then bytes[i - at] else a[i]
  {
    a[..at] + bytes + a[at + |bytes|..]
  }

  lemma OverwrittenOn(a: seq<byte>, at: nat, b: seq<byte>, x: nat, y: nat, z: nat)
    requires x <= y <= z <= |b| && at + z - x <= |a|
    ensures Overwritten(Overwritten(a, at, b[x..y]), at + y - x, b[y..z]) == Overwritten(a, at, b[x..z])
  {}

  lemma OverwrittenNothing(a: seq<byte>, at: nat)
    requires at <= |a|
    ensures Overwritten(a, at, []) == a
  {}

  /** How often the loop instruction runs its body: it decrements first and tests afterwards, so zero is
      2^32 times. */
  function Rounds(count: word): nat { if count == 0 then WORD else count }

  /** Bytes available behind both positions. */
  function Room(dest: Buffer, d: nat, src: Buffer, s: nat): int
  {
    var a, b := dest.bytes.Length - d, src.bytes.Length - s;
    if a < b then a else b
  }

  /** memcpy_sse2 and memcpy_sse_unaligned. The loop runs until ecx is zero again or an access leaves the
      buffers; done is the number of blocks copied. */
  method CopyBlocks(dest: Buffer, d: nat, src: Buffer, s: nat, count: word, aligned: bool) returns (ok: bool, done: nat)
    requires dest.bytes != src.bytes && dest.Valid() && src.Valid()
    requires d <= dest.bytes.Length && s <= src.bytes.Length
    // movdqa faults on an address that is no multiple of 16
    requires aligned ==> (dest.base + d) % BLOCK == 0 && (src.base + s) % BLOCK == 0
    modifies dest.bytes
    ensures ok <==> Rounds(count) * BLOCK <= Room(dest, d, src, s)
    ensures if ok then done == Rounds(count) else done < Rounds(count) && Room(dest, d, src, s) < (done + 1) * BLOCK
    ensures d + done * BLOCK <= dest.bytes.Length && s + done * BLOCK <= src.bytes.Length
    ensures dest.bytes[..] == Overwritten(old(dest.bytes[..]), d, src.bytes[..][s..s + done * BLOCK])
  {
    hide Overwritten;
    var eax: nat, ebx: nat, ecx: word := d, s, count;
    done := 0;
    ghost var was, source := dest.bytes[..], src.bytes[..];
    assert source[s..s] == [];
    OverwrittenNothing(was, d);
    while true
      invariant eax == d + done * BLOCK <= dest.bytes.Length && ebx == s + done * BLOCK <= src.bytes.Length
      invariant done < Rounds(count) && ecx == if done == 0 then count else Rounds(count) - done
      invariant src.bytes[..] == source && dest.bytes[..] == Overwritten(was, d, source[s..ebx])
      decreases Rounds(count) - done
    {
      if eax + BLOCK > dest.bytes.Length || ebx + BLOCK > src.bytes.Length {
        return false, done;
      }
      CopyBlock(dest, eax, src, ebx);
      OverwrittenOn(was, d, source, s, ebx, ebx + BLOCK);
      eax, ebx, done := eax + BLOCK, ebx + BLOCK, done + 1;
      ecx := if ecx == 0 then WORD - 1 else ecx - 1;
      if ecx == 0 {
        return true, done;
      }
    }
  }

  /** One movdqa or movdqu pair: sixteen bytes through a register. */
  method CopyBlock(dest: Buffer, d: nat, src: Buffer, s: nat)
    requires dest.bytes != src.bytes && d + BLOCK <= dest.bytes.Length && s + BLOCK <= src.bytes.Length
    modifies dest.bytes
    ensures dest.bytes[..] == Overwritten(old(dest.bytes[..]), d, src.bytes[..][s..s + BLOCK])
  {
    Memcpy(dest, d, src, s, BLOCK);
  }

  /** Byte by byte. */
  method Memcpy(dest: Buffer, d: nat, src: Buffer, s: nat, count: nat)
    requires dest.bytes != src.bytes && d + count <= dest.bytes.Length && s + count <= src.bytes.Length
    modifies dest.bytes
    ensures dest.bytes[..] == Overwritten(old(dest.bytes[..]), d, src.bytes[..][s..s + count])
  {
    var i := 0;
    while i < count
      invariant 0 <= i <= count
      invariant forall j :: 0 <= j < dest.bytes.Length ==>
        dest.bytes[j] == if d <= j < d + i then src.bytes[s + j - d] else old(dest.bytes[j])
    {
      dest.bytes[d + i] := src.bytes[s + i];
      i := i + 1;
    }
  }

  /** How the block loop ends for count bytes with this much room: it asks for no block only when there are fewer than
      16 bytes, and then the 2^32 rounds never fit. */
  lemma BlocksDone(count: word, room: nat, ok: bool, done: nat)
    requires count <= room <= WORD && (ok <==> Rounds((count - count % BLOCK) / BLOCK) * BLOCK <= room)
    requires if ok then done == Rounds((count - count % BLOCK) / BLOCK) else done * BLOCK <= room < (done + 1) * BLOCK
    ensures ok <==> count >= BLOCK
    ensures done * BLOCK == if ok then count - count % BLOCK else room / BLOCK * BLOCK
  {}

  /** The block copy equals a byte copy exactly when there is at least one whole block. For fewer than 16
      bytes the block loop overwrites whatever fits into the buffers and never gets to the tail. */
  method MemcpyOptimized(dest: Buffer, d: nat, src: Buffer, s: nat, count: word) returns (ok: bool)
    requires dest.bytes != src.bytes && dest.Valid() && src.Valid()
    requires d + count <= dest.bytes.Length && s + count <= src.bytes.Length
    modifies dest.bytes
    ensures ok <==> count >= BLOCK
    ensures ok ==> dest.bytes[..] == Overwritten(old(dest.bytes[..]), d, src.bytes[..][s..s + count])
    ensures var wild := Room(dest, d, src, s) / BLOCK * BLOCK;
      !ok ==> dest.bytes[..] == Overwritten(old(dest.bytes[..]), d, src.bytes[..][s..s + wild])
  {
    hide Overwritten, Rounds;
    ghost var was, source, room := dest.bytes[..], src.bytes[..], Room(dest, d, src, s);
    var overflow: nat := count % BLOCK;
    var sizeAligned: nat := count - overflow;
    var done: nat;
    var unaligned := (dest.base + d) % BLOCK != 0 || (src.base + s) % BLOCK != 0;
    ok, done := CopyBlocks(dest, d, src, s, sizeAligned / BLOCK, !unaligned);
    BlocksDone(count, room, ok, done);
    if ok && overflow > 0 {
      Memcpy(dest, d + sizeAligned, src, s + sizeAligned, overflow);
      OverwrittenOn(was, d, source, s, s + sizeAligned, s + count);
    }
    assert src.bytes[..] == source;
  }
}
