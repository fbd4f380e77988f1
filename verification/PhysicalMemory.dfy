/** Physical memory as the processor addresses it: 2^20 frames of 1024 little-endian words. */
module PhysicalMemory {
  import opened Bits

  const FRAMES := 0x10_0000
  const FRAME_WORDS := 1024
  const FRAME_BYTES := 4096

  type Frame = s: seq<word> | |s| == FRAME_WORDS ghost witness seq(FRAME_WORDS, _ => 0)
  type Memory = m: seq<Frame> | |m| == FRAMES ghost witness seq<Frame>(FRAMES, _ => ZeroFrame())

  function ZeroFrame(): Frame { seq(FRAME_WORDS, _ => 0) }

  function Put(m: Memory, f: nat, j: nat, v: word): Memory
    requires f < FRAMES && j < FRAME_WORDS
  {
    m[f := m[f][j := v]]
  }

  // ---- Bytes within words ----

  /** Byte k of a word, least significant first. */
  function WordByte(w: nat, k: nat): byte
  {
    if k == 0 then w % 256 else WordByte(w / 256, k - 1)
  }

  /** The word w with byte k replaced by b. */
  function WithByte(w: nat, k: nat, b: byte): nat
  {
    if k == 0 then w / 256 * 256 + b else WithByte(w / 256, k - 1, b) * 256 + w % 256
  }

  lemma {:induction false} WithByteReads(w: nat, k: nat, b: byte, i: nat)
    ensures WordByte(WithByte(w, k, b), i) == if i == k then b else WordByte(w, i)
  {
    if k == 0 {
      Digit(w / 256, b);
    } else {
      Digit(WithByte(w / 256, k - 1, b), w % 256);
      if i > 0 { WithByteReads(w / 256, k - 1, b, i - 1); }
    }
  }

  /** A word is the sum of its four bytes, weighted by the powers of 256. */
  lemma BytesOfWord(w: word)
    ensures WordByte(w, 0) + 0x100 * WordByte(w, 1) + 0x1_0000 * WordByte(w, 2) + 0x100_0000 * WordByte(w, 3) == w
  {
    var a, b, c := w / 0x100, w / 0x100 / 0x100, w / 0x100 / 0x100 / 0x100;
    assert WordByte(w, 1) == WordByte(a, 0) && WordByte(w, 2) == WordByte(a, 1) == WordByte(b, 0);
    assert WordByte(w, 3) == WordByte(a, 2) == WordByte(b, 1) == WordByte(c, 0);
    assert c < 0x100;
  }

  lemma Digit(q: nat, d: byte)
    ensures (q * 256 + d) / 256 == q && (q * 256 + d) % 256 == d
  {}

  lemma WithByteBound(w: nat, k: nat, b: byte)
    requires w < WORD && k < 4
    ensures WithByte(w, k, b) < WORD
  {
    BoundStep(w, k, b, 0x100_0000);
    if k > 0 {
      BoundStep(w / 256, k - 1, b, 0x1_0000);
      if k > 1 {
        BoundStep(w / 256 / 256, k - 2, b, 0x100);
        if k > 2 { BoundStep(w / 256 / 256 / 256, k - 3, b, 1); }
      }
    }
  }

  lemma BoundStep(w: nat, k: nat, b: byte, p: nat)
    requires w < p * 256 && (p == 0x100_0000 || p == 0x1_0000 || p == 0x100 || p == 1)
    ensures k == 0 ==> WithByte(w, k, b) < p * 256
    ensures k > 0 && WithByte(w / 256, k - 1, b) < p ==> WithByte(w, k, b) < p * 256
  {}

  /** The byte at a physical address. */
  function ReadByte(m: Memory, a: nat): byte
    requires a < WORD
  {
    WordByte(m[a / FRAME_BYTES][a % FRAME_BYTES / 4], a % 4)
  }

  function WriteByte(m: Memory, a: nat, b: byte): Memory
    requires a < WORD
  {
    var (f, j) := (a / FRAME_BYTES, a % FRAME_BYTES / 4);
    WithByteBound(m[f][j], a % 4, b);
    Put(m, f, j, WithByte(m[f][j], a % 4, b))
  }

  /** A byte write changes that byte and no other. */
  lemma WriteByteReads(m: Memory, a: nat, b: byte, c: nat)
    requires a < WORD && c < WORD
    ensures ReadByte(WriteByte(m, a, b), c) == if c == a then b else ReadByte(m, c)
  {
    var (f, j) := (a / FRAME_BYTES, a % FRAME_BYTES / 4);
    if c / FRAME_BYTES == f && c % FRAME_BYTES / 4 == j {
      WithByteReads(m[f][j], a % 4, b, c % 4);
      SameAddress(a, c);
    }
  }

  lemma SameAddress(a: nat, c: nat)
    requires a / FRAME_BYTES == c / FRAME_BYTES && a % FRAME_BYTES / 4 == c % FRAME_BYTES / 4
    ensures a % 4 == c % 4 <==> a == c
  {}

  /** The memory cells themselves. */
  class Ram {
    const cells: array2<word>

    ghost predicate Valid()
      reads this
    {
      cells.Length0 == FRAMES && cells.Length1 == FRAME_WORDS
    }

    ghost function FrameAt(f: nat): Frame
      requires Valid() && f < FRAMES
      reads this, cells
    {
      seq(FRAME_WORDS, j requires 0 <= j < FRAME_WORDS reads this, cells requires Valid() => cells[f, j])
    }

    ghost function Contents(): Memory
      requires Valid()
      reads this, cells
    {
      seq(FRAMES, f requires 0 <= f < FRAMES reads this, cells requires Valid() => FrameAt(f))
    }

    method Load(f: nat, j: nat) returns (v: word)
      requires Valid() && f < FRAMES && j < FRAME_WORDS
      ensures v == Contents()[f][j]
    {
      v := cells[f, j];
    }

    method Store(f: nat, j: nat, v: word)
      requires Valid() && f < FRAMES && j < FRAME_WORDS
      modifies cells
      ensures Contents() == Put(old(Contents()), f, j, v)
    {
      cells[f, j] := v;
      assert FrameAt(f) == old(Contents())[f][j := v];
      assert forall g :: 0 <= g < FRAMES && g != f ==> FrameAt(g) == old(FrameAt(g));
    }
  }
}
