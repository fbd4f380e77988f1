/** Unsigned 32-bit words and the bitwise operators the kernel applies to them. */
module Bits {
  const WORD := 0x1_0000_0000

  type word = x: int | 0 <= x < WORD
  type byte = x: int | 0 <= x < 256

  function And(a: nat, b: nat): nat
  {
    if a == 0 || b == 0 then 0 else 2 * And(a / 2, b / 2) + (if a % 2 == 1 && b % 2 == 1 then 1 else 0)
  }

  function Or(a: nat, b: nat): nat
  {
    if a == 0 then b
    else if b == 0 then a
    else 2 * Or(a / 2, b / 2) + (if a % 2 == 1 || b % 2 == 1 then 1 else 0)
  }

  function Complement(a: word): word { WORD - 1 - a }

  function Pow2(k: nat): (r: nat)
    ensures r > 0
  {
    if k == 0 then 1 else 2 * Pow2(k - 1)
  }

  /** Bit j of a. */
  predicate Bit(a: nat, j: nat)
  {
    if j == 0 then a % 2 == 1 else Bit(a / 2, j - 1)
  }

  lemma {:induction false} AndBit(a: nat, b: nat, j: nat)
    ensures Bit(And(a, b), j) == (Bit(a, j) && Bit(b, j))
  {
    if a == 0 || b == 0 {
      ZeroBit(j);
    } else if j > 0 {
      AndBit(a / 2, b / 2, j - 1);
    }
  }

  lemma {:induction false} OrBit(a: nat, b: nat, j: nat)
    ensures Bit(Or(a, b), j) == (Bit(a, j) || Bit(b, j))
  {
    if a == 0 || b == 0 {
      ZeroBit(j);
    } else if j > 0 {
      OrBit(a / 2, b / 2, j - 1);
    }
  }

  lemma {:induction false} ZeroBit(j: nat)
    ensures !Bit(0, j)
  {
    if j > 0 { ZeroBit(j - 1); }
  }

  lemma {:induction false} Pow2Bit(i: nat, j: nat)
    ensures Bit(Pow2(i), j) == (i == j)
  {
    if i == 0 {
      if j > 0 { ZeroBit(j - 1); }
    } else if j > 0 {
      Pow2Bit(i - 1, j - 1);
    }
  }

  /** Complementing a word of k bits flips each of its bits. */
  lemma {:induction false} FlipBit(a: nat, k: nat, j: nat)
    requires a < Pow2(k) && j < k
    ensures Bit(Pow2(k) - 1 - a, j) == !Bit(a, j)
  {
    var b := Pow2(k) - 1 - a;
    assert Pow2(k) == 2 * Pow2(k - 1);
    assert b % 2 == 1 - a % 2 && b / 2 == Pow2(k - 1) - 1 - a / 2;
    if j > 0 { FlipBit(a / 2, k - 1, j - 1); }
  }

  /** A number below 2^k all of whose k bits are set is 2^k - 1. */
  lemma {:induction false} AllBitsSet(a: nat, k: nat)
    requires a < Pow2(k)
    requires forall j :: 0 <= j < k ==> Bit(a, j)
    ensures a == Pow2(k) - 1
  {
    if k > 0 {
      assert Bit(a, 0);
      forall j | 0 <= j < k - 1 ensures Bit(a / 2, j) { assert Bit(a, j + 1); }
      AllBitsSet(a / 2, k - 1);
    }
  }

  lemma Pow2Word()
    ensures Pow2(32) == WORD
  {
    assert Pow2(8) == 256;
    assert Pow2(16) == 0x1_0000;
    assert Pow2(24) == 0x100_0000;
  }

  lemma {:induction false} Pow2Less(j: nat, k: nat)
    requires j < k
    ensures Pow2(j) < Pow2(k)
  {
    if j < k - 1 { Pow2Less(j, k - 1); }
  }

  lemma {:induction false} OrBound(a: nat, b: nat, k: nat)
    requires a < Pow2(k) && b < Pow2(k)
    ensures Or(a, b) < Pow2(k)
  {
    if a > 0 && b > 0 && k > 0 { OrBound(a / 2, b / 2, k - 1); }
  }

  lemma {:induction false} AndBound(a: nat, b: nat)
    ensures And(a, b) <= a
  {
    if a > 0 && b > 0 { AndBound(a / 2, b / 2); }
  }

  /** a >> k */
  function Shr(a: nat, k: nat): nat
  {
    if k == 0 then a else Shr(a / 2, k - 1)
  }

  /** The low k bits of a. */
  function Low(a: nat, k: nat): nat
  {
    if k == 0 then 0 else 2 * Low(a / 2, k - 1) + a % 2
  }

  /** The operators act separately on the low k bits and on the rest. */
  lemma {:induction false} AndSplit(a: nat, b: nat, k: nat)
    ensures Shr(And(a, b), k) == And(Shr(a, k), Shr(b, k))
    ensures Low(And(a, b), k) == And(Low(a, k), Low(b, k))
  {
    hide And;
    if k == 0 {
      ZeroOperands();
    } else {
      AndHalves(a, b);
      AndSplit(a / 2, b / 2, k - 1);
      LowHalves(a, k);
      LowHalves(b, k);
      AndHalves(Low(a, k), Low(b, k));
    }
  }

  lemma ZeroOperands()
    ensures And(0, 0) == 0 && Or(0, 0) == 0
  {}

  lemma LowHalves(a: nat, k: nat)
    requires k > 0
    ensures Low(a, k) / 2 == Low(a / 2, k - 1) && Low(a, k) % 2 == a % 2
  {}

  lemma {:induction false} OrSplit(a: nat, b: nat, k: nat)
    ensures Shr(Or(a, b), k) == Or(Shr(a, k), Shr(b, k))
    ensures Low(Or(a, b), k) == Or(Low(a, k), Low(b, k))
  {
    hide Or;
    if k == 0 {
      ZeroOperands();
    } else {
      OrHalves(a, b);
      OrSplit(a / 2, b / 2, k - 1);
      LowHalves(a, k);
      LowHalves(b, k);
      OrHalves(Low(a, k), Low(b, k));
    }
  }

  lemma AndHalves(a: nat, b: nat)
    ensures And(a, b) / 2 == And(a / 2, b / 2)
    ensures And(a, b) % 2 == if a % 2 == 1 && b % 2 == 1 then 1 else 0
  {}

  lemma OrHalves(a: nat, b: nat)
    ensures Or(a, b) / 2 == Or(a / 2, b / 2)
    ensures Or(a, b) % 2 == if a % 2 == 1 || b % 2 == 1 then 1 else 0
  {}

  lemma Doubled(q: nat, h: nat, r: nat)
    ensures 2 * (q * h + r) == q * (2 * h) + 2 * r
  {}

  /** Shifting divides by 2^k and the low bits are the remainder. */
  lemma {:induction false} ShrLow(a: nat, k: nat)
    ensures a == Shr(a, k) * Pow2(k) + Low(a, k)
    ensures Low(a, k) < Pow2(k)
  {
    if k > 0 {
      ShrLow(a / 2, k - 1);
      var q, h, r := Shr(a, k), Pow2(k - 1), Low(a / 2, k - 1);
      Doubled(q, h, r);
      assert Low(a, k) == 2 * r + a % 2;
    }
  }

  lemma Pow2s()
    ensures Pow2(2) == 4 && Pow2(12) == 4096 && Pow2(19) == 0x8_0000 && Pow2(20) == 0x10_0000 && Pow2(31) == 0x8000_0000
  {
    assert Pow2(8) == 256 && Pow2(16) == 0x1_0000 && Pow2(24) == 0x100_0000;
  }

  /** Shifting by 12 and by 19 bits in decimal clothes. */
  lemma Shift12(a: nat, k: nat)
    requires k == 12
    ensures Shr(a, k) == a / 4096 && Low(a, k) == a % 4096
  {
    Pow2s();
    ShrLow(a, k);
    DivMod4096(a, Shr(a, k), Low(a, k));
  }

  lemma Shift19(a: nat, k: nat)
    requires k == 19
    ensures Shr(a, k) == a / 0x8_0000 && Low(a, k) == a % 0x8_0000
  {
    Pow2s();
    ShrLow(a, k);
    DivMod19(a, Shr(a, k), Low(a, k));
  }

  lemma DivMod4096(a: nat, q: nat, r: nat)
    requires a == q * 4096 + r && r < 4096
    ensures a / 4096 == q && a % 4096 == r
  {}

  lemma DivMod19(a: nat, q: nat, r: nat)
    requires a == q * 0x8_0000 + r && r < 0x8_0000
    ensures a / 0x8_0000 == q && a % 0x8_0000 == r
  {}

  /** Bitwise operators on the three fields of an entry: bit 31, bits 12 to 30, bits 0 to 11. */
  lemma AndFields(a: nat, b: nat)
    ensures And(a, b) / 4096 == And(a / 4096, b / 4096)
    ensures And(a, b) % 4096 == And(a % 4096, b % 4096)
    ensures And(a, b) / 4096 % 0x8_0000 == And(a / 4096 % 0x8_0000, b / 4096 % 0x8_0000)
    ensures And(a, b) / 4096 / 0x8_0000 == And(a / 4096 / 0x8_0000, b / 4096 / 0x8_0000)
  {
    var k, l := 12, 19;
    AndFieldsAt(a, b, k, l);
  }

  lemma AndFieldsAt(a: nat, b: nat, k: nat, l: nat)
    requires k == 12 && l == 19
    ensures And(a, b) / 4096 == And(a / 4096, b / 4096)
    ensures And(a, b) % 4096 == And(a % 4096, b % 4096)
    ensures And(a, b) / 4096 % 0x8_0000 == And(a / 4096 % 0x8_0000, b / 4096 % 0x8_0000)
    ensures And(a, b) / 4096 / 0x8_0000 == And(a / 4096 / 0x8_0000, b / 4096 / 0x8_0000)
  {
    AndSplit(a, b, k);
    Shift12(a, k); Shift12(b, k); Shift12(And(a, b), k);
    var x, y := Shr(a, k), Shr(b, k);
    AndSplit(x, y, l);
    Shift19(x, l); Shift19(y, l); Shift19(And(x, y), l);
  }

  lemma OrFields(a: nat, b: nat)
    ensures Or(a, b) / 4096 == Or(a / 4096, b / 4096)
    ensures Or(a, b) % 4096 == Or(a % 4096, b % 4096)
    ensures Or(a, b) / 4096 % 0x8_0000 == Or(a / 4096 % 0x8_0000, b / 4096 % 0x8_0000)
    ensures Or(a, b) / 4096 / 0x8_0000 == Or(a / 4096 / 0x8_0000, b / 4096 / 0x8_0000)
  {
    var k, l := 12, 19;
    OrFieldsAt(a, b, k, l);
  }

  lemma OrFieldsAt(a: nat, b: nat, k: nat, l: nat)
    requires k == 12 && l == 19
    ensures Or(a, b) / 4096 == Or(a / 4096, b / 4096)
    ensures Or(a, b) % 4096 == Or(a % 4096, b % 4096)
    ensures Or(a, b) / 4096 % 0x8_0000 == Or(a / 4096 % 0x8_0000, b / 4096 % 0x8_0000)
    ensures Or(a, b) / 4096 / 0x8_0000 == Or(a / 4096 / 0x8_0000, b / 4096 / 0x8_0000)
  {
    OrSplit(a, b, k);
    Shift12(a, k); Shift12(b, k); Shift12(Or(a, b), k);
    var x, y := Shr(a, k), Shr(b, k);
    OrSplit(x, y, l);
    Shift19(x, l); Shift19(y, l); Shift19(Or(x, y), l);
  }

  /** And with a mask of k ones keeps a number of k bits. */
  lemma {:induction false} AndMask(a: nat, k: nat)
    requires a < Pow2(k)
    ensures And(a, Pow2(k) - 1) == a
  {
    if k > 0 && a > 0 {
      var y := Pow2(k) - 1;
      assert y / 2 == Pow2(k - 1) - 1 && y % 2 == 1;
      AndMask(a / 2, k - 1);
    }
  }

  /** Testing a word against a one-bit mask tests that bit. */
  lemma {:induction false} AndOneBit(a: nat, j: nat)
    ensures And(a, Pow2(j)) != 0 <==> Bit(a, j)
  {
    if j == 0 {
      assert And(a, 1) == a % 2;
    } else if a == 0 {
      ZeroBit(j);
    } else {
      AndOneBit(a / 2, j - 1);
    }
  }

  /** Two k-bit numbers with the same bits are equal. */
  lemma {:induction false} SameBits(a: nat, b: nat, k: nat)
    requires a < Pow2(k) && b < Pow2(k)
    requires forall j :: 0 <= j < k ==> Bit(a, j) == Bit(b, j)
    ensures a == b
  {
    if k > 0 {
      assert Bit(a, 0) == Bit(b, 0);
      forall j | 0 <= j < k - 1 ensures Bit(a / 2, j) == Bit(b / 2, j) {
        assert Bit(a, j + 1) == Bit(b, j + 1);
      }
      SameBits(a / 2, b / 2, k - 1);
    }
  }
}
