/** Go's uint64 as a number below 2^64 with its bit operations, lowest bit first. */
module Words {
  import opened Bytes

  const U64_MOD := 0x1_0000_0000_0000_0000

  type Word = x: int | 0 <= x < 0x1_0000_0000_0000_0000

  ghost predicate Bit(w: nat, i: nat)
  {
    if i == 0 then w % 2 == 1 else Bit(w / 2, i - 1)
  }

  /** w << n. */
  function Shl(w: Word, n: nat): Word
    decreases n
  {
    if n == 0 then w else Shl(2 * w % U64_MOD, n - 1)
  }

  /** w >> n. */
  function Shr(w: Word, n: nat): Word
  {
    if n == 0 then w else Shr(w / 2, n - 1)
  }

  function OrBits(a: nat, b: nat, bits: nat): nat
  {
    if bits == 0 then 0 else 2 * OrBits(a / 2, b / 2, bits - 1) + if a % 2 == 1 || b % 2 == 1 then 1 else 0
  }

  function AndBits(a: nat, b: nat, bits: nat): nat
  {
    if bits == 0 then 0 else 2 * AndBits(a / 2, b / 2, bits - 1) + if a % 2 == 1 && b % 2 == 1 then 1 else 0
  }

  lemma Pow2At64()
    ensures Pow2(64) == U64_MOD && Pow2(63) == 0x8000_0000_0000_0000
  {
    Pow2Plus8(0);
    Pow2Plus8(8);
    Pow2Plus8(16);
    Pow2Plus8(24);
    Pow2Plus8(32);
    Pow2Plus8(40);
    Pow2Plus8(48);
    Pow2Plus8(56);
    assert Pow2(0) == 1;
    assert Pow2(64) == 2 * Pow2(63);
  }

  lemma Pow2Plus8(n: nat)
    ensures Pow2(n + 8) == 0x100 * Pow2(n)
  {
    assert Pow2(n + 2) == 2 * Pow2(n + 1) == 4 * Pow2(n);
    assert Pow2(n + 4) == 2 * Pow2(n + 3) == 4 * Pow2(n + 2);
    assert Pow2(n + 6) == 2 * Pow2(n + 5) == 4 * Pow2(n + 4);
    assert Pow2(n + 8) == 2 * Pow2(n + 7) == 4 * Pow2(n + 6);
  }

  lemma {:induction false} OrBitsBound(a: nat, b: nat, bits: nat)
    ensures OrBits(a, b, bits) < Pow2(bits)
  {
    if bits > 0 {
      OrBitsBound(a / 2, b / 2, bits - 1);
    }
  }

  /** a | b. */
  function Or(a: Word, b: Word): Word
  {
    OrBitsBound(a, b, 64);
    Pow2At64();
    OrBits(a, b, 64)
  }

  /** a & b. */
  function And(a: Word, b: Word): nat
  {
    AndBits(a, b, 64)
  }

  // ---------- what the operations do to the bits ----------

  lemma {:induction false} BitTop(w: nat, n: nat, i: nat)
    requires w < Pow2(n) && i >= n
    ensures !Bit(w, i)
  {
    if i > 0 {
      BitTop(w / 2, if n > 0 then n - 1 else 0, i - 1);
    }
  }

  lemma {:induction false} BitSub(w: nat, n: nat, i: nat)
    requires i < n && w >= Pow2(n)
    ensures Bit(w - Pow2(n), i) <==> Bit(w, i)
  {
    if i > 0 {
      BitSub(w / 2, n - 1, i - 1);
      assert (w - Pow2(n)) / 2 == w / 2 - Pow2(n - 1);
    }
  }

  lemma BitZero(i: nat)
    ensures !Bit(0, i)
  {
  }

  lemma BitShl1(w: Word, i: nat)
    requires i < 64
    ensures Bit(2 * w % U64_MOD, i) <==> i > 0 && Bit(w, i - 1)
  {
    Pow2At64();
    if i > 0 {
      if w < Pow2(63) {
        assert 2 * w % U64_MOD == 2 * w;
      } else {
        assert 2 * w % U64_MOD == 2 * (w - Pow2(63));
        BitSub(w, 63, i - 1);
      }
    }
  }

  lemma {:induction false} BitShl(w: Word, n: nat, i: nat)
    requires i < 64
    ensures Bit(Shl(w, n), i) <==> i >= n && Bit(w, i - n)
    decreases n
  {
    if n > 0 {
      BitShl(2 * w % U64_MOD, n - 1, i);
      if i >= n - 1 {
        BitShl1(w, i - (n - 1));
      }
    }
  }

  lemma {:induction false} BitShr(w: Word, n: nat, i: nat)
    ensures Bit(Shr(w, n), i) <==> Bit(w, i + n)
  {
    if n > 0 {
      BitShr(w / 2, n - 1, i);
    }
  }

  lemma {:induction false} BitOrBits(a: nat, b: nat, bits: nat, i: nat)
    requires i < bits
    ensures Bit(OrBits(a, b, bits), i) <==> Bit(a, i) || Bit(b, i)
  {
    var o := OrBits(a, b, bits);
    assert o / 2 == OrBits(a / 2, b / 2, bits - 1);
    if i > 0 {
      BitOrBits(a / 2, b / 2, bits - 1, i - 1);
    }
  }

  lemma BitOr(a: Word, b: Word, i: nat)
    requires i < 64
    ensures Bit(Or(a, b), i) <==> Bit(a, i) || Bit(b, i)
  {
    BitOrBits(a, b, 64, i);
  }

  lemma {:induction false} OneBit(n: nat, i: nat)
    ensures Bit(Pow2(n), i) <==> i == n
  {
    if n == 0 {
      if i > 0 { BitZero(i - 1); }
    } else if i > 0 {
      OneBit(n - 1, i - 1);
    }
  }

  lemma {:induction false} AndBitsZero(a: nat, bits: nat)
    ensures AndBits(a, 0, bits) == 0
  {
    if bits > 0 {
      AndBitsZero(a / 2, bits - 1);
    }
  }

  lemma {:induction false} AndMaskBits(w: nat, n: nat, bits: nat)
    requires n < bits
    ensures AndBits(w, Pow2(n), bits) != 0 <==> Bit(w, n)
  {
    if n == 0 {
      AndBitsZero(w / 2, bits - 1);
    } else {
      AndMaskBits(w / 2, n - 1, bits - 1);
      assert Pow2(n) / 2 == Pow2(n - 1) && Pow2(n) % 2 == 0;
    }
  }

  lemma {:induction false} ShlPow2(a: nat, n: nat)
    requires a + n < 64
    ensures Pow2(a) < U64_MOD
    ensures Shl(Pow2(a), n) == Pow2(a + n)
    decreases n
  {
    Pow2Mono(a, 63);
    Pow2At64();
    if n > 0 {
      ShlPow2(a + 1, n - 1);
      assert 2 * Pow2(a) % U64_MOD == Pow2(a + 1);
    }
  }

  lemma {:induction false} Pow2Mono(a: nat, b: nat)
    requires a <= b
    ensures Pow2(a) <= Pow2(b)
  {
    if a < b {
      Pow2Mono(a, b - 1);
    }
  }

  /** The mask test and the mask set of the window. */
  lemma MaskBit(w: Word, n: nat, i: nat)
    requires n < 64 && i < 64
    ensures And(w, Shl(1, n)) != 0 <==> Bit(w, n)
    ensures Bit(Or(w, Shl(1, n)), i) <==> Bit(w, i) || i == n
  {
    assert Pow2(0) == 1;
    ShlPow2(0, n);
    AndMaskBits(w, n, 64);
    BitOr(w, Shl(1, n), i);
    OneBit(n, i);
  }
}
