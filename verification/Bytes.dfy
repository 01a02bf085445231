/** Bytes, frames and big-endian words, shared by every module of the packet core. */
module Bytes {

  type Byte = x: int | 0 <= x < 256

  /** An Ethernet frame, a packet payload or any other byte string. */
  type Frame = seq<Byte>

  datatype Option<+T> = None | Some(value: T)

  /** binary.BigEndian.Uint16. */
  function U16(hi: Byte, lo: Byte): (r: int)
    ensures 0 <= r < 0x1_0000
  {
    0x100 * hi + lo
  }

  /** binary.BigEndian.PutUint16. */
  function PutU16(x: int): (f: Frame)
    requires 0 <= x < 0x1_0000
    ensures |f| == 2
    ensures U16(f[0], f[1]) == x
  {
    [x / 0x100, x % 0x100]
  }

  // ---------- exclusive or ----------

  /** Bitwise exclusive or, lowest bit first. */
  function XorBits(a: nat, b: nat, bits: nat): nat
  {
    if bits == 0 then 0 else 2 * XorBits(a / 2, b / 2, bits - 1) + if a % 2 == b % 2 then 0 else 1
  }

  function Pow2(n: nat): nat
  {
    if n == 0 then 1 else 2 * Pow2(n - 1)
  }

  lemma {:induction false} XorBitsBound(a: nat, b: nat, bits: nat)
    ensures XorBits(a, b, bits) < Pow2(bits)
  {
    if bits > 0 {
      XorBitsBound(a / 2, b / 2, bits - 1);
    }
  }

  lemma {:induction false} XorBitsZero(a: nat, bits: nat)
    requires a < Pow2(bits)
    ensures XorBits(a, 0, bits) == a
  {
    if bits > 0 {
      XorBitsZero(a / 2, bits - 1);
    }
  }

  lemma {:induction false} XorBitsCommute(a: nat, b: nat, bits: nat)
    ensures XorBits(a, b, bits) == XorBits(b, a, bits)
  {
    if bits > 0 {
      XorBitsCommute(a / 2, b / 2, bits - 1);
    }
  }

  lemma {:induction false} XorBitsAssociate(a: nat, b: nat, c: nat, bits: nat)
    ensures XorBits(XorBits(a, b, bits), c, bits) == XorBits(a, XorBits(b, c, bits), bits)
  {
    if bits > 0 {
      XorBitsAssociate(a / 2, b / 2, c / 2, bits - 1);
      XorBitsHalf(a, b, bits);
      XorBitsHalf(b, c, bits);
    }
  }

  lemma XorBitsHalf(a: nat, b: nat, bits: nat)
    requires bits > 0
    ensures XorBits(a, b, bits) / 2 == XorBits(a / 2, b / 2, bits - 1)
    ensures XorBits(a, b, bits) % 2 == if a % 2 == b % 2 then 0 else 1
  {
  }

  lemma {:induction false} XorBitsSelf(a: nat, bits: nat)
    ensures XorBits(a, a, bits) == 0
  {
    if bits > 0 {
      XorBitsSelf(a / 2, bits - 1);
    }
  }

  /** Go's ^ on bytes. */
  function Xor(a: Byte, b: Byte): Byte
  {
    XorBitsBound(a, b, 8);
    XorBits(a, b, 8)
  }

  lemma XorZero(a: Byte)
    ensures Xor(a, 0) == a
  {
    hide XorBits;
    XorBitsZero(a, 8);
  }

  lemma XorAssoc(a: Byte, b: Byte, c: Byte)
    ensures Xor(Xor(a, b), c) == Xor(a, Xor(b, c))
  {
    hide XorBits;
    XorBitsAssociate(a, b, c, 8);
  }

  /** Two XORed-in bytes may be XORed in the other order. */
  lemma XorSwap(a: Byte, b: Byte, c: Byte)
    ensures Xor(Xor(a, b), c) == Xor(Xor(a, c), b)
  {
    hide XorBits;
    XorBitsAssociate(a, b, c, 8);
    XorBitsCommute(b, c, 8);
    XorBitsAssociate(a, c, b, 8);
  }

  /** XORing a byte in twice takes it out again. */
  lemma XorCancel(a: Byte, b: Byte)
    ensures Xor(Xor(a, b), a) == b
  {
    hide XorBits;
    XorBitsCommute(a, b, 8);
    XorBitsAssociate(b, a, a, 8);
    XorBitsSelf(a, 8);
    XorBitsZero(b, 8);
  }

  // ---------- big-endian numbers of any width ----------

  function Pow256(n: nat): (p: nat)
    ensures p >= 1
  {
    if n == 0 then 1 else 0x100 * Pow256(n - 1)
  }

  /** The n low bytes of x, most significant first. */
  function BigEndian(x: nat, n: nat): (f: Frame)
    ensures |f| == n
  {
    if n == 0 then [] else BigEndian(x / 0x100, n - 1) + [x % 0x100]
  }

  function FromBigEndian(f: Frame): nat
  {
    if f == [] then 0 else 0x100 * FromBigEndian(f[..|f| - 1]) + f[|f| - 1]
  }

  lemma {:induction false} BigEndianRoundTrip(x: nat, n: nat)
    requires x < Pow256(n)
    ensures FromBigEndian(BigEndian(x, n)) == x
  {
    if n > 0 {
      BigEndianRoundTrip(x / 0x100, n - 1);
      var f := BigEndian(x, n);
      assert f[..n - 1] == BigEndian(x / 0x100, n - 1);
    }
  }

  lemma {:induction false} FromBigEndianRoundTrip(f: Frame)
    ensures FromBigEndian(f) < Pow256(|f|)
    ensures BigEndian(FromBigEndian(f), |f|) == f
  {
    if f != [] {
      var n := |f| - 1;
      FromBigEndianRoundTrip(f[..n]);
      assert FromBigEndian(f) / 0x100 == FromBigEndian(f[..n]);
      assert f == f[..n] + [f[n]];
    }
  }
}
