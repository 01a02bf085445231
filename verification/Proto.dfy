/** The wire format: the packet header, the FEC and fragment fields in its Seq, and two handshake messages. */
module Proto {
  import opened Bytes
  import opened Words

  type U8 = x: int | 0 <= x < 0x100
  type U16Bit = x: int | 0 <= x < 0x1_0000
  type U32 = x: int | 0 <= x < 0x1_0000_0000

  // ---------- shifts and ors on disjoint fields ----------

  lemma {:induction false} Pow2Step(n: nat)
    ensures Pow2(n) >= 1 && (n > 0 ==> Pow2(n) == 2 * Pow2(n - 1))
  {
    if n > 0 {
      Pow2Step(n - 1);
    }
  }

  lemma {:induction false} ShlIsProduct(w: Word, n: nat)
    requires w * Pow2(n) < U64_MOD
    ensures Shl(w, n) == w * Pow2(n)
    decreases n
  {
    hide Pow2;
    Pow2Step(n);
    if n == 0 {
      assert Pow2(0) == 1 by { SmallPowers(); }
    } else {
      Pow2Step(n - 1);
      DoubleTimes(w, Pow2(n - 1));
      Grows(2 * w, Pow2(n - 1));
      assert 2 * w % U64_MOD == 2 * w;
      ShlIsProduct(2 * w, n - 1);
    }
  }

  lemma DoubleTimes(w: nat, p: nat)
    ensures (2 * w) * p == w * (2 * p)
  {
  }

  lemma Grows(x: nat, p: nat)
    requires p >= 1
    ensures x <= x * p
  {
    assert x * p == x + x * (p - 1);
  }

  lemma {:induction false} ShrIsQuotient(w: Word, n: nat)
    ensures Pow2(n) >= 1 && Shr(w, n) == w / Pow2(n)
  {
    hide Pow2;
    Pow2Step(n);
    if n > 0 {
      ShrIsQuotient(w / 2, n - 1);
      DivideTwice(w, 2, Pow2(n - 1));
    } else {
      assert Pow2(0) == 1 by { SmallPowers(); }
    }
  }

  lemma DivideTwice(w: nat, c: nat, d: nat)
    requires c > 0 && d > 0
    ensures c * d > 0 && (w / c) / d == w / (c * d)
  {
    var x, e := w / c, w % c;
    var q, r := x / d, x % d;
    Split(w, c);
    Split(x, d);
    Nested(c, d, q, r, e);
    QuotientIs(w, c * d, q, c * r + e);
  }

  lemma Nested(c: nat, d: nat, q: nat, r: nat, e: nat)
    requires r < d && e < c
    ensures c * (d * q + r) + e == q * (c * d) + (c * r + e)
    ensures c * r + e < c * d
  {
    assert c * (d * q + r) == c * (d * q) + c * r;
    assert c * (d * q) == q * (c * d);
    assert c * r <= c * (d - 1) == c * d - c;
  }

  lemma QuotientIs(w: nat, d: nat, q: nat, r: nat)
    requires d > 0 && w == q * d + r && r < d
    ensures w / d == q && w % d == r
  {
    var p, e := w / d, w % d;
    assert w == p * d + e;
    if p > q {
      Gap(p, q, d);
    } else if q > p {
      Gap(q, p, d);
    }
  }

  lemma Gap(p: nat, q: nat, d: nat)
    requires p > q
    ensures p * d >= q * d + d
  {
    assert p * d == q * d + (p - q) * d;
    Grows(d, p - q);
  }

  /** Or of a number below 2^n and a multiple of 2^n is their sum. */
  lemma {:induction false} OrDisjoint(hi: nat, lo: nat, n: nat, bits: nat)
    requires lo < Pow2(n) && n <= bits && hi * Pow2(n) + lo < Pow2(bits)
    ensures OrBits(hi * Pow2(n), lo, bits) == hi * Pow2(n) + lo
  {
    if n == 0 {
      assert lo == 0 && hi * Pow2(0) == hi;
      OrZero(hi, bits);
    } else {
      var p := Pow2(n - 1);
      assert hi * Pow2(n) == 2 * (hi * p);
      OrDisjoint(hi, lo / 2, n - 1, bits - 1);
    }
  }

  lemma {:induction false} OrZero(a: nat, bits: nat)
    requires a < Pow2(bits)
    ensures OrBits(a, 0, bits) == a
  {
    if bits > 0 {
      OrZero(a / 2, bits - 1);
    }
  }

  lemma SmallPowers()
    ensures Pow2(0) == 1 && Pow2(8) == 0x100 && Pow2(16) == 0x1_0000
    ensures Pow2(24) == 0x100_0000 && Pow2(32) == 0x1_0000_0000
  {
    Pow2Plus8(0);
    Pow2Plus8(8);
    Pow2Plus8(16);
    Pow2Plus8(24);
    assert Pow2(0) == 1;
  }

  /** hi << n | lo, for a lo below 2^n. */
  lemma ShlOr(hi: Word, lo: Word, n: nat)
    requires lo < Pow2(n) && n <= 64 && hi * Pow2(n) + lo < U64_MOD
    ensures Or(Shl(hi, n), lo) == hi * Pow2(n) + lo
  {
    hide Pow2, Shl, OrBits;
    Pow2At64();
    ShlIsProduct(hi, n);
    OrDisjoint(hi, lo, n, 64);
  }

  // ---------- the Seq fields ----------

  function PackDataSeq(blockID: U32, pktIdx: U16Bit): Word
  {
    Or(Shl(blockID, 32), Shl(pktIdx, 16))
  }

  function UnpackDataSeq(sq: Word): (U32, U16Bit)
  {
    (Shr(sq, 32) % 0x1_0000_0000, Shr(sq, 16) % 0x1_0000)
  }

  function PackRepairSeq(blockID: U32, repairIdx: U8, blockK: U8, blockR: U8): Word
  {
    Or(Or(Or(Shl(blockID, 32), Shl(repairIdx, 24)), Shl(blockK, 16)), Shl(blockR, 8))
  }

  function UnpackRepairSeq(sq: Word): (U32, U8, U8, U8)
  {
    (Shr(sq, 32) % 0x1_0000_0000, Shr(sq, 24) % 0x100, Shr(sq, 16) % 0x100, Shr(sq, 8) % 0x100)
  }

  function PackFragSeq(fragID: U32, fragIdx: U8, fragCount: U8): Word
  {
    Or(Or(Shl(fragID, 32), Shl(fragIdx, 24)), Shl(fragCount, 16))
  }

  function UnpackFragSeq(sq: Word): (U32, U8, U8)
  {
    (Shr(sq, 32) % 0x1_0000_0000, Shr(sq, 24) % 0x100, Shr(sq, 16) % 0x100)
  }

  /** The four-field layout; the other two leave fields empty. */
  lemma RepairSeqIs(id: U32, a: U8, b: U8, c: U8)
    ensures PackRepairSeq(id, a, b, c) == id * 0x1_0000_0000 + a * 0x100_0000 + b * 0x1_0000 + c * 0x100
  {
    hide Pow2, Shl, OrBits, Or;
    SmallPowers();
    ShlIsProduct(a, 24);
    ShlIsProduct(b, 16);
    ShlIsProduct(c, 8);
    ShlOr(id, a * 0x100_0000, 32);
    OrLow(id * 0x100 + a, b * 0x1_0000, 24);
    OrLow(id * 0x1_0000 + a * 0x100 + b, c * 0x100, 16);
  }

  lemma OrLow(hi: nat, lo: Word, n: nat)
    requires lo < Pow2(n) && n <= 64 && hi * Pow2(n) + lo < U64_MOD
    ensures hi * Pow2(n) < U64_MOD
    ensures Or(hi * Pow2(n), lo) == hi * Pow2(n) + lo
  {
    hide Pow2, OrBits;
    Pow2At64();
    OrDisjoint(hi, lo, n, 64);
  }

  lemma FragSeqIs(id: U32, a: U8, b: U8)
    ensures PackFragSeq(id, a, b) == id * 0x1_0000_0000 + a * 0x100_0000 + b * 0x1_0000
  {
    hide Pow2, Shl, OrBits, Or;
    SmallPowers();
    ShlIsProduct(a, 24);
    ShlIsProduct(b, 16);
    ShlOr(id, a * 0x100_0000, 32);
    OrLow(id * 0x100 + a, b * 0x1_0000, 24);
  }

  lemma DataSeqIs(id: U32, idx: U16Bit)
    ensures PackDataSeq(id, idx) == id * 0x1_0000_0000 + idx * 0x1_0000
  {
    hide Pow2, Shl, OrBits, Or;
    SmallPowers();
    ShlIsProduct(idx, 16);
    ShlOr(id, idx * 0x1_0000, 32);
  }

  lemma Fields(sq: Word)
    ensures Shr(sq, 32) == sq / 0x1_0000_0000 && Shr(sq, 24) == sq / 0x100_0000
    ensures Shr(sq, 16) == sq / 0x1_0000 && Shr(sq, 8) == sq / 0x100
  {
    hide Pow2, Shr;
    SmallPowers();
    ShrIsQuotient(sq, 32);
    ShrIsQuotient(sq, 24);
    ShrIsQuotient(sq, 16);
    ShrIsQuotient(sq, 8);
  }

  /** Every Unpack inverts its Pack. */
  lemma SeqRoundTrips(id: U32, idx: U16Bit, a: U8, b: U8, c: U8)
    ensures UnpackDataSeq(PackDataSeq(id, idx)) == (id, idx)
    ensures UnpackRepairSeq(PackRepairSeq(id, a, b, c)) == (id, a, b, c)
    ensures UnpackFragSeq(PackFragSeq(id, a, b)) == (id, a, b)
  {
    hide Shr, PackDataSeq, PackRepairSeq, PackFragSeq;
    DataSeqIs(id, idx);
    RepairSeqIs(id, a, b, c);
    FragSeqIs(id, a, b);
    var data, repair, frag := PackDataSeq(id, idx), PackRepairSeq(id, a, b, c), PackFragSeq(id, a, b);
    Fields(data);
    Fields(repair);
    Fields(frag);
    QuotientIs(data, 0x1_0000_0000, id, idx * 0x1_0000);
    QuotientIs(data, 0x1_0000, id * 0x1_0000 + idx, 0);
    QuotientIs(id * 0x1_0000 + idx, 0x1_0000, id, idx);
    QuotientIs(id * 0x100 + a, 0x100, id, a);
    QuotientIs(id * 0x1_0000 + a * 0x100 + b, 0x100, id * 0x100 + a, b);
    QuotientIs(id * 0x100_0000 + a * 0x1_0000 + b * 0x100 + c, 0x100, id * 0x1_0000 + a * 0x100 + b, c);
    TopFields(repair, id, a, b, c * 0x100);
    QuotientIs(repair, 0x100, id * 0x100_0000 + a * 0x1_0000 + b * 0x100 + c, 0);
    TopFields(frag, id, a, b, 0);
  }

  lemma TopFields(sq: Word, id: U32, a: U8, b: U8, low: U16Bit)
    requires sq == id * 0x1_0000_0000 + a * 0x100_0000 + b * 0x1_0000 + low
    ensures sq / 0x1_0000_0000 == id && sq / 0x100_0000 == id * 0x100 + a
    ensures sq / 0x1_0000 == id * 0x1_0000 + a * 0x100 + b
  {
    QuotientIs(sq, 0x1_0000_0000, id, a * 0x100_0000 + b * 0x1_0000 + low);
    QuotientIs(sq, 0x100_0000, id * 0x100 + a, b * 0x1_0000 + low);
    QuotientIs(sq, 0x1_0000, id * 0x1_0000 + a * 0x100 + b, low);
  }

  /** A Seq is what Pack makes of its fields exactly when the padding is zero. */
  lemma PackedIffPaddingIsZero(sq: Word)
    ensures var (id, idx) := UnpackDataSeq(sq); PackDataSeq(id, idx) == sq <==> sq % 0x1_0000 == 0
    ensures var (id, a, b, c) := UnpackRepairSeq(sq); PackRepairSeq(id, a, b, c) == sq <==> sq % 0x100 == 0
    ensures var (id, a, b) := UnpackFragSeq(sq); PackFragSeq(id, a, b) == sq <==> sq % 0x1_0000 == 0
  {
    hide Shr, PackDataSeq, PackRepairSeq, PackFragSeq;
    Fields(sq);
    var (id, a, b, c) := UnpackRepairSeq(sq);
    DataSeqIs(id, UnpackDataSeq(sq).1);
    RepairSeqIs(id, a, b, c);
    FragSeqIs(id, a, b);
    Digits(sq);
  }

  /** A word put together again from its fields and its padding. */
  lemma Digits(sq: Word)
    ensures var id := sq / 0x1_0000_0000 % 0x1_0000_0000;
      var a, b, c := sq / 0x100_0000 % 0x100, sq / 0x1_0000 % 0x100, sq / 0x100 % 0x100;
      && sq == id * 0x1_0000_0000 + a * 0x100_0000 + b * 0x1_0000 + c * 0x100 + sq % 0x100
      && sq == id * 0x1_0000_0000 + a * 0x100_0000 + b * 0x1_0000 + sq % 0x1_0000
      && sq == id * 0x1_0000_0000 + (sq / 0x1_0000 % 0x1_0000) * 0x1_0000 + sq % 0x1_0000
  {
    var x0, x1, x2, x3 := sq / 0x100, sq / 0x1_0000, sq / 0x100_0000, sq / 0x1_0000_0000;
    assert x0 / 0x100 == x1 by { DivideTwice(sq, 0x100, 0x100); }
    assert x1 / 0x100 == x2 by { DivideTwice(sq, 0x1_0000, 0x100); }
    assert x1 / 0x1_0000 == x3 by { DivideTwice(sq, 0x1_0000, 0x1_0000); }
    assert x2 / 0x100 == x3 by { DivideTwice(sq, 0x100_0000, 0x100); }
    assert sq == 0x100 * x0 + sq % 0x100 by { Split(sq, 0x100); }
    assert sq == 0x1_0000 * x1 + sq % 0x1_0000 by { Split(sq, 0x1_0000); }
    assert x0 == 0x100 * x1 + x0 % 0x100 by { Split(x0, 0x100); }
    assert x1 == 0x100 * x2 + x1 % 0x100 by { Split(x1, 0x100); }
    assert x1 == 0x1_0000 * x3 + x1 % 0x1_0000 by { Split(x1, 0x1_0000); }
    assert x2 == 0x100 * x3 + x2 % 0x100 by { Split(x2, 0x100); }
    assert x3 % 0x1_0000_0000 == x3;
  }

  lemma Split(x: nat, d: nat)
    requires d > 0
    ensures x == d * (x / d) + x % d
  {
  }

  // ---------- the packet header ----------

  const HEADER_SIZE := 15

  datatype Header = Header(kind: U8, hubID: U16Bit, sessionID: U32, seqNo: Word)

  function HeaderBytes(h: Header): (f: Frame)
    ensures |f| == HEADER_SIZE
  {
    [h.kind] + BigEndian(h.hubID, 2) + BigEndian(h.sessionID, 4) + BigEndian(h.seqNo, 8)
  }

  /** binary.BigEndian.PutUint16, 32 and 64: the bytes of x into dst[at..at+n], the last first. */
  method PutBigEndian(dst: array<Byte>, at: nat, x: nat, n: nat)
    requires at + n <= dst.Length
    modifies dst
    ensures dst[..] == old(dst[..at]) + BigEndian(x, n) + old(dst[at + n..])
    decreases n
  {
    if n > 0 {
      dst[at + n - 1] := x % 0x100;
      PutBigEndian(dst, at, x / 0x100, n - 1);
    }
  }

  /** Header.Marshal: fills the first fifteen bytes of the buffer. */
  method MarshalHeader(h: Header, dst: array<Byte>)
    requires dst.Length >= HEADER_SIZE
    modifies dst
    ensures dst[..] == HeaderBytes(h) + old(dst[HEADER_SIZE..])
  {
    dst[0] := h.kind;
    PutBigEndian(dst, 1, h.hubID, 2);
    PutBigEndian(dst, 3, h.sessionID, 4);
    PutBigEndian(dst, 7, h.seqNo, 8);
  }

  lemma Widths()
    ensures Pow256(1) == 0x100 && Pow256(2) == 0x1_0000 && Pow256(4) == 0x1_0000_0000 && Pow256(8) == U64_MOD
  {
    assert Pow256(8) == 0x1_0000 * Pow256(6) == 0x1_0000_0000 * Pow256(4);
  }

  function ParseHeader(src: Frame): Option<Header>
  {
    if |src| < HEADER_SIZE then None
    else
      Unsigned(src[1..3]);
      Unsigned(src[3..7]);
      Unsigned(src[7..15]);
      Some(Header(src[0], FromBigEndian(src[1..3]), FromBigEndian(src[3..7]), FromBigEndian(src[7..15])))
  }

  lemma Unsigned(f: Frame)
    requires |f| in {2, 4, 8}
    ensures FromBigEndian(f) < (if |f| == 2 then 0x1_0000 else if |f| == 4 then 0x1_0000_0000 else U64_MOD)
  {
    hide FromBigEndian, Pow256;
    Widths();
    FromBigEndianRoundTrip(f);
  }

  /** A packet parses to a header exactly when it starts with that header's bytes. */
  lemma HeaderParsesIff(src: Frame, h: Header)
    ensures ParseHeader(src) == Some(h) <==> HeaderBytes(h) <= src
  {
    hide FromBigEndian, BigEndian, Pow256;
    Widths();
    if |src| >= HEADER_SIZE {
      FromBigEndianRoundTrip(src[1..3]);
      FromBigEndianRoundTrip(src[3..7]);
      FromBigEndianRoundTrip(src[7..15]);
      BigEndianRoundTrip(h.hubID, 2);
      BigEndianRoundTrip(h.sessionID, 4);
      BigEndianRoundTrip(h.seqNo, 8);
      var b := HeaderBytes(h);
      assert b[1..3] == BigEndian(h.hubID, 2) && b[3..7] == BigEndian(h.sessionID, 4);
      assert b[7..15] == BigEndian(h.seqNo, 8);
      if b <= src {
        assert src[1..3] == b[1..3] && src[3..7] == b[3..7] && src[7..15] == b[7..15] && src[0] == b[0];
      }
      assert src[..HEADER_SIZE] == [src[0]] + src[1..3] + src[3..7] + src[7..15];
    }
  }

  lemma TwoBytes(x: nat)
    requires x < 0x1_0000
    ensures BigEndian(x, 2) == [x / 0x100, x % 0x100]
  {
    assert BigEndian(x / 0x100, 1) == BigEndian(x / 0x100 / 0x100, 0) + [x / 0x100 % 0x100] == [x / 0x100];
  }

  lemma LastByte(x: nat, n: nat)
    requires n > 0
    ensures BigEndian(x, n) == BigEndian(x / 0x100, n - 1) + [x % 0x100]
  {
  }

  lemma NextByte(x: nat, d: nat)
    requires d > 0
    ensures 0x100 * d > 0 && x / d / 0x100 == x / (0x100 * d)
  {
    DivideTwice(x, d, 0x100);
  }

  lemma FourBytes(x: nat)
    requires x < 0x1_0000_0000
    ensures BigEndian(x, 4) == [x / 0x100_0000, x / 0x1_0000 % 0x100, x / 0x100 % 0x100, x % 0x100]
  {
    LastByte(x, 4);
    LastByte(x / 0x100, 3);
    NextByte(x, 0x100);
    TwoBytes(x / 0x1_0000);
    NextByte(x, 0x1_0000);
  }

  lemma EightBytes(x: nat)
    requires x < U64_MOD
    ensures BigEndian(x, 8) ==
      [x / 0x100_0000_0000_0000, x / 0x1_0000_0000_0000 % 0x100, x / 0x100_0000_0000 % 0x100, x / 0x1_0000_0000 % 0x100,
       x / 0x100_0000 % 0x100, x / 0x1_0000 % 0x100, x / 0x100 % 0x100, x % 0x100]
  {
    hide BigEndian;
    LastByte(x, 8);
    LastByte(x / 0x100, 7);
    NextByte(x, 0x100);
    LastByte(x / 0x1_0000, 6);
    NextByte(x, 0x1_0000);
    LastByte(x / 0x100_0000, 5);
    NextByte(x, 0x100_0000);
    var y := x / 0x1_0000_0000;
    FourBytes(y);
    NextByte(x, 0x1_0000_0000);
    NextByte(x, 0x100_0000_0000);
    NextByte(x, 0x1_0000_0000_0000);
    assert y / 0x100 == x / 0x100_0000_0000;
    assert y / 0x1_0000 == x / 0x1_0000_0000_0000 by { DivideTwice(x, 0x1_0000_0000, 0x1_0000); }
    assert y / 0x100_0000 == x / 0x100_0000_0000_0000 by { DivideTwice(x, 0x1_0000_0000, 0x100_0000); }
  }

  /** The bytes of a header: the kind, two of the hub, four of the session and eight of the sequence number,
      each with the highest first. */
  lemma HeaderLayout(h: Header)
    ensures var s, q := h.sessionID, h.seqNo;
      HeaderBytes(h) ==
        [h.kind, h.hubID / 0x100, h.hubID % 0x100,
         s / 0x100_0000, s / 0x1_0000 % 0x100, s / 0x100 % 0x100, s % 0x100,
         q / 0x100_0000_0000_0000, q / 0x1_0000_0000_0000 % 0x100, q / 0x100_0000_0000 % 0x100,
         q / 0x1_0000_0000 % 0x100, q / 0x100_0000 % 0x100, q / 0x1_0000 % 0x100, q / 0x100 % 0x100, q % 0x100]
  {
    hide BigEndian;
    TwoBytes(h.hubID);
    FourBytes(h.sessionID);
    EightBytes(h.seqNo);
  }

  /** The packings as numbers: the block or fragment number in the top half, the fields below it in order. */
  lemma SeqLayout(id: U32, idx: U16Bit, a: U8, b: U8, c: U8)
    ensures PackDataSeq(id, idx) == id * 0x1_0000_0000 + idx * 0x1_0000
    ensures PackRepairSeq(id, a, b, c) == id * 0x1_0000_0000 + a * 0x100_0000 + b * 0x1_0000 + c * 0x100
    ensures PackFragSeq(id, a, b) == id * 0x1_0000_0000 + a * 0x100_0000 + b * 0x1_0000
  {
    hide PackDataSeq, PackRepairSeq, PackFragSeq;
    DataSeqIs(id, idx);
    RepairSeqIs(id, a, b, c);
    FragSeqIs(id, a, b);
  }

  // ---------- AuthHello ----------

  const PW_HASH_LEN := 32

  datatype AuthHello = AuthHello(hubID: U16Bit, login: Frame, pwHash: Frame, flags: U8)

  predicate AuthHelloValid(a: AuthHello)
  {
    |a.pwHash| == PW_HASH_LEN
  }

  /** The fixed part; the login's length is cut to a byte. */
  function AuthHelloFixed(a: AuthHello): Frame
  {
    BigEndian(a.hubID, 2) + [|a.login| % 0x100] + a.login + a.pwHash
  }

  function AuthHelloBytes(a: AuthHello): Frame
  {
    AuthHelloFixed(a) + [a.flags]
  }

  /** The bytes of a hello: two of the hub, the login behind its length, the hash and the flags. */
  lemma AuthHelloLayout(a: AuthHello)
    requires AuthHelloValid(a)
    ensures var f, n := AuthHelloBytes(a), |a.login|;
      && |f| == 36 + n
      && f[0] == a.hubID / 0x100 && f[1] == a.hubID % 0x100 && f[2] == n % 0x100
      && f[3..3 + n] == a.login && f[3 + n..35 + n] == a.pwHash && f[35 + n] == a.flags
  {
    TwoBytes(a.hubID);
  }

  /** copy(dst[at:], src) for a source that fits. */
  method Copy(dst: array<Byte>, at: nat, src: Frame)
    requires at + |src| <= dst.Length
    modifies dst
    ensures dst[..] == old(dst[..at]) + src + old(dst[at + |src|..])
  {
    for i := 0 to |src|
      invariant forall j :: 0 <= j < at || at + i <= j < dst.Length ==> dst[j] == old(dst[j])
      invariant forall j :: 0 <= j < i ==> dst[at + j] == src[j]
    {
      dst[at + i] := src[i];
    }
    assert dst[at..at + |src|] == src;
    assert dst[..] == dst[..at] + dst[at..at + |src|] + dst[at + |src|..];
  }

  method MarshalAuthHello(a: AuthHello) returns (buf: array<Byte>)
    requires AuthHelloValid(a)
    ensures fresh(buf) && buf[..] == AuthHelloBytes(a)
  {
    hide BigEndian;
    var n := |a.login|;
    buf := new Byte[2 + 1 + n + PW_HASH_LEN + 1];
    PutBigEndian(buf, 0, a.hubID, 2);
    buf[2] := n % 0x100;
    assert buf[..3] == BigEndian(a.hubID, 2) + [n % 0x100];
    Copy(buf, 3, a.login);
    assert buf[..3 + n] == BigEndian(a.hubID, 2) + [n % 0x100] + a.login;
    Copy(buf, 3 + n, a.pwHash);
    assert buf[..3 + n + PW_HASH_LEN] == AuthHelloFixed(a);
    buf[3 + n + PW_HASH_LEN] := a.flags;
  }

  function ParseAuthHello(b: Frame): (r: Option<AuthHello>)
    ensures r.Some? ==> AuthHelloValid(r.value) && |r.value.login| < 0x100
  {
    if |b| < 2 + 1 + PW_HASH_LEN then None
    else
      Unsigned(b[..2]);
      var n: int := b[2];
      if |b| < 2 + 1 + n + PW_HASH_LEN then None
      else
        var flags := if |b| >= 3 + n + PW_HASH_LEN + 1 then b[3 + n + PW_HASH_LEN] else 0;
        Some(AuthHello(FromBigEndian(b[..2]), b[3..3 + n], b[3 + n..3 + n + PW_HASH_LEN], flags))
  }

  /** Both directions of the handshake message: a payload parses to a hello exactly when it starts with
      that hello's bytes, or is those bytes with the flags left off and the hello has no flags. */
  lemma AuthHelloParsesIff(b: Frame, a: AuthHello)
    requires AuthHelloValid(a)
    ensures ParseAuthHello(b) == Some(a) <==>
      |a.login| < 0x100 && (AuthHelloBytes(a) <= b || (b == AuthHelloFixed(a) && a.flags == 0))
  {
    hide FromBigEndian, BigEndian, Pow256;
    Widths();
    BigEndianRoundTrip(a.hubID, 2);
    var fixed := AuthHelloFixed(a);
    var n := |a.login|;
    assert fixed[..2] == BigEndian(a.hubID, 2) && fixed[3..3 + n] == a.login && fixed[3 + n..] == a.pwHash;
    if |a.login| < 0x100 && fixed <= b {
      assert b[..2] == fixed[..2] && b[2] == fixed[2] == n;
      assert b[3..3 + n] == fixed[3..3 + n] && b[3 + n..3 + n + PW_HASH_LEN] == fixed[3 + n..];
    }
    if ParseAuthHello(b) == Some(a) {
      FromBigEndianRoundTrip(b[..2]);
      var end := 3 + n + PW_HASH_LEN;
      assert b[..end] == b[..2] + [b[2]] + b[3..3 + n] + b[3 + n..end];
      assert b[..end] == fixed;
      assert |b| > end ==> b[..end + 1] == fixed + [a.flags];
    }
  }

  /** The message round-trips exactly for logins up to 255 bytes; a longer one is cut by its length byte. */
  lemma AuthHelloRoundTripsIff(a: AuthHello)
    requires AuthHelloValid(a)
    ensures ParseAuthHello(AuthHelloBytes(a)) == Some(a) <==> |a.login| < 0x100
    ensures |a.login| < 0x100 ==> ParseAuthHello(AuthHelloFixed(a)) == Some(a.(flags := 0))
  {
    hide AuthHelloBytes, AuthHelloFixed, ParseAuthHello;
    AuthHelloParsesIff(AuthHelloBytes(a), a);
    AuthHelloParsesIff(AuthHelloFixed(a), a.(flags := 0));
    SameFixed(a, 0);
  }

  lemma SameFixed(a: AuthHello, flags: U8)
    ensures AuthHelloFixed(a.(flags := flags)) == AuthHelloFixed(a)
  {
  }

  // ---------- the hub list ----------

  const MAX_HUBS := 255
  const MAX_NAME := 255

  datatype HubInfo = HubInfo(id: U16Bit, name: Frame)

  function Cut<T>(s: seq<T>, n: nat): (r: seq<T>)
    ensures r <= s && |r| == if |s| > n then n else |s|
  {
    if |s| > n then s[..n] else s
  }

  /** What the wire keeps of a list: 255 hubs, 255 bytes of each name. */
  function CutList(hubs: seq<HubInfo>): seq<HubInfo>
  {
    CutNames(Cut(hubs, MAX_HUBS))
  }

  function CutNames(hubs: seq<HubInfo>): (r: seq<HubInfo>)
    ensures |r| == |hubs|
    ensures forall i :: 0 <= i < |r| ==> r[i] == HubInfo(hubs[i].id, Cut(hubs[i].name, MAX_NAME))
  {
    seq(|hubs|, i requires 0 <= i < |hubs| => HubInfo(hubs[i].id, Cut(hubs[i].name, MAX_NAME)))
  }

  predicate Fits(hubs: seq<HubInfo>)
  {
    |hubs| <= MAX_HUBS && forall i :: 0 <= i < |hubs| ==> |hubs[i].name| <= MAX_NAME
  }

  function EntryBytes(h: HubInfo): Frame
    requires |h.name| <= MAX_NAME
  {
    BigEndian(h.id, 2) + [|h.name|] + h.name
  }

  function EntriesBytes(hubs: seq<HubInfo>): Frame
    requires forall i :: 0 <= i < |hubs| ==> |hubs[i].name| <= MAX_NAME
  {
    if hubs == [] then [] else EntryBytes(hubs[0]) + EntriesBytes(hubs[1..])
  }

  /** The documented layout, for a list that fits. */
  function HubListBytes(hubs: seq<HubInfo>): Frame
    requires Fits(hubs)
  {
    [|hubs|] + EntriesBytes(hubs)
  }

  /** The bytes of an entry: two of the hub and the name behind its length; the list has its own length first. */
  lemma HubListLayout(h: HubInfo, rest: seq<HubInfo>)
    requires |h.name| <= 255 && Fits([h] + rest)
    ensures Fits(rest)
    ensures var f := HubListBytes([h] + rest);
      f == [1 + |rest|, h.id / 0x100, h.id % 0x100, |h.name|] + h.name + HubListBytes(rest)[1..]
  {
    var all := [h] + rest;
    assert all[1..] == rest && forall i :: 0 <= i < |rest| ==> rest[i] == all[i + 1];
    TwoBytes(h.id);
    assert EntriesBytes(all) == EntryBytes(h) + EntriesBytes(rest);
    assert HubListBytes(rest)[1..] == EntriesBytes(rest);
  }

  lemma {:induction false} EntriesSnoc(hubs: seq<HubInfo>, h: HubInfo)
    requires forall i :: 0 <= i < |hubs + [h]| ==> |(hubs + [h])[i].name| <= MAX_NAME
    requires forall i :: 0 <= i < |hubs| ==> |hubs[i].name| <= MAX_NAME
    requires |h.name| <= MAX_NAME
    ensures EntriesBytes(hubs + [h]) == EntriesBytes(hubs) + EntryBytes(h)
  {
    if hubs == [] {
      assert [] + [h] == [h] && [h][1..] == [];
    } else {
      assert forall i :: 0 <= i < |hubs[1..] + [h]| ==> (hubs[1..] + [h])[i] == (hubs + [h])[i + 1];
      EntriesSnoc(hubs[1..], h);
      assert (hubs + [h])[1..] == hubs[1..] + [h];
    }
  }

  /** One entry of the list, its name cut. */
  method MarshalEntry(h: HubInfo) returns (entry: array<Byte>)
    ensures entry[..] == EntryBytes(HubInfo(h.id, Cut(h.name, MAX_NAME)))
  {
    hide BigEndian;
    var name := h.name;
    if |name| > 255 {
      name := name[..255];
    }
    entry := new Byte[3 + |name|];
    PutBigEndian(entry, 0, h.id, 2);
    entry[2] := |name|;
    Copy(entry, 3, name);
  }

  method MarshalHubList(hubs: seq<HubInfo>) returns (buf: Frame)
    ensures Fits(CutList(hubs)) && buf == HubListBytes(CutList(hubs))
  {
    var n := |hubs|;
    if n > 255 {
      n := 255;
    }
    ghost var cut := CutList(hubs);
    buf := [n];
    for i := 0 to n
      invariant Fits(cut[..i])
      invariant buf == [n] + EntriesBytes(cut[..i])
    {
      hide EntriesBytes, EntryBytes, CutList, Cut;
      assert cut[i] == HubInfo(hubs[i].id, Cut(hubs[i].name, MAX_NAME)) by { CutListAt(hubs, i); }
      var entry := MarshalEntry(hubs[i]);
      EntriesUpTo(cut, i);
      buf := buf + entry[..];
    }
    assert cut[..n] == cut;
  }

  lemma EntriesUpTo(hubs: seq<HubInfo>, i: nat)
    requires i < |hubs| && Fits(hubs[..i]) && |hubs[i].name| <= MAX_NAME && |hubs| <= MAX_HUBS
    ensures Fits(hubs[..i + 1])
    ensures EntriesBytes(hubs[..i + 1]) == EntriesBytes(hubs[..i]) + EntryBytes(hubs[i])
  {
    assert hubs[..i + 1] == hubs[..i] + [hubs[i]];
    EntriesSnoc(hubs[..i], hubs[i]);
  }

  lemma CutListAt(hubs: seq<HubInfo>, i: nat)
    requires i < |CutList(hubs)|
    ensures i < |hubs| && CutList(hubs)[i] == HubInfo(hubs[i].id, Cut(hubs[i].name, MAX_NAME))
  {
  }

  /** ParseHubList after the count byte. */
  function ParseEntries(b: Frame, count: nat): (r: Option<seq<HubInfo>>)
    ensures r.Some? ==> |r.value| == count
  {
    if count == 0 then Some([])
    else if |b| < 3 then None
    else
      Unsigned(b[..2]);
      var n: int := b[2];
      if |b[3..]| < n then None
      else match ParseEntries(b[3 + n..], count - 1)
        case None => None
        case Some(rest) => Some([HubInfo(FromBigEndian(b[..2]), b[3..3 + n])] + rest)
  }

  function ParseHubs(b: Frame): Option<seq<HubInfo>>
  {
    if |b| < 1 then None else ParseEntries(b[1..], b[0])
  }

  function Prepend(hubs: seq<HubInfo>, r: Option<seq<HubInfo>>): Option<seq<HubInfo>>
  {
    match r
    case None => None
    case Some(rest) => Some(hubs + rest)
  }

  /** One turn of the parsing loop. */
  lemma ParseOne(b: Frame, count: nat, hubs: seq<HubInfo>)
    requires count > 0
    ensures |b| < 3 || |b| - 3 < b[2] ==> ParseEntries(b, count) == None
    ensures |b| >= 3 && |b| - 3 >= b[2] ==>
      FromBigEndian(b[..2]) < 0x1_0000 &&
      var h := HubInfo(FromBigEndian(b[..2]), b[3..3 + b[2]]);
      Prepend(hubs, ParseEntries(b, count)) == Prepend(hubs + [h], ParseEntries(b[3 + b[2]..], count - 1))
  {
    hide FromBigEndian;
    if |b| >= 3 && |b| - 3 >= b[2] {
      Unsigned(b[..2]);
      var h := HubInfo(FromBigEndian(b[..2]), b[3..3 + b[2]]);
      var r := ParseEntries(b[3 + b[2]..], count - 1);
      if r.Some? {
        assert hubs + ([h] + r.value) == hubs + [h] + r.value;
      }
    }
  }

  method ParseHubList(payload: Frame) returns (r: Option<seq<HubInfo>>)
    ensures r == ParseHubs(payload)
  {
    hide ParseEntries, FromBigEndian;
    if |payload| < 1 {
      return None;
    }
    var count: int := payload[0];
    var b := payload[1..];
    var hubs: seq<HubInfo> := [];
    assert ParseHubs(payload) == Prepend(hubs, ParseEntries(b, count)) by { PrependNothing(ParseEntries(b, count)); }
    for i := 0 to count
      invariant ParseHubs(payload) == Prepend(hubs, ParseEntries(b, count - i))
    {
      ParseOne(b, count - i, hubs);
      if |b| < 3 {
        return None;
      }
      var id := FromBigEndian(b[..2]);
      var n: int := b[2];
      ghost var was := b;
      b := b[3..];
      if |b| < n {
        return None;
      }
      assert b[..n] == was[3..3 + n] && b[n..] == was[3 + n..];
      hubs := hubs + [HubInfo(id, b[..n])];
      b := b[n..];
    }
    assert ParseEntries(b, 0) == Some([]) by { NoEntries(b); }
    assert hubs + [] == hubs;
    return Some(hubs);
  }

  lemma NoEntries(b: Frame)
    ensures ParseEntries(b, 0) == Some([])
  {
  }

  lemma PrependNothing(r: Option<seq<HubInfo>>)
    ensures Prepend([], r) == r
  {
    if r.Some? {
      assert [] + r.value == r.value;
    }
  }

  lemma {:induction false} EntriesParseIff(b: Frame, hubs: seq<HubInfo>)
    requires forall i :: 0 <= i < |hubs| ==> |hubs[i].name| <= MAX_NAME
    ensures ParseEntries(b, |hubs|) == Some(hubs) <==> EntriesBytes(hubs) <= b
  {
    hide EntryBytes, ParseEntries;
    if hubs == [] {
      NoEntries(b);
    } else {
      var e, rest := EntryBytes(hubs[0]), EntriesBytes(hubs[1..]);
      ParseHead(b, hubs);
      if e <= b {
        var after := b[|e|..];
        assert b == e + after;
        EntriesParseIff(after, hubs[1..]);
        PrefixAfter(e, rest, after);
      } else {
        PrefixOfSum(e, rest, b);
      }
    }
  }

  /** Parsing peels off one entry. */
  lemma ParseHead(b: Frame, hubs: seq<HubInfo>)
    requires hubs != [] && |hubs[0].name| <= MAX_NAME
    ensures ParseEntries(b, |hubs|) == Some(hubs) <==>
      EntryBytes(hubs[0]) <= b && ParseEntries(b[|EntryBytes(hubs[0])|..], |hubs| - 1) == Some(hubs[1..])
  {
    hide FromBigEndian, BigEndian, EntryBytes, ParseEntries;
    var h, n := hubs[0], |hubs[0].name|;
    EntryParsesIff(b, h);
    assert |EntryBytes(h)| == 3 + n by { EntrySize(h); }
    assert hubs == [h] + hubs[1..];
    ParseOne(b, |hubs|, []);
    PrependNothing(ParseEntries(b, |hubs|));
    if |b| >= 3 && |b| - 3 >= b[2] {
      var rest := ParseEntries(b[3 + b[2]..], |hubs| - 1);
      var first := HubInfo(FromBigEndian(b[..2]), b[3..3 + b[2]]);
      assert ParseEntries(b, |hubs|) == Prepend([first], rest) by { assert [] + [first] == [first]; }
      if rest.Some? {
        assert ([first] + rest.value)[0] == first && ([first] + rest.value)[1..] == rest.value;
      }
    }
  }

  lemma EntrySize(h: HubInfo)
    requires |h.name| <= MAX_NAME
    ensures |EntryBytes(h)| == 3 + |h.name|
  {
  }

  lemma PrefixOfSum(e: Frame, x: Frame, b: Frame)
    ensures e + x <= b ==> e <= b
  {
    if e + x <= b {
      assert b[..|e|] == (e + x)[..|e|] == e;
    }
  }

  lemma PrefixAfter(e: Frame, x: Frame, y: Frame)
    ensures e + x <= e + y <==> x <= y
  {
    if e + x <= e + y {
      assert x == (e + x)[|e|..] && y == (e + y)[|e|..];
    }
  }

  /** One entry: the fields the parser reads are h exactly when b starts with h's bytes. */
  lemma EntryParsesIff(b: Frame, h: HubInfo)
    requires |h.name| <= MAX_NAME
    ensures EntryBytes(h) <= b <==>
      (|b| >= 3 && |b[3..]| >= b[2] && FromBigEndian(b[..2]) == h.id && b[3..3 + b[2]] == h.name)
  {
    hide FromBigEndian, BigEndian, Pow256;
    Widths();
    BigEndianRoundTrip(h.id, 2);
    var e, n := EntryBytes(h), |h.name|;
    assert e[..2] == BigEndian(h.id, 2) && e[2] == n && e[3..] == h.name;
    if e <= b {
      assert b[..2] == e[..2] && b[2] == n && b[3..3 + n] == e[3..];
    }
    if |b| >= 3 && |b[3..]| >= b[2] && FromBigEndian(b[..2]) == h.id && b[3..3 + b[2]] == h.name {
      FromBigEndianRoundTrip(b[..2]);
      assert b[..3 + n] == b[..2] + [b[2]] + b[3..3 + n];
    }
  }

  lemma {:induction false} ParsedNamesFit(b: Frame, count: nat)
    ensures var r := ParseEntries(b, count);
      r.Some? ==> forall i :: 0 <= i < |r.value| ==> |r.value[i].name| <= MAX_NAME
  {
    hide FromBigEndian;
    if count > 0 && |b| >= 3 && |b[3..]| >= b[2] {
      ParsedNamesFit(b[3 + b[2]..], count - 1);
    }
  }

  /** Both directions of the hub list: a payload parses to a list exactly when the list fits the format and
      the payload starts with its bytes; so truncation anywhere is an error and what follows is ignored. */
  lemma HubListParsesIff(b: Frame, hubs: seq<HubInfo>)
    ensures ParseHubs(b) == Some(hubs) <==> Fits(hubs) && HubListBytes(hubs) <= b
  {
    hide FromBigEndian, BigEndian, ParseEntries, EntriesBytes;
    if ParseHubs(b) == Some(hubs) {
      ParsedNamesFit(b[1..], b[0]);
      assert Fits(hubs);
    }
    if Fits(hubs) && |b| > 0 {
      EntriesParseIff(b[1..], hubs);
      assert b == [b[0]] + b[1..];
      if b[0] == |hubs| {
        PrefixAfter([b[0]], EntriesBytes(hubs), b[1..]);
        assert HubListBytes(hubs) <= b <==> EntriesBytes(hubs) <= b[1..];
      } else {
        assert HubListBytes(hubs)[0] != b[0];
        assert ParseHubs(b) != Some(hubs);
      }
    }
  }

  /** The round trip: the parsed list is the sent one cut to 255 hubs and 255-byte names. */
  lemma HubListRoundTrip(hubs: seq<HubInfo>)
    ensures Fits(CutList(hubs)) && ParseHubs(HubListBytes(CutList(hubs))) == Some(CutList(hubs))
    ensures Fits(hubs) <==> CutList(hubs) == hubs
  {
    hide ParseHubs, HubListBytes;
    HubListParsesIff(HubListBytes(CutList(hubs)), CutList(hubs));
    if Fits(hubs) {
      assert forall i :: 0 <= i < |hubs| ==> CutList(hubs)[i] == hubs[i];
    } else if |hubs| <= MAX_HUBS {
      var i :| 0 <= i < |hubs| && |hubs[i].name| > MAX_NAME;
      assert CutList(hubs)[i] != hubs[i];
    }
  }
}
