/** One's-complement arithmetic of the Internet checksum. */
module OnesComplement {
  import opened Bytes

  const M := 0xFFFF

  /** The end-around carry fold of a sum of 16-bit words. */
  function Fold(sum: nat): (r: nat)
    ensures r <= M
    decreases sum
  {
    if sum <= M then sum else Fold(sum % 0x1_0000 + sum / 0x1_0000)
  }

  /** Folding keeps the residue modulo 65535 and never turns a positive sum into zero. */
  lemma {:induction false} FoldIs(sum: nat)
    ensures Fold(sum) % M == sum % M
    ensures sum > 0 ==> Fold(sum) > 0
    decreases sum
  {
    if sum > M {
      var hi, lo := sum / 0x1_0000, sum % 0x1_0000;
      FoldIs(lo + hi);
      assert sum == M * hi + (lo + hi);
      ModShift(lo + hi, hi);
    }
  }

  lemma ModShift(x: int, k: int)
    ensures (M * k + x) % M == x % M
  {
  }

  /** A positive sum folds to all ones exactly when 65535 divides it. */
  lemma FoldAllOnes(sum: nat)
    requires sum > 0
    ensures Fold(sum) == M <==> sum % M == 0
  {
    FoldIs(sum);
  }

  /** Two positive sums with one residue fold alike. */
  lemma FoldUnique(a: nat, b: nat)
    requires a > 0 && b > 0 && a % M == b % M
    ensures Fold(a) == Fold(b)
  {
    FoldIs(a);
    FoldIs(b);
  }

  /** The weight of a byte in a sum of big-endian words: high byte at even offsets. */
  function Weight(i: nat): nat
  {
    if i % 2 == 0 then 0x100 else 1
  }

  /** The sum of the 16-bit words of a byte string, the last word zero-padded. */
  function WordSum(f: Frame): nat
  {
    if f == [] then 0 else WordSum(f[..|f| - 1]) + f[|f| - 1] * Weight(|f| - 1)
  }

  lemma {:induction false} WordSumUpdate(f: Frame, i: nat, b: Byte)
    requires i < |f|
    ensures WordSum(f[i := b]) == WordSum(f) + (b - f[i]) * Weight(i)
  {
    var n := |f| - 1;
    var g := f[i := b];
    if i == n {
      assert g[..n] == f[..n];
      assert b * Weight(n) == f[n] * Weight(n) + (b - f[n]) * Weight(n);
    } else {
      assert g[..n] == f[..n][i := b];
      WordSumUpdate(f[..n], i, b);
    }
  }

  /** Replacing the two bytes of a 16-bit value changes the sum by the difference of the values at an
      even offset, and by the difference of the byte-swapped values at an odd one. */
  lemma WordSumStore(f: Frame, i: nat, v: nat)
    requires i + 1 < |f| && v <= M
    ensures var was := U16(f[i], f[i + 1]);
      WordSum(f[i := v / 0x100][i + 1 := v % 0x100]) == WordSum(f) +
        if i % 2 == 0 then v - was else (v / 0x100 - f[i]) + 0x100 * (v % 0x100 - f[i + 1])
  {
    WordSumUpdate(f, i, v / 0x100);
    WordSumUpdate(f[i := v / 0x100], i + 1, v % 0x100);
  }
}

/** Clamping of the TCP MSS option with an incremental checksum update. */
module MssClamp {
  import opened Bytes
  import opened OnesComplement

  // ---------- the frame ----------

  const ETH := 14

  function Ihl(f: Frame): nat
    requires |f| > ETH
  {
    f[ETH] % 16 * 4
  }

  /** The first byte of the TCP header. */
  function TcpPos(f: Frame): nat
    requires |f| > ETH
  {
    ETH + Ihl(f)
  }

  function DataOff(f: Frame): nat
    requires |f| > ETH && TcpPos(f) + 20 <= |f|
  {
    f[TcpPos(f) + 12] / 16 * 4
  }

  /** An IPv4 TCP SYN frame whose headers fit. */
  predicate IsTcpSyn(f: Frame)
  {
    && |f| >= ETH && U16(f[12], f[13]) == 0x0800
    && |f| - ETH >= 20 && f[ETH] / 16 == 4
    && Ihl(f) >= 20 && |f| - ETH >= Ihl(f) && f[ETH + 9] == 6
    && |f| - TcpPos(f) >= 20 && f[TcpPos(f) + 13] / 2 % 2 == 1
    && DataOff(f) >= 20 && |f| - TcpPos(f) >= DataOff(f)
  }

  /** Where the first well-formed MSS option starts, scanning f from position i up to end. */
  function FindMss(f: Frame, i: nat, end: nat): (r: Option<nat>)
    requires end <= |f|
    ensures r.Some? ==> i <= r.value && r.value + 4 <= end && f[r.value] == 2 && f[r.value + 1] == 4
    decreases end - i
  {
    if i + 1 >= end then None
    else if f[i] == 0 then None
    else if f[i] == 1 then FindMss(f, i + 1, end)
    else if f[i + 1] < 2 || i + f[i + 1] > end then None
    else if f[i] == 2 && f[i + 1] == 4 then Some(i)
    else FindMss(f, i + f[i + 1], end)
  }

  /** The position of the MSS value. */
  function MssPos(f: Frame): (r: Option<nat>)
    ensures r.Some? ==> |f| > ETH + 20 && Ihl(f) >= 20 && TcpPos(f) + 20 <= |f|
    ensures r.Some? ==> TcpPos(f) + 22 <= r.value && r.value + 2 <= TcpPos(f) + DataOff(f) <= |f|
  {
    if !IsTcpSyn(f) then None
    else match FindMss(f, TcpPos(f) + 20, TcpPos(f) + DataOff(f))
      case None => None
      case Some(i) => Some(i + 2)
  }

  function Mss(f: Frame): nat
    requires MssPos(f).Some?
  {
    U16(f[MssPos(f).value], f[MssPos(f).value + 1])
  }

  function ChecksumPos(f: Frame): nat
    requires |f| > ETH
  {
    TcpPos(f) + 16
  }

  // ---------- the clamp ----------

  /** Store16 of a value at a position: PutUint16 on a copy. */
  function Store(f: Frame, p: nat, v: nat): (g: Frame)
    requires p + 1 < |f| && v <= M
    ensures |g| == |f| && U16(g[p], g[p + 1]) == v
    ensures forall i :: 0 <= i < |f| && i != p && i != p + 1 ==> g[i] == f[i]
  {
    f[p := v / 0x100][p + 1 := v % 0x100]
  }

  /** The incremental update of fixChecksum16: Eqn. 3 in section 3 of RFC 1624. */
  function FixedChecksum(ck: nat, old16: nat, new16: nat): (r: nat)
    requires ck <= M && old16 <= M && new16 <= M
    ensures r <= M
  {
    M - Fold((M - ck) + (M - old16) + new16)
  }

  function Clamp(f: Frame, maxMSS: nat): Frame
    requires maxMSS <= M
  {
    if maxMSS == 0 || MssPos(f).None? || Mss(f) <= maxMSS then f
    else
      var ckPos := ChecksumPos(f);
      var ck := U16(f[ckPos], f[ckPos + 1]);
      Store(Store(f, MssPos(f).value, maxMSS), ckPos, FixedChecksum(ck, Mss(f), maxMSS))
  }

  /** The fold loop of fixChecksum16. */
  method FoldSum(start: nat) returns (sum: nat)
    ensures sum == Fold(start)
  {
    sum := start;
    while sum / 0x1_0000 != 0
      invariant Fold(sum) == Fold(start)
      decreases sum
    {
      sum := sum % 0x1_0000 + sum / 0x1_0000;
    }
  }

  /** fixChecksum16, in place on the two checksum bytes. */
  method FixChecksum16(ck: array<Byte>, p: nat, oldVal: nat, newVal: nat)
    requires p + 1 < ck.Length && oldVal <= M && newVal <= M
    modifies ck
    ensures ck[..] == Store(old(ck[..]), p, FixedChecksum(U16(old(ck[p]), old(ck[p + 1])), oldVal, newVal))
  {
    hide Fold;
    ghost var was := ck[..];
    var hc := U16(ck[p], ck[p + 1]);
    var sum := FoldSum((M - hc) + (M - oldVal) + newVal);
    var stored := PutU16(M - sum);
    ck[p], ck[p + 1] := stored[0], stored[1];
    assert ck[..] == was[p := stored[0]][p + 1 := stored[1]];
  }

  /** The header checks of ClampTCPMSS: the ends of the TCP header, or None for any early return. */
  method ParseSyn(frame: array<Byte>) returns (res: Option<(nat, nat)>)
    ensures res.Some? <==> IsTcpSyn(frame[..])
    ensures res.Some? ==> res.value == (TcpPos(frame[..]), DataOff(frame[..]))
  {
    if frame.Length < ETH || U16(frame[12], frame[13]) != 0x0800 {
      return None;
    }
    if frame.Length - ETH < 20 || frame[ETH] / 16 != 4 {
      return None;
    }
    var ihl := frame[ETH] % 16 * 4;
    if ihl < 20 || frame.Length - ETH < ihl || frame[ETH + 9] != 6 {
      return None;
    }
    var tcp := ETH + ihl;
    if frame.Length - tcp < 20 || frame[tcp + 13] / 2 % 2 == 0 {
      return None;
    }
    var dataOff := frame[tcp + 12] / 16 * 4;
    if dataOff < 20 || frame.Length - tcp < dataOff {
      return None;
    }
    res := Some((tcp, dataOff));
  }

  /** The option loop of ClampTCPMSS. */
  method ScanOptions(frame: array<Byte>, start: nat, end: nat) returns (res: Option<nat>)
    requires start <= end <= frame.Length
    ensures res == FindMss(frame[..], start, end)
  {
    var i := start;
    while i + 1 < end
      invariant FindMss(frame[..], i, end) == FindMss(frame[..], start, end)
      decreases end - i
    {
      if frame[i] == 0 {
        return None;
      }
      if frame[i] == 1 {
        i := i + 1;
        continue;
      }
      var optLen := frame[i + 1];
      if optLen < 2 || i + optLen > end {
        return None;
      }
      if frame[i] == 2 && optLen == 4 {
        return Some(i);
      }
      i := i + optLen;
    }
    res := None;
  }

  /** The copy-on-write of ClampTCPMSS. */
  method Rewrite(frame: array<Byte>, mssAbs: nat, ckAbs: nat, was: nat, maxMSS: nat) returns (out: array<Byte>)
    requires ckAbs + 1 < mssAbs && mssAbs + 1 < frame.Length && was <= M && maxMSS <= M
    ensures fresh(out)
    ensures out[..] == Store(Store(frame[..], mssAbs, maxMSS), ckAbs,
                             FixedChecksum(U16(frame[ckAbs], frame[ckAbs + 1]), was, maxMSS))
  {
    hide FixedChecksum;
    out := new Byte[frame.Length](j requires 0 <= j < frame.Length reads frame => frame[j]);
    assert out[..] == frame[..];
    out[mssAbs], out[mssAbs + 1] := maxMSS / 0x100, maxMSS % 0x100;
    assert out[..] == Store(frame[..], mssAbs, maxMSS);
    FixChecksum16(out, ckAbs, was, maxMSS);
  }

  /** ClampTCPMSS: the frame itself when nothing is clamped, otherwise a changed copy; the input
      array is never written. */
  method ClampTCPMSS(frame: array<Byte>, maxMSS: nat) returns (out: array<Byte>)
    requires maxMSS <= M
    ensures out[..] == Clamp(frame[..], maxMSS)
    ensures out == frame || fresh(out)
    ensures frame[..] == old(frame[..])
  {
    hide IsTcpSyn, FindMss, FixedChecksum, Store;
    ghost var f := frame[..];
    if maxMSS == 0 {
      return frame;
    }
    var syn := ParseSyn(frame);
    if syn.None? {
      NotSyn(f);
      return frame;
    }
    var (tcp, dataOff) := syn.value;
    SynShape(f);
    var opt := ScanOptions(frame, tcp + 20, tcp + dataOff);
    if opt.None? {
      return frame;
    }
    var mssAbs := opt.value + 2;
    var was := U16(frame[mssAbs], frame[mssAbs + 1]);
    if was <= maxMSS {
      return frame;
    }
    out := Rewrite(frame, mssAbs, tcp + 16, was, maxMSS);
  }

  lemma NotSyn(f: Frame)
    requires !IsTcpSyn(f)
    ensures MssPos(f).None?
  {
  }

  lemma SynShape(f: Frame)
    requires IsTcpSyn(f)
    ensures |f| > ETH + 20 && Ihl(f) >= 20 && TcpPos(f) + 20 <= TcpPos(f) + DataOff(f) <= |f|
    ensures var at := FindMss(f, TcpPos(f) + 20, TcpPos(f) + DataOff(f));
      MssPos(f) == if at.None? then None else Some(at.value + 2)
  {
  }

  // ---------- what a clamp leaves alone ----------

  /** The scan reads nothing at or beyond the value of the option it finds. */
  lemma {:induction false} FindMssStable(f: Frame, g: Frame, i: nat, end: nat)
    requires end <= |f| == |g| && FindMss(f, i, end).Some?
    requires forall j :: i <= j < FindMss(f, i, end).value + 2 ==> g[j] == f[j]
    ensures FindMss(g, i, end) == FindMss(f, i, end)
    decreases end - i
  {
    assert g[i] == f[i] && g[i + 1] == f[i + 1];
    if f[i] == 1 {
      FindMssStable(f, g, i + 1, end);
    } else if !(f[i] == 2 && f[i + 1] == 4) {
      FindMssStable(f, g, i + f[i + 1], end);
    }
  }

  lemma SynStable(f: Frame, g: Frame)
    requires IsTcpSyn(f) && |g| == |f|
    requires forall i :: 0 <= i < |f| && i < TcpPos(f) + 16 ==> g[i] == f[i]
    ensures IsTcpSyn(g) && TcpPos(g) == TcpPos(f) && DataOff(g) == DataOff(f)
  {
    assert Ihl(g) == Ihl(f);
  }

  /** A frame that differs only in the MSS value and the checksum is parsed alike. */
  lemma ParseStable(f: Frame, g: Frame)
    requires MssPos(f).Some? && |g| == |f|
    requires var p, q := MssPos(f).value, ChecksumPos(f);
      forall i :: 0 <= i < |f| && i != p && i != p + 1 && i != q && i != q + 1 ==> g[i] == f[i]
    ensures MssPos(g) == MssPos(f) && ChecksumPos(g) == ChecksumPos(f)
  {
    SynStable(f, g);
    hide IsTcpSyn;
    FindMssStable(f, g, TcpPos(f) + 20, TcpPos(f) + DataOff(f));
    SynShape(g);
    SynShape(f);
  }

  /** A clamp changes at most the two MSS bytes and the two checksum bytes, and leaves an MSS no
      larger than asked for. */
  lemma ClampIsLocal(f: Frame, maxMSS: nat)
    requires 0 < maxMSS <= M
    ensures var g := Clamp(f, maxMSS);
      && |g| == |f|
      && MssPos(g) == MssPos(f)
      && (MssPos(f).None? ==> g == f)
      && (MssPos(f).Some? ==>
            && Mss(g) == (if Mss(f) <= maxMSS then Mss(f) else maxMSS)
            && ChecksumPos(g) == ChecksumPos(f)
            && var p, q := MssPos(f).value, ChecksumPos(f);
            forall i :: 0 <= i < |f| && i != p && i != p + 1 && i != q && i != q + 1 ==> g[i] == f[i])
  {
    var g := Clamp(f, maxMSS);
    if MssPos(f).Some? && Mss(f) > maxMSS {
      ParseStable(f, g);
    }
  }

  // ---------- composition ----------

  /** Two updates in a row are the update from the first value to the last. */
  lemma FixCompose(ck: nat, a: nat, b: nat, c: nat)
    requires ck <= M && a <= M && 0 < b <= M && 0 < c <= M
    ensures FixedChecksum(FixedChecksum(ck, a, b), b, c) == FixedChecksum(ck, a, c)
  {
    var s1 := (M - ck) + (M - a) + b;
    var s2 := Fold(s1) + (M - b) + c;
    var s := (M - ck) + (M - a) + c;
    FoldIs(s1);
    assert s2 % M == s % M by {
      var k1, k2 := s1 / M, Fold(s1) / M;
      assert s1 == M * k1 + s1 % M && Fold(s1) == M * k2 + Fold(s1) % M;
      assert s2 == s + M * (k2 - k1 + 1);
      ModShift(s, k2 - k1 + 1);
    }
    FoldUnique(s2, s);
  }

  /** Main theorem. Clamping twice is clamping once to the smaller bound, byte for byte. */
  lemma ClampsCompose(f: Frame, a: nat, b: nat)
    requires 0 < a <= M && 0 < b <= M
    ensures Clamp(Clamp(f, a), b) == Clamp(f, if a <= b then a else b)
  {
    hide FindMss, FixedChecksum, IsTcpSyn;
    ClampIsLocal(f, a);
    if MssPos(f).Some? && Mss(f) > a && a > b {
      var p, q := MssPos(f).value, ChecksumPos(f);
      var g := Clamp(f, a);
      var ck := U16(f[q], f[q + 1]);
      FixCompose(ck, Mss(f), a, b);
      assert U16(g[q], g[q + 1]) == FixedChecksum(ck, Mss(f), a);
      assert Clamp(g, b) == Clamp(f, b);
    }
  }

  // ---------- the checksum ----------

  /** The pseudo-header of section 3.1 of RFC 9293: addresses, protocol and segment length. */
  function PseudoSum(f: Frame, segLen: nat): nat
    requires |f| >= ETH + 20
  {
    WordSum(f[ETH + 12..ETH + 20]) + 6 + segLen
  }

  function SegmentSum(f: Frame, segLen: nat): nat
    requires |f| > ETH && TcpPos(f) + segLen <= |f|
  {
    WordSum(f[TcpPos(f)..TcpPos(f) + segLen])
  }

  /** The receiver's test: the sum with the checksum in place folds to all ones. */
  ghost predicate ChecksumValid(f: Frame, segLen: nat)
    requires |f| >= ETH + 20 && TcpPos(f) + segLen <= |f|
  {
    Fold(PseudoSum(f, segLen) + SegmentSum(f, segLen)) == M
  }

  /** How much larger the byte-swapped new value is than the byte-swapped old one. */
  function SwappedDiff(hi: int, lo: int, new16: int): int
  {
    (new16 / 0x100 - hi) + 0x100 * (new16 % 0x100 - lo)
  }

  /** The change of a segment's sum when a value at p and one at the even offset q are replaced. */
  lemma TwoStores(seg: Frame, p: nat, v: nat, q: nat, w: nat)
    requires q + 1 < p && p + 1 < |seg| && q % 2 == 0 && v <= M && w <= M
    ensures WordSum(Store(Store(seg, p, v), q, w)) == WordSum(seg)
      + (w - U16(seg[q], seg[q + 1]))
      + if p % 2 == 0 then v - U16(seg[p], seg[p + 1]) else SwappedDiff(seg[p], seg[p + 1], v)
  {
    WordSumStore(seg, p, v);
    WordSumStore(Store(seg, p, v), q, w);
  }

  lemma StoreInSlice(f: Frame, t: nat, n: nat, p: nat, v: nat)
    requires t <= p && p + 1 < t + n <= |f| && v <= M
    ensures Store(f, p, v)[t..t + n] == Store(f[t..t + n], p - t, v)
  {
  }

  lemma StoreOutsideSlice(f: Frame, lo: nat, hi: nat, p: nat, v: nat)
    requires lo <= hi <= p && p + 1 < |f| && v <= M
    ensures Store(f, p, v)[lo..hi] == f[lo..hi]
  {
  }

  lemma ClampForm(f: Frame, maxMSS: nat)
    requires 0 < maxMSS <= M && MssPos(f).Some? && Mss(f) > maxMSS
    ensures var p, q := MssPos(f).value, ChecksumPos(f);
      && Clamp(f, maxMSS) == Store(Store(f, p, maxMSS), q, FixedChecksum(U16(f[q], f[q + 1]), Mss(f), maxMSS))
      && TcpPos(Clamp(f, maxMSS)) == TcpPos(f) >= ETH + 20
  {
    hide FindMss, IsTcpSyn, FixedChecksum, MssPos, Store;
  }

  /** The change of the segment sum when both fields are rewritten. */
  lemma SegmentSumClamped(f: Frame, maxMSS: nat, segLen: nat)
    requires 0 < maxMSS <= M && MssPos(f).Some? && Mss(f) > maxMSS
    requires DataOff(f) <= segLen && TcpPos(f) + segLen <= |f|
    ensures var g := Clamp(f, maxMSS);
      var p, q := MssPos(f).value, ChecksumPos(f);
      && |g| == |f| && TcpPos(g) == TcpPos(f)
      && PseudoSum(g, segLen) == PseudoSum(f, segLen)
      && SegmentSum(g, segLen) == SegmentSum(f, segLen)
           + (FixedChecksum(U16(f[q], f[q + 1]), Mss(f), maxMSS) - U16(f[q], f[q + 1]))
           + if (p - TcpPos(f)) % 2 == 0 then maxMSS - Mss(f) else SwappedDiff(f[p], f[p + 1], maxMSS)
  {
    hide FindMss, IsTcpSyn, FixedChecksum, WordSum, MssPos, Store, SwappedDiff, Clamp, TcpPos;
    var t, p, q := TcpPos(f), MssPos(f).value, ChecksumPos(f);
    var new16: nat := FixedChecksum(U16(f[q], f[q + 1]), Mss(f), maxMSS);
    var f1 := Store(f, p, maxMSS);
    var g := Store(f1, q, new16);
    ClampForm(f, maxMSS);
    StoreOutsideSlice(f, ETH + 12, ETH + 20, p, maxMSS);
    StoreOutsideSlice(f1, ETH + 12, ETH + 20, q, new16);
    StoreInSlice(f, t, segLen, p, maxMSS);
    StoreInSlice(f1, t, segLen, q, new16);
    TwoStores(f[t..t + segLen], p - t, maxMSS, q - t, new16);
  }

  /** The updated checksum is the old one plus the old value minus the new, modulo 65535. */
  lemma FixedResidue(ck: nat, old16: nat, new16: nat) returns (k: int)
    requires ck <= M && old16 <= M && new16 <= M
    ensures FixedChecksum(ck, old16, new16) == ck + old16 - new16 + M * k
  {
    var s := (M - ck) + (M - old16) + new16;
    FoldIs(s);
    k := s / M - Fold(s) / M - 1;
    assert s == M * (s / M) + s % M && Fold(s) == M * (Fold(s) / M) + Fold(s) % M;
  }

  lemma Multiple255(d: int)
    ensures (255 * d) % M == 0 <==> d % 257 == 0
  {
    var q, r := d / 257, d % 257;
    assert d == 257 * q + r;
    assert 255 * d == M * q + 255 * r;
    ModShift(255 * r, q);
  }

  lemma Remainder257(q: int, x: int)
    requires 0 <= x < 257
    ensures (257 * q + x) % 257 == x
  {
  }

  lemma Multiple257(x: int, d: int)
    ensures (257 * x - d) % 257 == 0 <==> d % 257 == 0
  {
    var q, r := d / 257, d % 257;
    assert d == 257 * q + r;
    if r == 0 {
      Remainder257(x - q, 0);
    } else {
      Remainder257(x - q - 1, 257 - r);
    }
  }

  /** With the value at an odd offset the two changes cancel only for differences divisible by 257. */
  lemma OddOffsetResidue(oldHi: Byte, oldLo: Byte, new16: nat)
    requires new16 <= M
    ensures ((U16(oldHi, oldLo) - new16) + SwappedDiff(oldHi, oldLo, new16)) % M == 0 <==>
            (U16(oldHi, oldLo) - new16) % 257 == 0
  {
    var oh: int, ol: int, nh, nl := oldHi, oldLo, new16 / 0x100, new16 % 0x100;
    var d := (oh - nh) - (ol - nl);
    var diff := U16(oldHi, oldLo) - new16;
    assert diff == 0x100 * (oh - nh) + (ol - nl);
    assert diff + SwappedDiff(oldHi, oldLo, new16) == 255 * d;
    assert diff == 257 * (oh - nh) - d;
    Multiple255(d);
    Multiple257(oh - nh, d);
  }

  /** Main theorem, exactly. On a segment with a valid TCP checksum the clamp keeps it valid if and
      only if there is nothing to lower, the MSS value lies at an even offset of the segment, or the old
      and the new MSS differ by a multiple of 257. */
  lemma ChecksumPreservedIff(f: Frame, maxMSS: nat, segLen: nat)
    requires maxMSS <= M && IsTcpSyn(f)
    requires DataOff(f) <= segLen && TcpPos(f) + segLen <= |f|
    requires ChecksumValid(f, segLen)
    ensures var g := Clamp(f, maxMSS);
      && |g| == |f| && TcpPos(g) == TcpPos(f)
      && (ChecksumValid(g, segLen) <==>
            maxMSS == 0 || MssPos(f).None? || Mss(f) <= maxMSS ||
            (MssPos(f).value - TcpPos(f)) % 2 == 0 || (Mss(f) - maxMSS) % 257 == 0)
  {
    hide FindMss, ChecksumValid, IsTcpSyn, Delta;
    SynShape(f);
    if maxMSS > 0 && MssPos(f).Some? && Mss(f) > maxMSS {
      ClampIsLocal(f, maxMSS);
      assert Mss(Clamp(f, maxMSS)) != Mss(f);
      hide Clamp, MssPos;
      ValidIffDelta(f, maxMSS, segLen);
      DeltaZeroIff(f, maxMSS);
    }
  }

  /** After a clamp the checksum is valid exactly when the changes cancel modulo 65535. */
  lemma ValidIffDelta(f: Frame, maxMSS: nat, segLen: nat)
    requires 0 < maxMSS <= M && MssPos(f).Some? && Mss(f) > maxMSS
    requires DataOff(f) <= segLen && TcpPos(f) + segLen <= |f|
    requires ChecksumValid(f, segLen)
    ensures var g := Clamp(f, maxMSS);
      && |g| == |f| && TcpPos(g) == TcpPos(f)
      && (ChecksumValid(g, segLen) <==> Delta(f, maxMSS) % M == 0)
  {
    hide FindMss, Fold, PseudoSum, SegmentSum, IsTcpSyn, Clamp, MssPos, Delta;
    var g := Clamp(f, maxMSS);
    var k := ClampedSum(f, maxMSS, segLen);
    var was := PseudoSum(f, segLen) + SegmentSum(f, segLen);
    var now := PseudoSum(g, segLen) + SegmentSum(g, segLen);
    PseudoPositive(f, segLen);
    PseudoPositive(g, segLen);
    FoldAllOnes(was);
    FoldAllOnes(now);
    MultipleOf(was, Delta(f, maxMSS), k);
  }

  lemma DeltaZeroIff(f: Frame, maxMSS: nat)
    requires maxMSS <= M && MssPos(f).Some?
    ensures Delta(f, maxMSS) % M == 0 <==>
      (MssPos(f).value - TcpPos(f)) % 2 == 0 || (Mss(f) - maxMSS) % 257 == 0
  {
    hide MssPos, SwappedDiff;
    OddOffsetResidue(f[MssPos(f).value], f[MssPos(f).value + 1], maxMSS);
  }

  lemma PseudoPositive(f: Frame, segLen: nat)
    requires |f| >= ETH + 20
    ensures PseudoSum(f, segLen) > 0
  {
  }

  /** What the rewritten value and the incremental update together add to the sum, modulo 65535. */
  function Delta(f: Frame, maxMSS: nat): int
    requires MssPos(f).Some?
  {
    var p := MssPos(f).value;
    (Mss(f) - maxMSS) +
      if (p - TcpPos(f)) % 2 == 0 then maxMSS - Mss(f)
      else SwappedDiff(f[p], f[p + 1], maxMSS)
  }

  lemma ClampedSum(f: Frame, maxMSS: nat, segLen: nat) returns (k: int)
    requires 0 < maxMSS <= M && MssPos(f).Some? && Mss(f) > maxMSS
    requires DataOff(f) <= segLen && TcpPos(f) + segLen <= |f|
    ensures var g := Clamp(f, maxMSS);
      && |g| == |f| && TcpPos(g) == TcpPos(f)
      && PseudoSum(g, segLen) + SegmentSum(g, segLen) ==
           PseudoSum(f, segLen) + SegmentSum(f, segLen) + Delta(f, maxMSS) + M * k
  {
    hide FindMss, WordSum, FixedChecksum, PseudoSum, SegmentSum, IsTcpSyn, Clamp, MssPos;
    SegmentSumClamped(f, maxMSS, segLen);
    var q := ChecksumPos(f);
    k := FixedResidue(U16(f[q], f[q + 1]), Mss(f), maxMSS);
  }

  lemma MultipleOf(was: int, delta: int, k: int)
    requires was % M == 0
    ensures (was + delta + M * k) % M == 0 <==> delta % M == 0
  {
    ModShift(delta, was / M + k);
    assert was + delta + M * k == M * (was / M + k) + delta;
  }

  // ---------- a frame whose checksum the clamp breaks ----------

  lemma {:induction false} WordSumZeros(n: nat)
    ensures WordSum(seq(n, i => 0)) == 0
  {
    if n > 0 {
      var z: Frame := seq(n, i => 0);
      assert z[..n - 1] == seq(n - 1, i => 0);
      WordSumZeros(n - 1);
    }
  }

  /** A TCP header whose options are NOP, MSS 1460, end: the MSS value starts at offset 23. */
  function OddSegment(): (seg: Frame)
    ensures |seg| == 28
  {
    var z: Frame := seq(28, i => 0);
    z[12 := 0x70][13 := 2][16 := 0xD6][17 := 0xD3][20 := 1][21 := 2][22 := 4][23 := 5][24 := 0xB4]
  }

  lemma OddSegmentSum()
    ensures WordSum(OddSegment()) == 131036
  {
    hide WordSum;
    var z: Frame := seq(28, i => 0);
    WordSumZeros(28);
    var z1 := z[12 := 0x70];
    WordSumUpdate(z, 12, 0x70);
    var z2 := z1[13 := 2];
    WordSumUpdate(z1, 13, 2);
    var z3 := z2[16 := 0xD6];
    WordSumUpdate(z2, 16, 0xD6);
    var z4 := z3[17 := 0xD3];
    WordSumUpdate(z3, 17, 0xD3);
    var z5 := z4[20 := 1];
    WordSumUpdate(z4, 20, 1);
    var z6 := z5[21 := 2];
    WordSumUpdate(z5, 21, 2);
    var z7 := z6[22 := 4];
    WordSumUpdate(z6, 22, 4);
    var z8 := z7[23 := 5];
    WordSumUpdate(z7, 23, 5);
    WordSumUpdate(z8, 24, 0xB4);
  }

  function OddFrame(): (f: Frame)
    ensures |f| == 62
  {
    var head: Frame := seq(34, i => 0);
    head[12 := 8][14 := 0x45][23 := 6] + OddSegment()
  }

  lemma OddFrameParses()
    ensures var f := OddFrame();
      IsTcpSyn(f) && TcpPos(f) == 34 && DataOff(f) == 28 && MssPos(f) == Some(57) && Mss(f) == 1460
  {
    hide FindMss;
    var f := OddFrame();
    assert IsTcpSyn(f) && TcpPos(f) == 34 && DataOff(f) == 28;
    OddFrameOption();
  }

  lemma OddFrameOption()
    ensures FindMss(OddFrame(), 54, 62) == Some(55)
  {
    var f := OddFrame();
    assert f[54] == 1 && f[55] == 2 && f[56] == 4;
  }

  lemma OddFrameValid()
    ensures TcpPos(OddFrame()) == 34 && ChecksumValid(OddFrame(), 28)
  {
    hide WordSum, Fold;
    var f := OddFrame();
    OddSegmentSum();
    WordSumZeros(8);
    assert f[34..62] == OddSegment();
    assert f[26..34] == seq(8, i => 0);
    FoldAllOnes(131070);
  }

  /** The clamp does not always keep the checksum valid: an MSS of 1460 behind a single NOP. */
  lemma OddOffsetFails(f: Frame)
    requires f == OddFrame()
    ensures IsTcpSyn(f) && TcpPos(f) == 34 && DataOff(f) == 28 && ChecksumValid(f, 28)
    ensures |Clamp(f, 1300)| == |f| && TcpPos(Clamp(f, 1300)) == 34
    ensures !ChecksumValid(Clamp(f, 1300), 28)
  {
    OddFrameParses();
    OddFrameValid();
    OddOffsetBreaks(f);
  }

  lemma OddOffsetBreaks(f: Frame)
    requires IsTcpSyn(f) && TcpPos(f) == 34 && DataOff(f) == 28 && |f| == 62
    requires MssPos(f) == Some(57) && Mss(f) == 1460 && ChecksumValid(f, 28)
    ensures |Clamp(f, 1300)| == |f| && TcpPos(Clamp(f, 1300)) == 34
    ensures !ChecksumValid(Clamp(f, 1300), 28)
  {
    hide Clamp, IsTcpSyn, ChecksumValid, FindMss;
    ClampIsLocal(f, 1300);
    ChecksumPreservedIff(f, 1300, 28);
  }
}
