/** The erasure code of a FEC block: XOR parity for one repair symbol, Reed-Solomon for more.
    The XOR code is modelled and proved; the Reed-Solomon library is a value with a law. */
module Erasure {
  import opened Bytes

  // ---------- padding and lengths ----------

  function Pad(f: Frame, n: nat): (p: Frame)
    requires |f| <= n
    ensures |p| == n
  {
    f + seq(n - |f|, i => 0)
  }

  /** out is orig followed by zeros only. */
  ghost predicate IsPaddingOf(out: Frame, orig: Frame)
  {
    |orig| <= |out| && out == Pad(orig, |out|)
  }

  function MaxLen(fs: seq<Frame>): (n: nat)
    ensures forall i :: 0 <= i < |fs| ==> |fs[i]| <= n
    ensures n == 0 || exists i :: 0 <= i < |fs| && |fs[i]| == n
  {
    if fs == [] then 0
    else
      var m := MaxLen(fs[..|fs| - 1]);
      var f := fs[|fs| - 1];
      assert forall i :: 0 <= i < |fs| - 1 ==> fs[..|fs| - 1][i] == fs[i];
      if |f| > m then |f| else m
  }

  lemma MaxLenIs(fs: seq<Frame>, n: nat)
    requires forall i :: 0 <= i < |fs| ==> |fs[i]| <= n
    requires n == 0 || exists i :: 0 <= i < |fs| && |fs[i]| == n
    ensures MaxLen(fs) == n
  {
  }

  function PadAll(fs: seq<Frame>, n: nat): (p: seq<Frame>)
    requires forall i :: 0 <= i < |fs| ==> |fs[i]| <= n
    ensures |p| == |fs|
  {
    seq(|fs|, i requires 0 <= i < |fs| => Pad(fs[i], n))
  }

  // ---------- the XOR code ----------

  /** The byte of a frame at a column, zero beyond its end. */
  function ByteAt(f: Frame, j: nat): Byte
  {
    if j < |f| then f[j] else 0
  }

  /** The XOR of one column over all frames. */
  function Parity(fs: seq<Frame>, j: nat): Byte
  {
    if fs == [] then 0 else Xor(Parity(fs[..|fs| - 1], j), ByteAt(fs[|fs| - 1], j))
  }

  function XorAll(fs: seq<Frame>): (x: Frame)
    ensures |x| == MaxLen(fs)
  {
    seq(MaxLen(fs), j requires 0 <= j => Parity(fs, j))
  }

  /** The frames of a block that have arrived; a missing one counts as empty. */
  function Known(data: seq<Option<Frame>>): (fs: seq<Frame>)
    ensures |fs| == |data|
  {
    seq(|data|, i requires 0 <= i < |data| => if data[i].Some? then data[i].value else [])
  }

  lemma {:induction false} ParityWithout(fs: seq<Frame>, m: nat, j: nat)
    requires m < |fs|
    ensures Parity(fs, j) == Xor(Parity(fs[m := []], j), ByteAt(fs[m], j))
  {
    hide Xor;
    var n := |fs| - 1;
    var gs := fs[m := []];
    if m == n {
      assert gs[..n] == fs[..n];
      XorZero(Parity(fs[..n], j));
    } else {
      assert gs[..n] == fs[..n][m := []];
      ParityWithout(fs[..n], m, j);
      XorSwap(Parity(gs[..n], j), ByteAt(fs[m], j), ByteAt(fs[n], j));
    }
  }

  /** The inner loop of xorAll and xorRecover: one packet XORed into a buffer, cut at the buffer's end
      (in xorAll the buffer is long enough). */
  method XorInto(out: array<Byte>, p: Frame)
    modifies out
    ensures forall j :: 0 <= j < out.Length ==> out[j] == Xor(old(out[j]), ByteAt(p, j))
  {
    hide Xor;
    for j := 0 to |p|
      invariant forall l :: 0 <= l < out.Length ==>
        out[l] == if l < j && l < |p| then Xor(old(out[l]), p[l]) else old(out[l])
    {
      if j < out.Length {
        out[j] := Xor(out[j], p[j]);
      }
    }
    forall j | 0 <= j < out.Length
      ensures out[j] == Xor(old(out[j]), ByteAt(p, j))
    {
      XorZero(old(out[j]));
    }
  }

  lemma ParityStep(fs: seq<Frame>, i: nat, j: nat)
    requires i < |fs|
    ensures Parity(fs[..i + 1], j) == Xor(Parity(fs[..i], j), ByteAt(fs[i], j))
  {
    assert fs[..i + 1][..i] == fs[..i];
  }

  /** xorAll of fec.go: the parity packet, computed column by column in place. */
  method ComputeParity(pkts: seq<Frame>) returns (out: array<Byte>)
    ensures fresh(out)
    ensures out[..] == XorAll(pkts)
  {
    var maxLen := 0;
    for n := 0 to |pkts|
      invariant maxLen == MaxLen(pkts[..n])
    {
      assert pkts[..n + 1][..n] == pkts[..n];
      if |pkts[n]| > maxLen {
        maxLen := |pkts[n]|;
      }
    }
    assert pkts[..|pkts|] == pkts;
    out := new Byte[maxLen](_ => 0);
    for n := 0 to |pkts|
      invariant fresh(out) && out.Length == maxLen
      invariant forall j :: 0 <= j < maxLen ==> out[j] == Parity(pkts[..n], j)
    {
      XorInto(out, pkts[n]);
      forall j | 0 <= j < maxLen
        ensures out[j] == Parity(pkts[..n + 1], j)
      {
        ParityStep(pkts, n, j);
      }
    }
  }

  // ---------- recovery ----------

  function MissingCount(data: seq<Option<Frame>>): nat
  {
    if data == [] then 0
    else MissingCount(data[..|data| - 1]) + if data[|data| - 1].None? then 1 else 0
  }

  /** What xorRecover computes for a block with one slot missing. */
  function XorRebuilt(data: seq<Option<Frame>>, repair: Frame): Frame
  {
    seq(|repair|, j requires 0 <= j < |repair| => Xor(repair[j], Parity(Known(data), j)))
  }

  lemma {:induction false} MissingCountZero(data: seq<Option<Frame>>)
    ensures MissingCount(data) == 0 <==> forall i :: 0 <= i < |data| ==> data[i].Some?
  {
    if data != [] {
      var n := |data| - 1;
      MissingCountZero(data[..n]);
      assert forall i :: 0 <= i < n ==> data[..n][i] == data[i];
      assert data[n] == data[|data| - 1];
      if forall i :: 0 <= i < |data| ==> data[i].Some? {
        assert forall i :: 0 <= i < n ==> data[..n][i].Some?;
      }
    }
  }

  lemma {:induction false} MissingCountPrefix(data: seq<Option<Frame>>, i: nat)
    requires i <= |data|
    ensures MissingCount(data[..i]) <= MissingCount(data)
    decreases |data| - i
  {
    if i == |data| {
      assert data[..i] == data;
    } else {
      assert data[..i + 1][..i] == data[..i];
      MissingCountPrefix(data, i + 1);
    }
  }

  /** The recovery loop of xorRecover: the repair symbol with every frame that arrived XORed out. */
  method XorOut(data: seq<Option<Frame>>, repair: Frame, missingIdx: nat) returns (recovered: array<Byte>)
    requires missingIdx < |data| && data[missingIdx].None?
    requires forall i :: 0 <= i < |data| && i != missingIdx ==> data[i].Some?
    ensures recovered[..] == XorRebuilt(data, repair)
  {
    hide Xor;
    recovered := new Byte[|repair|](j requires 0 <= j < |repair| => repair[j]);
    ghost var known := Known(data);
    forall j | 0 <= j < |repair|
      ensures recovered[j] == Xor(repair[j], Parity(known[..0], j))
    {
      XorZero(repair[j]);
    }
    for i := 0 to |data|
      invariant fresh(recovered) && recovered.Length == |repair|
      invariant forall j :: 0 <= j < |repair| ==> recovered[j] == Xor(repair[j], Parity(known[..i], j))
    {
      ghost var before := recovered[..];
      if i != missingIdx {
        XorInto(recovered, data[i].value);
      }
      forall j | 0 <= j < |repair|
        ensures recovered[j] == Xor(repair[j], Parity(known[..i + 1], j))
      {
        ParityStep(known, i, j);
        XorZero(before[j]);
        XorAssoc(repair[j], Parity(known[..i], j), ByteAt(known[i], j));
      }
    }
    assert known[..|data|] == known;
  }

  /** xorRecover of fec.go. The result is None for the error return, the filled slots otherwise. */
  method XorRecover(data: seq<Option<Frame>>, repair: Frame) returns (res: Option<seq<Frame>>)
    ensures res.None? <==> MissingCount(data) > 1
    ensures res.Some? ==> |res.value| == |data|
    ensures res.Some? ==> forall i :: 0 <= i < |data| ==>
      res.value[i] == if data[i].Some? then data[i].value else XorRebuilt(data, repair)
  {
    var missingIdx := -1;
    for i := 0 to |data|
      invariant -1 <= missingIdx < i
      invariant missingIdx == -1 ==> MissingCount(data[..i]) == 0
      invariant missingIdx != -1 ==> MissingCount(data[..i]) == 1 && data[missingIdx].None?
      invariant forall j :: 0 <= j < i && j != missingIdx ==> data[j].Some?
    {
      assert data[..i + 1][..i] == data[..i];
      if data[i].None? {
        if missingIdx >= 0 {
          MissingCountPrefix(data, i + 1);
          return None;
        }
        missingIdx := i;
      }
    }
    assert data[..|data|] == data;
    if missingIdx < 0 {
      return Some(Known(data));
    }
    var recovered := XorOut(data, repair, missingIdx);
    res := Some(Known(data)[missingIdx := recovered[..]]);
  }

  /** data holds the frames fs except at slot m, where it holds nothing. */
  ghost predicate OneMissing(data: seq<Option<Frame>>, fs: seq<Frame>, m: nat)
  {
    && m < |fs| == |data|
    && data[m] == None
    && forall i :: 0 <= i < |fs| && i != m ==> data[i] == Some(fs[i])
  }

  /** The law of the XOR code: the parity of a block rebuilds any one lost frame,
      zero-padded to the longest frame of the block. */
  lemma XorRecoveryIsExact(fs: seq<Frame>, data: seq<Option<Frame>>, m: nat)
    requires OneMissing(data, fs, m)
    ensures XorRebuilt(data, XorAll(fs)) == Pad(fs[m], MaxLen(fs))
  {
    hide Xor;
    assert Known(data) == fs[m := []];
    forall j | 0 <= j < MaxLen(fs)
      ensures XorRebuilt(data, XorAll(fs))[j] == Pad(fs[m], MaxLen(fs))[j]
    {
      ParityWithout(fs, m, j);
      XorCancel(Parity(fs[m := []], j), ByteAt(fs[m], j));
    }
  }

  // ---------- Reed-Solomon, by its law ----------

  /** A Reed-Solomon encoder for fixed k and r: Encode and ReconstructData of the library.
      None stands for an error return. */
  datatype ReedSolomon = ReedSolomon(
    encode: seq<Frame> -> Option<seq<Frame>>,
    reconstruct: seq<Option<Frame>> -> Option<seq<Frame>>)

  function CountTrue(flags: seq<bool>): nat
  {
    if flags == [] then 0
    else CountTrue(flags[..|flags| - 1]) + if flags[|flags| - 1] then 1 else 0
  }

  function Presence(shards: seq<Option<Frame>>): (p: seq<bool>)
    ensures |p| == |shards|
  {
    seq(|shards|, i requires 0 <= i < |shards| => shards[i].Some?)
  }

  ghost predicate AllOfLength(fs: seq<Frame>, n: nat)
  {
    forall i :: 0 <= i < |fs| ==> |fs[i]| == n
  }

  /** Every shard that is there is the codeword's. */
  ghost predicate PartOf(shards: seq<Option<Frame>>, codeword: seq<Frame>)
  {
    |shards| == |codeword| &&
    forall i :: 0 <= i < |shards| ==> shards[i] == None || shards[i] == Some(codeword[i])
  }

  /** ReconstructData returns as many data shards as the code has. */
  ghost predicate Shaped(rs: ReedSolomon, k: nat)
  {
    forall shards :: rs.reconstruct(shards).Some? ==> |rs.reconstruct(shards).value| == k
  }

  ghost predicate EncodesTo(rs: ReedSolomon, k: nat, r: nat, data: seq<Frame>, parity: seq<Frame>, n: nat)
  {
    |data| == k && |parity| == r && AllOfLength(data, n) && AllOfLength(parity, n) &&
    rs.encode(data) == Some(parity)
  }

  /** The law assumed of the library: equal-length data of at least one byte encodes, data of
      zero length is refused, and any k of the k + r shards give the data back. */
  ghost predicate Lawful(rs: ReedSolomon, k: nat, r: nat)
  {
    && Shaped(rs, k)
    && (forall data, n: nat :: |data| == k && 0 < n && AllOfLength(data, n) ==>
          rs.encode(data).Some? && EncodesTo(rs, k, r, data, rs.encode(data).value, n))
    && (forall data :: AllOfLength(data, 0) ==> rs.encode(data) == None)
    && (forall data, parity, n: nat, shards ::
          (EncodesTo(rs, k, r, data, parity, n) && 0 < n && PartOf(shards, data + parity) &&
           CountTrue(Presence(shards)) >= k) ==> rs.reconstruct(shards) == Some(data))
  }

  // ---------- the code of a block ----------

  /** The parameters of a FEC pipe. */
  datatype Code = Code(k: nat, r: nat, rs: ReedSolomon) {

    /** The range NewEncoder checks, and the law of the library where it is used. */
    ghost predicate Valid() {
      1 <= k <= 128 && r <= 32 && Shaped(rs, k) && (r > 1 ==> Lawful(rs, k, r))
    }
  }

  /** The repair symbols of a full block; None is the encoder's nil. */
  function EncodeBlock(c: Code, fs: seq<Frame>): Option<seq<Frame>>
  {
    if c.r == 0 then None
    else if c.r == 1 then Some([XorAll(fs)])
    else c.rs.encode(PadAll(fs, MaxLen(fs)))
  }

  function PadSlots(slots: seq<Option<Frame>>, n: nat): (s: seq<Option<Frame>>)
    requires MaxLen(Known(slots)) <= n
    ensures |s| == |slots|
  {
    seq(|slots|, i requires 0 <= i < |slots| =>
      if slots[i].Some? then (assert Known(slots)[i] == slots[i].value; Some(Pad(slots[i].value, n))) else None)
  }

  function RsShards(data: seq<Option<Frame>>, repair: seq<Option<Frame>>): seq<Option<Frame>>
  {
    var a, b := MaxLen(Known(data)), MaxLen(Known(repair));
    var n := if a >= b then a else b;
    PadSlots(data, n) + PadSlots(repair, n)
  }

  /** The data of a block rebuilt from what has arrived; None is the error return. */
  function Rebuild(c: Code, data: seq<Option<Frame>>, repair: seq<Option<Frame>>): Option<seq<Frame>>
    requires c.r == 1 ==> |repair| == 1 && repair[0].Some?
  {
    if c.r == 1 then
      if MissingCount(data) > 1 then None
      else Some(seq(|data|, i requires 0 <= i < |data| =>
                  if data[i].Some? then data[i].value else XorRebuilt(data, repair[0].value)))
    else c.rs.reconstruct(RsShards(data, repair))
  }

  lemma {:induction false} CountTrueConcat(a: seq<bool>, b: seq<bool>)
    ensures CountTrue(a + b) == CountTrue(a) + CountTrue(b)
  {
    if b == [] {
      assert a + b == a;
    } else {
      assert (a + b)[..|a + b| - 1] == a + b[..|b| - 1];
      CountTrueConcat(a, b[..|b| - 1]);
    }
  }

  lemma {:induction false} MissingPlusPresent(data: seq<Option<Frame>>)
    ensures MissingCount(data) + CountTrue(Presence(data)) == |data|
  {
    if data != [] {
      assert Presence(data)[..|data| - 1] == Presence(data[..|data| - 1]);
      MissingPlusPresent(data[..|data| - 1]);
    }
  }

  lemma {:induction false} SomeTrue(flags: seq<bool>)
    requires CountTrue(flags) > 0
    ensures exists i :: 0 <= i < |flags| && flags[i]
  {
    var n := |flags| - 1;
    if !flags[n] {
      SomeTrue(flags[..n]);
      var i :| 0 <= i < n && flags[..n][i];
      assert flags[i];
    }
  }

  lemma OneMissingSlot(data: seq<Option<Frame>>, fs: seq<Frame>) returns (m: nat)
    requires PartOf(data, fs)
    requires MissingCount(data) == 1
    ensures OneMissing(data, fs, m)
    decreases |data|
  {
    var n := |data| - 1;
    assert forall i :: 0 <= i < n ==> data[..n][i] == data[i];
    if data[n].None? {
      m := n;
      MissingCountZero(data[..n]);
    } else {
      m := OneMissingSlot(data[..n], fs[..n]);
      forall i | 0 <= i < |fs| && i != m
        ensures data[i] == Some(fs[i])
      {
        if i < n {
          assert data[..n][i] == Some(fs[..n][i]);
        }
      }
    }
  }

  lemma MaxLenAtMost(fs: seq<Frame>, n: nat)
    requires forall i :: 0 <= i < |fs| ==> |fs[i]| <= n
    ensures MaxLen(fs) <= n
  {
  }

  /** With a repair symbol among the arrivals, the padded width is the sender's. */
  lemma ShardWidth(fs: seq<Frame>, reps: seq<Frame>, data: seq<Option<Frame>>, repair: seq<Option<Frame>>)
    requires PartOf(data, fs) && PartOf(repair, reps)
    requires AllOfLength(reps, MaxLen(fs))
    requires CountTrue(Presence(repair)) > 0
    ensures MaxLen(Known(data)) <= MaxLen(fs)
    ensures MaxLen(Known(repair)) == MaxLen(fs)
  {
    var n := MaxLen(fs);
    forall i | 0 <= i < |data|
      ensures |Known(data)[i]| <= n
    {
      assert |fs[i]| <= n;
    }
    MaxLenAtMost(Known(data), n);
    SomeTrue(Presence(repair));
    var j :| 0 <= j < |repair| && Presence(repair)[j];
    assert |Known(repair)[j]| == |reps[j]| == n;
    MaxLenIs(Known(repair), n);
  }

  lemma PadSlotsPartOf(slots: seq<Option<Frame>>, fs: seq<Frame>, n: nat)
    requires PartOf(slots, fs)
    requires forall i :: 0 <= i < |fs| ==> |fs[i]| <= n
    requires MaxLen(Known(slots)) <= n
    ensures PartOf(PadSlots(slots, n), PadAll(fs, n))
    ensures Presence(PadSlots(slots, n)) == Presence(slots)
  {
  }

  lemma PartOfConcat(p: seq<Option<Frame>>, fs: seq<Frame>, q: seq<Option<Frame>>, gs: seq<Frame>)
    requires PartOf(p, fs) && PartOf(q, gs)
    ensures PartOf(p + q, fs + gs)
    ensures Presence(p + q) == Presence(p) + Presence(q)
  {
  }

  /** With a repair symbol among them, the shards handed to the library are the codeword's. */
  lemma ShardsAreCodewords(fs: seq<Frame>, reps: seq<Frame>, data: seq<Option<Frame>>, repair: seq<Option<Frame>>)
    requires PartOf(data, fs) && PartOf(repair, reps)
    requires AllOfLength(reps, MaxLen(fs))
    requires CountTrue(Presence(repair)) > 0
    ensures PartOf(RsShards(data, repair), PadAll(fs, MaxLen(fs)) + reps)
    ensures Presence(RsShards(data, repair)) == Presence(data) + Presence(repair)
  {
    hide Parity;
    var n := MaxLen(fs);
    ShardWidth(fs, reps, data, repair);
    PadSlotsPartOf(data, fs, n);
    PadSlotsPartOf(repair, reps, n);
    assert PadAll(reps, n) == reps by {
      forall i | 0 <= i < |reps|
        ensures PadAll(reps, n)[i] == reps[i]
      {
        assert Pad(reps[i], n) == reps[i];
      }
    }
    var p, q := PadSlots(data, n), PadSlots(repair, n);
    assert RsShards(data, repair) == p + q;
    PartOfConcat(p, PadAll(fs, n), q, reps);
  }

  /** The contract of the erasure code, for r = 1 by XOR and for r > 1 by the library's law: with
      as many repair symbols as losses, every lost frame comes back zero-padded. */
  lemma RebuildIsExact(c: Code, fs: seq<Frame>, reps: seq<Frame>,
                       data: seq<Option<Frame>>, repair: seq<Option<Frame>>)
    requires c.Valid() && |fs| == c.k && EncodeBlock(c, fs) == Some(reps)
    requires PartOf(data, fs) && PartOf(repair, reps) && |reps| == c.r
    requires 0 < MissingCount(data) <= CountTrue(Presence(repair))
    ensures c.r == 1 ==> repair[0].Some?
    ensures Rebuild(c, data, repair).Some? && |Rebuild(c, data, repair).value| == c.k
    ensures forall i :: 0 <= i < c.k && data[i].None? ==>
      Rebuild(c, data, repair).value[i] == Pad(fs[i], MaxLen(fs))
  {
    SomeTrue(Presence(repair));
    if c.r == 1 {
      assert Presence(repair) == [repair[0].Some?];
      assert CountTrue(Presence(repair)) <= 1;
      var m := OneMissingSlot(data, fs);
      XorRecoveryIsExact(fs, data, m);
    } else {
      var n := MaxLen(fs);
      var padded := PadAll(fs, n);
      assert AllOfLength(padded, n);
      assert n > 0;
      assert EncodesTo(c.rs, c.k, c.r, padded, reps, n);
      ShardsAreCodewords(fs, reps, data, repair);
      var shards := RsShards(data, repair);
      CountTrueConcat(Presence(data), Presence(repair));
      MissingPlusPresent(data);
      assert CountTrue(Presence(shards)) >= c.k;
      assert c.rs.reconstruct(shards) == Some(padded);
    }
  }

  /** How many repair symbols a full block gets: none for r = 0, none for a block of empty frames
      at r > 1 (the library refuses zero-length shards), r otherwise. */
  lemma EncodeBlockNil(c: Code, fs: seq<Frame>)
    requires c.Valid() && |fs| == c.k
    ensures EncodeBlock(c, fs).None? <==> c.r == 0 || (c.r > 1 && forall i :: 0 <= i < |fs| ==> fs[i] == [])
    ensures EncodeBlock(c, fs).Some? ==>
      |EncodeBlock(c, fs).value| == c.r && AllOfLength(EncodeBlock(c, fs).value, MaxLen(fs))
  {
    var n := MaxLen(fs);
    if c.r > 1 {
      var padded := PadAll(fs, n);
      assert AllOfLength(padded, n);
      if n == 0 {
        assert forall i :: 0 <= i < |fs| ==> |fs[i]| <= 0;
      } else {
        assert EncodesTo(c.rs, c.k, c.r, padded, c.rs.encode(padded).value, n);
        var i :| 0 <= i < |fs| && |fs[i]| == n;
        assert fs[i] != [];
      }
    }
  }
}
