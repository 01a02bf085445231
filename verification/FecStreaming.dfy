/** The streaming decoder of one block against the batch decoder: after any arrivals of an honest
    block, in any order and with duplicates, exactly the decodable prefix has been released. */
module FecStreaming {
  import opened Bytes
  import opened Erasure
  import opened FecSpec

  /** fs are the frames of a block, possibly still filling; reps its repair symbols, none before
      the block is full. */
  ghost predicate Source(c: Code, fs: seq<Frame>, reps: seq<Frame>)
  {
    && |fs| <= c.k
    && (reps == [] || (|fs| == c.k && |reps| == c.r && EncodeBlock(c, fs) == Some(reps)))
  }

  /** The packet is one the sender emitted for this block. */
  predicate Honest(fs: seq<Frame>, reps: seq<Frame>, a: Arrival)
  {
    if a.isRepair then 0 <= a.idx < |reps| && a.pkt == reps[a.idx]
    else 0 <= a.idx < |fs| && a.pkt == fs[a.idx]
  }

  /** Data packets are the symbols 0..k-1, repair packets k..k+r-1. */
  function Symbol(c: Code, a: Arrival): int
  {
    if a.isRepair then c.k + a.idx else a.idx
  }

  function Symbols(c: Code, arrivals: seq<Arrival>): set<int>
  {
    set i | 0 <= i < |arrivals| :: Symbol(c, arrivals[i])
  }

  /** A block fed a sequence of arrivals, and everything it released. */
  ghost function BlockRun(c: Code, arrivals: seq<Arrival>): (res: (Block, seq<Release>))
    requires c.Valid()
    ensures WellFormed(c, res.0)
  {
    if arrivals == [] then (CleanIsWellFormed(c); (Clean(c), []))
    else
      var (b, out) := BlockRun(c, arrivals[..|arrivals| - 1]);
      var a := arrivals[|arrivals| - 1];
      BlockAddKeepsWellFormed(c, b, a);
      var (b', o) := BlockAdd(c, b, a);
      (b', out + if o.Released? then o.out else [])
  }

  /** The first data slot not in a symbol set. */
  function FirstGap(s: set<int>, i: nat, k: nat): (g: nat)
    requires i <= k
    ensures i <= g <= k
    ensures forall j :: i <= j < g ==> j in s
    ensures g < k ==> g !in s
    decreases k - i
  {
    if i < k && i in s then FirstGap(s, i + 1, k) else i
  }

  /** The batch decoder: with k symbols it knows the whole block, with fewer only the data it has. */
  function BatchPrefix(c: Code, s: set<int>): nat
  {
    if |s| >= c.k then c.k else FirstGap(s, 0, c.k)
  }

  /** The frame is the original of its slot, as sent or zero-padded to the longest of its block. */
  predicate FrameOf(fs: seq<Frame>, slot: nat, f: Frame)
  {
    slot < |fs| && (f == fs[slot] || f == Pad(fs[slot], MaxLen(fs)))
  }

  ghost predicate Faithful(out: seq<Release>, fs: seq<Frame>)
  {
    forall i :: 0 <= i < |out| ==> out[i].slot == i && FrameOf(fs, i, out[i].frame)
  }

  // ---------- counting symbols ----------

  lemma {:induction false} CountIsCard(flags: seq<bool>, s: set<int>)
    requires forall i :: i in s ==> 0 <= i < |flags|
    requires forall i :: 0 <= i < |flags| ==> (flags[i] <==> i in s)
    ensures CountTrue(flags) == |s|
  {
    if flags == [] {
      assert forall x :: x !in s;
      assert s == {};
    } else {
      var n := |flags| - 1;
      CountIsCard(flags[..n], s - {n});
      if flags[n] {
        assert s == (s - {n}) + {n};
      } else {
        assert s == s - {n};
      }
    }
  }

  lemma {:induction false} CountAllTrue(flags: seq<bool>)
    requires forall i :: 0 <= i < |flags| ==> flags[i]
    ensures CountTrue(flags) == |flags|
  {
    if flags != [] {
      CountAllTrue(flags[..|flags| - 1]);
    }
  }

  lemma {:induction false} CountAtMost(flags: seq<bool>)
    ensures CountTrue(flags) <= |flags|
    ensures CountTrue(flags) == |flags| ==> forall i :: 0 <= i < |flags| ==> flags[i]
  {
    if flags != [] {
      var n := |flags| - 1;
      CountAtMost(flags[..n]);
      if CountTrue(flags) == |flags| {
        assert forall i :: 0 <= i < n ==> flags[..n][i];
      }
    }
  }

  /** The data flags before the delivery position are all set, so the rest decide what is missing. */
  lemma CountData(c: Code, b: Block)
    requires WellFormed(c, b) && !b.done
    ensures Missing(c, b) == c.k - CountTrue(b.present[..c.k])
  {
    var p := b.present;
    var head, rest := p[..b.delivered], p[b.delivered..c.k];
    assert p[..c.k] == head + rest;
    CountTrueConcat(head, rest);
    CountAllTrue(head);
  }

  /** Missing and Repairs measured from the delivery position add up over the whole block. */
  lemma CountSplit(c: Code, b: Block)
    requires WellFormed(c, b) && !b.done
    ensures CountTrue(b.present) == c.k - Missing(c, b) + Repairs(c, b)
    ensures Missing(c, b) >= 0
    ensures Missing(c, b) == MissingCount(b.data)
    ensures Repairs(c, b) == CountTrue(Presence(b.repair))
  {
    CountData(c, b);
    hide Missing, CountTrue, MissingCount;
    var p := b.present;
    assert p == p[..c.k] + p[c.k..];
    CountTrueConcat(p[..c.k], p[c.k..]);
    CountAtMost(p[..c.k]);
    MissingPlusPresent(b.data);
    assert Presence(b.data) == p[..c.k];
    assert Presence(b.repair) == p[c.k..];
  }

  lemma NoneMissing(c: Code, b: Block)
    requires WellFormed(c, b) && !b.done && Missing(c, b) == 0
    ensures forall i :: 0 <= i < c.k ==> b.present[i]
  {
    CountData(c, b);
    var data := b.present[..c.k];
    CountAtMost(data);
    assert forall i :: 0 <= i < c.k ==> data[i] == b.present[i];
  }

  // ---------- the invariant ----------

  /** An open block that has recorded exactly the symbols of s, all of them honest. */
  ghost predicate Holds(c: Code, fs: seq<Frame>, reps: seq<Frame>, s: set<int>, b: Block)
  {
    && WellFormed(c, b)
    && (forall x :: x in s ==> 0 <= x < c.k + c.r)
    && (forall i :: 0 <= i < c.k + c.r ==> (b.present[i] <==> i in s))
    && (forall i :: 0 <= i < c.k && b.data[i].Some? ==> i < |fs| && b.data[i].value == fs[i])
    && (forall i :: 0 <= i < c.r && b.repair[i].Some? ==> i < |reps| && b.repair[i].value == reps[i])
  }

  ghost predicate StreamInv(c: Code, fs: seq<Frame>, reps: seq<Frame>, s: set<int>, b: Block, out: seq<Release>)
  {
    && WellFormed(c, b)
    && (b.done <==> |s| >= c.k)
    && (!b.done ==> Holds(c, fs, reps, s, b))
    && |out| == b.delivered == BatchPrefix(c, s) <= |fs|
    && Faithful(out, fs)
  }

  lemma RecordHolds(c: Code, fs: seq<Frame>, reps: seq<Frame>, s: set<int>, b: Block, a: Arrival)
    requires Holds(c, fs, reps, s, b) && !b.done && Source(c, fs, reps) && Honest(fs, reps, a)
    requires Recordable(c, b, a)
    ensures Holds(c, fs, reps, s + {Symbol(c, a)}, Record(c, b, a))
    ensures !Record(c, b, a).done
  {
    RecordKeepsWellFormed(c, b, a);
  }

  lemma PrefixEndIsFirstGap(c: Code, s: set<int>, present: seq<bool>, i: nat)
    requires i <= c.k <= |present|
    requires forall j :: 0 <= j < c.k ==> (present[j] <==> j in s)
    requires forall j :: 0 <= j < i ==> j in s
    ensures PrefixEnd(present, i, c.k) == FirstGap(s, 0, c.k)
  {
  }

  lemma FaithfulConcat(out: seq<Release>, more: seq<Release>, fs: seq<Frame>)
    requires Faithful(out, fs)
    requires forall j :: 0 <= j < |more| ==> more[j].slot == |out| + j && FrameOf(fs, |out| + j, more[j].frame)
    ensures Faithful(out + more, fs)
  {
    hide FrameOf;
    forall i | |out| <= i < |out + more|
      ensures (out + more)[i] == more[i - |out|]
    {
    }
  }

  /** What Delivered hands out and leaves behind. */
  lemma DeliveredShape(c: Code, b: Block)
    requires WellFormed(c, b)
    ensures WellFormed(c, Delivered(c, b).0)
    ensures var e := PrefixEnd(b.present, b.delivered, c.k); var (b', rs) := Delivered(c, b);
      && b'.delivered == e && (b'.done <==> e == c.k)
      && b'.data == b.data && b'.repair == b.repair && b'.present == b.present
      && |rs| == e - b.delivered
      && (forall j :: 0 <= j < |rs| ==>
            b.data[b.delivered + j].Some? && rs[j] == Release(b.delivered + j, b.data[b.delivered + j].value))
  {
    DeliveredKeepsWellFormed(c, b);
  }

  /** Handing out slots that hold originals keeps the stream faithful. */
  lemma DeliverFaithful(c: Code, fs: seq<Frame>, b: Block, out: seq<Release>)
    requires WellFormed(c, b)
    requires |out| == b.delivered && Faithful(out, fs)
    requires forall i :: b.delivered <= i < PrefixEnd(b.present, b.delivered, c.k) && b.data[i].Some? ==>
      FrameOf(fs, i, b.data[i].value)
    ensures Faithful(out + Delivered(c, b).1, fs)
  {
    DeliveredShape(c, b);
    hide FrameOf, WellFormed, Delivered, PrefixEnd;
    FaithfulConcat(out, Delivered(c, b).1, fs);
  }

  /** Without recovery the block hands out the received prefix. */
  lemma DeliverHeld(c: Code, fs: seq<Frame>, reps: seq<Frame>, s: set<int>, b: Block, out: seq<Release>)
    requires Holds(c, fs, reps, s, b) && !b.done && |fs| <= c.k
    requires |out| == b.delivered <= |fs| && Faithful(out, fs)
    requires |s| >= c.k <==> forall i :: 0 <= i < c.k ==> b.present[i]
    ensures StreamInv(c, fs, reps, s, Delivered(c, b).0, out + Delivered(c, b).1)
  {
    hide Delivered, Faithful, PrefixEnd, FirstGap, MaxLen;
    var e := PrefixEnd(b.present, b.delivered, c.k);
    PrefixEndIsFirstGap(c, s, b.present, b.delivered);
    DeliveredShape(c, b);
    DeliverFaithful(c, fs, b, out);
    assert e == BatchPrefix(c, s);
    assert e > b.delivered ==> b.present[e - 1] && b.data[e - 1].Some?;
  }

  /** With recovery it hands out the rest of the block. */
  lemma DeliverRebuilt(c: Code, fs: seq<Frame>, reps: seq<Frame>, s: set<int>, b: Block,
                       out: seq<Release>, rebuilt: seq<Frame>)
    requires Holds(c, fs, reps, s, b) && !b.done && |fs| == c.k && |s| >= c.k
    requires |out| == b.delivered && Faithful(out, fs)
    requires |rebuilt| == c.k
    requires forall i :: 0 <= i < c.k && b.data[i].None? ==> rebuilt[i] == Pad(fs[i], MaxLen(fs))
    ensures WellFormed(c, Filled(c, b, rebuilt))
    ensures var (b', more) := Delivered(c, Filled(c, b, rebuilt)); StreamInv(c, fs, reps, s, b', out + more)
  {
    hide Delivered, Faithful, MaxLen, Pad;
    var b2 := Filled(c, b, rebuilt);
    FilledKeepsWellFormed(c, b, rebuilt);
    var e := PrefixEnd(b2.present, b2.delivered, c.k);
    assert e == c.k;
    forall i | b.delivered <= i < c.k
      ensures FrameOf(fs, i, b2.data[i].value)
    {
      assert b.present[i] <==> b.data[i].Some?;
    }
    DeliveredShape(c, b2);
    DeliverFaithful(c, fs, b2, out);
  }

  /** Recovery runs with k symbols and a gap; without it k symbols mean that there is no gap. */
  lemma EnoughSymbols(c: Code, fs: seq<Frame>, reps: seq<Frame>, s: set<int>, b: Block)
    requires Holds(c, fs, reps, s, b) && !b.done
    ensures CanRebuild(c, b) ==> |s| >= c.k
    ensures !CanRebuild(c, b) ==> (|s| >= c.k <==> forall i :: 0 <= i < c.k ==> b.present[i])
  {
    CountSplit(c, b);
    CountIsCard(b.present, s);
    if Missing(c, b) == 0 {
      NoneMissing(c, b);
    }
    hide CountTrue, MissingCount, Presence;
    if forall i :: 0 <= i < c.k ==> b.present[i] {
      var rest := b.present[b.delivered..c.k];
      assert forall i :: 0 <= i < |rest| ==> rest[i] == b.present[b.delivered + i];
      CountAllTrue(rest);
    }
  }

  lemma RebuildStep(c: Code, fs: seq<Frame>, reps: seq<Frame>, s: set<int>, b: Block, out: seq<Release>)
    requires c.Valid() && Source(c, fs, reps)
    requires Holds(c, fs, reps, s, b) && !b.done && CanRebuild(c, b)
    requires |out| == b.delivered <= |fs| && Faithful(out, fs)
    ensures TryRecover(c, b).1.Released?
    ensures StreamInv(c, fs, reps, s, TryRecover(c, b).0, out + TryRecover(c, b).1.out)
  {
    hide Delivered, Filled, Rebuild, StreamInv, EncodeBlock, MissingCount, MaxLen, Faithful;
    EnoughSymbols(c, fs, reps, s, b);
    CountSplit(c, b);
    RepairThere(c, b);
    assert reps != [];
    assert PartOf(b.data, fs) && PartOf(b.repair, reps);
    RebuildIsExact(c, fs, reps, b.data, b.repair);
    DeliverRebuilt(c, fs, reps, s, b, out, Rebuild(c, b.data, b.repair).value);
  }

  lemma RecoverStep(c: Code, fs: seq<Frame>, reps: seq<Frame>, s: set<int>, b: Block, out: seq<Release>)
    requires c.Valid() && Source(c, fs, reps)
    requires Holds(c, fs, reps, s, b) && !b.done
    requires |out| == b.delivered <= |fs| && Faithful(out, fs)
    ensures TryRecover(c, b).1.Released?
    ensures StreamInv(c, fs, reps, s, TryRecover(c, b).0, out + TryRecover(c, b).1.out)
  {
    hide Delivered, StreamInv, EncodeBlock, CanRebuild, MaxLen, Faithful;
    if CanRebuild(c, b) {
      RebuildStep(c, fs, reps, s, b, out);
    } else {
      EnoughSymbols(c, fs, reps, s, b);
      DeliverHeld(c, fs, reps, s, b, out);
    }
  }

  lemma StreamStep(c: Code, fs: seq<Frame>, reps: seq<Frame>, s: set<int>, b: Block, out: seq<Release>, a: Arrival)
    requires c.Valid() && Source(c, fs, reps)
    requires StreamInv(c, fs, reps, s, b, out) && Honest(fs, reps, a)
    ensures BlockAdd(c, b, a).1.Released?
    ensures StreamInv(c, fs, reps, s + {Symbol(c, a)}, BlockAdd(c, b, a).0, out + BlockAdd(c, b, a).1.out)
  {
    var x := Symbol(c, a);
    assert out + [] == out;
    if b.done {
      assert s + {x} == if x in s then s else s + {x};
    } else if !Recordable(c, b, a) {
      assert x in s;
      assert s + {x} == s;
    } else {
      RecordHolds(c, fs, reps, s, b, a);
      RecoverStep(c, fs, reps, s + {x}, Record(c, b, a), out);
    }
  }

  lemma SymbolsAppend(c: Code, arrivals: seq<Arrival>, a: Arrival)
    ensures Symbols(c, arrivals + [a]) == Symbols(c, arrivals) + {Symbol(c, a)}
  {
    var more := arrivals + [a];
    forall x | x in Symbols(c, arrivals) + {Symbol(c, a)}
      ensures x in Symbols(c, more)
    {
      if x == Symbol(c, a) {
        assert more[|arrivals|] == a;
      } else {
        var i :| 0 <= i < |arrivals| && x == Symbol(c, arrivals[i]);
        assert more[i] == arrivals[i];
      }
    }
  }

  lemma BlockRunAppend(c: Code, arrivals: seq<Arrival>, a: Arrival)
    requires c.Valid()
    ensures BlockRun(c, arrivals + [a]).0 == BlockAdd(c, BlockRun(c, arrivals).0, a).0
    ensures BlockAdd(c, BlockRun(c, arrivals).0, a).1.Released? ==>
      BlockRun(c, arrivals + [a]).1 == BlockRun(c, arrivals).1 + BlockAdd(c, BlockRun(c, arrivals).0, a).1.out
    ensures BlockAdd(c, BlockRun(c, arrivals).0, a).1.Unrecoverable? ==>
      BlockRun(c, arrivals + [a]).1 == BlockRun(c, arrivals).1
  {
    assert (arrivals + [a])[..|arrivals|] == arrivals;
  }

  lemma StreamNew(c: Code, fs: seq<Frame>, reps: seq<Frame>)
    requires c.Valid()
    ensures StreamInv(c, fs, reps, Symbols(c, []), BlockRun(c, []).0, BlockRun(c, []).1)
  {
    assert Symbols(c, []) == {};
    CleanIsWellFormed(c);
  }

  lemma {:induction false} StreamRun(c: Code, fs: seq<Frame>, reps: seq<Frame>, arrivals: seq<Arrival>)
    requires c.Valid() && Source(c, fs, reps)
    requires forall a :: a in arrivals ==> Honest(fs, reps, a)
    ensures StreamInv(c, fs, reps, Symbols(c, arrivals), BlockRun(c, arrivals).0, BlockRun(c, arrivals).1)
  {
    hide StreamInv, WellFormed, Honest, Source, BlockAdd, Symbols, BlockRun;
    if arrivals == [] {
      StreamNew(c, fs, reps);
    } else {
      var n := |arrivals| - 1;
      var before, a := arrivals[..n], arrivals[n];
      StreamRun(c, fs, reps, before);
      SymbolsAppend(c, before, a);
      assert arrivals == before + [a];
      BlockRunAppend(c, before, a);
      StreamStep(c, fs, reps, Symbols(c, before), BlockRun(c, before).0, BlockRun(c, before).1, a);
    }
  }

  /** Main theorem. For every honest block, every arrival order and every duplication, the slots
      released so far are exactly 0..p-1 in order, where p is what the batch decoder knows, and each
      released frame is the original, as sent or zero-padded to the longest of its block. */
  lemma StreamingRefinesBatch(c: Code, fs: seq<Frame>, reps: seq<Frame>, arrivals: seq<Arrival>)
    requires c.Valid() && Source(c, fs, reps)
    requires forall a :: a in arrivals ==> Honest(fs, reps, a)
    ensures |BlockRun(c, arrivals).1| == BatchPrefix(c, Symbols(c, arrivals))
    ensures Faithful(BlockRun(c, arrivals).1, fs)
    ensures BlockRun(c, arrivals).0.done <==> |Symbols(c, arrivals)| >= c.k
  {
    StreamRun(c, fs, reps, arrivals);
  }
}
