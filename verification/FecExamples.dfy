/** Concrete runs of the decoder: a slot that leaves twice, and the two-slot blocks of other examples. */
module FecExamples {
  import opened Bytes
  import opened Erasure
  import opened FecSpec
  import opened FecRuns

  /** A slot can leave twice: at k = 1 a block is delivered, expires when a block nine further on comes
      three seconds later, and is created again by a late copy of its packet. */
  lemma ASlotCanLeaveTwice(c: Code)
    requires c.Valid() && c.k == 1 && c.r == 0
    ensures var evs := [Add(0, Arrival(0, false, [7], 0)),
                        Add(9, Arrival(0, false, [8], 3_000_000_000)),
                        Add(0, Arrival(0, false, [7], 3_000_000_001))];
      CountOut(Run(c, evs).1, 0, 0) == 2
  {
    hide Run, Step, Scan, CountOut;
    var e0 := Add(0, Arrival(0, false, [7], 0));
    var e1 := Add(9, Arrival(0, false, [8], 3_000_000_000));
    var e2 := Add(0, Arrival(0, false, [7], 3_000_000_001));
    TwoBlocks(c, e0, e1);
    SingleSlotAdd(c, Run(c, [e0, e1]).0, 0, e2.a);
    RunAppend(c, [e0, e1], e2);
    assert [e0, e1] + [e2] == [e0, e1, e2];
    assert Run(c, [e0, e1, e2]).1 == [Out(0, 0, [7]), Freed(0), Out(9, 0, [8])] + ([] + [Out(0, 0, [7])]);
    assert Run(c, [e0, e1, e2]).1 == [Out(0, 0, [7]), Freed(0), Out(9, 0, [8]), Out(0, 0, [7])];
    OutTwice([7], [8]);
  }

  lemma OutTwice(f: Frame, g: Frame)
    ensures CountOut([Out(0, 0, f), Freed(0), Out(9, 0, g), Out(0, 0, f)], 0, 0) == 2
  {
    var l1: seq<Entry> := [Out(0, 0, f)];
    var l2, l3 := l1 + [Freed(0)], l1 + [Freed(0)] + [Out(9, 0, g)];
    var l4 := [Out(0, 0, f), Freed(0), Out(9, 0, g), Out(0, 0, f)];
    assert l1[..0] == [] && l2[..1] == l1 && l3[..2] == l2 && l4[..3] == l3;
    assert CountOut(l1, 0, 0) == 1 && CountOut(l2, 0, 0) == 1 && CountOut(l3, 0, 0) == 1;
  }

  /** The first two packets: block 0 is delivered and deleted, block 9 delivered. */
  lemma TwoBlocks(c: Code, e0: Event, e1: Event)
    requires c.Valid() && c.k == 1 && c.r == 0
    requires e0 == Add(0, Arrival(0, false, [7], 0)) && e1 == Add(9, Arrival(0, false, [8], 3_000_000_000))
    ensures Run(c, [e0, e1]) ==
      (Dec(map[9 := Spent(c, [8], 3_000_000_000)], 9, 1), [Out(0, 0, [7]), Freed(0), Out(9, 0, [8])])
  {
    hide Run, Step, Scan;
    RunNone(c);
    SingleSlotAdd(c, EMPTY_DEC, 0, e0.a);
    RunAppend(c, [], e0);
    assert [] + [e0] == [e0] && [e0] + [e1] == [e0, e1];
    var d1 := Dec(map[0 := Spent(c, [7], 0)], 0, 0);
    assert Freeds([]) == [] && EMPTY_DEC.blocks[0 := Spent(c, [7], 0)] == d1.blocks;
    assert Run(c, [e0]).1 == [] + ([] + [Out(0, 0, [7])]) == [Out(0, 0, [7])];
    assert Run(c, [e0]) == (d1, [Out(0, 0, [7])]);
    ScanOne(c, d1);
    SingleSlotAdd(c, d1, 9, e1.a);
    RunAppend(c, [e0], e1);
    assert Freeds([0]) == [Freed(0)];
    var none: map<nat, Block> := map[];
    assert none[9 := Spent(c, [8], 3_000_000_000)] == map[9 := Spent(c, [8], 3_000_000_000)];
    assert Run(c, [e0, e1]).1 == [Out(0, 0, [7])] + ([Freed(0)] + [Out(9, 0, [8])]);
    assert Run(c, [e0, e1]).1 == [Out(0, 0, [7]), Freed(0), Out(9, 0, [8])];
  }

  lemma RunNone(c: Code)
    requires c.Valid()
    ensures Run(c, []) == (EMPTY_DEC, [])
  {
  }

  /** A block of one slot after its packet. */
  function Spent(c: Code, pkt: Frame, at: nat): Block
  {
    Block([Some(pkt)], [], [true], 1, 1, true, Some(at))
  }

  lemma ScanOne(c: Code, d: Dec)
    requires d.blocks.Keys == {0} && d.maxSeen == 0 && d.minBlockID == 0 && d.blocks[0].lastActivity == Some(0)
    ensures Opened(d, 9, 3_000_000_000) == (Dec(map[], 9, 1), [0])
  {
    var d1, d2 := d.(maxSeen := 9), Dec(d.blocks - {0}, 9, 1);
    assert d2.blocks == map[];
    assert Scan(d2, 1, 3_000_000_000) == (d2, []);
    assert Expirable(d1.blocks[0], 3_000_000_000);
    var freed: seq<nat> := [0];
    assert freed + [] == freed;
    assert Scan(d1, 1, 3_000_000_000) == (d2, freed);
  }

  /** At k = 1 and r = 0 a first packet of a block is handed out at once. */
  lemma SingleSlotAdd(c: Code, d: Dec, id: nat, a: Arrival)
    requires c.Valid() && c.k == 1 && c.r == 0 && DecValid(c, d)
    requires a.idx == 0 && !a.isRepair && id !in Opened(d, id, a.now).0.blocks
    ensures var (d1, freed) := Opened(d, id, a.now);
      Step(c, d, Add(id, a)) ==
        (d1.(blocks := d1.blocks[id := Spent(c, a.pkt, a.now)]), Freeds(freed) + [Out(id, 0, a.pkt)])
  {
    hide Opened;
    CleanIsWellFormed(c);
    var b := Record(c, Clean(c), a);
    RecordKeepsWellFormed(c, Clean(c), a);
    assert b.data == [Some(a.pkt)] && b.repair == [] && b.present == [true];
    assert PrefixEnd(b.present, 1, 1) == 1 && PrefixEnd(b.present, 0, 1) == 1;
    assert Repairs(c, b) == 0 by { assert b.present[1..] == []; }
    var rs := Delivered(c, b).1;
    assert b == Block([Some(a.pkt)], [], [true], 1, 0, false, Some(a.now));
    assert |rs| == 1 && rs[0] == Release(0, a.pkt);
    assert rs == [Release(0, a.pkt)];
    StepIs(c, d, id, a, Spent(c, a.pkt, a.now), rs);
    assert Outs(id, [Release(0, a.pkt)]) == [Out(id, 0, a.pkt)];
  }

  /** An arrival whose block's outcome is known. */
  lemma StepIs(c: Code, d: Dec, id: nat, a: Arrival, b: Block, rs: seq<Release>)
    requires c.Valid() && DecValid(c, d) && WellFormed(c, BlockOf(c, Opened(d, id, a.now).0, id))
    requires BlockAdd(c, BlockOf(c, Opened(d, id, a.now).0, id), a) == (b, Released(rs))
    ensures var (d1, freed) := Opened(d, id, a.now);
      Step(c, d, Add(id, a)) == (d1.(blocks := d1.blocks[id := b]), Freeds(freed) + Outs(id, rs))
  {
    hide BlockAdd, WellFormed, Clean, Opened;
  }

  // ---------- blocks of two slots ----------

  /** A block of two slots and one repair symbol after its first packet. */
  function Half(f: Frame, at: nat): Block
  {
    Block([Some(f), None], [None], [true, false, false], 1, 1, false, Some(at))
  }

  /** After both. */
  function Full(f: Frame, g: Frame, at: nat): Block
  {
    Block([Some(f), Some(g)], [None], [true, true, false], 2, 2, true, Some(at))
  }

  /** After its second packet only. */
  function Stuck(g: Frame, at: nat): Block
  {
    Block([None, Some(g)], [None], [false, true, false], 1, 0, false, Some(at))
  }

  lemma FirstPacket(c: Code, f: Frame, at: nat)
    requires c.Valid() && c.k == 2 && c.r == 1
    ensures WellFormed(c, Clean(c))
    ensures BlockAdd(c, Clean(c), Arrival(0, false, f, at)) == (Half(f, at), Released([Release(0, f)]))
  {
    hide TryRecover;
    var a := Arrival(0, false, f, at);
    CleanIsWellFormed(c);
    RecordKeepsWellFormed(c, Clean(c), a);
    var b := Record(c, Clean(c), a);
    assert b.data == [Some(f), None] && b.repair == [None] && b.present == [true, false, false];
    assert b == Block([Some(f), None], [None], [true, false, false], 1, 0, false, Some(at));
    FirstDelivery(c, b, f, at);
  }

  lemma FirstDelivery(c: Code, b: Block, f: Frame, at: nat)
    requires c.Valid() && c.k == 2 && c.r == 1 && WellFormed(c, b)
    requires b == Block([Some(f), None], [None], [true, false, false], 1, 0, false, Some(at))
    ensures TryRecover(c, b) == (Half(f, at), Released([Release(0, f)]))
  {
    hide WellFormed, Rebuild, Filled;
    NoRepairs(c, b);
    assert PrefixEnd(b.present, 0, 2) == 1;
    var rs := Delivered(c, b).1;
    assert |rs| == 1 && rs[0] == Release(0, f);
    assert rs == [Release(0, f)];
  }

  lemma NoRepairs(c: Code, b: Block)
    requires c.k == 2 && c.r == 1 && |b.present| == 3 && !b.present[2]
    ensures Repairs(c, b) == 0
  {
    assert b.present[2..] == [false] && [false][..0] == [];
  }

  lemma SecondPacket(c: Code, f: Frame, g: Frame, at: nat)
    requires c.Valid() && c.k == 2 && c.r == 1
    ensures WellFormed(c, Half(f, at))
    ensures BlockAdd(c, Half(f, at), Arrival(1, false, g, at)) == (Full(f, g, at), Released([Release(1, g)]))
  {
    var a := Arrival(1, false, g, at);
    var b := Record(c, Half(f, at), a);
    RecordKeepsWellFormed(c, Half(f, at), a);
    assert b.data == [Some(f), Some(g)] && b.present == [true, true, false];
    assert b == Block([Some(f), Some(g)], [None], [true, true, false], 2, 1, false, Some(at));
    NoRepairs(c, b);
    assert PrefixEnd(b.present, 1, 2) == 2;
    var rs := Delivered(c, b).1;
    assert |rs| == 1 && rs[0] == Release(1, g);
    assert rs == [Release(1, g)];
  }

  lemma LatePacket(c: Code, g: Frame, at: nat)
    requires c.Valid() && c.k == 2 && c.r == 1
    ensures WellFormed(c, Clean(c))
    ensures BlockAdd(c, Clean(c), Arrival(1, false, g, at)) == (Stuck(g, at), Released([]))
  {
    var a := Arrival(1, false, g, at);
    CleanIsWellFormed(c);
    RecordKeepsWellFormed(c, Clean(c), a);
    var b := Record(c, Clean(c), a);
    assert b.data == [None, Some(g)] && b.repair == [None] && b.present == [false, true, false];
    assert b == Stuck(g, at);
    NoRepairs(c, b);
    assert PrefixEnd(b.present, 0, 2) == 0;
    assert Delivered(c, b).1 == [];
  }

  /** The first packet of block 0 on a new decoder. */
  lemma FirstStep(c: Code, f: Frame)
    requires c.Valid() && c.k == 2 && c.r == 1 && DecValid(c, EMPTY_DEC)
    ensures Step(c, EMPTY_DEC, Add(0, Arrival(0, false, f, 0))) == (Dec(map[0 := Half(f, 0)], 0, 0), [Out(0, 0, f)])
  {
    hide BlockAdd, Step;
    FirstPacket(c, f, 0);
    StepIs(c, EMPTY_DEC, 0, Arrival(0, false, f, 0), Half(f, 0), [Release(0, f)]);
    var es: seq<Entry> := [Out(0, 0, f)];
    assert Freeds([]) == [] && Outs(0, [Release(0, f)]) == es && [] + es == es;
    assert EMPTY_DEC.blocks[0 := Half(f, 0)] == map[0 := Half(f, 0)];
  }

  lemma SecondStep(c: Code, f: Frame, g: Frame)
    requires c.Valid() && c.k == 2 && c.r == 1 && DecValid(c, Dec(map[0 := Half(f, 0)], 0, 0))
    ensures Step(c, Dec(map[0 := Half(f, 0)], 0, 0), Add(0, Arrival(1, false, g, 0))) ==
      (Dec(map[0 := Full(f, g, 0)], 0, 0), [Out(0, 1, g)])
  {
    hide BlockAdd, Step;
    var d := Dec(map[0 := Half(f, 0)], 0, 0);
    SecondPacket(c, f, g, 0);
    StepIs(c, d, 0, Arrival(1, false, g, 0), Full(f, g, 0), [Release(1, g)]);
    var es: seq<Entry> := [Out(0, 1, g)];
    assert Freeds([]) == [] && Outs(0, [Release(1, g)]) == es && [] + es == es;
    assert d.blocks[0 := Full(f, g, 0)] == map[0 := Full(f, g, 0)];
  }

  /** Both slots are delivered, block 9 deletes the block, and a late copy of slot 1 creates it again. */
  lemma RecreatedStuck(c: Code, f: Frame, g: Frame, h: Frame)
    requires c.Valid() && c.k == 2 && c.r == 1
    ensures var (d, log) := Run(c, FlushedRun(f, g, h)[..4]);
      0 in d.blocks && d.blocks[0] == Stuck(g, 3_000_000_001) && Out(0, 1, g) in log
  {
    hide Run, Step, BlockAdd, Scan;
    var evs := FlushedRun(f, g, h);
    RunNone(c);
    assert evs[..1] == [] + [evs[0]] && evs[..2] == evs[..1] + [evs[1]];
    assert evs[..3] == evs[..2] + [evs[2]] && evs[..4] == evs[..3] + [evs[3]];
    FirstStep(c, f);
    RunAppend(c, [], evs[0]);
    SecondStep(c, f, g);
    RunAppend(c, evs[..1], evs[1]);
    var d2, log2 := Run(c, evs[..2]).0, Run(c, evs[..2]).1;
    assert log2[|log2| - 1] == Out(0, 1, g);
    ScanOne(c, d2);
    FirstPacket(c, h, 3_000_000_000);
    StepIs(c, d2, 9, evs[2].a, Half(h, 3_000_000_000), [Release(0, h)]);
    RunAppend(c, evs[..2], evs[2]);
    var d3 := Run(c, evs[..3]).0;
    LatePacket(c, g, 3_000_000_001);
    StepIs(c, d3, 0, evs[3].a, Stuck(g, 3_000_000_001), []);
    RunAppend(c, evs[..3], evs[3]);
  }

  function FlushedRun(f: Frame, g: Frame, h: Frame): (evs: seq<Event>)
    ensures |evs| == 5
  {
    [Add(0, Arrival(0, false, f, 0)), Add(0, Arrival(1, false, g, 0)), Add(9, Arrival(0, false, h, 3_000_000_000)),
     Add(0, Arrival(1, false, g, 3_000_000_001)), Flush(200_000_000, 4_000_000_000)]
  }

  /** And so it is with a flush: the late copy is stuck behind a gap in the new block, and the flush hands it
      out a second time. */
  lemma AFlushedSlotCanLeaveTwice(c: Code, f: Frame, g: Frame, h: Frame)
    requires c.Valid() && c.k == 2 && c.r == 1
    ensures CountOut(Run(c, FlushedRun(f, g, h)).1, 0, 1) == 2
  {
    hide Run, FlushStep, CountOut;
    var evs := FlushedRun(f, g, h);
    RecreatedStuck(c, f, g, h);
    var (d, log) := Run(c, evs[..4]);
    var es := FlushStep(c, d, 200_000_000, 4_000_000_000).1;
    assert Flushable(c, d.blocks[0], 200_000_000, 4_000_000_000) by { assert d.blocks[0].present[1]; }
    FlushedFrames(c, d, 200_000_000, 4_000_000_000);
    assert Out(0, 1, g) in es;
    assert evs == evs[..4] + [evs[4]];
    RunAppend(c, evs[..4], evs[4]);
    CountOutConcat(log, es, 0, 1);
    CountOutIn(log, 0, 1, g);
    CountOutIn(es, 0, 1, g);
    ReleasedAtMostTwice(c, evs, 0, 1);
  }

  lemma {:induction false} CountOutConcat(log: seq<Entry>, more: seq<Entry>, id: nat, slot: nat)
    ensures CountOut(log + more, id, slot) == CountOut(log, id, slot) + CountOut(more, id, slot)
  {
    if more == [] {
      assert log + more == log;
    } else {
      var n := |more| - 1;
      assert (log + more)[..|log + more| - 1] == log + more[..n];
      CountOutConcat(log, more[..n], id, slot);
    }
  }

  lemma {:induction false} CountOutIn(log: seq<Entry>, id: nat, slot: nat, f: Frame)
    requires Out(id, slot, f) in log
    ensures CountOut(log, id, slot) >= 1
  {
    var n := |log| - 1;
    if log[n] != Out(id, slot, f) {
      assert log == log[..n] + [log[n]];
      CountOutIn(log[..n], id, slot, f);
    }
  }
}
