/** The decoder over whole runs: bounded re-release, safe and cheap expiry, exact flushes. */
module FecRuns {
  import opened Bytes
  import opened Erasure
  import opened FecSpec
  import opened FecStreaming

  // ---------- expiry ----------

  /** expire deletes exactly the blocks it steps over, each of them far enough behind and quiet. */
  lemma {:induction false} ScanDeletes(d: Dec, threshold: nat, now: nat)
    ensures var (d', freed) := Scan(d, threshold, now);
      && d'.maxSeen == d.maxSeen
      && d.minBlockID <= d'.minBlockID
      && (d'.minBlockID > d.minBlockID ==> d'.minBlockID <= threshold)
      && d'.blocks == d.blocks - (set id | id in freed)
      && (forall id :: id in freed <==> id in d.blocks && d.minBlockID <= id < d'.minBlockID)
      && (forall id :: id in freed ==> Expirable(d.blocks[id], now))
      && (forall i, j :: 0 <= i < j < |freed| ==> freed[i] < freed[j])
      && (d'.minBlockID < threshold ==> d'.minBlockID in d'.blocks && !Expirable(d'.blocks[d'.minBlockID], now))
    ensures ScanCost(d, threshold, now) <= Scan(d, threshold, now).0.minBlockID - d.minBlockID + 1
    decreases threshold - d.minBlockID
  {
    if d.minBlockID < threshold {
      hide Expirable;
      var m := d.minBlockID;
      if m !in d.blocks {
        ScanDeletes(d.(minBlockID := m + 1), threshold, now);
      } else if Expirable(d.blocks[m], now) {
        var d1 := Dec(d.blocks - {m}, d.maxSeen, m + 1);
        ScanDeletes(d1, threshold, now);
        hide Scan;
        DeletedOneMore(d.blocks, m, Scan(d1, threshold, now).1);
      }
    }
  }

  lemma DeletedOneMore(blocks: map<nat, Block>, m: nat, rest: seq<nat>)
    ensures forall id :: id in [m] + rest <==> id == m || id in rest
    ensures forall j :: 0 <= j < |rest| ==> rest[j] in rest
    ensures blocks - (set id | id in [m] + rest) == blocks - {m} - (set id | id in rest)
  {
  }

  /** The loop iterations of expire that one event causes. */
  function CostOf(d: Dec, e: Event): nat
  {
    match e
    case Add(id, a) =>
      if id > d.maxSeen && id >= MAX_OLD_BLOCKS then ScanCost(d.(maxSeen := id), id - MAX_OLD_BLOCKS, a.now) else 0
    case Flush(_, _) => 0
  }

  /** The loop iterations expire has spent over a run. */
  ghost function RunCost(c: Code, evs: seq<Event>): nat
    requires c.Valid()
  {
    if evs == [] then 0
    else RunCost(c, evs[..|evs| - 1]) + CostOf(Run(c, evs[..|evs| - 1]).0, evs[|evs| - 1])
  }

  function AddCount(evs: seq<Event>): nat
  {
    if evs == [] then 0
    else AddCount(evs[..|evs| - 1]) + if evs[|evs| - 1].Add? then 1 else 0
  }

  lemma StepCost(c: Code, d: Dec, e: Event)
    requires c.Valid() && DecValid(c, d)
    ensures CostOf(d, e) <= Step(c, d, e).0.minBlockID - d.minBlockID + if e.Add? then 1 else 0
  {
    hide WellFormed, BlockAdd, Flushable, FlushEntries;
    match e
    case Add(id, a) =>
      if id > d.maxSeen && id >= MAX_OLD_BLOCKS {
        ScanDeletes(d.(maxSeen := id), id - MAX_OLD_BLOCKS, a.now);
      }
    case Flush(_, _) =>
  }

  /** Expiry is amortised linear: its iterations over any run are at most the final scan pointer
      plus the number of arrivals. */
  lemma {:induction false} ExpiryIsAmortised(c: Code, evs: seq<Event>)
    requires c.Valid()
    ensures RunCost(c, evs) <= Run(c, evs).0.minBlockID + AddCount(evs)
  {
    if evs != [] {
      var n := |evs| - 1;
      ExpiryIsAmortised(c, evs[..n]);
      StepCost(c, Run(c, evs[..n]).0, evs[n]);
    }
  }

  /** What the expiry scan at the head of an arrival does. */
  lemma OpenedDeletes(d: Dec, id: nat, now: nat)
    ensures var (d1, freed) := Opened(d, id, now);
      && d1.maxSeen == (if id > d.maxSeen then id else d.maxSeen)
      && d.minBlockID <= d1.minBlockID
      && (d1.minBlockID > d.minBlockID ==> d1.minBlockID + MAX_OLD_BLOCKS <= d1.maxSeen)
      && d1.blocks == d.blocks - (set x | x in freed)
      && (forall x :: x in freed <==> x in d.blocks && d.minBlockID <= x < d1.minBlockID)
      && (forall x :: x in freed ==> Expirable(d.blocks[x], now))
      && (forall i, j :: 0 <= i < j < |freed| ==> freed[i] < freed[j])
  {
    if id > d.maxSeen && id >= MAX_OLD_BLOCKS {
      ScanDeletes(d.(maxSeen := id), id - MAX_OLD_BLOCKS, now);
    }
  }

  // ---------- the log of a step ----------

  /** An arrival frees ids first and then hands out slots of its own block only. */
  lemma AddStepLog(c: Code, d: Dec, id: nat, a: Arrival)
    requires c.Valid() && DecValid(c, d)
    ensures forall e :: e in AddStep(c, d, id, a).1 ==>
      (e.Freed? && e.id in Opened(d, id, a.now).1) || (e.Out? && e.id == id)
  {
  }

  function CountFreed(log: seq<Entry>, id: nat): nat
  {
    if log == [] then 0
    else CountFreed(log[..|log| - 1], id) + if log[|log| - 1] == Freed(id) then 1 else 0
  }

  function CountOut(log: seq<Entry>, id: nat, slot: nat): nat
  {
    if log == [] then 0
    else
      var e := log[|log| - 1];
      CountOut(log[..|log| - 1], id, slot) + if e.Out? && e.id == id && e.slot == slot then 1 else 0
  }

  /** The last slot of a block handed out in its current lifetime, -1 for none. */
  function LastSlot(log: seq<Entry>, id: nat): int
  {
    if log == [] then -1
    else
      var e := log[|log| - 1];
      if e.id != id then LastSlot(log[..|log| - 1], id)
      else match e
        case Out(_, slot, _) => slot
        case Freed(_) => -1
        case Flushed(_) => LastSlot(log[..|log| - 1], id)
  }

  /** Within one lifetime the slots of a block come in strictly increasing order. */
  ghost predicate Disciplined(log: seq<Entry>)
  {
    forall p :: 0 <= p < |log| && log[p].Out? ==> log[p].slot > LastSlot(log[..p], log[p].id)
  }

  lemma AppendEntry(log: seq<Entry>, e: Entry)
    ensures (log + [e])[..|log|] == log
    ensures forall id: nat :: e.id != id ==> LastSlot(log + [e], id) == LastSlot(log, id)
    ensures LastSlot(log + [e], e.id) == if e.Out? then e.slot else if e.Freed? then -1 else LastSlot(log, e.id)
    ensures Disciplined(log) && (e.Out? ==> e.slot > LastSlot(log, e.id)) ==> Disciplined(log + [e])
  {
    var l := log + [e];
    assert l[..|log|] == log;
    if Disciplined(log) && (e.Out? ==> e.slot > LastSlot(log, e.id)) {
      forall p | 0 <= p < |l| && l[p].Out?
        ensures l[p].slot > LastSlot(l[..p], l[p].id)
      {
        if p < |log| {
          assert l[..p] == log[..p];
        } else {
          assert l[..p] == log;
        }
      }
    }
  }

  /** The log after a run of freed ids. */
  lemma {:induction false} AppendFreeds(log: seq<Entry>, ids: seq<nat>)
    requires Disciplined(log)
    ensures Disciplined(log + Freeds(ids))
    ensures forall id: nat :: LastSlot(log + Freeds(ids), id) == if id in ids then -1 else LastSlot(log, id)
  {
    if ids == [] {
      assert log + Freeds(ids) == log;
    } else {
      var n := |ids| - 1;
      AppendFreeds(log, ids[..n]);
      AppendEntry(log + Freeds(ids[..n]), Freed(ids[n]));
      assert log + Freeds(ids) == (log + Freeds(ids[..n])) + [Freed(ids[n])];
      assert forall id :: id in ids <==> id in ids[..n] || id == ids[n];
    }
  }

  lemma {:induction false} CountFreedConcat(log: seq<Entry>, more: seq<Entry>, x: nat)
    ensures CountFreed(log + more, x) == CountFreed(log, x) + CountFreed(more, x)
  {
    if more == [] {
      assert log + more == log;
    } else {
      var n := |more| - 1;
      assert (log + more)[..|log + more| - 1] == log + more[..n];
      CountFreedConcat(log, more[..n], x);
    }
  }

  lemma {:induction false} CountFreedZero(log: seq<Entry>, x: nat)
    ensures CountFreed(log, x) == 0 <==> Freed(x) !in log
  {
    if log != [] {
      CountFreedZero(log[..|log| - 1], x);
      assert log == log[..|log| - 1] + [log[|log| - 1]];
    }
  }

  lemma {:induction false} CountFreeds(ids: seq<nat>, x: nat)
    requires forall i, j :: 0 <= i < j < |ids| ==> ids[i] < ids[j]
    ensures CountFreed(Freeds(ids), x) == if x in ids then 1 else 0
  {
    if ids != [] {
      var n := |ids| - 1;
      CountFreeds(ids[..n], x);
      assert Freeds(ids)[..n] == Freeds(ids[..n]);
      assert x in ids <==> x in ids[..n] || x == ids[n];
    }
  }

  /** Releases in increasing slots, all at or after lo. */
  ghost predicate Increasing(rs: seq<Release>, lo: int, hi: int)
  {
    && (forall i :: 0 <= i < |rs| ==> lo <= rs[i].slot < hi)
    && (forall i, j :: 0 <= i < j < |rs| ==> rs[i].slot < rs[j].slot)
  }

  lemma OutsSnoc(id: nat, rs: seq<Release>)
    requires rs != []
    ensures var n := |rs| - 1; Outs(id, rs) == Outs(id, rs[..n]) + [Out(id, rs[n].slot, rs[n].frame)]
  {
  }

  /** The log after a batch handed out for one block. */
  lemma {:induction false} AppendOuts(log: seq<Entry>, id: nat, rs: seq<Release>, lo: int, hi: int)
    requires Disciplined(log) && Increasing(rs, lo, hi) && LastSlot(log, id) < lo <= hi
    ensures Disciplined(log + Outs(id, rs))
    ensures forall x: nat :: x != id ==> LastSlot(log + Outs(id, rs), x) == LastSlot(log, x)
    ensures LastSlot(log + Outs(id, rs), id) == if rs == [] then LastSlot(log, id) else rs[|rs| - 1].slot
  {
    if rs == [] {
      assert log + Outs(id, rs) == log;
    } else {
      hide Disciplined, LastSlot, Outs;
      var n := |rs| - 1;
      assert Increasing(rs[..n], lo, hi);
      AppendOuts(log, id, rs[..n], lo, hi);
      var l := log + Outs(id, rs[..n]);
      var e := Out(id, rs[n].slot, rs[n].frame);
      assert LastSlot(l, id) < rs[n].slot by {
        if n > 0 {
          assert rs[..n][n - 1] == rs[n - 1];
        }
      }
      assert log + Outs(id, rs) == l + [e] by { OutsSnoc(id, rs); }
      AppendEntry(l, e);
    }
  }

  // ---------- what one arrival hands out ----------

  lemma DeliveredSpan(c: Code, b: Block)
    requires WellFormed(c, b)
    ensures Increasing(Delivered(c, b).1, b.delivered, Delivered(c, b).0.delivered)
    ensures b.delivered <= Delivered(c, b).0.delivered
  {
  }

  /** An arrival hands out a stretch of slots starting at the delivery position. */
  lemma BlockAddSpan(c: Code, b: Block, a: Arrival)
    requires WellFormed(c, b) && Shaped(c.rs, c.k)
    ensures b.delivered <= BlockAdd(c, b, a).0.delivered
    ensures BlockAdd(c, b, a).1.Released? ==>
      Increasing(BlockAdd(c, b, a).1.out, b.delivered, BlockAdd(c, b, a).0.delivered)
  {
    hide Delivered;
    if !b.done && Recordable(c, b, a) {
      RecordKeepsWellFormed(c, b, a);
      var b1 := Record(c, b, a);
      if CanRebuild(c, b1) {
        RepairThere(c, b1);
        var rebuilt := Rebuild(c, b1.data, b1.repair);
        if rebuilt.Some? {
          FilledKeepsWellFormed(c, b1, rebuilt.value);
          DeliveredSpan(c, Filled(c, b1, rebuilt.value));
        }
      } else {
        DeliveredSpan(c, b1);
      }
    }
  }

  // ---------- the flush ----------

  lemma {:induction false} StuckIncreasing(c: Code, b: Block, i: nat)
    requires |b.data| == c.k
    ensures Increasing(StuckFrom(b, i), i, if i <= c.k then c.k else i)
    decreases c.k - i
  {
    if i < c.k {
      StuckIncreasing(c, b, i + 1);
    }
  }

  lemma {:induction false} StuckMember(c: Code, b: Block, i: nat, r: Release)
    requires |b.data| == c.k
    ensures r in StuckFrom(b, i) <==> i <= r.slot < c.k && b.data[r.slot] == Some(r.frame)
    decreases c.k - i
  {
    if i < c.k {
      StuckMember(c, b, i + 1, r);
      assert b.data[i].Some? ==> (r == Release(i, b.data[i].value) <==> r.slot == i && b.data[i] == Some(r.frame));
    }
  }

  /** StuckFrom lists exactly the received slots from i on, in order. */
  lemma StuckIsExact(c: Code, b: Block, i: nat)
    requires |b.data| == c.k
    ensures Increasing(StuckFrom(b, i), i, if i <= c.k then c.k else i)
    ensures forall r :: r in StuckFrom(b, i) <==> i <= r.slot < c.k && b.data[r.slot] == Some(r.frame)
  {
    StuckIncreasing(c, b, i);
    forall r
      ensures r in StuckFrom(b, i) <==> i <= r.slot < c.k && b.data[r.slot] == Some(r.frame)
    {
      StuckMember(c, b, i, r);
    }
  }

  /** The log after one block was looked at. */
  lemma AppendFlushOne(c: Code, b: Block, log: seq<Entry>, id: nat, maxAge: int, now: nat, x: nat)
    requires WellFormed(c, b) && Disciplined(log) && LastSlot(log, id) < b.delivered
    ensures var log' := log + FlushOne(c, b, id, maxAge, now);
      && Disciplined(log')
      && (x == id ==> LastSlot(log', x) < if Flushable(c, b, maxAge, now) then c.k else b.delivered)
      && (x != id ==> LastSlot(log', x) == LastSlot(log, x))
  {
    hide Flushable, Disciplined, LastSlot, StuckFrom;
    if Flushable(c, b, maxAge, now) {
      var rs := StuckFrom(b, b.delivered);
      StuckIsExact(c, b, b.delivered);
      AppendOuts(log, id, rs, b.delivered, c.k);
      AppendEntry(log + Outs(id, rs), Flushed(id));
      assert log + FlushOne(c, b, id, maxAge, now) == (log + Outs(id, rs)) + [Flushed(id)];
    } else {
      assert log + FlushOne(c, b, id, maxAge, now) == log;
    }
  }

  lemma FlushEntriesStep(c: Code, d: Dec, log: seq<Entry>, ids: seq<nat>, maxAge: int, now: nat)
    requires DecValid(c, d) && ids != [] && forall id :: id in ids ==> id in d.blocks
    ensures var n := |ids| - 1;
      log + FlushEntries(c, d.blocks, ids, maxAge, now) ==
      log + FlushEntries(c, d.blocks, ids[..n], maxAge, now) + FlushOne(c, d.blocks[ids[n]], ids[n], maxAge, now)
  {
  }

  /** The log after a flush of the blocks ids, and the position it leaves for block x. */
  lemma {:induction false} AppendFlush(c: Code, d: Dec, log: seq<Entry>, ids: seq<nat>, maxAge: int, now: nat, x: nat)
    requires DecValid(c, d) && Disciplined(log)
    requires forall id :: id in ids ==> id in d.blocks && LastSlot(log, id) < d.blocks[id].delivered
    requires forall i, j :: 0 <= i < j < |ids| ==> ids[i] < ids[j]
    ensures Disciplined(log + FlushEntries(c, d.blocks, ids, maxAge, now))
    ensures x in ids ==>
      LastSlot(log + FlushEntries(c, d.blocks, ids, maxAge, now), x) <
        if Flushable(c, d.blocks[x], maxAge, now) then c.k else d.blocks[x].delivered
    ensures x !in ids ==> LastSlot(log + FlushEntries(c, d.blocks, ids, maxAge, now), x) == LastSlot(log, x)
  {
    if ids == [] {
      assert log + FlushEntries(c, d.blocks, ids, maxAge, now) == log;
    } else {
      var n := |ids| - 1;
      var id := ids[n];
      assert id in ids && id !in ids[..n];
      assert x in ids <==> x in ids[..n] || x == id;
      AppendFlush(c, d, log, ids[..n], maxAge, now, x);
      AppendFlush(c, d, log, ids[..n], maxAge, now, id);
      FlushEntriesStep(c, d, log, ids, maxAge, now);
      AppendFlushOne(c, d.blocks[id], log + FlushEntries(c, d.blocks, ids[..n], maxAge, now), id, maxAge, now, x);
    }
  }

  lemma {:induction false} FlushFreesNone(c: Code, d: Dec, ids: seq<nat>, maxAge: int, now: nat, x: nat)
    requires DecValid(c, d) && forall id :: id in ids ==> id in d.blocks
    ensures Freed(x) !in FlushEntries(c, d.blocks, ids, maxAge, now)
  {
    if ids != [] {
      FlushFreesNone(c, d, ids[..|ids| - 1], maxAge, now, x);
    }
  }

  /** What a flush hands out, and which blocks it closes, in terms of Flushable. */
  lemma FlushedFrames(c: Code, d: Dec, maxAge: int, now: nat)
    requires DecValid(c, d)
    ensures forall id: nat, slot: nat, f: Frame ::
      Out(id, slot, f) in FlushStep(c, d, maxAge, now).1 <==>
        (id in d.blocks && Flushable(c, d.blocks[id], maxAge, now) &&
         d.blocks[id].delivered <= slot < c.k && d.blocks[id].data[slot] == Some(f))
    ensures forall id :: id in d.blocks && !Flushable(c, d.blocks[id], maxAge, now) ==>
      FlushStep(c, d, maxAge, now).0.blocks[id] == d.blocks[id]
    ensures forall id :: id in d.blocks && Flushable(c, d.blocks[id], maxAge, now) ==>
      FlushStep(c, d, maxAge, now).0.blocks[id].done
  {
    forall id: nat, slot: nat, f: Frame
      ensures Out(id, slot, f) in FlushStep(c, d, maxAge, now).1 <==>
        (id in d.blocks && Flushable(c, d.blocks[id], maxAge, now) &&
         d.blocks[id].delivered <= slot < c.k && d.blocks[id].data[slot] == Some(f))
    {
      FlushMembers(c, d, Ascending(d.blocks.Keys), maxAge, now, id, slot, f);
    }
  }

  lemma {:induction false} FlushMembers(c: Code, d: Dec, ids: seq<nat>, maxAge: int, now: nat,
                                        id: nat, slot: nat, f: Frame)
    requires DecValid(c, d) && forall x :: x in ids ==> x in d.blocks
    ensures Out(id, slot, f) in FlushEntries(c, d.blocks, ids, maxAge, now) <==>
      (id in ids && Flushable(c, d.blocks[id], maxAge, now) &&
       d.blocks[id].delivered <= slot < c.k && d.blocks[id].data[slot] == Some(f))
  {
    if ids != [] {
      var n := |ids| - 1;
      var x := ids[n];
      assert id in ids <==> id in ids[..n] || id == x;
      FlushMembers(c, d, ids[..n], maxAge, now, id, slot, f);
      if Flushable(c, d.blocks[x], maxAge, now) {
        var rs := StuckFrom(d.blocks[x], d.blocks[x].delivered);
        StuckIsExact(c, d.blocks[x], d.blocks[x].delivered);
        OutsMembers(x, rs, id, slot, f);
      }
    }
  }

  lemma OutsMembers(x: nat, rs: seq<Release>, id: nat, slot: nat, f: Frame)
    ensures Out(id, slot, f) in Outs(x, rs) <==> id == x && Release(slot, f) in rs
  {
    if id == x && Release(slot, f) in rs {
      var i :| 0 <= i < |rs| && rs[i] == Release(slot, f);
      assert Outs(x, rs)[i] == Out(id, slot, f);
    }
  }

  /** Strictly increasing (block, slot) order, all blocks among ids. */
  ghost predicate LexOrdered(es: seq<Entry>, ids: seq<nat>)
  {
    && (forall p :: 0 <= p < |es| ==> es[p].id in ids)
    && (forall p, q :: 0 <= p < q < |es| && es[p].Out? && es[q].Out? ==>
          es[p].id < es[q].id || (es[p].id == es[q].id && es[p].slot < es[q].slot))
  }

  lemma LexOrderedAppend(es: seq<Entry>, ids: seq<nat>, x: nat, rs: seq<Release>, lo: int, hi: int)
    requires LexOrdered(es, ids) && Increasing(rs, lo, hi)
    requires forall id :: id in ids ==> id < x
    ensures LexOrdered(es + (Outs(x, rs) + [Flushed(x)]), ids + [x])
  {
    var outs := Outs(x, rs) + [Flushed(x)];
    var all := es + outs;
    forall p | 0 <= p < |all|
      ensures all[p].id in ids + [x] && (p >= |es| ==> all[p].id == x) && (p < |es| ==> all[p].id < x)
    {
      if p < |es| {
        assert all[p] == es[p];
      } else {
        assert all[p] == outs[p - |es|];
      }
    }
    forall p, q | 0 <= p < q < |all| && all[p].Out? && all[q].Out?
      ensures all[p].id < all[q].id || (all[p].id == all[q].id && all[p].slot < all[q].slot)
    {
      if p >= |es| {
        assert all[p] == outs[p - |es|] && all[q] == outs[q - |es|];
        assert rs[p - |es|].slot < rs[q - |es|].slot;
      } else if q < |es| {
        assert all[p] == es[p] && all[q] == es[q];
      }
    }
  }

  lemma {:induction false} FlushOrder(c: Code, d: Dec, ids: seq<nat>, maxAge: int, now: nat)
    requires DecValid(c, d) && forall x :: x in ids ==> x in d.blocks
    requires Rising(ids)
    ensures LexOrdered(FlushEntries(c, d.blocks, ids, maxAge, now), ids)
  {
    if ids != [] {
      hide LexOrdered, FlushEntries, FlushOne, DecValid, Rising;
      var n := |ids| - 1;
      RisingSplit(ids);
      FlushOrder(c, d, ids[..n], maxAge, now);
      var es := FlushEntries(c, d.blocks, ids[..n], maxAge, now);
      LexOrderedOne(c, d, es, ids[..n], ids[n], maxAge, now);
      FlushEntriesStep(c, d, [], ids, maxAge, now);
      assert [] + FlushEntries(c, d.blocks, ids, maxAge, now) == FlushEntries(c, d.blocks, ids, maxAge, now);
      assert [] + es == es;
    }
  }

  lemma LexOrderedOne(c: Code, d: Dec, es: seq<Entry>, ids: seq<nat>, x: nat, maxAge: int, now: nat)
    requires DecValid(c, d) && x in d.blocks && LexOrdered(es, ids)
    requires forall id :: id in ids ==> id < x
    ensures LexOrdered(es + FlushOne(c, d.blocks[x], x, maxAge, now), ids + [x])
  {
    hide LexOrdered, Flushable, StuckFrom, Increasing;
    var b := d.blocks[x];
    if Flushable(c, b, maxAge, now) {
      StuckIsExact(c, b, b.delivered);
      LexOrderedAppend(es, ids, x, StuckFrom(b, b.delivered), b.delivered, c.k);
    } else {
      LexOrderedMore(es, ids, x);
      assert es + [] == es;
    }
  }

  lemma LexOrderedMore(es: seq<Entry>, ids: seq<nat>, x: nat)
    requires LexOrdered(es, ids)
    ensures LexOrdered(es, ids + [x])
  {
  }

  /** The frames of one flush come in strictly increasing (block, slot) order. */
  lemma FlushIsOrdered(c: Code, d: Dec, maxAge: int, now: nat)
    requires DecValid(c, d)
    ensures LexOrdered(FlushStep(c, d, maxAge, now).1, Ascending(d.blocks.Keys))
  {
    FlushOrder(c, d, Ascending(d.blocks.Keys), maxAge, now);
  }

  // ---------- the run invariant ----------

  ghost predicate LogInv(c: Code, d: Dec, log: seq<Entry>)
  {
    && DecValid(c, d)
    && Disciplined(log)
    && (forall id: nat :: LastSlot(log, id) < BlockOf(c, d, id).delivered)
    && (forall id: nat :: CountFreed(log, id) <= if id < d.minBlockID then 1 else 0)
    && (d.minBlockID == 0 || d.minBlockID + MAX_OLD_BLOCKS <= d.maxSeen)
    && (forall id :: id in d.blocks ==> id <= d.maxSeen)
  }

  lemma LogInvOpened(c: Code, d: Dec, log: seq<Entry>, id: nat, now: nat)
    requires c.Valid() && LogInv(c, d, log)
    ensures LogInv(c, Opened(d, id, now).0, log + Freeds(Opened(d, id, now).1))
  {
    OpenedDeletes(d, id, now);
    OpenedKeepsValid(c, d, id, now);
    var (d1, freed) := Opened(d, id, now);
    AppendFreeds(log, freed);
    forall x: nat
      ensures CountFreed(log + Freeds(freed), x) <= if x < d1.minBlockID then 1 else 0
    {
      CountFreedConcat(log, Freeds(freed), x);
      CountFreeds(freed, x);
    }
  }

  /** Handing out a batch of one block and storing its new state keeps the invariant. */
  lemma LogInvBatch(c: Code, d: Dec, log: seq<Entry>, id: nat, b': Block, rs: seq<Release>)
    requires LogInv(c, d, log) && id <= d.maxSeen && WellFormed(c, b')
    requires BlockOf(c, d, id).delivered <= b'.delivered
    requires Increasing(rs, BlockOf(c, d, id).delivered, b'.delivered)
    ensures LogInv(c, d.(blocks := d.blocks[id := b']), log + Outs(id, rs))
  {
    hide Disciplined, LastSlot, CountFreed, WellFormed, Clean;
    var d' := d.(blocks := d.blocks[id := b']);
    AppendOuts(log, id, rs, BlockOf(c, d, id).delivered, b'.delivered);
    forall x: nat
      ensures LastSlot(log + Outs(id, rs), x) < BlockOf(c, d', x).delivered
    {
      if x != id {
        assert BlockOf(c, d', x) == BlockOf(c, d, x);
      }
    }
    forall x: nat
      ensures CountFreed(log + Outs(id, rs), x) == CountFreed(log, x)
    {
      CountFreedConcat(log, Outs(id, rs), x);
      CountFreedZero(Outs(id, rs), x);
    }
  }

  lemma LogInvAdd(c: Code, d: Dec, log: seq<Entry>, id: nat, a: Arrival)
    requires c.Valid() && LogInv(c, d, log)
    ensures LogInv(c, AddStep(c, d, id, a).0, log + AddStep(c, d, id, a).1)
  {
    hide BlockAdd, Opened, Expire, WellFormed, Disciplined, Clean;
    var (d1, freed) := Opened(d, id, a.now);
    LogInvOpened(c, d, log, id, a.now);
    OpenedDeletes(d, id, a.now);
    CleanIsWellFormed(c);
    var b := BlockOf(c, d1, id);
    BlockAddSpan(c, b, a);
    BlockAddKeepsWellFormed(c, b, a);
    var (b', o) := BlockAdd(c, b, a);
    var rs := if o.Released? then o.out else [];
    assert log + AddStep(c, d, id, a).1 == log + Freeds(freed) + Outs(id, rs);
    LogInvBatch(c, d1, log + Freeds(freed), id, b', rs);
  }

  lemma LogInvFlush(c: Code, d: Dec, log: seq<Entry>, maxAge: int, now: nat)
    requires c.Valid() && LogInv(c, d, log)
    ensures LogInv(c, FlushStep(c, d, maxAge, now).0, log + FlushStep(c, d, maxAge, now).1)
  {
    hide WellFormed, Flushable, FlushEntries, Disciplined, LastSlot, CountFreed;
    var ids := Ascending(d.blocks.Keys);
    var (d', es) := FlushStep(c, d, maxAge, now);
    FlushStepKeepsValid(c, d, maxAge, now);
    forall x: nat
      ensures Disciplined(log + es) && LastSlot(log + es, x) < BlockOf(c, d', x).delivered
    {
      AppendFlush(c, d, log, ids, maxAge, now, x);
    }
    assert Disciplined(log + es) by {
      AppendFlush(c, d, log, ids, maxAge, now, 0);
    }
    forall x: nat
      ensures CountFreed(log + es, x) == CountFreed(log, x)
    {
      CountFreedConcat(log, es, x);
      CountFreedZero(es, x);
      FlushFreesNone(c, d, ids, maxAge, now, x);
    }
  }

  lemma {:induction false} RunKeepsLogInv(c: Code, evs: seq<Event>)
    requires c.Valid()
    ensures LogInv(c, Run(c, evs).0, Run(c, evs).1)
  {
    if evs != [] {
      var n := |evs| - 1;
      RunKeepsLogInv(c, evs[..n]);
      var (d, log) := Run(c, evs[..n]);
      match evs[n]
      case Add(id, a) => LogInvAdd(c, d, log, id, a);
      case Flush(maxAge, now) => LogInvFlush(c, d, log, maxAge, now);
    }
  }

  /** In a disciplined log a slot is released once per lifetime at most. */
  lemma {:induction false} DisciplinedCounts(log: seq<Entry>, id: nat, slot: nat)
    requires Disciplined(log)
    ensures CountOut(log, id, slot) <= CountFreed(log, id) + if slot <= LastSlot(log, id) then 1 else 0
  {
    if log != [] {
      var n := |log| - 1;
      forall p | 0 <= p < n && log[..n][p].Out?
        ensures log[..n][p].slot > LastSlot(log[..n][..p], log[..n][p].id)
      {
        assert log[..n][..p] == log[..p];
      }
      DisciplinedCounts(log[..n], id, slot);
    }
  }

  /** Main theorem. Whatever arrives and whenever blocks expire and flush: a block id is deleted at
      most once, so it has at most two lifetimes; a slot is handed out at most once per lifetime,
      in increasing order; and at most once altogether unless the id was deleted and created again. */
  lemma ReleasedAtMostTwice(c: Code, evs: seq<Event>, id: nat, slot: nat)
    requires c.Valid()
    ensures var (d, log) := Run(c, evs);
      && Disciplined(log)
      && CountFreed(log, id) <= 1
      && CountOut(log, id, slot) <= 1 + CountFreed(log, id)
      && (id !in d.blocks ==> CountOut(log, id, slot) <= CountFreed(log, id))
  {
    RunKeepsLogInv(c, evs);
    DisciplinedCounts(Run(c, evs).1, id, slot);
  }

  lemma StepKeys(c: Code, d: Dec, e: Event, id: nat)
    requires c.Valid() && DecValid(c, d)
    ensures id !in d.blocks && !(e.Add? && e.id == id) ==> id !in Step(c, d, e).0.blocks
    ensures id in d.blocks && id < d.minBlockID ==>
      id in Step(c, d, e).0.blocks && id < Step(c, d, e).0.minBlockID
  {
    hide Opened, BlockAdd, WellFormed, Flushable, FlushEntries, Closed, Clean;
    match e
    case Add(x, a) =>
      OpenedDeletes(d, x, a.now);
      assert Step(c, d, e).0.blocks.Keys == Opened(d, x, a.now).0.blocks.Keys + {x};
    case Flush(maxAge, now) =>
      assert FlushStep(c, d, maxAge, now).0.blocks.Keys == d.blocks.Keys;
  }

  lemma RunAppend(c: Code, evs: seq<Event>, e: Event)
    requires c.Valid()
    ensures Run(c, evs + [e]).0 == Step(c, Run(c, evs).0, e).0
    ensures Run(c, evs + [e]).1 == Run(c, evs).1 + Step(c, Run(c, evs).0, e).1
  {
    assert (evs + [e])[..|evs|] == evs;
  }

  lemma {:induction false} SilentStaysAbsent(c: Code, evs: seq<Event>, later: seq<Event>, id: nat)
    requires c.Valid()
    requires id !in Run(c, evs).0.blocks
    requires forall e :: e in later && e.Add? ==> e.id != id
    ensures id !in Run(c, evs + later).0.blocks
  {
    hide *;
    if later == [] {
      assert evs + later == evs;
    } else {
      var n := |later| - 1;
      SilentStaysAbsent(c, evs, later[..n], id);
      assert evs + later == (evs + later[..n]) + [later[n]];
      RunAppend(c, evs + later[..n], later[n]);
      assert later[n] in later;
      StepKeys(c, Run(c, evs + later[..n]).0, later[n], id);
    }
  }

  /** Exactly once for a block that gets no packet after its expiry. */
  lemma OnceIfSilentAfterExpiry(c: Code, evs: seq<Event>, later: seq<Event>, id: nat, slot: nat)
    requires c.Valid()
    requires id !in Run(c, evs).0.blocks
    requires forall e :: e in later && e.Add? ==> e.id != id
    ensures CountOut(Run(c, evs + later).1, id, slot) <= 1
  {
    SilentStaysAbsent(c, evs, later, id);
    ReleasedAtMostTwice(c, evs + later, id, slot);
  }

  /** A packet for an expired id creates its block again, and from then on nothing deletes it. */
  lemma {:induction false} RecreatedBlockStays(c: Code, evs: seq<Event>, later: seq<Event>, id: nat)
    requires c.Valid()
    requires id in Run(c, evs).0.blocks && id < Run(c, evs).0.minBlockID
    ensures id in Run(c, evs + later).0.blocks && id < Run(c, evs + later).0.minBlockID
  {
    hide *;
    if later == [] {
      assert evs + later == evs;
    } else {
      var n := |later| - 1;
      RecreatedBlockStays(c, evs, later[..n], id);
      assert evs + later == (evs + later[..n]) + [later[n]];
      RunAppend(c, evs + later[..n], later[n]);
      StepKeys(c, Run(c, evs + later[..n]).0, later[n], id);
    }
  }
}
