/** The lifetimes of a block, from its creation to its deletion: what it hands out in one depends on its own
    packets only, which lifts the one-block theorem to the decoder and says when a slot leaves again. */
module FecLifetimes {
  import opened Bytes
  import opened Erasure
  import opened FecSpec
  import opened FecStreaming
  import opened FecRuns

  // ---------- one lifetime ----------

  /** The arrivals of one block since it was last deleted, up to the flush that closed it if one did. */
  ghost function OpenArrivals(c: Code, evs: seq<Event>, id: nat): seq<Arrival>
    requires c.Valid()
  {
    if evs == [] || FreedBy(c, evs, id) then []
    else
      var n := |evs| - 1;
      if Unflushed(Run(c, evs[..n]).1, id) then OpenArrivals(c, evs[..n], id) + ArrivalOf(evs[n], id)
      else OpenArrivals(c, evs[..n], id)
  }

  function ArrivalOf(e: Event, id: nat): seq<Arrival>
  {
    if e.Add? && e.id == id then [e.a] else []
  }

  /** The last event of a run deletes the block. */
  ghost predicate FreedBy(c: Code, evs: seq<Event>, id: nat)
    requires c.Valid() && evs != []
  {
    var n := |evs| - 1;
    Freed(id) in Step(c, Run(c, evs[..n]).0, evs[n]).1
  }

  /** The frames of one block in its current lifetime. */
  function OutsOf(log: seq<Entry>, id: nat): seq<Release>
  {
    if log == [] then []
    else
      var e := log[|log| - 1];
      if e == Freed(id) then []
      else OutsOf(log[..|log| - 1], id) + if e.Out? && e.id == id then [Release(e.slot, e.frame)] else []
  }

  /** No flush closed the block in its current lifetime. */
  predicate Unflushed(log: seq<Entry>, id: nat)
  {
    if log == [] then true
    else
      var e := log[|log| - 1];
      e == Freed(id) || (e != Flushed(id) && Unflushed(log[..|log| - 1], id))
  }

  lemma {:induction false} OutsOfConcat(log: seq<Entry>, more: seq<Entry>, id: nat)
    ensures OutsOf(log + more, id) == if Freed(id) in more then OutsOf(more, id) else OutsOf(log, id) + OutsOf(more, id)
    ensures Unflushed(log + more, id) <==> Unflushed(more, id) && (Freed(id) in more || Unflushed(log, id))
  {
    if more == [] {
      assert log + more == log;
    } else {
      var n := |more| - 1;
      assert (log + more)[..|log + more| - 1] == log + more[..n];
      assert more == more[..n] + [more[n]];
      OutsOfConcat(log, more[..n], id);
    }
  }

  lemma {:induction false} OutsOfNone(log: seq<Entry>, id: nat)
    requires forall e :: e in log ==> !(e.Out? && e.id == id)
    ensures OutsOf(log, id) == []
  {
    if log != [] {
      assert log == log[..|log| - 1] + [log[|log| - 1]];
      OutsOfNone(log[..|log| - 1], id);
    }
  }

  lemma {:induction false} UnflushedIfNone(log: seq<Entry>, id: nat)
    ensures Flushed(id) !in log ==> Unflushed(log, id)
    ensures Freed(id) !in log && Unflushed(log, id) ==> Flushed(id) !in log
  {
    if log != [] {
      assert log == log[..|log| - 1] + [log[|log| - 1]];
      UnflushedIfNone(log[..|log| - 1], id);
    }
  }

  lemma {:induction false} OutsOfOuts(rs: seq<Release>, id: nat)
    ensures OutsOf(Outs(id, rs), id) == rs
  {
    if rs != [] {
      var n := |rs| - 1;
      assert Outs(id, rs)[..n] == Outs(id, rs[..n]);
      OutsOfOuts(rs[..n], id);
      assert Release(rs[n].slot, rs[n].frame) == rs[n];
      assert rs == rs[..n] + [rs[n]];
    }
  }

  /** A flush is due for the block. */
  predicate Due(c: Code, d: Dec, id: nat, maxAge: int, now: nat)
  {
    id in d.blocks && Flushable(c, d.blocks[id], maxAge, now)
  }

  /** What some entries of a flush hold of one block: nothing, or its closing with what was stuck. */
  ghost predicate ClosesWith(es: seq<Entry>, id: nat, due: bool, stuck: seq<Release>)
  {
    && Freed(id) !in es && (Flushed(id) in es <==> due)
    && OutsOf(es, id) == if due then stuck else []
  }

  /** What the flush of one block adds to the log, seen from another or from itself. */
  lemma FlushOneCloses(c: Code, b: Block, x: nat, maxAge: int, now: nat, id: nat, stuck: seq<Release>)
    requires x == id ==> stuck == StuckFrom(b, b.delivered)
    ensures ClosesWith(FlushOne(c, b, x, maxAge, now), id, x == id && Flushable(c, b, maxAge, now), stuck)
  {
    hide Flushable, StuckFrom, OutsOf;
    var one := FlushOne(c, b, x, maxAge, now);
    if Flushable(c, b, maxAge, now) {
      var rs := StuckFrom(b, b.delivered);
      assert one == Outs(x, rs) + [Flushed(x)];
      assert one[|rs|] == Flushed(x);
      OutsOfConcat(Outs(x, rs), [Flushed(x)], id);
      OutsOfNone([Flushed(x)], id);
      if x == id {
        OutsOfOuts(rs, id);
      } else {
        OutsOfNone(Outs(x, rs), id);
      }
    } else {
      OutsOfNone(one, id);
    }
  }

  lemma ClosesConcat(a: seq<Entry>, b: seq<Entry>, id: nat, p: bool, q: bool, stuck: seq<Release>)
    requires ClosesWith(a, id, p, stuck) && ClosesWith(b, id, q, stuck) && !(p && q)
    ensures ClosesWith(a + b, id, p || q, stuck)
  {
    hide OutsOf;
    OutsOfConcat(a, b, id);
    assert stuck + [] == stuck && [] + stuck == stuck;
  }

  lemma {:induction false} FlushEntriesOf(c: Code, d: Dec, ids: seq<nat>, maxAge: int, now: nat, id: nat)
    requires Rising(ids) && forall x :: x in ids ==> x in d.blocks
    ensures var b := BlockOf(c, d, id);
      ClosesWith(FlushEntries(c, d.blocks, ids, maxAge, now), id, id in ids && Due(c, d, id, maxAge, now),
                 StuckFrom(b, b.delivered))
  {
    hide FlushOne, Flushable, StuckFrom, Rising, ClosesWith;
    var b := BlockOf(c, d, id);
    if ids == [] {
      assert ClosesWith([], id, false, StuckFrom(b, b.delivered)) by { NothingCloses(id, StuckFrom(b, b.delivered)); }
    } else {
      var n := |ids| - 1;
      var x := ids[n];
      RisingSplit(ids);
      FlushEntriesOf(c, d, ids[..n], maxAge, now, id);
      FlushOneCloses(c, d.blocks[x], x, maxAge, now, id, StuckFrom(b, b.delivered));
      ClosesConcat(FlushEntries(c, d.blocks, ids[..n], maxAge, now), FlushOne(c, d.blocks[x], x, maxAge, now), id,
                   id in ids[..n] && Due(c, d, id, maxAge, now), x == id && Flushable(c, d.blocks[x], maxAge, now),
                   StuckFrom(b, b.delivered));
    }
  }

  lemma NothingCloses(id: nat, stuck: seq<Release>)
    ensures ClosesWith([], id, false, stuck)
  {
  }

  /** A flush, seen from one block. */
  lemma FlushLogOf(c: Code, d: Dec, maxAge: int, now: nat, id: nat)
    ensures var (d', es) := FlushStep(c, d, maxAge, now); var due := Due(c, d, id, maxAge, now);
      && Freed(id) !in es
      && (Flushed(id) in es <==> due)
      && OutsOf(es, id) == (if due then StuckFrom(d.blocks[id], d.blocks[id].delivered) else [])
      && (id in d'.blocks <==> id in d.blocks)
      && BlockOf(c, d', id) == if due then Closed(c, d.blocks[id]) else BlockOf(c, d, id)
  {
    hide Flushable, FlushEntries, OutsOf, Closed, Clean, StuckFrom, Rising;
    FlushEntriesOf(c, d, Ascending(d.blocks.Keys), maxAge, now, id);
  }

  lemma EntriesOf(freed: seq<nat>, x: nat, rs: seq<Release>, id: nat)
    requires Freed(id) !in Freeds(freed) + Outs(x, rs)
    ensures id !in freed
    ensures OutsOf(Freeds(freed) + Outs(x, rs), id) == if x == id then rs else []
  {
    hide OutsOf;
    var es := Freeds(freed) + Outs(x, rs);
    assert forall i :: 0 <= i < |freed| ==> es[i] == Freed(freed[i]);
    OutsOfConcat(Freeds(freed), Outs(x, rs), id);
    OutsOfNone(Freeds(freed), id);
    if x == id {
      OutsOfOuts(rs, id);
    } else {
      OutsOfNone(Outs(x, rs), id);
    }
  }

  lemma AddEntries(c: Code, d: Dec, x: nat, a: Arrival)
    requires c.Valid() && DecValid(c, d)
    ensures var (_, es, o) := AddStep(c, d, x, a);
      es == Freeds(Opened(d, x, a.now).1) + Outs(x, if o.Released? then o.out else [])
  {
    hide Opened, BlockAdd, WellFormed, Clean, Freeds;
    assert Outs(x, []) == [];
  }

  /** The log of an arrival, seen from one block that was not deleted. */
  lemma AddLogOf(c: Code, d: Dec, x: nat, a: Arrival, id: nat)
    requires c.Valid() && DecValid(c, d)
    requires Freed(id) !in AddStep(c, d, x, a).1
    ensures id !in Opened(d, x, a.now).1
    ensures var (_, es, o) := AddStep(c, d, x, a);
      OutsOf(es, id) == if x == id && o.Released? then o.out else []
  {
    hide Opened, AddStep, OutsOf, Freeds, Outs, DecValid;
    var o := AddStep(c, d, x, a).2;
    AddEntries(c, d, x, a);
    EntriesOf(Opened(d, x, a.now).1, x, if o.Released? then o.out else [], id);
  }

  lemma AddBlockOf(c: Code, d: Dec, x: nat, a: Arrival, id: nat)
    requires c.Valid() && DecValid(c, d)
    requires id !in Opened(d, x, a.now).1
    ensures WellFormed(c, BlockOf(c, d, id))
    ensures BlockOf(c, AddStep(c, d, x, a).0, id) ==
      if x == id then BlockAdd(c, BlockOf(c, d, id), a).0 else BlockOf(c, d, id)
    ensures x == id ==> AddStep(c, d, x, a).2 == BlockAdd(c, BlockOf(c, d, id), a).1
    ensures id in AddStep(c, d, x, a).0.blocks <==> id in d.blocks || x == id
  {
    CleanIsWellFormed(c);
    OpenedDeletes(d, x, a.now);
    assert BlockOf(c, Opened(d, x, a.now).0, id) == BlockOf(c, d, id);
  }

  /** How a block stands in its current lifetime: as the block run alone, or closed by a flush that handed
      out what was stuck in it. */
  ghost predicate Stands(c: Code, d: Dec, log: seq<Entry>, id: nat, b: Block, out: seq<Release>)
  {
    if Unflushed(log, id) then BlockOf(c, d, id) == b && OutsOf(log, id) == out
    else
      && !b.done && id in d.blocks && d.blocks[id] == Closed(c, b)
      && OutsOf(log, id) == out + StuckFrom(b, b.delivered)
  }

  /** An arrival at an open block goes into it; at a closed one it changes nothing. */
  lemma AddStands(c: Code, d: Dec, log: seq<Entry>, x: nat, a: Arrival, before: seq<Arrival>, id: nat)
    requires c.Valid() && DecValid(c, d) && Freed(id) !in AddStep(c, d, x, a).1
    requires Stands(c, d, log, id, BlockRun(c, before).0, BlockRun(c, before).1)
    ensures var (d', es, _) := AddStep(c, d, x, a);
      var arrivals := if Unflushed(log, id) then before + ArrivalOf(Add(x, a), id) else before;
      && (Unflushed(log + es, id) <==> Unflushed(log, id))
      && Stands(c, d', log + es, id, BlockRun(c, arrivals).0, BlockRun(c, arrivals).1)
  {
    hide AddStep, BlockRun, WellFormed, StuckFrom, OutsOf, Unflushed, TryRecover, Record, Recordable, Clean;
    var (d', es, _) := AddStep(c, d, x, a);
    AddLogOf(c, d, x, a, id);
    AddBlockOf(c, d, x, a, id);
    OutsOfConcat(log, es, id);
    AddFlushesNone(c, d, x, a, id);
    UnflushedIfNone(es, id);
    if Unflushed(log, id) {
      if x == id {
        BlockRunAppend(c, before, a);
      } else {
        assert before + ArrivalOf(Add(x, a), id) == before;
      }
    } else {
      assert BlockOf(c, d, id).done;
    }
    assert OutsOf(log, id) + [] == OutsOf(log, id);
  }

  lemma AddFlushesNone(c: Code, d: Dec, x: nat, a: Arrival, id: nat)
    requires c.Valid() && DecValid(c, d)
    ensures Flushed(id) !in AddStep(c, d, x, a).1
  {
    AddStepLog(c, d, x, a);
  }

  /** A flush closes an open block that is due and leaves every other as it is. */
  lemma FlushStands(c: Code, d: Dec, log: seq<Entry>, maxAge: int, now: nat, b: Block, out: seq<Release>, id: nat)
    requires Stands(c, d, log, id, b, out)
    ensures Stands(c, FlushStep(c, d, maxAge, now).0, log + FlushStep(c, d, maxAge, now).1, id, b, out)
  {
    hide FlushStep, StuckFrom, OutsOf, Unflushed, Clean;
    var (d', es) := FlushStep(c, d, maxAge, now);
    FlushLogOf(c, d, maxAge, now, id);
    OutsOfConcat(log, es, id);
    UnflushedIfNone(es, id);
    assert OutsOf(log, id) + [] == OutsOf(log, id);
  }

  /** An arrival that deletes the block leaves it as new: nothing of it is handed out. */
  lemma DeletingAdd(c: Code, d: Dec, x: nat, a: Arrival, id: nat)
    requires c.Valid() && DecValid(c, d) && Freed(id) in AddStep(c, d, x, a).1
    ensures BlockOf(c, AddStep(c, d, x, a).0, id) == Clean(c)
    ensures x != id && OutsOf(AddStep(c, d, x, a).1, id) == []
    ensures Unflushed(AddStep(c, d, x, a).1, id)
  {
    hide BlockAdd, WellFormed, Expire, Clean;
    var es := AddStep(c, d, x, a).1;
    OpenedDeletes(d, x, a.now);
    AddStepLog(c, d, x, a);
    assert id in Opened(d, x, a.now).1;
    assert id < x;
    OutsOfNone(es, id);
    UnflushedIfNone(es, id);
  }

  lemma StandsAnew(c: Code, d: Dec, log: seq<Entry>, id: nat)
    requires c.Valid() && BlockOf(c, d, id) == Clean(c) && OutsOf(log, id) == [] && Unflushed(log, id)
    ensures Stands(c, d, log, id, BlockRun(c, []).0, BlockRun(c, []).1)
  {
  }

  /** Main theorem. Blocks do not disturb each other: in every run a block's state and the frames of its
      current lifetime are those of the block run alone on the arrivals it took in that lifetime; and once
      a flush has closed it, the same block closed, and after its frames the ones stuck in it. */
  lemma {:induction false} BlocksAreIndependent(c: Code, evs: seq<Event>, id: nat)
    requires c.Valid()
    ensures var (d, log) := Run(c, evs); var (b, out) := BlockRun(c, OpenArrivals(c, evs, id));
      Stands(c, d, log, id, b, out)
  {
    hide AddStep, FlushStep, DecValid, WellFormed, Clean, Stands, BlockRun, Unflushed, OutsOf;
    if evs == [] {
      NewBlock(c, id);
      StandsAnew(c, EMPTY_DEC, [], id);
    } else {
      var n := |evs| - 1;
      var (d, log) := Run(c, evs[..n]);
      var es := Step(c, d, evs[n]).1;
      assert evs == evs[..n] + [evs[n]];
      RunAppend(c, evs[..n], evs[n]);
      BlocksAreIndependent(c, evs[..n], id);
      var before := OpenArrivals(c, evs[..n], id);
      match evs[n]
      case Add(x, a) =>
        if Freed(id) in es {
          DeletingAdd(c, d, x, a, id);
          OutsOfConcat(log, es, id);
          StandsAnew(c, Run(c, evs).0, log + es, id);
        } else {
          AddStands(c, d, log, x, a, before, id);
        }
      case Flush(maxAge, now) =>
        FlushLogOf(c, d, maxAge, now, id);
        FlushStands(c, d, log, maxAge, now, BlockRun(c, before).0, BlockRun(c, before).1, id);
        assert before + ArrivalOf(evs[n], id) == before;
    }
  }

  lemma NewBlock(c: Code, id: nat)
    ensures BlockOf(c, EMPTY_DEC, id) == Clean(c) && OutsOf([], id) == [] && Unflushed([], id)
  {
  }

  // ---------- when a slot leaves again ----------

  /** The log up to the block's last deletion. */
  function EarlierLives(log: seq<Entry>, id: nat): seq<Entry>
  {
    if log == [] || log[|log| - 1] == Freed(id) then log else EarlierLives(log[..|log| - 1], id)
  }

  function CountSlot(rs: seq<Release>, slot: nat): nat
  {
    if rs == [] then 0
    else CountSlot(rs[..|rs| - 1], slot) + if rs[|rs| - 1].slot == slot then 1 else 0
  }

  lemma {:induction false} CountByLifetime(log: seq<Entry>, id: nat, slot: nat)
    ensures CountOut(log, id, slot) == CountOut(EarlierLives(log, id), id, slot) + CountSlot(OutsOf(log, id), slot)
  {
    if log != [] && log[|log| - 1] != Freed(id) {
      var n := |log| - 1;
      CountByLifetime(log[..n], id, slot);
      hide CountSlot;
      var rs, e := OutsOf(log[..n], id), log[n];
      if e.Out? && e.id == id {
        CountSlotSnoc(rs, Release(e.slot, e.frame), slot);
      } else {
        assert rs + [] == rs;
      }
    } else if log == [] {
      assert OutsOf(log, id) == [];
    }
  }

  lemma CountSlotSnoc(rs: seq<Release>, r: Release, slot: nat)
    ensures CountSlot(rs + [r], slot) == CountSlot(rs, slot) + if r.slot == slot then 1 else 0
  {
    assert (rs + [r])[..|rs|] == rs;
  }

  /** The slot is among the releases. */
  ghost predicate HasSlot(rs: seq<Release>, slot: nat)
  {
    exists i :: 0 <= i < |rs| && rs[i].slot == slot
  }

  lemma HasSlotConcat(a: seq<Release>, b: seq<Release>, slot: nat)
    ensures HasSlot(a + b, slot) <==> HasSlot(a, slot) || HasSlot(b, slot)
  {
    if HasSlot(a, slot) {
      var i :| 0 <= i < |a| && a[i].slot == slot;
      assert (a + b)[i].slot == slot;
    }
    if HasSlot(b, slot) {
      var i :| 0 <= i < |b| && b[i].slot == slot;
      assert (a + b)[|a| + i].slot == slot;
    }
  }

  lemma {:induction false} CountRising(rs: seq<Release>, slot: nat)
    requires forall i, j :: 0 <= i < j < |rs| ==> rs[i].slot < rs[j].slot
    ensures CountSlot(rs, slot) == if HasSlot(rs, slot) then 1 else 0
  {
    if rs != [] {
      var n := |rs| - 1;
      CountRising(rs[..n], slot);
      assert rs == rs[..n] + [rs[n]];
      HasSlotConcat(rs[..n], [rs[n]], slot);
      assert HasSlot([rs[n]], slot) <==> rs[n].slot == slot by { assert [rs[n]][0] == rs[n]; }
    }
  }
}
