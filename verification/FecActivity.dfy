/** What the decoder's clocks and thresholds mean in terms of the packets that came: when a block was last
    active, which blocks a flush closes and which ones expire. */
module FecActivity {
  import opened Bytes
  import opened Erasure
  import opened FecSpec
  import opened FecStreaming
  import opened FecRuns
  import opened FecLifetimes

  // ---------- one block in terms of its packets ----------

  predicate InRange(c: Code, a: Arrival)
  {
    0 <= a.idx < if a.isRepair then c.r else c.k
  }

  /** The first packet that came for a slot. */
  function FirstFor(arrivals: seq<Arrival>, repair: bool, idx: int): Option<Frame>
  {
    if arrivals == [] then None
    else
      var before, a := FirstFor(arrivals[..|arrivals| - 1], repair, idx), arrivals[|arrivals| - 1];
      if before.None? && a.isRepair == repair && a.idx == idx then Some(a.pkt) else before
  }

  /** The packet is the first of its slot. */
  predicate IsNew(c: Code, before: seq<Arrival>, a: Arrival)
  {
    InRange(c, a) && FirstFor(before, a.isRepair, a.idx).None?
  }

  /** When the last packet came that was new to the block before it had handed out all its slots. */
  ghost function LatestNew(c: Code, arrivals: seq<Arrival>): Option<nat>
    requires c.Valid()
  {
    if arrivals == [] then None
    else
      var before, a := arrivals[..|arrivals| - 1], arrivals[|arrivals| - 1];
      if |BlockRun(c, before).1| < c.k && IsNew(c, before, a) then Some(a.now) else LatestNew(c, before)
  }

  /** An open block holds the first packet of every slot. */
  ghost predicate Shelved(c: Code, b: Block, arrivals: seq<Arrival>)
  {
    && WellFormed(c, b)
    && (forall i :: 0 <= i < c.k ==> b.data[i] == FirstFor(arrivals, false, i))
    && (forall i :: 0 <= i < c.r ==> b.repair[i] == FirstFor(arrivals, true, i))
  }

  /** A block, and what it has handed out, in terms of its packets. */
  ghost predicate BlockIs(c: Code, b: Block, out: seq<Release>, arrivals: seq<Arrival>)
    requires c.Valid()
  {
    && WellFormed(c, b) && |out| == b.delivered
    && (!b.done ==> Shelved(c, b, arrivals))
    && b.lastActivity == LatestNew(c, arrivals)
  }

  lemma FirstForAppend(arrivals: seq<Arrival>, a: Arrival, repair: bool, idx: int)
    ensures FirstFor(arrivals + [a], repair, idx) ==
      if FirstFor(arrivals, repair, idx).None? && a.isRepair == repair && a.idx == idx then Some(a.pkt)
      else FirstFor(arrivals, repair, idx)
  {
    assert (arrivals + [a])[..|arrivals|] == arrivals;
  }

  /** An open block records exactly the new packets. */
  lemma NewIsRecordable(c: Code, b: Block, arrivals: seq<Arrival>, a: Arrival)
    requires Shelved(c, b, arrivals)
    ensures Recordable(c, b, a) <==> IsNew(c, arrivals, a)
    ensures Recordable(c, b, a) && !b.done ==> Shelved(c, Record(c, b, a), arrivals + [a])
    ensures !Recordable(c, b, a) ==> Shelved(c, b, arrivals + [a])
  {
    hide FirstFor;
    forall repair, i | 0 <= i < if repair then c.r else c.k
      ensures FirstFor(arrivals + [a], repair, i) ==
        if FirstFor(arrivals, repair, i).None? && a.isRepair == repair && a.idx == i then Some(a.pkt)
        else FirstFor(arrivals, repair, i)
    {
      FirstForAppend(arrivals, a, repair, i);
    }
    if Recordable(c, b, a) && !b.done {
      RecordKeepsWellFormed(c, b, a);
    }
  }

  /** Recovery and delivery keep the time, count what they hand out, and keep an open block's packets. */
  lemma TryRecoverIs(c: Code, b: Block)
    requires WellFormed(c, b) && !b.done && c.Valid()
    ensures var (b', o) := TryRecover(c, b); var out := if o.Released? then o.out else [];
      && WellFormed(c, b') && b'.lastActivity == b.lastActivity
      && b'.delivered == b.delivered + |out|
      && (!b'.done ==> b'.data == b.data && b'.repair == b.repair)
  {
    hide Filled, Delivered;
    TryRecoverKeepsWellFormed(c, b);
    if CanRebuild(c, b) {
      RepairThere(c, b);
      var rebuilt := Rebuild(c, b.data, b.repair);
      if rebuilt.Some? {
        FilledKeepsWellFormed(c, b, rebuilt.value);
        FilledIs(c, b, rebuilt.value);
        DeliveredIs(c, Filled(c, b, rebuilt.value));
      }
    } else {
      DeliveredIs(c, b);
    }
  }

  lemma DeliveredIs(c: Code, b: Block)
    requires WellFormed(c, b)
    ensures var (b', out) := Delivered(c, b);
      && b'.lastActivity == b.lastActivity && b'.delivered == b.delivered + |out|
      && b'.data == b.data && b'.repair == b.repair
      && ((forall i :: b.delivered <= i < c.k ==> b.present[i]) ==> b'.done)
  {
  }

  lemma FilledIs(c: Code, b: Block, rebuilt: seq<Frame>)
    requires WellFormed(c, b) && |rebuilt| == c.k
    ensures var b' := Filled(c, b, rebuilt);
      && b'.lastActivity == b.lastActivity && b'.delivered == b.delivered
      && |b'.present| == c.k + c.r && forall i :: 0 <= i < c.k ==> b'.present[i]
  {
  }

  lemma BlockIsStep(c: Code, b: Block, out: seq<Release>, arrivals: seq<Arrival>, a: Arrival)
    requires c.Valid() && BlockIs(c, b, out, arrivals) && out == BlockRun(c, arrivals).1
    ensures var (b', o) := BlockAdd(c, b, a);
      BlockIs(c, b', out + (if o.Released? then o.out else []), arrivals + [a])
  {
    hide TryRecover, Record, Recordable, BlockRun, IsNew;
    assert (arrivals + [a])[..|arrivals|] == arrivals;
    assert out + [] == out;
    assert b.done <==> |out| == c.k;
    if !b.done {
      NewIsRecordable(c, b, arrivals, a);
      if Recordable(c, b, a) {
        RecordedAt(c, b, a);
        TryRecoverIs(c, Record(c, b, a));
        ShelvedAlike(c, Record(c, b, a), TryRecover(c, Record(c, b, a)).0, arrivals + [a]);
      }
    }
  }

  lemma RecordedAt(c: Code, b: Block, a: Arrival)
    requires WellFormed(c, b) && !b.done && Recordable(c, b, a)
    ensures var b' := Record(c, b, a);
      WellFormed(c, b') && !b'.done && b'.delivered == b.delivered && b'.lastActivity == Some(a.now)
  {
    RecordKeepsWellFormed(c, b, a);
  }

  lemma ShelvedAlike(c: Code, b: Block, b': Block, arrivals: seq<Arrival>)
    requires Shelved(c, b, arrivals) && WellFormed(c, b')
    ensures b'.data == b.data && b'.repair == b.repair ==> Shelved(c, b', arrivals)
  {
  }

  lemma NewBlockIs(c: Code)
    requires c.Valid()
    ensures BlockIs(c, BlockRun(c, []).0, BlockRun(c, []).1, [])
  {
    CleanIsWellFormed(c);
  }

  lemma {:induction false} BlockRunIs(c: Code, arrivals: seq<Arrival>)
    requires c.Valid()
    ensures BlockIs(c, BlockRun(c, arrivals).0, BlockRun(c, arrivals).1, arrivals)
  {
    hide BlockIs, BlockAdd, WellFormed, BlockRun;
    if arrivals == [] {
      NewBlockIs(c);
    } else {
      var n := |arrivals| - 1;
      BlockRunIs(c, arrivals[..n]);
      var (b, out) := BlockRun(c, arrivals[..n]);
      assert arrivals == arrivals[..n] + [arrivals[n]];
      BlockIsStep(c, b, out, arrivals[..n], arrivals[n]);
      BlockRunAppend(c, arrivals[..n], arrivals[n]);
      assert out + [] == out;
    }
  }

  // ---------- what any packet gives out ----------

  function FirstData(c: Code, arrivals: seq<Arrival>): seq<Option<Frame>>
  {
    seq(c.k, i => FirstFor(arrivals, false, i))
  }

  function FirstRepairs(c: Code, arrivals: seq<Arrival>): seq<Option<Frame>>
  {
    seq(c.r, i => FirstFor(arrivals, true, i))
  }

  /** The frame that came, or the one rebuilt. */
  function HeldOr(data: seq<Option<Frame>>, rebuilt: seq<Frame>, i: nat): Frame
    requires i < |data| == |rebuilt|
  {
    if data[i].Some? then data[i].value else rebuilt[i]
  }

  /** The rest of the block is handed out, missing frames rebuilt, or the erasure code's error returned. */
  predicate RecoversTo(c: Code, data: seq<Option<Frame>>, reps: seq<Option<Frame>>, from: nat, o: Outcome)
  {
    && (c.r == 1 ==> |reps| == 1 && reps[0].Some?)
    && match Rebuild(c, data, reps)
       case None => o == Unrecoverable
       case Some(rebuilt) =>
         && |rebuilt| == |data| && o.Released? && from + |o.out| == |data|
         && forall i :: 0 <= i < |o.out| ==> o.out[i] == Release(from + i, HeldOr(data, rebuilt, from + i))
  }

  /** The frames up to the first gap are handed out. */
  predicate GivesPrefix(data: seq<Option<Frame>>, from: nat, o: Outcome)
  {
    && o.Released? && from + |o.out| <= |data|
    && (forall i :: 0 <= i < |o.out| ==>
          data[from + i].Some? && o.out[i] == Release(from + i, data[from + i].value))
    && (from + |o.out| < |data| ==> data[from + |o.out|].None?)
  }

  lemma DeliversPrefix(c: Code, b: Block)
    requires WellFormed(c, b) && !b.done
    ensures GivesPrefix(b.data, b.delivered, Released(Delivered(c, b).1))
  {
  }

  lemma DeliversRest(c: Code, b: Block, rebuilt: seq<Frame>)
    requires WellFormed(c, b) && !b.done && |rebuilt| == c.k && WellFormed(c, Filled(c, b, rebuilt))
    ensures var out := Delivered(c, Filled(c, b, rebuilt)).1;
      && b.delivered + |out| == c.k
      && forall i :: 0 <= i < |out| ==> out[i] == Release(b.delivered + i, HeldOr(b.data, rebuilt, b.delivered + i))
  {
    var b' := Filled(c, b, rebuilt);
    assert PrefixEnd(b'.present, b'.delivered, c.k) == c.k;
  }

  lemma TryRecoverExactly(c: Code, b: Block)
    requires WellFormed(c, b) && !b.done && c.Valid()
    ensures if 0 < MissingCount(b.data) <= CountTrue(Presence(b.repair))
            then RecoversTo(c, b.data, b.repair, b.delivered, TryRecover(c, b).1)
            else GivesPrefix(b.data, b.delivered, TryRecover(c, b).1)
  {
    hide Filled, Delivered, GivesPrefix, MissingCount, Presence, CountTrue, Missing, Repairs;
    CountSplit(c, b);
    if CanRebuild(c, b) {
      RepairThere(c, b);
      var rebuilt := Rebuild(c, b.data, b.repair);
      if rebuilt.Some? {
        FilledKeepsWellFormed(c, b, rebuilt.value);
        DeliversRest(c, b, rebuilt.value);
      }
    } else {
      DeliversPrefix(c, b);
    }
  }

  /** Main theorem. What any packet of a block gives out, genuine or not and after any others: nothing when it
      is a repetition, out of range or late; when the repair symbols are at least as many as the missing data
      frames, and some are missing, the rest of the block with those rebuilt, or the error of the erasure
      code; and otherwise the received frames up to the next gap. */
  lemma AnyPacketExactly(c: Code, arrivals: seq<Arrival>, a: Arrival)
    requires c.Valid()
    ensures var (b, out) := BlockRun(c, arrivals); var o := BlockAdd(c, b, a).1;
      var data, reps := FirstData(c, arrivals + [a]), FirstRepairs(c, arrivals + [a]);
      if |out| == c.k || !IsNew(c, arrivals, a) then o == Released([])
      else if 0 < MissingCount(data) <= CountTrue(Presence(reps)) then RecoversTo(c, data, reps, |out|, o)
      else GivesPrefix(data, |out|, o)
  {
    hide BlockRun, IsNew, Record, Recordable, TryRecover, RecoversTo, GivesPrefix, MissingCount, Presence, FirstFor;
    var (b, out) := BlockRun(c, arrivals);
    BlockRunIs(c, arrivals);
    if !b.done {
      NewIsRecordable(c, b, arrivals, a);
      if Recordable(c, b, a) {
        RecordedAt(c, b, a);
        var b1 := Record(c, b, a);
        TryRecoverExactly(c, b1);
        assert b1.data == FirstData(c, arrivals + [a]) && b1.repair == FirstRepairs(c, arrivals + [a]);
      }
    }
  }

  // ---------- over runs ----------

  /** The block has slots to hand out yet and no flush has closed it. */
  predicate OpenIn(c: Code, log: seq<Entry>, id: nat)
  {
    Unflushed(log, id) && |OutsOf(log, id)| < c.k
  }

  /** When the last packet of the block came, since its last deletion, that was new to it while it was open. */
  ghost function LastNew(c: Code, evs: seq<Event>, id: nat): Option<nat>
    requires c.Valid()
  {
    if evs == [] || FreedBy(c, evs, id) then None
    else
      var before, e := evs[..|evs| - 1], evs[|evs| - 1];
      if e.Add? && e.id == id && OpenIn(c, Run(c, before).1, id) && IsNew(c, OpenArrivals(c, before, id), e.a)
      then Some(e.a.now) else LastNew(c, before, id)
  }

  lemma LatestNewAppend(c: Code, arrivals: seq<Arrival>, a: Arrival)
    requires c.Valid()
    ensures LatestNew(c, arrivals + [a]) ==
      if |BlockRun(c, arrivals).1| < c.k && IsNew(c, arrivals, a) then Some(a.now) else LatestNew(c, arrivals)
  {
    assert (arrivals + [a])[..|arrivals|] == arrivals;
  }

  lemma {:induction false} LastNewIsLatest(c: Code, evs: seq<Event>, id: nat)
    requires c.Valid()
    ensures LastNew(c, evs, id) == LatestNew(c, OpenArrivals(c, evs, id))
  {
    if evs != [] && !FreedBy(c, evs, id) {
      hide FreedBy, Run, Unflushed, OutsOf, BlockRun, LatestNew, IsNew, StuckFrom;
      var n := |evs| - 1;
      var before, e := OpenArrivals(c, evs[..n], id), evs[n];
      LastNewIsLatest(c, evs[..n], id);
      BlocksAreIndependent(c, evs[..n], id);
      if e.Add? && e.id == id {
        LatestNewAppend(c, before, e.a);
      } else {
        assert before + [] == before;
      }
    }
  }

  /** How a block stands after a run, in terms of the packets it took: closed by a flush or with all slots
      handed out it is done; otherwise it holds the first packet of each slot, and has handed out a prefix. */
  lemma BlockStands(c: Code, evs: seq<Event>, id: nat)
    requires c.Valid()
    ensures var (d, log) := Run(c, evs); var b := BlockOf(c, d, id);
      && b.lastActivity == LastNew(c, evs, id)
      && (b.done <==> !OpenIn(c, log, id))
      && (!b.done ==> Shelved(c, b, OpenArrivals(c, evs, id)) && b.delivered == |OutsOf(log, id)|)
  {
    hide Run, Unflushed, OutsOf, BlockRun, LatestNew, StuckFrom, Shelved, Clean, OpenArrivals, LastNew;
    BlocksAreIndependent(c, evs, id);
    BlockRunIs(c, OpenArrivals(c, evs, id));
    LastNewIsLatest(c, evs, id);
  }

  /** Main theorem. In every run a block's lastActivity is the time of the last packet, since the block was
      last deleted, that brought it a new symbol in range while it was open; a repetition, a packet out of
      range or one for a finished block leaves it. */
  lemma LastActivityIs(c: Code, evs: seq<Event>, id: nat)
    requires c.Valid()
    ensures var d := Run(c, evs).0; id in d.blocks ==> d.blocks[id].lastActivity == LastNew(c, evs, id)
  {
    hide Run, LastNew, OpenIn, Shelved;
    BlockStands(c, evs, id);
  }

  // ---------- flushes ----------

  /** A flush on a decoder, by the fields of the block: it closes exactly an unfinished block whose last
      activity is maxAge or longer ago and that holds a frame past the delivery position. */
  lemma FlushIsExact(c: Code, d: Dec, maxAge: int, now: nat, id: nat)
    requires c.Valid() && DecValid(c, d) && id in d.blocks
    ensures var (d', es) := FlushStep(c, d, maxAge, now); var b := d.blocks[id];
      var closes := !b.done && b.lastActivity.Some? && now - b.lastActivity.value >= maxAge &&
        exists i :: b.delivered <= i < c.k && b.data[i].Some?;
      && id in d'.blocks
      && (Flushed(id) in es <==> closes)
      && d'.blocks[id] == (if closes then b.(done := true, delivered := c.k) else b)
      && forall slot: nat, f: Frame :: Out(id, slot, f) in es <==>
           closes && b.delivered <= slot < c.k && b.data[slot] == Some(f)
  {
    hide FlushStep;
    FlushLogOf(c, d, maxAge, now, id);
    FlushedFrames(c, d, maxAge, now);
    FlushableIs(c, d.blocks[id], maxAge, now);
  }

  lemma FlushableIs(c: Code, b: Block, maxAge: int, now: nat)
    requires WellFormed(c, b)
    ensures Flushable(c, b, maxAge, now) <==>
      !b.done && b.lastActivity.Some? && now - b.lastActivity.value >= maxAge &&
      exists i :: b.delivered <= i < c.k && b.data[i].Some?
  {
  }

  /** The packets that came for a slot not handed out yet, and did not get out. */
  ghost predicate StuckAt(c: Code, evs: seq<Event>, id: nat, slot: nat)
    requires c.Valid()
  {
    |OutsOf(Run(c, evs).1, id)| <= slot < c.k && FirstFor(OpenArrivals(c, evs, id), false, slot).Some?
  }

  /** Main theorem. A flush after any run, in terms of the packets: it closes exactly the open blocks whose
      last new packet came maxAge or longer ago and that have a frame behind a gap; of those it hands out the
      first packet of every such slot; and every other block stays as it was. */
  lemma FlushedIff(c: Code, evs: seq<Event>, maxAge: int, now: nat, id: nat)
    requires c.Valid()
    ensures var (d, log) := Run(c, evs); var (d', es) := Step(c, d, Flush(maxAge, now)); var t := LastNew(c, evs, id);
      && (Flushed(id) in es <==>
            && OpenIn(c, log, id) && t.Some? && now - t.value >= maxAge
            && exists slot :: StuckAt(c, evs, id, slot))
      && (forall slot: nat, f: Frame :: Out(id, slot, f) in es <==>
            && Flushed(id) in es && StuckAt(c, evs, id, slot)
            && FirstFor(OpenArrivals(c, evs, id), false, slot) == Some(f))
      && (Flushed(id) !in es ==> BlockOf(c, d', id) == BlockOf(c, d, id))
  {
    hide Run, LastNew, OpenArrivals, OutsOf, FlushStep, OpenIn, FirstFor, WellFormed, DecValid;
    var d := Run(c, evs).0;
    BlockStands(c, evs, id);
    if id in d.blocks {
      FlushIsExact(c, d, maxAge, now, id);
      if !d.blocks[id].done {
        StuckIs(c, evs, d.blocks[id], id);
      }
    } else {
      AbsentIsNotFlushed(c, d, maxAge, now, id);
      assert LastNew(c, evs, id).None?;
    }
  }

  lemma StuckIs(c: Code, evs: seq<Event>, b: Block, id: nat)
    requires c.Valid() && Shelved(c, b, OpenArrivals(c, evs, id)) && b.delivered == |OutsOf(Run(c, evs).1, id)|
    ensures |b.data| == c.k
    ensures forall slot: nat :: StuckAt(c, evs, id, slot) <==> b.delivered <= slot < c.k && b.data[slot].Some?
    ensures forall slot: nat :: StuckAt(c, evs, id, slot) ==>
      b.data[slot] == FirstFor(OpenArrivals(c, evs, id), false, slot)
  {
    hide Run, OpenArrivals, OutsOf, FirstFor;
  }

  lemma AbsentIsNotFlushed(c: Code, d: Dec, maxAge: int, now: nat, id: nat)
    requires c.Valid() && DecValid(c, d) && id !in d.blocks
    ensures var (d', es) := FlushStep(c, d, maxAge, now);
      && Flushed(id) !in es && id !in d'.blocks && forall slot: nat, f: Frame :: Out(id, slot, f) !in es
    ensures BlockOf(c, d, id).lastActivity.None?
  {
    hide FlushStep;
    FlushLogOf(c, d, maxAge, now, id);
    FlushedFrames(c, d, maxAge, now);
  }

  /** A block that is stuck but took a new packet less than maxAge ago stays open, with all it holds. */
  lemma StuckButFreshStaysOpen(c: Code, evs: seq<Event>, maxAge: int, now: nat, id: nat)
    requires c.Valid() && LastNew(c, evs, id).Some? && now - LastNew(c, evs, id).value < maxAge
    ensures var (d, _) := Run(c, evs); var (d', es) := Step(c, d, Flush(maxAge, now));
      BlockOf(c, d', id) == BlockOf(c, d, id) && Flushed(id) !in es && forall slot: nat, f :: Out(id, slot, f) !in es
  {
    hide Run, LastNew, Step, OpenIn, StuckAt, OpenArrivals;
    FlushedIff(c, evs, maxAge, now, id);
  }

  /** And so does one that has been quiet for long but has no frame behind a gap. */
  lemma QuietWithoutGapStaysOpen(c: Code, evs: seq<Event>, maxAge: int, now: nat, id: nat)
    requires c.Valid() && forall slot :: !StuckAt(c, evs, id, slot)
    ensures var (d, _) := Run(c, evs); var (d', es) := Step(c, d, Flush(maxAge, now));
      BlockOf(c, d', id) == BlockOf(c, d, id) && Flushed(id) !in es && forall slot: nat, f :: Out(id, slot, f) !in es
  {
    hide Run, LastNew, Step, OpenIn, StuckAt, OpenArrivals;
    FlushedIff(c, evs, maxAge, now, id);
  }

  // ---------- expiry ----------

  /** The highest block id of a run. */
  function HighestId(evs: seq<Event>): nat
  {
    if evs == [] then 0
    else
      var h, e := HighestId(evs[..|evs| - 1]), evs[|evs| - 1];
      if e.Add? && e.id > h then e.id else h
  }

  /** A packet of the block has come since it was last deleted. */
  ghost predicate Alive(c: Code, evs: seq<Event>, id: nat)
    requires c.Valid()
  {
    evs != [] && !FreedBy(c, evs, id) &&
    ((evs[|evs| - 1].Add? && evs[|evs| - 1].id == id) || Alive(c, evs[..|evs| - 1], id))
  }

  /** No new packet of the block has come for two seconds. */
  ghost predicate QuietAt(c: Code, evs: seq<Event>, id: nat, now: nat)
    requires c.Valid()
  {
    LastNew(c, evs, id).None? || now - LastNew(c, evs, id).value > 2_000_000_000
  }

  /** Where a scan from q on ends: at the first live block that is not quiet, or eight behind the newest. */
  ghost function ScanEnd(c: Code, evs: seq<Event>, q: nat, newest: nat, now: nat): (e: nat)
    requires c.Valid()
    ensures q <= e
    decreases newest - 8 - q
  {
    if q + 8 >= newest || (Alive(c, evs, q) && !QuietAt(c, evs, q, now)) then q
    else ScanEnd(c, evs, q + 1, newest, now)
  }

  /** How far the scans of a run have got: each new highest id moves on from where the last one ended. */
  ghost function ScannedTo(c: Code, evs: seq<Event>): nat
    requires c.Valid()
  {
    if evs == [] then 0
    else
      var before, e := evs[..|evs| - 1], evs[|evs| - 1];
      if e.Add? && e.id > HighestId(before) then ScanEnd(c, before, ScannedTo(c, before), e.id, e.a.now)
      else ScannedTo(c, before)
  }

  /** A scan on the decoder is the scan over the packets. */
  lemma {:induction false} ScanIs(c: Code, evs: seq<Event>, d: Dec, newest: nat, now: nat)
    requires c.Valid() && 8 <= newest
    requires forall y :: y in d.blocks ==>
      (Alive(c, evs, y) && (Expirable(d.blocks[y], now) <==> QuietAt(c, evs, y, now)))
    requires forall y: nat :: d.minBlockID <= y && Alive(c, evs, y) ==> y in d.blocks
    ensures var (d', freed) := Scan(d, newest - 8, now);
      d'.minBlockID == ScanEnd(c, evs, d.minBlockID, newest, now)
    decreases newest - 8 - d.minBlockID
  {
    hide Alive, QuietAt, Expirable;
    var m := d.minBlockID;
    if m + 8 < newest {
      if m !in d.blocks {
        ScanIs(c, evs, d.(minBlockID := m + 1), newest, now);
      } else if Expirable(d.blocks[m], now) {
        ScanIs(c, evs, Dec(d.blocks - {m}, d.maxSeen, m + 1), newest, now);
      }
    }
  }

  /** The decoder's ids and pointers in terms of the events. */
  ghost predicate PointersAre(c: Code, evs: seq<Event>)
    requires c.Valid()
  {
    var d := Run(c, evs).0;
    && d.maxSeen == HighestId(evs) && d.minBlockID == ScannedTo(c, evs)
    && forall id: nat :: id in d.blocks <==> Alive(c, evs, id)
  }

  lemma ExpirableIs(c: Code, evs: seq<Event>, now: nat, y: nat)
    requires c.Valid() && y in Run(c, evs).0.blocks
    ensures Expirable(Run(c, evs).0.blocks[y], now) <==> QuietAt(c, evs, y, now)
  {
    hide Run, LastNew;
    LastActivityIs(c, evs, y);
  }

  /** The scan that opens an arrival. */
  lemma OpenedIs(c: Code, evs: seq<Event>, id: nat, now: nat)
    requires c.Valid() && PointersAre(c, evs)
    ensures var d1 := Opened(Run(c, evs).0, id, now).0;
      && d1.maxSeen == (if id > HighestId(evs) then id else HighestId(evs))
      && d1.minBlockID ==
           if id > HighestId(evs) then ScanEnd(c, evs, ScannedTo(c, evs), id, now) else ScannedTo(c, evs)
  {
    hide Run, Alive, QuietAt, Expirable, HighestId, ScannedTo, Scan;
    var d := Run(c, evs).0;
    OpenedDeletes(d, id, now);
    if id > d.maxSeen && id >= 8 {
      forall y | y in d.blocks
        ensures Expirable(d.blocks[y], now) <==> QuietAt(c, evs, y, now)
      {
        ExpirableIs(c, evs, now, y);
      }
      ScanIs(c, evs, d.(maxSeen := id), id, now);
    }
  }

  lemma AddKeys(c: Code, d: Dec, id: nat, a: Arrival)
    requires c.Valid() && DecValid(c, d)
    ensures var (d1, freed) := Opened(d, id, a.now); var (d', es, _) := AddStep(c, d, id, a);
      && d'.maxSeen == d1.maxSeen && d'.minBlockID == d1.minBlockID
      && (forall x :: Freed(x) in es <==> x in freed)
      && (forall x :: x in d'.blocks <==> x == id || (x in d.blocks && x !in freed))
  {
    hide BlockAdd, Opened, WellFormed, Clean;
    OpenedDeletes(d, id, a.now);
    AddEntries(c, d, id, a);
    var freed, es := Opened(d, id, a.now).1, AddStep(c, d, id, a).1;
    forall x: nat
      ensures Freed(x) in es <==> x in freed
    {
      FreedInFreeds(freed, x);
    }
  }

  lemma FreedInFreeds(ids: seq<nat>, x: nat)
    ensures Freed(x) in Freeds(ids) <==> x in ids
  {
    if x in ids {
      var i :| 0 <= i < |ids| && ids[i] == x;
      assert Freeds(ids)[i] == Freed(x);
    }
  }

  lemma PointersStep(c: Code, evs: seq<Event>, e: Event)
    requires c.Valid() && PointersAre(c, evs)
    ensures PointersAre(c, evs + [e])
  {
    hide Run, AddStep, FlushStep, ScanEnd, Opened, DecValid, Unflushed;
    var all := evs + [e];
    assert all[..|evs|] == evs;
    RunAppend(c, evs, e);
    var d := Run(c, evs).0;
    match e
    case Add(id, a) =>
      OpenedIs(c, evs, id, a.now);
      OpenedDeletes(d, id, a.now);
      AddKeys(c, d, id, a);
      assert id !in Opened(d, id, a.now).1;
    case Flush(maxAge, now) =>
      FlushKeys(c, d, maxAge, now);
  }

  lemma FlushKeys(c: Code, d: Dec, maxAge: int, now: nat)
    ensures var (d', es) := FlushStep(c, d, maxAge, now);
      && d'.maxSeen == d.maxSeen && d'.minBlockID == d.minBlockID
      && forall id: nat :: Freed(id) !in es && (id in d'.blocks <==> id in d.blocks)
  {
    forall id: nat
      ensures var (d', es) := FlushStep(c, d, maxAge, now); Freed(id) !in es && (id in d'.blocks <==> id in d.blocks)
    {
      FlushLogOf(c, d, maxAge, now, id);
    }
  }

  lemma NoPointers(c: Code)
    requires c.Valid()
    ensures PointersAre(c, [])
  {
  }

  lemma {:induction false} PointersOf(c: Code, evs: seq<Event>)
    requires c.Valid()
    ensures PointersAre(c, evs)
  {
    hide PointersAre;
    if evs == [] {
      NoPointers(c);
    } else {
      var n := |evs| - 1;
      PointersOf(c, evs[..n]);
      assert evs == evs[..n] + [evs[n]];
      PointersStep(c, evs[..n], evs[n]);
    }
  }

  /** Main theorem. Expiry after any run, in terms of the packets alone: an arrival deletes a block exactly
      when it brings a new highest id and the scan, which goes on from where the last one ended up to eight
      behind the new id or to the first live block with a new packet in the last two seconds, passes it. */
  lemma ExpiredIff(c: Code, evs: seq<Event>, id: nat, a: Arrival, x: nat)
    requires c.Valid()
    ensures var d := Run(c, evs).0;
      Freed(x) in Step(c, d, Add(id, a)).1 <==>
        && id > HighestId(evs) && Alive(c, evs, x)
        && ScannedTo(c, evs) <= x < ScanEnd(c, evs, ScannedTo(c, evs), id, a.now)
  {
    hide Run, AddStep, Opened, Alive, ScanEnd, HighestId, ScannedTo;
    var d := Run(c, evs).0;
    PointersOf(c, evs);
    OpenedIs(c, evs, id, a.now);
    OpenedDeletes(d, id, a.now);
    AddKeys(c, d, id, a);
  }

  lemma {:induction false} ScanEndIs(c: Code, evs: seq<Event>, q: nat, newest: nat, now: nat, x: nat)
    requires c.Valid() && q <= x
    ensures x < ScanEnd(c, evs, q, newest, now) <==>
      x + 8 < newest && forall y: nat :: q <= y <= x && Alive(c, evs, y) ==> QuietAt(c, evs, y, now)
    decreases newest - 8 - q
  {
    hide Alive, QuietAt;
    if !(q + 8 >= newest || (Alive(c, evs, q) && !QuietAt(c, evs, q, now))) && q < x {
      ScanEndIs(c, evs, q + 1, newest, now, x);
    }
  }

  /** So a block the scan has not passed is deleted by the next new highest id exactly when it is more than
      eight behind it and no live block from the scan position up to it has had a new packet for two seconds. */
  lemma NextHighestExpires(c: Code, evs: seq<Event>, id: nat, a: Arrival, x: nat)
    requires c.Valid() && id > HighestId(evs) && Alive(c, evs, x) && ScannedTo(c, evs) <= x
    ensures Freed(x) in Step(c, Run(c, evs).0, Add(id, a)).1 <==>
      x + 8 < id && forall y: nat :: ScannedTo(c, evs) <= y <= x && Alive(c, evs, y) ==> QuietAt(c, evs, y, a.now)
  {
    hide Run, Step, Alive, ScanEnd, HighestId, ScannedTo, QuietAt;
    ExpiredIff(c, evs, id, a, x);
    ScanEndIs(c, evs, ScannedTo(c, evs), id, a.now, x);
  }

  /** Expiry is safe: after any run an arrival does not delete a block within eight of the newest id, nor one
      to which a new packet came in the last two seconds. */
  lemma ExpiryIsSafe(c: Code, evs: seq<Event>, id: nat, a: Arrival, x: nat)
    requires c.Valid() && (x + 8 >= id || !QuietAt(c, evs, x, a.now))
    ensures Freed(x) !in Step(c, Run(c, evs).0, Add(id, a)).1
  {
    hide Run, Step, Alive, ScanEnd, HighestId, ScannedTo, QuietAt;
    ExpiredIff(c, evs, id, a, x);
    if ScannedTo(c, evs) <= x {
      ScanEndIs(c, evs, ScannedTo(c, evs), id, a.now, x);
    }
  }
}
