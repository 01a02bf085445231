/** The FEC decoder on values: what one arrival, one expiry scan and one flush do to the decoder's
    state and to the stream it releases. The classes of module FecDecoder are proved against it. */
module FecSpec {
  import opened Bytes
  import opened Erasure

  const MAX_OLD_BLOCKS := 8
  const BLOCK_KEEP_AGE := 2_000_000_000 // nanoseconds

  // ---------- one block ----------

  /** decBlock; lastActivity is None for the zero time. */
  datatype Block = Block(
    data: seq<Option<Frame>>,
    repair: seq<Option<Frame>>,
    present: seq<bool>,
    count: nat,
    delivered: nat,
    done: bool,
    lastActivity: Option<nat>)

  function Clean(c: Code): Block
  {
    Block(seq(c.k, i => None), seq(c.r, i => None), seq(c.k + c.r, i => false), 0, 0, false, None)
  }

  /** What every operation keeps of a block. */
  ghost predicate WellFormed(c: Code, b: Block)
  {
    && |b.data| == c.k && |b.repair| == c.r && |b.present| == c.k + c.r
    && (forall i :: 0 <= i < c.k ==> (b.present[i] <==> b.data[i].Some?))
    && (forall i :: 0 <= i < c.r ==> (b.present[c.k + i] <==> b.repair[i].Some?))
    && b.delivered <= c.k
    && (b.done <==> b.delivered == c.k)
    && (!b.done ==> forall i :: 0 <= i < b.delivered ==> b.present[i])
  }

  lemma WellFormedSizes(c: Code, b: Block)
    requires WellFormed(c, b)
    ensures |b.data| == c.k && |b.repair| == c.r && |b.present| == c.k + c.r && b.delivered <= c.k
  {
  }

  /** A frame handed to the caller, tagged with its index in the block. */
  datatype Release = Release(slot: nat, frame: Frame)

  datatype Outcome = Released(out: seq<Release>) | Unrecoverable

  /** One packet as the decoder receives it. */
  datatype Arrival = Arrival(idx: int, isRepair: bool, pkt: Frame, now: nat)

  /** The first absent slot from i on, or k. */
  function PrefixEnd(present: seq<bool>, i: nat, k: nat): (e: nat)
    requires i <= k <= |present|
    ensures i <= e <= k
    ensures forall j :: i <= j < e ==> present[j]
    ensures e < k ==> !present[e]
    decreases k - i
  {
    if i < k && present[i] then PrefixEnd(present, i + 1, k) else i
  }

  function Missing(c: Code, b: Block): int
    requires |b.present| == c.k + c.r && b.delivered <= c.k
  {
    c.k - b.delivered - CountTrue(b.present[b.delivered..c.k])
  }

  function Repairs(c: Code, b: Block): nat
    requires |b.present| == c.k + c.r
  {
    CountTrue(b.present[c.k..])
  }

  /** The block with its absent slots taken from the rebuilt data. */
  function Filled(c: Code, b: Block, rebuilt: seq<Frame>): Block
    requires |b.data| == c.k && |b.present| == c.k + c.r && |rebuilt| == c.k
  {
    b.(data := seq(c.k, i requires 0 <= i < c.k => if b.present[i] then b.data[i] else Some(rebuilt[i])),
       present := seq(c.k + c.r, i requires 0 <= i < c.k + c.r => i < c.k || b.present[i]))
  }

  /** Hand out everything up to the first gap. */
  function Delivered(c: Code, b: Block): (Block, seq<Release>)
    requires WellFormed(c, b)
  {
    var e := PrefixEnd(b.present, b.delivered, c.k);
    (b.(delivered := e, done := b.done || e == c.k),
     seq(e - b.delivered, i requires 0 <= i < e - b.delivered =>
       Release(b.delivered + i, b.data[b.delivered + i].value)))
  }

  ghost predicate CanRebuild(c: Code, b: Block)
    requires WellFormed(c, b)
  {
    0 < Missing(c, b) <= Repairs(c, b)
  }

  lemma RepairThere(c: Code, b: Block)
    requires WellFormed(c, b) && Repairs(c, b) > 0
    ensures exists j :: 0 <= j < c.r && b.repair[j].Some?
    ensures c.r == 1 ==> b.repair[0].Some?
  {
    SomeTrue(b.present[c.k..]);
    var j :| 0 <= j < |b.present[c.k..]| && b.present[c.k..][j];
    assert b.present[c.k + j];
    assert b.repair[j].Some?;
  }

  lemma FilledKeepsWellFormed(c: Code, b: Block, rebuilt: seq<Frame>)
    requires WellFormed(c, b) && |rebuilt| == c.k
    ensures WellFormed(c, Filled(c, b, rebuilt))
  {
  }

  ghost function TryRecover(c: Code, b: Block): (Block, Outcome)
    requires WellFormed(c, b) && Shaped(c.rs, c.k)
  {
    if CanRebuild(c, b) then
      RepairThere(c, b);
      match Rebuild(c, b.data, b.repair)
      case None => (b, Unrecoverable)
      case Some(rebuilt) =>
        FilledKeepsWellFormed(c, b, rebuilt);
        var (b', out) := Delivered(c, Filled(c, b, rebuilt));
        (b', Released(out))
    else
      var (b', out) := Delivered(c, b);
      (b', Released(out))
  }

  /** Whether an arrival is recorded: its index is in range and its slot is free. */
  predicate Recordable(c: Code, b: Block, a: Arrival)
    requires |b.present| == c.k + c.r
  {
    if a.isRepair then 0 <= a.idx < c.r && !b.present[c.k + a.idx]
    else 0 <= a.idx < c.k && !b.present[a.idx]
  }

  function Record(c: Code, b: Block, a: Arrival): Block
    requires |b.data| == c.k && |b.repair| == c.r && |b.present| == c.k + c.r
    requires Recordable(c, b, a)
  {
    if a.isRepair then
      b.(repair := b.repair[a.idx := Some(a.pkt)], present := b.present[c.k + a.idx := true],
         count := b.count + 1, lastActivity := Some(a.now))
    else
      b.(data := b.data[a.idx := Some(a.pkt)], present := b.present[a.idx := true],
         count := b.count + 1, lastActivity := Some(a.now))
  }

  lemma RecordKeepsWellFormed(c: Code, b: Block, a: Arrival)
    requires WellFormed(c, b) && !b.done && Recordable(c, b, a)
    ensures WellFormed(c, Record(c, b, a))
  {
  }

  /** The part of Decoder.add that follows the block lookup. */
  ghost function BlockAdd(c: Code, b: Block, a: Arrival): (Block, Outcome)
    requires WellFormed(c, b) && Shaped(c.rs, c.k)
  {
    if b.done || !Recordable(c, b, a) then (b, Released([]))
    else
      RecordKeepsWellFormed(c, b, a);
      TryRecover(c, Record(c, b, a))
  }

  // ---------- the decoder ----------

  datatype Dec = Dec(blocks: map<nat, Block>, maxSeen: nat, minBlockID: nat)

  const EMPTY_DEC := Dec(map[], 0, 0)

  ghost predicate DecValid(c: Code, d: Dec)
  {
    Shaped(c.rs, c.k) && forall id :: id in d.blocks ==> WellFormed(c, d.blocks[id])
  }

  predicate Expirable(b: Block, now: nat)
  {
    b.lastActivity.None? || now - b.lastActivity.value > BLOCK_KEEP_AGE
  }

  /** The scan of expire up to a threshold, with the ids it deletes in order. */
  function Scan(d: Dec, threshold: nat, now: nat): (Dec, seq<nat>)
    decreases threshold - d.minBlockID
  {
    if d.minBlockID >= threshold then (d, [])
    else if d.minBlockID !in d.blocks then Scan(d.(minBlockID := d.minBlockID + 1), threshold, now)
    else if Expirable(d.blocks[d.minBlockID], now) then
      var (d', freed) := Scan(Dec(d.blocks - {d.minBlockID}, d.maxSeen, d.minBlockID + 1), threshold, now);
      (d', [d.minBlockID] + freed)
    else (d, [])
  }

  function Expire(d: Dec, now: nat): (Dec, seq<nat>)
  {
    if d.maxSeen < MAX_OLD_BLOCKS then (d, []) else Scan(d, d.maxSeen - MAX_OLD_BLOCKS, now)
  }

  /** The loop iterations Expire spends. */
  function ScanCost(d: Dec, threshold: nat, now: nat): nat
    decreases threshold - d.minBlockID
  {
    if d.minBlockID >= threshold then 0
    else if d.minBlockID !in d.blocks then 1 + ScanCost(d.(minBlockID := d.minBlockID + 1), threshold, now)
    else if Expirable(d.blocks[d.minBlockID], now) then
      1 + ScanCost(Dec(d.blocks - {d.minBlockID}, d.maxSeen, d.minBlockID + 1), threshold, now)
    else 1
  }

  /** What a run leaves in the log: a frame handed out, a block closed by a flush, a block deleted. */
  datatype Entry = Out(id: nat, slot: nat, frame: Frame) | Flushed(id: nat) | Freed(id: nat)

  function Outs(id: nat, rs: seq<Release>): seq<Entry>
  {
    seq(|rs|, i requires 0 <= i < |rs| => Out(id, rs[i].slot, rs[i].frame))
  }

  function Freeds(ids: seq<nat>): seq<Entry>
  {
    seq(|ids|, i requires 0 <= i < |ids| => Freed(ids[i]))
  }

  function BlockOf(c: Code, d: Dec, id: nat): Block
  {
    if id in d.blocks then d.blocks[id] else Clean(c)
  }

  /** The decoder after the expiry scan that opens Decoder.add. */
  function Opened(d: Dec, id: nat, now: nat): (Dec, seq<nat>)
  {
    if id > d.maxSeen then Expire(d.(maxSeen := id), now) else (d, [])
  }

  lemma CleanIsWellFormed(c: Code)
    requires 1 <= c.k
    ensures WellFormed(c, Clean(c))
  {
  }

  lemma {:induction false} ScanKeepsValid(c: Code, d: Dec, threshold: nat, now: nat)
    requires DecValid(c, d)
    ensures DecValid(c, Scan(d, threshold, now).0)
    ensures Scan(d, threshold, now).0.maxSeen == d.maxSeen
    decreases threshold - d.minBlockID
  {
    if d.minBlockID < threshold {
      if d.minBlockID !in d.blocks {
        ScanKeepsValid(c, d.(minBlockID := d.minBlockID + 1), threshold, now);
      } else if Expirable(d.blocks[d.minBlockID], now) {
        ScanKeepsValid(c, Dec(d.blocks - {d.minBlockID}, d.maxSeen, d.minBlockID + 1), threshold, now);
      }
    }
  }

  lemma OpenedKeepsValid(c: Code, d: Dec, id: nat, now: nat)
    requires DecValid(c, d)
    ensures DecValid(c, Opened(d, id, now).0)
    ensures Opened(d, id, now).0.maxSeen == if id > d.maxSeen then id else d.maxSeen
  {
    if id > d.maxSeen >= 0 && id >= MAX_OLD_BLOCKS {
      ScanKeepsValid(c, d.(maxSeen := id), id - MAX_OLD_BLOCKS, now);
    }
  }

  /** Decoder.add: the new state, the log entries and what the caller gets. */
  ghost function AddStep(c: Code, d: Dec, id: nat, a: Arrival): (Dec, seq<Entry>, Outcome)
    requires c.Valid() && DecValid(c, d)
  {
    var (d1, freed) := Opened(d, id, a.now);
    OpenedKeepsValid(c, d, id, a.now);
    CleanIsWellFormed(c);
    var (b, o) := BlockAdd(c, BlockOf(c, d1, id), a);
    (d1.(blocks := d1.blocks[id := b]),
     Freeds(freed) + (if o.Released? then Outs(id, o.out) else []),
     o)
  }

  /** FlushStale closes a block that has been quiet for maxAge and holds frames behind a gap. */
  predicate Flushable(c: Code, b: Block, maxAge: int, now: nat)
  {
    && !b.done && b.lastActivity.Some? && now - b.lastActivity.value >= maxAge
    && exists i :: b.delivered <= i < c.k && i < |b.present| && b.present[i]
  }

  /** The received, unreleased slots from i on, in order. */
  function StuckFrom(b: Block, i: nat): (rs: seq<Release>)
    decreases |b.data| - i
  {
    if i >= |b.data| then []
    else (if b.data[i].Some? then [Release(i, b.data[i].value)] else []) + StuckFrom(b, i + 1)
  }

  /** What a flush of one block, if it is due, adds to the log. */
  function FlushOne(c: Code, b: Block, id: nat, maxAge: int, now: nat): seq<Entry>
  {
    if Flushable(c, b, maxAge, now) then Outs(id, StuckFrom(b, b.delivered)) + [Flushed(id)] else []
  }

  function Closed(c: Code, b: Block): Block
  {
    b.(delivered := c.k, done := true)
  }

  ghost function MaxOf(s: set<nat>): (m: nat)
    requires s != {}
    ensures m in s && forall x :: x in s ==> x <= m
  {
    var x :| x in s;
    if s == {x} then x
    else
      var y := MaxOf(s - {x});
      assert forall z :: z in s ==> z == x || z in s - {x};
      if x > y then x else y
  }

  predicate Rising(ids: seq<nat>)
  {
    forall i, j :: 0 <= i < j < |ids| ==> ids[i] < ids[j]
  }

  lemma RisingSplit(ids: seq<nat>)
    requires Rising(ids) && ids != []
    ensures var n := |ids| - 1;
      && ids == ids[..n] + [ids[n]] && Rising(ids[..n])
      && (forall id :: id in ids[..n] <==> id in ids && id != ids[n])
      && (forall id :: id in ids[..n] ==> id < ids[n])
  {
    var n := |ids| - 1;
    assert ids == ids[..n] + [ids[n]];
  }

  lemma RisingAppend(s: set<nat>, m: nat, rest: seq<nat>)
    requires m in s && (forall x :: x in s ==> x <= m)
    requires Rising(rest) && forall x :: x in rest <==> x in s && x != m
    ensures Rising(rest + [m]) && forall x :: x in rest + [m] <==> x in s
  {
    assert forall i :: 0 <= i < |rest| ==> rest[i] in rest;
  }

  /** The elements of a set in ascending order. */
  ghost function Ascending(s: set<nat>): (q: seq<nat>)
    ensures forall x :: x in q <==> x in s
    ensures Rising(q)
  {
    if s == {} then []
    else
      var m := MaxOf(s);
      var rest := Ascending(s - {m});
      RisingAppend(s, m, rest);
      rest + [m]
  }

  /** What a flush hands out, block by block in the order of ids. */
  function FlushEntries(c: Code, blocks: map<nat, Block>, ids: seq<nat>, maxAge: int, now: nat): seq<Entry>
    requires forall id :: id in ids ==> id in blocks
  {
    if ids == [] then []
    else
      var id := ids[|ids| - 1];
      FlushEntries(c, blocks, ids[..|ids| - 1], maxAge, now) + FlushOne(c, blocks[id], id, maxAge, now)
  }

  /** The block map after the flush loop has looked at some ids. */
  function FlushedUpTo(c: Code, blocks: map<nat, Block>, ids: set<nat>, maxAge: int, now: nat): map<nat, Block>
  {
    map id | id in blocks ::
      if id in ids && Flushable(c, blocks[id], maxAge, now) then Closed(c, blocks[id]) else blocks[id]
  }

  /** FlushStale. */
  ghost function FlushStep(c: Code, d: Dec, maxAge: int, now: nat): (Dec, seq<Entry>)
  {
    (d.(blocks := FlushedUpTo(c, d.blocks, d.blocks.Keys, maxAge, now)),
     FlushEntries(c, d.blocks, Ascending(d.blocks.Keys), maxAge, now))
  }

  // ---------- runs ----------

  datatype Event = Add(id: nat, a: Arrival) | Flush(maxAge: int, now: nat)

  ghost function Step(c: Code, d: Dec, e: Event): (Dec, seq<Entry>)
    requires c.Valid() && DecValid(c, d)
  {
    match e
    case Add(id, a) => var (d', es, _) := AddStep(c, d, id, a); (d', es)
    case Flush(maxAge, now) => FlushStep(c, d, maxAge, now)
  }

  lemma DeliveredKeepsWellFormed(c: Code, b: Block)
    requires WellFormed(c, b)
    ensures WellFormed(c, Delivered(c, b).0)
  {
  }

  lemma TryRecoverKeepsWellFormed(c: Code, b: Block)
    requires WellFormed(c, b) && Shaped(c.rs, c.k)
    ensures WellFormed(c, TryRecover(c, b).0)
  {
    if CanRebuild(c, b) {
      RepairThere(c, b);
      var rebuilt := Rebuild(c, b.data, b.repair);
      if rebuilt.Some? {
        FilledKeepsWellFormed(c, b, rebuilt.value);
        DeliveredKeepsWellFormed(c, Filled(c, b, rebuilt.value));
      }
    } else {
      DeliveredKeepsWellFormed(c, b);
    }
  }

  lemma BlockAddKeepsWellFormed(c: Code, b: Block, a: Arrival)
    requires WellFormed(c, b) && Shaped(c.rs, c.k)
    ensures WellFormed(c, BlockAdd(c, b, a).0)
  {
    if !b.done && Recordable(c, b, a) {
      RecordKeepsWellFormed(c, b, a);
      TryRecoverKeepsWellFormed(c, Record(c, b, a));
    }
  }

  lemma AddStepKeepsValid(c: Code, d: Dec, id: nat, a: Arrival)
    requires c.Valid() && DecValid(c, d)
    ensures DecValid(c, AddStep(c, d, id, a).0)
  {
    var d1 := Opened(d, id, a.now).0;
    OpenedKeepsValid(c, d, id, a.now);
    CleanIsWellFormed(c);
    var b := BlockOf(c, d1, id);
    BlockAddKeepsWellFormed(c, b, a);
  }

  lemma ClosedKeepsWellFormed(c: Code, b: Block)
    requires WellFormed(c, b)
    ensures WellFormed(c, Closed(c, b))
  {
  }

  lemma FlushStepKeepsValid(c: Code, d: Dec, maxAge: int, now: nat)
    requires DecValid(c, d)
    ensures DecValid(c, FlushStep(c, d, maxAge, now).0)
  {
    hide WellFormed, Flushable, FlushEntries, Closed;
    forall id | id in d.blocks
      ensures WellFormed(c, Closed(c, d.blocks[id]))
    {
      ClosedKeepsWellFormed(c, d.blocks[id]);
    }
  }

  lemma StepKeepsValid(c: Code, d: Dec, e: Event)
    requires c.Valid() && DecValid(c, d)
    ensures DecValid(c, Step(c, d, e).0)
  {
    match e
    case Add(id, a) => AddStepKeepsValid(c, d, id, a);
    case Flush(maxAge, now) => FlushStepKeepsValid(c, d, maxAge, now);
  }

  /** The state and the log after a sequence of events on a new decoder. */
  ghost function Run(c: Code, evs: seq<Event>): (res: (Dec, seq<Entry>))
    requires c.Valid()
    ensures DecValid(c, res.0)
  {
    if evs == [] then (EMPTY_DEC, [])
    else
      var (d, log) := Run(c, evs[..|evs| - 1]);
      StepKeepsValid(c, d, evs[|evs| - 1]);
      var (d', es) := Step(c, d, evs[|evs| - 1]);
      (d', log + es)
  }
}
