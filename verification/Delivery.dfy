/** Delivery under orderMu: receive loops, fragment handlers and the flush goroutine as threads whose
    steps (lock, decode, hand over one frame, unlock) interleave in any order. */
module Delivery {
  import opened Bytes
  import opened Erasure
  import opened FecSpec
  import opened FecRuns
  import opened FecLifetimes
  import FecEndToEnd
  import FecExamples
  import Blocking

  const MIN_FRAME := 14

  /** What a thread does under the lock: feed or flush the decoder, or forward the frame reassembled under a
      fragment id. */
  datatype Work = Decode(e: Event) | Forward(id: nat, frame: Frame)

  /** What that leaves in the order of the lock. */
  datatype Item = Logged(entry: Entry) | Whole(id: nat, frame: Frame)

  /** Frames too short for an Ethernet header are passed over. */
  predicate Deliverable(i: Item)
  {
    match i
    case Logged(Out(_, _, f)) => |f| >= MIN_FRAME
    case Logged(_) => false
    case Whole(_, f) => |f| >= MIN_FRAME
  }

  /** Where a busy thread is: before the done-block check, before the lock, locked, or walking its own
      batch of results. at is history: the place of the batch's next item in the order of decoding. */
  datatype Phase =
    | Received(work: Work)
    | Ready(work: Work)
    | Locked(work: Work)
    | Handing(rest: seq<Item>, at: nat)

  /** ledger, events, picks and lossy are history: all results in the order of decoding, the decoder's
      events, the ledger places of the output, and whether a frame was given up. */
  datatype State = State(
    dec: Dec,
    holder: Option<nat>,
    phases: map<nat, Phase>,
    closing: bool,
    out: seq<Item>,
    ledger: seq<Item>,
    lossy: bool,
    events: seq<Event>,
    picks: seq<nat>)

  const START := State(EMPTY_DEC, None, map[], false, [], [], false, [], [])

  function Items(es: seq<Entry>): (r: seq<Item>)
    ensures |r| == |es|
  {
    seq(|es|, i requires 0 <= i < |es| => Logged(es[i]))
  }

  // ---------- steps ----------

  datatype Move =
    | Receive(t: nat, work: Work)
    | Check(t: nat)
    | Lock(t: nat)
    | Run(t: nat)
    | Hand(t: nat)
    | Unlock(t: nat)
    | Close
    | Skip(t: nat)
    | Abort(t: nat)

  /** Decoder.BlockDone. */
  predicate BlockDone(d: Dec, id: nat)
  {
    id in d.blocks && d.blocks[id].done
  }

  predicate IsRepair(w: Work)
  {
    w.Decode? && w.e.Add? && w.e.a.isRepair
  }

  /** Receive: a packet is decrypted, a frame reassembled or the flush timer fires. Check: a repair of a
      finished block is dropped. Skip and Abort: the session ends while a frame waits to be taken.
      Without locking orderMu is nil, which StartFlush allows. */
  predicate Enabled(locking: bool, st: State, m: Move)
  {
    match m
    case Receive(t, _) => t !in st.phases
    case Check(t) => t in st.phases && st.phases[t].Received?
    case Lock(t) => t in st.phases && st.phases[t].Ready? && (locking ==> st.holder.None?)
    case Run(t) => t in st.phases && st.phases[t].Locked?
    case Hand(t) => t in st.phases && st.phases[t].Handing? && st.phases[t].rest != []
    case Unlock(t) => t in st.phases && st.phases[t].Handing? && st.phases[t].rest == []
    case Close => true
    case Skip(t) => st.closing && t in st.phases && st.phases[t].Handing? && st.phases[t].rest != []
    case Abort(t) => st.closing && t in st.phases && st.phases[t].Handing?
  }

  function CheckMove(st: State, t: nat): State
    requires t in st.phases && st.phases[t].Received?
  {
    var w := st.phases[t].work;
    if IsRepair(w) && BlockDone(st.dec, w.e.id) then st.(phases := st.phases - {t})
    else st.(phases := st.phases[t := Ready(w)])
  }

  /** Decoding, or taking the reassembled frame: the thread gets a batch of its own. */
  ghost function RunMove(c: Code, st: State, t: nat): State
    requires c.Valid() && DecValid(c, st.dec) && t in st.phases && st.phases[t].Locked?
  {
    var at := |st.ledger|;
    match st.phases[t].work
    case Decode(e) =>
      var (d, es) := Step(c, st.dec, e);
      st.(dec := d, ledger := st.ledger + Items(es), events := st.events + [e],
          phases := st.phases[t := Handing(Items(es), at)])
    case Forward(id, f) =>
      st.(ledger := st.ledger + [Whole(id, f)], phases := st.phases[t := Handing([Whole(id, f)], at)])
  }

  function Popped(st: State, t: nat): map<nat, Phase>
    requires t in st.phases && st.phases[t].Handing? && st.phases[t].rest != []
  {
    st.phases[t := Handing(st.phases[t].rest[1..], st.phases[t].at + 1)]
  }

  /** The thread hands over the next item of its batch, or passes it over when it is too short. */
  function HandMove(st: State, t: nat): State
    requires t in st.phases && st.phases[t].Handing? && st.phases[t].rest != []
  {
    var i := st.phases[t].rest[0];
    if Deliverable(i) then st.(out := st.out + [i], picks := st.picks + [st.phases[t].at], phases := Popped(st, t))
    else st.(phases := Popped(st, t))
  }

  function Unlocked(st: State, t: nat): State
  {
    st.(holder := None, phases := st.phases - {t})
  }

  ghost function Next(c: Code, locking: bool, st: State, m: Move): (st': State)
    requires c.Valid() && DecValid(c, st.dec)
    ensures DecValid(c, st'.dec)
  {
    if !Enabled(locking, st, m) then st
    else match m
      case Receive(t, w) => st.(phases := st.phases[t := Received(w)])
      case Check(t) => CheckMove(st, t)
      case Lock(t) =>
        st.(holder := if locking then Some(t) else None, phases := st.phases[t := Locked(st.phases[t].work)])
      case Run(t) =>
        RunKeepsValid(c, st, t);
        RunMove(c, st, t)
      case Hand(t) => HandMove(st, t)
      case Unlock(t) => Unlocked(st, t)
      case Close => st.(closing := true)
      case Skip(t) => st.(phases := Popped(st, t), lossy := true)
      case Abort(t) => Unlocked(st, t).(lossy := true)
  }

  lemma RunKeepsValid(c: Code, st: State, t: nat)
    requires c.Valid() && DecValid(c, st.dec) && t in st.phases && st.phases[t].Locked?
    ensures DecValid(c, RunMove(c, st, t).dec)
  {
    hide Step, DecValid;
    if st.phases[t].work.Decode? {
      StepKeepsValid(c, st.dec, st.phases[t].work.e);
    }
  }

  ghost function After(c: Code, locking: bool, run: seq<Move>): (st: State)
    requires c.Valid()
    ensures DecValid(c, st.dec)
  {
    if run == [] then
      assert DecValid(c, EMPTY_DEC);
      START
    else Next(c, locking, After(c, locking, run[..|run| - 1]), run[|run| - 1])
  }

  // ---------- what every step keeps ----------

  /** The decoder entries of a ledger, in order. */
  function LogOf(ledger: seq<Item>): seq<Entry>
  {
    if ledger == [] then []
    else
      var n := |ledger| - 1;
      LogOf(ledger[..n]) + if ledger[n].Logged? then [ledger[n].entry] else []
  }

  /** The frames of a ledger that are handed over, in order. */
  function Keep(ledger: seq<Item>): seq<Item>
  {
    if ledger == [] then []
    else
      var n := |ledger| - 1;
      Keep(ledger[..n]) + if Deliverable(ledger[n]) then [ledger[n]] else []
  }

  ghost predicate Critical(st: State, t: nat)
  {
    t in st.phases && (st.phases[t].Locked? || st.phases[t].Handing?)
  }

  ghost predicate MutexHolds(st: State)
  {
    forall t: nat :: Critical(st, t) <==> st.holder == Some(t)
  }

  /** What the holder of the lock has still to hand over. */
  function Pending(st: State): seq<Item>
  {
    if st.holder.Some? && st.holder.value in st.phases && st.phases[st.holder.value].Handing?
    then st.phases[st.holder.value].rest else []
  }

  /** How much of the ledger has been handed over. */
  function Handed(st: State): int
  {
    |st.ledger| - |Pending(st)|
  }

  /** The holder's batch is the end of the ledger: nobody has decoded since it did. */
  ghost predicate BatchIsTail(st: State)
  {
    && 0 <= Handed(st) && st.ledger[Handed(st)..] == Pending(st)
    && (forall t :: t in st.phases && st.phases[t].Handing? && st.holder == Some(t) ==> st.phases[t].at == Handed(st))
  }

  /** The order of decoding is a run of the decoder. */
  ghost predicate LedgerIsARun(c: Code, st: State)
    requires c.Valid()
  {
    (st.dec, LogOf(st.ledger)) == FecSpec.Run(c, st.events)
  }

  /** Every deliverable place of the ledger up to h was picked. */
  ghost predicate Covered(picks: seq<nat>, ledger: seq<Item>, h: nat)
    requires h <= |ledger|
  {
    forall p: nat :: p < h && Deliverable(ledger[p]) ==> p in picks
  }

  lemma CoveredNext(picks: seq<nat>, ledger: seq<Item>, h: nat)
    requires h < |ledger| && Covered(picks, ledger, h)
    ensures Covered(picks + [h], ledger, h + 1)
    ensures !Deliverable(ledger[h]) ==> Covered(picks, ledger, h + 1)
  {
    hide Deliverable;
  }

  /** The output picks items of the ledger up to a place, in order; without losses it picks all there
      are. */
  ghost predicate Follows(out: seq<Item>, picks: seq<nat>, ledger: seq<Item>, h: nat, lossy: bool)
  {
    && |out| == |picks| && h <= |ledger|
    && (forall i :: 0 <= i < |out| ==> picks[i] < h)
    && (forall i :: 0 <= i < |out| ==> out[i] == ledger[picks[i]] && Deliverable(out[i]))
    && (forall i, j :: 0 <= i < j < |out| ==> picks[i] < picks[j])
    && (!lossy ==> out == Keep(ledger[..h]))
    && (!lossy ==> Covered(picks, ledger, h))
  }

  ghost predicate OutFollowsLedger(st: State)
  {
    0 <= Handed(st) && Follows(st.out, st.picks, st.ledger, Handed(st), st.lossy) && (st.lossy ==> st.closing)
  }

  ghost predicate Inv(c: Code, st: State)
    requires c.Valid()
  {
    MutexHolds(st) && BatchIsTail(st) && LedgerIsARun(c, st) && OutFollowsLedger(st)
  }

  lemma {:induction false} LogOfItems(ledger: seq<Item>, es: seq<Entry>)
    ensures LogOf(ledger + Items(es)) == LogOf(ledger) + es
  {
    if es == [] {
      assert ledger + Items(es) == ledger;
    } else {
      var n := |es| - 1;
      LogOfItems(ledger, es[..n]);
      var all := ledger + Items(es);
      assert all[..|all| - 1] == ledger + Items(es[..n]);
      assert es == es[..n] + [es[n]];
    }
  }

  lemma KeepOne(ledger: seq<Item>, n: nat)
    requires n < |ledger|
    ensures Keep(ledger[..n + 1]) == Keep(ledger[..n]) + if Deliverable(ledger[n]) then [ledger[n]] else []
  {
    assert ledger[..n + 1][..n] == ledger[..n];
  }

  /** With the lock held and nothing pending, decoding makes the holder's batch the new end. */
  lemma RunMoveKeeps(c: Code, st: State, t: nat)
    requires c.Valid() && DecValid(c, st.dec) && Inv(c, st) && t in st.phases && st.phases[t].Locked?
    ensures Inv(c, RunMove(c, st, t))
  {
    hide Step, DecValid, FecSpec.Run, Follows, LogOf;
    var st' := RunMove(c, st, t);
    assert Critical(st, t);
    assert Pending(st) == [] && Handed(st) == |st.ledger| == Handed(st');
    FollowsGrown(st.out, st.picks, st.ledger, Pending(st'), st.lossy);
    assert MutexHolds(st') by {
      assert forall u: nat :: u != t ==> (Critical(st', u) <==> Critical(st, u));
    }
    match st.phases[t].work
    case Decode(e) =>
      LogOfItems(st.ledger, Step(c, st.dec, e).1);
      RunAppend(c, st.events, e);
      assert FecSpec.Run(c, st.events).0 == st.dec;
    case Forward(id, f) =>
      LogOfWhole(st.ledger, Whole(id, f));
  }

  lemma LogOfWhole(ledger: seq<Item>, i: Item)
    requires i.Whole?
    ensures LogOf(ledger + [i]) == LogOf(ledger)
  {
    assert (ledger + [i])[..|ledger|] == ledger;
  }

  lemma FollowsPick(out: seq<Item>, picks: seq<nat>, ledger: seq<Item>, h: nat, lossy: bool)
    requires Follows(out, picks, ledger, h, lossy) && h < |ledger| && Deliverable(ledger[h])
    ensures Follows(out + [ledger[h]], picks + [h], ledger, h + 1, lossy)
  {
    hide Deliverable, Keep, Covered;
    KeepOne(ledger, h);
    var out', picks' := out + [ledger[h]], picks + [h];
    assert forall i :: 0 <= i < |out| ==> out'[i] == out[i] && picks'[i] == picks[i];
    assert out'[|out|] == ledger[h] && picks'[|out|] == h;
    if !lossy {
      CoveredNext(picks, ledger, h);
    }
  }

  lemma FollowsSkip(out: seq<Item>, picks: seq<nat>, ledger: seq<Item>, h: nat, lossy: bool)
    requires Follows(out, picks, ledger, h, lossy) && h < |ledger|
    ensures !Deliverable(ledger[h]) ==> Follows(out, picks, ledger, h + 1, lossy)
    ensures Follows(out, picks, ledger, h + 1, true)
  {
    hide Deliverable, Keep, Covered;
    KeepOne(ledger, h);
    if !lossy {
      CoveredNext(picks, ledger, h);
    }
  }

  lemma FollowsGrown(out: seq<Item>, picks: seq<nat>, ledger: seq<Item>, more: seq<Item>, lossy: bool)
    requires Follows(out, picks, ledger, |ledger|, lossy)
    ensures Follows(out, picks, ledger + more, |ledger|, lossy)
  {
    hide Keep;
    assert (ledger + more)[..|ledger|] == ledger == ledger[..|ledger|];
  }

  /** Handing over pops the holder's batch, whose next item is the next of the ledger. */
  lemma HandMoveKeeps(c: Code, st: State, t: nat)
    requires c.Valid() && Inv(c, st) && t in st.phases && st.phases[t].Handing? && st.phases[t].rest != []
    ensures Inv(c, HandMove(st, t))
  {
    hide FecSpec.Run, LogOf, Deliverable, Follows;
    assert Critical(st, t);
    var h := Handed(st);
    assert st.ledger[h] == st.ledger[h..][0] == st.phases[t].rest[0];
    FollowsSkip(st.out, st.picks, st.ledger, h, st.lossy);
    if Deliverable(st.ledger[h]) {
      FollowsPick(st.out, st.picks, st.ledger, h, st.lossy);
    }
    var st' := HandMove(st, t);
    assert Pending(st') == st.phases[t].rest[1..] && Handed(st') == h + 1;
    assert st.ledger[h + 1..] == st.ledger[h..][1..];
    assert forall u: nat :: Critical(st', u) <==> Critical(st, u);
  }

  lemma FollowsAll(out: seq<Item>, picks: seq<nat>, ledger: seq<Item>, h: nat, lossy: bool)
    requires Follows(out, picks, ledger, h, lossy)
    ensures Follows(out, picks, ledger, |ledger|, true)
  {
  }

  /** The steps that end or give up a hand-over. */
  lemma EndingKeeps(c: Code, st: State, m: Move)
    requires c.Valid() && DecValid(c, st.dec) && Inv(c, st) && Enabled(true, st, m)
    requires m.Unlock? || m.Skip? || m.Abort?
    ensures Inv(c, Next(c, true, st, m))
  {
    hide FecSpec.Run, LogOf, Follows, DecValid;
    var st', h := Next(c, true, st, m), Handed(st);
    assert Critical(st, m.t);
    assert forall u: nat :: u != m.t ==> (Critical(st', u) <==> Critical(st, u));
    if m.Skip? {
      assert Pending(st') == st.phases[m.t].rest[1..] && Handed(st') == h + 1;
      assert st.ledger[h + 1..] == st.ledger[h..][1..];
      FollowsSkip(st.out, st.picks, st.ledger, h, st.lossy);
    } else {
      assert Pending(st') == [];
      FollowsAll(st.out, st.picks, st.ledger, h, st.lossy);
    }
  }

  /** What a step outside the lock leaves alone. */
  lemma OutsideShape(c: Code, st: State, m: Move)
    requires c.Valid() && DecValid(c, st.dec) && Enabled(true, st, m)
    requires m.Receive? || m.Check? || m.Lock? || m.Close?
    ensures var st' := Next(c, true, st, m);
      && st'.dec == st.dec && st'.out == st.out && st'.ledger == st.ledger && st'.events == st.events
      && st'.picks == st.picks && st'.lossy == st.lossy && (st.closing ==> st'.closing)
      && st'.holder == (if m.Lock? then Some(m.t) else st.holder)
      && (m.Close? || !Critical(st, m.t))
      && (!m.Close? ==> (Critical(st', m.t) <==> m.Lock?) && !(m.t in st'.phases && st'.phases[m.t].Handing?))
      && forall u :: m.Close? || u != m.t ==>
           (u in st'.phases <==> u in st.phases) && (u in st.phases ==> st'.phases[u] == st.phases[u])
  {
    hide DecValid, BlockDone, IsRepair;
  }

  lemma OutsideCritical(c: Code, st: State, m: Move, u: nat)
    requires c.Valid() && DecValid(c, st.dec) && Enabled(true, st, m)
    requires m.Receive? || m.Check? || m.Lock? || m.Close?
    ensures Critical(Next(c, true, st, m), u) <==> Critical(st, u) || (m.Lock? && u == m.t)
    ensures m.Lock? ==> st.holder.None?
  {
    OutsideShape(c, st, m);
    hide DecValid, Next;
  }

  lemma OutsidePending(c: Code, st: State, m: Move)
    requires c.Valid() && DecValid(c, st.dec) && MutexHolds(st) && Enabled(true, st, m)
    requires m.Receive? || m.Check? || m.Lock? || m.Close?
    ensures Pending(Next(c, true, st, m)) == Pending(st)
    ensures var st' := Next(c, true, st, m);
      forall t :: t in st'.phases && st'.phases[t].Handing? ==> t in st.phases && st.phases[t] == st'.phases[t]
  {
    OutsideShape(c, st, m);
    OutsideCritical(c, st, m, 0);
    hide DecValid, Next;
    assert m.Close? || st.holder != Some(m.t) by {
      assert m.Close? || !Critical(st, m.t);
    }
  }

  /** The steps outside the lock, and taking it. */
  lemma OutsideKeeps(c: Code, st: State, m: Move)
    requires c.Valid() && DecValid(c, st.dec) && Inv(c, st) && Enabled(true, st, m)
    requires m.Receive? || m.Check? || m.Lock? || m.Close?
    ensures Inv(c, Next(c, true, st, m))
  {
    OutsideShape(c, st, m);
    OutsidePending(c, st, m);
    hide FecSpec.Run, LogOf, Follows, DecValid, Next, Enabled, Critical, Pending;
    forall u: nat
      ensures Critical(Next(c, true, st, m), u) <==> Critical(st, u) || (m.Lock? && u == m.t)
      ensures m.Lock? ==> st.holder.None?
    {
      OutsideCritical(c, st, m, u);
    }
  }

  /** The invariant holds after every interleaving. */
  lemma {:induction false} Invariant(c: Code, run: seq<Move>)
    requires c.Valid()
    ensures Inv(c, After(c, true, run))
  {
    hide Inv, RunMove, HandMove, DecValid;
    if run == [] {
      StartKeeps(c);
    } else {
      var st, m := After(c, true, run[..|run| - 1]), run[|run| - 1];
      Invariant(c, run[..|run| - 1]);
      if !Enabled(true, st, m) {
      } else if m.Run? {
        RunMoveKeeps(c, st, m.t);
      } else if m.Hand? {
        HandMoveKeeps(c, st, m.t);
      } else if m.Unlock? || m.Skip? || m.Abort? {
        EndingKeeps(c, st, m);
      } else {
        OutsideKeeps(c, st, m);
      }
    }
  }

  lemma StartKeeps(c: Code)
    requires c.Valid()
    ensures Inv(c, START)
  {
  }

  // ---------- main theorems ----------

  lemma {:induction false} KeepConcat(a: seq<Item>, b: seq<Item>)
    ensures Keep(a + b) == Keep(a) + Keep(b)
  {
    if b == [] {
      assert a + b == a;
    } else {
      var n := |b| - 1;
      KeepConcat(a, b[..n]);
      assert (a + b)[..|a + b| - 1] == a + b[..n];
    }
  }

  /** Main theorem. For every interleaving: at most one thread is between lock and unlock; the results of
      all work, in the order it was decoded, are the log of one sequential run of the decoder with whole
      frames between; and while the session is not ending the output followed by what the holder of the
      lock has left of its own batch is the deliverable part of exactly those results, in that order. */
  lemma OutputIsLockOrder(c: Code, run: seq<Move>)
    requires c.Valid()
    ensures var st := After(c, true, run);
      && (forall t: nat, u: nat :: Critical(st, t) && Critical(st, u) ==> t == u)
      && (st.dec, LogOf(st.ledger)) == FecSpec.Run(c, st.events)
      && (!st.closing ==> st.out + Keep(Pending(st)) == Keep(st.ledger))
      && (!st.closing && st.holder.None? ==> st.out == Keep(st.ledger))
  {
    hide After, FecSpec.Run, Keep, LogOf;
    Invariant(c, run);
    var st := After(c, true, run);
    var h := Handed(st);
    assert st.ledger == st.ledger[..h] + st.ledger[h..];
    KeepConcat(st.ledger[..h], st.ledger[h..]);
    assert st.ledger[..|st.ledger|] == st.ledger;
  }

  lemma {:induction false} LogOfPrefix(ledger: seq<Item>, n: nat)
    requires n <= |ledger|
    ensures LogOf(ledger[..n]) <= LogOf(ledger)
    decreases |ledger| - n
  {
    if n == |ledger| {
      assert ledger[..n] == ledger;
    } else {
      LogOfPrefix(ledger, n + 1);
      assert ledger[..n + 1][..n] == ledger[..n];
    }
  }

  ghost predicate FreedBetween(ledger: seq<Item>, id: nat, a: int, b: int)
  {
    exists p :: a < p < b && 0 <= p < |ledger| && ledger[p] == Logged(Freed(id))
  }

  lemma LogOfOne(ledger: seq<Item>, n: nat)
    requires n < |ledger|
    ensures LogOf(ledger[..n + 1]) == LogOf(ledger[..n]) + if ledger[n].Logged? then [ledger[n].entry] else []
  {
    assert ledger[..n + 1][..n] == ledger[..n];
  }

  /** The next decoder entry of a disciplined ledger comes after the block's last slot. */
  lemma NextSlot(ledger: seq<Item>, n: nat)
    requires n < |ledger| && Disciplined(LogOf(ledger))
    requires ledger[n].Logged? && ledger[n].entry.Out?
    ensures ledger[n].entry.slot > LastSlot(LogOf(ledger[..n]), ledger[n].entry.id)
  {
    hide LastSlot, LogOf;
    LogOfPrefix(ledger, n + 1);
    LogOfOne(ledger, n);
    var before, upTo, all := LogOf(ledger[..n]), LogOf(ledger[..n + 1]), LogOf(ledger);
    var p := |before|;
    assert upTo == before + [ledger[n].entry];
    assert all[p] == upTo[p] && all[..p] == upTo[..p] == before;
  }

  /** Once a slot is out, later slots of the block only grow until the block is deleted. */
  lemma {:induction false} SlotsGrow(ledger: seq<Item>, id: nat, a: nat, n: nat)
    requires a < n <= |ledger| && Disciplined(LogOf(ledger))
    requires ledger[a].Logged? && ledger[a].entry.Out? && ledger[a].entry.id == id
    requires !FreedBetween(ledger, id, a, n)
    ensures LastSlot(LogOf(ledger[..n]), id) >= ledger[a].entry.slot
    decreases n
  {
    hide Disciplined;
    var m := n - 1;
    var upTo := ledger[..n];
    assert upTo[..m] == ledger[..m];
    if ledger[m].Logged? {
      var log := LogOf(ledger[..m]) + [ledger[m].entry];
      assert LogOf(upTo) == log && log[..|log| - 1] == LogOf(ledger[..m]);
    } else {
      assert LogOf(upTo) == LogOf(ledger[..m]);
    }
    if a < m {
      assert ledger[m] != Logged(Freed(id));
      SlotsGrow(ledger, id, a, m);
      if ledger[m].Logged? && ledger[m].entry.Out? {
        NextSlot(ledger, m);
      }
    }
  }

  predicate IsOut(i: Item)
  {
    i.Logged? && i.entry.Out?
  }

  /** Main theorem. In every interleaving, even one cut short, two frames of one block leave in strictly
      increasing slot order unless the decoder deleted the block between them. */
  lemma SlotsLeaveInOrder(c: Code, run: seq<Move>, i: nat, j: nat)
    requires c.Valid() && i < j < |After(c, true, run).out|
    requires var out := After(c, true, run).out; IsOut(out[i]) && IsOut(out[j])
    ensures var st := After(c, true, run);
      && |st.picks| == |st.out|
      && (st.out[i].entry.id == st.out[j].entry.id ==>
            st.out[i].entry.slot < st.out[j].entry.slot ||
            FreedBetween(st.ledger, st.out[i].entry.id, st.picks[i], st.picks[j]))
  {
    hide After, FecSpec.Run, Keep, LogOf, Disciplined, LastSlot, FreedBetween;
    Invariant(c, run);
    var st := After(c, true, run);
    var id, a, b := st.out[i].entry.id, st.picks[i], st.picks[j];
    LogIsDisciplined(c, st);
    if st.out[j].entry.id == id && !FreedBetween(st.ledger, id, a, b) {
      SlotsGrow(st.ledger, id, a, b);
      NextSlot(st.ledger, b);
    }
  }

  lemma LogIsDisciplined(c: Code, st: State)
    requires c.Valid() && Inv(c, st)
    ensures Disciplined(LogOf(st.ledger))
    ensures forall id: nat :: CountFreed(LogOf(st.ledger), id) <= 1
  {
    hide FecSpec.Run, LogOf, Disciplined, LastSlot, CountFreed, DecValid;
    RunKeepsLogInv(c, st.events);
  }

  lemma {:induction false} FreedCounts(ledger: seq<Item>, id: nat, p: nat, n: nat)
    requires p < n <= |ledger| && ledger[p] == Logged(Freed(id))
    ensures CountFreed(LogOf(ledger[..n]), id) >= CountFreed(LogOf(ledger[..p]), id) + 1
    decreases n
  {
    var m := n - 1;
    var upTo := ledger[..n];
    assert upTo[..m] == ledger[..m];
    if ledger[m].Logged? {
      var log := LogOf(ledger[..m]) + [ledger[m].entry];
      assert LogOf(upTo) == log && log[..|log| - 1] == LogOf(ledger[..m]);
    } else {
      assert LogOf(upTo) == LogOf(ledger[..m]);
    }
    if p < m {
      FreedCounts(ledger, id, p, m);
    }
  }

  /** Over both receive loops, with every packet arriving any number of times, no slot of a block leaves
      three times, raw or padded: a second time needs the block's one deletion. */
  lemma NoSlotLeavesThrice(c: Code, run: seq<Move>, h: nat, i: nat, j: nat)
    requires c.Valid() && h < i < j < |After(c, true, run).out|
    requires var out := After(c, true, run).out; IsOut(out[h]) && IsOut(out[i]) && IsOut(out[j])
    ensures var out := After(c, true, run).out;
      var x, y, z := out[h].entry, out[i].entry, out[j].entry;
      !(x.id == y.id == z.id && x.slot == y.slot == z.slot)
  {
    hide After, FecSpec.Run, Keep, LogOf, Disciplined, LastSlot, CountFreed, Deliverable, FreedBetween, LedgerIsARun;
    Invariant(c, run);
    var st := After(c, true, run);
    var id, slot := st.out[h].entry.id, st.out[h].entry.slot;
    SlotsLeaveInOrder(c, run, h, i);
    SlotsLeaveInOrder(c, run, i, j);
    if st.out[i].entry.id == st.out[j].entry.id == id && st.out[i].entry.slot == st.out[j].entry.slot == slot {
      var p := FreedAt(st.ledger, id, st.picks[h], st.picks[i]);
      var q := FreedAt(st.ledger, id, st.picks[i], st.picks[j]);
      FreedCounts(st.ledger, id, p, q);
      FreedCounts(st.ledger, id, q, |st.ledger|);
      assert st.ledger[..|st.ledger|] == st.ledger;
      LogIsDisciplined(c, st);
    }
  }

  lemma FreedAt(ledger: seq<Item>, id: nat, a: nat, b: nat) returns (p: nat)
    requires FreedBetween(ledger, id, a, b)
    ensures a < p < b && p < |ledger| && ledger[p] == Logged(Freed(id))
  {
    p :| a < p < b && p < |ledger| && ledger[p] == Logged(Freed(id));
  }

  /** The repair check before decryption loses nothing: for a finished block that is still there, the
      decoder would neither change nor hand out anything. */
  lemma SkippedRepairIsIdle(c: Code, run: seq<Move>, id: nat, a: Arrival)
    requires c.Valid() && BlockDone(After(c, true, run).dec, id)
    ensures var d := After(c, true, run).dec; Step(c, d, Add(id, a)) == (d, [])
  {
    hide After, FecSpec.Run, LogOf, Keep, TryRecover, Disciplined, LastSlot, CountFreed, WellFormed, Clean;
    Invariant(c, run);
    var st := After(c, true, run);
    RunKeepsLogInv(c, st.events);
    var d := st.dec;
    assert id <= d.maxSeen;
    assert Opened(d, id, a.now) == (d, []);
    assert BlockAdd(c, d.blocks[id], a) == (d.blocks[id], Released([]));
    assert d.blocks[id := d.blocks[id]] == d.blocks;
    assert Freeds([]) + Outs(id, []) == [];
  }

  // ---------- from the sender to the output ----------

  /** What a thread at work carries was received, and so was every event the decoder has run. */
  ghost predicate WasReceived(run: seq<Move>, w: Work)
  {
    exists m :: m in run && m.Receive? && m.work == w
  }

  ghost predicate AllReceived(run: seq<Move>, st: State)
  {
    && (forall t :: t in st.phases && !st.phases[t].Handing? ==> WasReceived(run, st.phases[t].work))
    && (forall e :: e in st.events ==> WasReceived(run, Decode(e)))
    && (forall i :: i in st.ledger && i.Whole? ==> WasReceived(run, Forward(i.id, i.frame)))
  }

  lemma ReceivedStays(run: seq<Move>, m: Move, w: Work)
    requires WasReceived(run, w) || (m.Receive? && m.work == w)
    ensures WasReceived(run + [m], w)
  {
    if WasReceived(run, w) {
      var x :| x in run && x.Receive? && x.work == w;
      assert x in run + [m];
    } else {
      assert m in run + [m];
    }
  }

  lemma NextReceived(c: Code, run: seq<Move>, st: State, m: Move)
    requires c.Valid() && DecValid(c, st.dec) && AllReceived(run, st)
    ensures AllReceived(run + [m], Next(c, true, st, m))
  {
    hide WasReceived, DecValid, Step, BlockDone, IsRepair;
    var st' := Next(c, true, st, m);
    forall t | t in st'.phases && !st'.phases[t].Handing?
      ensures WasReceived(run + [m], st'.phases[t].work)
    {
      ReceivedStays(run, m, st'.phases[t].work);
    }
    forall e | e in st'.events
      ensures WasReceived(run + [m], Decode(e))
    {
      ReceivedStays(run, m, Decode(e));
    }
    forall i | i in st'.ledger && i.Whole?
      ensures WasReceived(run + [m], Forward(i.id, i.frame))
    {
      ReceivedStays(run, m, Forward(i.id, i.frame));
    }
  }

  lemma {:induction false} RunReceived(c: Code, run: seq<Move>)
    requires c.Valid()
    ensures AllReceived(run, After(c, true, run))
  {
    hide AllReceived, Next;
    if run == [] {
      assert AllReceived([], START) by { NothingReceived(); }
    } else {
      var n := |run| - 1;
      RunReceived(c, run[..n]);
      NextReceived(c, run[..n], After(c, true, run[..n]), run[n]);
      assert run[..n] + [run[n]] == run;
    }
  }

  lemma NothingReceived()
    ensures AllReceived([], START)
  {
  }

  /** Every data or repair packet a thread takes in is one the sender put on the wire. */
  ghost predicate FromSender(c: Code, sent: seq<Frame>, run: seq<Move>)
  {
    forall m :: m in run && m.Receive? && m.work.Decode? && m.work.e.Add? ==>
      exists w :: w in FecEndToEnd.SendRun(c, sent).1 && m.work.e == FecEndToEnd.Received(w, m.work.e.a.now)
  }

  lemma LoggedIsInLog(ledger: seq<Item>, p: nat)
    requires p < |ledger| && ledger[p].Logged?
    ensures ledger[p].entry in LogOf(ledger)
  {
    LogOfPrefix(ledger, p + 1);
    var upTo := ledger[..p + 1];
    assert upTo[..p] == ledger[..p];
    var log := LogOf(upTo);
    assert log[|log| - 1] == ledger[p].entry;
    assert LogOf(ledger)[|log| - 1] == log[|log| - 1];
  }

  /** Main theorem. From sender to output, through a channel that drops, duplicates and reorders, two
      receive loops, expiry and flushes, in every interleaving: each block frame that leaves is the frame
      that was sent under its block and slot, as sent or zero-padded. */
  lemma EveryOutputWasSent(c: Code, sent: seq<Frame>, run: seq<Move>, i: nat)
    requires FecEndToEnd.Sendable(c, sent) && FromSender(c, sent, run)
    requires i < |After(c, true, run).out| && After(c, true, run).out[i].Logged?
    ensures var e := After(c, true, run).out[i].entry;
      && e.Out? && |e.frame| >= 14
      && e.slot < c.k && Blocking.Start(e.id, c.k) + e.slot < |sent|
      && IsPaddingOf(e.frame, sent[Blocking.Start(e.id, c.k) + e.slot])
  {
    hide After, FecSpec.Run, Keep, LogOf, Blocking.Start, FecEndToEnd.SendRun, FecEndToEnd.Channel;
    Invariant(c, run);
    var st := After(c, true, run);
    var e := st.out[i].entry;
    LoggedIsInLog(st.ledger, st.picks[i]);
    EventsFromSender(c, sent, run);
    FecEndToEnd.EveryReleaseWasSent(c, sent, st.events, e.id, e.slot, e.frame);
  }

  lemma EventsFromSender(c: Code, sent: seq<Frame>, run: seq<Move>)
    requires c.Valid() && FromSender(c, sent, run)
    ensures FecEndToEnd.Channel(c, sent, After(c, true, run).events)
  {
    hide After, FecEndToEnd.SendRun;
    RunReceived(c, run);
    var st := After(c, true, run);
    forall x | x in st.events && x.Add?
      ensures exists w :: w in FecEndToEnd.SendRun(c, sent).1 && x == FecEndToEnd.Received(w, x.a.now)
    {
      assert WasReceived(run, Decode(x));
    }
  }

  // ---------- without the lock ----------

  /** Two packets of one block taken in without the lock: the second thread walks its batch first. */
  function Unordered(f: Frame, g: Frame): seq<Move>
  {
    [Receive(0, Decode(Add(0, Arrival(0, false, f, 0)))), Receive(1, Decode(Add(0, Arrival(1, false, g, 0)))),
     Check(0), Check(1), Lock(0), Run(0), Lock(1), Run(1), Hand(1), Hand(0)]
  }

  lemma AfterOne(c: Code, locking: bool, run: seq<Move>, m: Move)
    requires c.Valid()
    ensures After(c, locking, run + [m]) == Next(c, locking, After(c, locking, run), m)
  {
    assert (run + [m])[..|run|] == run;
  }

  lemma AfterNone(c: Code, locking: bool)
    requires c.Valid()
    ensures After(c, locking, []) == START
  {
  }

  /** The first four moves: both threads are past the check. */
  lemma UnorderedReady(c: Code, f: Frame, g: Frame)
    requires c.Valid()
    ensures After(c, false, Unordered(f, g)[..4]) ==
      START.(phases := map[0 := Ready(Decode(Add(0, Arrival(0, false, f, 0)))),
                           1 := Ready(Decode(Add(0, Arrival(1, false, g, 0))))])
  {
    hide After, DecValid;
    var run := Unordered(f, g);
    AfterNone(c, false);
    assert run[..0] == [];
    assert run[..1] == run[..0] + [run[0]] && run[..2] == run[..1] + [run[1]];
    assert run[..3] == run[..2] + [run[2]] && run[..4] == run[..3] + [run[3]];
    AfterOne(c, false, run[..0], run[0]);
    AfterOne(c, false, run[..1], run[1]);
    AfterOne(c, false, run[..2], run[2]);
    AfterOne(c, false, run[..3], run[3]);
  }

  /** The next two: thread 0 has decoded slot 0. */
  lemma UnorderedHalf(c: Code, f: Frame, g: Frame)
    requires c.Valid() && c.k == 2 && c.r == 1
    ensures var st := After(c, false, Unordered(f, g)[..6]);
      && st.dec == Dec(map[0 := FecExamples.Half(f, 0)], 0, 0) && st.ledger == [Logged(Out(0, 0, f))]
      && st.phases == map[0 := Handing([Logged(Out(0, 0, f))], 0), 1 := Ready(Decode(Add(0, Arrival(1, false, g, 0))))]
      && st.out == [] && !st.closing
  {
    hide After, Step, DecValid;
    var run := Unordered(f, g);
    UnorderedReady(c, f, g);
    assert run[..5] == run[..4] + [run[4]] && run[..6] == run[..5] + [run[5]];
    AfterOne(c, false, run[..4], run[4]);
    FecExamples.FirstStep(c, f);
    AfterOne(c, false, run[..5], run[5]);
    assert Items([Out(0, 0, f)]) == [Logged(Out(0, 0, f))];
  }

  /** The lock is needed: without it a run hands over slot 1 of a block before slot 0, with nothing
      deleted and the session not ending. */
  lemma WithoutLockSlotsInvert(c: Code, f: Frame, g: Frame)
    requires c.Valid() && c.k == 2 && c.r == 1 && |f| >= 14 && |g| >= 14
    ensures var st := After(c, false, Unordered(f, g));
      && st.out == [Logged(Out(0, 1, g)), Logged(Out(0, 0, f))]
      && st.ledger == [Logged(Out(0, 0, f)), Logged(Out(0, 1, g))] && !st.closing
  {
    hide After, Step, DecValid;
    var run := Unordered(f, g);
    UnorderedHalf(c, f, g);
    assert run[..7] == run[..6] + [run[6]] && run[..8] == run[..7] + [run[7]] && run[..9] == run[..8] + [run[8]];
    assert run == run[..9] + [run[9]];
    AfterOne(c, false, run[..6], run[6]);
    FecExamples.SecondStep(c, f, g);
    AfterOne(c, false, run[..7], run[7]);
    assert Items([Out(0, 1, g)]) == [Logged(Out(0, 1, g))];
    AfterOne(c, false, run[..8], run[8]);
    AfterOne(c, false, run[..9], run[9]);
  }
}
