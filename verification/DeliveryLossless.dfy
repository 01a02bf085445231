/** Nothing is lost on the way through the receive loops: every packet and flush taken in reaches the decoder, or
    is a repair the decoder would have ignored, and what the decoder hands out reaches the output. */
module DeliveryLossless {
  import opened Bytes
  import opened Erasure
  import opened FecSpec
  import opened FecRuns
  import opened FecLifetimes
  import opened Delivery
  import FecEndToEnd
  import FecStreaming
  import Blocking

  // ---------- what was offered to the decoder ----------

  /** The thread has given up its work in this step, before the lock. */
  ghost predicate Drops(c: Code, st: State, m: Move)
    requires c.Valid() && DecValid(c, st.dec)
  {
    && m.Check? && m.t in st.phases && st.phases[m.t].Received?
    && m.t !in Next(c, true, st, m).phases
  }

  /** The decoder's events with those dropped before it in their places. */
  ghost function Offered(c: Code, run: seq<Move>): seq<Event>
    requires c.Valid()
  {
    if run == [] then []
    else
      var n := |run| - 1;
      Offered(c, run[..n]) + OfferedBy(c, After(c, true, run[..n]), run[n])
  }

  ghost function OfferedBy(c: Code, st: State, m: Move): seq<Event>
    requires c.Valid() && DecValid(c, st.dec)
  {
    if (m.Run? && Enabled(true, st, m)) || Drops(c, st, m) then
      match st.phases[m.t].work
      case Decode(e) => [e]
      case Forward(_, _) => []
    else []
  }

  /** Exactly repairs of blocks that are there and done are dropped before the lock. */
  lemma DropsIff(c: Code, st: State, t: nat)
    requires c.Valid() && DecValid(c, st.dec) && t in st.phases && st.phases[t].Received?
    ensures Drops(c, st, Check(t)) <==>
      var w := st.phases[t].work;
      w.Decode? && w.e.Add? && w.e.a.isRepair && w.e.id in st.dec.blocks && st.dec.blocks[w.e.id].done
  {
    hide DecValid;
  }

  /** What is dropped is a repair of a finished block, which the decoder would ignore. */
  lemma DroppedIsIdle(c: Code, run: seq<Move>, m: Move)
    requires c.Valid() && Drops(c, After(c, true, run), m)
    ensures var st := After(c, true, run);
      && st.phases[m.t].work.Decode?
      && Step(c, st.dec, st.phases[m.t].work.e) == (st.dec, [])
    ensures Next(c, true, After(c, true, run), m).events == After(c, true, run).events
  {
    hide After, Step, DecValid, BlockDone;
    var st := After(c, true, run);
    var e := st.phases[m.t].work.e;
    assert e.Add? && BlockDone(st.dec, e.id);
    SkippedRepairIsIdle(c, run, e.id, e.a);
  }

  lemma EventsStep(c: Code, st: State, m: Move)
    requires c.Valid() && DecValid(c, st.dec) && !Drops(c, st, m)
    ensures Next(c, true, st, m).events == st.events + OfferedBy(c, st, m)
  {
    hide Step, DecValid, BlockDone;
  }

  /** With the dropped repairs put back the decoder is in the same state and has handed out the same. */
  lemma {:induction false} OfferedIsRun(c: Code, run: seq<Move>)
    requires c.Valid()
    ensures var st := After(c, true, run);
      FecSpec.Run(c, Offered(c, run)) == FecSpec.Run(c, st.events) == (st.dec, LogOf(st.ledger))
  {
    hide FecSpec.Run, Next, LogOf, DecValid, Step, MutexHolds, BatchIsTail, OutFollowsLedger;
    Invariant(c, run);
    if run != [] {
      var n := |run| - 1;
      var st, m, evs := After(c, true, run[..n]), run[n], Offered(c, run[..n]);
      OfferedIsRun(c, run[..n]);
      if Drops(c, st, m) {
        DroppedIsIdle(c, run[..n], m);
        DropIsOffered(c, st, m);
        RunAppend(c, evs, st.phases[m.t].work.e);
        assert FecSpec.Run(c, evs).1 + [] == FecSpec.Run(c, evs).1;
      } else {
        EventsStep(c, st, m);
        SameAppend(c, evs, st.events, OfferedBy(c, st, m));
      }
    }
  }

  lemma DropIsOffered(c: Code, st: State, m: Move)
    requires c.Valid() && DecValid(c, st.dec) && Drops(c, st, m) && st.phases[m.t].work.Decode?
    ensures OfferedBy(c, st, m) == [st.phases[m.t].work.e]
  {
    hide DecValid;
  }

  lemma SameAppend(c: Code, a: seq<Event>, b: seq<Event>, more: seq<Event>)
    requires c.Valid() && FecSpec.Run(c, a) == FecSpec.Run(c, b) && |more| <= 1
    ensures FecSpec.Run(c, a + more) == FecSpec.Run(c, b + more)
  {
    hide FecSpec.Run, Step, DecValid;
    if more == [] {
      assert a + more == a && b + more == b;
    } else {
      assert a + more == a + [more[0]] && b + more == b + [more[0]];
      RunAppend(c, a, more[0]);
      RunAppend(c, b, more[0]);
    }
  }

  // ---------- every event taken in is offered ----------

  predicate Takes(st: State, m: Move, e: Event)
  {
    m.Receive? && m.work == Decode(e) && m.t !in st.phases
  }

  /** How often an event was taken in by a free thread. */
  ghost function CountTaken(c: Code, run: seq<Move>, e: Event): nat
    requires c.Valid()
  {
    if run == [] then 0
    else
      var n := |run| - 1;
      CountTaken(c, run[..n], e) + if Takes(After(c, true, run[..n]), run[n], e) then 1 else 0
  }

  /** The threads that have the event still before them. */
  function Holding(st: State, e: Event): set<nat>
  {
    set t | t in st.phases && !st.phases[t].Handing? && st.phases[t].work == Decode(e)
  }

  /** The thread of a move has the event before it or not; the others are as they were. */
  lemma HoldingOthers(c: Code, st: State, m: Move, t: nat)
    requires c.Valid() && DecValid(c, st.dec) && (m.Close? || t != m.t)
    ensures var st' := Next(c, true, st, m); (t in st'.phases <==> t in st.phases)
    ensures var st' := Next(c, true, st, m); t in st.phases ==> st'.phases[t] == st.phases[t]
  {
    hide Step, DecValid, BlockDone, Items, IsRepair;
  }

  lemma HoldingOwn(c: Code, st: State, m: Move, e: Event)
    requires c.Valid() && DecValid(c, st.dec) && !m.Close?
    ensures var was, now := Holding(st, e), Holding(Next(c, true, st, m), e);
      if Takes(st, m, e) then m.t !in was && m.t in now && OfferedBy(c, st, m) == []
      else if OfferedBy(c, st, m) == [e] then m.t in was && m.t !in now
      else (m.t in now <==> m.t in was) && e !in OfferedBy(c, st, m)
  {
    hide Step, DecValid, BlockDone, Items, IsRepair;
  }

  lemma HoldingStep(c: Code, st: State, m: Move, e: Event)
    requires c.Valid() && DecValid(c, st.dec)
    ensures var was, now := Holding(st, e), Holding(Next(c, true, st, m), e);
      if Takes(st, m, e) then m.t !in was && now == was + {m.t} && OfferedBy(c, st, m) == []
      else if OfferedBy(c, st, m) == [e] then m.t in was && now == was - {m.t}
      else now == was && e !in OfferedBy(c, st, m)
  {
    var st' := Next(c, true, st, m);
    forall t | m.Close? || t != m.t
      ensures t in Holding(st', e) <==> t in Holding(st, e)
    {
      HoldingOthers(c, st, m, t);
    }
    if !m.Close? {
      HoldingOwn(c, st, m, e);
    }
    hide Next, Holding, Takes, OfferedBy, DecValid;
    assert m.Close? ==> Holding(st', e) == Holding(st, e) && OfferedBy(c, st, m) == [] && !Takes(st, m, e) by {
      if m.Close? {
        CloseOffers(c, st, e);
      }
    }
  }

  lemma CloseOffers(c: Code, st: State, e: Event)
    requires c.Valid() && DecValid(c, st.dec)
    ensures OfferedBy(c, st, Close) == [] && !Takes(st, Close, e)
    ensures Holding(Next(c, true, st, Close), e) == Holding(st, e)
  {
  }

  /** Main theorem. Every packet or flush a thread takes in is offered to the decoder once or still to come. */
  lemma {:induction false} EverythingIsOffered(c: Code, run: seq<Move>, e: Event)
    requires c.Valid()
    ensures multiset(Offered(c, run))[e] + |Holding(After(c, true, run), e)| == CountTaken(c, run, e)
  {
    hide Next, Holding, Takes, DecValid, OfferedBy;
    if run == [] {
      assert Holding(START, e) == {} by { NothingHeld(e); }
    } else {
      var n := |run| - 1;
      var st := After(c, true, run[..n]);
      EverythingIsOffered(c, run[..n], e);
      HoldingStep(c, st, run[n], e);
      var more := OfferedBy(c, st, run[n]);
      assert multiset(Offered(c, run)) == multiset(Offered(c, run[..n])) + multiset(more);
      assert e !in more ==> multiset(more)[e] == 0;
    }
  }

  lemma NothingHeld(e: Event)
    ensures Holding(START, e) == {}
  {
  }

  lemma {:induction false} OfferedWasReceived(c: Code, run: seq<Move>)
    requires c.Valid()
    ensures forall e :: e in Offered(c, run) ==> WasReceived(run, Decode(e))
  {
    hide Next, Enabled, WasReceived, DecValid;
    if run != [] {
      var n := |run| - 1;
      var st := After(c, true, run[..n]);
      OfferedWasReceived(c, run[..n]);
      RunReceived(c, run[..n]);
      assert run == run[..n] + [run[n]];
      forall e | e in Offered(c, run)
        ensures WasReceived(run, Decode(e))
      {
        if e in OfferedBy(c, st, run[n]) {
          OfferedIsHeld(c, st, run[n], e);
          assert WasReceived(run[..n], st.phases[run[n].t].work);
        }
        ReceivedStays(run[..n], run[n], Decode(e));
      }
    }
  }

  lemma OfferedIsHeld(c: Code, st: State, m: Move, e: Event)
    requires c.Valid() && DecValid(c, st.dec) && e in OfferedBy(c, st, m)
    ensures (m.Run? || m.Check?) && m.t in st.phases && !st.phases[m.t].Handing? && st.phases[m.t].work == Decode(e)
  {
    hide Step, DecValid, BlockDone;
  }

  lemma OfferedFromSender(c: Code, sent: seq<Frame>, run: seq<Move>)
    requires c.Valid() && FromSender(c, sent, run)
    ensures FecEndToEnd.Channel(c, sent, Offered(c, run))
  {
    hide After, FecEndToEnd.SendRun, Offered;
    OfferedWasReceived(c, run);
    forall x | x in Offered(c, run) && x.Add?
      ensures exists w :: w in FecEndToEnd.SendRun(c, sent).1 && x == FecEndToEnd.Received(w, x.a.now)
    {
      assert WasReceived(run, Decode(x));
    }
  }

  // ---------- from the decoder to the output ----------

  /** A frame of the block's current lifetime is in the ledger, and the block is not deleted after it. */
  lemma {:induction false} OutIsInLedger(ledger: seq<Item>, id: nat, r: Release) returns (p: nat)
    requires r in OutsOf(LogOf(ledger), id)
    ensures p < |ledger| && ledger[p] == Logged(Out(id, r.slot, r.frame)) && !FreedBetween(ledger, id, p, |ledger|)
  {
    var n := |ledger| - 1;
    var prev := LogOf(ledger[..n]);
    if ledger[n] == Logged(Out(id, r.slot, r.frame)) {
      p := n;
    } else {
      if ledger[n].Logged? {
        var e := ledger[n].entry;
        assert (prev + [e])[..|prev|] == prev;
      } else {
        assert prev + [] == prev;
      }
      p := OutIsInLedger(ledger[..n], id, r);
      assert forall q :: 0 <= q < n ==> ledger[..n][q] == ledger[q];
    }
  }

  /** The other way round: a frame that the block was not deleted after is of its current lifetime. */
  lemma {:induction false} InLedgerIsOut(ledger: seq<Item>, id: nat, p: nat)
    requires p < |ledger| && IsOut(ledger[p]) && ledger[p].entry.id == id
    requires !FreedBetween(ledger, id, p, |ledger|)
    ensures Release(ledger[p].entry.slot, ledger[p].entry.frame) in OutsOf(LogOf(ledger), id)
  {
    var n := |ledger| - 1;
    var prev := LogOf(ledger[..n]);
    if ledger[n].Logged? {
      assert (prev + [ledger[n].entry])[..|prev|] == prev;
    } else {
      assert prev + [] == prev;
    }
    if p < n {
      assert ledger[n] != Logged(Freed(id));
      assert !FreedBetween(ledger[..n], id, p, n) by {
        assert forall q :: 0 <= q < n ==> ledger[..n][q] == ledger[q];
      }
      InLedgerIsOut(ledger[..n], id, p);
    }
  }

  /** The slot's frame is in the output, and the block was not deleted after it was decoded. */
  ghost predicate LeftSince(st: State, id: nat, slot: nat, orig: Frame)
  {
    && |st.picks| == |st.out|
    && (exists i ::
          && 0 <= i < |st.out| && IsOut(st.out[i])
          && st.out[i].entry.id == id && st.out[i].entry.slot == slot && IsPaddingOf(st.out[i].entry.frame, orig)
          && !FreedBetween(st.ledger, id, st.picks[i], |st.ledger|))
  }

  /** The symbols taken of the block since it was last deleted reach the slot, or its flush found it stuck. */
  ghost predicate Reaches(c: Code, evs: seq<Event>, id: nat, slot: nat)
    requires c.Valid()
  {
    var symbols := FecStreaming.Symbols(c, OpenArrivals(c, evs, id));
    FecEndToEnd.Leaves(c, symbols, !Unflushed(FecSpec.Run(c, evs).1, id), slot)
  }

  lemma SlotIsMember(out: seq<Release>, slot: nat)
    ensures HasSlot(out, slot) <==> exists r :: r in out && r.slot == slot
  {
    if HasSlot(out, slot) {
      var i :| 0 <= i < |out| && out[i].slot == slot;
      assert out[i] in out;
    }
  }

  /** The frame is the sent one of the block and slot, up to zero padding. */
  ghost predicate IsSent(c: Code, sent: seq<Frame>, id: nat, slot: nat, f: Frame)
  {
    && slot < c.k && Blocking.Start(id, c.k) + slot < |sent|
    && IsPaddingOf(f, sent[Blocking.Start(id, c.k) + slot])
  }

  lemma FrameIsSent(c: Code, sent: seq<Frame>, id: nat, slot: nat, f: Frame)
    requires FecStreaming.FrameOf(FecEndToEnd.FramesOf(c.k, sent, id), slot, f)
    ensures IsSent(c, sent, id, slot, f)
  {
    hide Blocking.Start;
    var fs := FecEndToEnd.FramesOf(c.k, sent, id);
    assert Pad(fs[slot], |fs[slot]|) == fs[slot];
  }

  /** What the decoder has released of the slot in the current lifetime, by events that lead to its log. */
  lemma ReachedIsReleased(c: Code, sent: seq<Frame>, evs: seq<Event>, id: nat, slot: nat)
    requires FecEndToEnd.Sendable(c, sent) && FecEndToEnd.Channel(c, sent, evs)
    ensures var out := OutsOf(FecSpec.Run(c, evs).1, id);
      && ((exists r :: r in out && r.slot == slot) <==> Reaches(c, evs, id, slot))
      && (forall r :: r in out && r.slot == slot ==> IsSent(c, sent, id, slot, r.frame))
  {
    hide FecSpec.Run, Blocking.Start, FecEndToEnd.SendRun, FecEndToEnd.Channel, OutsOf, OpenArrivals,
      FecStreaming.Symbols, FecEndToEnd.Leaves, Unflushed, FecEndToEnd.Encodable;
    FecEndToEnd.RecoverableBlocksArrive(c, sent, evs, id);
    var out := OutsOf(FecSpec.Run(c, evs).1, id);
    SlotIsMember(out, slot);
    forall r | r in out && r.slot == slot
      ensures IsSent(c, sent, id, slot, r.frame)
    {
      FrameIsSent(c, sent, id, slot, r.frame);
    }
  }

  /** With the lock free and no loss, a release long enough for a header is in the output. */
  lemma ReleasedHasLeft(c: Code, st: State, id: nat, r: Release, orig: Frame)
    requires c.Valid() && Inv(c, st) && !st.closing && st.holder.None?
    requires r in OutsOf(LogOf(st.ledger), id) && IsPaddingOf(r.frame, orig) && |orig| >= MIN_FRAME
    ensures LeftSince(st, id, r.slot, orig)
  {
    hide FecSpec.Run, Keep, LogOf, OutsOf, FreedBetween, MutexHolds, LedgerIsARun;
    var p := OutIsInLedger(st.ledger, id, r);
    assert p in st.picks;
    var i :| 0 <= i < |st.picks| && st.picks[i] == p;
    assert st.out[i] == st.ledger[p];
  }

  /** And an output frame that the block was not deleted after is a release of the current lifetime. */
  lemma LeftIsReleased(c: Code, st: State, id: nat, slot: nat, orig: Frame)
    requires c.Valid() && Inv(c, st) && LeftSince(st, id, slot, orig)
    ensures exists r :: r in OutsOf(LogOf(st.ledger), id) && r.slot == slot
  {
    hide FecSpec.Run, Keep, LogOf, OutsOf, FreedBetween, MutexHolds, LedgerIsARun, IsPaddingOf;
    var i :| 0 <= i < |st.out| && IsOut(st.out[i]) && st.out[i].entry.id == id && st.out[i].entry.slot == slot
      && !FreedBetween(st.ledger, id, st.picks[i], |st.ledger|);
    InLedgerIsOut(st.ledger, id, st.picks[i]);
    assert Release(slot, st.out[i].entry.frame) in OutsOf(LogOf(st.ledger), id);
  }

  /** Main theorem. And none is lost on the way, nor is any other let through: when no thread holds the lock
      and the session is not ending, a sent frame long enough for a header is in the output of its block's
      current lifetime, as sent or zero-padded, exactly when the symbols taken in since the block was last
      deleted reach its slot, or a flush has closed the block and found the slot in it. */
  lemma RecoverableBlocksLeave(c: Code, sent: seq<Frame>, run: seq<Move>, id: nat, slot: nat)
    requires FecEndToEnd.Sendable(c, sent) && FromSender(c, sent, run)
    requires !After(c, true, run).closing && After(c, true, run).holder.None?
    ensures Reaches(c, Offered(c, run), id, slot) ==> slot < c.k && Blocking.Start(id, c.k) + slot < |sent|
    ensures var st, reaches := After(c, true, run), Reaches(c, Offered(c, run), id, slot);
      Blocking.Start(id, c.k) + slot < |sent| ==>
      var orig := sent[Blocking.Start(id, c.k) + slot];
      (LeftSince(st, id, slot, orig) ==> reaches) && (|orig| >= 14 && reaches ==> LeftSince(st, id, slot, orig))
  {
    hide After, FecSpec.Run, Blocking.Start, FecEndToEnd.SendRun, LeftSince, Reaches, LogOf, OutsOf, Inv, Offered;
    Invariant(c, run);
    OfferedFromSender(c, sent, run);
    OfferedIsRun(c, run);
    var st, evs := After(c, true, run), Offered(c, run);
    ReachedIsReleased(c, sent, evs, id, slot);
    if Reaches(c, evs, id, slot) {
      var r :| r in OutsOf(LogOf(st.ledger), id) && r.slot == slot;
      if |sent[Blocking.Start(id, c.k) + slot]| >= MIN_FRAME {
        ReleasedHasLeft(c, st, id, r, sent[Blocking.Start(id, c.k) + slot]);
      }
    }
    if Blocking.Start(id, c.k) + slot < |sent| && LeftSince(st, id, slot, sent[Blocking.Start(id, c.k) + slot]) {
      LeftIsReleased(c, st, id, slot, sent[Blocking.Start(id, c.k) + slot]);
    }
  }
}
