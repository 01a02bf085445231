/** Reassembly before delivery: the fragment handlers put pieces together outside the lock and forward the
    whole frames under it, among the decoder's results. */
module FragmentDelivery {
  import opened Bytes
  import opened Erasure
  import FecSpec
  import opened Delivery
  import opened FragmentSpec
  import FragmentRuns

  // ---------- whole frames are conserved ----------

  function CountWhole(items: seq<Item>, id: nat): nat
  {
    if items == [] then 0
    else
      var i := items[|items| - 1];
      CountWhole(items[..|items| - 1], id) + if i.Whole? && i.id == id then 1 else 0
  }

  /** The frames of a fragment id that threads were given to forward. */
  ghost function CountGiven(c: Code, run: seq<Move>, id: nat): nat
    requires c.Valid()
  {
    if run == [] then 0
    else
      var n := |run| - 1;
      CountGiven(c, run[..n], id) + if Gives(After(c, true, run[..n]), run[n], id) then 1 else 0
  }

  predicate Gives(st: State, m: Move, id: nat)
  {
    m.Receive? && m.work.Forward? && m.work.id == id && m.t !in st.phases
  }

  predicate Carries(ph: Phase, id: nat)
  {
    !ph.Handing? && ph.work.Forward? && ph.work.id == id
  }

  /** The threads that still have a frame of the fragment id to forward. */
  function Carrying(st: State, id: nat): set<nat>
  {
    set t | t in st.phases && Carries(st.phases[t], id)
  }

  lemma CountWholeSnoc(items: seq<Item>, i: Item, id: nat)
    ensures CountWhole(items + [i], id) == CountWhole(items, id) + if i.Whole? && i.id == id then 1 else 0
  {
    assert (items + [i])[..|items|] == items;
  }

  lemma {:induction false} CountWholeLogged(items: seq<Item>, es: seq<FecSpec.Entry>, id: nat)
    ensures CountWhole(items + Items(es), id) == CountWhole(items, id)
  {
    if es == [] {
      assert items + Items(es) == items;
    } else {
      var n := |es| - 1;
      CountWholeLogged(items, es[..n], id);
      assert items + Items(es) == items + Items(es[..n]) + [Logged(es[n])];
      CountWholeSnoc(items + Items(es[..n]), Logged(es[n]), id);
    }
  }

  /** Who carries a frame after a step: the thread that was given one more, the one that has run one less. */
  lemma CarryingStep(c: Code, st: State, m: Move, id: nat)
    requires c.Valid() && FecSpec.DecValid(c, st.dec)
    ensures var was, now := Carrying(st, id), Carrying(Next(c, true, st, m), id);
      if Gives(st, m, id) then m.t !in was && now == was + {m.t}
      else if m.Run? && m.t in was && st.phases[m.t].Locked? then now == was - {m.t}
      else now == was
  {
    hide FecSpec.Step, FecSpec.DecValid, BlockDone;
  }

  lemma LedgerStep(c: Code, st: State, m: Move, id: nat)
    requires c.Valid() && FecSpec.DecValid(c, st.dec)
    ensures CountWhole(Next(c, true, st, m).ledger, id) == CountWhole(st.ledger, id) +
      if m.Run? && m.t in Carrying(st, id) && st.phases[m.t].Locked? then 1 else 0
  {
    hide FecSpec.Step, FecSpec.DecValid, BlockDone, CountWhole, Items;
    if Enabled(true, st, m) && m.Run? {
      match st.phases[m.t].work
      case Decode(e) => CountWholeLogged(st.ledger, FecSpec.Step(c, st.dec, e).1, id);
      case Forward(x, f) => CountWholeSnoc(st.ledger, Whole(x, f), id);
    }
  }

  /** Every frame given to a thread is in the ledger or still carried. */
  lemma {:induction false} WholeFramesAreConserved(c: Code, run: seq<Move>, id: nat)
    requires c.Valid()
    ensures var st := After(c, true, run);
      CountWhole(st.ledger, id) + |Carrying(st, id)| == CountGiven(c, run, id)
  {
    hide Next, CountWhole, Carrying, Gives, FecSpec.DecValid;
    if run == [] {
      NothingCarried(id);
    } else {
      var n := |run| - 1;
      var st := After(c, true, run[..n]);
      WholeFramesAreConserved(c, run[..n], id);
      CarryingStep(c, st, run[n], id);
      LedgerStep(c, st, run[n], id);
    }
  }

  lemma NothingCarried(id: nat)
    ensures CountWhole(START.ledger, id) == 0 && Carrying(START, id) == {}
  {
  }

  // ---------- with the reassembler ----------

  /** A piece reaches a fragment handler, or any other move is made. */
  datatype Act = Fragment(t: nat, e: FragmentRuns.Event) | Other(m: Move)

  /** Frames are forwarded by the fragment handlers only. */
  predicate Plain(m: Move)
  {
    !(m.Receive? && m.work.Forward?)
  }

  /** What a run amounts to: the pieces the reassembler took, and the moves of the threads, a piece that
      completes a frame giving it to its thread. */
  ghost function Trace(c: Code, s: FragmentRuns.Senders, run: seq<Act>): (r: (seq<FragmentRuns.Event>, seq<Move>))
    requires c.Valid()
    ensures FragmentRuns.Legal(s, r.0)
  {
    if run == [] then ([], [])
    else
      var n := |run| - 1;
      var (evs, moves) := Trace(c, s, run[..n]);
      match run[n]
      case Other(m) => (evs, if Plain(m) then moves + [m] else moves)
      case Fragment(t, e) =>
        if t in After(c, true, moves).phases || !FragmentRuns.FromSenders(s, e) then (evs, moves)
        else
          var l := FragmentRuns.Step(s, FragmentRuns.Run(s, evs).0, e).1;
          (evs + [e], if l.out.Some? then moves + [Receive(t, Forward(e.id, l.out.value))] else moves)
  }

  /** The threads were given what the reassembler returned. */
  ghost predicate GivenIsReturned(c: Code, s: FragmentRuns.Senders, evs: seq<FragmentRuns.Event>, moves: seq<Move>)
    requires c.Valid() && FragmentRuns.Legal(s, evs)
  {
    && (forall id: nat :: CountGiven(c, moves, id) == FragmentRuns.CountReturned(FragmentRuns.Run(s, evs).1, id))
    && (forall m :: m in moves && m.Receive? && m.work.Forward? ==>
          m.work.id in s.frames && m.work.frame == s.frames[m.work.id])
  }

  lemma CountGivenOne(c: Code, moves: seq<Move>, m: Move, id: nat)
    requires c.Valid()
    ensures CountGiven(c, moves + [m], id) ==
      CountGiven(c, moves, id) + if Gives(After(c, true, moves), m, id) then 1 else 0
  {
    assert (moves + [m])[..|moves|] == moves;
  }

  /** A piece taken by a free thread. */
  lemma FragmentGives(c: Code, s: FragmentRuns.Senders, evs: seq<FragmentRuns.Event>, moves: seq<Move>, t: nat,
                      e: FragmentRuns.Event)
    requires c.Valid() && FragmentRuns.SendersValid(s) && FragmentRuns.Legal(s, evs)
    requires GivenIsReturned(c, s, evs, moves)
    requires t !in After(c, true, moves).phases && FragmentRuns.FromSenders(s, e)
    ensures var l := FragmentRuns.Step(s, FragmentRuns.Run(s, evs).0, e).1;
      GivenIsReturned(c, s, evs + [e], if l.out.Some? then moves + [Receive(t, Forward(e.id, l.out.value))] else moves)
  {
    hide FragmentRuns.Step, FragmentRuns.Run, FragmentRuns.Seen, After, CountGiven, FragmentRuns.AllOf;
    var (m, log) := FragmentRuns.Run(s, evs);
    var l := FragmentRuns.Step(s, m, e).1;
    FragmentRuns.RunAppend(s, evs, e);
    FragmentRuns.ReturnedWhenComplete(s, evs + [e]);
    StepIsOf(s, m, e);
    assert (log + [l])[..|log|] == log;
    if l.out.Some? {
      var give := Receive(t, Forward(e.id, l.out.value));
      forall id: nat
        ensures CountGiven(c, moves + [give], id) == CountGiven(c, moves, id) + if id == e.id then 1 else 0
      {
        CountGivenOne(c, moves, give, id);
      }
    }
  }

  lemma StepIsOf(s: FragmentRuns.Senders, m: Pending, e: FragmentRuns.Event)
    requires PendingValid(m) && FragmentRuns.FromSenders(s, e)
    ensures FragmentRuns.Step(s, m, e).1.id == e.id
  {
  }

  lemma PlainGives(c: Code, s: FragmentRuns.Senders, evs: seq<FragmentRuns.Event>, moves: seq<Move>, m: Move)
    requires c.Valid() && FragmentRuns.Legal(s, evs) && GivenIsReturned(c, s, evs, moves) && Plain(m)
    ensures GivenIsReturned(c, s, evs, moves + [m])
  {
    hide FragmentRuns.Run, After, CountGiven;
    forall id: nat
      ensures CountGiven(c, moves + [m], id) == CountGiven(c, moves, id)
    {
      CountGivenOne(c, moves, m, id);
    }
  }

  lemma {:induction false} TraceGives(c: Code, s: FragmentRuns.Senders, run: seq<Act>)
    requires c.Valid() && FragmentRuns.SendersValid(s)
    ensures GivenIsReturned(c, s, Trace(c, s, run).0, Trace(c, s, run).1)
  {
    hide GivenIsReturned, FragmentRuns.Step, FragmentRuns.Run, After, Plain, FragmentRuns.SendersValid;
    if run == [] {
      NothingGiven(c, s);
    } else {
      var n := |run| - 1;
      var (evs, moves) := Trace(c, s, run[..n]);
      TraceGives(c, s, run[..n]);
      match run[n]
      case Other(m) =>
        if Plain(m) {
          PlainGives(c, s, evs, moves, m);
        }
      case Fragment(t, e) =>
        if t !in After(c, true, moves).phases && FragmentRuns.FromSenders(s, e) {
          FragmentGives(c, s, evs, moves, t, e);
        }
    }
  }

  lemma NothingGiven(c: Code, s: FragmentRuns.Senders)
    requires c.Valid()
    ensures GivenIsReturned(c, s, [], [])
  {
  }

  // ---------- main theorems ----------

  /** The whole frames of an output that picks a ledger in order are no more than the ledger's. */
  lemma {:induction false} CountPicked(out: seq<Item>, picks: seq<nat>, ledger: seq<Item>, h: nat, id: nat)
    requires |out| == |picks| && h <= |ledger|
    requires forall i :: 0 <= i < |out| ==> picks[i] < h && out[i] == ledger[picks[i]]
    requires forall i, j :: 0 <= i < j < |out| ==> picks[i] < picks[j]
    ensures CountWhole(out, id) <= CountWhole(ledger[..h], id)
  {
    if out != [] {
      var n := |out| - 1;
      var p := picks[n];
      CountPicked(out[..n], picks[..n], ledger, p, id);
      assert ledger[..p + 1] == ledger[..p] + [ledger[p]];
      CountWholeSnoc(ledger[..p], ledger[p], id);
      CountWholePrefix(ledger, p + 1, h, id);
    }
  }

  lemma {:induction false} CountWholePrefix(ledger: seq<Item>, a: nat, b: nat, id: nat)
    requires a <= b <= |ledger|
    ensures CountWhole(ledger[..a], id) <= CountWhole(ledger[..b], id)
  {
    if a < b {
      assert ledger[..b][..b - 1] == ledger[..b - 1];
      CountWholePrefix(ledger, a, b - 1, id);
    }
  }

  lemma {:induction false} CountKept(ledger: seq<Item>, id: nat)
    requires forall i :: i in ledger && i.Whole? && i.id == id ==> Deliverable(i)
    ensures CountWhole(Keep(ledger), id) == CountWhole(ledger, id)
  {
    if ledger != [] {
      var n := |ledger| - 1;
      assert ledger == ledger[..n] + [ledger[n]];
      CountKept(ledger[..n], id);
      if Deliverable(ledger[n]) {
        CountWholeSnoc(Keep(ledger[..n]), ledger[n], id);
      } else {
        assert Keep(ledger[..n]) + [] == Keep(ledger[..n]);
      }
    }
  }

  /** Main theorem. Among everything else that leaves, in every interleaving and with pieces lost, repeated
      and reordered: each whole frame in the output is the one its sender split, long enough for a header,
      and it leaves at most once more than its reassembly entry was evicted. */
  lemma WholeFramesWereSent(c: Code, s: FragmentRuns.Senders, run: seq<Act>, id: nat)
    requires c.Valid() && FragmentRuns.SendersValid(s)
    ensures var (evs, moves) := Trace(c, s, run); var out := After(c, true, moves).out;
      && (forall i :: i in out && i.Whole? ==>
            i.id in s.frames && i.frame == s.frames[i.id] && |i.frame| >= 14)
      && CountWhole(out, id) <= FragmentRuns.CountEvicted(FragmentRuns.Run(s, evs).1, id) + 1
  {
    hide After, FragmentRuns.Run, Trace, CountGiven, FecSpec.Run, Keep, LogOf, CountWhole;
    var (evs, moves) := Trace(c, s, run);
    var st := After(c, true, moves);
    TraceGives(c, s, run);
    Invariant(c, moves);
    RunReceived(c, moves);
    forall i | i in st.out && i.Whole?
      ensures i.id in s.frames && i.frame == s.frames[i.id] && |i.frame| >= 14
    {
      var j :| 0 <= j < |st.out| && st.out[j] == i;
      assert st.ledger[st.picks[j]] == i && Deliverable(i);
      assert WasReceived(moves, Forward(i.id, i.frame));
    }
    WholeFramesAreConserved(c, moves, id);
    CountPicked(st.out, st.picks, st.ledger, |st.ledger|, id);
    assert st.ledger[..|st.ledger|] == st.ledger;
    FragmentRuns.ReturnedOncePerLifetime(s, evs, id);
  }

  /** And none is lost: when every thread is done and the session is not ending, a frame long enough for a
      header has left exactly as often as the reassembler returned it. */
  lemma WholeFramesAllLeave(c: Code, s: FragmentRuns.Senders, run: seq<Act>, id: nat)
    requires c.Valid() && FragmentRuns.SendersValid(s) && id in s.frames && |s.frames[id]| >= 14
    requires var st := After(c, true, Trace(c, s, run).1); !st.closing && st.phases == map[]
    ensures var (evs, moves) := Trace(c, s, run);
      CountWhole(After(c, true, moves).out, id) == FragmentRuns.CountReturned(FragmentRuns.Run(s, evs).1, id)
  {
    hide After, FragmentRuns.Run, Trace, CountGiven, FecSpec.Run, Keep, LogOf, CountWhole;
    var (evs, moves) := Trace(c, s, run);
    var st := After(c, true, moves);
    TraceGives(c, s, run);
    RunReceived(c, moves);
    OutputIsLockOrder(c, moves);
    Invariant(c, moves);
    Idle(c, st);
    WholeFramesAreConserved(c, moves, id);
    assert Carrying(st, id) == {};
    forall i | i in st.ledger && i.Whole? && i.id == id
      ensures Deliverable(i)
    {
      assert WasReceived(moves, Forward(i.id, i.frame));
    }
    CountKept(st.ledger, id);
  }

  /** With no thread at work nobody holds the lock. */
  lemma Idle(c: Code, st: State)
    requires c.Valid() && Inv(c, st) && st.phases == map[]
    ensures st.holder.None?
  {
    var t := if st.holder.Some? then st.holder.value else 0;
    assert !Critical(st, t);
  }
}
