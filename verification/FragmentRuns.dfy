/** Exactly-once reassembly over whole runs: pieces of split frames in any order, duplicated and lost,
    with entries expiring and being pushed out of a full table. */
module FragmentRuns {
  import opened Bytes
  import opened FragmentSpec

  /** What the senders split: frames by fragment id, and the piece size. */
  datatype Senders = Senders(frames: map<nat, Frame>, maxPiece: int)

  function PiecesOf(s: Senders, id: nat): seq<Frame>
    requires id in s.frames
  {
    Pieces(s.frames[id], s.maxPiece)
  }

  /** Senders only split frames into 2 to 255 pieces. */
  ghost predicate SendersValid(s: Senders)
  {
    forall id :: id in s.frames ==> 2 <= |PiecesOf(s, id)| <= 255
  }

  /** Piece idx of frame id arrives at a time; oldest is what the eviction scan would find. */
  datatype Event = Piece(id: nat, idx: nat, now: nat, oldest: nat)

  datatype Log = Log(id: nat, out: Option<Frame>, evicted: set<nat>)

  predicate FromSenders(s: Senders, e: Event)
  {
    e.id in s.frames && e.idx < |PiecesOf(s, e.id)|
  }

  predicate Legal(s: Senders, evs: seq<Event>)
  {
    forall i :: 0 <= i < |evs| ==> FromSenders(s, evs[i])
  }

  function Step(s: Senders, m: Pending, e: Event): (Pending, Log)
    requires PendingValid(m) && FromSenders(s, e)
  {
    var ps := PiecesOf(s, e.id);
    var (m', out) := AddPiece(m, e.id, e.idx, |ps|, ps[e.idx], e.now, e.oldest);
    (m', Log(e.id, out, m.Keys - m'.Keys))
  }

  /** The state and log after a run; every piece comes from a sender. */
  ghost function Run(s: Senders, evs: seq<Event>): (res: (Pending, seq<Log>))
    requires Legal(s, evs)
    ensures PendingValid(res.0)
    ensures |res.1| == |evs|
  {
    if evs == [] then (map[], [])
    else
      var n := |evs| - 1;
      assert FromSenders(s, evs[n]);
      var (m, log) := Run(s, evs[..n]);
      var ps := PiecesOf(s, evs[n].id);
      AddKeepsValid(m, evs[n].id, evs[n].idx, |ps|, ps[evs[n].idx], evs[n].now, evs[n].oldest);
      var (m', l) := Step(s, m, evs[n]);
      (m', log + [l])
  }

  // ---------- the state in terms of what arrived ----------

  /** The pieces of a frame that arrived since its entry was last evicted. */
  ghost function Seen(s: Senders, evs: seq<Event>, id: nat): set<nat>
    requires Legal(s, evs)
  {
    if evs == [] then {}
    else
      var n := |evs| - 1;
      if id in Run(s, evs).1[n].evicted then {}
      else Seen(s, evs[..n], id) + if evs[n].id == id then {evs[n].idx} else {}
  }

  function AllOf(n: nat): (r: set<nat>)
    ensures forall i :: i in r <==> 0 <= i < n
  {
    if n == 0 then {} else AllOf(n - 1) + {n - 1}
  }

  /** The entry holds exactly the pieces seen, or is a tombstone when that is all of them. */
  ghost predicate Holds(p: Partial, ps: seq<Frame>, seen: set<nat>)
  {
    && p.count == |ps|
    && (p.done <==> seen == AllOf(|ps|))
    && (!p.done ==> |p.pieces| == |ps|)
    && (!p.done ==> forall i :: 0 <= i < |ps| ==> p.pieces[i] == if i in seen then Some(ps[i]) else None)
  }

  /** The entry of a frame, or its absence, is determined by the pieces seen. */
  ghost predicate EntryIs(m: Pending, id: nat, ps: seq<Frame>, seen: set<nat>)
  {
    && seen <= AllOf(|ps|)
    && (id in m <==> seen != {})
    && (id in m ==> Holds(m[id], ps, seen))
  }

  lemma {:induction false} ConcatenatedFull(slots: seq<Option<Frame>>, ps: seq<Frame>)
    requires |slots| == |ps| && forall i :: 0 <= i < |ps| ==> slots[i] == Some(ps[i])
    ensures Concatenated(slots) == Joined(ps)
  {
    if ps != [] {
      ConcatenatedFull(slots[..|ps| - 1], ps[..|ps| - 1]);
    }
  }

  /** The last missing piece fills the slots. */
  lemma LastPiece(p: Partial, ps: seq<Frame>, seen: set<nat>, idx: nat)
    requires PartialValid(p) && !p.done && Holds(p, ps, seen) && seen <= AllOf(|ps|) && idx < |ps|
    ensures Take(p, idx, ps[idx]).1.Some? <==> idx !in seen && seen + {idx} == AllOf(|ps|)
    ensures Take(p, idx, ps[idx]).1.Some? <==> Take(p, idx, ps[idx]).0.done
    ensures Take(p, idx, ps[idx]).1.Some? ==> Concatenated(p.pieces[idx := Some(ps[idx])]) == Joined(ps)
  {
    TakeKeepsValid(p, idx, ps[idx]);
    hide Take, PartialValid;
    if idx !in seen && seen + {idx} == AllOf(|ps|) {
      forall i | 0 <= i < |ps| && i != idx
        ensures p.pieces[i].Some?
      {
        assert i in seen + {idx};
      }
    }
    if Take(p, idx, ps[idx]).1.Some? {
      assert forall i :: i in AllOf(|ps|) ==> i in seen + {idx};
      ConcatenatedFull(p.pieces[idx := Some(ps[idx])], ps);
    }
  }

  /** Taking a piece into an open entry. */
  lemma TakeSeen(p: Partial, ps: seq<Frame>, seen: set<nat>, idx: nat)
    requires PartialValid(p) && !p.done && Holds(p, ps, seen) && seen <= AllOf(|ps|) && idx < |ps|
    ensures var (p', out) := Take(p, idx, ps[idx]); var seen' := seen + {idx};
      && Holds(p', ps, seen')
      && out == if seen' == AllOf(|ps|) then Some(Joined(ps)) else None
  {
    hide Concatenated, CountSome, TotalLen;
    LastPiece(p, ps, seen, idx);
    if idx in seen {
      assert seen + {idx} == seen;
    }
  }

  /** The entry a piece of its frame is taken into. */
  function OpenEntry(m: Pending, id: nat, count: nat, now: nat): Partial
  {
    if id in m && m[id].count == count then m[id] else NewPartial(count, now)
  }

  lemma OpenEntrySeen(m: Pending, id: nat, ps: seq<Frame>, seen: set<nat>, now: nat)
    requires PendingValid(m) && EntryIs(m, id, ps, seen) && |ps| >= 2
    requires id in m ==> !m[id].done
    ensures var p := OpenEntry(m, id, |ps|, now);
      PartialValid(p) && !p.done && Holds(p, ps, seen)
  {
    NewPartialShape(|ps|, now);
    NewPartialValid(|ps|, now);
    assert 0 in AllOf(|ps|);
  }

  /** A piece of the frame itself. */
  lemma OwnPiece(s: Senders, m: Pending, e: Event, seen: set<nat>)
    requires SendersValid(s) && PendingValid(m) && FromSenders(s, e)
    requires EntryIs(m, e.id, PiecesOf(s, e.id), seen)
    ensures var (m', l) := Step(s, m, e); var ps := PiecesOf(s, e.id); var seen' := seen + {e.idx};
      && EntryIs(m', e.id, ps, seen')
      && e.id in m'
      && l.out == if seen != AllOf(|ps|) && seen' == AllOf(|ps|) then Some(s.frames[e.id]) else None
  {
    hide PartialValid, Take, Holds, Expired, Pieces, Evicted, AllOf;
    var ps := PiecesOf(s, e.id);
    SplitRoundTrip(s.frames[e.id], s.maxPiece);
    if e.id in m && m[e.id].done {
      assert seen == AllOf(|ps|) by { DoneMeansAll(m[e.id], ps, seen); }
      assert seen + {e.idx} == seen;
    } else {
      OpenEntrySeen(m, e.id, ps, seen, e.now);
      TakeSeen(OpenEntry(m, e.id, |ps|, e.now), ps, seen, e.idx);
      assert seen != AllOf(|ps|) by { DoneMeansAll(OpenEntry(m, e.id, |ps|, e.now), ps, seen); }
    }
  }

  lemma DoneMeansAll(p: Partial, ps: seq<Frame>, seen: set<nat>)
    requires Holds(p, ps, seen)
    ensures p.done <==> seen == AllOf(|ps|)
  {
  }

  /** A piece of frame e.id, seen from the entry of frame id. */
  lemma StepSeen(s: Senders, m: Pending, e: Event, id: nat, seen: set<nat>)
    requires SendersValid(s) && PendingValid(m) && FromSenders(s, e) && id in s.frames
    requires EntryIs(m, id, PiecesOf(s, id), seen)
    ensures var (m', l) := Step(s, m, e); var ps := PiecesOf(s, id);
      var seen' := if id in l.evicted then {} else seen + if e.id == id then {e.idx} else {};
      && EntryIs(m', id, ps, seen')
      && (e.id == id ==> id !in l.evicted)
      && (e.id == id ==> l.out == if seen != AllOf(|ps|) && seen' == AllOf(|ps|) then Some(s.frames[id]) else None)
  {
    if e.id == id {
      OwnPiece(s, m, e, seen);
    } else {
      hide PartialValid, Take, NewPartial, Expired, Pieces, Holds, AllOf;
      var m' := Step(s, m, e).0;
      assert id in m && id in m' ==> m'[id] == m[id];
      assert id !in m ==> id !in m';
      assert seen + {} == seen;
    }
  }

  lemma RunAppend(s: Senders, evs: seq<Event>, e: Event)
    requires Legal(s, evs)
    requires FromSenders(s, e)
    ensures var (m, log) := Run(s, evs);
      Run(s, evs + [e]) == (Step(s, m, e).0, log + [Step(s, m, e).1])
  {
    assert (evs + [e])[..|evs|] == evs;
  }

  lemma {:induction false} RunSeen(s: Senders, evs: seq<Event>, id: nat)
    requires SendersValid(s) && id in s.frames
    requires Legal(s, evs)
    ensures EntryIs(Run(s, evs).0, id, PiecesOf(s, id), Seen(s, evs, id))
  {
    hide Step, PiecesOf, EntryIs;
    if evs == [] {
      EmptyEntry(id, PiecesOf(s, id));
    } else {
      var n := |evs| - 1;
      RunSeen(s, evs[..n], id);
      assert evs == evs[..n] + [evs[n]];
      RunAppend(s, evs[..n], evs[n]);
      StepSeen(s, Run(s, evs[..n]).0, evs[n], id, Seen(s, evs[..n], id));
    }
  }

  lemma EmptyEntry(id: nat, ps: seq<Frame>)
    ensures EntryIs(map[], id, ps, {})
  {
  }

  /** Main theorem. Whatever arrives, an arrival hands out a frame exactly when it is the last piece
      missing since the frame's entry was last evicted, and then it is the frame that was split. */
  lemma ReturnedWhenComplete(s: Senders, evs: seq<Event>)
    requires SendersValid(s) && evs != []
    requires Legal(s, evs)
    ensures var n := |evs| - 1;
      var e := evs[n]; var all := AllOf(|PiecesOf(s, e.id)|);
      && |Run(s, evs).1| == |evs|
      && Run(s, evs).1[n].out ==
           if Seen(s, evs[..n], e.id) != all && Seen(s, evs, e.id) == all then Some(s.frames[e.id]) else None
  {
    hide Step, PiecesOf, EntryIs, Seen;
    var n := |evs| - 1;
    var e := evs[n];
    RunSeen(s, evs[..n], e.id);
    assert evs == evs[..n] + [e];
    RunAppend(s, evs[..n], e);
    StepSeen(s, Run(s, evs[..n]).0, e, e.id, Seen(s, evs[..n], e.id));
    SeenStep(s, evs, e.id);
  }

  lemma SeenStep(s: Senders, evs: seq<Event>, id: nat)
    requires evs != [] && Legal(s, evs)
    ensures var n := |evs| - 1;
      && |Run(s, evs).1| == |evs|
      && Seen(s, evs, id) == if id in Run(s, evs).1[n].evicted then {}
                             else Seen(s, evs[..n], id) + if evs[n].id == id then {evs[n].idx} else {}
  {
    hide Step;
  }

  // ---------- exactly once ----------

  function CountReturned(log: seq<Log>, id: nat): nat
  {
    if log == [] then 0
    else
      var l := log[|log| - 1];
      CountReturned(log[..|log| - 1], id) + if l.id == id && l.out.Some? then 1 else 0
  }

  function CountEvicted(log: seq<Log>, id: nat): nat
  {
    if log == [] then 0
    else CountEvicted(log[..|log| - 1], id) + if id in log[|log| - 1].evicted then 1 else 0
  }

  /** A tombstone is there after a return, so that a second return needs an eviction in between. */
  lemma StepReturns(s: Senders, m: Pending, e: Event, id: nat)
    requires SendersValid(s) && PendingValid(m) && FromSenders(s, e)
    ensures var (m', l) := Step(s, m, e);
      && (l.id == id && l.out.Some? ==> !(id in m && m[id].done) && id in m' && m'[id].done && id !in l.evicted)
      && (id in m && m[id].done && id !in l.evicted ==> id in m' && m'[id].done)
  {
    hide PartialValid, Take, NewPartial, Expired, Pieces;
    var ps := PiecesOf(s, e.id);
    if !(e.id in m && m[e.id].done) {
      var p := if e.id in m && m[e.id].count == |ps| then m[e.id] else NewPartial(|ps|, e.now);
      NewPartialShape(|ps|, e.now);
      NewPartialValid(|ps|, e.now);
      TakeKeepsValid(p, e.idx, ps[e.idx]);
    }
  }

  /** Main theorem. A frame is handed out at most once more than its entry was evicted, so a second
      return needs an eviction in between. */
  lemma {:induction false} ReturnedOncePerLifetime(s: Senders, evs: seq<Event>, id: nat)
    requires SendersValid(s)
    requires Legal(s, evs)
    ensures var (m, log) := Run(s, evs);
      CountReturned(log, id) <= CountEvicted(log, id) + if id in m && m[id].done then 1 else 0
  {
    hide Step;
    if evs != [] {
      var n := |evs| - 1;
      ReturnedOncePerLifetime(s, evs[..n], id);
      assert evs == evs[..n] + [evs[n]];
      RunAppend(s, evs[..n], evs[n]);
      var (m, log) := Run(s, evs[..n]);
      var l := Step(s, m, evs[n]).1;
      assert (log + [l])[..|log|] == log;
      StepReturns(s, m, evs[n], id);
    }
  }

  // ---------- any pieces at all ----------

  /** An arriving piece of any kind, and what the eviction scan would find. */
  datatype Arrived = Arrived(id: nat, idx: nat, count: nat, piece: Frame, now: nat, oldest: nat)

  /** The table after any pieces, of split frames or not. */
  ghost function TableAfter(run: seq<Arrived>): (m: Pending)
    ensures PendingValid(m)
  {
    if run == [] then map[]
    else
      var n := |run| - 1;
      var m, a := TableAfter(run[..n]), run[n];
      AddKeepsValid(m, a.id, a.idx, a.count, a.piece, a.now, a.oldest);
      AddPiece(m, a.id, a.idx, a.count, a.piece, a.now, a.oldest).0
  }

  /** Every eviction scan finds a least created entry. */
  ghost predicate Scanned(run: seq<Arrived>)
  {
    forall n :: 0 <= n < |run| ==> Choice(TableAfter(run[..n]), run[n].now, run[n].oldest)
  }

  /** Whatever arrives, the table stays within its 256 entries, and an entry leaves it only for another id,
      when its time to live is over or, being oldest, from a full table. */
  lemma {:induction false} TableIsBounded(run: seq<Arrived>)
    requires Scanned(run)
    ensures |TableAfter(run)| <= 256
    ensures run != [] ==>
      var n := |run| - 1;
      var m, now := TableAfter(run[..n]), run[n].now;
      forall x :: x in m && x !in TableAfter(run) ==>
        x != run[n].id &&
        (now - m[x].created > 2_000_000_000 ||
         (|Unexpired(m, now)| >= 256 && IsOldest(Unexpired(m, now), x)))
  {
    hide AddPiece, Unexpired, IsOldest, Choice, PendingValid;
    if run != [] {
      var n := |run| - 1;
      assert Scanned(run[..n]) by {
        assert forall i :: 0 <= i < n ==> run[..n][..i] == run[..i] && run[..n][i] == run[i];
      }
      TableIsBounded(run[..n]);
      var m, a := TableAfter(run[..n]), run[n];
      CapacityHolds(m, a.id, a.idx, a.count, a.piece, a.now, a.oldest);
      forall x | x in m && x !in TableAfter(run)
        ensures x != a.id &&
          (a.now - m[x].created > 2_000_000_000 ||
           (|Unexpired(m, a.now)| >= 256 && IsOldest(Unexpired(m, a.now), x)))
      {
        EvictionIsJustified(m, a.id, a.idx, a.count, a.piece, a.now, a.oldest, x);
      }
    }
  }
}
