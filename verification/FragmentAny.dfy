/** Reassembly of any pieces at all, well-formed or not, in terms of the pieces that came: what each entry
    holds and since when, what each arrival returns, and exactly which entries are evicted. */
module FragmentAny {
  import opened Bytes
  import opened FragmentSpec
  import opened FragmentRuns

  /** The first piece with an index. */
  function FirstOf(lot: seq<Arrived>, idx: nat): Option<Frame>
  {
    if lot == [] then None
    else
      var before, a := FirstOf(lot[..|lot| - 1], idx), lot[|lot| - 1];
      if before.None? && a.idx == idx then Some(a.piece) else before
  }

  /** All indices of the frame have come. */
  predicate Covers(lot: seq<Arrived>)
  {
    lot != [] && HasFirst(lot, lot[0].count)
  }

  predicate HasFirst(lot: seq<Arrived>, n: nat)
  {
    forall i :: 0 <= i < n ==> FirstOf(lot, i).Some?
  }

  /** Slots that hold the first pieces. */
  predicate SlotsAre(slots: seq<Option<Frame>>, lot: seq<Arrived>)
  {
    forall i :: 0 <= i < |slots| ==> slots[i] == FirstOf(lot, i)
  }

  /** One of two or more pieces. */
  predicate Proper(a: Arrived)
  {
    a.count >= 2 && a.idx < a.count
  }

  /** The pieces an entry was made of: those of its fragment id since it was evicted, since their number last
      changed, and until they were all there. */
  ghost function Lot(run: seq<Arrived>, id: nat): (lot: seq<Arrived>)
    ensures forall a :: a in lot ==> a in run
  {
    if run == [] then []
    else
      var n := |run| - 1;
      var a, lot := run[n], Lot(run[..n], id);
      assert forall x :: x in lot ==> x in run[..n] ==> x in run;
      if a.id == id && Proper(a) then
        if Covers(lot) then lot
        else if lot != [] && lot[0].count == a.count then lot + [a]
        else [a]
      else if id in TableAfter(run) then lot else []
  }

  /** An entry, or its absence, in terms of its pieces. */
  ghost predicate EntryOf(m: Pending, id: nat, lot: seq<Arrived>)
  {
    && (id in m <==> lot != [])
    && (forall j :: 0 <= j < |lot| ==> Proper(lot[j]) && lot[j].count == lot[0].count)
    && (id in m ==>
          && PartialValid(m[id])
          && m[id].count == lot[0].count && m[id].created == lot[0].now && (m[id].done <==> Covers(lot))
          && (!m[id].done ==> SlotsAre(m[id].pieces, lot)))
  }

  lemma FirstOfAppend(lot: seq<Arrived>, a: Arrived, idx: nat)
    ensures FirstOf(lot + [a], idx) ==
      if FirstOf(lot, idx).None? && a.idx == idx then Some(a.piece) else FirstOf(lot, idx)
  {
    assert (lot + [a])[..|lot|] == lot;
  }

  /** The first pieces of a lot with all indices below n, joined. */
  function FirstsJoined(lot: seq<Arrived>, n: nat): Frame
  {
    if n == 0 then []
    else FirstsJoined(lot, n - 1) + if FirstOf(lot, n - 1).Some? then FirstOf(lot, n - 1).value else []
  }

  lemma {:induction false} JoinedIs(slots: seq<Option<Frame>>, lot: seq<Arrived>)
    requires SlotsAre(slots, lot)
    ensures Concatenated(slots) == FirstsJoined(lot, |slots|)
  {
    if slots != [] {
      var n := |slots| - 1;
      assert forall i :: 0 <= i < n ==> slots[..n][i] == slots[i];
      JoinedIs(slots[..n], lot);
    }
  }

  lemma SlotsNext(slots: seq<Option<Frame>>, lot: seq<Arrived>, a: Arrived)
    requires SlotsAre(slots, lot) && a.idx < |slots|
    ensures SlotsAre(if slots[a.idx].Some? then slots else slots[a.idx := Some(a.piece)], lot + [a])
  {
    hide FirstOf;
    forall i: nat | i < |slots|
      ensures FirstOf(lot + [a], i) == if i == a.idx && slots[i].None? then Some(a.piece) else slots[i]
    {
      FirstOfAppend(lot, a, i);
    }
  }

  lemma SlotsFull(slots: seq<Option<Frame>>, lot: seq<Arrived>)
    requires SlotsAre(slots, lot)
    ensures CountSome(slots) == |slots| <==> HasFirst(lot, |slots|)
    ensures CountSome(slots) <= |slots|
  {
    hide FirstOf, CountSome;
    CountSomeFull(slots);
    assert forall i :: 0 <= i < |slots| ==> slots[i] == FirstOf(lot, i);
  }

  /** An open entry and its lot, which is empty when the entry is new. */
  ghost predicate OpenHas(p: Partial, lot: seq<Arrived>, count: nat)
  {
    && PartialValid(p) && !p.done && p.count == count && SlotsAre(p.pieces, lot)
    && (forall j :: 0 <= j < |lot| ==> Proper(lot[j]) && lot[j].count == count)
  }

  /** A piece taken into an open entry. */
  lemma TakeIs(p: Partial, lot: seq<Arrived>, a: Arrived)
    requires PartialValid(p) && !p.done && a.idx < p.count && SlotsAre(p.pieces, lot)
    ensures var (p', out) := Take(p, a.idx, a.piece); var all := lot + [a];
      && PartialValid(p') && p'.count == p.count && p'.created == p.created && (p'.done <==> HasFirst(all, p.count))
      && (!p'.done ==> SlotsAre(p'.pieces, all))
      && out == if HasFirst(all, p.count) then Some(FirstsJoined(all, p.count)) else None
  {
    hide CountSome, TotalLen, FirstsJoined, SlotsAre, HasFirst, Concatenated;
    TakeKeepsValid(p, a.idx, a.piece);
    SlotsNext(p.pieces, lot, a);
    var slots := if p.pieces[a.idx].Some? then p.pieces else p.pieces[a.idx := Some(a.piece)];
    SlotsFull(slots, lot + [a]);
    JoinedIs(slots, lot + [a]);
    if p.pieces[a.idx].None? {
      SetPiece(p.pieces, a.idx, a.piece);
    }
  }

  /** What an arrival does, in terms of the lots. */
  ghost predicate ArrivesAs(m: Pending, lot: seq<Arrived>, a: Arrived)
    requires PendingValid(m)
  {
    var (m', out) := AddPiece(m, a.id, a.idx, a.count, a.piece, a.now, a.oldest);
    if !Proper(a) then m' == m && out == (if a.count == 1 && a.idx == 0 then Some(a.piece) else None)
    else if Covers(lot) then m' == m && out == None
    else
      var lot' := if lot != [] && lot[0].count == a.count then lot + [a] else [a];
      EntryOf(m', a.id, lot') && out == if Covers(lot') then Some(FirstsJoined(lot', a.count)) else None
  }

  lemma PiecesOfOpen(p: Partial)
    requires PartialValid(p) && !p.done
    ensures |p.pieces| == p.count
  {
  }

  lemma LotGrows(lot: seq<Arrived>, a: Arrived)
    requires Proper(a) && forall j :: 0 <= j < |lot| ==> Proper(lot[j]) && lot[j].count == a.count
    ensures var all := lot + [a];
      && (forall j :: 0 <= j < |all| ==> Proper(all[j]) && all[j].count == a.count)
      && all[0] == (if lot == [] then a else lot[0])
      && (Covers(all) <==> HasFirst(all, a.count))
  {
  }

  /** A proper piece is taken into an open entry. */
  lemma TakenInto(m: Pending, p: Partial, lot: seq<Arrived>, a: Arrived)
    requires OpenHas(p, lot, a.count) && Proper(a) && p.created == (if lot == [] then a.now else lot[0].now)
    ensures var (p', out) := Take(p, a.idx, a.piece);
      && EntryOf(m[a.id := p'], a.id, lot + [a])
      && out == if Covers(lot + [a]) then Some(FirstsJoined(lot + [a], a.count)) else None
  {
    PiecesOfOpen(p);
    hide Take, PartialValid, FirstsJoined, SlotsAre, Covers;
    TakeIs(p, lot, a);
    LotGrows(lot, a);
    hide Proper, HasFirst;
  }

  lemma OwnArrival(m: Pending, lot: seq<Arrived>, a: Arrived)
    requires PendingValid(m) && EntryOf(m, a.id, lot)
    ensures ArrivesAs(m, lot, a)
  {
    hide Take, NewPartial, PartialValid, FirstsJoined, Evicted, HasFirst, SlotsAre;
    if Proper(a) && !Covers(lot) {
      var m1 := if a.id in m then m else Evicted(m, a.now, a.oldest);
      if lot != [] && lot[0].count == a.count {
        TakenInto(m1, m[a.id], lot, a);
      } else {
        NewIsOpen(a.count, a.now);
        TakenInto(m1, NewPartial(a.count, a.now), [], a);
        assert [] + [a] == [a];
      }
    }
  }

  lemma NewIsOpen(count: nat, now: nat)
    requires count >= 2
    ensures OpenHas(NewPartial(count, now), [], count) && NewPartial(count, now).created == now
  {
    NewPartialValid(count, now);
  }

  /** A piece leaves the entries of other ids as they are, or evicts them. */
  lemma OtherArrival(m: Pending, id: nat, lot: seq<Arrived>, a: Arrived)
    requires PendingValid(m) && EntryOf(m, id, lot) && !(a.id == id && Proper(a))
    ensures var m' := AddPiece(m, a.id, a.idx, a.count, a.piece, a.now, a.oldest).0;
      EntryOf(m', id, if id in m' then lot else [])
  {
    hide Take, NewPartial, PartialValid, Expired, Covers, SlotsAre;
  }

  /** Main theorem. After any pieces, in any order and number and with whatever indices and counts, the entry
      of a fragment id is there exactly while it has pieces; it has their count, the time of the first of them
      and the first piece of each index, and it is a tombstone exactly when all have come. */
  lemma {:induction false} EntriesAre(run: seq<Arrived>, id: nat)
    ensures EntryOf(TableAfter(run), id, Lot(run, id))
  {
    hide EntryOf, AddPiece, Covers, PendingValid;
    if run == [] {
      NoEntry(id);
    } else {
      var n := |run| - 1;
      var m, lot, a := TableAfter(run[..n]), Lot(run[..n], id), run[n];
      EntriesAre(run[..n], id);
      if a.id == id && Proper(a) {
        OwnArrival(m, lot, a);
        OwnEntry(m, lot, a);
      } else {
        OtherArrival(m, id, lot, a);
      }
    }
  }

  lemma NoEntry(id: nat)
    ensures EntryOf(map[], id, [])
  {
  }

  lemma OwnEntry(m: Pending, lot: seq<Arrived>, a: Arrived)
    requires PendingValid(m) && EntryOf(m, a.id, lot) && ArrivesAs(m, lot, a) && Proper(a)
    ensures EntryOf(AddPiece(m, a.id, a.idx, a.count, a.piece, a.now, a.oldest).0, a.id,
      if Covers(lot) then lot else if lot != [] && lot[0].count == a.count then lot + [a] else [a])
  {
    hide EntryOf, AddPiece, Covers;
  }

  /** Main theorem. What any piece returns, exactly: nothing if its index is not below its count; itself if it
      is the only one; otherwise the first pieces of all indices joined when it is the one that completes its
      lot, and nothing before or after that. */
  lemma AnyPieceExactly(run: seq<Arrived>, a: Arrived)
    ensures var out := AddPiece(TableAfter(run), a.id, a.idx, a.count, a.piece, a.now, a.oldest).1;
      var before, after := Lot(run, a.id), Lot(run + [a], a.id);
      out == if a.idx >= a.count then None
             else if a.count == 1 then Some(a.piece)
             else if !Covers(before) && Covers(after) then Some(FirstsJoined(after, a.count))
             else None
  {
    hide EntryOf, AddPiece, FirstsJoined;
    var m, lot := TableAfter(run), Lot(run, a.id);
    assert (run + [a])[..|run|] == run;
    EntriesAre(run, a.id);
    OwnArrival(m, lot, a);
  }

  /** The entries whose first piece came two seconds ago or later. */
  ghost function Live(run: seq<Arrived>, now: nat): (ids: set<nat>)
  {
    set id | id in TableAfter(run) && |Lot(run, id)| > 0 && now - Lot(run, id)[0].now <= 2_000_000_000
  }

  lemma LiveIs(run: seq<Arrived>, now: nat)
    ensures Live(run, now) == Unexpired(TableAfter(run), now).Keys
    ensures |Live(run, now)| == |Unexpired(TableAfter(run), now)|
  {
    forall id | id in TableAfter(run)
      ensures |Lot(run, id)| > 0 && Lot(run, id)[0].now == TableAfter(run)[id].created
    {
      EntriesAre(run, id);
    }
    hide Lot, TableAfter;
    assert Live(run, now) == Unexpired(TableAfter(run), now).Keys;
    var kept := Unexpired(TableAfter(run), now);
    assert |kept.Keys| == |kept|;
  }

  /** Main theorem. Evictions, exactly: an entry leaves the table when a piece of two or more comes for an id
      that has none, and then if its own first piece came more than two seconds ago or, with 256 younger ones
      in the table, it is the one found oldest of them; so every entry over its time to live goes. */
  lemma EvictedIff(run: seq<Arrived>, a: Arrived, x: nat)
    requires x in TableAfter(run)
    ensures |Lot(run, x)| > 0
    ensures x !in TableAfter(run + [a]) <==>
      && a.count >= 2 && a.idx < a.count && a.id !in TableAfter(run)
      && (a.now - Lot(run, x)[0].now > 2_000_000_000 || (|Live(run, a.now)| >= 256 && x == a.oldest))
  {
    hide Lot, Live, Take, NewPartial, PartialValid;
    var m := TableAfter(run);
    assert (run + [a])[..|run|] == run;
    EntriesAre(run, x);
    LiveIs(run, a.now);
  }

  /** What the eviction scan may find oldest, by the pieces: an entry of the live ones that no other's first
      piece is older than. */
  lemma OldestIs(run: seq<Arrived>, a: Arrived)
    requires Choice(TableAfter(run), a.now, a.oldest) && |Live(run, a.now)| >= 256
    ensures a.oldest in Live(run, a.now)
    ensures forall y :: y in Live(run, a.now) ==>
      |Lot(run, y)| > 0 && |Lot(run, a.oldest)| > 0 && Lot(run, a.oldest)[0].now <= Lot(run, y)[0].now
  {
    hide Lot, TableAfter;
    LiveIs(run, a.now);
    forall y | y in Live(run, a.now)
      ensures |Lot(run, y)| > 0 && Lot(run, y)[0].now == TableAfter(run)[y].created
    {
      EntriesAre(run, y);
    }
  }
}
