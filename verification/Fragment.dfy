/** Split and the Reassembler as they are: records updated in place in a table that evicts, proved
    against the reassembly on values of module FragmentSpec. */
module Fragment {
  import opened Bytes
  import opened FragmentSpec

  /** The pieces still to come at an offset. */
  function PiecesFrom(frame: Frame, off: nat, maxPiece: int): seq<Frame>
  {
    if off < |frame| then Pieces(frame[off..], maxPiece) else []
  }

  lemma Regroup(a: seq<Frame>, x: Frame, b: seq<Frame>)
    ensures a + [x] + b == a + ([x] + b)
  {
  }

  lemma PiecesStep(frame: Frame, off: nat, maxPiece: nat, before: seq<Frame>)
    requires off < |frame| && maxPiece > 0
    ensures var end := if off + maxPiece > |frame| then |frame| else off + maxPiece;
      before + [frame[off..end]] + PiecesFrom(frame, end, maxPiece) == before + PiecesFrom(frame, off, maxPiece)
  {
    var rest := frame[off..];
    var end := if off + maxPiece > |frame| then |frame| else off + maxPiece;
    if off + maxPiece < |frame| {
      assert rest[..maxPiece] == frame[off..off + maxPiece];
      assert rest[maxPiece..] == frame[off + maxPiece..];
    } else {
      assert frame[off..|frame|] == rest;
    }
    assert PiecesFrom(frame, off, maxPiece) == [frame[off..end]] + PiecesFrom(frame, end, maxPiece);
    Regroup(before, frame[off..end], PiecesFrom(frame, end, maxPiece));
  }

  /** Split. */
  method Split(frame: Frame, maxPiece: int) returns (pieces: seq<Frame>)
    ensures pieces == Pieces(frame, maxPiece)
  {
    if maxPiece <= 0 || |frame| <= maxPiece {
      return [frame];
    }
    pieces := [];
    var off := 0;
    assert frame[0..] == frame;
    while off < |frame|
      invariant 0 <= off <= |frame|
      invariant pieces + PiecesFrom(frame, off, maxPiece) == Pieces(frame, maxPiece)
    {
      var end := off + maxPiece;
      if end > |frame| {
        end := |frame|;
      }
      PiecesStep(frame, off, maxPiece, pieces);
      pieces := pieces + [frame[off..end]];
      off := end;
    }
  }

  /** The concatenation loop of Add. */
  method Concatenate(pieces: seq<Option<Frame>>) returns (whole: Frame)
    ensures whole == Concatenated(pieces)
  {
    whole := [];
    for i := 0 to |pieces|
      invariant whole == Concatenated(pieces[..i])
    {
      assert pieces[..i + 1][..i] == pieces[..i];
      if pieces[i].Some? {
        whole := whole + pieces[i].value;
      }
    }
    assert pieces[..|pieces|] == pieces;
  }

  class Record {
    var pieces: seq<Option<Frame>>
    var count: nat
    var got: nat
    var total: nat
    var created: nat
    var done: bool

    ghost function View(): Partial
      reads this
    {
      Partial(pieces, count, got, total, created, done)
    }

    constructor (count: nat, now: nat)
      ensures View() == NewPartial(count, now)
    {
      pieces := seq(count, i => None);
      this.count, got, total, created, done := count, 0, 0, now, false;
    }

    /** The tail of Add: record the piece and, when it was the last, concatenate and bury. */
    method Accept(idx: nat, piece: Frame) returns (out: Option<Frame>)
      requires idx < |pieces|
      modifies this
      ensures (View(), out) == Take(old(View()), idx, piece)
    {
      if pieces[idx].Some? {
        return None;
      }
      pieces := pieces[idx := Some(piece)];
      got := got + 1;
      total := total + |piece|;
      if got < count {
        return None;
      }
      var whole := Concatenate(pieces);
      done := true;
      pieces := [];
      out := Some(whole);
    }
  }

  class Reassembler {
    var pending: map<nat, Record>
    ghost var Repr: set<Record>

    /** No two fragment ids share a record. */
    ghost predicate Valid()
      reads this, Repr
    {
      && (forall id :: id in pending ==> pending[id] in Repr && PartialValid(pending[id].View()))
      && (forall id, id' :: id in pending && id' in pending && id != id' ==> pending[id] != pending[id'])
    }

    ghost function View(): Pending
      requires Valid()
      reads this, Repr
    {
      map id | id in pending :: pending[id].View()
    }

    lemma Shape()
      requires Valid()
      ensures View().Keys == pending.Keys && PendingValid(View())
      ensures forall id :: id in pending ==> View()[id] == pending[id].View()
    {
    }

    lemma Size()
      requires Valid()
      ensures |View()| == |pending|
    {
      hide PartialValid;
      assert View().Keys == pending.Keys;
      assert |View().Keys| == |View()| && |pending.Keys| == |pending|;
    }

    constructor ()
      ensures Valid() && fresh(Repr) && View() == map[]
    {
      pending, Repr := map[], {};
    }

    /** One delete of a set of ids. */
    method Remove(ids: set<nat>)
      requires Valid()
      modifies this`pending
      ensures Valid() && View() == old(View()) - ids
    {
      hide PartialValid;
      ghost var was := View();
      pending := pending - ids;
      assert View() == was - ids;
    }

    /** The first loop of evictLocked. */
    method DropExpired(now: nat)
      requires Valid()
      modifies this`pending
      ensures Valid() && View() == Unexpired(old(View()), now)
    {
      hide PartialValid, Valid;
      ghost var was := View();
      Shape();
      var rest := pending.Keys;
      while rest != {}
        invariant Valid() && Repr == old(Repr)
        invariant rest <= was.Keys
        invariant View() == KeptBut(was, rest, now)
        decreases rest
      {
        var id :| id in rest;
        Shape();
        KeptStep(was, rest, id, now);
        if now - pending[id].created > REASSEMBLY_TTL {
          Remove({id});
        }
        rest := rest - {id};
      }
      assert KeptBut(was, {}, now) == Unexpired(was, now);
    }

    /** The second loop of evictLocked: an entry with the least creation time. */
    method FindOldest() returns (oldest: nat)
      requires Valid() && |pending| > 0
      ensures IsOldest(View(), oldest)
    {
      hide PartialValid, Valid;
      Shape();
      var rest := pending.Keys;
      assert |pending.Keys| == |pending|;
      oldest :| oldest in rest;
      rest := rest - {oldest};
      while rest != {}
        invariant oldest in pending && rest <= pending.Keys
        invariant forall x :: x in pending && x !in rest ==> pending[oldest].created <= pending[x].created
        decreases rest
      {
        var id :| id in rest;
        if pending[id].created < pending[oldest].created {
          oldest := id;
        }
        rest := rest - {id};
      }
    }

    /** evictLocked. */
    method Evict(now: nat) returns (ghost oldest: nat)
      requires Valid()
      modifies this`pending
      ensures Valid()
      ensures Choice(old(View()), now, oldest)
      ensures View() == Evicted(old(View()), now, oldest)
    {
      hide PartialValid, PendingValid, Valid, Unexpired, IsOldest, Choice, Evicted;
      ghost var was := View();
      oldest := 0;
      DropExpired(now);
      Size();
      ghost var kept := View();
      if |pending| >= MAX_PENDING {
        var id := FindOldest();
        oldest := id;
        Remove({id});
      }
      EvictedIs(was, now, oldest, kept);
    }

    /** Putting a new record into the table. */
    method Insert(id: nat, count: nat, now: nat) returns (p: Record)
      requires Valid() && count >= 2
      modifies this`pending, this`Repr
      ensures Valid() && fresh(Repr - old(Repr))
      ensures id in pending && pending[id] == p && p in Repr && p.View() == NewPartial(count, now)
      ensures View() == old(View())[id := NewPartial(count, now)]
    {
      hide PartialValid, NewPartial, Valid;
      p := new Record(count, now);
      NewPartialValid(count, now);
      Repr := Repr + {p};
      pending := pending[id := p];
      Inserted(id, p);
    }

    twostate lemma Inserted(id: nat, new p: Record)
      requires old(Valid()) && fresh(p) && PartialValid(p.View())
      requires pending == old(pending)[id := p] && Repr == old(Repr) + {p}
      requires forall x :: x in old(Repr) ==> x.View() == old(x.View())
      ensures Valid() && View() == old(View())[id := p.View()]
    {
      hide PartialValid;
      assert View() == old(View())[id := p.View()];
    }

    twostate lemma RecordUpdated(id: nat, new p: Record)
      requires old(Valid()) && old(allocated(p)) && id in pending && pending[id] == p
      requires pending == old(pending) && Repr == old(Repr)
      requires forall x :: x in old(Repr) && x != p ==> x.View() == old(x.View())
      requires PartialValid(p.View())
      ensures Valid() && View() == old(View())[id := p.View()]
    {
      hide PartialValid;
      assert View() == old(View())[id := p.View()];
    }

    /** The record an arriving piece goes into. */
    method Entry(id: nat, count: nat, now: nat) returns (p: Record, ghost oldest: nat)
      requires Valid() && count >= 2
      requires id in pending ==> !pending[id].done
      modifies this`pending, this`Repr
      ensures Valid() && fresh(Repr - old(Repr))
      ensures Choice(old(View()), now, oldest)
      ensures id in pending && pending[id] == p && p in Repr
      ensures var was := old(View());
        p.View() == if id in was && was[id].count == count then was[id] else NewPartial(count, now)
      ensures View() == (if id in old(View()) then old(View()) else Evicted(old(View()), now, oldest))[id := p.View()]
    {
      hide PartialValid, Valid, NewPartial, Evicted, Choice;
      ghost var was := View();
      Shape();
      oldest := ChoiceExists(was, now);
      if id !in pending {
        oldest := Evict(now);
        p := Insert(id, count, now);
      } else if pending[id].count != count {
        p := Insert(id, count, now);
      } else {
        p := pending[id];
        assert p in Repr by { Owned(id); }
        assert was[id := p.View()] == was;
      }
    }

    lemma Owned(id: nat)
      requires Valid() && id in pending
      ensures pending[id] in Repr && PartialValid(pending[id].View())
    {
    }

    /** Reassembler.Add. */
    method Add(id: nat, idx: nat, count: nat, piece: Frame, now: nat) returns (out: Option<Frame>, ghost oldest: nat)
      requires Valid()
      modifies this, Repr
      ensures Valid() && fresh(Repr - old(Repr))
      ensures PendingValid(old(View()))
      ensures Choice(old(View()), now, oldest)
      ensures (View(), out) == AddPiece(old(View()), id, idx, count, piece, now, oldest)
    {
      hide PartialValid, Valid, NewPartial, Evicted, Choice, Take;
      ghost var was := View();
      Shape();
      oldest := ChoiceExists(was, now);
      if count == 0 || idx >= count {
        return None, oldest;
      }
      if count == 1 {
        return Some(piece), oldest;
      }
      if id in pending && pending[id].done {
        return None, oldest;
      }
      var p;
      p, oldest := Entry(id, count, now);
      Owned(id);
      assert |p.pieces| == count && !p.done && p.count == count by { OpenRecord(p.View(), was, id, count, now); }
      ghost var v := p.View();
      label L:
      out := p.Accept(idx, piece);
      TakeKeepsValid(v, idx, piece);
      RecordUpdated@L(id, p);
      ghost var base: Pending := if id in was then was else Evicted(was, now, oldest);
      assert base[id := v][id := p.View()] == base[id := p.View()];
    }
  }

  lemma OpenRecord(p: Partial, m: Pending, id: nat, count: nat, now: nat)
    requires PendingValid(m) && PartialValid(p) && count >= 2
    requires id in m ==> !m[id].done
    requires p == if id in m && m[id].count == count then m[id] else NewPartial(count, now)
    ensures |p.pieces| == count && !p.done && p.count == count
  {
  }

  lemma EvictedIs(m: Pending, now: nat, oldest: nat, kept: Pending)
    requires kept == Unexpired(m, now) && (|kept| >= MAX_PENDING ==> IsOldest(kept, oldest))
    ensures Choice(m, now, oldest)
    ensures Evicted(m, now, oldest) == if |kept| < MAX_PENDING then kept else kept - {oldest}
  {
  }

  /** The table of the first eviction loop while the ids in rest have not been looked at. */
  function KeptBut(m: Pending, rest: set<nat>, now: nat): Pending
  {
    map id | id in m && (id in rest || !Expired(m[id], now)) :: m[id]
  }

  lemma KeptStep(m: Pending, rest: set<nat>, id: nat, now: nat)
    requires id in rest && id in m
    ensures id in KeptBut(m, rest, now) && KeptBut(m, rest, now)[id] == m[id]
    ensures KeptBut(m, rest - {id}, now) ==
      if Expired(m[id], now) then KeptBut(m, rest, now) - {id} else KeptBut(m, rest, now)
  {
  }

  /** Some entry is oldest whenever the scan needs one. */
  lemma ChoiceExists(m: Pending, now: nat) returns (oldest: nat)
    ensures Choice(m, now, oldest)
  {
    oldest := 0;
    var kept := Unexpired(m, now);
    if |kept| >= MAX_PENDING {
      assert |kept.Keys| == |kept|;
      oldest := OldestIn(kept, kept.Keys);
    }
  }

  lemma OldestIn(m: Pending, ids: set<nat>) returns (oldest: nat)
    requires ids <= m.Keys && ids != {}
    ensures oldest in ids && forall x :: x in ids ==> m[oldest].created <= m[x].created
    decreases ids
  {
    var id :| id in ids;
    oldest := id;
    if ids != {id} {
      var other := OldestIn(m, ids - {id});
      if m[other].created < m[id].created {
        oldest := other;
      }
      assert forall x :: x in ids ==> x == id || x in ids - {id};
    }
  }
}
