/** Splitting oversized frames and putting them together again, on values: one arriving piece, one
    eviction, and what whole runs of pieces return. */
module FragmentSpec {
  import opened Blocking
  import opened Bytes

  const REASSEMBLY_TTL := 2_000_000_000 // nanoseconds
  const MAX_PENDING := 256

  // ---------- splitting ----------

  /** Split: consecutive pieces of at most maxPiece bytes; a frame that fits is one piece. */
  function Pieces(frame: Frame, maxPiece: int): (ps: seq<Frame>)
    ensures |ps| >= 1
    decreases |frame|
  {
    if maxPiece <= 0 || |frame| <= maxPiece then [frame]
    else [frame[..maxPiece]] + Pieces(frame[maxPiece..], maxPiece)
  }

  function Joined(ps: seq<Frame>): Frame
  {
    if ps == [] then [] else Joined(ps[..|ps| - 1]) + ps[|ps| - 1]
  }

  lemma {:induction false} JoinedCons(p: Frame, ps: seq<Frame>)
    ensures Joined([p] + ps) == p + Joined(ps)
  {
    var all := [p] + ps;
    if ps == [] {
      assert all[..0] == [];
    } else {
      var n := |ps| - 1;
      assert all[..|all| - 1] == [p] + ps[..n];
      JoinedCons(p, ps[..n]);
    }
  }

  /** Joining the pieces gives the frame back. */
  lemma {:induction false} SplitRoundTrip(frame: Frame, maxPiece: int)
    ensures Joined(Pieces(frame, maxPiece)) == frame
    decreases |frame|
  {
    if maxPiece <= 0 || |frame| <= maxPiece {
      var one := [frame];
      assert one[..0] == [];
    } else {
      SplitRoundTrip(frame[maxPiece..], maxPiece);
      JoinedCons(frame[..maxPiece], Pieces(frame[maxPiece..], maxPiece));
    }
  }

  /** All pieces are full but the last, which is not empty; there are as few as possible. */
  lemma {:induction false} SplitShape(frame: Frame, maxPiece: int)
    requires 0 < maxPiece < |frame|
    ensures var ps := Pieces(frame, maxPiece);
      && |ps| == Quot(|frame| + maxPiece - 1, maxPiece) && |ps| >= 2
      && (forall i :: 0 <= i < |ps| - 1 ==> |ps[i]| == maxPiece)
      && 0 < |ps[|ps| - 1]| <= maxPiece
    decreases |frame|
  {
    hide Quot;
    var rest := frame[maxPiece..];
    CeilingStep(|frame|, maxPiece);
    if |rest| > maxPiece {
      SplitShape(rest, maxPiece);
      var ps, more := Pieces(frame, maxPiece), Pieces(rest, maxPiece);
      assert forall i :: 1 <= i < |ps| ==> ps[i] == more[i - 1];
    } else {
      CeilingOne(|rest|, maxPiece);
    }
  }

  lemma CeilingStep(n: nat, k: nat)
    requires 0 < k < n
    ensures Quot(n + k - 1, k) == Quot(n - k + k - 1, k) + 1
  {
    hide *;
    QuotRem(n - 1, k);
    StartSucc(Quot(n - 1, k), k);
    QuotUnique(n - 1 + k, k, Quot(n - 1, k) + 1, Rem(n - 1, k));
  }

  lemma CeilingOne(n: nat, k: nat)
    requires 0 < n <= k
    ensures Quot(n + k - 1, k) == 1
  {
    hide *;
    StartZero(k);
    StartSucc(0, k);
    QuotUnique(n + k - 1, k, 1, n - 1);
  }

  // ---------- reassembly state ----------

  /** partial: a frame being put together, or its tombstone once it was returned. */
  datatype Partial = Partial(pieces: seq<Option<Frame>>, count: nat, got: nat, total: nat, created: nat, done: bool)

  function NewPartial(count: nat, now: nat): Partial
  {
    Partial(seq(count, i => None), count, 0, 0, now, false)
  }

  function CountSome(ps: seq<Option<Frame>>): nat
  {
    if ps == [] then 0 else CountSome(ps[..|ps| - 1]) + if ps[|ps| - 1].Some? then 1 else 0
  }

  function TotalLen(ps: seq<Option<Frame>>): nat
  {
    if ps == [] then 0
    else TotalLen(ps[..|ps| - 1]) + if ps[|ps| - 1].Some? then |ps[|ps| - 1].value| else 0
  }

  /** The concatenation of the pieces that are there. */
  function Concatenated(ps: seq<Option<Frame>>): Frame
  {
    if ps == [] then []
    else Concatenated(ps[..|ps| - 1]) + if ps[|ps| - 1].Some? then ps[|ps| - 1].value else []
  }

  ghost predicate PartialValid(p: Partial)
  {
    && p.count >= 2
    && (!p.done ==> |p.pieces| == p.count && p.got == CountSome(p.pieces) < p.count && p.total == TotalLen(p.pieces))
  }

  type Pending = map<nat, Partial>

  predicate Expired(p: Partial, now: nat)
  {
    now - p.created > REASSEMBLY_TTL
  }

  /** What the first loop of evictLocked leaves. */
  function Unexpired(m: Pending, now: nat): Pending
  {
    map id | id in m && !Expired(m[id], now) :: m[id]
  }

  /** An entry with the least creation time; among equals the map iteration decides. */
  predicate IsOldest(m: Pending, id: nat)
  {
    id in m && forall x :: x in m ==> m[id].created <= m[x].created
  }

  /** evictLocked, given the entry it finds oldest. */
  function Evicted(m: Pending, now: nat, oldest: nat): Pending
  {
    var kept := Unexpired(m, now);
    if |kept| < MAX_PENDING then kept else kept - {oldest}
  }

  /** The entry named is one the second loop can find. */
  predicate Choice(m: Pending, now: nat, oldest: nat)
  {
    |Unexpired(m, now)| >= MAX_PENDING ==> IsOldest(Unexpired(m, now), oldest)
  }

  /** One arriving piece of a multi-piece frame whose entry is p. */
  function Take(p: Partial, idx: nat, piece: Frame): (Partial, Option<Frame>)
    requires idx < |p.pieces|
  {
    if p.pieces[idx].Some? then (p, None)
    else
      var p1 := p.(pieces := p.pieces[idx := Some(piece)], got := p.got + 1, total := p.total + |piece|);
      if p1.got < p1.count then (p1, None)
      else (p1.(done := true, pieces := []), Some(Concatenated(p1.pieces)))
  }

  ghost predicate PendingValid(m: Pending)
  {
    forall id :: id in m ==> PartialValid(m[id])
  }

  /** Reassembler.Add. */
  function AddPiece(m: Pending, id: nat, idx: nat, count: nat, piece: Frame, now: nat, oldest: nat)
    : (Pending, Option<Frame>)
    requires PendingValid(m)
  {
    if count == 0 || idx >= count then (m, None)
    else if count == 1 then (m, Some(piece))
    else if id in m && m[id].done then (m, None)
    else
      var m1 := if id in m then m else Evicted(m, now, oldest);
      var p := if id in m && m[id].count == count then m[id] else NewPartial(count, now);
      var (p', out) := Take(p, idx, piece);
      (m1[id := p'], out)
  }

  // ---------- counting pieces ----------

  lemma {:induction false} CountSomeFull(ps: seq<Option<Frame>>)
    ensures CountSome(ps) <= |ps|
    ensures CountSome(ps) == |ps| <==> forall i :: 0 <= i < |ps| ==> ps[i].Some?
  {
    if ps != [] {
      var n := |ps| - 1;
      CountSomeFull(ps[..n]);
      assert forall i :: 0 <= i < n ==> ps[..n][i] == ps[i];
      assert (forall i :: 0 <= i < |ps| ==> ps[i].Some?) <==>
        ps[n].Some? && forall i :: 0 <= i < n ==> ps[..n][i].Some?;
    }
  }

  lemma {:induction false} SetPiece(ps: seq<Option<Frame>>, i: nat, f: Frame)
    requires i < |ps| && ps[i].None?
    ensures CountSome(ps[i := Some(f)]) == CountSome(ps) + 1
    ensures TotalLen(ps[i := Some(f)]) == TotalLen(ps) + |f|
  {
    var n := |ps| - 1;
    var qs := ps[i := Some(f)];
    if i == n {
      assert qs[..n] == ps[..n];
    } else {
      assert qs[..n] == ps[..n][i := Some(f)];
      SetPiece(ps[..n], i, f);
    }
  }

  lemma {:induction false} NoPieces(n: nat)
    ensures CountSome(seq(n, i => None)) == 0
    ensures TotalLen(seq(n, i => None)) == 0
  {
    if n > 0 {
      var ps: seq<Option<Frame>> := seq(n, i => None);
      assert ps[..n - 1] == seq(n - 1, i => None);
      NoPieces(n - 1);
    }
  }

  lemma NewPartialValid(count: nat, now: nat)
    requires count >= 2
    ensures PartialValid(NewPartial(count, now))
  {
    NoPieces(count);
  }

  /** A piece that is new completes the frame exactly when every other piece is there. */
  lemma TakeKeepsValid(p: Partial, idx: nat, piece: Frame)
    requires PartialValid(p) && !p.done && idx < p.count
    ensures PartialValid(Take(p, idx, piece).0)
    ensures Take(p, idx, piece).1.Some? <==>
      p.pieces[idx].None? && forall i :: 0 <= i < p.count && i != idx ==> p.pieces[i].Some?
    ensures Take(p, idx, piece).1.Some? <==> Take(p, idx, piece).0.done
  {
    if p.pieces[idx].None? {
      var qs := p.pieces[idx := Some(piece)];
      SetPiece(p.pieces, idx, piece);
      CountSomeFull(qs);
      if forall i :: 0 <= i < p.count && i != idx ==> p.pieces[i].Some? {
        assert forall i :: 0 <= i < |qs| ==> qs[i].Some?;
      }
      if forall i :: 0 <= i < |qs| ==> qs[i].Some? {
        assert forall i :: 0 <= i < p.count && i != idx ==> qs[i] == p.pieces[i];
      }
    }
  }

  lemma AddKeepsValid(m: Pending, id: nat, idx: nat, count: nat, piece: Frame, now: nat, oldest: nat)
    requires PendingValid(m)
    ensures PendingValid(AddPiece(m, id, idx, count, piece, now, oldest).0)
  {
    hide PartialValid, Take, NewPartial, Expired;
    if count >= 2 && idx < count && !(id in m && m[id].done) {
      NewPartialValid(count, now);
      var p := if id in m && m[id].count == count then m[id] else NewPartial(count, now);
      assert p.count == count && !p.done by { NewPartialShape(count, now); }
      TakeKeepsValid(p, idx, piece);
    }
  }

  lemma NewPartialShape(count: nat, now: nat)
    ensures var p := NewPartial(count, now);
      p.count == count && !p.done && p.created == now && forall i :: 0 <= i < |p.pieces| ==> p.pieces[i].None?
  {
  }

  // ---------- capacity ----------

  lemma SubmapSize<K, V>(a: map<K, V>, b: map<K, V>)
    requires a.Keys <= b.Keys
    ensures |a| <= |b|
  {
    SubsetSize(a.Keys, b.Keys);
    assert |a.Keys| == |a| && |b.Keys| == |b|;
  }

  lemma SubsetSize<K>(a: set<K>, b: set<K>)
    requires a <= b
    ensures |a| <= |b|
  {
    assert b == a + (b - a);
  }

  /** The table never holds more than 256 entries. */
  lemma CapacityHolds(m: Pending, id: nat, idx: nat, count: nat, piece: Frame, now: nat, oldest: nat)
    requires PendingValid(m) && Choice(m, now, oldest) && |m| <= MAX_PENDING
    ensures |AddPiece(m, id, idx, count, piece, now, oldest).0| <= MAX_PENDING
  {
    hide PartialValid, Take, NewPartial, Expired;
    var m' := AddPiece(m, id, idx, count, piece, now, oldest).0;
    if count >= 2 && idx < count && !(id in m && m[id].done) {
      if id in m {
        assert m'.Keys == m.Keys;
        SubmapSize(m', m);
      } else {
        var kept := Unexpired(m, now);
        var e := Evicted(m, now, oldest);
        SubmapSize(kept, m);
        if |kept| >= MAX_PENDING {
          assert e.Keys == kept.Keys - {oldest};
          assert |e.Keys| == |e| && |kept.Keys| == |kept|;
        }
        assert m'.Keys == e.Keys + {id};
        assert |m'.Keys| == |m'| && |e.Keys| == |e|;
      }
    }
  }

  /** An entry is evicted only after its time to live or, being oldest, from a full table. */
  lemma EvictionIsJustified(m: Pending, id: nat, idx: nat, count: nat, piece: Frame, now: nat, oldest: nat, x: nat)
    requires PendingValid(m) && Choice(m, now, oldest)
    requires x in m && x !in AddPiece(m, id, idx, count, piece, now, oldest).0
    ensures id !in m
    ensures now - m[x].created > REASSEMBLY_TTL ||
            (|Unexpired(m, now)| >= MAX_PENDING && IsOldest(Unexpired(m, now), x))
  {
    hide PartialValid, Take, NewPartial;
  }
}
