/** The FEC decoder as it is: blocks updated in place, a pool of reused blocks, an expiry pointer.
    Every method is proved against the decoder on values of module FecSpec. */
module FecDecoder {
  import opened Bytes
  import opened Erasure
  import opened FecSpec

  function Payloads(rs: seq<Release>): (fs: seq<Frame>)
    ensures |fs| == |rs|
  {
    seq(|rs|, i requires 0 <= i < |rs| => rs[i].frame)
  }

  /** The frames an outcome hands to the caller; None is the error return. */
  function Handed(o: Outcome): Option<seq<Frame>>
  {
    match o
    case Released(out) => Some(Payloads(out))
    case Unrecoverable => None
  }

  /** One turn of the expiry scan. */
  lemma ScanStep(d: Dec, threshold: nat, now: nat)
    requires d.minBlockID < threshold
    ensures var m := d.minBlockID;
      if m !in d.blocks then
        && Scan(d, threshold, now) == Scan(d.(minBlockID := m + 1), threshold, now)
        && ScanCost(d, threshold, now) == 1 + ScanCost(d.(minBlockID := m + 1), threshold, now)
      else if Expirable(d.blocks[m], now) then
        var d1 := Dec(d.blocks - {m}, d.maxSeen, m + 1);
        && Scan(d, threshold, now) == (Scan(d1, threshold, now).0, [m] + Scan(d1, threshold, now).1)
        && ScanCost(d, threshold, now) == 1 + ScanCost(d1, threshold, now)
      else Scan(d, threshold, now) == (d, []) && ScanCost(d, threshold, now) == 1
  {
  }

  lemma ScanEnd(d: Dec, threshold: nat, now: nat)
    requires d.minBlockID >= threshold
    ensures Scan(d, threshold, now) == (d, []) && ScanCost(d, threshold, now) == 0
  {
  }

  lemma CountTrueStep(flags: seq<bool>, lo: nat, i: nat)
    requires lo <= i < |flags|
    ensures CountTrue(flags[lo..i + 1]) == CountTrue(flags[lo..i]) + if flags[i] then 1 else 0
  {
    assert flags[lo..i + 1][..i - lo] == flags[lo..i];
  }

  class DecBlock {
    var data: seq<Option<Frame>>
    var repair: seq<Option<Frame>>
    var present: seq<bool>
    var count: nat
    var delivered: nat
    var done: bool
    var lastActivity: Option<nat>

    ghost function View(): Block
      reads this
    {
      Block(data, repair, present, count, delivered, done, lastActivity)
    }

    constructor (c: Code)
      ensures View() == Clean(c)
    {
      data := seq(c.k, i => None);
      repair := seq(c.r, i => None);
      present := seq(c.k + c.r, i => false);
      count, delivered, done, lastActivity := 0, 0, false, None;
    }

    /** The resetting half of returnBlock: the block is as new for its next user. */
    method Reset(c: Code)
      requires |data| == c.k && |repair| == c.r && |present| == c.k + c.r
      modifies this
      ensures View() == Clean(c)
    {
      for i := 0 to |data|
        invariant |data| == c.k && |repair| == c.r && |present| == c.k + c.r
        invariant forall j :: 0 <= j < i ==> data[j] == None
      {
        data := data[i := None];
      }
      for i := 0 to |repair|
        invariant |repair| == c.r && |present| == c.k + c.r && data == Clean(c).data
        invariant forall j :: 0 <= j < i ==> repair[j] == None
      {
        repair := repair[i := None];
      }
      for i := 0 to |present|
        invariant |present| == c.k + c.r && data == Clean(c).data && repair == Clean(c).repair
        invariant forall j :: 0 <= j < i ==> !present[j]
      {
        present := present[i := false];
      }
      count, delivered, done, lastActivity := 0, 0, false, None;
    }

    /** The first counting loop of tryRecover. */
    method CountMissing(c: Code) returns (missing: int)
      requires |present| == c.k + c.r && delivered <= c.k
      ensures missing == Missing(c, View())
    {
      missing := 0;
      for i := delivered to c.k
        invariant missing == i - delivered - CountTrue(present[delivered..i])
      {
        CountTrueStep(present, delivered, i);
        if !present[i] {
          missing := missing + 1;
        }
      }
    }

    /** The second counting loop of tryRecover. */
    method CountRepairs(c: Code) returns (repairs: nat)
      requires |present| == c.k + c.r
      ensures repairs == Repairs(c, View())
    {
      repairs := 0;
      for i := 0 to c.r
        invariant repairs == CountTrue(present[c.k..c.k + i])
      {
        CountTrueStep(present, c.k, c.k + i);
        if present[c.k + i] {
          repairs := repairs + 1;
        }
      }
      assert present[c.k..c.k + c.r] == present[c.k..];
    }

    /** The recovery of tryRecover: XOR for one repair symbol, the library otherwise. */
    method Recover(c: Code) returns (res: Option<seq<Frame>>)
      requires WellFormed(c, View()) && Shaped(c.rs, c.k)
      requires CanRebuild(c, View())
      ensures c.r == 1 ==> repair[0].Some?
      ensures res == Rebuild(c, data, repair)
      ensures res.Some? ==> |res.value| == c.k
    {
      RepairThere(c, View());
      if c.r == 1 {
        res := XorRecover(data, repair[0].value);
        assert res.Some? ==> res.value == Rebuild(c, data, repair).value;
      } else {
        res := c.rs.reconstruct(RsShards(data, repair));
      }
    }

    /** The loop that takes absent slots from the rebuilt data. */
    method Fill(c: Code, rebuilt: seq<Frame>)
      requires WellFormed(c, View()) && |rebuilt| == c.k
      modifies this
      ensures View() == Filled(c, old(View()), rebuilt)
    {
      ghost var was := View();
      for i := 0 to c.k
        invariant View() == was.(data := data, present := present)
        invariant |data| == c.k && |present| == c.k + c.r
        invariant forall j :: 0 <= j < i ==> present[j]
        invariant forall j :: 0 <= j < i ==> data[j] == if was.present[j] then was.data[j] else Some(rebuilt[j])
        invariant forall j :: i <= j < c.k ==> data[j] == was.data[j]
        invariant forall j :: i <= j < c.k + c.r ==> present[j] == was.present[j]
      {
        if !present[i] {
          data := data[i := Some(rebuilt[i])];
          present := present[i := true];
        }
      }
      assert data == Filled(c, was, rebuilt).data;
      assert present == Filled(c, was, rebuilt).present;
    }

    /** The delivery loop: frames up to the first gap. */
    method Deliver(c: Code) returns (out: seq<Frame>)
      requires WellFormed(c, View())
      modifies this
      ensures View() == Delivered(c, old(View())).0
      ensures out == Payloads(Delivered(c, old(View())).1)
    {
      ghost var was := View();
      out := [];
      while delivered < c.k && present[delivered]
        invariant was.delivered <= delivered <= c.k
        invariant View() == was.(delivered := delivered)
        invariant PrefixEnd(present, delivered, c.k) == PrefixEnd(present, was.delivered, c.k)
        invariant |out| == delivered - was.delivered
        invariant forall j :: 0 <= j < |out| ==>
          data[was.delivered + j].Some? && out[j] == data[was.delivered + j].value
      {
        out := out + [data[delivered].value];
        delivered := delivered + 1;
      }
      if delivered == c.k {
        done := true;
      }
      assert out == Payloads(Delivered(c, was).1);
    }

    method TryRecover(c: Code) returns (res: Option<seq<Frame>>)
      requires WellFormed(c, View()) && Shaped(c.rs, c.k)
      modifies this
      ensures View() == FecSpec.TryRecover(c, old(View())).0
      ensures res == Handed(FecSpec.TryRecover(c, old(View())).1)
    {
      hide WellFormed, Rebuild, Filled, Delivered, Missing, Repairs;
      assert |present| == c.k + c.r && delivered <= c.k by {
        WellFormedSizes(c, View());
      }
      var missing := CountMissing(c);
      var repairs := CountRepairs(c);
      if 0 < missing <= repairs {
        var rebuilt := Recover(c);
        if rebuilt.None? {
          return None;
        }
        FilledKeepsWellFormed(c, View(), rebuilt.value);
        Fill(c, rebuilt.value);
      }
      var out := Deliver(c);
      res := Some(out);
    }

    /** The part of Decoder.add that follows the block lookup. */
    method Accept(c: Code, idx: int, pkt: Frame, isRepair: bool, now: nat) returns (res: Option<seq<Frame>>)
      requires WellFormed(c, View()) && Shaped(c.rs, c.k)
      modifies this
      ensures View() == BlockAdd(c, old(View()), Arrival(idx, isRepair, pkt, now)).0
      ensures res == Handed(BlockAdd(c, old(View()), Arrival(idx, isRepair, pkt, now)).1)
    {
      hide FecSpec.TryRecover;
      ghost var a := Arrival(idx, isRepair, pkt, now);
      ghost var was := View();
      if done {
        return Some([]);
      }
      if isRepair {
        if idx < 0 || idx >= c.r || present[c.k + idx] {
          return Some([]);
        }
        repair := repair[idx := Some(pkt)];
        present := present[c.k + idx := true];
      } else {
        if idx < 0 || idx >= c.k || present[idx] {
          return Some([]);
        }
        data := data[idx := Some(pkt)];
        present := present[idx := true];
      }
      count := count + 1;
      lastActivity := Some(now);
      assert View() == Record(c, was, a);
      RecordKeepsWellFormed(c, was, a);
      res := TryRecover(c);
    }

    /** The loop of FlushStale that gathers the received frames behind the gap. */
    method CollectStuck(c: Code) returns (out: seq<Frame>)
      requires WellFormed(c, View())
      ensures out == Payloads(StuckFrom(View(), delivered))
    {
      ghost var goal := Payloads(StuckFrom(View(), delivered));
      out := [];
      assert [] + goal == goal;
      for i := delivered to c.k
        invariant out + Payloads(StuckFrom(View(), i)) == goal
      {
        hide StuckFrom, Payloads;
        StuckStep(View(), i);
        ghost var before, rest := out, Payloads(StuckFrom(View(), i + 1));
        if present[i] {
          out := out + [data[i].value];
          assert out + rest == before + ([data[i].value] + rest);
        } else {
          assert [] + rest == rest;
        }
      }
      assert out + [] == out;
    }

    /** The body of the FlushStale loop for one block. */
    method FlushIfStale(c: Code, maxAge: int, now: nat) returns (out: seq<Frame>)
      requires WellFormed(c, View())
      modifies this
      ensures View() == if Flushable(c, old(View()), maxAge, now) then Closed(c, old(View())) else old(View())
      ensures out == if Flushable(c, old(View()), maxAge, now)
                     then Payloads(StuckFrom(old(View()), old(delivered))) else []
    {
      ghost var was := View();
      out := [];
      if done || lastActivity.None? || now - lastActivity.value < maxAge {
        return;
      }
      var stuck := false;
      for i := delivered to c.k
        invariant View() == was
        invariant !stuck && forall j :: delivered <= j < i ==> !present[j]
      {
        if present[i] {
          stuck := true;
          break;
        }
      }
      if !stuck {
        return;
      }
      out := CollectStuck(c);
      delivered := c.k;
      done := true;
    }
  }

  lemma StuckStep(b: Block, i: nat)
    requires i < |b.data|
    ensures Payloads(StuckFrom(b, i)) ==
      (if b.data[i].Some? then [b.data[i].value] else []) + Payloads(StuckFrom(b, i + 1))
  {
  }

  // ---------- ascending ids ----------

  lemma {:induction false} AscendingIsUnique(p: seq<nat>, q: seq<nat>)
    requires Rising(p) && Rising(q)
    requires forall x :: x in p <==> x in q
    ensures p == q
  {
    assert p != [] ==> p[0] in q;
    assert q != [] ==> q[0] in p;
    if p != [] {
      RisingSplit(p);
      RisingSplit(q);
      hide Rising;
      var m, n := |p| - 1, |q| - 1;
      assert p[m] == q[n] by {
        assert p[m] in p && q[n] in q;
      }
      AscendingIsUnique(p[..m], q[..n]);
      calc {
        p;
        p[..m] + [p[m]];
        q[..n] + [q[n]];
        q;
      }
    }
  }

  /** The position that keeps a sequence ascending. */
  method Position(q: seq<nat>, x: nat) returns (i: nat)
    requires Rising(q) && x !in q
    ensures i <= |q|
    ensures forall j :: 0 <= j < i ==> q[j] < x
    ensures forall j :: i <= j < |q| ==> x < q[j]
  {
    i := 0;
    while i < |q| && q[i] < x
      invariant i <= |q|
      invariant forall j :: 0 <= j < i ==> q[j] < x
    {
      i := i + 1;
    }
    assert i < |q| ==> q[i] in q;
  }

  lemma InsertMembers(q: seq<nat>, i: nat, x: nat)
    requires i <= |q|
    ensures forall y :: y in q[..i] + [x] + q[i..] <==> y in q || y == x
  {
    assert q == q[..i] + q[i..];
  }

  /** FlushStale's id list: the keys of the block map, sorted. */
  method SortedIds(keys: set<nat>) returns (ids: seq<nat>)
    ensures ids == Ascending(keys)
    ensures Rising(ids) && forall id :: id in ids <==> id in keys
  {
    ids := [];
    var rest := keys;
    while rest != {}
      invariant rest <= keys
      invariant Rising(ids)
      invariant forall x :: x in ids <==> x in keys - rest
      decreases rest
    {
      var x :| x in rest;
      var i := Position(ids, x);
      InsertMembers(ids, i, x);
      ids := ids[..i] + [x] + ids[i..];
      rest := rest - {x};
    }
    AscendingIsUnique(ids, Ascending(keys));
  }

  // ---------- the decoder ----------

  class Decoder {
    const c: Code
    var blocks: map<nat, DecBlock>
    var pool: set<DecBlock>
    var maxSeen: nat
    var minBlockID: nat
    ghost var Repr: set<DecBlock>

    /** No two ids share a block, and pooled blocks are clean and not in use. */
    ghost predicate Valid()
      reads this, Repr
    {
      && c.Valid()
      && pool <= Repr
      && (forall id :: id in blocks ==> blocks[id] in Repr && blocks[id] !in pool)
      && (forall id, id' :: id in blocks && id' in blocks && id != id' ==> blocks[id] != blocks[id'])
      && (forall b :: b in pool ==> b.View() == Clean(c))
      && (forall id :: id in blocks ==> WellFormed(c, blocks[id].View()))
    }

    ghost function View(): Dec
      requires Valid()
      reads this, Repr
    {
      Dec(map id | id in blocks :: blocks[id].View(), maxSeen, minBlockID)
    }

    constructor (c: Code)
      requires c.Valid()
      ensures this.c == c && Valid() && fresh(Repr)
      ensures View() == EMPTY_DEC
    {
      this.c := c;
      blocks, pool, maxSeen, minBlockID, Repr := map[], {}, 0, 0, {};
    }

    /** blockPool.Get: a pooled block, clean, or a new one. */
    method TakeBlock() returns (b: DecBlock)
      requires Valid()
      modifies this`pool, this`Repr
      ensures Valid() && View() == old(View())
      ensures Repr == old(Repr) || (fresh(b) && Repr == old(Repr) + {b})
      ensures b in Repr && b !in pool && b.View() == Clean(c)
      ensures forall id :: id in blocks ==> blocks[id] != b
    {
      hide WellFormed, Clean, Valid;
      var reuse: bool := *;
      if reuse && pool != {} {
        b :| b in pool;
        pool := pool - {b};
        Reused(b);
      } else {
        b := new DecBlock(c);
        Repr := Repr + {b};
        Made(b);
      }
    }

    /** Taking a block out of the pool is not seen from outside. */
    twostate lemma Reused(b: DecBlock)
      requires old(Valid()) && b in old(pool)
      requires blocks == old(blocks) && pool == old(pool) - {b} && Repr == old(Repr)
      requires maxSeen == old(maxSeen) && minBlockID == old(minBlockID)
      requires forall x :: x in Repr ==> x.View() == old(x.View())
      ensures Valid() && View() == old(View())
      ensures b in Repr && b !in pool && b.View() == Clean(c)
      ensures forall id :: id in blocks ==> blocks[id] != b
    {
      hide WellFormed, Clean;
      assert View().blocks == old(View()).blocks;
    }

    /** Neither is making one. */
    twostate lemma Made(new b: DecBlock)
      requires old(Valid()) && fresh(b) && b.View() == Clean(c)
      requires blocks == old(blocks) && pool == old(pool) && Repr == old(Repr) + {b}
      requires maxSeen == old(maxSeen) && minBlockID == old(minBlockID)
      requires forall x :: x in old(Repr) ==> x.View() == old(x.View())
      ensures Valid() && View() == old(View())
      ensures b !in pool
      ensures forall id :: id in blocks ==> blocks[id] != b
    {
      hide WellFormed, Clean;
      assert View().blocks == old(View()).blocks;
    }

    /** getOrCreate. */
    method GetOrCreate(id: nat) returns (b: DecBlock)
      requires Valid()
      modifies this`blocks, this`pool, this`Repr
      ensures Valid() && fresh(Repr - old(Repr))
      ensures id in blocks && blocks[id] == b && b.View() == BlockOf(c, old(View()), id)
      ensures View() == old(View()).(blocks := old(View()).blocks[id := b.View()])
    {
      hide WellFormed, Clean, Valid;
      if id in blocks {
        b := blocks[id];
        Present(id);
      } else {
        Absent(id);
        b := TakeBlock();
        Link(id, b);
      }
    }

    /** The new block goes into the map. */
    method Link(id: nat, b: DecBlock)
      requires Valid() && b in Repr && b !in pool && b.View() == Clean(c)
      requires forall x :: x in blocks ==> blocks[x] != b
      modifies this`blocks
      ensures Valid() && blocks == old(blocks)[id := b]
      ensures View() == old(View()).(blocks := old(View()).blocks[id := b.View()])
    {
      CleanIsWellFormed(c);
      hide WellFormed, Clean, Valid;
      ghost var v := b.View();
      blocks := blocks[id := b];
      assert b.View() == v;
      Linked(id, b);
    }

    /** A well-formed block that no id has becomes the block of one. */
    twostate lemma Linked(id: nat, new b: DecBlock)
      requires old(Valid()) && b in Repr && b !in pool && WellFormed(c, b.View())
      requires forall x :: x in old(blocks) ==> old(blocks)[x] != b
      requires blocks == old(blocks)[id := b] && pool == old(pool) && Repr == old(Repr)
      requires maxSeen == old(maxSeen) && minBlockID == old(minBlockID)
      requires forall x :: x in Repr ==> x.View() == old(x.View())
      ensures Valid()
      ensures View() == old(View()).(blocks := old(View()).blocks[id := b.View()])
    {
      hide WellFormed, Clean;
      assert View().blocks == old(View()).blocks[id := b.View()];
    }

    lemma Absent(id: nat)
      requires Valid() && id !in blocks
      ensures id !in View().blocks
    {
    }

    lemma Present(id: nat)
      requires Valid() && id in blocks
      ensures id in View().blocks && View().blocks[id] == blocks[id].View()
      ensures View() == View().(blocks := View().blocks[id := blocks[id].View()])
    {
      assert View().blocks[id := blocks[id].View()] == View().blocks;
    }

    /** One deletion of expire: the block leaves the map. */
    method Unlink(id: nat) returns (b: DecBlock)
      requires Valid() && id in blocks
      modifies this`blocks
      ensures Valid()
      ensures View() == old(View()).(blocks := old(View()).blocks - {id})
      ensures b == old(blocks[id]) && b in Repr && b !in pool && WellFormed(c, b.View())
      ensures forall x :: x in blocks ==> blocks[x] != b
    {
      hide WellFormed;
      ghost var was := View();
      b := blocks[id];
      blocks := blocks - {id};
      assert View().blocks == was.blocks - {id};
    }

    /** returnBlock: the block is reset and goes back to the pool. */
    method ReturnBlock(b: DecBlock)
      requires Valid() && b in Repr && b !in pool && WellFormed(c, b.View())
      requires forall x :: x in blocks ==> blocks[x] != b
      modifies this`pool, b
      ensures Valid() && View() == old(View()) && b in pool
    {
      WellFormedSizes(c, b.View());
      hide WellFormed, Clean, Valid;
      b.Reset(c);
      pool := pool + {b};
      Pooled(b);
    }

    /** Changing a block that no id has, and pooling it clean, is not seen from outside. */
    twostate lemma Pooled(b: DecBlock)
      requires old(Valid()) && b in Repr && b.View() == Clean(c)
      requires forall x :: x in blocks ==> blocks[x] != b
      requires blocks == old(blocks) && pool == old(pool) + {b} && Repr == old(Repr)
      requires maxSeen == old(maxSeen) && minBlockID == old(minBlockID)
      requires forall x :: x in Repr && x != b ==> x.View() == old(x.View())
      ensures Valid() && View() == old(View())
    {
      hide WellFormed, Clean;
      assert View().blocks == old(View()).blocks;
    }

    /** One step of the expiry pointer. */
    method Advance()
      requires Valid()
      modifies this`minBlockID
      ensures Valid() && View() == old(View()).(minBlockID := old(minBlockID) + 1)
    {
      hide WellFormed, Clean;
      minBlockID := minBlockID + 1;
    }

    /** expire. The cost counts the loop's iterations. */
    method Expire(now: nat) returns (ghost freed: seq<nat>, ghost cost: nat)
      requires Valid()
      modifies this`blocks, this`pool, this`minBlockID, Repr
      ensures Valid()
      ensures (View(), freed) == FecSpec.Expire(old(View()), now)
      ensures cost == if maxSeen < MAX_OLD_BLOCKS then 0 else ScanCost(old(View()), maxSeen - MAX_OLD_BLOCKS, now)
    {
      hide Valid, Scan, ScanCost;
      freed, cost := [], 0;
      if maxSeen < MAX_OLD_BLOCKS {
        return;
      }
      var threshold := maxSeen - MAX_OLD_BLOCKS;
      ghost var (goal, all) := Scan(View(), threshold, now);
      ghost var total := ScanCost(View(), threshold, now);
      while minBlockID < threshold
        invariant Valid() && Repr == old(Repr) && maxSeen == old(maxSeen)
        invariant Scan(View(), threshold, now).0 == goal
        invariant freed + Scan(View(), threshold, now).1 == all
        invariant cost + ScanCost(View(), threshold, now) == total
        decreases threshold - minBlockID
      {
        ghost var was := View();
        ScanStep(was, threshold, now);
        cost := cost + 1;
        if minBlockID !in blocks {
          Absent(minBlockID);
          Advance();
          continue;
        }
        Present(minBlockID);
        InRepr(minBlockID);
        var b := blocks[minBlockID];
        if b.lastActivity.None? || now - b.lastActivity.value > BLOCK_KEEP_AGE {
          freed := freed + [minBlockID];
          DeleteFirst();
        } else {
          break;
        }
      }
      if minBlockID >= threshold {
        ScanEnd(View(), threshold, now);
      }
      assert freed + [] == freed;
    }

    /** The deleting branch of expire. */
    method DeleteFirst()
      requires Valid() && minBlockID in blocks
      modifies this`blocks, this`pool, this`minBlockID, Repr
      ensures Valid() && Repr == old(Repr) && maxSeen == old(maxSeen) && minBlockID == old(minBlockID) + 1
      ensures View() == var d := old(View()); Dec(d.blocks - {d.minBlockID}, d.maxSeen, d.minBlockID + 1)
    {
      hide Valid;
      InRepr(minBlockID);
      var b := Unlink(minBlockID);
      ReturnBlock(b);
      Advance();
    }

    lemma InRepr(id: nat)
      requires Valid() && id in blocks
      ensures blocks[id] in Repr
    {
    }

    /** BlockDone. */
    method BlockDone(id: nat) returns (done: bool)
      requires Valid()
      ensures done <==> id in View().blocks && View().blocks[id].done
    {
      done := id in blocks && blocks[id].done;
    }

    /** The head of Decoder.add: a new highest id starts an expiry scan. */
    method Open(id: nat, now: nat)
      requires Valid()
      modifies this`blocks, this`pool, this`minBlockID, this`maxSeen, Repr
      ensures Valid() && Repr == old(Repr)
      ensures View() == Opened(old(View()), id, now).0
    {
      hide WellFormed, Clean, FecSpec.Expire;
      if id > maxSeen {
        ghost var was := View();
        maxSeen := id;
        assert View() == was.(maxSeen := id);
        ghost var freed, cost := Expire(now);
      }
    }

    /** Storing a block's new state in place is an update of the map of blocks. */
    twostate lemma BlockUpdated(id: nat, new b: DecBlock)
      requires old(Valid()) && old(allocated(b)) && id in blocks && blocks[id] == b
      requires blocks == old(blocks) && pool == old(pool) && Repr == old(Repr)
      requires maxSeen == old(maxSeen) && minBlockID == old(minBlockID)
      requires forall x :: x in old(Repr) && x != b ==> x.View() == old(x.View())
      requires WellFormed(c, b.View())
      ensures Valid()
      ensures View() == old(View()).(blocks := old(View()).blocks[id := b.View()])
    {
      hide WellFormed, Clean;
      assert View().blocks == old(View()).blocks[id := b.View()];
    }

    /** The tail of Decoder.add: the block of the packet takes it in. */
    method AcceptInto(id: nat, b: DecBlock, idx: int, pkt: Frame, isRepair: bool, now: nat)
      returns (res: Option<seq<Frame>>)
      requires Valid() && id in blocks && blocks[id] == b && WellFormed(c, b.View()) && Shaped(c.rs, c.k)
      modifies b
      ensures Valid()
      ensures var (b', o) := BlockAdd(c, old(b.View()), Arrival(idx, isRepair, pkt, now));
        && View() == old(View()).(blocks := old(View()).blocks[id := b'])
        && res == Handed(o)
    {
      hide WellFormed, Clean, BlockAdd, Valid;
      BlockAddKeepsWellFormed(c, b.View(), Arrival(idx, isRepair, pkt, now));
      res := b.Accept(c, idx, pkt, isRepair, now);
      BlockUpdated(id, b);
    }

    lemma Validated(id: nat)
      requires Valid() && id in blocks
      ensures c.Valid() && Shaped(c.rs, c.k) && WellFormed(c, blocks[id].View())
      ensures View().blocks[id] == blocks[id].View()
    {
    }

    /** Decoder.add: AddData and AddRepair. */
    method Add(id: nat, idx: int, pkt: Frame, isRepair: bool, now: nat) returns (res: Option<seq<Frame>>)
      requires Valid()
      modifies this, Repr
      ensures Valid() && fresh(Repr - old(Repr))
      ensures View() == AddStep(c, old(View()), id, Arrival(idx, isRepair, pkt, now)).0
      ensures res == Handed(AddStep(c, old(View()), id, Arrival(idx, isRepair, pkt, now)).2)
    {
      hide WellFormed, Clean, BlockAdd, Opened, Valid, BlockOf, View;
      Open(id, now);
      var b := GetOrCreate(id);
      Validated(id);
      InRepr(id);
      res := AcceptInto(id, b, idx, pkt, isRepair, now);
    }

    /** FlushStale for one id. */
    method FlushBlock(id: nat, maxAge: int, now: nat) returns (out: seq<Frame>)
      requires Valid() && id in blocks
      modifies Repr
      ensures Valid() && Repr == old(Repr)
      ensures id in old(View()).blocks
      ensures WellFormed(c, old(View()).blocks[id])
      ensures var b := old(View()).blocks[id];
        && View() == old(View()).(blocks := old(View()).blocks[id :=
             if Flushable(c, b, maxAge, now) then Closed(c, b) else b])
        && out == Emitted(FlushOne(c, b, id, maxAge, now))
    {
      hide WellFormed, Clean, Valid, Flushable, Closed, StuckFrom, Emitted;
      var b := blocks[id];
      Validated(id);
      InRepr(id);
      ghost var v := b.View();
      ClosedKeepsWellFormed(c, v);
      out := b.FlushIfStale(c, maxAge, now);
      EmittedOne(c, v, id, maxAge, now);
      BlockUpdated(id, b);
    }

    /** FlushStale: the stale blocks in ascending id order. */
    method FlushStale(maxAge: int, now: nat) returns (out: seq<Frame>)
      requires Valid()
      modifies Repr
      ensures Valid() && Repr == old(Repr)
      ensures View() == FlushStep(c, old(View()), maxAge, now).0
      ensures out == Emitted(FlushStep(c, old(View()), maxAge, now).1)
    {
      hide *;
      ghost var was := View();
      KeysOfView();
      var ids := SortedIds(blocks.Keys);
      FlushPrefixNone(c, was, ids, maxAge, now);
      out := [];
      for n := 0 to |ids|
        invariant Valid() && blocks == old(blocks) && Repr == old(Repr)
        invariant (View(), out) == FlushPrefix(c, was, ids, n, maxAge, now)
      {
        FlushPrefixNext(c, was, ids, n, maxAge, now);
        KeysOfView();
        var more := FlushBlock(ids[n], maxAge, now);
        out := out + more;
      }
      FlushPrefixAll(c, was, ids, maxAge, now);
    }

    lemma KeysOfView()
      requires Valid()
      ensures View().blocks.Keys == blocks.Keys
    {
    }
  }

  function IdSet(ids: seq<nat>): (s: set<nat>)
    ensures forall id :: id in s <==> id in ids
  {
    set id | id in ids
  }

  /** The decoder and the output after the flush loop has looked at the first n ids. */
  ghost function FlushPrefix(c: Code, d: Dec, ids: seq<nat>, n: nat, maxAge: int, now: nat): (Dec, seq<Frame>)
    requires n <= |ids| && forall id :: id in ids ==> id in d.blocks
  {
    (d.(blocks := FlushedUpTo(c, d.blocks, IdSet(ids[..n]), maxAge, now)),
     Emitted(FlushEntries(c, d.blocks, ids[..n], maxAge, now)))
  }

  lemma FlushPrefixNone(c: Code, d: Dec, ids: seq<nat>, maxAge: int, now: nat)
    requires forall id :: id in ids ==> id in d.blocks
    ensures FlushPrefix(c, d, ids, 0, maxAge, now) == (d, [])
  {
    hide Flushable, Closed, FlushOne;
    assert ids[..0] == [];
    assert IdSet([]) == {};
    assert FlushedUpTo(c, d.blocks, {}, maxAge, now) == d.blocks;
    assert FlushPrefix(c, d, ids, 0, maxAge, now).0 == d;
  }

  lemma AscendingNext(ids: seq<nat>, n: nat)
    requires Rising(ids) && n < |ids|
    ensures ids[n] !in ids[..n]
    ensures IdSet(ids[..n + 1]) == IdSet(ids[..n]) + {ids[n]}
  {
    assert ids[..n + 1] == ids[..n] + [ids[n]];
  }

  lemma FlushPrefixNext(c: Code, d: Dec, ids: seq<nat>, n: nat, maxAge: int, now: nat)
    requires n < |ids| && Rising(ids) && forall id :: id in ids ==> id in d.blocks
    ensures var (d1, out) := FlushPrefix(c, d, ids, n, maxAge, now);
      && ids[n] in d1.blocks
      && var b := d1.blocks[ids[n]];
      FlushPrefix(c, d, ids, n + 1, maxAge, now) ==
        (d1.(blocks := d1.blocks[ids[n] := if Flushable(c, b, maxAge, now) then Closed(c, b) else b]),
         out + Emitted(FlushOne(c, b, ids[n], maxAge, now)))
  {
    hide Flushable, Closed, FlushOne, Emitted, Rising;
    var id := ids[n];
    assert id in ids;
    AscendingNext(ids, n);
    var seen := IdSet(ids[..n]);
    assert FlushedUpTo(c, d.blocks, seen, maxAge, now)[id] == d.blocks[id];
    assert FlushedUpTo(c, d.blocks, seen + {id}, maxAge, now) ==
           FlushedUpTo(c, d.blocks, seen, maxAge, now)[id :=
             if Flushable(c, d.blocks[id], maxAge, now) then Closed(c, d.blocks[id]) else d.blocks[id]];
    assert ids[..n + 1][..n] == ids[..n];
    EmittedConcat(FlushEntries(c, d.blocks, ids[..n], maxAge, now), FlushOne(c, d.blocks[id], id, maxAge, now));
  }

  lemma FlushPrefixAll(c: Code, d: Dec, ids: seq<nat>, maxAge: int, now: nat)
    requires ids == Ascending(d.blocks.Keys)
    ensures FlushPrefix(c, d, ids, |ids|, maxAge, now) ==
      (FlushStep(c, d, maxAge, now).0, Emitted(FlushStep(c, d, maxAge, now).1))
  {
    hide FlushedUpTo, FlushEntries, Emitted, Ascending, IdSet;
    assert ids[..|ids|] == ids;
    assert IdSet(ids) == d.blocks.Keys;
  }

  /** The frames among log entries, in order: what FlushStale returns. */
  function Emitted(es: seq<Entry>): seq<Frame>
  {
    if es == [] then []
    else Emitted(es[..|es| - 1]) + if es[|es| - 1].Out? then [es[|es| - 1].frame] else []
  }

  lemma {:induction false} EmittedConcat(es: seq<Entry>, more: seq<Entry>)
    ensures Emitted(es + more) == Emitted(es) + Emitted(more)
  {
    if more == [] {
      assert es + more == es;
    } else {
      var n := |more| - 1;
      assert (es + more)[..|es + more| - 1] == es + more[..n];
      EmittedConcat(es, more[..n]);
    }
  }

  lemma {:induction false} EmittedOuts(id: nat, rs: seq<Release>)
    ensures Emitted(Outs(id, rs)) == Payloads(rs)
  {
    if rs != [] {
      var n := |rs| - 1;
      assert Outs(id, rs)[..n] == Outs(id, rs[..n]);
      EmittedOuts(id, rs[..n]);
      assert Payloads(rs) == Payloads(rs[..n]) + [rs[n].frame];
    }
  }

  lemma EmittedOne(c: Code, b: Block, id: nat, maxAge: int, now: nat)
    requires WellFormed(c, b)
    ensures Emitted(FlushOne(c, b, id, maxAge, now)) ==
      if Flushable(c, b, maxAge, now) then Payloads(StuckFrom(b, b.delivered)) else []
  {
    if Flushable(c, b, maxAge, now) {
      var outs := Outs(id, StuckFrom(b, b.delivered));
      EmittedOuts(id, StuckFrom(b, b.delivered));
      EmittedConcat(outs, [Flushed(id)]);
      assert Emitted([Flushed(id)]) == [] by {
        assert [Flushed(id)][..0] == [];
      }
    }
  }
}
