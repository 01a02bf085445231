/** The FEC pipe from sender to receiver: numbering of the sent packets, and what comes out of the
    decoder behind a channel that drops, duplicates and reorders them. */
module FecEndToEnd {
  import opened Bytes
  import opened Erasure
  import opened FecSpec
  import opened FecStreaming
  import opened FecRuns
  import opened FecLifetimes
  import opened Blocking
  import Proto
  import Words

  const U16_MOD := 0x1_0000
  const U32_MOD := 0x1_0000_0000

  /** A packet handed to the send callbacks, with its FEC tag. */
  datatype Wire = Data(id: nat, idx: nat, pkt: Frame) | Repair(id: nat, idx: nat, pkt: Frame)

  /** The encoder's buffer and block counter and the pipe's packet index. */
  datatype Sender = Sender(buf: seq<Frame>, blockID: nat, pktIdx: nat)

  const NEW_SENDER := Sender([], 0, 0)

  function RepairWires(id: nat, reps: seq<Frame>): seq<Wire>
  {
    seq(|reps|, i requires 0 <= i < |reps| => Repair(id, i % 0x100, reps[i]))
  }

  /** Pipe.Send over Encoder.Add: the index is reset only when repair symbols came back. */
  function SendStep(c: Code, s: Sender, frame: Frame): (Sender, seq<Wire>)
  {
    var buf := s.buf + [frame];
    var data := [Data(s.blockID, s.pktIdx, frame)];
    var next := (s.pktIdx + 1) % U16_MOD;
    if |buf| < c.k then (Sender(buf, s.blockID, next), data)
    else
      var id := (s.blockID + 1) % U32_MOD;
      match EncodeBlock(c, buf)
      case None => (Sender([], id, next), data)
      case Some(reps) => (Sender([], id, 0), data + RepairWires(s.blockID, reps))
  }

  function SendRun(c: Code, sent: seq<Frame>): (Sender, seq<Wire>)
  {
    if sent == [] then (NEW_SENDER, [])
    else
      var (s, wires) := SendRun(c, sent[..|sent| - 1]);
      var (s', more) := SendStep(c, s, sent[|sent| - 1]);
      (s', wires + more)
  }

  // ---------- numbering ----------

  /** The frames of block id among those sent so far. */
  function FramesOf(k: nat, sent: seq<Frame>, id: nat): (fs: seq<Frame>)
    ensures |fs| <= k
    ensures Start(id, k) + k <= |sent| ==> |fs| == k
    ensures forall i :: 0 <= i < |fs| ==> Start(id, k) + i < |sent| && fs[i] == sent[Start(id, k) + i]
  {
    var lo := Start(id, k);
    if lo >= |sent| then []
    else if lo + k <= |sent| then sent[lo..lo + k]
    else sent[lo..]
  }

  /** The block has all its frames. */
  predicate Complete(k: nat, sent: seq<Frame>, id: nat)
  {
    Start(id, k) + k <= |sent|
  }

  /** The repair symbols of block id: none before it is full. */
  function RepsOf(c: Code, sent: seq<Frame>, id: nat): seq<Frame>
  {
    if Complete(c.k, sent, id) && EncodeBlock(c, FramesOf(c.k, sent, id)).Some?
    then EncodeBlock(c, FramesOf(c.k, sent, id)).value else []
  }

  /** Every block completed so far got repair symbols. */
  ghost predicate AllEncoded(c: Code, sent: seq<Frame>)
  {
    forall id: nat :: Complete(c.k, sent, id) ==> EncodeBlock(c, FramesOf(c.k, sent, id)).Some?
  }

  /** The frames of a block do not change when more is sent after it is full. */
  lemma FramesOfPrefix(k: nat, sent: seq<Frame>, n: nat, id: nat)
    requires Start(id, k) + k <= n <= |sent|
    ensures FramesOf(k, sent[..n], id) == FramesOf(k, sent, id)
  {
  }

  lemma AllEncodedPrefix(c: Code, sent: seq<Frame>, n: nat)
    requires n <= |sent| && AllEncoded(c, sent)
    ensures AllEncoded(c, sent[..n])
  {
    forall id: nat | Complete(c.k, sent[..n], id)
      ensures EncodeBlock(c, FramesOf(c.k, sent[..n], id)).Some?
    {
      assert Complete(c.k, sent, id);
      FramesOfPrefix(c.k, sent, n, id);
    }
  }

  /** The counters after n frames: q whole blocks sent and m frames of the next buffered. */
  ghost predicate SenderAt(s: Sender, k: nat, sent: seq<Frame>, q: nat, m: nat)
  {
    && m < k && |sent| == Start(q, k) + m
    && s.buf == sent[Start(q, k)..]
    && s.blockID == q % U32_MOD
  }

  lemma SendStepAt(c: Code, sent: seq<Frame>, frame: Frame, s: Sender, q: nat, m: nat)
    requires 1 <= c.k <= 128 && SenderAt(s, c.k, sent, q, m)
    ensures m + 1 < c.k ==> SenderAt(SendStep(c, s, frame).0, c.k, sent + [frame], q, m + 1)
    ensures m + 1 == c.k ==> SenderAt(SendStep(c, s, frame).0, c.k, sent + [frame], q + 1, 0)
    ensures var all := sent + [frame];
      s.pktIdx == m && (Complete(c.k, all, q) ==> EncodeBlock(c, FramesOf(c.k, all, q)).Some?) ==>
      SendStep(c, s, frame).0.pktIdx == if m + 1 < c.k then m + 1 else 0
    ensures m + 1 == c.k ==> Complete(c.k, sent + [frame], q) && s.buf + [frame] == FramesOf(c.k, sent + [frame], q)
  {
    hide Start, EncodeBlock;
    StartSucc(q, c.k);
    var all := sent + [frame];
    assert s.buf + [frame] == all[Start(q, c.k)..];
    if m + 1 == c.k {
      assert s.buf + [frame] == FramesOf(c.k, all, q);
      assert (q % U32_MOD + 1) % U32_MOD == (q + 1) % U32_MOD;
    }
  }

  /** The sender's counters after n frames are n div k and n mod k. */
  lemma {:induction false} SenderState(c: Code, sent: seq<Frame>)
    requires 1 <= c.k <= 128
    ensures SenderAt(SendRun(c, sent).0, c.k, sent, Quot(|sent|, c.k), Rem(|sent|, c.k))
    ensures AllEncoded(c, sent) ==> SendRun(c, sent).0.pktIdx == Rem(|sent|, c.k)
  {
    hide Start, Quot, Rem, SendStep, EncodeBlock, FramesOf;
    StartZero(c.k);
    var n := |sent|;
    if sent == [] {
      QuotUnique(0, c.k, 0, 0);
    } else {
      var before, frame := sent[..n - 1], sent[n - 1];
      SenderState(c, before);
      var s, q, m := SendRun(c, before).0, Quot(n - 1, c.k), Rem(n - 1, c.k);
      assert sent == before + [frame];
      SendStepAt(c, before, frame, s, q, m);
      StartSucc(q, c.k);
      if m + 1 < c.k {
        QuotUnique(n, c.k, q, m + 1);
      } else {
        QuotUnique(n, c.k, q + 1, 0);
      }
      if AllEncoded(c, sent) {
        AllEncodedPrefix(c, sent, n - 1);
      }
    }
  }

  ghost predicate InStep(c: Code, sent: seq<Frame>)
  {
    SendRun(c, sent).0.pktIdx == |SendRun(c, sent).0.buf|
  }

  /** Numbering, exactly: the pipe's index agrees with the encoder's buffer after every send if and
      only if every completed block was given repair symbols. */
  lemma NumberingHoldsIff(c: Code, sent: seq<Frame>)
    requires 1 <= c.k <= 128
    ensures AllEncoded(c, sent) <==> forall n: nat :: n <= |sent| ==> InStep(c, sent[..n])
  {
    hide Start, Quot, Rem, SendRun, EncodeBlock, FramesOf;
    if AllEncoded(c, sent) {
      forall n: nat | n <= |sent|
        ensures InStep(c, sent[..n])
      {
        AllEncodedPrefix(c, sent, n);
        SenderState(c, sent[..n]);
      }
    } else {
      var id: nat :| Complete(c.k, sent, id) && EncodeBlock(c, FramesOf(c.k, sent, id)).None?;
      var n := Start(id, c.k) + c.k;
      FramesOfPrefix(c.k, sent, n, id);
      BrokenAfterNil(c, sent[..n], id);
      assert sent[..n][..n - 1] == sent[..n - 1];
    }
  }

  /** A block without repair symbols leaves the index behind the emptied buffer. */
  lemma BrokenAfterNil(c: Code, sent: seq<Frame>, id: nat)
    requires 1 <= c.k <= 128
    requires |sent| == Start(id, c.k) + c.k
    requires EncodeBlock(c, FramesOf(c.k, sent, id)).None?
    ensures !InStep(c, sent) || !InStep(c, sent[..|sent| - 1])
  {
    hide Start, Quot, Rem, EncodeBlock, FramesOf;
    var n := |sent|;
    var before, frame := sent[..n - 1], sent[n - 1];
    SenderState(c, before);
    QuotUnique(n - 1, c.k, id, c.k - 1);
    var s := SendRun(c, before).0;
    assert sent == before + [frame];
    SendStepAt(c, before, frame, s, id, c.k - 1);
  }

  /** The guard a caller can check: one repair symbol, or more with no block of empty frames only. */
  ghost predicate Encodable(c: Code, sent: seq<Frame>)
  {
    forall id: nat :: Complete(c.k, sent, id) ==>
      c.r == 1 || (c.r > 1 && exists i :: 0 <= i < c.k && FramesOf(c.k, sent, id)[i] != [])
  }

  lemma AllEncodedIff(c: Code, sent: seq<Frame>)
    requires c.Valid()
    ensures AllEncoded(c, sent) <==> Encodable(c, sent)
  {
    hide Start, EncodeBlock;
    forall id: nat | Complete(c.k, sent, id)
      ensures EncodeBlock(c, FramesOf(c.k, sent, id)).Some? <==>
        c.r == 1 || (c.r > 1 && exists i :: 0 <= i < c.k && FramesOf(c.k, sent, id)[i] != [])
    {
      EncodeBlockNil(c, FramesOf(c.k, sent, id));
    }
  }

  /** The numbering fails at r = 0: with k = 1 the second frame is tagged (1, 1), out of its block. */
  lemma NumberingFailsWithoutRepairs(rs: ReedSolomon)
    ensures SendRun(Code(1, 0, rs), [[7], [8]]).1 == [Data(0, 0, [7]), Data(1, 1, [8])]
  {
    var c := Code(1, 0, rs);
    var one: seq<Frame>, two: seq<Frame> := [[7]], [[7], [8]];
    assert two[..1] == one;
    assert one[..0] == [];
    assert SendRun(c, one[..0]) == (NEW_SENDER, []);
    assert one[|one| - 1] == [7] && two[|two| - 1] == [8];
    assert SendStep(c, NEW_SENDER, [7]) == (Sender([], 1, 1), [Data(0, 0, [7])]);
    var w: seq<Wire> := [Data(0, 0, [7])];
    assert [] + w == w;
    assert SendRun(c, one) == (Sender([], 1, 1), [Data(0, 0, [7])]);
    assert SendStep(c, Sender([], 1, 1), [8]).1 == [Data(1, 1, [8])];
  }

  // ---------- what is on the wire ----------

  /** The n-th frame is tagged (n div k, n mod k), the block counter being 32 bits wide. */
  lemma NthSendTag(c: Code, sent: seq<Frame>, n: nat)
    requires c.Valid() && Encodable(c, sent) && n < |sent|
    ensures SendStep(c, SendRun(c, sent[..n]).0, sent[n]).1[0] ==
      Data(Quot(n, c.k) % U32_MOD, Rem(n, c.k), sent[n])
  {
    hide Quot, Rem, Start, EncodeBlock, FramesOf, SendRun;
    AllEncodedIff(c, sent);
    AllEncodedPrefix(c, sent, n);
    SenderState(c, sent[..n]);
  }

  lemma FullStep(c: Code, s: Sender, frame: Frame, reps: seq<Frame>)
    requires |s.buf| + 1 == c.k && EncodeBlock(c, s.buf + [frame]) == Some(reps) && |reps| <= 32
    ensures var ws := SendStep(c, s, frame).1;
      |ws| == 1 + |reps| && forall i: nat :: i < |reps| ==> ws[1 + i] == Repair(s.blockID, i, reps[i])
  {
    hide EncodeBlock;
  }

  lemma OpenStep(c: Code, s: Sender, frame: Frame)
    requires |s.buf| + 1 < c.k
    ensures |SendStep(c, s, frame).1| == 1
  {
  }

  /** What the n-th send gives out, exactly: its frame under its tag and, when it fills its block, the block's r
      repair symbols under indices 0 to r - 1. */
  lemma NthSend(c: Code, sent: seq<Frame>, n: nat)
    requires c.Valid() && Encodable(c, sent) && n < |sent|
    ensures var ws, q, m := SendStep(c, SendRun(c, sent[..n]).0, sent[n]).1, Quot(n, c.k), Rem(n, c.k);
      && |ws| == 1 + (if m + 1 == c.k then c.r else 0)
      && ws[0] == Data(q % U32_MOD, m, sent[n])
    ensures var ws, q := SendStep(c, SendRun(c, sent[..n]).0, sent[n]).1, Quot(n, c.k);
      var reps := RepsOf(c, sent, q);
      Rem(n, c.k) + 1 == c.k ==>
      |reps| == c.r && forall i: nat :: i < c.r ==> ws[1 + i] == Repair(q % U32_MOD, i, reps[i])
  {
    hide Quot, Rem, Start, FramesOf, SendRun, EncodeBlock, SendStep, Encodable, AllEncoded;
    var before, q, m := sent[..n], Quot(n, c.k), Rem(n, c.k);
    NthSendTag(c, sent, n);
    AllEncodedIff(c, sent);
    AllEncodedPrefix(c, sent, n);
    SenderState(c, before);
    var s := SendRun(c, before).0;
    if m + 1 < c.k {
      OpenStep(c, s, sent[n]);
    } else {
      SendStepAt(c, before, sent[n], s, q, m);
      FilledBlock(c, sent, n, q, s);
      FullStep(c, s, sent[n], RepsOf(c, sent, q));
    }
  }

  lemma FilledBlock(c: Code, sent: seq<Frame>, n: nat, q: nat, s: Sender)
    requires c.Valid() && AllEncoded(c, sent) && n < |sent|
    requires SenderAt(s, c.k, sent[..n], q, c.k - 1)
    requires s.buf + [sent[n]] == FramesOf(c.k, sent[..n] + [sent[n]], q)
    ensures |s.buf| + 1 == c.k && EncodeBlock(c, s.buf + [sent[n]]) == Some(RepsOf(c, sent, q))
    ensures |RepsOf(c, sent, q)| == c.r <= 32
  {
    hide Start, FramesOf, EncodeBlock;
    assert sent[..n] + [sent[n]] == sent[..n + 1];
    FramesOfPrefix(c.k, sent, n + 1, q);
    assert Complete(c.k, sent, q);
    EncodeBlockNil(c, FramesOf(c.k, sent, q));
  }

  /** A packet the sender emits: a frame under its own tag, or a repair symbol of a full block. */
  ghost predicate GenuineFor(c: Code, sent: seq<Frame>, w: Wire, q: nat)
  {
    w.id == q % U32_MOD &&
    match w
    case Data(_, idx, pkt) => idx < |FramesOf(c.k, sent, q)| && pkt == FramesOf(c.k, sent, q)[idx]
    case Repair(_, idx, pkt) => idx < |RepsOf(c, sent, q)| && pkt == RepsOf(c, sent, q)[idx]
  }

  ghost predicate Genuine(c: Code, sent: seq<Frame>, w: Wire)
  {
    exists q: nat :: GenuineFor(c, sent, w, q)
  }

  lemma GenuinePrefix(c: Code, sent: seq<Frame>, n: nat, w: Wire)
    requires n <= |sent| && Genuine(c, sent[..n], w)
    ensures Genuine(c, sent, w)
  {
    hide Start, EncodeBlock;
    var q: nat :| GenuineFor(c, sent[..n], w, q);
    if w.Repair? {
      FramesOfPrefix(c.k, sent, n, q);
    }
    assert GenuineFor(c, sent, w, q);
  }

  lemma RepairWiresAreGenuine(c: Code, sent: seq<Frame>, q: nat)
    requires Complete(c.k, sent, q) && EncodeBlock(c, FramesOf(c.k, sent, q)).Some?
    requires |EncodeBlock(c, FramesOf(c.k, sent, q)).value| <= 32
    ensures var reps := EncodeBlock(c, FramesOf(c.k, sent, q)).value;
      forall w :: w in RepairWires(q % U32_MOD, reps) ==> Genuine(c, sent, w)
  {
    hide Start, EncodeBlock, FramesOf;
    var reps := EncodeBlock(c, FramesOf(c.k, sent, q)).value;
    forall w | w in RepairWires(q % U32_MOD, reps)
      ensures Genuine(c, sent, w)
    {
      assert GenuineFor(c, sent, w, q);
    }
  }

  /** Everything one send puts on the wire is genuine. */
  lemma SendStepIsGenuine(c: Code, sent: seq<Frame>, frame: Frame, s: Sender, q: nat, m: nat)
    requires c.Valid() && SenderAt(s, c.k, sent, q, m) && s.pktIdx == m
    ensures forall w :: w in SendStep(c, s, frame).1 ==> Genuine(c, sent + [frame], w)
  {
    var all := sent + [frame];
    var first := Data(s.blockID, s.pktIdx, frame);
    SendStepAt(c, sent, frame, s, q, m);
    assert GenuineFor(c, all, first, q) by {
      hide EncodeBlock, SendStep, RepsOf, Start;
      StartSucc(q, c.k);
      assert FramesOf(c.k, all, q)[m] == frame;
    }
    hide Start, EncodeBlock, FramesOf, GenuineFor, RepairWires;
    assert Genuine(c, all, first);
    if m + 1 == c.k {
      EncodeBlockNil(c, s.buf + [frame]);
      if EncodeBlock(c, s.buf + [frame]).Some? {
        RepairWiresAreGenuine(c, all, q);
      }
    }
  }

  lemma {:induction false} WiresAreGenuine(c: Code, sent: seq<Frame>)
    requires c.Valid() && AllEncoded(c, sent)
    ensures forall w :: w in SendRun(c, sent).1 ==> Genuine(c, sent, w)
  {
    hide Start, Quot, Rem, EncodeBlock, FramesOf, SendStep, Genuine;
    if sent != [] {
      var n := |sent| - 1;
      var before, frame := sent[..n], sent[n];
      AllEncodedPrefix(c, sent, n);
      WiresAreGenuine(c, before);
      SenderState(c, before);
      assert sent == before + [frame];
      var (s, wires) := SendRun(c, before);
      SendStepIsGenuine(c, before, frame, s, Quot(n, c.k), Rem(n, c.k));
      forall w | w in SendRun(c, sent).1
        ensures Genuine(c, sent, w)
      {
        if w in wires {
          GenuinePrefix(c, sent, n, w);
        }
      }
    }
  }

  lemma {:induction false} SentInRun(c: Code, sent: seq<Frame>, n: nat, w: Wire)
    requires n < |sent| && w in SendStep(c, SendRun(c, sent[..n]).0, sent[n]).1
    ensures w in SendRun(c, sent).1
  {
    hide SendStep;
    var last := |sent| - 1;
    if n < last {
      assert sent[..last][..n] == sent[..n];
      SentInRun(c, sent[..last], n, w);
    }
  }

  /** Main theorem: the packets that leave are exactly the frames under their own tags and, of every full
      block, all its repair symbols. */
  lemma EmittedIff(c: Code, sent: seq<Frame>, w: Wire)
    requires c.Valid() && Encodable(c, sent)
    ensures w in SendRun(c, sent).1 <==> Genuine(c, sent, w)
  {
    hide SendRun, Start, EncodeBlock, SendStep, Quot, Rem, FramesOf, Encodable;
    AllEncodedIff(c, sent);
    WiresAreGenuine(c, sent);
    if Genuine(c, sent, w) {
      var q: nat :| GenuineFor(c, sent, w, q);
      var n := Start(q, c.k) + if w.Data? then w.idx else c.k - 1;
      StartSucc(q, c.k);
      QuotUnique(n, c.k, q, n - Start(q, c.k));
      NthSend(c, sent, n);
      var ws := SendStep(c, SendRun(c, sent[..n]).0, sent[n]).1;
      assert w == ws[if w.Data? then 0 else 1 + w.idx];
      SentInRun(c, sent, n, w);
    }
  }

  // ---------- the channel and the receiver ----------

  /** The decoder event a received packet causes. */
  function Received(w: Wire, now: nat): Event
  {
    Add(w.id, Arrival(w.idx, w.Repair?, w.pkt, now))
  }

  /** A run of the receiver behind a channel that may drop, duplicate, delay and reorder packets
      but not alter them; flushes come at any time. */
  ghost predicate Channel(c: Code, sent: seq<Frame>, evs: seq<Event>)
  {
    forall e :: e in evs && e.Add? ==> exists w :: w in SendRun(c, sent).1 && e == Received(w, e.a.now)
  }

  /** The sender's premise: blocks get repair symbols, and the 32-bit block counter does not wrap. */
  ghost predicate Sendable(c: Code, sent: seq<Frame>)
  {
    c.Valid() && Encodable(c, sent) && |sent| <= Start(U32_MOD, c.k)
  }

  lemma ReceivedIsHonest(c: Code, sent: seq<Frame>, evs: seq<Event>, e: Event)
    requires Sendable(c, sent) && Channel(c, sent, evs) && e in evs && e.Add?
    ensures Honest(FramesOf(c.k, sent, e.id), RepsOf(c, sent, e.id), e.a)
  {
    hide Start, EncodeBlock, SendRun, FramesOf, RepsOf, Encodable, AllEncoded;
    AllEncodedIff(c, sent);
    WiresAreGenuine(c, sent);
    var w :| w in SendRun(c, sent).1 && e == Received(w, e.a.now);
    var q: nat :| GenuineFor(c, sent, w, q);
    BlockNumberFits(c, sent, q);
    assert q < U32_MOD && w.id == q;
  }

  /** No block at or past 2^32 has frames or repair symbols. */
  lemma BlockNumberFits(c: Code, sent: seq<Frame>, q: nat)
    requires Sendable(c, sent)
    ensures |FramesOf(c.k, sent, q)| > 0 || |RepsOf(c, sent, q)| > 0 ==> q < U32_MOD
  {
    hide Start, EncodeBlock;
    if q > U32_MOD {
      StartMono(U32_MOD, q, c.k);
    }
  }

  lemma SourceOf(c: Code, sent: seq<Frame>, id: nat)
    requires c.Valid()
    ensures Source(c, FramesOf(c.k, sent, id), RepsOf(c, sent, id))
  {
    hide Start;
    if Complete(c.k, sent, id) {
      EncodeBlockNil(c, FramesOf(c.k, sent, id));
    }
  }

  lemma {:induction false} ArrivalsAreHonest(c: Code, sent: seq<Frame>, evs: seq<Event>, id: nat)
    requires Sendable(c, sent) && Channel(c, sent, evs)
    ensures forall a :: a in OpenArrivals(c, evs, id) ==> Honest(FramesOf(c.k, sent, id), RepsOf(c, sent, id), a)
  {
    hide Start, EncodeBlock, SendRun, Honest, FramesOf, RepsOf, Encodable, FreedBy, Unflushed, Run;
    if evs != [] {
      var n := |evs| - 1;
      assert forall e :: e in evs[..n] ==> e in evs;
      assert Channel(c, sent, evs[..n]);
      ArrivalsAreHonest(c, sent, evs[..n], id);
      if evs[n].Add? {
        ReceivedIsHonest(c, sent, evs, evs[n]);
      }
    }
  }

  /** What a lifetime with the symbols s hands out: the decodable prefix, and once a flush has closed the
      block every data slot that had arrived. */
  predicate Leaves(c: Code, s: set<int>, flushed: bool, slot: nat)
  {
    slot < BatchPrefix(c, s) || (flushed && slot < c.k && slot in s)
  }

  /** The slots rise, and each frame is the original of its slot up to padding. */
  ghost predicate RisingOriginals(out: seq<Release>, fs: seq<Frame>)
  {
    && (forall i, j :: 0 <= i < j < |out| ==> out[i].slot < out[j].slot)
    && (forall i :: 0 <= i < |out| ==> FrameOf(fs, out[i].slot, out[i].frame))
  }

  lemma FaithfulSlots(out: seq<Release>, fs: seq<Frame>, slot: nat)
    requires Faithful(out, fs)
    ensures HasSlot(out, slot) <==> slot < |out|
  {
    if slot < |out| {
      assert out[slot].slot == slot;
    }
  }

  lemma OpenReleases(c: Code, fs: seq<Frame>, s: set<int>, out: seq<Release>)
    requires Faithful(out, fs) && |out| == BatchPrefix(c, s)
    ensures RisingOriginals(out, fs)
    ensures forall slot: nat :: HasSlot(out, slot) <==> Leaves(c, s, false, slot)
  {
    hide BatchPrefix, FrameOf;
    forall slot: nat
      ensures HasSlot(out, slot) <==> slot < |out|
    {
      FaithfulSlots(out, fs, slot);
    }
  }

  lemma RisingConcat(out: seq<Release>, rs: seq<Release>, fs: seq<Frame>)
    requires Faithful(out, fs) && RisingOriginals(rs, fs)
    requires forall i :: 0 <= i < |rs| ==> |out| <= rs[i].slot
    ensures RisingOriginals(out + rs, fs)
  {
    hide FrameOf;
    var all := out + rs;
    assert forall i :: 0 <= i < |out| ==> all[i] == out[i];
    assert forall i :: |out| <= i < |all| ==> all[i] == rs[i - |out|];
  }

  /** What is stuck in an open block. */
  lemma StuckSlots(c: Code, fs: seq<Frame>, reps: seq<Frame>, s: set<int>, b: Block, slot: nat)
    requires Holds(c, fs, reps, s, b)
    ensures var rs := StuckFrom(b, b.delivered);
      && RisingOriginals(rs, fs) && (forall i :: 0 <= i < |rs| ==> b.delivered <= rs[i].slot)
      && (HasSlot(rs, slot) <==> b.delivered <= slot < c.k && slot in s)
  {
    hide StuckFrom;
    var rs := StuckFrom(b, b.delivered);
    StuckIsExact(c, b, b.delivered);
    assert forall i :: 0 <= i < |rs| ==> rs[i] in rs;
    if b.delivered <= slot < c.k && slot in s {
      assert Release(slot, b.data[slot].value) in rs;
    }
  }

  /** An open block's releases with what a flush would add to them. */
  lemma StuckReleases(c: Code, fs: seq<Frame>, reps: seq<Frame>, s: set<int>, b: Block, out: seq<Release>)
    requires StreamInv(c, fs, reps, s, b, out) && !b.done
    ensures var all := out + StuckFrom(b, b.delivered);
      RisingOriginals(all, fs) && forall slot: nat :: HasSlot(all, slot) <==> Leaves(c, s, true, slot)
  {
    hide StuckFrom, BatchPrefix, FrameOf, Faithful, RisingOriginals, Holds, WellFormed, HasSlot;
    var rs := StuckFrom(b, b.delivered);
    StuckSlots(c, fs, reps, s, b, 0);
    RisingConcat(out, rs, fs);
    forall slot: nat
      ensures HasSlot(out + rs, slot) <==> Leaves(c, s, true, slot)
    {
      HasSlotConcat(out, rs, slot);
      FaithfulSlots(out, fs, slot);
      StuckSlots(c, fs, reps, s, b, slot);
    }
  }

  /** Main theorem, completeness. Through a channel that drops, duplicates and reorders, with expiry and
      flushes, a block has handed out in its current lifetime, in rising order and up to padding, exactly
      the slots its symbols reach: an open block the decodable prefix, so all of them once any k of its k + r
      symbols have come since it was last deleted; a flushed one also each data slot that came before. */
  lemma RecoverableBlocksArrive(c: Code, sent: seq<Frame>, evs: seq<Event>, id: nat)
    requires Sendable(c, sent) && Channel(c, sent, evs)
    ensures var s, log := Symbols(c, OpenArrivals(c, evs, id)), Run(c, evs).1;
      var out := OutsOf(log, id);
      && RisingOriginals(out, FramesOf(c.k, sent, id))
      && (forall slot: nat :: HasSlot(out, slot) <==> Leaves(c, s, !Unflushed(log, id), slot))
      && (Unflushed(log, id) ==> |out| == BatchPrefix(c, s) && Faithful(out, FramesOf(c.k, sent, id)))
      && (|s| >= c.k ==> Unflushed(log, id) && |out| == c.k)
  {
    hide Start, EncodeBlock, SendRun, Honest, FramesOf, RepsOf, Encodable, Source, Run, BlockRun, Unflushed, OutsOf,
      OpenArrivals, Symbols, StuckFrom, RisingOriginals, HasSlot, Leaves;
    ArrivalsAreHonest(c, sent, evs, id);
    SourceOf(c, sent, id);
    BlocksAreIndependent(c, evs, id);
    var arrivals, fs, reps := OpenArrivals(c, evs, id), FramesOf(c.k, sent, id), RepsOf(c, sent, id);
    var (b, out) := BlockRun(c, arrivals);
    StreamRun(c, fs, reps, arrivals);
    if Unflushed(Run(c, evs).1, id) {
      OpenReleases(c, fs, Symbols(c, arrivals), out);
    } else {
      StuckReleases(c, fs, reps, Symbols(c, arrivals), b, out);
    }
  }

  /** Exactly when a slot leaves again, in every run: beyond the releases of earlier lifetimes it leaves once
      if the symbols since the last deletion reach it or a flush found it stuck, and not at all otherwise. */
  lemma SlotLeavesAgainIff(c: Code, sent: seq<Frame>, evs: seq<Event>, id: nat, slot: nat)
    requires Sendable(c, sent) && Channel(c, sent, evs)
    ensures var s, log := Symbols(c, OpenArrivals(c, evs, id)), Run(c, evs).1;
      CountOut(log, id, slot) == CountOut(EarlierLives(log, id), id, slot) +
        if slot < BatchPrefix(c, s) || (!Unflushed(log, id) && slot < c.k && slot in s) then 1 else 0
  {
    hide Start, SendRun, FramesOf, Run, Unflushed, OutsOf, OpenArrivals, BatchPrefix, CountOut, EarlierLives, Symbols,
      HasSlot, CountSlot;
    RecoverableBlocksArrive(c, sent, evs, id);
    var log := Run(c, evs).1;
    CountByLifetime(log, id, slot);
    CountRising(OutsOf(log, id), slot);
  }

  // ---------- soundness with flushes and expiry ----------

  /** A block some honest arrivals lead to, perhaps closed by a flush since. */
  ghost predicate ReachedBy(c: Code, fs: seq<Frame>, reps: seq<Frame>, b: Block, arrivals: seq<Arrival>)
    requires c.Valid()
  {
    && (forall a :: a in arrivals ==> Honest(fs, reps, a))
    && (b == BlockRun(c, arrivals).0 || b == Closed(c, BlockRun(c, arrivals).0))
  }

  ghost predicate Reached(c: Code, fs: seq<Frame>, reps: seq<Frame>, b: Block)
    requires c.Valid()
  {
    exists arrivals :: ReachedBy(c, fs, reps, b, arrivals)
  }

  lemma ReachedAdd(c: Code, fs: seq<Frame>, reps: seq<Frame>, b: Block, a: Arrival)
    requires c.Valid() && Source(c, fs, reps) && Honest(fs, reps, a)
    requires WellFormed(c, b) && Reached(c, fs, reps, b)
    ensures Reached(c, fs, reps, BlockAdd(c, b, a).0)
    ensures BlockAdd(c, b, a).1.Released? ==>
      forall r :: r in BlockAdd(c, b, a).1.out ==> FrameOf(fs, r.slot, r.frame)
  {
    hide WellFormed, Honest, Source, TryRecover, BlockRun, StreamInv;
    var arrivals :| ReachedBy(c, fs, reps, b, arrivals);
    if b == BlockRun(c, arrivals).0 {
      var more := arrivals + [a];
      assert forall x :: x in more ==> x in arrivals || x == a;
      BlockRunAppend(c, arrivals, a);
      StreamingRefinesBatch(c, fs, reps, more);
      assert ReachedBy(c, fs, reps, BlockAdd(c, b, a).0, more);
      var (_, o) := BlockAdd(c, b, a);
      if o.Released? {
        var all := BlockRun(c, more).1;
        assert all == BlockRun(c, arrivals).1 + o.out;
        forall r | r in o.out
          ensures FrameOf(fs, r.slot, r.frame)
        {
          assert r in all;
          var i :| 0 <= i < |all| && all[i] == r;
        }
      }
    } else {
      assert ReachedBy(c, fs, reps, b, arrivals);
    }
  }

  lemma ReachedFlush(c: Code, fs: seq<Frame>, reps: seq<Frame>, b: Block)
    requires c.Valid() && Source(c, fs, reps)
    requires WellFormed(c, b) && !b.done && Reached(c, fs, reps, b)
    ensures Reached(c, fs, reps, Closed(c, b))
    ensures forall i :: 0 <= i < c.k && b.data[i].Some? ==> FrameOf(fs, i, b.data[i].value)
  {
    hide Honest, Source, BlockRun;
    var arrivals :| ReachedBy(c, fs, reps, b, arrivals);
    assert b == BlockRun(c, arrivals).0;
    StreamRun(c, fs, reps, arrivals);
    assert ReachedBy(c, fs, reps, Closed(c, b), arrivals);
  }

  ghost predicate AllReached(c: Code, sent: seq<Frame>, d: Dec)
    requires c.Valid()
  {
    forall id :: id in d.blocks ==> Reached(c, FramesOf(c.k, sent, id), RepsOf(c, sent, id), d.blocks[id])
  }

  /** Every frame in the log is the sent frame of its block and slot, up to zero padding. */
  ghost predicate AllSent(c: Code, sent: seq<Frame>, log: seq<Entry>)
  {
    forall e :: e in log && e.Out? ==> FrameOf(FramesOf(c.k, sent, e.id), e.slot, e.frame)
  }

  lemma CleanReached(c: Code, fs: seq<Frame>, reps: seq<Frame>)
    requires c.Valid()
    ensures Reached(c, fs, reps, Clean(c))
  {
    assert ReachedBy(c, fs, reps, Clean(c), []);
  }

  lemma SoundAdd(c: Code, sent: seq<Frame>, d: Dec, id: nat, a: Arrival)
    requires c.Valid() && DecValid(c, d) && AllReached(c, sent, d)
    requires Honest(FramesOf(c.k, sent, id), RepsOf(c, sent, id), a)
    ensures AllReached(c, sent, AddStep(c, d, id, a).0)
    ensures AllSent(c, sent, AddStep(c, d, id, a).1)
  {
    hide Start, EncodeBlock, Honest, FramesOf, RepsOf, Reached, BlockAdd, WellFormed, FrameOf, Opened;
    var fs, reps := FramesOf(c.k, sent, id), RepsOf(c, sent, id);
    SourceOf(c, sent, id);
    CleanReached(c, fs, reps);
    CleanIsWellFormed(c);
    OpenedDeletes(d, id, a.now);
    OpenedKeepsValid(c, d, id, a.now);
    var d1 := Opened(d, id, a.now).0;
    ReachedAdd(c, fs, reps, BlockOf(c, d1, id), a);
  }

  lemma {:induction false} FlushEntriesSent(c: Code, sent: seq<Frame>, d: Dec, ids: seq<nat>, maxAge: int, now: nat)
    requires c.Valid() && DecValid(c, d) && AllReached(c, sent, d)
    requires forall id :: id in ids ==> id in d.blocks
    ensures AllSent(c, sent, FlushEntries(c, d.blocks, ids, maxAge, now))
  {
    hide Start, EncodeBlock, Honest, FramesOf, RepsOf, Reached, FrameOf;
    if ids != [] {
      var n := |ids| - 1;
      var id := ids[n];
      var b := d.blocks[id];
      FlushEntriesSent(c, sent, d, ids[..n], maxAge, now);
      SourceOf(c, sent, id);
      if !b.done {
        ReachedFlush(c, FramesOf(c.k, sent, id), RepsOf(c, sent, id), b);
        StuckIsExact(c, b, b.delivered);
        var rs := StuckFrom(b, b.delivered);
        forall e | e in Outs(id, rs)
          ensures FrameOf(FramesOf(c.k, sent, e.id), e.slot, e.frame)
        {
          var i :| 0 <= i < |rs| && e == Out(id, rs[i].slot, rs[i].frame);
          assert rs[i] in rs;
        }
      }
    }
  }

  lemma SoundFlush(c: Code, sent: seq<Frame>, d: Dec, maxAge: int, now: nat)
    requires c.Valid() && DecValid(c, d) && AllReached(c, sent, d)
    ensures AllReached(c, sent, FlushStep(c, d, maxAge, now).0)
    ensures AllSent(c, sent, FlushStep(c, d, maxAge, now).1)
  {
    hide Start, EncodeBlock, Honest, FramesOf, RepsOf, Reached, FrameOf;
    FlushEntriesSent(c, sent, d, Ascending(d.blocks.Keys), maxAge, now);
    forall id | id in d.blocks && Flushable(c, d.blocks[id], maxAge, now)
      ensures Reached(c, FramesOf(c.k, sent, id), RepsOf(c, sent, id), Closed(c, d.blocks[id]))
    {
      SourceOf(c, sent, id);
      ReachedFlush(c, FramesOf(c.k, sent, id), RepsOf(c, sent, id), d.blocks[id]);
    }
  }

  lemma {:induction false} SoundRun(c: Code, sent: seq<Frame>, evs: seq<Event>)
    requires Sendable(c, sent) && Channel(c, sent, evs)
    ensures AllReached(c, sent, Run(c, evs).0)
    ensures AllSent(c, sent, Run(c, evs).1)
  {
    hide Start, EncodeBlock, Encodable, SendRun, AddStep, FlushStep, Honest, FramesOf, RepsOf, Reached, FrameOf,
      DecValid;
    if evs != [] {
      var n := |evs| - 1;
      assert forall e :: e in evs[..n] ==> e in evs;
      assert Channel(c, sent, evs[..n]);
      SoundRun(c, sent, evs[..n]);
      assert evs == evs[..n] + [evs[n]];
      RunAppend(c, evs[..n], evs[n]);
      var d := Run(c, evs[..n]).0;
      match evs[n]
      case Add(id, a) =>
        ReceivedIsHonest(c, sent, evs, evs[n]);
        SoundAdd(c, sent, d, id, a);
      case Flush(maxAge, now) =>
        SoundFlush(c, sent, d, maxAge, now);
    }
  }

  /** Main theorem, soundness. Through any channel that drops, duplicates and reorders, with expiry
      and flushes at any time, every frame handed out is the frame that was sent under its block and
      slot, as sent or zero-padded to the longest frame of its block. */
  lemma EveryReleaseWasSent(c: Code, sent: seq<Frame>, evs: seq<Event>, id: nat, slot: nat, f: Frame)
    requires Sendable(c, sent) && Channel(c, sent, evs)
    requires Out(id, slot, f) in Run(c, evs).1
    ensures slot < c.k && Start(id, c.k) + slot < |sent|
    ensures IsPaddingOf(f, sent[Start(id, c.k) + slot])
  {
    hide Start, SendRun, Run, AllReached, Encodable;
    SoundRun(c, sent, evs);
    var fs := FramesOf(c.k, sent, id);
    assert FrameOf(fs, slot, f);
    assert fs[slot] == sent[Start(id, c.k) + slot];
    assert Pad(fs[slot], |fs[slot]|) == fs[slot];
  }

  // ---------- the tag on the wire ----------

  /** The Seq field of a packet as the send callbacks fill it, and as the receive loops read it. */
  function SeqOf(c: Code, w: Wire): Words.Word
    requires w.id < U32_MOD && w.idx < if w.Data? then U16_MOD else 0x100
  {
    if w.Data? then Proto.PackDataSeq(w.id, w.idx)
    else Proto.PackRepairSeq(w.id, w.idx, c.k % 0x100, c.r % 0x100)
  }

  function TagOf(repair: bool, sq: Words.Word): (nat, nat)
  {
    if repair then var (id, idx, _, _) := Proto.UnpackRepairSeq(sq); (id, idx)
    else Proto.UnpackDataSeq(sq)
  }

  /** Every tag the sender makes fits its fields and reaches the decoder as it was. */
  lemma TagsSurviveTheHeader(c: Code, sent: seq<Frame>, w: Wire)
    requires Sendable(c, sent) && w in SendRun(c, sent).1
    ensures w.id < U32_MOD && w.idx < if w.Data? then U16_MOD else 0x100
    ensures TagOf(w.Repair?, SeqOf(c, w)) == (w.id, w.idx)
  {
    hide Start, EncodeBlock, SendRun;
    hide Proto.PackDataSeq, Proto.PackRepairSeq, Proto.UnpackDataSeq, Proto.UnpackRepairSeq;
    AllEncodedIff(c, sent);
    WiresAreGenuine(c, sent);
    var q: nat :| GenuineFor(c, sent, w, q);
    SourceOf(c, sent, q);
    if w.Data? {
      Proto.SeqRoundTrips(w.id, w.idx, 0, 0, 0);
    } else {
      Proto.SeqRoundTrips(w.id, 0, w.idx, c.k % 0x100, c.r % 0x100);
    }
  }
}
