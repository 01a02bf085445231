/** The sending side of the FEC pipe as it is: an encoder that buffers a block and a pipe that
    numbers packets, proved against the sender on values of module FecEndToEnd. */
module FecPipe {
  import opened Bytes
  import opened Erasure
  import opened FecSpec
  import opened FecEndToEnd

  class Encoder {
    const c: Code
    var buf: seq<Frame>
    var blockID: nat

    constructor (c: Code)
      ensures this.c == c && buf == [] && blockID == 0
    {
      this.c, buf, blockID := c, [], 0;
    }

    /** Encoder.Add: None is nil, no repair symbols. */
    method Add(pkt: Frame) returns (repairs: Option<seq<Frame>>)
      modifies this
      ensures |old(buf)| + 1 < c.k ==> repairs == None && buf == old(buf) + [pkt] && blockID == old(blockID)
      ensures |old(buf)| + 1 >= c.k ==>
        repairs == EncodeBlock(c, old(buf) + [pkt]) && buf == [] && blockID == (old(blockID) + 1) % U32_MOD
    {
      buf := buf + [pkt];
      if |buf| < c.k {
        return None;
      }
      if c.r == 0 {
        repairs := None;
      } else if c.r == 1 {
        var parity := ComputeParity(buf);
        repairs := Some([parity[..]]);
      } else {
        repairs := c.rs.encode(PadAll(buf, MaxLen(buf)));
      }
      buf := [];
      blockID := (blockID + 1) % U32_MOD;
    }
  }

  // ---------- what one send gives to the callbacks ----------

  const QUEUE_CAP := 2048

  /** repairJob: the repair symbols of a full block and when they are due. */
  datatype Job = Job(sendAt: int, id: nat, repairs: seq<Frame>)

  function JobWires(j: Job): seq<Wire>
  {
    RepairWires(j.id, j.repairs)
  }

  /** The calls made of a list when the first refusal ends it. */
  function Attempted(ws: seq<Wire>, accepts: Wire -> bool): (r: seq<Wire>)
    ensures r <= ws
    ensures r == ws <== AllAccepted(ws, accepts)
  {
    if ws == [] then []
    else if !accepts(ws[0]) then [ws[0]]
    else [ws[0]] + Attempted(ws[1..], accepts)
  }

  predicate AllAccepted(ws: seq<Wire>, accepts: Wire -> bool)
  {
    forall w :: w in ws ==> accepts(w)
  }

  /** The first refusal, or the end. */
  lemma {:induction false} AttemptedUpTo(ws: seq<Wire>, i: nat, accepts: Wire -> bool)
    requires i <= |ws| && (forall j :: 0 <= j < i ==> accepts(ws[j])) && (i < |ws| ==> !accepts(ws[i]))
    ensures Attempted(ws, accepts) == if i < |ws| then ws[..i + 1] else ws
    ensures AllAccepted(ws, accepts) <==> i == |ws|
  {
    if i > 0 {
      AttemptedUpTo(ws[1..], i - 1, accepts);
      assert ws == [ws[0]] + ws[1..];
    }
  }

  lemma JobIs(j: Job)
    ensures JobWires(j) == RepairWires(j.id, j.repairs)
  {
  }

  lemma JobWiresAre(j: Job)
    ensures |JobWires(j)| == |j.repairs|
    ensures forall i :: 0 <= i < |j.repairs| ==> JobWires(j)[i] == Repair(j.id, i % 0x100, j.repairs[i])
  {
  }

  /** The callbacks' part of a send: the calls made, whether it returns an error, and the repair queue. */
  datatype Outcome = Outcome(calls: seq<Wire>, failed: bool, queue: seq<Job>)

  /** Of a data packet and its block's repair symbols, if the block is full. */
  function Dispatch(data: Wire, job: Option<Job>, canRepair: bool, delayed: bool, queue: seq<Job>,
                    accepts: Wire -> bool): Outcome
  {
    if !accepts(data) then Outcome([data], true, queue)
    else if job.None? || job.value.repairs == [] || !canRepair then Outcome([data], false, queue)
    else if delayed && |queue| < QUEUE_CAP then Outcome([data], false, queue + [job.value])
    else if delayed then Outcome([data] + JobWires(job.value), false, queue)
    else Outcome([data] + Attempted(JobWires(job.value), accepts), !AllAccepted(JobWires(job.value), accepts), queue)
  }

  /** The repair symbols of the block that a frame completes. */
  ghost function JobFor(c: Code, s: Sender, frame: Frame, sendAt: int): Option<Job>
  {
    var full := s.buf + [frame];
    if |full| < c.k || EncodeBlock(c, full).None? then None
    else Some(Job(sendAt, s.blockID, EncodeBlock(c, full).value))
  }

  class Pipe {
    const c: Code
    const enc: Encoder
    const canRepair: bool
    const repairDelay: int
    var pktIdx: nat
    var repairQueue: seq<Job>
    var inHand: Option<Job>

    ghost predicate Valid()
      reads this
    {
      enc.c == c
    }

    ghost function View(): Sender
      reads this, enc
    {
      Sender(enc.buf, enc.blockID, pktIdx)
    }

    constructor (c: Code, canRepair: bool, repairDelay: int)
      ensures Valid() && this.c == c && View() == NEW_SENDER && fresh(enc)
      ensures this.canRepair == canRepair && this.repairDelay == repairDelay && repairQueue == [] && inHand == None
    {
      this.c, this.canRepair, this.repairDelay := c, canRepair, repairDelay;
      pktIdx, repairQueue, inHand := 0, [], None;
      enc := new Encoder(c);
    }

    /** Pipe.Send: numbering, and the callbacks in order until one refuses. */
    method Send(frame: Frame, now: int, accepts: Wire -> bool) returns (calls: seq<Wire>, failed: bool)
      requires Valid()
      modifies this`pktIdx, this`repairQueue, enc
      ensures Valid()
      ensures View() == SendStep(c, old(View()), frame).0
      ensures Outcome(calls, failed, repairQueue) ==
        Dispatch(Data(old(enc.blockID), old(pktIdx), frame), JobFor(c, old(View()), frame, now + repairDelay),
                 canRepair, repairDelay > 0, old(repairQueue), accepts)
    {
      hide EncodeBlock, Attempted, AllAccepted, RepairWires;
      var currentBlockID := enc.blockID;
      var currentPktIdx := pktIdx;
      var repairs := enc.Add(frame);
      pktIdx := (pktIdx + 1) % U16_MOD;
      if repairs.Some? {
        pktIdx := 0;
      }
      var data := Data(currentBlockID, currentPktIdx, frame);
      calls := [data];
      if !accepts(data) {
        return calls, true;
      }
      if repairs.None? || |repairs.value| == 0 || !canRepair {
        return calls, false;
      }
      var job := Job(now + repairDelay, currentBlockID, repairs.value);
      if repairDelay > 0 {
        if |repairQueue| < QUEUE_CAP {
          repairQueue := repairQueue + [job];
          return calls, false;
        }
        var all := SendAll(job);
        return calls + all, false;
      }
      var some, ok := SendUntilRefused(job, accepts);
      return calls + some, !ok;
    }

    /** The loop that ignores errors. */
    method SendAll(job: Job) returns (calls: seq<Wire>)
      ensures calls == JobWires(job)
    {
      calls := [];
      for i := 0 to |job.repairs|
        invariant calls == JobWires(job)[..i]
      {
        calls := calls + [Repair(job.id, i % 0x100, job.repairs[i])];
      }
    }

    /** The loop that returns the first error. */
    method SendUntilRefused(job: Job, accepts: Wire -> bool) returns (calls: seq<Wire>, ok: bool)
      ensures calls == Attempted(JobWires(job), accepts) && ok == AllAccepted(JobWires(job), accepts)
    {
      hide Attempted, AllAccepted, JobWires;
      ghost var ws := JobWires(job);
      JobWiresAre(job);
      calls := [];
      for i := 0 to |job.repairs|
        invariant calls == ws[..i]
        invariant forall j :: 0 <= j < i ==> accepts(ws[j])
      {
        var w := Repair(job.id, i % 0x100, job.repairs[i]);
        calls := calls + [w];
        assert calls == ws[..i + 1];
        if !accepts(w) {
          AttemptedUpTo(ws, i, accepts);
          return calls, false;
        }
      }
      AttemptedUpTo(ws, |ws|, accepts);
      assert ws[..|ws|] == ws;
      return calls, true;
    }

    /** The background sender takes a job off the channel, and only then waits for its time. */
    method TakeJob()
      requires Valid()
      modifies this`repairQueue, this`inHand
      ensures var take := old(inHand).None? && old(repairQueue) != [];
        && inHand == (if take then Some(old(repairQueue)[0]) else old(inHand))
        && repairQueue == if take then old(repairQueue)[1..] else old(repairQueue)
    {
      if inHand.None? && repairQueue != [] {
        inHand := Some(repairQueue[0]);
        repairQueue := repairQueue[1..];
      }
    }

    /** Its timer has fired: the job in hand is sent whatever the callbacks answer. */
    method SendDue(now: int) returns (calls: seq<Wire>)
      requires Valid()
      modifies this`inHand
      ensures var due := old(inHand).Some? && old(inHand).value.sendAt <= now;
        && calls == (if due then JobWires(old(inHand).value) else [])
        && inHand == if due then None else old(inHand)
    {
      if inHand.None? || inHand.value.sendAt > now {
        return [];
      }
      calls := SendAll(inHand.value);
      inHand := None;
    }
  }

  // ---------- the callbacks against the sender's packets ----------

  function Queued(queue: seq<Job>): seq<Wire>
  {
    if queue == [] then [] else Queued(queue[..|queue| - 1]) + JobWires(queue[|queue| - 1])
  }

  /** A send and the jobs it queues give out nothing but the packets of that send, in their order; and
      all of them when every callback accepts. */
  lemma DispatchIsOfTheStep(c: Code, s: Sender, frame: Frame, sendAt: int, canRepair: bool, delayed: bool,
                            queue: seq<Job>, accepts: Wire -> bool)
    ensures var job := JobFor(c, s, frame, sendAt);
      var o := Dispatch(Data(s.blockID, s.pktIdx, frame), job, canRepair, delayed, queue, accepts);
      var all := SendStep(c, s, frame).1;
      && queue <= o.queue
      && o.calls + Queued(o.queue[|queue|..]) <= all
      && (canRepair && AllAccepted(all, accepts) ==> !o.failed && o.calls + Queued(o.queue[|queue|..]) == all)
  {
    hide EncodeBlock, JobWires;
    var full := s.buf + [frame];
    var data := Data(s.blockID, s.pktIdx, frame);
    var all := SendStep(c, s, frame).1;
    assert data in all;
    assert queue[|queue|..] == [] && forall j :: (queue + [j])[|queue|..] == [j];
    if |full| >= c.k && EncodeBlock(c, full).Some? {
      var job := Job(sendAt, s.blockID, EncodeBlock(c, full).value);
      assert all == [data] + JobWires(job) by {
        JobIs(job);
      }
      assert forall w :: w in JobWires(job) ==> w in all;
      assert [job][..0] == [] && Queued([job]) == [] + JobWires(job);
    }
  }

  /** How many calls of a list are made: up to and with the first refusal, or all. */
  predicate StopsAt(ws: seq<Wire>, accepts: Wire -> bool, n: nat)
  {
    && n <= |ws| && (forall i :: 0 <= i < n - 1 ==> accepts(ws[i]))
    && (n < |ws| ==> n > 0 && !accepts(ws[n - 1]))
  }

  lemma {:induction false} AttemptedStops(ws: seq<Wire>, accepts: Wire -> bool)
    ensures var n := |Attempted(ws, accepts)|;
      && n <= |ws| && Attempted(ws, accepts) == ws[..n] && StopsAt(ws, accepts, n)
      && (AllAccepted(ws, accepts) <==> n == |ws| && (n > 0 ==> accepts(ws[n - 1])))
  {
    if ws == [] {
      assert AllAccepted(ws, accepts);
    } else if accepts(ws[0]) {
      AttemptedStops(ws[1..], accepts);
      StopsAfterOne(ws, accepts, |Attempted(ws[1..], accepts)|);
    } else {
      assert [ws[0]] == ws[..1];
    }
  }

  lemma StopsAfterOne(ws: seq<Wire>, accepts: Wire -> bool, n: nat)
    requires ws != [] && accepts(ws[0]) && n < |ws| && StopsAt(ws[1..], accepts, n)
    ensures StopsAt(ws, accepts, n + 1) && ws[..n + 1] == [ws[0]] + ws[1..][..n]
    ensures n > 0 ==> ws[n] == ws[1..][n - 1]
    ensures AllAccepted(ws, accepts) <==> AllAccepted(ws[1..], accepts)
  {
    var rest := ws[1..];
    assert ws == [ws[0]] + rest;
    assert forall i :: 0 < i < |ws| ==> ws[i] == rest[i - 1];
  }

  lemma StopsAfterData(data: Wire, ws: seq<Wire>, accepts: Wire -> bool)
    requires accepts(data) && ws != []
    ensures var calls := [data] + Attempted(ws, accepts);
      && calls == [data] + ws[..|calls| - 1] && StopsAt([data] + ws, accepts, |calls|)
      && (!AllAccepted(ws, accepts) <==> !accepts(calls[|calls| - 1]))
  {
    AttemptedStops(ws, accepts);
    hide AllAccepted, Attempted;
    var made := Attempted(ws, accepts);
    var calls, all := [data] + made, [data] + ws;
    assert |made| > 0 && calls[|calls| - 1] == made[|made| - 1] == ws[|made| - 1];
    assert forall i :: 0 < i < |all| ==> all[i] == ws[i - 1];
  }

  /** Main theorem. Which callbacks a send makes, when it fails and what it queues: a refused frame ends it with
      an error. After an accepted one the block's repairs, if it is full and they can be sent, are queued while
      there is a delay and room; sent at once, refusals ignored, when the queue is full; and without a delay
      sent up to the first refusal, which is the error. */
  lemma SendsUntilRefused(data: Wire, job: Option<Job>, canRepair: bool, delayed: bool, queue: seq<Job>,
                          accepts: Wire -> bool)
    ensures var o := Dispatch(data, job, canRepair, delayed, queue, accepts);
      var repairs := if job.None? || !canRepair then [] else JobWires(job.value);
      if !accepts(data) then o == Outcome([data], true, queue)
      else if repairs == [] then o == Outcome([data], false, queue)
      else if delayed && |queue| < 2048 then o == Outcome([data], false, queue + [job.value])
      else if delayed then o == Outcome([data] + repairs, false, queue)
      else
        && o.calls == [data] + repairs[..|o.calls| - 1] && o.queue == queue
        && StopsAt([data] + repairs, accepts, |o.calls|) && (o.failed <==> !accepts(o.calls[|o.calls| - 1]))
  {
    if job.Some? && accepts(data) && canRepair {
      hide JobWires, Attempted, AllAccepted, StopsAt;
      JobWiresAre(job.value);
      if job.value.repairs != [] {
        StopsAfterData(data, JobWires(job.value), accepts);
      }
    }
  }

  // ---------- runs of sends and of the background sender ----------

  datatype Act = Send(frame: Frame, now: int, accepts: Wire -> bool) | Take | Due(now: int)

  /** The pipe, the job in the background sender's hand and every callback made so far. */
  datatype Sending = Sending(s: Sender, queue: seq<Job>, inHand: Option<Job>, calls: seq<Wire>)

  ghost function ActStep(c: Code, canRepair: bool, delay: int, st: Sending, a: Act): Sending
  {
    match a
    case Send(f, now, accepts) =>
      var data, job := Data(st.s.blockID, st.s.pktIdx, f), JobFor(c, st.s, f, now + delay);
      var o := Dispatch(data, job, canRepair, delay > 0, st.queue, accepts);
      Sending(SendStep(c, st.s, f).0, o.queue, st.inHand, st.calls + o.calls)
    case Take =>
      if st.inHand.None? && st.queue != [] then st.(inHand := Some(st.queue[0]), queue := st.queue[1..]) else st
    case Due(now) =>
      if st.inHand.Some? && st.inHand.value.sendAt <= now
      then st.(inHand := None, calls := st.calls + JobWires(st.inHand.value)) else st
  }

  ghost function SendingAfter(c: Code, canRepair: bool, delay: int, acts: seq<Act>): Sending
  {
    if acts == [] then Sending(NEW_SENDER, [], None, [])
    else ActStep(c, canRepair, delay, SendingAfter(c, canRepair, delay, acts[..|acts| - 1]), acts[|acts| - 1])
  }

  /** The frames sent in a run. */
  function SentIn(acts: seq<Act>): seq<Frame>
  {
    if acts == [] then []
    else
      var a := acts[|acts| - 1];
      SentIn(acts[..|acts| - 1]) + if a.Send? then [a.frame] else []
  }

  /** What is still to be given out. */
  function Waiting(st: Sending): seq<Wire>
  {
    (if st.inHand.Some? then JobWires(st.inHand.value) else []) + Queued(st.queue)
  }

  /** No callback of the run refuses, and repairs can be sent. */
  ghost predicate AllAccept(canRepair: bool, acts: seq<Act>)
  {
    canRepair && forall a :: a in acts ==> Accepting(a)
  }

  ghost predicate Accepting(a: Act)
  {
    a.Send? ==> forall w :: a.accepts(w)
  }

  lemma AllAcceptSplit(canRepair: bool, acts: seq<Act>)
    requires acts != [] && AllAccept(canRepair, acts)
    ensures canRepair && AllAccept(canRepair, acts[..|acts| - 1]) && Accepting(acts[|acts| - 1])
  {
    hide Accepting;
    assert forall x :: x in acts[..|acts| - 1] ==> x in acts;
  }

  lemma {:induction false} QueuedConcat(a: seq<Job>, b: seq<Job>)
    ensures Queued(a + b) == Queued(a) + Queued(b)
  {
    hide JobWires;
    if b == [] {
      assert a + b == a;
    } else {
      var n := |b| - 1;
      assert (a + b)[..|a + b| - 1] == a + b[..n];
      QueuedConcat(a, b[..n]);
    }
  }

  lemma QueuedFirst(queue: seq<Job>)
    requires queue != []
    ensures Queued(queue) == JobWires(queue[0]) + Queued(queue[1..])
  {
    hide JobWires;
    var one := [queue[0]];
    assert queue == one + queue[1..] && one[..0] == [];
    QueuedConcat(one, queue[1..]);
    assert Queued(one) == [] + JobWires(queue[0]) == JobWires(queue[0]);
  }

  /** What a run has made of the packets of its frames: all given out or waiting, none twice. */
  ghost predicate Accounted(st: Sending, all: seq<Wire>, complete: bool)
  {
    && multiset(st.calls) + multiset(Waiting(st)) <= multiset(all)
    && (complete ==> multiset(st.calls) + multiset(Waiting(st)) == multiset(all))
  }

  lemma WaitingGrows(st: Sending, queued: seq<Job>)
    ensures Waiting(st.(queue := st.queue + queued)) == Waiting(st) + Queued(queued)
  {
    hide JobWires, Queued;
    QueuedConcat(st.queue, queued);
  }

  /** A prefix of the packets in two parts, and the rest of them. */
  lemma PrefixParts(a: seq<Wire>, b: seq<Wire>, all: seq<Wire>)
    requires a + b <= all
    ensures multiset(a) + multiset(b) <= multiset(all)
    ensures a + b == all ==> multiset(a) + multiset(b) == multiset(all)
  {
    assert all == a + b + all[|a + b|..];
  }

  /** What is given out and queued of new packets is accounted for with the rest. */
  lemma AccountedMore(st: Sending, st': Sending, all: seq<Wire>, calls: seq<Wire>, queued: seq<Job>,
                      more: seq<Wire>, complete: bool)
    requires Accounted(st, all, complete)
    requires st'.calls == st.calls + calls && Waiting(st') == Waiting(st) + Queued(queued)
    requires calls + Queued(queued) <= more && (complete ==> calls + Queued(queued) == more)
    ensures Accounted(st', all + more, complete)
  {
    hide Waiting, Queued;
    PrefixParts(calls, Queued(queued), more);
    assert multiset(st'.calls) == multiset(st.calls) + multiset(calls);
    assert multiset(Waiting(st')) == multiset(Waiting(st)) + multiset(Queued(queued));
    assert multiset(all + more) == multiset(all) + multiset(more);
  }

  lemma SendAccounted(c: Code, canRepair: bool, delay: int, st: Sending, a: Act, all: seq<Wire>, complete: bool)
    requires a.Send? && Accounted(st, all, complete)
    requires complete ==> canRepair && Accepting(a)
    ensures Accounted(ActStep(c, canRepair, delay, st, a), all + SendStep(c, st.s, a.frame).1, complete)
  {
    hide Dispatch, SendStep, JobFor, Queued, Accounted, Waiting;
    var data, job := Data(st.s.blockID, st.s.pktIdx, a.frame), JobFor(c, st.s, a.frame, a.now + delay);
    var o := Dispatch(data, job, canRepair, delay > 0, st.queue, a.accepts);
    DispatchIsOfTheStep(c, st.s, a.frame, a.now + delay, canRepair, delay > 0, st.queue, a.accepts);
    var queued := o.queue[|st.queue|..];
    assert o.queue == st.queue + queued;
    WaitingGrows(st, queued);
    var st' := ActStep(c, canRepair, delay, st, a);
    WaitingIs(st', st.(queue := st.queue + queued));
    AccountedMore(st, st', all, o.calls, queued, SendStep(c, st.s, a.frame).1, complete);
  }

  lemma WaitingIs(x: Sending, y: Sending)
    requires x.queue == y.queue && x.inHand == y.inHand
    ensures Waiting(x) == Waiting(y)
  {
  }

  lemma BackgroundAccounted(c: Code, canRepair: bool, delay: int, st: Sending, a: Act, all: seq<Wire>, complete: bool)
    requires !a.Send? && Accounted(st, all, complete)
    ensures Accounted(ActStep(c, canRepair, delay, st, a), all, complete)
  {
    hide JobWires, Queued;
    var rest := Queued(st.queue);
    assert [] + rest == rest;
    if a.Take? && st.inHand.None? && st.queue != [] {
      QueuedFirst(st.queue);
    }
  }

  lemma NothingSent(c: Code, complete: bool)
    ensures SendRun(c, []) == (NEW_SENDER, [])
    ensures Accounted(Sending(NEW_SENDER, [], None, []), [], complete)
  {
  }

  lemma AccountedEither(st: Sending, all: seq<Wire>, before: bool, complete: bool)
    requires Accounted(st, all, before) && (complete ==> before)
    ensures Accounted(st, all, complete)
  {
  }

  lemma ActSender(c: Code, canRepair: bool, delay: int, st: Sending, a: Act)
    ensures ActStep(c, canRepair, delay, st, a).s == if a.Send? then SendStep(c, st.s, a.frame).0 else st.s
  {
  }

  lemma AccountedMembers(st: Sending, all: seq<Wire>, complete: bool)
    requires Accounted(st, all, complete)
    ensures forall w :: w in st.calls ==> w in all
  {
    forall w | w in st.calls
      ensures w in all
    {
      assert multiset(st.calls)[w] > 0;
      assert multiset(all)[w] > 0;
    }
  }

  /** One act more. */
  lemma ActAccounted(c: Code, canRepair: bool, delay: int, st: Sending, a: Act, sent: seq<Frame>, complete: bool)
    requires (complete ==> canRepair && Accepting(a)) && st.s == SendRun(c, sent).0
    requires Accounted(st, SendRun(c, sent).1, complete)
    ensures var st' := ActStep(c, canRepair, delay, st, a); var sent' := sent + if a.Send? then [a.frame] else [];
      st'.s == SendRun(c, sent').0 && Accounted(st', SendRun(c, sent').1, complete)
  {
    hide Accounted, ActStep, SendStep, Accepting;
    ActSender(c, canRepair, delay, st, a);
    if a.Send? {
      SendAccounted(c, canRepair, delay, st, a, SendRun(c, sent).1, complete);
      assert (sent + [a.frame])[..|sent|] == sent;
    } else {
      BackgroundAccounted(c, canRepair, delay, st, a, SendRun(c, sent).1, complete);
      assert sent + [] == sent;
    }
  }

  lemma {:induction false} RunAccounted(c: Code, canRepair: bool, delay: int, acts: seq<Act>)
    ensures var st := SendingAfter(c, canRepair, delay, acts);
      && st.s == SendRun(c, SentIn(acts)).0
      && Accounted(st, SendRun(c, SentIn(acts)).1, AllAccept(canRepair, acts))
  {
    hide Accounted, ActStep, SendRun, AllAccept, Accepting;
    if acts == [] {
      NothingSent(c, AllAccept(canRepair, acts));
    } else {
      var n := |acts| - 1;
      var st, sent := SendingAfter(c, canRepair, delay, acts[..n]), SentIn(acts[..n]);
      RunAccounted(c, canRepair, delay, acts[..n]);
      if AllAccept(canRepair, acts) {
        AllAcceptSplit(canRepair, acts);
      }
      AccountedEither(st, SendRun(c, sent).1, AllAccept(canRepair, acts[..n]), AllAccept(canRepair, acts));
      ActAccounted(c, canRepair, delay, st, acts[n], sent, AllAccept(canRepair, acts));
    }
  }

  /** Main theorem. In every run of sends and turns of the background sender, with callbacks that may refuse
      and a queue that may overflow, every callback made is one of the packets of the frames sent, none made
      more often than it occurs there; and when nothing refuses, the callbacks made and the jobs waiting are
      all of them. */
  lemma CallbacksAreOfTheRun(c: Code, canRepair: bool, delay: int, acts: seq<Act>)
    ensures var st := SendingAfter(c, canRepair, delay, acts); var (s, all) := SendRun(c, SentIn(acts));
      && st.s == s
      && (forall w :: w in st.calls ==> w in all)
      && multiset(st.calls) + multiset(Waiting(st)) <= multiset(all)
      && (AllAccept(canRepair, acts) ==> multiset(st.calls) + multiset(Waiting(st)) == multiset(all))
  {
    hide SendingAfter, SendRun, AllAccept, Waiting;
    RunAccounted(c, canRepair, delay, acts);
    AccountedMembers(SendingAfter(c, canRepair, delay, acts), SendRun(c, SentIn(acts)).1, AllAccept(canRepair, acts));
  }

  /** So a channel that carries what the callbacks were given carries what the receiver's theorems assume. */
  lemma CallbacksMakeAChannel(c: Code, canRepair: bool, delay: int, acts: seq<Act>, evs: seq<Event>)
    requires forall e :: e in evs && e.Add? ==>
      exists w :: w in SendingAfter(c, canRepair, delay, acts).calls && e == Received(w, e.a.now)
    ensures Channel(c, SentIn(acts), evs)
  {
    hide SendingAfter, SendRun, AllAccept, Waiting;
    CallbacksAreOfTheRun(c, canRepair, delay, acts);
  }

  // ---------- repairs wait out the delay ----------

  /** The job is of the block that send p filled, and is due a delay after it. */
  ghost predicate QueuedBy(c: Code, delay: int, acts: seq<Act>, p: int, j: Job)
  {
    && 0 <= p < |acts| && acts[p].Send? && j.sendAt == acts[p].now + delay
    && SendStep(c, SendRun(c, SentIn(acts[..p])).0, acts[p].frame).1[1..] == JobWires(j)
  }

  /** Every job waiting was queued by some send. */
  ghost predicate AllQueued(c: Code, delay: int, acts: seq<Act>, st: Sending)
  {
    && (forall j :: j in st.queue ==> exists p :: QueuedBy(c, delay, acts, p, j))
    && (st.inHand.Some? ==> exists p :: QueuedBy(c, delay, acts, p, st.inHand.value))
  }

  lemma QueuedStays(c: Code, delay: int, acts: seq<Act>, a: Act, p: int, j: Job)
    requires QueuedBy(c, delay, acts, p, j)
    ensures QueuedBy(c, delay, acts + [a], p, j)
  {
    hide SendStep, SendRun;
    assert (acts + [a])[..p] == acts[..p];
  }

  lemma JobOfStep(c: Code, s: Sender, frame: Frame, sendAt: int)
    ensures var j := JobFor(c, s, frame, sendAt);
      j.Some? ==> j.value.sendAt == sendAt && SendStep(c, s, frame).1[1..] == JobWires(j.value)
  {
    hide EncodeBlock;
  }

  lemma DispatchQueues(data: Wire, job: Option<Job>, canRepair: bool, delayed: bool, queue: seq<Job>,
                       accepts: Wire -> bool, j: Job)
    ensures j in Dispatch(data, job, canRepair, delayed, queue, accepts).queue ==> j in queue || job == Some(j)
  {
  }

  lemma AllQueuedStep(c: Code, canRepair: bool, delay: int, acts: seq<Act>, a: Act)
    requires AllQueued(c, delay, acts, SendingAfter(c, canRepair, delay, acts))
    requires SendingAfter(c, canRepair, delay, acts).s == SendRun(c, SentIn(acts)).0
    ensures AllQueued(c, delay, acts + [a], ActStep(c, canRepair, delay, SendingAfter(c, canRepair, delay, acts), a))
  {
    hide SendingAfter, SendRun, SendStep, JobWires, JobFor, Dispatch, QueuedBy;
    var st := SendingAfter(c, canRepair, delay, acts);
    var st', all := ActStep(c, canRepair, delay, st, a), acts + [a];
    forall j | j in st'.queue || st'.inHand == Some(j)
      ensures exists p :: QueuedBy(c, delay, all, p, j)
    {
      if j in st.queue || st.inHand == Some(j) {
        var p :| QueuedBy(c, delay, acts, p, j);
        QueuedStays(c, delay, acts, a, p, j);
      } else {
        var data, job := Data(st.s.blockID, st.s.pktIdx, a.frame), JobFor(c, st.s, a.frame, a.now + delay);
        DispatchQueues(data, job, canRepair, delay > 0, st.queue, a.accepts, j);
        JobOfStep(c, st.s, a.frame, a.now + delay);
        QueuedLast(c, delay, acts, a, j);
      }
    }
  }

  lemma QueuedLast(c: Code, delay: int, acts: seq<Act>, a: Act, j: Job)
    requires a.Send? && j.sendAt == a.now + delay
    requires SendStep(c, SendRun(c, SentIn(acts)).0, a.frame).1[1..] == JobWires(j)
    ensures QueuedBy(c, delay, acts + [a], |acts|, j)
  {
    hide SendStep, SendRun;
    assert (acts + [a])[..|acts|] == acts;
  }

  lemma {:induction false} RunQueued(c: Code, canRepair: bool, delay: int, acts: seq<Act>)
    ensures AllQueued(c, delay, acts, SendingAfter(c, canRepair, delay, acts))
  {
    hide AllQueued, ActStep, SendRun;
    if acts == [] {
      assert AllQueued(c, delay, [], Sending(NEW_SENDER, [], None, [])) by { NoneQueued(c, delay); }
    } else {
      var n := |acts| - 1;
      RunQueued(c, canRepair, delay, acts[..n]);
      RunAccounted(c, canRepair, delay, acts[..n]);
      AllQueuedStep(c, canRepair, delay, acts[..n], acts[n]);
      assert acts == acts[..n] + [acts[n]];
    }
  }

  lemma NoneQueued(c: Code, delay: int)
    ensures AllQueued(c, delay, [], Sending(NEW_SENDER, [], None, []))
  {
  }

  /** Main theorem. In every run, what a turn of the background sender gives out is all the repair symbols of
      the block that one earlier send filled, and never before the delay after that send is over. */
  lemma RepairsWait(c: Code, canRepair: bool, delay: int, acts: seq<Act>, now: int)
    ensures var st := SendingAfter(c, canRepair, delay, acts);
      var st' := SendingAfter(c, canRepair, delay, acts + [Due(now)]);
      st'.calls != st.calls ==>
      exists p :: 0 <= p < |acts| && acts[p].Send? && acts[p].now + delay <= now &&
        st'.calls == st.calls + SendStep(c, SendRun(c, SentIn(acts[..p])).0, acts[p].frame).1[1..]
  {
    hide SendRun, SendStep, JobWires;
    RunQueued(c, canRepair, delay, acts);
    assert (acts + [Due(now)])[..|acts|] == acts;
    var st := SendingAfter(c, canRepair, delay, acts);
    if st.inHand.Some? && st.inHand.value.sendAt <= now {
      var p :| QueuedBy(c, delay, acts, p, st.inHand.value);
    }
  }
}
