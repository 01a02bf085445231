/** The macOS bridge's loop guard: frames it injects come back in its reads and must not reach the hub. */
module LoopGuard {
  import opened Bytes
  import opened Hub

  const DEDUP_TTL := 300_000_000
  const HUB_MAC_TTL := 5 * MINUTE
  const SWEEP_INTERVAL := SECOND
  const MIN_ETHERNET := 60

  /** What the network card makes of a short frame. */
  function Padded(f: Frame): (r: Frame)
    ensures |r| >= 60 && |f| <= |r| && r[..|f|] == f
    ensures |f| >= 60 ==> r == f
    ensures |f| < 60 ==> |r| == 60 && forall i :: |f| <= i < 60 ==> r[i] == 0
  {
    if |f| < MIN_ETHERNET then f + seq(MIN_ETHERNET - |f|, _ => 0) else f
  }

  /** frameHash, over an abstract hash of the padded bytes. */
  function FrameHash(hash: Frame -> nat, f: Frame): nat
  {
    hash(Padded(f))
  }

  // ---------- the guard on values ----------

  type Times = map<Frame, int>

  datatype Guard = Guard(hubMACs: Times, lastHubSweep: Option<int>, dedup: map<nat, int>)

  function Unstale<K>(m: map<K, int>, now: int, ttl: int): map<K, int>
  {
    map k | k in m && now - m[k] <= ttl :: m[k]
  }

  function DedupRecorded(dedup: map<nat, int>, h: nat, now: int): map<nat, int>
  {
    Unstale(dedup[h := now], now, DEDUP_TTL)
  }

  /** The second lookup, without the last four bytes, is made only when the first finds no entry. */
  predicate DedupHit(dedup: map<nat, int>, hash: Frame -> nat, f: Frame, now: int)
  {
    var h := FrameHash(hash, f);
    if h in dedup then now - dedup[h] < DEDUP_TTL
    else |f| > 4 && (var h' := FrameHash(hash, f[..|f| - 4]);
      h' in dedup && now - dedup[h'] < DEDUP_TTL)
  }

  predicate SweepDue(last: Option<int>, now: int)
  {
    last.None? || now - last.value > SWEEP_INTERVAL
  }

  function HubMACRecorded(g: Guard, local: Frame, f: Frame, now: int): Guard
  {
    if !HasAddresses(f) || Src(f) == local then g
    else
      var noted := g.hubMACs[Src(f) := now];
      if SweepDue(g.lastHubSweep, now)
      then g.(hubMACs := Unstale(noted, now, HUB_MAC_TTL), lastHubSweep := Some(now))
      else g.(hubMACs := noted)
  }

  predicate LoopHit(hubMACs: Times, local: Frame, f: Frame, now: int)
  {
    HasAddresses(f) && Src(f) != local && Src(f) in hubMACs && now - hubMACs[Src(f)] < HUB_MAC_TTL
  }

  /** The recording half of WriteFrame. */
  function Injected(g: Guard, local: Frame, hash: Frame -> nat, f: Frame, now: int): Guard
  {
    if f == [] then g
    else HubMACRecorded(g.(dedup := DedupRecorded(g.dedup, FrameHash(hash, f), now)), local, f, now)
  }

  /** The filter of ReadFrame. */
  predicate Passes(g: Guard, local: Frame, hash: Frame -> nat, f: Frame, now: int)
  {
    !DedupHit(g.dedup, hash, f, now) && !LoopHit(g.hubMACs, local, f, now)
  }

  // ---------- reading the queue ----------

  /** What a read ends with: a frame, an empty queue, or the log line of a drop slicing f[6:12] of a runt. */
  datatype Read = Got(f: Frame) | Dry | Panicked

  /** The queued frames and the clock at their two lookups. */
  datatype Queue = Queue(frames: seq<Frame>, dedupAt: nat -> int, loopAt: nat -> int)

  predicate HitAt(g: Guard, hash: Frame -> nat, q: Queue, i: nat)
    requires i < |q.frames|
  {
    DedupHit(g.dedup, hash, q.frames[i], q.dedupAt(i))
  }

  predicate PassesAt(g: Guard, local: Frame, hash: Frame -> nat, q: Queue, i: nat)
    requires i < |q.frames|
  {
    !HitAt(g, hash, q, i) && !LoopHit(g.hubMACs, local, q.frames[i], q.loopAt(i))
  }

  /** The duplicates among the first n frames. */
  function Hits(g: Guard, hash: Frame -> nat, q: Queue, n: nat): nat
    requires n <= |q.frames|
  {
    if n == 0 then 0 else Hits(g, hash, q, n - 1) + if HitAt(g, hash, q, n - 1) then 1 else 0
  }

  predicate PanicsAt(g: Guard, hash: Frame -> nat, q: Queue, i: nat, drops: nat)
    requires i < |q.frames|
  {
    var count := drops + Hits(g, hash, q, i) + 1;
    HitAt(g, hash, q, i) && |q.frames[i]| < 12 && (count <= 10 || count % 100 == 0)
  }

  ghost predicate DroppedUpTo(g: Guard, local: Frame, hash: Frame -> nat, q: Queue, n: int, drops: nat)
  {
    && 0 <= n <= |q.frames|
    && forall i :: 0 <= i < n ==> !PassesAt(g, local, hash, q, i) && !PanicsAt(g, hash, q, i, drops)
  }

  lemma NoneDropped(g: Guard, local: Frame, hash: Frame -> nat, q: Queue, drops: nat)
    ensures DroppedUpTo(g, local, hash, q, 0, drops) && Hits(g, hash, q, 0) == 0
  {
  }

  /** What the loop does with frame n once the ones before it are dropped. */
  lemma DroppedNext(g: Guard, local: Frame, hash: Frame -> nat, q: Queue, n: nat, drops: nat)
    requires n < |q.frames| && DroppedUpTo(g, local, hash, q, n, drops)
    ensures var f := q.frames[n];
      if DedupHit(g.dedup, hash, f, q.dedupAt(n)) then
        && Hits(g, hash, q, n + 1) == Hits(g, hash, q, n) + 1
        && var count := drops + Hits(g, hash, q, n + 1);
           if (count <= 10 || count % 100 == 0) && |f| < 12 then PanicsAt(g, hash, q, n, drops)
           else DroppedUpTo(g, local, hash, q, n + 1, drops)
      else
        && Hits(g, hash, q, n + 1) == Hits(g, hash, q, n)
        && if LoopHit(g.hubMACs, local, f, q.loopAt(n)) then DroppedUpTo(g, local, hash, q, n + 1, drops)
           else PassesAt(g, local, hash, q, n)
  {
    hide DedupHit, LoopHit;
  }

  // ---------- the bridge object ----------

  class Bridge {
    const localMAC: Frame
    const hash: Frame -> nat
    var hubMACs: Times
    var lastHubSweep: Option<int>
    var dedupMap: map<nat, int>
    var pending: seq<Frame>
    var dedupDrops: nat
    var loopDrops: nat

    ghost function State(): Guard
      reads this
    {
      Guard(hubMACs, lastHubSweep, dedupMap)
    }

    constructor (localMAC: Frame, hash: Frame -> nat)
      ensures this.localMAC == localMAC && this.hash == hash
      ensures State() == Guard(map[], None, map[]) && pending == [] && dedupDrops == 0 && loopDrops == 0
    {
      this.localMAC, this.hash := localMAC, hash;
      hubMACs, lastHubSweep, dedupMap, pending := map[], None, map[], [];
      dedupDrops, loopDrops := 0, 0;
    }

    method DedupRecord(f: Frame, now: int)
      modifies this`dedupMap
      ensures dedupMap == DedupRecorded(old(dedupMap), FrameHash(hash, f), now)
    {
      dedupMap := dedupMap[FrameHash(hash, f) := now];
      dedupMap := Sweep(dedupMap, now, DEDUP_TTL);
    }

    /** The deletion loops of dedupRecord and hubMACRecord. */
    static method Sweep<K(==)>(m: map<K, int>, now: int, ttl: int) returns (r: map<K, int>)
      ensures r == Unstale(m, now, ttl)
    {
      r := m;
      var rest := m.Keys;
      while rest != {}
        invariant rest <= m.Keys
        invariant r == map k | k in m && (k in rest || now - m[k] <= ttl) :: m[k]
        decreases rest
      {
        var k :| k in rest;
        if now - r[k] > ttl {
          r := r - {k};
        }
        rest := rest - {k};
      }
    }

    method DedupSeen(f: Frame, now: int) returns (seen: bool)
      ensures seen == DedupHit(dedupMap, hash, f, now)
    {
      var h := FrameHash(hash, f);
      var ok := h in dedupMap;
      if !ok && |f| > 4 {
        h := FrameHash(hash, f[..|f| - 4]);
        ok := h in dedupMap;
      }
      return ok && now - dedupMap[h] < DEDUP_TTL;
    }

    method HubMACRecord(f: Frame, now: int)
      modifies this`hubMACs, this`lastHubSweep
      ensures State() == HubMACRecorded(old(State()), localMAC, f, now)
    {
      if |f| < 12 {
        return;
      }
      var src := f[6..12];
      if src == localMAC {
        return;
      }
      hubMACs := hubMACs[src := now];
      if lastHubSweep.None? || now - lastHubSweep.value > SWEEP_INTERVAL {
        hubMACs := Sweep(hubMACs, now, HUB_MAC_TTL);
        lastHubSweep := Some(now);
      }
    }

    method LoopSeen(f: Frame, now: int) returns (seen: bool)
      ensures seen == LoopHit(hubMACs, localMAC, f, now)
    {
      if |f| < 12 {
        return false;
      }
      var src := f[6..12];
      if src == localMAC {
        return false;
      }
      return src in hubMACs && now - hubMACs[src] < HUB_MAC_TTL;
    }

    /** The filtering loop of ReadFrame: it drops queued frames until one passes, a log line slices past the
        end of a runt, or the queue runs dry and the card must be read. Each lookup reads the clock anew. */
    method ReadQueued(dedupAt: nat -> int, loopAt: nat -> int) returns (r: Read)
      modifies this`pending, this`dedupDrops, this`loopDrops
      ensures State() == old(State())
      ensures |pending| <= |old(pending)| && pending == old(pending)[|old(pending)| - |pending|..]
      ensures var q := Queue(old(pending), dedupAt, loopAt); var taken := |old(pending)| - |pending|;
        && DroppedUpTo(State(), localMAC, hash, q, if r.Dry? then taken else taken - 1, old(dedupDrops))
        && dedupDrops == old(dedupDrops) + Hits(State(), hash, q, taken)
        && dedupDrops + loopDrops == old(dedupDrops + loopDrops) + (if r.Got? then taken - 1 else taken)
        && match r
           case Dry => pending == []
           case Got(f) => f == old(pending)[taken - 1] && PassesAt(State(), localMAC, hash, q, taken - 1)
           case Panicked => PanicsAt(State(), hash, q, taken - 1, old(dedupDrops))
    {
      hide FrameHash, DedupHit, LoopHit, DroppedUpTo, PanicsAt, PassesAt, HitAt, Hits;
      ghost var q := Queue(pending, dedupAt, loopAt);
      ghost var was, drops, g := pending, dedupDrops, State();
      var n := 0;
      NoneDropped(g, localMAC, hash, q, drops);
      while pending != []
        invariant 0 <= n <= |was| && pending == was[n..] && State() == g
        invariant DroppedUpTo(g, localMAC, hash, q, n, drops)
        invariant dedupDrops == drops + Hits(g, hash, q, n)
        invariant dedupDrops + loopDrops == old(dedupDrops + loopDrops) + n
        decreases |pending|
      {
        var f := pending[0];
        pending := pending[1..];
        n := n + 1;
        DroppedNext(g, localMAC, hash, q, n - 1, drops);
        var again := DedupSeen(f, dedupAt(n - 1));
        if again {
          dedupDrops := dedupDrops + 1;
          if (dedupDrops <= 10 || dedupDrops % 100 == 0) && |f| < 12 {
            return Panicked;
          }
          continue;
        }
        var loop := LoopSeen(f, loopAt(n - 1));
        if loop {
          loopDrops := loopDrops + 1;
          continue;
        }
        return Got(f);
      }
      return Dry;
    }

    method WriteFrame(f: Frame, now: int)
      modifies this`dedupMap, this`hubMACs, this`lastHubSweep
      ensures State() == Injected(old(State()), localMAC, hash, f, now)
    {
      if |f| == 0 {
        return;
      }
      DedupRecord(f, now);
      HubMACRecord(f, now);
    }
  }

  // ---------- runs of injections ----------

  datatype Write = Write(f: Frame, at: int)

  ghost function GuardAfter(local: Frame, hash: Frame -> nat, run: seq<Write>): Guard
  {
    if run == [] then Guard(map[], None, map[])
    else
      var n := |run| - 1;
      Injected(GuardAfter(local, hash, run[..n]), local, hash, run[n].f, run[n].at)
  }

  predicate ClockMonotone(run: seq<Write>)
  {
    forall i, j :: 0 <= i <= j < |run| ==> run[i].at <= run[j].at
  }

  /** When a source was last injected; None for never. */
  ghost function LastFrom(run: seq<Write>, mac: Frame): Option<int>
  {
    if run == [] then None
    else
      var n := |run| - 1;
      if HasAddresses(run[n].f) && Src(run[n].f) == mac then Some(run[n].at) else LastFrom(run[..n], mac)
  }

  /** When bytes with this hash were last injected. */
  ghost function LastHash(hash: Frame -> nat, run: seq<Write>, h: nat): Option<int>
  {
    if run == [] then None
    else
      var n := |run| - 1;
      if run[n].f != [] && hash(Padded(run[n].f)) == h then Some(run[n].at) else LastHash(hash, run[..n], h)
  }

  /** A key of one of the two maps, against the last time it was noted: never lost before its time. */
  predicate Keeps<K(==)>(m: map<K, int>, k: K, last: Option<int>, now: int, ttl: int)
  {
    && (last.Some? ==> last.value <= now)
    && (k in m ==> last == Some(m[k]))
    && (last.Some? && k !in m ==> now - last.value > ttl)
  }

  lemma {:induction false} HubMACsKeep(local: Frame, hash: Frame -> nat, run: seq<Write>, mac: Frame, now: int)
    requires ClockMonotone(run) && mac != local && (run != [] ==> run[|run| - 1].at <= now)
    ensures Keeps(GuardAfter(local, hash, run).hubMACs, mac, LastFrom(run, mac), now, HUB_MAC_TTL)
  {
    hide DedupRecorded, FrameHash, SweepDue;
    if run != [] {
      var n := |run| - 1;
      assert run[..n] != [] ==> run[..n][n - 1] == run[n - 1];
      HubMACsKeep(local, hash, run[..n], mac, run[n].at);
    }
  }

  lemma {:induction false} DedupKeeps(local: Frame, hash: Frame -> nat, run: seq<Write>, h: nat, now: int)
    requires ClockMonotone(run) && (run != [] ==> run[|run| - 1].at <= now)
    ensures Keeps(GuardAfter(local, hash, run).dedup, h, LastHash(hash, run, h), now, DEDUP_TTL)
  {
    hide Padded, SweepDue, HasAddresses;
    if run != [] {
      var n := |run| - 1;
      assert run[..n] != [] ==> run[..n][n - 1] == run[n - 1];
      DedupKeeps(local, hash, run[..n], h, run[n].at);
    }
  }

  /** When anything was last injected: each injection sweeps the map. */
  ghost function LastWrite(run: seq<Write>): Option<int>
  {
    if run == [] then None
    else if run[|run| - 1].f != [] then Some(run[|run| - 1].at)
    else LastWrite(run[..|run| - 1])
  }

  /** The note is still there: the last sweep found it at most 300 ms old. */
  predicate Kept(last: Option<int>, sweep: Option<int>)
  {
    last.Some? && sweep.Some? && sweep.value - last.value <= DEDUP_TTL
  }

  lemma {:induction false} DedupHolds(local: Frame, hash: Frame -> nat, run: seq<Write>, h: nat)
    requires ClockMonotone(run)
    ensures h in GuardAfter(local, hash, run).dedup <==> Kept(LastHash(hash, run, h), LastWrite(run))
    ensures LastHash(hash, run, h).Some? ==> LastWrite(run).Some? && LastWrite(run).value <= run[|run| - 1].at
  {
    hide Padded, SweepDue, HasAddresses;
    if run != [] {
      var n := |run| - 1;
      DedupHolds(local, hash, run[..n], h);
      assert run[..n] != [] ==> run[..n][n - 1] == run[n - 1];
      DedupKeeps(local, hash, run[..n], h, run[n].at);
    }
  }

  predicate Recent(last: Option<int>, now: int, ttl: int)
  {
    last.Some? && now - last.value < ttl
  }

  /** Main theorem for the source guard: whatever the sweeps did, loopSeen is true exactly for a frame
      whose source is not the host's own and was injected less than five minutes ago. */
  lemma {:induction false} LoopSeenIff(local: Frame, hash: Frame -> nat, run: seq<Write>, f: Frame, now: int)
    requires ClockMonotone(run) && (run != [] ==> run[|run| - 1].at <= now)
    ensures LoopHit(GuardAfter(local, hash, run).hubMACs, local, f, now) <==>
      HasAddresses(f) && Src(f) != local && Recent(LastFrom(run, Src(f)), now, 300_000_000_000)
  {
    hide GuardAfter, LastFrom;
    if HasAddresses(f) && Src(f) != local {
      HubMACsKeep(local, hash, run, Src(f), now);
    }
  }

  /** Main theorem for the byte guard, exactly: a frame is dropped if and only if it was injected less
      than 300 ms ago, as it is or padded, or it has no note left and its form without the last four
      bytes was. */
  lemma DedupSeenIff(local: Frame, hash: Frame -> nat, run: seq<Write>, f: Frame, now: int)
    requires ClockMonotone(run) && (run != [] ==> run[|run| - 1].at <= now)
    ensures var dedup := GuardAfter(local, hash, run).dedup;
      var exact := LastHash(hash, run, hash(Padded(f)));
      DedupHit(dedup, hash, f, now) <==>
        Recent(exact, now, 300_000_000) ||
        (|f| > 4 && !Kept(exact, LastWrite(run)) &&
         Recent(LastHash(hash, run, hash(Padded(f[..|f| - 4]))), now, 300_000_000))
  {
    hide GuardAfter, LastHash, Padded, LastWrite;
    DedupKeeps(local, hash, run, FrameHash(hash, f), now);
    DedupHolds(local, hash, run, FrameHash(hash, f));
    if |f| > 4 {
      DedupKeeps(local, hash, run, FrameHash(hash, f[..|f| - 4]), now);
      DedupHolds(local, hash, run, FrameHash(hash, f[..|f| - 4]));
    }
  }

  /** The condition on the note is needed: a stale one hides the shorter form. Bytes injected 400 ms ago
      and, 200 ms ago, the same without their last four are not recognised when they are read. */
  lemma AStaleNoteHidesTheCutForm(local: Frame, hash: Frame -> nat, f: Frame)
    requires |f| > 4 && FrameHash(hash, f) != FrameHash(hash, f[..|f| - 4])
    ensures var cut := f[..|f| - 4];
      var run := [Write(f, 0), Write(cut, 200_000_000)];
      && ClockMonotone(run)
      && Recent(LastHash(hash, run, FrameHash(hash, cut)), 400_000_000, 300_000_000)
      && !DedupHit(GuardAfter(local, hash, run).dedup, hash, f, 400_000_000)
  {
    hide Padded, GuardAfter, DedupHit;
    var cut := f[..|f| - 4];
    var run := [Write(f, 0), Write(cut, 200_000_000)];
    assert run[..1] == [run[0]] && run[..1][..0] == [];
    assert LastHash(hash, run[..1], FrameHash(hash, f)) == Some(0);
    assert LastHash(hash, run, FrameHash(hash, f)) == Some(0) && LastWrite(run) == Some(200_000_000);
    DedupSeenIff(local, hash, run, f, 400_000_000);
  }

  /** The card's own address is never noted. */
  lemma {:induction false} OwnAddressIsNeverNoted(local: Frame, hash: Frame -> nat, run: seq<Write>)
    ensures local !in GuardAfter(local, hash, run).hubMACs
  {
    if run != [] {
      hide DedupRecorded, FrameHash, SweepDue;
      OwnAddressIsNeverNoted(local, hash, run[..|run| - 1]);
    }
  }

  /** What a sweep left was at most five minutes old at that sweep. */
  ghost predicate HeldIsRecent(g: Guard, now: int)
  {
    forall mac :: mac in g.hubMACs ==>
      g.lastHubSweep.Some? && g.hubMACs[mac] <= now && g.lastHubSweep.value - g.hubMACs[mac] <= HUB_MAC_TTL
  }

  /** The map stays bounded by recent traffic: an injection leaves no source older than five minutes
      and one sweep interval. */
  lemma SweepsBoundTheMap(local: Frame, hash: Frame -> nat, run: seq<Write>)
    requires ClockMonotone(run) && run != []
    requires var n := |run| - 1; HasAddresses(run[n].f) && Src(run[n].f) != local
    ensures var g := GuardAfter(local, hash, run); var now := run[|run| - 1].at;
      forall mac :: mac in g.hubMACs ==> now - g.hubMACs[mac] <= 301_000_000_000
  {
    hide DedupRecorded, FrameHash;
    HeldStaysRecent(local, hash, run);
  }

  lemma {:induction false} HeldStaysRecent(local: Frame, hash: Frame -> nat, run: seq<Write>)
    requires ClockMonotone(run)
    ensures var g := GuardAfter(local, hash, run);
      run != [] ==> HeldIsRecent(g, run[|run| - 1].at)
    ensures run == [] ==> GuardAfter(local, hash, run).hubMACs == map[]
    ensures var g := GuardAfter(local, hash, run);
      g.lastHubSweep.Some? && run != [] ==>
        var last := run[|run| - 1];
        && g.lastHubSweep.value <= last.at
        && (HasAddresses(last.f) && Src(last.f) != local ==> !SweepDue(g.lastHubSweep, last.at))
  {
    hide DedupRecorded, FrameHash;
    if run != [] {
      var n := |run| - 1;
      assert run[..n] != [] ==> run[..n][n - 1] == run[n - 1];
      HeldStaysRecent(local, hash, run[..n]);
    }
  }
}
