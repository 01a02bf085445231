/** The server's hub: a learning switch whose fast path skips most writes to the address table. */
module Hub {
  import opened Bytes

  const SECOND := 1_000_000_000
  const MINUTE := 60 * SECOND
  const MAC_TABLE_TTL := 5 * MINUTE

  datatype Entry = Entry(session: nat, expires: int, ip: Option<Frame>)
  type Table = map<Frame, Entry>

  /** Shorter frames have no two addresses; Forward ignores them. */
  predicate HasAddresses(f: Frame)
  {
    |f| >= 12
  }

  function Dst(f: Frame): Frame
    requires HasAddresses(f)
  {
    f[..6]
  }

  function Src(f: Frame): Frame
    requires HasAddresses(f)
  {
    f[6..12]
  }

  /** Broadcast and multicast addresses have the low bit of the first byte set. */
  predicate IsGroup(f: Frame)
    requires HasAddresses(f)
  {
    f[0] % 2 == 1
  }

  function Lookup(table: Table, mac: Frame): Option<Entry>
  {
    if mac in table then Some(table[mac]) else None
  }

  // ---------- Forward on values ----------

  /** The slow path is taken for an unknown source, a source that moved, or an entry in its last minute. */
  predicate NeedUpdate(known: Option<Entry>, session: nat, now: int)
  {
    known.None? || known.value.session != session || known.value.expires - now < MINUTE
  }

  predicate Moved(known: Option<Entry>, session: nat)
  {
    known.Some? && known.value.session != session
  }

  const ARP := 0x0806
  const IPV4 := 0x0800

  /** The IPv4 address an entry gets: the sender of an ARP or IPv4 frame, else what was known. */
  function LearnedIP(known: Option<Entry>, f: Frame): Option<Frame>
  {
    var prior := if known.Some? then known.value.ip else None;
    if |f| < 14 then prior
    else if U16(f[12], f[13]) == ARP && |f| >= 32 then Some(f[28..32])
    else if U16(f[12], f[13]) == IPV4 && |f| >= 30 then Some(f[26..30])
    else prior
  }

  /** The table after the learning half of Forward. */
  function Learn(table: Table, session: nat, f: Frame, now: int): Table
    requires HasAddresses(f)
  {
    var known := Lookup(table, Src(f));
    if NeedUpdate(known, session, now)
    then table[Src(f) := Entry(session, now + MAC_TABLE_TTL, LearnedIP(known, f))]
    else table
  }

  /** Who gets a frame whose destination looks up to dst. */
  function Targets(clients: set<nat>, dst: Option<nat>, session: nat, group: bool): set<nat>
  {
    if dst.Some? && !group && dst.value in clients then {dst.value} - {session}
    else clients - {session}
  }

  function SessionOf(e: Option<Entry>): Option<nat>
  {
    if e.None? then None else Some(e.value.session)
  }

  /** Who gets a frame. */
  function SentTo(table: Table, clients: set<nat>, session: nat, f: Frame): set<nat>
    requires HasAddresses(f)
  {
    Targets(clients, SessionOf(Lookup(table, Dst(f))), session, IsGroup(f))
  }

  function Purge(table: Table, now: int): Table
  {
    map mac | mac in table && now <= table[mac].expires :: table[mac]
  }

  // ---------- the hub object ----------

  datatype Client = Client(sessionID: nat, login: string)

  class Switch {
    var clients: map<nat, Client>
    var macTable: Table
    var lastFlapLog: Option<int>
    var flapCount: nat

    ghost predicate Valid()
      reads this
    {
      forall s :: s in clients ==> clients[s].sessionID == s
    }

    constructor ()
      ensures Valid() && clients == map[] && macTable == map[] && lastFlapLog == None && flapCount == 0
    {
      clients := map[];
      macTable := map[];
      lastFlapLog := None;
      flapCount := 0;
    }

    method Join(c: Client)
      requires Valid()
      modifies this`clients
      ensures Valid() && clients == old(clients)[c.sessionID := c]
    {
      clients := clients[c.sessionID := c];
    }

    method Leave(session: nat)
      requires Valid()
      modifies this`clients
      ensures Valid() && clients == old(clients) - {session}
    {
      clients := clients - {session};
    }

    /** Forward: learns the source, then sends to the returned sessions, in order. */
    method Forward(session: nat, f: Frame, now: int) returns (sent: seq<nat>)
      requires Valid()
      modifies this`macTable, this`lastFlapLog, this`flapCount
      ensures Valid()
      ensures !HasAddresses(f) ==> sent == [] && macTable == old(macTable)
      ensures HasAddresses(f) ==> macTable == Learn(old(macTable), session, f, now)
      ensures HasAddresses(f) ==> forall s :: s in sent <==> s in SentTo(macTable, clients.Keys, session, f)
      ensures forall i, j :: 0 <= i < j < |sent| ==> sent[i] != sent[j]
      ensures session !in sent
      ensures var moved := HasAddresses(f) && Moved(Lookup(old(macTable), Src(f)), session);
        && flapCount == old(flapCount) + (if moved then 1 else 0)
        && lastFlapLog == if moved && (old(lastFlapLog).None? || now - old(lastFlapLog).value > 5 * SECOND)
                          then Some(now) else old(lastFlapLog)
    {
      if |f| < 12 {
        return [];
      }
      LearnSource(session, f, now);
      sent := Send(session, f);
    }

    /** The first half: diagnostics for a source that moved, and the slow path that writes the table. */
    method LearnSource(session: nat, f: Frame, now: int)
      requires Valid() && HasAddresses(f)
      modifies this`macTable, this`lastFlapLog, this`flapCount
      ensures Valid() && macTable == Learn(old(macTable), session, f, now)
      ensures var moved := Moved(Lookup(old(macTable), Src(f)), session);
        && flapCount == old(flapCount) + (if moved then 1 else 0)
        && lastFlapLog == if moved && (old(lastFlapLog).None? || now - old(lastFlapLog).value > 5 * SECOND)
                          then Some(now) else old(lastFlapLog)
    {
      var src := f[6..12];
      var srcKnown := src in macTable;
      var moved := srcKnown && macTable[src].session != session;
      var needUpdate := !srcKnown || macTable[src].session != session || macTable[src].expires - now < MINUTE;
      if moved {
        if lastFlapLog.None? || now - lastFlapLog.value > 5 * SECOND {
          lastFlapLog := Some(now);
        }
        flapCount := flapCount + 1;
      }
      if needUpdate {
        var ip := if srcKnown then macTable[src].ip else None;
        if |f| >= 14 {
          var etype := U16(f[12], f[13]);
          if etype == 0x0806 {
            if |f| >= 32 {
              ip := Some(f[28..32]);
            }
          } else if etype == 0x0800 {
            if |f| >= 30 {
              ip := Some(f[26..30]);
            }
          }
        }
        macTable := macTable[src := Entry(session, now + MAC_TABLE_TTL, ip)];
      }
    }

    /** The second half: unicast to a live known destination, else flood. */
    method Send(session: nat, f: Frame) returns (sent: seq<nat>)
      requires Valid() && HasAddresses(f)
      ensures forall s :: s in sent <==> s in SentTo(macTable, clients.Keys, session, f)
      ensures forall i, j :: 0 <= i < j < |sent| ==> sent[i] != sent[j]
      ensures session !in sent
    {
      var dst := f[0..6];
      assert dst == Dst(f);
      var isBroadcast := dst == [0xff, 0xff, 0xff, 0xff, 0xff, 0xff];
      var isMulticast := dst[0] % 2 != 0;
      if dst in macTable && !isBroadcast && !isMulticast {
        var to := macTable[dst].session;
        if to in clients {
          if clients[to].sessionID == session {
            return [];
          }
          return [to];
        }
      }
      sent := Others(session);
    }

    /** The flood list: every client but the source, once. */
    method Others(session: nat) returns (targets: seq<nat>)
      requires Valid()
      ensures forall s :: s in targets <==> s in clients && s != session
      ensures forall i, j :: 0 <= i < j < |targets| ==> targets[i] != targets[j]
    {
      targets := [];
      var rest := clients.Keys;
      while rest != {}
        invariant rest <= clients.Keys
        invariant forall s :: s in targets <==> s in clients.Keys - rest && s != session
        invariant forall i, j :: 0 <= i < j < |targets| ==> targets[i] != targets[j]
        decreases rest
      {
        var s :| s in rest;
        if clients[s].sessionID != session {
          targets := targets + [clients[s].sessionID];
        }
        rest := rest - {s};
      }
    }

    method PurgeMACTable(now: int)
      requires Valid()
      modifies this`macTable
      ensures Valid() && macTable == Purge(old(macTable), now)
    {
      ghost var was := macTable;
      var rest := macTable.Keys;
      while rest != {}
        invariant rest <= was.Keys
        invariant macTable == map mac | mac in was && (mac in rest || now <= was[mac].expires) :: was[mac]
        decreases rest
      {
        var mac :| mac in rest;
        if now > macTable[mac].expires {
          macTable := macTable - {mac};
        }
        rest := rest - {mac};
      }
    }
  }

  // ---------- runs against the always-learning switch ----------

  datatype Op =
    | JoinOp(session: nat)
    | LeaveOp(session: nat)
    | ForwardOp(from: nat, frame: Frame)
    | PurgeOp

  datatype Event = Event(now: int, op: Op)

  /** The reference: it writes on every frame and forgets nothing. */
  datatype Heard = Heard(session: nat, at: int)
  type Ideal = map<Frame, Heard>

  ghost function TableAfter(run: seq<Event>): Table
  {
    if run == [] then map[] else Step(TableAfter(run[..|run| - 1]), run[|run| - 1])
  }

  function Step(table: Table, e: Event): Table
  {
    match e.op
    case ForwardOp(s, f) => if HasAddresses(f) then Learn(table, s, f, e.now) else table
    case PurgeOp => Purge(table, e.now)
    case JoinOp(_) => table
    case LeaveOp(_) => table
  }

  ghost function IdealAfter(run: seq<Event>): Ideal
  {
    if run == [] then map[] else IdealStep(IdealAfter(run[..|run| - 1]), run[|run| - 1])
  }

  function IdealStep(ideal: Ideal, e: Event): Ideal
  {
    if e.op.ForwardOp? && HasAddresses(e.op.frame)
    then ideal[Src(e.op.frame) := Heard(e.op.from, e.now)]
    else ideal
  }

  predicate ClockMonotone(run: seq<Event>)
  {
    forall i, j :: 0 <= i <= j < |run| ==> run[i].now <= run[j].now
  }

  /** One address, as the table and the reference have it at an instant. */
  predicate Tracks(entry: Option<Entry>, heard: Option<Heard>, now: int)
  {
    && (heard.Some? ==> heard.value.at <= now)
    && (entry.Some? ==> heard.Some? && entry.value.session == heard.value.session)
    && (heard.Some? && entry.Some? ==>
          heard.value.at + 60_000_000_000 <= entry.value.expires <= heard.value.at + 300_000_000_000)
    && (heard.Some? && entry.None? ==> now - heard.value.at > 60_000_000_000)
  }

  function LookupHeard(ideal: Ideal, mac: Frame): Option<Heard>
  {
    if mac in ideal then Some(ideal[mac]) else None
  }

  lemma StepTracks(table: Table, ideal: Ideal, e: Event, before: int, mac: Frame)
    requires Tracks(Lookup(table, mac), LookupHeard(ideal, mac), before) && before <= e.now
    ensures Tracks(Lookup(Step(table, e), mac), LookupHeard(IdealStep(ideal, e), mac), e.now)
  {
    hide LearnedIP;
  }

  /** Refinement of one address: after any run, an entry names the last session its address was heard
      from and lives between one and five minutes past that; an address heard in the last minute has
      its entry. */
  lemma {:induction false} RunTracks(run: seq<Event>, mac: Frame, now: int)
    requires ClockMonotone(run) && (run != [] ==> run[|run| - 1].now <= now)
    ensures Tracks(Lookup(TableAfter(run), mac), LookupHeard(IdealAfter(run), mac), now)
  {
    if run != [] {
      hide Step, IdealStep;
      var n := |run| - 1;
      var before := run[..n];
      assert before != [] ==> before[n - 1] == run[n - 1];
      RunTracks(before, mac, run[n].now);
      StepTracks(TableAfter(before), IdealAfter(before), run[n], run[n].now, mac);
    }
  }

  /** Where the reference sends. */
  function IdealTargets(clients: set<nat>, ideal: Ideal, session: nat, f: Frame): set<nat>
    requires HasAddresses(f)
  {
    var dst := if Dst(f) in ideal then Some(ideal[Dst(f)].session) else None;
    Targets(clients, dst, session, IsGroup(f))
  }

  /** The session is gone, so both flood, or nobody else could be reached. */
  predicate FloodIsUnicast(clients: set<nat>, source: nat, session: nat)
  {
    session !in clients || clients - {source} == {session} - {source}
  }

  /** Main theorem. After any run and one more frame, the switch reaches every client the reference
      reaches and never the source; it reaches exactly those if and only if the destination was never heard,
      is a group, has its entry still, as it has for a minute at least, or its session is gone or the only one
      a flood would reach. */
  lemma FastPathRefinesAlwaysLearning(run: seq<Event>, clients: set<nat>)
    requires ClockMonotone(run) && run != []
    requires run[|run| - 1].op.ForwardOp? && HasAddresses(run[|run| - 1].op.frame)
    ensures var e := run[|run| - 1]; var f, s := e.op.frame, e.op.from;
      var heard := LookupHeard(IdealAfter(run), Dst(f));
      var entry := Lookup(TableAfter(run), Dst(f));
      var fast := SentTo(TableAfter(run), clients, s, f);
      var ideal := IdealTargets(clients, IdealAfter(run), s, f);
      && s !in fast && ideal <= fast
      && (heard.Some? && e.now - heard.value.at <= 60_000_000_000 ==> entry.Some?)
      && (ideal == fast <==>
            heard.None? || IsGroup(f) || entry.Some? || FloodIsUnicast(clients, s, heard.value.session))
  {
    hide TableAfter, IdealAfter;
    var e := run[|run| - 1];
    RunTracks(run, Dst(e.op.frame), e.now);
  }

  /** A purge forgets exactly what was silent past the entry's life: an address heard in the last minute
      stays, one silent for more than five minutes goes. */
  lemma PurgeForgetsTheSilent(run: seq<Event>, mac: Frame)
    requires ClockMonotone(run) && run != [] && run[|run| - 1].op == PurgeOp
    ensures var now := run[|run| - 1].now; var heard := LookupHeard(IdealAfter(run), mac);
      && (heard.Some? && now - heard.value.at <= 60_000_000_000 ==> mac in TableAfter(run))
      && (heard.None? || now - heard.value.at > 300_000_000_000 ==> mac !in TableAfter(run))
  {
    var n := |run| - 1;
    RunTracks(run, mac, run[n].now);
    if mac in TableAfter(run) {
      assert Lookup(TableAfter(run), mac).value.expires >= run[n].now;
    }
  }

  /** A frame is counted as a flap exactly when the table still has its source on another session; so
      the count rises only if the last frame of that source came from another session. */
  lemma FlapMeansTheSourceMoved(run: seq<Event>, session: nat, f: Frame, now: int)
    requires ClockMonotone(run) && HasAddresses(f) && (run != [] ==> run[|run| - 1].now <= now)
    ensures var heard := LookupHeard(IdealAfter(run), Src(f)); var entry := Lookup(TableAfter(run), Src(f));
      && (Moved(entry, session) ==> heard.Some? && heard.value.session != session)
      && (heard.Some? && heard.value.session != session && now - heard.value.at <= 60_000_000_000 ==>
            Moved(entry, session))
  {
    hide TableAfter, IdealAfter;
    RunTracks(run, Src(f), now);
  }

  // ---------- delivery in terms of the bytes ----------

  /** The sessions joined after a run. */
  function JoinedAfter(run: seq<Event>): set<nat>
  {
    if run == [] then {}
    else
      var before := JoinedAfter(run[..|run| - 1]);
      match run[|run| - 1].op
      case JoinOp(s) => before + {s}
      case LeaveOp(s) => before - {s}
      case ForwardOp(_, _) => before
      case PurgeOp => before
  }

  /** The last frame of a run with an address in bytes 6 to 11: whose it was, and when. */
  function LastFrom(run: seq<Event>, mac: Frame): Option<Heard>
  {
    if run == [] then None
    else
      var e := run[|run| - 1];
      if e.op.ForwardOp? && |e.op.frame| >= 12 && e.op.frame[6..12] == mac then Some(Heard(e.op.from, e.now))
      else LastFrom(run[..|run| - 1], mac)
  }

  lemma {:induction false} LastFromIsHeard(run: seq<Event>, mac: Frame)
    ensures LastFrom(run, mac) == LookupHeard(IdealAfter(run), mac)
  {
    if run != [] {
      LastFromIsHeard(run[..|run| - 1], mac);
    }
  }

  /** Main theorem. Where a frame goes, from its bytes and the run alone. To a group address, or to one never
      heard from, it goes to every joined session but its own. To an address heard from in the last minute it
      goes to that session only, if that is joined and not its own; if it is its own, nowhere; if it has
      left, to all others. To an address silent for longer it goes one of these two ways. */
  lemma DeliveredByBytes(run: seq<Event>)
    requires ClockMonotone(run) && run != []
    requires run[|run| - 1].op.ForwardOp? && |run[|run| - 1].op.frame| >= 12
    ensures var e := run[|run| - 1]; var f, s, joined := e.op.frame, e.op.from, JoinedAfter(run);
      var heard := LastFrom(run, f[..6]);
      var sent := SentTo(TableAfter(run), joined, s, f);
      && (f[0] % 2 == 1 || heard.None? ==> sent == joined - {s})
      && (f[0] % 2 == 0 && heard.Some? ==>
            var one := if heard.value.session in joined then {heard.value.session} - {s} else joined - {s};
            (sent == one || sent == joined - {s}) && (e.now - heard.value.at <= 60_000_000_000 ==> sent == one))
  {
    hide TableAfter, IdealAfter, LastFrom;
    var e := run[|run| - 1];
    RunTracks(run, e.op.frame[..6], e.now);
    LastFromIsHeard(run, e.op.frame[..6]);
  }

  /** What a frame teaches, from its bytes: the entry of bytes 6 to 11 is written if and only if there is none,
      it names another session or has less than a minute left; then it names this session for five minutes,
      with the sender of an ARP or IPv4 packet as its address, or else the one it had. */
  lemma LearnedByBytes(table: Table, session: nat, f: Frame, now: int)
    requires |f| >= 12
    ensures var src, table' := f[6..12], Learn(table, session, f, now);
      var settled := src in table && table[src].session == session && table[src].expires - now >= 60_000_000_000;
      var ip := if |f| >= 32 && f[12] == 8 && f[13] == 6 then Some(f[28..32])
                else if |f| >= 30 && f[12] == 8 && f[13] == 0 then Some(f[26..30])
                else if src in table then table[src].ip else None;
      table' == if settled then table else table[src := Entry(session, now + 300_000_000_000, ip)]
  {
  }
}
