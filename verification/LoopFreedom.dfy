/** The hub and all its bridges as one transition system: frames are lost, duplicated and reordered on
    every link, injected frames echo back with any bytes, and Forward calls interleave. */
module LoopFreedom {
  import opened Bytes
  import opened Hub
  import opened LoopGuard

  /** Where each address lives, each bridge's own address, and the hash of the byte guard. */
  datatype Config = Config(home: Frame -> nat, local: nat -> Frame, hash: Frame -> nat)

  /** One home session per address, the card's own address at its own session; no hash collisions. */
  ghost predicate Lawful(cfg: Config)
  {
    && (forall b: nat :: cfg.home(cfg.local(b)) == b)
    && (forall f: Frame, g: Frame :: FrameHash(cfg.hash, f) == FrameHash(cfg.hash, g) ==> Padded(f) == Padded(g))
  }

  /** The frame's source lives at the session, or the frame has no source. */
  predicate AtHome(cfg: Config, session: nat, f: Frame)
  {
    HasAddresses(f) ==> cfg.home(Src(f)) == session
  }

  predicate Foreign(cfg: Config, session: nat, f: Frame)
  {
    HasAddresses(f) && cfg.home(Src(f)) != session
  }

  // ---------- states ----------

  /** A Forward call under way: what it read of the table, and how far it is. */
  datatype Stage = Looked(update: bool) | Flooding
  datatype Job = Job(session: nat, frame: Frame, known: Option<Entry>, dst: Option<nat>, stage: Stage)

  datatype Sent = Sent(session: nat, frame: Frame)
  datatype Injection = Injection(session: nat, frame: Frame, at: int)

  /** Links are sets of all frames ever sent on them: receiving takes none out, so a receiver may see
      any of them never, once or many times, in any order. */
  datatype State = State(
    now: int,
    clients: set<nat>,
    table: Table,
    jobs: map<nat, Job>,
    flaps: nat,
    guards: map<nat, Guard>,
    originated: set<Sent>,
    uplink: set<Sent>,
    downlink: set<Sent>,
    injected: set<Injection>)

  const START := State(0, {}, map[], map[], 0, map[], {}, {}, {}, {})

  function GuardOf(st: State, b: nat): Guard
  {
    if b in st.guards then st.guards[b] else Guard(map[], None, map[])
  }

  predicate PassesAt(cfg: Config, st: State, b: nat, f: Frame)
  {
    Passes(GuardOf(st, b), cfg.local(b), cfg.hash, f, st.now)
  }

  // ---------- steps ----------

  datatype Event =
    | Tick(dt: nat)
    | Join(session: nat)
    | Leave(session: nat)
    | PurgeTable
    | Originate(b: nat, f: Frame)
    | Deliver(b: nat, f: Frame)
    | Echo(b: nat, f: Frame, of: Injection)
    | Look(job: nat, sent: Sent)
    | LearnStep(job: nat)
    | Route(job: nat)
    | Flood(job: nat)

  /** The premises on the world: local stations send from home; an echo carries the source of something
      injected there less than five minutes ago. The rest says which step a call is at. */
  ghost predicate Enabled(cfg: Config, st: State, e: Event)
  {
    match e
    case Originate(b, f) => AtHome(cfg, b, f)
    case Deliver(b, f) => Sent(b, f) in st.downlink
    case Echo(b, f, of) =>
      && of in st.injected && of.session == b && st.now - of.at < 300_000_000_000
      && HasAddresses(of.frame) && HasAddresses(f) && Src(f) == Src(of.frame)
    case Look(j, s) => s in st.uplink && HasAddresses(s.frame) && j !in st.jobs
    case LearnStep(j) => j in st.jobs && st.jobs[j].stage == Looked(true) && HasAddresses(st.jobs[j].frame)
    case Route(j) => j in st.jobs && st.jobs[j].stage == Looked(false) && HasAddresses(st.jobs[j].frame)
    case Flood(j) => j in st.jobs && st.jobs[j].stage == Flooding
    case Tick(_) => true
    case Join(_) => true
    case Leave(_) => true
    case PurgeTable => true
  }

  /** A frame read from the card: queued for the hub when the filter lets it through. */
  function ReadAt(cfg: Config, st: State, b: nat, f: Frame): State
  {
    if PassesAt(cfg, st, b, f) then st.(uplink := st.uplink + {Sent(b, f)}) else st
  }

  function OriginateAt(cfg: Config, st: State, b: nat, f: Frame): State
  {
    ReadAt(cfg, st.(originated := st.originated + {Sent(b, f)}), b, f)
  }

  function DeliverAt(cfg: Config, st: State, b: nat, f: Frame): State
  {
    st.(guards := st.guards[b := Injected(GuardOf(st, b), cfg.local(b), cfg.hash, f, st.now)],
        injected := st.injected + {Injection(b, f, st.now)})
  }

  /** The first read lock of Forward: both lookups and the decision to write. */
  function LookAt(st: State, j: nat, s: Sent): State
    requires HasAddresses(s.frame)
  {
    var known := Lookup(st.table, Src(s.frame));
    var job := Job(s.session, s.frame, known, SessionOf(Lookup(st.table, Dst(s.frame))),
                   Looked(NeedUpdate(known, s.session, st.now)));
    st.(jobs := st.jobs[j := job], flaps := st.flaps + if Moved(known, s.session) then 1 else 0)
  }

  /** The write lock: the entry is made from what the first read saw; the destination is read again. */
  function LearnAt(st: State, j: nat): State
    requires j in st.jobs && HasAddresses(st.jobs[j].frame)
  {
    var job := st.jobs[j];
    var entry := Entry(job.session, st.now + MAC_TABLE_TTL, LearnedIP(job.known, job.frame));
    var table := st.table[Src(job.frame) := entry];
    st.(table := table,
        jobs := st.jobs[j := job.(dst := SessionOf(Lookup(table, Dst(job.frame))), stage := Looked(false))])
  }

  /** The client lookup: unicast, drop, or on to the flood. */
  function RouteAt(st: State, j: nat): State
    requires j in st.jobs && HasAddresses(st.jobs[j].frame)
  {
    var job := st.jobs[j];
    if job.dst.Some? && !IsGroup(job.frame) && job.dst.value in st.clients then
      st.(jobs := st.jobs - {j},
          downlink := st.downlink + if job.dst.value == job.session then {} else {Sent(job.dst.value, job.frame)})
    else
      st.(jobs := st.jobs[j := job.(stage := Flooding)])
  }

  function FloodAt(st: State, j: nat): State
    requires j in st.jobs
  {
    var job := st.jobs[j];
    st.(jobs := st.jobs - {j},
        downlink := st.downlink + set s | s in st.clients && s != job.session :: Sent(s, job.frame))
  }

  /** A step; one that is not enabled changes nothing. */
  ghost function Next(cfg: Config, st: State, e: Event): State
  {
    if !Enabled(cfg, st, e) then st
    else match e
      case Tick(dt) => st.(now := st.now + dt)
      case Join(s) => st.(clients := st.clients + {s})
      case Leave(s) => st.(clients := st.clients - {s})
      case PurgeTable => st.(table := Purge(st.table, st.now))
      case Originate(b, f) => OriginateAt(cfg, st, b, f)
      case Deliver(b, f) => DeliverAt(cfg, st, b, f)
      case Echo(b, f, _) => ReadAt(cfg, st, b, f)
      case Look(j, s) => LookAt(st, j, s)
      case LearnStep(j) => LearnAt(st, j)
      case Route(j) => RouteAt(st, j)
      case Flood(j) => FloodAt(st, j)
  }

  ghost function After(cfg: Config, run: seq<Event>): State
  {
    if run == [] then START else Next(cfg, After(cfg, run[..|run| - 1]), run[|run| - 1])
  }

  /** The learning half of a Forward call that nothing interrupts, and its sending half. */
  function LearnAlone(st: State, j: nat, s: Sent): State
    requires HasAddresses(s.frame)
  {
    var looked := LookAt(st, j, s);
    if looked.jobs[j].stage.update then LearnAt(looked, j) else looked
  }

  function SendAlone(st: State, j: nat): State
    requires j in st.jobs && HasAddresses(st.jobs[j].frame)
  {
    var routed := RouteAt(st, j);
    if j in routed.jobs then FloodAt(routed, j) else routed
  }

  lemma LearnAloneIsLearn(st: State, j: nat, s: Sent)
    requires HasAddresses(s.frame) && j !in st.jobs
    ensures var st' := LearnAlone(st, j, s);
      && st'.table == Learn(st.table, s.session, s.frame, st.now)
      && st'.flaps == st.flaps + (if Moved(Lookup(st.table, Src(s.frame)), s.session) then 1 else 0)
      && st'.clients == st.clients && st'.downlink == st.downlink
      && j in st'.jobs && st'.jobs - {j} == st.jobs
      && st'.jobs[j].session == s.session && st'.jobs[j].frame == s.frame
      && st'.jobs[j].dst == SessionOf(Lookup(st'.table, Dst(s.frame)))
  {
    hide LearnedIP, NeedUpdate;
  }

  lemma SendAloneIsTargets(st: State, j: nat)
    requires j in st.jobs && HasAddresses(st.jobs[j].frame)
    ensures var st' := SendAlone(st, j); var job := st.jobs[j];
      && st'.downlink == st.downlink +
           (set x | x in Targets(st.clients, job.dst, job.session, IsGroup(job.frame)) :: Sent(x, job.frame))
      && st'.table == st.table && st'.flaps == st.flaps && st'.jobs == st.jobs - {j}
  {
    hide IsGroup;
  }

  /** Uninterrupted, the steps of a call are the Forward of module Hub: the same table, the same flap
      count and the same targets. */
  lemma ForwardAloneIsForward(st: State, j: nat, s: Sent)
    requires HasAddresses(s.frame) && j !in st.jobs
    ensures j in LearnAlone(st, j, s).jobs && HasAddresses(LearnAlone(st, j, s).jobs[j].frame)
    ensures var st' := SendAlone(LearnAlone(st, j, s), j);
      && st'.table == Learn(st.table, s.session, s.frame, st.now)
      && st'.flaps == st.flaps + (if Moved(Lookup(st.table, Src(s.frame)), s.session) then 1 else 0)
      && st'.downlink == st.downlink +
           (set x | x in SentTo(st'.table, st.clients, s.session, s.frame) :: Sent(x, s.frame))
      && st'.jobs == st.jobs
  {
    hide LearnAlone, SendAlone, Learn, Moved, Targets, IsGroup, Lookup;
    LearnAloneIsLearn(st, j, s);
    SendAloneIsTargets(LearnAlone(st, j, s), j);
  }

  // ---------- the joint invariant ----------

  ghost predicate LinksSafe(cfg: Config, st: State)
  {
    && (forall s :: s in st.uplink ==> AtHome(cfg, s.session, s.frame))
    && (forall s :: s in st.downlink ==> Foreign(cfg, s.session, s.frame))
    && (forall i :: i in st.injected ==> Foreign(cfg, i.session, i.frame))
  }

  ghost predicate TableSafe(cfg: Config, st: State)
  {
    forall mac :: mac in st.table ==> st.table[mac].session == cfg.home(mac)
  }

  ghost predicate JobsSafe(cfg: Config, st: State)
  {
    && (forall j :: j in st.jobs ==> !Foreign(cfg, st.jobs[j].session, st.jobs[j].frame))
    && (forall j :: j in st.jobs ==> HasAddresses(st.jobs[j].frame))
    && st.flaps == 0
  }

  /** A bridge's guard notes only sources and bytes from elsewhere. */
  ghost predicate GuardSafe(cfg: Config, g: Guard, b: nat)
  {
    && (forall mac :: mac in g.hubMACs ==> cfg.home(mac) != b)
    && (forall f: Frame :: HasAddresses(f) && cfg.home(Src(f)) == b ==> FrameHash(cfg.hash, f) !in g.dedup)
  }

  ghost predicate GuardsSafe(cfg: Config, st: State)
  {
    forall b :: b in st.guards ==> GuardSafe(cfg, st.guards[b], b)
  }

  /** What was injected is noted until five minutes have passed. */
  ghost predicate Noted(st: State, i: Injection)
    requires HasAddresses(i.frame)
  {
    var m := GuardOf(st, i.session).hubMACs;
    (Src(i.frame) in m && m[Src(i.frame)] >= i.at) || st.now - i.at > HUB_MAC_TTL
  }

  ghost predicate InjectionsNoted(st: State)
  {
    forall i :: i in st.injected ==> HasAddresses(i.frame) && Noted(st, i) && i.at <= st.now
  }

  /** The byte guard's second lookup sees the frame without its last four bytes, zero-padded: the source
      in that form lives here too. */
  predicate CutAtHome(cfg: Config, b: nat, f: Frame)
  {
    HasAddresses(f) && cfg.home(Padded(f[..|f| - 4])[6..12]) == b
  }

  /** The hub gets what local stations sent, and nothing else. */
  ghost predicate Transparent(cfg: Config, st: State)
  {
    && st.uplink <= st.originated
    && (forall s :: s in st.originated && CutAtHome(cfg, s.session, s.frame) ==> s in st.uplink)
  }

  ghost predicate Inv(cfg: Config, st: State)
  {
    && LinksSafe(cfg, st) && TableSafe(cfg, st) && JobsSafe(cfg, st) && GuardsSafe(cfg, st)
    && InjectionsNoted(st) && Transparent(cfg, st)
  }

  lemma GuardIsSafe(cfg: Config, st: State, b: nat)
    requires GuardsSafe(cfg, st)
    ensures GuardSafe(cfg, GuardOf(st, b), b)
  {
  }

  /** A local frame whose cut form looks local too passes both guards. */
  lemma LocalFramePasses(cfg: Config, st: State, b: nat, f: Frame)
    requires Lawful(cfg) && GuardsSafe(cfg, st) && AtHome(cfg, b, f) && CutAtHome(cfg, b, f)
    ensures PassesAt(cfg, st, b, f)
  {
    hide Padded, Lawful, GuardSafe, GuardsSafe;
    var g := GuardOf(st, b);
    GuardIsSafe(cfg, st, b);
    var cut := Padded(f[..|f| - 4]);
    assert Padded(cut) == cut;
    GuardHasNot(cfg, g, b, f);
    GuardHasNot(cfg, g, b, cut);
  }

  /** Neither map of a safe guard knows a local frame. */
  lemma GuardHasNot(cfg: Config, g: Guard, b: nat, f: Frame)
    requires GuardSafe(cfg, g, b) && HasAddresses(f) && cfg.home(Src(f)) == b
    ensures FrameHash(cfg.hash, f) !in g.dedup && Src(f) !in g.hubMACs
  {
    hide FrameHash;
  }

  /** An echo is dropped by its source, whatever became of its bytes. */
  lemma EchoIsDropped(cfg: Config, st: State, b: nat, f: Frame, of: Injection)
    requires Lawful(cfg) && LinksSafe(cfg, st) && InjectionsNoted(st) && Enabled(cfg, st, Echo(b, f, of))
    ensures !PassesAt(cfg, st, b, f)
  {
    hide DedupHit;
    assert Foreign(cfg, b, of.frame) && Noted(st, of);
    assert cfg.home(cfg.local(b)) == b;
  }

  lemma InjectedIsSafe(cfg: Config, g: Guard, b: nat, f: Frame, now: int)
    requires Lawful(cfg) && GuardSafe(cfg, g, b) && Foreign(cfg, b, f)
    ensures GuardSafe(cfg, Injected(g, cfg.local(b), cfg.hash, f, now), b)
  {
    hide FrameHash, Padded, SweepDue;
    SourceOfPadded(f);
    forall k: Frame | HasAddresses(k) && cfg.home(Src(k)) == b
      ensures FrameHash(cfg.hash, k) != FrameHash(cfg.hash, f)
    {
      SourceOfPadded(k);
    }
  }

  /** Padding keeps the source. */
  lemma SourceOfPadded(f: Frame)
    requires HasAddresses(f)
    ensures Padded(f)[6..12] == Src(f)
  {
    assert Padded(f)[..|f|][6..12] == Padded(f)[6..12];
  }

  /** Injecting notes the frame and keeps every other note that is still due. */
  lemma InjectedKeepsNotes(cfg: Config, st: State, b: nat, f: Frame, i: Injection)
    requires Lawful(cfg) && Foreign(cfg, b, f)
    requires HasAddresses(i.frame) && i.at <= st.now
    requires (i in st.injected && Noted(st, i)) || i == Injection(b, f, st.now)
    ensures Noted(DeliverAt(cfg, st, b, f), i)
  {
    hide DedupRecorded, FrameHash;
    assert cfg.home(cfg.local(b)) == b;
  }

  lemma DeliverKeeps(cfg: Config, st: State, b: nat, f: Frame)
    requires Lawful(cfg) && Inv(cfg, st) && Sent(b, f) in st.downlink
    ensures Inv(cfg, DeliverAt(cfg, st, b, f))
  {
    hide Injected, GuardSafe, Noted, Lawful;
    var st' := DeliverAt(cfg, st, b, f);
    GuardIsSafe(cfg, st, b);
    InjectedIsSafe(cfg, GuardOf(st, b), b, f, st.now);
    forall i | i in st'.injected ensures HasAddresses(i.frame) && Noted(st', i)
    {
      InjectedKeepsNotes(cfg, st, b, f, i);
    }
  }

  /** A step that touches no bridge and no link keeps what is said of them. */
  lemma SameGuards(cfg: Config, st: State, st': State)
    requires Inv(cfg, st) && st'.guards == st.guards && st'.injected == st.injected && st'.now == st.now
    ensures InjectionsNoted(st') && GuardsSafe(cfg, st')
    ensures st'.uplink == st.uplink && st'.downlink == st.downlink ==> LinksSafe(cfg, st')
  {
    hide GuardSafe;
    assert forall i :: i in st'.injected ==> HasAddresses(i.frame) && Noted(st, i) && Noted(st', i);
  }

  lemma ReadKeeps(cfg: Config, st: State, e: Event)
    requires Lawful(cfg) && Inv(cfg, st) && Enabled(cfg, st, e) && (e.Originate? || e.Echo?)
    ensures Inv(cfg, Next(cfg, st, e))
  {
    hide Passes, Lawful, GuardSafe, Noted;
    if e.Echo? {
      EchoIsDropped(cfg, st, e.b, e.f, e.of);
    } else if CutAtHome(cfg, e.b, e.f) {
      LocalFramePasses(cfg, st, e.b, e.f);
    }
    SameGuards(cfg, st, Next(cfg, st, e));
  }

  lemma LearningKeeps(cfg: Config, st: State, e: Event)
    requires Inv(cfg, st) && Enabled(cfg, st, e) && (e.Look? || e.LearnStep?)
    ensures Inv(cfg, Next(cfg, st, e))
  {
    hide GuardSafe, LearnedIP, Noted, LinksSafe, SessionOf;
    var st' := Next(cfg, st, e);
    SameGuards(cfg, st, st');
    if e.Look? {
      assert AtHome(cfg, e.sent.session, e.sent.frame) by { LinksGiveHome(cfg, st, e.sent); }
    }
  }

  lemma LinksGiveHome(cfg: Config, st: State, s: Sent)
    requires LinksSafe(cfg, st) && s in st.uplink
    ensures AtHome(cfg, s.session, s.frame)
  {
  }

  lemma SendingKeeps(cfg: Config, st: State, e: Event)
    requires Inv(cfg, st) && Enabled(cfg, st, e) && (e.Route? || e.Flood?)
    ensures Inv(cfg, Next(cfg, st, e))
  {
    hide GuardSafe, Noted;
    SameGuards(cfg, st, Next(cfg, st, e));
  }

  lemma WorldKeeps(cfg: Config, st: State, e: Event)
    requires Inv(cfg, st) && (e.Tick? || e.Join? || e.Leave? || e.PurgeTable?)
    ensures Inv(cfg, Next(cfg, st, e))
  {
    hide GuardSafe;
    var st' := Next(cfg, st, e);
    assert st'.guards == st.guards && st'.injected == st.injected && st'.now >= st.now;
    assert forall i :: i in st'.injected ==> HasAddresses(i.frame) && Noted(st, i) && Noted(st', i);
  }

  /** The joint invariant holds in every reachable state. */
  lemma {:induction false} Invariant(cfg: Config, run: seq<Event>)
    requires Lawful(cfg)
    ensures Inv(cfg, After(cfg, run))
  {
    hide Lawful, Inv, Enabled, Next;
    if run == [] {
      StartIsSafe(cfg);
    } else {
      var e := run[|run| - 1];
      Invariant(cfg, run[..|run| - 1]);
      NextKeeps(cfg, After(cfg, run[..|run| - 1]), e);
    }
  }

  lemma StartIsSafe(cfg: Config)
    ensures Inv(cfg, START)
  {
  }

  lemma NextKeeps(cfg: Config, st: State, e: Event)
    requires Lawful(cfg) && Inv(cfg, st)
    ensures Inv(cfg, Next(cfg, st, e))
  {
    hide Lawful, Inv;
    if !Enabled(cfg, st, e) {
    } else if e.Deliver? {
      DeliverKeeps(cfg, st, e.b, e.f);
    } else if e.Originate? || e.Echo? {
      ReadKeeps(cfg, st, e);
    } else if e.Look? || e.LearnStep? {
      LearningKeeps(cfg, st, e);
    } else if e.Route? || e.Flood? {
      SendingKeeps(cfg, st, e);
    } else {
      WorldKeeps(cfg, st, e);
    }
  }

  // ---------- main theorems ----------

  /** No table entry ever moves off the home of its address, and no flap is ever counted. */
  lemma NoEntryLeavesHome(cfg: Config, run: seq<Event>)
    requires Lawful(cfg)
    ensures var st := After(cfg, run);
      st.flaps == 0 && forall mac :: mac in st.table ==> st.table[mac].session == cfg.home(mac)
  {
    hide After, Lawful;
    Invariant(cfg, run);
  }

  /** From sixteen bytes on the cut form still has the whole source. */
  lemma FullFramesAreCutAtHome(cfg: Config, b: nat, f: Frame)
    requires |f| >= 16 && AtHome(cfg, b, f)
    ensures CutAtHome(cfg, b, f)
  {
    SourceOfPadded(f[..|f| - 4]);
    assert Src(f[..|f| - 4]) == Src(f);
  }

  lemma AfterOne(cfg: Config, run: seq<Event>, e: Event)
    ensures After(cfg, run + [e]) == Next(cfg, After(cfg, run), e)
  {
    assert (run + [e])[..|run|] == run;
  }

  /** A station sends a frame and the hub learns its source, the only client being elsewhere. */
  lemma ForeignFrameIsLearnt(cfg: Config, from: nat, b: nat, g: Frame) returns (run: seq<Event>)
    requires Lawful(cfg) && from != b && AtHome(cfg, from, g) && HasAddresses(g)
    ensures var st := After(cfg, run);
      && st.clients == {b} && st.guards == map[] && st.injected == {} && st.now == 0 && 0 in st.jobs
      && st.jobs[0].session == from && st.jobs[0].frame == g && st.jobs[0].stage == Looked(false)
      && (st.jobs[0].dst.Some? ==> st.jobs[0].dst.value == from)
  {
    hide Padded, FrameHash, Lawful, After, LearnedIP, IsGroup, AtHome;
    var s := Sent(from, g);
    assert After(cfg, []) == START by { AfterNone(cfg); }
    AfterOne(cfg, [], Join(b));
    run := [] + [Join(b)];
    AfterOne(cfg, run, Originate(from, g));
    run := run + [Originate(from, g)];
    assert s in After(cfg, run).uplink;
    AfterOne(cfg, run, Look(0, s));
    run := run + [Look(0, s)];
    AfterOne(cfg, run, LearnStep(0));
    run := run + [LearnStep(0)];
  }

  /** And then it reaches the client: it is flooded and injected there. */
  lemma ForeignFrameArrives(cfg: Config, from: nat, b: nat, g: Frame) returns (run: seq<Event>)
    requires Lawful(cfg) && from != b && AtHome(cfg, from, g) && HasAddresses(g)
    ensures After(cfg, run).now == 0
    ensures GuardOf(After(cfg, run), b).dedup == map[FrameHash(cfg.hash, g) := 0]
    ensures After(cfg, run).injected == {Injection(b, g, 0)}
  {
    hide Padded, FrameHash, Lawful, After, IsGroup, AtHome;
    run := ForeignFrameIsLearnt(cfg, from, b, g);
    AfterOne(cfg, run, Route(0));
    run := run + [Route(0)];
    AfterOne(cfg, run, Flood(0));
    run := run + [Flood(0)];
    assert Sent(b, g) in After(cfg, run).downlink;
    AfterOne(cfg, run, Deliver(b, g));
    run := run + [Deliver(b, g)];
  }

  lemma AfterNone(cfg: Config)
    ensures After(cfg, []) == START
  {
  }

  /** Main theorem, transparency exactly: a frame from a station on the segment is let through in every
      reachable state if and only if its form without the last four bytes, zero-padded, still has a
      source of that segment. Every frame of sixteen bytes or more does. */
  lemma LocalFramesReachTheHubIff(cfg: Config, b: nat, f: Frame)
    requires Lawful(cfg) && HasAddresses(f) && AtHome(cfg, b, f)
    ensures (forall run: seq<Event> :: PassesAt(cfg, After(cfg, run), b, f)) <==> CutAtHome(cfg, b, f)
    ensures |f| >= 16 ==> CutAtHome(cfg, b, f)
  {
    hide Lawful, After, PassesAt, CutAtHome, AtHome;
    if |f| >= 16 {
      FullFramesAreCutAtHome(cfg, b, f);
    }
    if CutAtHome(cfg, b, f) {
      forall run: seq<Event> ensures PassesAt(cfg, After(cfg, run), b, f)
      {
        Invariant(cfg, run);
        LocalFramePasses(cfg, After(cfg, run), b, f);
      }
    } else {
      var run := SuppressingRun(cfg, b, f);
      assert !PassesAt(cfg, After(cfg, run), b, f);
    }
  }

  /** Otherwise the station that padded source belongs to sends the cut form itself, and within 300 ms the
      byte guard takes the local frame for its echo. */
  lemma SuppressingRun(cfg: Config, b: nat, f: Frame) returns (run: seq<Event>)
    requires Lawful(cfg) && HasAddresses(f) && !CutAtHome(cfg, b, f)
    ensures !PassesAt(cfg, After(cfg, run), b, f)
  {
    hide Lawful, After, Padded;
    var g := Padded(f[..|f| - 4]);
    assert Padded(g) == g;
    run := ForeignFrameArrives(cfg, cfg.home(Src(g)), b, g);
    assert FrameHash(cfg.hash, g) == FrameHash(cfg.hash, f[..|f| - 4]);
  }

  /** The source guard alone suppresses no local frame of any length. */
  lemma LoopSeenSparesLocalFrames(cfg: Config, run: seq<Event>, b: nat, f: Frame)
    requires Lawful(cfg) && AtHome(cfg, b, f)
    ensures var st := After(cfg, run); !LoopHit(GuardOf(st, b).hubMACs, cfg.local(b), f, st.now)
  {
    hide After, Lawful;
    Invariant(cfg, run);
    var st := After(cfg, run);
    GuardIsSafe(cfg, st, b);
    if HasAddresses(f) {
      GuardHasNot(cfg, GuardOf(st, b), b, f);
    }
  }

  // ---------- exactly which foreign frames are dropped ----------

  /** The source was injected at the bridge less than five minutes ago. */
  ghost predicate SourceRecent(st: State, b: nat, mac: Frame)
  {
    exists i :: i in st.injected && i.session == b && HasAddresses(i.frame) && Src(i.frame) == mac
                && st.now - i.at < 300_000_000_000
  }

  /** What the guards have noted was injected at the time of the note. */
  ghost predicate SourceInjected(st: State, b: nat, mac: Frame, at: int)
  {
    exists i :: i in st.injected && i.session == b && HasAddresses(i.frame) && Src(i.frame) == mac && i.at == at
  }

  ghost predicate BytesInjected(cfg: Config, st: State, b: nat, h: nat, at: int)
  {
    exists i :: i in st.injected && i.session == b && FrameHash(cfg.hash, i.frame) == h && i.at == at
  }

  ghost predicate NotesAreInjections(cfg: Config, st: State, b: nat)
  {
    var g := GuardOf(st, b);
    && (forall mac :: mac in g.hubMACs ==> SourceInjected(st, b, mac, g.hubMACs[mac]))
    && (forall h :: h in g.dedup ==> BytesInjected(cfg, st, b, h, g.dedup[h]))
  }

  /** A note after an injection is of that injection, or was there before. */
  lemma NewNotes(cfg: Config, st: State, at: nat, f: Frame, b: nat)
    ensures var g, g' := GuardOf(st, b), GuardOf(DeliverAt(cfg, st, at, f), b);
      && (forall mac :: mac in g'.hubMACs ==>
            (at == b && HasAddresses(f) && Src(f) == mac && g'.hubMACs[mac] == st.now) ||
            (mac in g.hubMACs && g'.hubMACs[mac] == g.hubMACs[mac]))
      && (forall h :: h in g'.dedup ==>
            (at == b && FrameHash(cfg.hash, f) == h && g'.dedup[h] == st.now) ||
            (h in g.dedup && g'.dedup[h] == g.dedup[h]))
  {
    hide FrameHash, SweepDue;
  }

  lemma DeliverNotes(cfg: Config, st: State, at: nat, f: Frame, b: nat)
    requires NotesAreInjections(cfg, st, b)
    ensures NotesAreInjections(cfg, DeliverAt(cfg, st, at, f), b)
  {
    NewNotes(cfg, st, at, f, b);
    var st' := DeliverAt(cfg, st, at, f);
    var now := Injection(at, f, st.now);
    assert now in st'.injected && st.injected <= st'.injected;
    hide FrameHash, DeliverAt, GuardOf, HasAddresses, Injected;
    var g, g' := GuardOf(st, b), GuardOf(st', b);
    forall mac | mac in g'.hubMACs
      ensures SourceInjected(st', b, mac, g'.hubMACs[mac])
    {
      if mac in g.hubMACs && g'.hubMACs[mac] == g.hubMACs[mac] {
        SourceInjectedStays(st, st', b, mac, g.hubMACs[mac]);
      } else {
        assert now.session == b;
      }
    }
    forall h | h in g'.dedup
      ensures BytesInjected(cfg, st', b, h, g'.dedup[h])
    {
      if h in g.dedup && g'.dedup[h] == g.dedup[h] {
        BytesInjectedStays(cfg, st, st', b, h, g.dedup[h]);
      } else {
        assert now.session == b;
      }
    }
  }

  lemma SourceInjectedStays(st: State, st': State, b: nat, mac: Frame, at: int)
    requires SourceInjected(st, b, mac, at) && st.injected <= st'.injected
    ensures SourceInjected(st', b, mac, at)
  {
    var i :| i in st.injected && i.session == b && HasAddresses(i.frame) && Src(i.frame) == mac && i.at == at;
    assert i in st'.injected;
  }

  lemma BytesInjectedStays(cfg: Config, st: State, st': State, b: nat, h: nat, at: int)
    requires BytesInjected(cfg, st, b, h, at) && st.injected <= st'.injected
    ensures BytesInjected(cfg, st', b, h, at)
  {
    var i :| i in st.injected && i.session == b && FrameHash(cfg.hash, i.frame) == h && i.at == at;
    assert i in st'.injected;
  }

  lemma {:induction false} AllNotes(cfg: Config, run: seq<Event>, b: nat)
    ensures NotesAreInjections(cfg, After(cfg, run), b)
  {
    hide Enabled, NotesAreInjections, DeliverAt, PassesAt;
    if run == [] {
      NoNotes(cfg, b);
    } else {
      var st, e := After(cfg, run[..|run| - 1]), run[|run| - 1];
      AllNotes(cfg, run[..|run| - 1], b);
      if Enabled(cfg, st, e) && e.Deliver? {
        DeliverNotes(cfg, st, e.b, e.f, b);
      } else {
        OthersLeaveGuards(cfg, st, e);
        SameNotes(cfg, st, Next(cfg, st, e), b);
      }
    }
  }

  lemma NoNotes(cfg: Config, b: nat)
    ensures NotesAreInjections(cfg, START, b)
  {
  }

  lemma OthersLeaveGuards(cfg: Config, st: State, e: Event)
    requires !e.Deliver? || !Enabled(cfg, st, e)
    ensures Next(cfg, st, e).guards == st.guards && Next(cfg, st, e).injected == st.injected
  {
    hide PassesAt;
  }

  lemma SameNotes(cfg: Config, st: State, st': State, b: nat)
    requires NotesAreInjections(cfg, st, b) && st'.guards == st.guards && st'.injected == st.injected
    ensures NotesAreInjections(cfg, st', b)
  {
    var g := GuardOf(st, b);
    forall mac | mac in g.hubMACs ensures SourceInjected(st', b, mac, g.hubMACs[mac])
    {
      SourceInjectedStays(st, st', b, mac, g.hubMACs[mac]);
    }
    forall h | h in g.dedup ensures BytesInjected(cfg, st', b, h, g.dedup[h])
    {
      BytesInjectedStays(cfg, st, st', b, h, g.dedup[h]);
    }
  }

  /** A note of the same bytes is a note of the same source. */
  lemma SameBytesSameSource(cfg: Config, st: State, b: nat, f: Frame, at: int)
    requires Lawful(cfg) && LinksSafe(cfg, st) && HasAddresses(f)
    requires BytesInjected(cfg, st, b, FrameHash(cfg.hash, f), at) && st.now - at < 300_000_000_000
    ensures SourceRecent(st, b, Src(f))
  {
    hide Padded, FrameHash;
    var i :| i in st.injected && i.session == b && FrameHash(cfg.hash, i.frame) == FrameHash(cfg.hash, f) && i.at == at;
    SourceOfPadded(f);
    assert Foreign(cfg, b, i.frame);
    SourceOfPadded(i.frame);
  }

  /** Main theorem, the other half exactly: in every reachable state a full frame whose source does not
      live on the segment is dropped there if and only if that source was injected there less than five
      minutes ago. */
  lemma ForeignFramesAreDroppedIff(cfg: Config, run: seq<Event>, b: nat, f: Frame)
    requires Lawful(cfg) && Foreign(cfg, b, f) && |f| >= 16
    ensures var st := After(cfg, run); !PassesAt(cfg, st, b, f) <==> SourceRecent(st, b, Src(f))
  {
    hide After, Lawful, FrameHash, Padded, BytesInjected, SourceRecent;
    Invariant(cfg, run);
    AllNotes(cfg, run, b);
    var st := After(cfg, run);
    var g, h, cut := GuardOf(st, b), FrameHash(cfg.hash, f), f[..|f| - 4];
    assert Src(cut) == Src(f);
    if SourceRecent(st, b, Src(f)) {
      RecentIsDropped(cfg, st, b, f);
    } else {
      if LoopHit(g.hubMACs, cfg.local(b), f, st.now) {
        NotedIsRecent(st, b, Src(f), g.hubMACs[Src(f)]);
        assert false;
      }
      if h in g.dedup && st.now - g.dedup[h] < DEDUP_TTL {
        SameBytesSameSource(cfg, st, b, f, g.dedup[h]);
        assert false;
      }
      var h' := FrameHash(cfg.hash, cut);
      if h' in g.dedup && st.now - g.dedup[h'] < DEDUP_TTL {
        SameBytesSameSource(cfg, st, b, cut, g.dedup[h']);
        assert false;
      }
    }
  }

  lemma NotedIsRecent(st: State, b: nat, mac: Frame, at: int)
    requires SourceInjected(st, b, mac, at) && st.now - at < 300_000_000_000
    ensures SourceRecent(st, b, mac)
  {
  }

  lemma RecentIsDropped(cfg: Config, st: State, b: nat, f: Frame)
    requires Lawful(cfg) && Inv(cfg, st) && Foreign(cfg, b, f) && SourceRecent(st, b, Src(f))
    ensures !PassesAt(cfg, st, b, f)
  {
    hide DedupHit;
    var i :| i in st.injected && i.session == b && HasAddresses(i.frame) && Src(i.frame) == Src(f)
             && st.now - i.at < 300_000_000_000;
    assert Noted(st, i);
    assert cfg.home(cfg.local(b)) == b;
  }

  /** The five minutes are needed: an echo that comes back just then is let through, in the state in which
      a foreign frame was injected and nothing has happened since but time. */
  lemma ALateEchoPasses(cfg: Config, from: nat, b: nat, g: Frame) returns (run: seq<Event>)
    requires Lawful(cfg) && from != b && AtHome(cfg, from, g) && |g| >= 16
    ensures var st := After(cfg, run);
      Injection(b, g, st.now - 300_000_000_000) in st.injected && PassesAt(cfg, st, b, g)
  {
    hide Lawful, After, PassesAt;
    run := ForeignFrameArrives(cfg, from, b, g);
    AfterOne(cfg, run, Tick(300_000_000_000));
    run := run + [Tick(300_000_000_000)];
    ForeignFramesAreDroppedIff(cfg, run, b, g);
  }

  /** Loop freedom: an echo within five minutes of an injection with its source never reaches the hub, so
      every frame the hub gets was sent by a station on that segment, and no injected frame is sent up
      where it was injected. */
  lemma NothingLoops(cfg: Config, run: seq<Event>, b: nat, f: Frame, of: Injection)
    requires Lawful(cfg)
    ensures var st := After(cfg, run);
      && (Enabled(cfg, st, Echo(b, f, of)) ==> !PassesAt(cfg, st, b, f))
      && st.uplink <= st.originated
      && (of in st.injected ==> Sent(of.session, of.frame) !in st.uplink)
  {
    hide After, Lawful, Enabled, PassesAt;
    Invariant(cfg, run);
    var st := After(cfg, run);
    if Enabled(cfg, st, Echo(b, f, of)) {
      EchoIsDropped(cfg, st, b, f, of);
    }
    var s := Sent(of.session, of.frame);
    assert s in st.uplink ==> AtHome(cfg, s.session, s.frame);
    assert of in st.injected ==> Foreign(cfg, of.session, of.frame);
  }
}
