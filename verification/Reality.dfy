/** Admission to the Reality listener: a replay cache of bounded memory combined with a time window. */
module Reality {
  import opened Bytes
  import opened ClientHello

  const SECOND := 1_000_000_000
  const I64_MAX := 0x7FFF_FFFF_FFFF_FFFF
  const I64_MOD := 0x1_0000_0000_0000_0000

  /** The longest distance in seconds that still fits a Go Duration. */
  const MAX_SECONDS := 9_223_372_036

  /** Go's int64 arithmetic: two's complement wrap-around. */
  function Wrap64(x: int): (r: int)
    ensures -I64_MAX - 1 <= r <= I64_MAX
  {
    (x + I64_MAX + 1) % I64_MOD - I64_MAX - 1
  }

  // ---------- the replay cache ----------

  type Seen = map<Frame, int>

  /** The entries fresh keeps. */
  function Unexpired(seen: Seen, now: int, ttl: int): Seen
  {
    map k | k in seen && now - seen[k] <= ttl :: seen[k]
  }

  /** replayCache.fresh on values. */
  function FreshStep(seen: Seen, key: Frame, now: int, ttl: int): (Seen, bool)
  {
    var kept := Unexpired(seen, now, ttl);
    if key in kept then (kept, false) else (kept[key := now], true)
  }

  class ReplayCache {
    var seen: Seen
    const ttl: int

    constructor (ttl: int)
      ensures seen == map[] && this.ttl == ttl
    {
      seen := map[];
      this.ttl := ttl;
    }

    /** fresh: drops what is older than the time to live, then records the key unless it is there. */
    method Fresh(key: Frame, now: int) returns (ok: bool)
      modifies this
      ensures (seen, ok) == FreshStep(old(seen), key, now, ttl)
    {
      ghost var was := seen;
      var rest := seen.Keys;
      while rest != {}
        invariant rest <= was.Keys
        invariant seen == map k | k in was && (k in rest || now - was[k] <= ttl) :: was[k]
        decreases rest
      {
        var k :| k in rest;
        if now - seen[k] > ttl {
          seen := seen - {k};
        }
        rest := rest - {k};
      }
      assert seen == Unexpired(was, now, ttl);
      if key in seen && now - seen[key] <= ttl {
        return false;
      }
      seen := seen[key := now];
      return true;
    }
  }

  // ---------- authentication ----------

  /** The foreign functions: X25519 and AES-GCM. open gives the plaintext of the auth blob. */
  datatype Crypto = Crypto(
    isPublicKey: Frame -> bool,
    ecdh: (nat, Frame) -> Option<Frame>,
    open: (Frame, Frame, Frame) -> Option<Frame>)

  datatype Params = Params(
    privs: seq<nat>,
    serverNames: seq<Frame>,
    shortIDs: seq<Frame>,
    timeWindow: nat,
    crypto: Crypto)

  const SHORT_ID_LEN := 8
  const SESSION_ID_LEN := 32

  /** openRealityAuth: the short id and the timestamp in a session id. */
  function OpenAuth(c: Crypto, shared: Frame, nonce: Frame, sessionID: Frame): Option<(Frame, int)>
  {
    if |sessionID| != SESSION_ID_LEN || |nonce| < 12 then None
    else match c.open(shared, nonce[..12], sessionID)
      case None => None
      case Some(plain) =>
        if |plain| != SHORT_ID_LEN + 8 then None
        else Some((plain[..SHORT_ID_LEN], Wrap64(FromBigEndian(plain[SHORT_ID_LEN..]))))
  }

  /** What the first matching private key finds in a hello. */
  function Blob(p: Params, ch: Parsed, pub: Frame, i: nat): Option<(Frame, int)>
    requires i <= |p.privs|
    decreases |p.privs| - i
  {
    if i == |p.privs| then None
    else match p.crypto.ecdh(p.privs[i], pub)
      case None => Blob(p, ch, pub, i + 1)
      case Some(shared) =>
        match OpenAuth(p.crypto, shared, ch.random, ch.sessionID)
        case None => Blob(p, ch, pub, i + 1)
        case Some(r) => Some(r)
  }

  /** The window test with Go's arithmetic: the distance, its product with a second and the configured
      window may wrap. */
  predicate InWindow(t: int, now: int, window: nat)
  {
    var skew := Wrap64(now - t);
    var dist := if skew < 0 then Wrap64(-skew) else skew;
    Wrap64(dist * SECOND) <= Wrap64(window * SECOND)
  }

  /** The timestamp of a hello that passes every check that does not depend on time. */
  function Timestamp(p: Params, ch: Parsed): Option<int>
  {
    if |p.serverNames| > 0 && ch.serverName !in p.serverNames then None
    else if ch.x25519Pub.None? || !p.crypto.isPublicKey(ch.x25519Pub.value) then None
    else match Blob(p, ch, ch.x25519Pub.value, 0)
      case None => None
      case Some((shortID, t)) => if shortID in p.shortIDs then Some(t) else None
  }

  /** The cache's time to live as BuildRealityServerParams computes it: the doubling may wrap. */
  function Ttl(p: Params): int
  {
    Wrap64(2 * p.timeWindow)
  }

  lemma TtlIsTwice(p: Params)
    requires 2 * p.timeWindow <= I64_MAX
    ensures Ttl(p) == 2 * p.timeWindow
  {
  }

  /** authenticate on values: the time window first, then the cache. */
  function AuthStep(p: Params, seen: Seen, ch: Parsed, now: int): (Seen, bool)
  {
    match Timestamp(p, ch)
    case None => (seen, false)
    case Some(t) =>
      if !InWindow(t, now, p.timeWindow) then (seen, false)
      else FreshStep(seen, ch.sessionID, now, Ttl(p))
  }

  /** The check a hello with no X25519 share fails before authenticate is called. */
  method Authenticate(p: Params, replay: ReplayCache, ch: Parsed, now: int) returns (ok: bool)
    requires replay.ttl == Ttl(p)
    modifies replay
    ensures (replay.seen, ok) == AuthStep(p, old(replay.seen), ch, now)
  {
    if |p.serverNames| > 0 {
      var allowed := Contains(p.serverNames, ch.serverName);
      if !allowed {
        return false;
      }
    }
    if ch.x25519Pub.None? || !p.crypto.isPublicKey(ch.x25519Pub.value) {
      return false;
    }
    var pub := ch.x25519Pub.value;
    for i := 0 to |p.privs|
      invariant replay.seen == old(replay.seen)
      invariant Blob(p, ch, pub, i) == Blob(p, ch, pub, 0)
    {
      var shared := p.crypto.ecdh(p.privs[i], pub);
      if shared.None? {
        continue;
      }
      var blob := OpenAuth(p.crypto, shared.value, ch.random, ch.sessionID);
      if blob.None? {
        continue;
      }
      var (shortID, t) := blob.value;
      var known := Contains(p.shortIDs, shortID);
      if !known {
        return false;
      }
      var skew := Wrap64(now - t);
      if skew < 0 {
        skew := Wrap64(-skew);
      }
      if Wrap64(skew * SECOND) > Wrap64(p.timeWindow * SECOND) {
        return false;
      }
      ok := replay.Fresh(ch.sessionID, now);
      return;
    }
    return false;
  }

  /** sniAllowed and shortIDAllowed. */
  method Contains(list: seq<Frame>, x: Frame) returns (found: bool)
    ensures found <==> x in list
  {
    for i := 0 to |list|
      invariant x !in list[..i]
    {
      assert list[..i + 1] == list[..i] + [list[i]];
      if list[i] == x {
        return true;
      }
    }
    assert list[..|list|] == list;
    return false;
  }

  // ---------- runs ----------

  /** An attempt: a hello at a time. */
  datatype Attempt = Attempt(ch: Parsed, now: int)

  ghost function CacheAfter(p: Params, run: seq<Attempt>): Seen
  {
    if run == [] then map[]
    else
      var n := |run| - 1;
      AuthStep(p, CacheAfter(p, run[..n]), run[n].ch, run[n].now).0
  }

  ghost predicate Accepted(p: Params, run: seq<Attempt>, n: nat)
    requires n < |run|
  {
    AuthStep(p, CacheAfter(p, run[..n]), run[n].ch, run[n].now).1
  }

  /** The clock does not go back. */
  predicate ClockMonotone(run: seq<Attempt>)
  {
    forall i, j :: 0 <= i <= j < |run| ==> run[i].now <= run[j].now
  }

  /** When a session id was last accepted; None for never. */
  ghost function LastAccepted(p: Params, run: seq<Attempt>, sid: Frame): Option<int>
  {
    if run == [] then None
    else
      var n := |run| - 1;
      if run[n].ch.sessionID == sid && Accepted(p, run, n) then Some(run[n].now)
      else LastAccepted(p, run[..n], sid)
  }

  /** The cache knows the last acceptance of a session id unless it is over the time to live. */
  ghost predicate CacheTracks(p: Params, seen: Seen, sid: Frame, last: Option<int>, now: int)
  {
    && (sid in seen ==> last == Some(seen[sid]))
    && (last.Some? ==> last.value <= now)
    && (last.Some? && sid !in seen ==> now - last.value > Ttl(p))
  }

  lemma AuthStepTracks(p: Params, seen: Seen, ch: Parsed, sid: Frame, last: Option<int>, before: int, now: int)
    requires CacheTracks(p, seen, sid, last, before) && before <= now
    ensures var (seen', ok) := AuthStep(p, seen, ch, now);
      CacheTracks(p, seen', sid, if ch.sessionID == sid && ok then Some(now) else last, now)
  {
    hide Timestamp, InWindow;
  }

  lemma {:induction false} RunTracks(p: Params, run: seq<Attempt>, sid: Frame)
    requires ClockMonotone(run)
    ensures forall now :: (run != [] ==> run[|run| - 1].now <= now) ==>
      CacheTracks(p, CacheAfter(p, run), sid, LastAccepted(p, run, sid), now)
  {
    hide AuthStep, CacheTracks;
    forall now | run != [] ==> run[|run| - 1].now <= now
      ensures CacheTracks(p, CacheAfter(p, run), sid, LastAccepted(p, run, sid), now)
    {
      if run == [] {
        NothingTracked(p, sid, now);
      } else {
        var n := |run| - 1;
        var at := run[n];
        RunTracks(p, run[..n], sid);
        var before := if n == 0 then at.now else run[n - 1].now;
        assert run[..n] != [] ==> run[..n][n - 1] == run[n - 1];
        assert CacheTracks(p, CacheAfter(p, run[..n]), sid, LastAccepted(p, run[..n], sid), before);
        AuthStepTracks(p, CacheAfter(p, run[..n]), at.ch, sid, LastAccepted(p, run[..n], sid), before, at.now);
        TracksLater(p, CacheAfter(p, run), sid, LastAccepted(p, run, sid), at.now, now);
      }
    }
  }

  lemma NothingTracked(p: Params, sid: Frame, now: int)
    ensures CacheTracks(p, map[], sid, None, now)
  {
  }

  lemma TracksLater(p: Params, seen: Seen, sid: Frame, last: Option<int>, before: int, now: int)
    requires CacheTracks(p, seen, sid, last, before) && before <= now
    ensures CacheTracks(p, seen, sid, last, now)
  {
  }

  /** Admission, exactly: a hello is accepted when its blob opens, its timestamp is in the window, and
      its session id was not accepted before within the cache's time to live. */
  lemma AcceptedIff(p: Params, run: seq<Attempt>, n: nat)
    requires ClockMonotone(run) && n < |run|
    ensures var at := run[n]; var last := LastAccepted(p, run[..n], at.ch.sessionID);
      Accepted(p, run, n) <==>
        Timestamp(p, at.ch).Some? && InWindow(Timestamp(p, at.ch).value, at.now, p.timeWindow) &&
        (last.None? || at.now - last.value > Ttl(p))
  {
    hide Timestamp, InWindow, LastAccepted, CacheAfter;
    var before := run[..n];
    assert ClockMonotone(before);
    RunTracks(p, before, run[n].ch.sessionID);
    assert before != [] ==> before[|before| - 1] == run[n - 1] && run[n - 1].now <= run[n].now;
    var sid := run[n].ch.sessionID;
    assert CacheTracks(p, CacheAfter(p, before), sid, LastAccepted(p, before, sid), run[n].now);
  }

  // ---------- admission in terms of the hello's bytes ----------

  /** Private key i opens the session id to a plaintext. */
  ghost predicate OpensTo(p: Params, ch: Parsed, i: nat, plain: Frame)
    requires i < |p.privs| && ch.x25519Pub.Some?
  {
    var shared := p.crypto.ecdh(p.privs[i], ch.x25519Pub.value);
    && shared.Some? && |ch.sessionID| == 32 && |ch.random| >= 12
    && p.crypto.open(shared.value, ch.random[..12], ch.sessionID) == Some(plain) && |plain| == 16
  }

  /** The least private key that opens the session id, and to what. */
  ghost predicate FirstOpens(p: Params, ch: Parsed, i: nat, plain: Frame)
    requires ch.x25519Pub.Some?
  {
    && i < |p.privs| && OpensTo(p, ch, i, plain)
    && forall j: nat, other: Frame :: j < i ==> !OpensTo(p, ch, j, other)
  }

  lemma OpenAuthIs(p: Params, ch: Parsed, i: nat, plain: Frame)
    requires i < |p.privs| && ch.x25519Pub.Some?
    ensures var shared := p.crypto.ecdh(p.privs[i], ch.x25519Pub.value);
      && (OpensTo(p, ch, i, plain) ==>
            var stamp := Wrap64(FromBigEndian(plain[8..]));
            shared.Some? && OpenAuth(p.crypto, shared.value, ch.random, ch.sessionID) == Some((plain[..8], stamp)))
      && (shared.Some? && OpenAuth(p.crypto, shared.value, ch.random, ch.sessionID).Some? ==>
            exists x :: OpensTo(p, ch, i, x))
  {
    hide FromBigEndian, Wrap64;
    var shared := p.crypto.ecdh(p.privs[i], ch.x25519Pub.value);
    if shared.Some? && OpenAuth(p.crypto, shared.value, ch.random, ch.sessionID).Some? {
      assert OpensTo(p, ch, i, p.crypto.open(shared.value, ch.random[..12], ch.sessionID).value);
    }
  }

  /** Trial decryption from key i on, with none before it opening, finds the first that opens. */
  lemma {:induction false} BlobIs(p: Params, ch: Parsed, i: nat)
    requires i <= |p.privs| && ch.x25519Pub.Some?
    requires forall j: nat, x: Frame :: j < i ==> !OpensTo(p, ch, j, x)
    ensures var blob := Blob(p, ch, ch.x25519Pub.value, i);
      && (forall m: nat, plain: Frame :: FirstOpens(p, ch, m, plain) ==>
            blob == Some((plain[..8], Wrap64(FromBigEndian(plain[8..])))))
      && (blob.Some? ==> exists m: nat, plain: Frame :: FirstOpens(p, ch, m, plain))
    decreases |p.privs| - i
  {
    hide OpensTo, OpenAuth, Wrap64, FromBigEndian;
    if i < |p.privs| {
      if plain: Frame :| OpensTo(p, ch, i, plain) {
        OpenAuthIs(p, ch, i, plain);
        assert FirstOpens(p, ch, i, plain);
        forall m: nat, x: Frame | FirstOpens(p, ch, m, x)
          ensures m == i && x == plain
        {
          OneOpening(p, ch, i, plain, m, x);
        }
      } else {
        OpenAuthIs(p, ch, i, []);
        BlobIs(p, ch, i + 1);
      }
    }
  }

  lemma OneOpening(p: Params, ch: Parsed, i: nat, plain: Frame, m: nat, x: Frame)
    requires ch.x25519Pub.Some? && FirstOpens(p, ch, i, plain) && FirstOpens(p, ch, m, x)
    ensures i == m && plain == x
  {
  }

  /** Main theorem, from the hello's bytes. In any run an attempt is accepted if and only if the list of names
      is empty or holds the name; the share is a public key; some private key opens the 32-byte session id
      under the first twelve random bytes to sixteen; of the first that does, the first eight bytes are a known
      short id and the last eight, big-endian, a time in the window; and the session id was not accepted
      within the time to live. */
  lemma AdmittedIff(p: Params, run: seq<Attempt>, n: nat)
    requires ClockMonotone(run) && n < |run|
    ensures var ch, now := run[n].ch, run[n].now; var last := LastAccepted(p, run[..n], ch.sessionID);
      Accepted(p, run, n) <==>
        && (p.serverNames == [] || ch.serverName in p.serverNames)
        && ch.x25519Pub.Some? && p.crypto.isPublicKey(ch.x25519Pub.value)
        && (exists i: nat, plain: Frame ::
              && FirstOpens(p, ch, i, plain) && plain[..8] in p.shortIDs
              && InWindow(Wrap64(FromBigEndian(plain[8..])), now, p.timeWindow))
        && (last.None? || now - last.value > Ttl(p))
  {
    hide Accepted, LastAccepted, Blob, InWindow, Ttl, OpensTo, Wrap64, FromBigEndian;
    AcceptedIff(p, run, n);
    var ch := run[n].ch;
    if ch.x25519Pub.Some? {
      BlobIs(p, ch, 0);
    }
  }

  /** An accepted attempt is the last acceptance of its session id, or an earlier one. */
  lemma {:induction false} LastAcceptedAfter(p: Params, run: seq<Attempt>, m: nat)
    requires ClockMonotone(run) && m < |run| && Accepted(p, run, m)
    ensures var last := LastAccepted(p, run, run[m].ch.sessionID);
      last.Some? && run[m].now <= last.value <= run[|run| - 1].now
  {
    hide AuthStep;
    var n := |run| - 1;
    if m < n && !(run[n].ch.sessionID == run[m].ch.sessionID && Accepted(p, run, n)) {
      assert run[..n][..m] == run[..m] && run[..n][m] == run[m];
      assert Accepted(p, run[..n], m);
      LastAcceptedAfter(p, run[..n], m);
      assert n >= 1;
      assert run[..n][n - 1] == run[n - 1];
    } else if m == n {
      assert run[n] == run[m];
    }
  }

  /** The distance is short enough for its product with a second not to wrap. */
  predicate InRange(t: int, now: int)
  {
    -MAX_SECONDS <= now - t <= MAX_SECONDS
  }

  lemma InWindowIs(t: int, now: int, window: nat)
    requires InRange(t, now)
    ensures InWindow(t, now, window) ==> now - t <= window && t - now <= window
  {
    var dist := if now < t then t - now else now - t;
    assert Wrap64(now - t) == now - t && Wrap64(t - now) == t - now;
    assert Wrap64(dist * SECOND) == dist * SECOND;
    WrapBelow(window * SECOND);
  }

  /** Wrapping a natural number never makes it larger. */
  lemma WrapBelow(x: nat)
    ensures Wrap64(x) <= x
  {
  }

  lemma AcceptedPrefix(p: Params, run: seq<Attempt>, m: nat, n: nat)
    requires m < n <= |run|
    ensures Accepted(p, run[..n], m) <==> Accepted(p, run, m)
  {
    assert run[..n][..m] == run[..m] && run[..n][m] == run[m];
  }

  // ---------- exactly when a hello is accepted again ----------

  /** The distance is less than one cycle of a 64-bit Duration: 584 years. */
  const CYCLE_SECONDS := 18_446_744_073

  predicate InCycle(t: int, now: int)
  {
    -CYCLE_SECONDS <= now - t <= CYCLE_SECONDS
  }

  /** The window is open near the timestamp and again past the longest Duration, where the product wraps
      to a negative number. */
  predicate WindowOpen(t: int, now: int, window: nat)
  {
    var dist := if now < t then t - now else now - t;
    dist <= window || dist > MAX_SECONDS
  }

  lemma InWindowIff(t: int, now: int, window: nat)
    requires InCycle(t, now) && window <= MAX_SECONDS
    ensures InWindow(t, now, window) <==> WindowOpen(t, now, window)
  {
    var dist := if now < t then t - now else now - t;
    assert Wrap64(now - t) == now - t && Wrap64(t - now) == t - now;
    assert Wrap64(window * SECOND) == window * SECOND;
    if dist <= MAX_SECONDS {
      assert Wrap64(dist * SECOND) == dist * SECOND;
    } else {
      assert Wrap64(dist * SECOND) == dist * SECOND - I64_MOD;
    }
  }

  /** Admission in closed form, for any run within a cycle of the timestamp. */
  lemma AcceptedExactly(p: Params, run: seq<Attempt>, n: nat)
    requires ClockMonotone(run) && n < |run| && p.timeWindow <= MAX_SECONDS
    requires var t := Timestamp(p, run[n].ch); t.Some? ==> InCycle(t.value, run[n].now)
    ensures var at := run[n]; var t := Timestamp(p, at.ch); var last := LastAccepted(p, run[..n], at.ch.sessionID);
      Accepted(p, run, n) <==>
        t.Some? && WindowOpen(t.value, at.now, p.timeWindow) && (last.None? || at.now - last.value > 2 * p.timeWindow)
  {
    hide Timestamp, Accepted, InWindow, LastAccepted, WindowOpen, Ttl;
    TtlIsTwice(p);
    AcceptedIff(p, run, n);
    if Timestamp(p, run[n].ch).Some? {
      InWindowIff(Timestamp(p, run[n].ch).value, run[n].now, p.timeWindow);
    }
  }

  /** Two acceptances of one hello in any run: the window test passes at both and they are more than the
      time to live apart, so one of them is past the longest Duration unless the time to live wrapped. */
  lemma AcceptedTwiceNeeds(p: Params, run: seq<Attempt>, m: nat, n: nat)
    requires ClockMonotone(run) && m < n < |run| && run[m].ch == run[n].ch
    requires Accepted(p, run, m) && Accepted(p, run, n)
    ensures var a, b, t := run[m].now, run[n].now, Timestamp(p, run[n].ch);
      && t.Some? && InWindow(t.value, a, p.timeWindow) && InWindow(t.value, b, p.timeWindow)
      && b - a > Ttl(p)
      && (2 * p.timeWindow <= I64_MAX ==> !(InRange(t.value, a) && InRange(t.value, b)))
  {
    hide Timestamp, Accepted, LastAccepted, InWindow, Ttl;
    AcceptedIff(p, run, m);
    AcceptedIff(p, run, n);
    var before := run[..n];
    assert before[m] == run[m];
    AcceptedPrefix(p, run, m, n);
    LastAcceptedAfter(p, before, m);
    var t := Timestamp(p, run[n].ch).value;
    if 2 * p.timeWindow <= I64_MAX && InRange(t, run[m].now) && InRange(t, run[n].now) {
      TtlIsTwice(p);
      InWindowIs(t, run[m].now, p.timeWindow);
      InWindowIs(t, run[n].now, p.timeWindow);
    }
  }

  /** Two attempts with one hello, exactly: both are accepted if and only if the window test passes at both
      and they are more than the time to live apart. */
  lemma AcceptedTwiceIff(p: Params, ch: Parsed, a: int, b: int)
    requires a <= b
    ensures var run := [Attempt(ch, a), Attempt(ch, b)]; var t := Timestamp(p, ch);
      Accepted(p, run, 0) && Accepted(p, run, 1) <==>
        t.Some? && b - a > Ttl(p) &&
        InWindow(t.value, a, p.timeWindow) && InWindow(t.value, b, p.timeWindow)
  {
    hide Timestamp, Accepted, InWindow, Ttl;
    var run := [Attempt(ch, a), Attempt(ch, b)];
    AcceptedIff(p, run, 0);
    AcceptedIff(p, run, 1);
    assert run[..0] == [] && run[..1] == [run[0]];
    assert LastAccepted(p, [], ch.sessionID) == None;
    AcceptedPrefix(p, run, 0, 1);
    assert run[..1][..0] == [];
    assert Accepted(p, run, 0) ==> LastAccepted(p, run[..1], ch.sessionID) == Some(a);
  }

  /** So, in any run with a clock that does not go back, with a window whose double fits and the hello's
      timestamp in range of both attempts, one ClientHello is accepted at most once ever: the window closes
      before the cache forgets. */
  lemma AcceptedAtMostOnce(p: Params, run: seq<Attempt>, m: nat, n: nat)
    requires 2 * p.timeWindow <= I64_MAX
    requires ClockMonotone(run) && m < n < |run| && run[m].ch == run[n].ch
    requires var t := Timestamp(p, run[n].ch);
      t.Some? ==> InRange(t.value, run[m].now) && InRange(t.value, run[n].now)
    ensures !(Accepted(p, run, m) && Accepted(p, run, n))
  {
    hide Timestamp, Accepted, InWindow;
    if Accepted(p, run, m) && Accepted(p, run, n) {
      AcceptedTwiceNeeds(p, run, m, n);
    }
  }

  /** Some run with its clock between two times accepts the hello twice. */
  ghost predicate AcceptedTwiceBetween(p: Params, ch: Parsed, lo: int, hi: int)
  {
    exists run: seq<Attempt>, m: nat, n: nat ::
      && m < n < |run| && ClockMonotone(run) && run[m].ch == ch && run[n].ch == ch
      && lo <= run[m].now && run[n].now <= hi && Accepted(p, run, m) && Accepted(p, run, n)
  }

  /** Main theorem, exactly and for all inputs. A hello can be accepted twice between two times if and only
      if its blob opens and the window test passes at two of them more than the time to live apart. */
  lemma AcceptedTwiceBetweenIff(p: Params, ch: Parsed, lo: int, hi: int)
    ensures AcceptedTwiceBetween(p, ch, lo, hi) <==>
      Timestamp(p, ch).Some? && exists a, b ::
        && lo <= a <= b <= hi && b - a > Ttl(p)
        && InWindow(Timestamp(p, ch).value, a, p.timeWindow) && InWindow(Timestamp(p, ch).value, b, p.timeWindow)
  {
    hide Timestamp, Accepted, InWindow, Ttl;
    if AcceptedTwiceBetween(p, ch, lo, hi) {
      var run: seq<Attempt>, m: nat, n: nat :|
        && m < n < |run| && ClockMonotone(run) && run[m].ch == ch && run[n].ch == ch
        && lo <= run[m].now && run[n].now <= hi && Accepted(p, run, m) && Accepted(p, run, n);
      AcceptedTwiceNeeds(p, run, m, n);
    }
    if Timestamp(p, ch).Some? {
      var t := Timestamp(p, ch).value;
      forall a, b | lo <= a <= b <= hi && b - a > Ttl(p) &&
        InWindow(t, a, p.timeWindow) && InWindow(t, b, p.timeWindow)
        ensures AcceptedTwiceBetween(p, ch, lo, hi)
      {
        AcceptedTwiceIff(p, ch, a, b);
        var run := [Attempt(ch, a), Attempt(ch, b)];
        assert run[0].ch == ch && run[1].ch == ch;
        assert Accepted(p, run, 0) && Accepted(p, run, 1);
      }
    }
  }

  /** Some run with the hello's timestamp in range accepts the hello twice. */
  ghost predicate AcceptedTwiceInRange(p: Params, ch: Parsed, t: int)
  {
    exists run: seq<Attempt>, m: nat, n: nat ::
      && m < n < |run| && ClockMonotone(run) && run[m].ch == ch && run[n].ch == ch
      && InRange(t, run[m].now) && InRange(t, run[n].now) && Accepted(p, run, m) && Accepted(p, run, n)
  }

  /** The window as it wraps stays open for longer than the time to live as it wraps. */
  predicate WindowForgets(p: Params)
  {
    var w := Wrap64(p.timeWindow * SECOND);
    w >= 0 && 2 * (w / SECOND) > Ttl(p)
  }

  /** Within range the window test is a comparison with the whole seconds of the wrapped window. */
  lemma InWindowInRange(t: int, now: int, window: nat)
    requires InRange(t, now)
    ensures var w := Wrap64(window * SECOND);
      InWindow(t, now, window) <==> w >= 0 && -(w / SECOND) <= now - t <= w / SECOND
  {
    var dist := if now < t then t - now else now - t;
    assert Wrap64(now - t) == now - t && Wrap64(t - now) == t - now;
    assert Wrap64(dist * SECOND) == dist * SECOND;
  }

  /** Main theorem: the once-ever promise as a condition on the configuration. A hello whose blob opens can be
      accepted twice with its timestamp in range if and only if the wrapped window outlasts the wrapped time
      to live. */
  lemma AcceptedTwiceInRangeIff(p: Params, ch: Parsed, t: int)
    requires Timestamp(p, ch) == Some(t)
    ensures AcceptedTwiceInRange(p, ch, t) <==> WindowForgets(p)
  {
    hide Timestamp, Accepted, InWindow, Wrap64;
    var w := Wrap64(p.timeWindow * SECOND);
    if AcceptedTwiceInRange(p, ch, t) {
      var run: seq<Attempt>, m: nat, n: nat :|
        && m < n < |run| && ClockMonotone(run) && run[m].ch == ch && run[n].ch == ch
        && InRange(t, run[m].now) && InRange(t, run[n].now) && Accepted(p, run, m) && Accepted(p, run, n);
      AcceptedTwiceNeeds(p, run, m, n);
      InWindowInRange(t, run[m].now, p.timeWindow);
      InWindowInRange(t, run[n].now, p.timeWindow);
    }
    if WindowForgets(p) {
      var a, b := t - w / SECOND, t + w / SECOND;
      InWindowInRange(t, a, p.timeWindow);
      InWindowInRange(t, b, p.timeWindow);
      AcceptedTwiceIff(p, ch, a, b);
      var run := [Attempt(ch, a), Attempt(ch, b)];
      assert run[0].ch == ch && run[1].ch == ch;
      assert Accepted(p, run, 0) && Accepted(p, run, 1);
    }
  }

  /** For a window that is an int64 that is: the doubling wraps and the product with a second does not come
      out negative. */
  lemma WindowForgetsIff(p: Params)
    requires p.timeWindow <= I64_MAX
    ensures WindowForgets(p) <==> 2 * p.timeWindow > I64_MAX && Wrap64(p.timeWindow * SECOND) >= 0
  {
    hide Wrap64;
    WrapBelow(p.timeWindow * SECOND);
    if 2 * p.timeWindow <= I64_MAX {
      TtlIsTwice(p);
    } else {
      TtlIsNegative(p);
    }
  }

  lemma TtlIsNegative(p: Params)
    requires p.timeWindow <= I64_MAX < 2 * p.timeWindow
    ensures Ttl(p) < 0
  {
  }

  /** A key that opens every blob to short id zero and a given timestamp. */
  function WitnessParams(stamp: nat, window: nat): Params
    requires stamp < I64_MOD
  {
    var plain := seq(SHORT_ID_LEN, i => 0) + BigEndian(stamp, 8);
    var crypto := Crypto(f => true, (k, f) => Some(f), (s, n, b) => Some(plain));
    Params([1], [], [seq(SHORT_ID_LEN, i => 0)], window, crypto)
  }

  function WitnessHello(): Parsed
  {
    Parsed(seq(32, i => 0), seq(SESSION_ID_LEN, i => 0), Some([9]), [])
  }

  lemma WitnessTimestamp(stamp: nat, window: nat)
    requires stamp < I64_MOD
    ensures Timestamp(WitnessParams(stamp, window), WitnessHello()) == Some(Wrap64(stamp))
  {
    hide Wrap64, BigEndian, FromBigEndian, Pow256;
    var p, ch := WitnessParams(stamp, window), WitnessHello();
    var zero: Frame := seq(SHORT_ID_LEN, i => 0);
    var tail := BigEndian(stamp, 8);
    assert (zero + tail)[..SHORT_ID_LEN] == zero && (zero + tail)[SHORT_ID_LEN..] == tail;
    assert Pow256(8) == I64_MOD by { EightBytes(); }
    BigEndianRoundTrip(stamp, 8);
    assert OpenAuth(p.crypto, [9], ch.random, ch.sessionID) == Some((zero, Wrap64(stamp)));
    assert Blob(p, ch, [9], 0) == Some((zero, Wrap64(stamp)));
    assert p.shortIDs[0] == zero;
  }

  lemma EightBytes()
    ensures Pow256(8) == I64_MOD
  {
    assert Pow256(8) == 0x1_0000 * Pow256(6) == 0x1_0000_0000 * Pow256(4);
  }

  /** The timestamp one second past the longest Duration before the epoch, as it is on the wire. */
  const FAR_BACK := I64_MOD - 9_223_372_037

  /** The once-ever promise fails past the longest Duration: a run that accepts one hello at times 0 and
      181, three minutes apart. */
  lemma AHelloCanBeAcceptedTwice()
    ensures var p, ch := WitnessParams(FAR_BACK, 90), WitnessHello();
      var run := [Attempt(ch, 0), Attempt(ch, 181)];
      ClockMonotone(run) && Accepted(p, run, 0) && Accepted(p, run, 1)
  {
    hide Timestamp, Accepted, InWindow, WitnessParams;
    WitnessTimestamp(FAR_BACK, 90);
    var p := WitnessParams(FAR_BACK, 90);
    WitnessWindow(FAR_BACK, 90);
    assert Ttl(p) == 180;
    assert Wrap64(FAR_BACK) == -9_223_372_037;
    AcceptedTwiceIff(p, WitnessHello(), 0, 181);
    InWindowIff(-9_223_372_037, 0, 90);
    InWindowIff(-9_223_372_037, 181, 90);
  }

  lemma WitnessWindow(stamp: nat, window: nat)
    requires stamp < I64_MOD
    ensures WitnessParams(stamp, window).timeWindow == window
  {
  }

  /** And it fails where the doubled window wraps: at 2^62 seconds the window wraps to zero and the time to
      live to the least int64, so a hello is accepted twice in the same second. */
  lemma AWideWindowForgets()
    ensures var p, ch := WitnessParams(7, 0x4000_0000_0000_0000), WitnessHello();
      var run := [Attempt(ch, 7), Attempt(ch, 7)];
      ClockMonotone(run) && Accepted(p, run, 0) && Accepted(p, run, 1)
  {
    hide Timestamp, Accepted, WitnessParams;
    var wide := 0x4000_0000_0000_0000;
    var p := WitnessParams(7, wide);
    WitnessTimestamp(7, wide);
    WitnessWindow(7, wide);
    assert Ttl(p) == -I64_MAX - 1;
    assert Wrap64(7) == 7 && Wrap64(0) == 0 && Wrap64(wide * SECOND) == 0;
    assert InWindow(7, 7, wide);
    AcceptedTwiceIff(p, WitnessHello(), 7, 7);
  }

  /** After any accepted attempt the cache holds nothing older than the time to live but the attempt itself. */
  lemma CacheIsRecent(p: Params, seen: Seen, ch: Parsed, now: int)
    ensures var (seen', ok) := AuthStep(p, seen, ch, now);
      ok ==> forall k :: k in seen' && k != ch.sessionID ==> now - seen'[k] <= Ttl(p)
    ensures var (seen', ok) := AuthStep(p, seen, ch, now);
      ok ==> ch.sessionID in seen' && seen'[ch.sessionID] == now
  {
    hide Timestamp, InWindow;
  }
}
