/** The frames the MSS clamp is about, written from their fields: what it changes in them, and that it changes
    no others. */
module MssGrammar {
  import opened Bytes
  import opened OnesComplement
  import opened MssClamp

  // ---------- the grammar ----------

  /** A TCP option before the MSS option: a NOP, or a kind with a length byte and a body. */
  datatype Opt = Nop | Opt(kind: Byte, body: Frame)

  /** Not the end of the list, not a NOP with a length, and not an MSS option of four bytes. */
  predicate OptFits(o: Opt)
  {
    o.Opt? ==> o.kind >= 2 && |o.body| <= 253 && !(o.kind == 2 && |o.body| == 2)
  }

  function OptBytes(o: Opt): Frame
    requires OptFits(o)
  {
    match o
    case Nop => [1]
    case Opt(kind, body) => [kind, 2 + |body|] + body
  }

  predicate OptsFit(os: seq<Opt>)
  {
    forall i :: 0 <= i < |os| ==> OptFits(os[i])
  }

  function OptsBytes(os: seq<Opt>): Frame
    requires OptsFit(os)
  {
    if os == [] then [] else OptBytes(os[0]) + OptsBytes(os[1..])
  }

  /** An IPv4 TCP frame with an MSS option: the fields the clamp looks at, and the bytes between them.
      macs are the two addresses; ip and ipMore the IPv4 header around the protocol; ports go up to the
      acknowledgement number; low is the nibble beside the data offset. */
  datatype Segment = Segment(
    macs: Frame,
    ihl: nat,
    ip: Frame,
    ipMore: Frame,
    ports: Frame,
    low: nat,
    flags: Byte,
    window: Frame,
    checksum: nat,
    urgent: Frame,
    before: seq<Opt>,
    mss: nat,
    after: Frame,
    tail: Frame)

  predicate Fits(s: Segment)
  {
    && |s.macs| == 12 && 5 <= s.ihl <= 15 && |s.ip| == 8 && |s.ipMore| == 4 * s.ihl - 10
    && |s.ports| == 12 && s.low < 16 && |s.window| == 2 && s.checksum < 0x1_0000 && |s.urgent| == 2
    && OptsFit(s.before) && s.mss < 0x1_0000
    && (|OptsBytes(s.before)| + 4 + |s.after|) % 4 == 0 && |OptsBytes(s.before)| + 4 + |s.after| <= 40
  }

  /** The TCP header's length in words. */
  function Words(s: Segment): (w: nat)
    requires Fits(s)
    ensures 5 <= w <= 15 && 4 * w == 24 + |OptsBytes(s.before)| + |s.after|
  {
    5 + (|OptsBytes(s.before)| + 4 + |s.after|) / 4
  }

  function Eth(s: Segment): (f: Frame)
    requires Fits(s)
    ensures |f| == 14
  {
    s.macs + [8, 0]
  }

  function Ip(s: Segment): (f: Frame)
    requires Fits(s)
    ensures |f| == 4 * s.ihl
  {
    [0x40 + s.ihl] + s.ip + [6] + s.ipMore
  }

  /** The TCP header up to the checksum. */
  function Tcp(s: Segment): (f: Frame)
    requires Fits(s)
    ensures |f| == 16
  {
    s.ports + [0x10 * Words(s) + s.low, s.flags] + s.window
  }

  /** From the checksum to the MSS value. */
  function Between(s: Segment): (f: Frame)
    requires Fits(s)
    ensures |f| == 4 + |OptsBytes(s.before)|
  {
    s.urgent + OptsBytes(s.before) + [2, 4]
  }

  function Two(v: nat): (f: Frame)
    requires v < 0x1_0000
    ensures |f| == 2
  {
    [v / 0x100, v % 0x100]
  }

  function FrameBytes(s: Segment): (f: Frame)
    requires Fits(s)
    ensures |f| == 14 + 4 * s.ihl + 4 * Words(s) + |s.tail|
  {
    Eth(s) + Ip(s) + Tcp(s) + Two(s.checksum) + Between(s) + Two(s.mss) + s.after + s.tail
  }

  // ---------- the clamp on a written frame ----------

  lemma SliceParts(f: Frame, i: nat, r: nat, a: Frame, b: Frame)
    requires i <= r <= |f| && f[i..r] == a + b
    ensures i + |a| <= r && f[i..i + |a|] == a && f[i + |a|..r] == b
  {
    var both := a + b;
    assert |both| == r - i;
    assert f[i..i + |a|] == both[..|a|];
    assert f[i + |a|..r] == both[|a|..];
  }

  /** The scan passes over one well-formed option. */
  lemma ScanPassesOne(f: Frame, i: nat, end: nat, o: Opt)
    requires OptFits(o) && i + |OptBytes(o)| + 1 < end <= |f| && f[i..i + |OptBytes(o)|] == OptBytes(o)
    ensures FindMss(f, i, end) == FindMss(f, i + |OptBytes(o)|, end)
  {
    var bytes := f[i..i + |OptBytes(o)|];
    assert bytes[0] == f[i] && (o.Opt? ==> bytes[1] == f[i + 1]);
  }

  lemma ScanFinds(f: Frame, r: nat, end: nat)
    requires r + 4 <= end <= |f| && f[r] == 2 && f[r + 1] == 4
    ensures FindMss(f, r, end) == Some(r)
  {
  }

  lemma OptsBytesIs(os: seq<Opt>)
    requires OptsFit(os)
    ensures os == [] ==> OptsBytes(os) == []
    ensures os != [] ==> OptFits(os[0]) && OptsFit(os[1..]) && OptsBytes(os) == OptBytes(os[0]) + OptsBytes(os[1..])
  {
  }

  /** The scan passes over well-formed options to the MSS option behind them. */
  lemma {:induction false} ScanPasses(f: Frame, i: nat, r: nat, end: nat, os: seq<Opt>)
    requires OptsFit(os) && i <= r && r + 4 <= end <= |f|
    requires f[i..r] == OptsBytes(os) && f[r] == 2 && f[r + 1] == 4
    ensures FindMss(f, i, end) == Some(r)
    decreases |os|
  {
    hide FindMss, OptBytes, OptFits, OptsBytes;
    OptsBytesIs(os);
    if os == [] {
      ScanFinds(f, r, end);
    } else {
      var o, rest := OptBytes(os[0]), OptsBytes(os[1..]);
      SliceParts(f, i, r, o, rest);
      ScanPassesOne(f, i, end, os[0]);
      ScanPasses(f, i + |o|, r, end, os[1..]);
    }
  }

  /** Where the parts of a written frame are. */
  lemma Places(s: Segment)
    requires Fits(s)
    ensures var f, t := FrameBytes(s), 14 + 4 * s.ihl;
      && |f| >= t + 4 * Words(s)
      && f[12] == 8 && f[13] == 0 && f[14] == 0x40 + s.ihl && f[14 + 9] == 6
      && f[t + 12] == 0x10 * Words(s) + s.low && f[t + 13] == s.flags
      && f[t + 16] == s.checksum / 0x100 && f[t + 17] == s.checksum % 0x100
  {
    hide OptsBytes;
    var f, t := FrameBytes(s), 14 + 4 * s.ihl;
    var rest := Between(s) + Two(s.mss) + s.after + s.tail;
    var head := Eth(s) + Ip(s);
    assert f == head + Tcp(s) + Two(s.checksum) + rest;
    assert f[12] == head[12] && f[13] == head[13] && f[14] == head[14] && f[14 + 9] == head[14 + 9];
    assert head[12] == Eth(s)[12] && head[13] == Eth(s)[13];
    assert head[14] == Ip(s)[0] && head[14 + 9] == Ip(s)[9];
    assert f[t + 12] == Tcp(s)[12] && f[t + 13] == Tcp(s)[13];
    assert f[t + 16] == Two(s.checksum)[0] && f[t + 17] == Two(s.checksum)[1];
  }

  /** And where the options are. */
  lemma OptionPlaces(s: Segment)
    requires Fits(s)
    ensures var f, o, n := FrameBytes(s), 14 + 4 * s.ihl + 20, |OptsBytes(s.before)|;
      && o + n + 4 <= 14 + 4 * s.ihl + 4 * Words(s) <= |f|
      && f[o..o + n] == OptsBytes(s.before) && f[o + n] == 2 && f[o + n + 1] == 4
      && f[o + n + 2] == s.mss / 0x100 && f[o + n + 3] == s.mss % 0x100
  {
    hide OptsBytes, Eth, Ip, Tcp;
    var f, o, n := FrameBytes(s), 14 + 4 * s.ihl + 20, |OptsBytes(s.before)|;
    var head := Eth(s) + Ip(s) + Tcp(s) + Two(s.checksum) + s.urgent;
    assert |head| == o;
    assert f == head + OptsBytes(s.before) + [2, 4] + Two(s.mss) + s.after + s.tail;
  }

  /** Storing a 16-bit value over two bytes between two strings. */
  lemma StoreBetween(a: Frame, v: nat, b: Frame, w: nat)
    requires v < 0x1_0000 && w < 0x1_0000
    ensures |a + Two(v) + b| == |a| + 2 + |b|
    ensures Store(a + Two(v) + b, |a|, w) == a + Two(w) + b
  {
  }

  lemma SynIffFlag(s: Segment)
    requires Fits(s)
    ensures IsTcpSyn(FrameBytes(s)) <==> s.flags / 2 % 2 == 1
    ensures var f := FrameBytes(s); |f| > ETH && TcpPos(f) == 14 + 4 * s.ihl && TcpPos(f) + 20 <= |f|
    ensures DataOff(FrameBytes(s)) == 4 * Words(s)
  {
    hide FrameBytes, OptsBytes, Words;
    Places(s);
  }

  lemma FoundAt(s: Segment)
    requires Fits(s) && s.flags / 2 % 2 == 1
    ensures MssPos(FrameBytes(s)) == Some(14 + 4 * s.ihl + 22 + |OptsBytes(s.before)|)
    ensures Mss(FrameBytes(s)) == s.mss
    ensures var f := FrameBytes(s); U16(f[ChecksumPos(f)], f[ChecksumPos(f) + 1]) == s.checksum
  {
    hide FrameBytes, OptsBytes, Words, IsTcpSyn, FindMss;
    var f := FrameBytes(s);
    SynIffFlag(s);
    SynShape(f);
    OptionPlaces(s);
    Places(s);
    var o := TcpPos(f) + 20;
    ScanPasses(f, o, o + |OptsBytes(s.before)|, TcpPos(f) + DataOff(f), s.before);
  }

  lemma SameParts(s: Segment, mss: nat, ck: nat)
    requires Fits(s) && mss < 0x1_0000 && ck < 0x1_0000
    ensures var s' := s.(mss := mss, checksum := ck);
      Fits(s') && Eth(s') == Eth(s) && Ip(s') == Ip(s) && Tcp(s') == Tcp(s) && Between(s') == Between(s)
  {
    hide OptsBytes;
  }

  /** The clamped frame is written from the same fields with the MSS and the checksum replaced. */
  lemma StoredFrame(s: Segment, mss: nat, ck: nat)
    requires Fits(s) && mss < 0x1_0000 && ck < 0x1_0000
    ensures var f, p, q := FrameBytes(s), 14 + 4 * s.ihl + 22 + |OptsBytes(s.before)|, 14 + 4 * s.ihl + 16;
      p + 1 < |f| && Store(Store(f, p, mss), q, ck) == FrameBytes(s.(mss := mss, checksum := ck))
  {
    hide OptsBytes, Store, Eth, Ip, Tcp, Between, Two, Words;
    var f := FrameBytes(s);
    var head := Eth(s) + Ip(s) + Tcp(s);
    var before, rest := head + Two(s.checksum) + Between(s), s.after + s.tail;
    assert f == before + Two(s.mss) + rest;
    StoreBetween(before, s.mss, rest, mss);
    var g := before + Two(mss) + rest;
    assert g == head + Two(s.checksum) + (Between(s) + Two(mss) + rest);
    StoreBetween(head, s.checksum, Between(s) + Two(mss) + rest, ck);
    var s' := s.(mss := mss, checksum := ck);
    SameParts(s, mss, ck);
    assert FrameBytes(s') == head + Two(ck) + (Between(s) + Two(mss) + rest);
  }

  /** Main theorem. Of every frame written from its fields, with any IPv4 options, any options before the MSS
      option and anything after it: with the SYN bit set, whatever the other flags, the clamp lowers the MSS to
      the bound and updates the checksum, and changes no other field; with the bit clear it changes nothing. */
  lemma ClampsTheGrammar(s: Segment, maxMSS: nat)
    requires Fits(s) && maxMSS <= M
    ensures Clamp(FrameBytes(s), maxMSS) ==
      if s.flags / 2 % 2 == 1 && 0 < maxMSS < s.mss
      then FrameBytes(s.(mss := maxMSS, checksum := FixedChecksum(s.checksum, s.mss, maxMSS)))
      else FrameBytes(s)
  {
    hide FrameBytes, OptsBytes, Words, IsTcpSyn, FixedChecksum, Store;
    var f := FrameBytes(s);
    if s.flags / 2 % 2 == 1 {
      FoundAt(s);
      hide MssPos;
      if 0 < maxMSS < s.mss {
        SynIffFlag(s);
        StoredFrame(s, maxMSS, FixedChecksum(s.checksum, s.mss, maxMSS));
      }
    } else {
      SynIffFlag(s);
      NotSyn(f);
    }
  }

  // ---------- and only the grammar ----------

  lemma {:induction false} OptsJoin(o: Opt, os: seq<Opt>)
    requires OptFits(o) && OptsFit(os)
    ensures OptsFit([o] + os) && OptsBytes([o] + os) == OptBytes(o) + OptsBytes(os)
  {
    assert ([o] + os)[1..] == os;
  }

  /** The option the scan passes over at a position. */
  lemma PassedOne(f: Frame, i: nat, end: nat) returns (o: Opt, j: nat)
    requires end <= |f| && FindMss(f, i, end).Some? && FindMss(f, i, end).value != i
    ensures OptFits(o) && j == i + |OptBytes(o)| && j <= end && f[i..j] == OptBytes(o)
    ensures FindMss(f, i, end) == FindMss(f, j, end)
  {
    if f[i] == 1 {
      o, j := Nop, i + 1;
    } else {
      j := i + f[i + 1];
      o := Opt(f[i], f[i + 2..j]);
    }
  }

  /** What the scan passed over are well-formed options. */
  lemma {:induction false} PassedOptions(f: Frame, i: nat, end: nat) returns (os: seq<Opt>)
    requires end <= |f| && FindMss(f, i, end).Some?
    ensures OptsFit(os) && i + |OptsBytes(os)| == FindMss(f, i, end).value
    ensures f[i..FindMss(f, i, end).value] == OptsBytes(os)
    decreases end - i
  {
    hide FindMss, OptBytes, OptFits;
    var r := FindMss(f, i, end).value;
    if r == i {
      os := [];
    } else {
      var o, j := PassedOne(f, i, end);
      OptIsNotEmpty(o);
      var rest := PassedOptions(f, j, end);
      os := [o] + rest;
      OptsJoin(o, rest);
      assert f[i..r] == f[i..j] + f[j..r];
    }
  }

  lemma OptIsNotEmpty(o: Opt)
    requires OptFits(o)
    ensures |OptBytes(o)| > 0
  {
  }

  /** The bytes of a frame say that its TCP header starts at t and ends at e, with the value of an MSS option
      at p behind the options os. */
  predicate Cut(f: Frame, t: nat, p: nat, e: nat, os: seq<Opt>)
  {
    && OptsFit(os) && 34 <= t && t + 22 + |OptsBytes(os)| == p && p + 2 <= e <= |f|
    && f[12] == 8 && f[13] == 0 && f[14] / 16 == 4 && t == 14 + f[14] % 16 * 4 && f[23] == 6
    && f[t + 12] / 16 * 4 == e - t && f[t + 13] / 2 % 2 == 1
    && f[t + 20..p - 2] == OptsBytes(os) && f[p - 2] == 2 && f[p - 1] == 4
  }

  function FieldsOf(f: Frame, t: nat, p: nat, e: nat, os: seq<Opt>): Segment
    requires Cut(f, t, p, e, os)
  {
    Segment(f[..12], f[14] % 16, f[15..23], f[24..t], f[t..t + 12], f[t + 12] % 16, f[t + 13], f[t + 14..t + 16],
            U16(f[t + 16], f[t + 17]), f[t + 18..t + 20], os, U16(f[p], f[p + 1]), f[p + 2..e], f[e..])
  }

  lemma FieldsFit(f: Frame, t: nat, p: nat, e: nat, os: seq<Opt>)
    requires Cut(f, t, p, e, os)
    ensures Fits(FieldsOf(f, t, p, e, os)) && 4 * Words(FieldsOf(f, t, p, e, os)) == e - t
  {
    hide OptsBytes;
  }

  lemma TwoIs(f: Frame, p: nat)
    requires p + 1 < |f|
    ensures f[p..p + 2] == Two(U16(f[p], f[p + 1]))
  {
  }

  /** The headers of a cut frame. */
  lemma HeadersAre(f: Frame, t: nat, p: nat, e: nat, os: seq<Opt>)
    requires Cut(f, t, p, e, os)
    requires var s := FieldsOf(f, t, p, e, os); Fits(s) && 4 * Words(s) == e - t
    ensures var s := FieldsOf(f, t, p, e, os);
      f[..14] == Eth(s) && f[14..t] == Ip(s) && f[t..t + 16] == Tcp(s)
  {
    hide OptsBytes, Words, Fits;
    assert f[..14] == f[..12] + [f[12], f[13]];
    assert f[14] == 0x40 + f[14] % 16;
    assert f[14..t] == [f[14]] + f[15..23] + [f[23]] + f[24..t];
    assert f[t..t + 16] == f[t..t + 12] + [f[t + 12], f[t + 13]] + f[t + 14..t + 16];
  }

  lemma OptionsAre(f: Frame, t: nat, p: nat, e: nat, os: seq<Opt>)
    requires Cut(f, t, p, e, os) && Fits(FieldsOf(f, t, p, e, os))
    ensures f[t + 18..p] == Between(FieldsOf(f, t, p, e, os))
  {
    hide OptsBytes, Fits;
    assert f[t + 18..p] == f[t + 18..t + 20] + f[t + 20..p - 2] + [f[p - 2], f[p - 1]];
  }

  lemma Joined(f: Frame, a: nat, b: nat, c: nat, d: nat, p: nat, e: nat)
    requires a <= b <= c <= d <= p && p + 2 <= e <= |f|
    ensures f == f[..a] + f[a..b] + f[b..c] + f[c..d] + f[d..p] + f[p..p + 2] + f[p + 2..e] + f[e..]
  {
  }

  /** A frame cut at the right places into a segment's parts. */
  lemma Assembled(f: Frame, s: Segment, t: nat, p: nat, e: nat)
    requires Fits(s) && 14 <= t && t + 18 <= p && p + 2 <= e <= |f|
    requires f[..14] == Eth(s) && f[14..t] == Ip(s) && f[t..t + 16] == Tcp(s) && f[t + 16..t + 18] == Two(s.checksum)
    requires f[t + 18..p] == Between(s) && f[p..p + 2] == Two(s.mss) && f[p + 2..e] == s.after && f[e..] == s.tail
    ensures f == FrameBytes(s)
  {
    hide OptsBytes, Words, Eth, Ip, Tcp, Between, Fits, Two;
    Joined(f, 14, t, t + 16, t + 18, p, e);
  }

  /** A cut frame is written from its fields. */
  lemma CutIsWritten(f: Frame, t: nat, p: nat, e: nat, os: seq<Opt>)
    requires Cut(f, t, p, e, os)
    ensures Fits(FieldsOf(f, t, p, e, os)) && f == FrameBytes(FieldsOf(f, t, p, e, os))
  {
    hide Words, Eth, Ip, Tcp, Between, Fits, Two, OptsBytes, FrameBytes;
    FieldsFit(f, t, p, e, os);
    HeadersAre(f, t, p, e, os);
    OptionsAre(f, t, p, e, os);
    TwoIs(f, t + 16);
    TwoIs(f, p);
    Assembled(f, FieldsOf(f, t, p, e, os), t, p, e);
  }

  lemma CutOf(f: Frame) returns (os: seq<Opt>)
    requires MssPos(f).Some?
    ensures Cut(f, TcpPos(f), MssPos(f).value, TcpPos(f) + DataOff(f), os)
  {
    hide FindMss, OptsBytes;
    os := PassedOptions(f, TcpPos(f) + 20, TcpPos(f) + DataOff(f));
    FoundIsMss(f, TcpPos(f) + 20, TcpPos(f) + DataOff(f));
  }

  lemma FoundIsMss(f: Frame, i: nat, end: nat)
    requires end <= |f| && FindMss(f, i, end).Some?
    ensures var r := FindMss(f, i, end).value; r + 4 <= end && f[r] == 2 && f[r + 1] == 4
  {
  }

  /** The other direction. A frame the clamp changes is one written from its fields, with the SYN bit set and
      an MSS over the bound behind well-formed options. */
  lemma ClampsOnlyTheGrammar(f: Frame, maxMSS: nat) returns (s: Segment)
    requires maxMSS <= M && Clamp(f, maxMSS) != f
    ensures Fits(s) && f == FrameBytes(s) && s.flags / 2 % 2 == 1 && 0 < maxMSS < s.mss
  {
    hide MssPos, OptsBytes, FrameBytes, Fits;
    var os := CutOf(f);
    s := FieldsOf(f, TcpPos(f), MssPos(f).value, TcpPos(f) + DataOff(f), os);
    CutIsWritten(f, TcpPos(f), MssPos(f).value, TcpPos(f) + DataOff(f), os);
  }
}
