/** The ClientHello parser of the Reality listener and the grammar it inverts: sections 4.1.2 and
    4.2.8 of RFC 8446 and section 3 of RFC 6066. */
module ClientHello {
  import opened Bytes

  const GROUP_X25519 := 0x001D
  const EXT_SERVER_NAME := 0x0000
  const EXT_KEY_SHARE := 0x0033

  /** The fields the server needs; an absent name is empty. */
  datatype Parsed = Parsed(random: Frame, sessionID: Frame, x25519Pub: Option<Frame>, serverName: Frame)

  // ---------- the parser on byte strings ----------

  /** A value read from the front, with what is left. */
  type Read = Option<(Frame, Frame)>

  function TakeN(s: Frame, n: nat): Read
  {
    if |s| < n then None else Some((s[..n], s[n..]))
  }

  /** A vector with a one-byte length. */
  function TakeVec8(s: Frame): Read
  {
    if |s| < 1 then None else TakeN(s[1..], s[0])
  }

  /** A vector with a two-byte length. */
  function TakeVec16(s: Frame): Read
  {
    if |s| < 2 then None else TakeN(s[2..], U16(s[0], s[1]))
  }

  function FirstHost(list: Frame): Frame
    decreases |list|
  {
    if |list| < 3 then []
    else match TakeVec16(list[1..])
      case None => []
      case Some((name, rest)) => if list[0] == 0 then name else FirstHost(rest)
  }

  function ParseSni(data: Frame): Frame
  {
    match TakeVec16(data) case None => [] case Some((list, _)) => FirstHost(list)
  }

  function FirstX25519(shares: Frame): Option<Frame>
    decreases |shares|
  {
    if |shares| < 4 then None
    else match TakeVec16(shares[2..])
      case None => None
      case Some((key, rest)) =>
        if U16(shares[0], shares[1]) == GROUP_X25519 && |key| == 32 then Some(key) else FirstX25519(rest)
  }

  function ParseKeyShare(data: Frame): Option<Frame>
  {
    match TakeVec16(data) case None => None case Some((shares, _)) => FirstX25519(shares)
  }

  /** parseExtensions: a later extension of a type overwrites an earlier one. */
  function ParseExtensions(ext: Frame, p: Parsed): Parsed
    decreases |ext|
  {
    if |ext| < 4 then p
    else match TakeVec16(ext[2..])
      case None => p
      case Some((body, rest)) => ParseExtensions(rest, WithExtension(p, U16(ext[0], ext[1]), body))
  }

  function WithExtension(p: Parsed, etype: nat, body: Frame): Parsed
  {
    if etype == EXT_SERVER_NAME then p.(serverName := ParseSni(body))
    else if etype == EXT_KEY_SHARE then p.(x25519Pub := ParseKeyShare(body))
    else p
  }

  /** The body of the handshake message. */
  function ParseBody(hs: Frame): Option<Parsed>
  {
    if |hs| < 34 then None
    else match TakeVec8(hs[34..])
      case None => None
      case Some((sid, s1)) =>
        match TakeVec16(s1)
        case None => None
        case Some((_, s2)) =>
          match TakeVec8(s2)
          case None => None
          case Some((_, s3)) =>
            match TakeVec16(s3)
            case None => None
            case Some((ext, _)) => Some(ParseExtensions(ext, Parsed(hs[2..34], sid, None, [])))
  }

  function U24(a: Byte, b: Byte, c: Byte): nat
  {
    0x1_0000 * a + 0x100 * b + c
  }

  /** parseClientHelloRecord. */
  function ParseRecord(rec: Frame): Option<Parsed>
  {
    if |rec| < 5 || rec[0] != 0x16 then None
    else
      var recLen := U16(rec[3], rec[4]);
      if |rec| - 5 < recLen then None
      else
        var body := rec[5..5 + recLen];
        if |body| < 4 || body[0] != 1 then None
        else
          var hsLen := U24(body[1], body[2], body[3]);
          if |body| - 4 < hsLen then None else ParseBody(body[4..4 + hsLen])
  }

  // ---------- the parser as it is ----------

  /** byteReader: a cursor over a byte slice. */
  class ByteReader {
    const b: Frame
    var off: nat

    ghost predicate Valid()
      reads this
    {
      off <= |b|
    }

    ghost function Rest(): Frame
      requires Valid()
      reads this
    {
      b[off..]
    }

    constructor (b: Frame)
      ensures Valid() && Rest() == b
    {
      this.b, off := b, 0;
    }

    method Remaining() returns (n: nat)
      requires Valid()
      ensures n == |Rest()|
    {
      n := |b| - off;
    }

    method Take(n: nat) returns (v: Option<Frame>)
      requires Valid()
      modifies this
      ensures Valid()
      ensures v.None? <==> TakeN(old(Rest()), n).None?
      ensures v.None? ==> Rest() == old(Rest())
      ensures v.Some? ==> TakeN(old(Rest()), n) == Some((v.value, Rest()))
    {
      if |b| - off < n {
        return None;
      }
      ghost var rest := Rest();
      v := Some(b[off..off + n]);
      off := off + n;
      assert rest[..n] == v.value && rest[n..] == Rest();
    }

    method TakeU8() returns (v: Option<Byte>)
      requires Valid()
      modifies this
      ensures Valid()
      ensures v.None? <==> |old(Rest())| < 1
      ensures v.None? ==> Rest() == old(Rest())
      ensures v.Some? ==> v.value == old(Rest())[0] && Rest() == old(Rest())[1..]
    {
      var one := Take(1);
      if one.None? {
        return None;
      }
      v := Some(one.value[0]);
    }

    method TakeU16() returns (v: Option<nat>)
      requires Valid()
      modifies this
      ensures Valid()
      ensures v.None? <==> |old(Rest())| < 2
      ensures v.None? ==> Rest() == old(Rest())
      ensures v.Some? ==> v.value == U16(old(Rest())[0], old(Rest())[1]) && Rest() == old(Rest())[2..]
    {
      var two := Take(2);
      if two.None? {
        return None;
      }
      v := Some(U16(two.value[0], two.value[1]));
    }

    method TakeU8Vec() returns (v: Option<Frame>)
      requires Valid()
      modifies this
      ensures Valid()
      ensures v.None? <==> TakeVec8(old(Rest())).None?
      ensures v.None? ==> Rest() == if old(Rest()) == [] then [] else old(Rest())[1..]
      ensures v.Some? ==> TakeVec8(old(Rest())) == Some((v.value, Rest()))
    {
      var n := TakeU8();
      if n.None? {
        return None;
      }
      v := Take(n.value);
    }

    method TakeU16Vec() returns (v: Option<Frame>)
      requires Valid()
      modifies this
      ensures Valid()
      ensures v.None? <==> TakeVec16(old(Rest())).None?
      ensures v.None? ==> Rest() == if |old(Rest())| < 2 then old(Rest()) else old(Rest())[2..]
      ensures v.Some? ==> TakeVec16(old(Rest())) == Some((v.value, Rest()))
    {
      var n := TakeU16();
      if n.None? {
        return None;
      }
      v := Take(n.value);
    }
  }

  /** parseSNI. */
  method ReadSni(data: Frame) returns (name: Frame)
    ensures name == ParseSni(data)
  {
    var r := new ByteReader(data);
    var list := r.TakeU16Vec();
    if list.None? {
      return [];
    }
    var lr := new ByteReader(list.value);
    var left := lr.Remaining();
    while left >= 3
      invariant lr.Valid() && left == |lr.Rest()|
      invariant FirstHost(lr.Rest()) == FirstHost(list.value)
      decreases left
    {
      var nameType := lr.TakeU8();
      var host := lr.TakeU16Vec();
      if host.None? {
        return [];
      }
      if nameType.value == 0 {
        return host.value;
      }
      left := lr.Remaining();
    }
    name := [];
  }

  /** parseKeyShareX25519. */
  method ReadKeyShare(data: Frame) returns (key: Option<Frame>)
    ensures key == ParseKeyShare(data)
  {
    var r := new ByteReader(data);
    var shares := r.TakeU16Vec();
    if shares.None? {
      return None;
    }
    var sr := new ByteReader(shares.value);
    var left := sr.Remaining();
    while left >= 4
      invariant sr.Valid() && left == |sr.Rest()|
      invariant FirstX25519(sr.Rest()) == FirstX25519(shares.value)
      decreases left
    {
      var group := sr.TakeU16();
      var share := sr.TakeU16Vec();
      if share.None? {
        return None;
      }
      if group.value == GROUP_X25519 && |share.value| == 32 {
        return share;
      }
      left := sr.Remaining();
    }
    key := None;
  }

  /** parseExtensions. */
  method ReadExtensions(ext: Frame, start: Parsed) returns (p: Parsed)
    ensures p == ParseExtensions(ext, start)
  {
    p := start;
    var er := new ByteReader(ext);
    var left := er.Remaining();
    while left >= 4
      invariant er.Valid() && left == |er.Rest()|
      invariant ParseExtensions(er.Rest(), p) == ParseExtensions(ext, start)
      decreases left
    {
      var etype := er.TakeU16();
      var body := er.TakeU16Vec();
      if body.None? {
        return;
      }
      if etype.value == EXT_SERVER_NAME {
        var name := ReadSni(body.value);
        p := p.(serverName := name);
      } else if etype.value == EXT_KEY_SHARE {
        var key := ReadKeyShare(body.value);
        p := p.(x25519Pub := key);
      }
      left := er.Remaining();
    }
  }

  /** legacy_version and random. */
  method ReadRandom(r: ByteReader) returns (random: Option<Frame>)
    requires r.Valid()
    modifies r
    ensures r.Valid()
    ensures random.None? <==> |old(r.Rest())| < 34
    ensures random.Some? ==> random.value == old(r.Rest())[2..34] && r.Rest() == old(r.Rest())[34..]
  {
    ghost var all := r.Rest();
    var version := r.Take(2);
    if version.None? {
      return None;
    }
    random := r.Take(32);
    if random.Some? {
      assert all[2..][..32] == all[2..34] && all[2..][32..] == all[34..];
    }
  }

  /** The fixed part of parseClientHelloRecord. */
  method ReadBody(hs: Frame) returns (res: Option<Parsed>)
    ensures res == ParseBody(hs)
  {
    hide TakeN, TakeVec8, TakeVec16, ParseExtensions;
    var r := new ByteReader(hs);
    var random := ReadRandom(r);
    if random.None? {
      return None;
    }
    var sid := r.TakeU8Vec();
    if sid.None? {
      return None;
    }
    var suites := r.TakeU16Vec();
    if suites.None? {
      return None;
    }
    var compression := r.TakeU8Vec();
    if compression.None? {
      return None;
    }
    var ext := r.TakeU16Vec();
    if ext.None? {
      return None;
    }
    var p := ReadExtensions(ext.value, Parsed(random.value, sid.value, None, []));
    res := Some(p);
  }

  /** parseClientHelloRecord: on any bytes it ends, within bounds. */
  method ReadRecord(rec: Frame) returns (res: Option<Parsed>)
    ensures res == ParseRecord(rec)
  {
    if |rec| < 5 || rec[0] != 0x16 {
      return None;
    }
    var recLen := U16(rec[3], rec[4]);
    var body := rec[5..];
    if |body| < recLen {
      return None;
    }
    body := body[..recLen];
    assert body == rec[5..5 + recLen];
    if |body| < 4 || body[0] != 1 {
      return None;
    }
    var hsLen := U24(body[1], body[2], body[3]);
    var hs := body[4..];
    if |hs| < hsLen {
      return None;
    }
    hs := hs[..hsLen];
    assert hs == body[4..4 + hsLen];
    res := ReadBody(hs);
  }

  // ---------- the grammar ----------

  /** A name of section 3 of RFC 6066, a share of section 4.2.8 of RFC 8446. */
  datatype Name = Name(nameType: Byte, host: Frame)
  datatype Share = Share(group: nat, key: Frame)

  datatype Extension =
    | ServerName(names: seq<Name>)
    | KeyShare(shares: seq<Share>)
    | Other(etype: nat, body: Frame)

  /** A ClientHello of section 4.1.2 of RFC 8446. */
  datatype Hello = Hello(version: Frame, random: Frame, sessionID: Frame, suites: Frame, compression: Frame,
                         extensions: seq<Extension>)

  function Vec8(f: Frame): Frame
    requires |f| < 0x100
  {
    [|f|] + f
  }

  function Vec16(f: Frame): Frame
    requires |f| < 0x1_0000
  {
    PutU16(|f|) + f
  }

  /** The names and shares whose vectors fit their two-byte lengths. */
  predicate NamesFit(ns: seq<Name>)
  {
    forall i :: 0 <= i < |ns| ==> |ns[i].host| < 0x1_0000
  }

  predicate SharesFit(ss: seq<Share>)
  {
    forall i :: 0 <= i < |ss| ==> ss[i].group < 0x1_0000 && |ss[i].key| < 0x1_0000
  }

  function NameBytes(ns: seq<Name>): Frame
    requires NamesFit(ns)
  {
    if ns == [] then [] else [ns[0].nameType] + Vec16(ns[0].host) + NameBytes(ns[1..])
  }

  function ShareBytes(ss: seq<Share>): Frame
    requires SharesFit(ss)
  {
    if ss == [] then [] else PutU16(ss[0].group) + Vec16(ss[0].key) + ShareBytes(ss[1..])
  }

  function TypeOf(e: Extension): nat
  {
    match e case ServerName(_) => EXT_SERVER_NAME case KeyShare(_) => EXT_KEY_SHARE case Other(t, _) => t
  }

  predicate ExtensionFits(e: Extension)
  {
    match e
    case ServerName(ns) => NamesFit(ns) && |NameBytes(ns)| < 0xFFFE
    case KeyShare(ss) => SharesFit(ss) && |ShareBytes(ss)| < 0xFFFE
    case Other(t, body) => t < 0x1_0000 && t != EXT_SERVER_NAME && t != EXT_KEY_SHARE && |body| < 0x1_0000
  }

  function BodyOf(e: Extension): (f: Frame)
    requires ExtensionFits(e)
    ensures |f| < 0x1_0000
  {
    match e
    case ServerName(ns) => Vec16(NameBytes(ns))
    case KeyShare(ss) => Vec16(ShareBytes(ss))
    case Other(_, body) => body
  }

  function OneExtension(e: Extension): Frame
    requires ExtensionFits(e)
  {
    PutU16(TypeOf(e)) + Vec16(BodyOf(e))
  }

  predicate ExtensionsFit(es: seq<Extension>)
  {
    forall i :: 0 <= i < |es| ==> ExtensionFits(es[i])
  }

  function ExtensionBytes(es: seq<Extension>): Frame
    requires ExtensionsFit(es)
  {
    if es == [] then [] else OneExtension(es[0]) + ExtensionBytes(es[1..])
  }

  ghost predicate HelloFits(h: Hello)
  {
    && |h.version| == 2 && |h.random| == 32 && |h.sessionID| < 0x100
    && |h.suites| < 0x1_0000 && |h.compression| < 0x100
    && ExtensionsFit(h.extensions) && |ExtensionBytes(h.extensions)| < 0x1_0000
    && |BodyBytes(h)| + 4 < 0x1_0000
  }

  function BodyBytes(h: Hello): Frame
    requires |h.sessionID| < 0x100 && |h.suites| < 0x1_0000 && |h.compression| < 0x100
    requires ExtensionsFit(h.extensions) && |ExtensionBytes(h.extensions)| < 0x1_0000
  {
    h.version + h.random + Vec8(h.sessionID) + Vec16(h.suites) + Vec8(h.compression) +
    Vec16(ExtensionBytes(h.extensions))
  }

  function PutU24(n: nat): (f: Frame)
    requires n < 0x1_0000
    ensures |f| == 3 && U24(f[0], f[1], f[2]) == n
  {
    [0] + PutU16(n)
  }

  /** The hello as one handshake record. */
  function RecordBytes(h: Hello, recVersion: Frame): Frame
    requires HelloFits(h) && |recVersion| == 2
  {
    var hs := BodyBytes(h);
    [0x16] + recVersion + Vec16([1] + PutU24(|hs|) + hs)
  }

  // ---------- what a parser should find ----------

  function HostOf(ns: seq<Name>): Frame
  {
    if ns == [] then [] else if ns[0].nameType == 0 then ns[0].host else HostOf(ns[1..])
  }

  function KeyOf(ss: seq<Share>): Option<Frame>
  {
    if ss == [] then None
    else if ss[0].group == GROUP_X25519 && |ss[0].key| == 32 then Some(ss[0].key) else KeyOf(ss[1..])
  }

  predicate DistinctTypes(es: seq<Extension>)
  {
    forall i, j :: 0 <= i < j < |es| ==> TypeOf(es[i]) != TypeOf(es[j])
  }

  lemma ReadVec8(f: Frame, rest: Frame)
    requires |f| < 0x100
    ensures TakeVec8(Vec8(f) + rest) == Some((f, rest))
  {
    var s := Vec8(f) + rest;
    assert s[1..] == f + rest;
    assert (f + rest)[..|f|] == f && (f + rest)[|f|..] == rest;
  }

  lemma ReadVec16(f: Frame, rest: Frame)
    requires |f| < 0x1_0000
    ensures TakeVec16(Vec16(f) + rest) == Some((f, rest))
  {
    var s := Vec16(f) + rest;
    assert s[0] == PutU16(|f|)[0] && s[1] == PutU16(|f|)[1];
    assert s[2..] == f + rest;
    assert (f + rest)[..|f|] == f && (f + rest)[|f|..] == rest;
  }

  lemma {:induction false} FirstHostInverts(ns: seq<Name>)
    requires NamesFit(ns)
    ensures FirstHost(NameBytes(ns)) == HostOf(ns)
  {
    if ns != [] {
      var s := NameBytes(ns);
      assert s[1..] == Vec16(ns[0].host) + NameBytes(ns[1..]);
      ReadVec16(ns[0].host, NameBytes(ns[1..]));
      FirstHostInverts(ns[1..]);
    }
  }

  lemma {:induction false} FirstX25519Inverts(ss: seq<Share>)
    requires SharesFit(ss)
    ensures FirstX25519(ShareBytes(ss)) == KeyOf(ss)
  {
    if ss != [] {
      var s := ShareBytes(ss);
      assert s[0] == PutU16(ss[0].group)[0] && s[1] == PutU16(ss[0].group)[1];
      assert s[2..] == Vec16(ss[0].key) + ShareBytes(ss[1..]);
      ReadVec16(ss[0].key, ShareBytes(ss[1..]));
      FirstX25519Inverts(ss[1..]);
    }
  }

  /** What one extension of a hello sets. */
  function Applied(p: Parsed, e: Extension): Parsed
  {
    match e
    case ServerName(ns) => p.(serverName := HostOf(ns))
    case KeyShare(ss) => p.(x25519Pub := KeyOf(ss))
    case Other(_, _) => p
  }

  /** The parser's fields after the extensions of a hello. */
  function WithExtensions(p: Parsed, es: seq<Extension>): Parsed
    decreases |es|
  {
    if es == [] then p else WithExtensions(Applied(p, es[0]), es[1..])
  }

  lemma ExtensionInverts(e: Extension, p: Parsed)
    requires ExtensionFits(e)
    ensures TypeOf(e) < 0x1_0000
    ensures WithExtension(p, TypeOf(e), BodyOf(e)) == Applied(p, e)
  {
    var body := BodyOf(e);
    assert body + [] == body;
    match e
    case ServerName(ns) =>
      ReadVec16(NameBytes(ns), []);
      FirstHostInverts(ns);
    case KeyShare(ss) =>
      ReadVec16(ShareBytes(ss), []);
      FirstX25519Inverts(ss);
    case Other(_, _) =>
  }

  /** One extension read off the front. */
  lemma ParseOne(t: nat, body: Frame, rest: Frame, p: Parsed)
    requires t < 0x1_0000 && |body| < 0x1_0000
    ensures ParseExtensions(PutU16(t) + Vec16(body) + rest, p) == ParseExtensions(rest, WithExtension(p, t, body))
  {
    hide TakeVec16, WithExtension;
    var s := PutU16(t) + Vec16(body) + rest;
    ReadVec16(body, rest);
    assert s[0] == PutU16(t)[0] && s[1] == PutU16(t)[1];
    assert s[2..] == Vec16(body) + rest;
  }

  lemma {:induction false} ExtensionsInvert(es: seq<Extension>, p: Parsed)
    requires ExtensionsFit(es)
    ensures ParseExtensions(ExtensionBytes(es), p) == WithExtensions(p, es)
    decreases |es|
  {
    if es != [] {
      ExtensionInverts(es[0], p);
      hide ExtensionFits, Applied, WithExtension, BodyOf, TypeOf, Vec16, ParseExtensions;
      ParseOne(TypeOf(es[0]), BodyOf(es[0]), ExtensionBytes(es[1..]), p);
      ExtensionsInvert(es[1..], Applied(p, es[0]));
    }
  }

  /** With distinct types each field comes from the one extension of its type, if there is one. */
  lemma {:induction false} DistinctFields(p: Parsed, es: seq<Extension>)
    requires DistinctTypes(es)
    ensures var q := WithExtensions(p, es);
      && q.random == p.random && q.sessionID == p.sessionID
      && (forall i :: 0 <= i < |es| && es[i].ServerName? ==> q.serverName == HostOf(es[i].names))
      && (forall i :: 0 <= i < |es| && es[i].KeyShare? ==> q.x25519Pub == KeyOf(es[i].shares))
      && ((forall i :: 0 <= i < |es| ==> !es[i].ServerName?) ==> q.serverName == p.serverName)
      && ((forall i :: 0 <= i < |es| ==> !es[i].KeyShare?) ==> q.x25519Pub == p.x25519Pub)
    decreases |es|
  {
    hide HostOf, KeyOf;
    if es != [] {
      var rest := es[1..];
      var p1 := Applied(p, es[0]);
      assert forall i :: 0 <= i < |rest| ==> rest[i] == es[i + 1];
      DistinctFields(p1, rest);
      if es[0].ServerName? {
        assert forall i :: 0 <= i < |rest| ==> !rest[i].ServerName?;
      }
      if es[0].KeyShare? {
        assert forall i :: 0 <= i < |rest| ==> !rest[i].KeyShare?;
      }
      forall i | 0 <= i < |es|
        ensures i == 0 || es[i] == rest[i - 1]
      {
      }
    }
  }

  lemma BodyInverts(h: Hello)
    requires HelloFits(h)
    ensures ParseBody(BodyBytes(h)) ==
      Some(WithExtensions(Parsed(h.random, h.sessionID, None, []), h.extensions))
  {
    hide *;
    BodySplit(h);
    var e := ExtensionBytes(h.extensions);
    var s3 := Vec16(e) + [];
    var s2 := Vec8(h.compression) + s3;
    var s1 := Vec16(h.suites) + s2;
    ReadVec8(h.sessionID, s1);
    ReadVec16(h.suites, s2);
    ReadVec8(h.compression, s3);
    ReadVec16(e, []);
    ExtensionsInvert(h.extensions, Parsed(h.random, h.sessionID, None, []));
    ParseBodySteps(BodyBytes(h), h.sessionID, s1, s2, s3, e);
  }

  /** The body of a hello, cut where the parser cuts it. */
  lemma BodySplit(h: Hello)
    requires HelloFits(h)
    ensures |h.sessionID| < 0x100 && |h.suites| < 0x1_0000 && |h.compression| < 0x100
    ensures ExtensionsFit(h.extensions) && |ExtensionBytes(h.extensions)| < 0x1_0000
    ensures var hs := BodyBytes(h);
      && |hs| >= 34 && hs[2..34] == h.random
      && hs[34..] == Vec8(h.sessionID) +
           (Vec16(h.suites) + (Vec8(h.compression) + (Vec16(ExtensionBytes(h.extensions)) + [])))
  {
    hide Vec8, Vec16, ExtensionBytes;
    var tail := Vec16(ExtensionBytes(h.extensions)) + [];
    assert BodyBytes(h) ==
      h.version + h.random + (Vec8(h.sessionID) + (Vec16(h.suites) + (Vec8(h.compression) + tail)));
  }

  lemma ParseBodySteps(hs: Frame, sid: Frame, s1: Frame, s2: Frame, s3: Frame, e: Frame)
    requires |hs| >= 34 && TakeVec8(hs[34..]) == Some((sid, s1))
    requires TakeVec16(s1).Some? && TakeVec16(s1).value.1 == s2
    requires TakeVec8(s2).Some? && TakeVec8(s2).value.1 == s3
    requires TakeVec16(s3) == Some((e, []))
    ensures ParseBody(hs) == Some(ParseExtensions(e, Parsed(hs[2..34], sid, None, [])))
  {
    hide TakeVec8, TakeVec16, ParseExtensions;
  }

  /** The record and handshake headers around a hello's body. */
  lemma RecordOpens(h: Hello, recVersion: Frame, trailing: Frame)
    requires HelloFits(h) && |recVersion| == 2
    ensures ParseRecord(RecordBytes(h, recVersion) + trailing) == ParseBody(BodyBytes(h))
  {
    hide ParseBody, BodyBytes, ExtensionsFit, PutU16, PutU24, U16, U24;
    var hs := BodyBytes(h);
    var body := [1] + PutU24(|hs|) + hs;
    var rec := RecordBytes(h, recVersion) + trailing;
    assert rec[0] == 0x16;
    assert rec[3] == PutU16(|body|)[0] && rec[4] == PutU16(|body|)[1];
    assert rec[5..5 + |body|] == body;
    assert body[1] == PutU24(|hs|)[0] && body[2] == PutU24(|hs|)[1] && body[3] == PutU24(|hs|)[2];
    assert body[4..4 + |hs|] == hs;
  }

  lemma OneName(host: Frame)
    requires |host| < 0x100
    ensures var e := ServerName([Name(0, host)]);
      ExtensionFits(e) && |OneExtension(e)| == 9 + |host| && HostOf(e.names) == host
  {
    var ns := [Name(0, host)];
    assert ns[1..] == [];
    assert |NameBytes(ns)| == 3 + |host|;
  }

  lemma OneShare(key: Frame)
    requires |key| == 32
    ensures var e := KeyShare([Share(GROUP_X25519, key)]);
      ExtensionFits(e) && |OneExtension(e)| == 42 && KeyOf(e.shares) == Some(key)
  {
    var ss := [Share(GROUP_X25519, key)];
    assert ss[1..] == [];
    assert |ShareBytes(ss)| == 36;
  }

  /** There are hellos of the grammar: one with a host name and an X25519 share. */
  lemma SomeHelloFits(host: Frame, random: Frame, key: Frame)
    requires |host| < 0x100 && |random| == 32 && |key| == 32
    ensures var es := [ServerName([Name(0, host)]), KeyShare([Share(GROUP_X25519, key)])];
      var h := Hello([3, 3], random, [], [0x13, 1], [0], es);
      && HelloFits(h) && DistinctTypes(es)
      && HostOf(es[0].names) == host && KeyOf(es[1].shares) == Some(key)
  {
    hide OneExtension, ExtensionFits, HostOf, KeyOf;
    var es := [ServerName([Name(0, host)]), KeyShare([Share(GROUP_X25519, key)])];
    OneName(host);
    OneShare(key);
    assert es[1..] == [es[1]] && es[1..][1..] == [];
    assert ExtensionBytes(es) == OneExtension(es[0]) + ExtensionBytes(es[1..]);
    assert ExtensionBytes(es[1..]) == OneExtension(es[1]) + [];
  }

  /** Main theorem. The parser inverts the grammar: for every hello that fits one record, with distinct
      extension types and whatever follows the record, it returns exactly the random, the session id,
      the first host name and the first X25519 share. */
  lemma ParserInvertsGrammar(h: Hello, recVersion: Frame, trailing: Frame)
    requires HelloFits(h) && |recVersion| == 2 && DistinctTypes(h.extensions)
    ensures var r := ParseRecord(RecordBytes(h, recVersion) + trailing); var es := h.extensions;
      && r.Some?
      && r.value.random == h.random && r.value.sessionID == h.sessionID
      && (forall i :: 0 <= i < |es| && es[i].ServerName? ==> r.value.serverName == HostOf(es[i].names))
      && (forall i :: 0 <= i < |es| && es[i].KeyShare? ==> r.value.x25519Pub == KeyOf(es[i].shares))
      && ((forall i :: 0 <= i < |es| ==> !es[i].ServerName?) ==> r.value.serverName == [])
      && ((forall i :: 0 <= i < |es| ==> !es[i].KeyShare?) ==> r.value.x25519Pub == None)
  {
    hide HostOf, KeyOf, ParseBody, WithExtensions, BodyBytes, ExtensionsFit, RecordBytes, ParseRecord;
    RecordOpens(h, recVersion, trailing);
    BodyInverts(h);
    DistinctFields(Parsed(h.random, h.sessionID, None, []), h.extensions);
  }
}
