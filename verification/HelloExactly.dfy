/** The ClientHello parser on any bytes: exactly which records it accepts, and what it finds in them when
    extensions repeat, lists are cut short or bytes follow. */
module HelloExactly {
  import opened Bytes
  import opened ClientHello

  // ---------- lists of typed vectors ----------

  /** An extension, a key share or a name: a type of fixed width and a body behind a two-byte length. */
  datatype Item = Item(head: Frame, body: Frame)

  predicate ItemsFit(items: seq<Item>, width: nat)
  {
    forall i :: 0 <= i < |items| ==> |items[i].head| == width && |items[i].body| < 0x1_0000
  }

  function ItemsBytes(items: seq<Item>, width: nat): Frame
    requires ItemsFit(items, width)
  {
    if items == [] then [] else items[0].head + Vec16(items[0].body) + ItemsBytes(items[1..], width)
  }

  /** No whole item starts here. */
  predicate Ends(tail: Frame, width: nat)
  {
    |tail| < width + 2 || width + 2 + U16(tail[width], tail[width + 1]) > |tail|
  }

  /** The bytes are some whole items and a rest in which no other starts. */
  predicate Lists(s: Frame, items: seq<Item>, tail: Frame, width: nat)
  {
    ItemsFit(items, width) && Ends(tail, width) && s == ItemsBytes(items, width) + tail
  }

  lemma TakesFirst(head: Frame, body: Frame, rest: Frame)
    requires |body| < 0x1_0000
    ensures var s := head + Vec16(body) + rest;
      |s| >= |head| + 2 && s[..|head|] == head && TakeVec16(s[|head|..]) == Some((body, rest))
  {
    var s := head + Vec16(body) + rest;
    assert s[|head|..] == Vec16(body) + rest;
    ReadVec16(body, rest);
  }

  lemma ListsAfter(s: Frame, width: nat, items: seq<Item>, tail: Frame)
    requires !Ends(s, width)
    requires Lists(s[width + 2 + U16(s[width], s[width + 1])..], items, tail, width)
    ensures var n := U16(s[width], s[width + 1]);
      Lists(s, [Item(s[..width], s[width + 2..width + 2 + n])] + items, tail, width)
  {
    var n := U16(s[width], s[width + 1]);
    var first, end := Item(s[..width], s[width + 2..width + 2 + n]), width + 2 + n;
    var all := [first] + items;
    assert all[1..] == items;
    LengthAndBody(s, width, n);
    hide Vec16, Ends, U16;
    assert s[..width] + s[width..end] + (ItemsBytes(items, width) + tail) == s;
    assert ItemsBytes(all, width) == s[..width] + s[width..end] + ItemsBytes(items, width);
  }

  lemma LengthAndBody(s: Frame, at: nat, n: nat)
    requires at + 2 + n <= |s| && n == U16(s[at], s[at + 1])
    ensures Vec16(s[at + 2..at + 2 + n]) == s[at..at + 2 + n]
  {
    assert s[at..at + 2] == PutU16(n);
  }

  /** Every byte string is a list of items and a rest. */
  lemma {:induction false} Splits(s: Frame, width: nat) returns (items: seq<Item>, tail: Frame)
    ensures Lists(s, items, tail, width)
    decreases |s|
  {
    if Ends(s, width) {
      items, tail := [], s;
    } else {
      hide Lists;
      var n := U16(s[width], s[width + 1]);
      items, tail := Splits(s[width + 2 + n..], width);
      ListsAfter(s, width, items, tail);
      items := [Item(s[..width], s[width + 2..width + 2 + n])] + items;
    }
  }

  lemma TwoByteHead(head: Frame)
    requires |head| == 2
    ensures head == [0, 0] <==> U16(head[0], head[1]) == EXT_SERVER_NAME
    ensures head == [0, 0x33] <==> U16(head[0], head[1]) == EXT_KEY_SHARE
    ensures head == [0, 0x1D] <==> U16(head[0], head[1]) == GROUP_X25519
  {
    assert head == [head[0], head[1]];
  }

  // ---------- what the loops find ----------

  predicate IsHost(i: Item)
  {
    i.head == [0]
  }

  predicate IsX25519(i: Item)
  {
    i.head == [0, 0x1D] && |i.body| == 32
  }

  /** The name is the body of the first host name, or empty if there is none. */
  ghost predicate FirstName(items: seq<Item>, name: Frame)
  {
    if exists i :: 0 <= i < |items| && IsHost(items[i]) then
      exists i :: 0 <= i < |items| && IsHost(items[i]) && name == items[i].body &&
        forall j :: 0 <= j < i ==> !IsHost(items[j])
    else name == []
  }

  /** The key is the body of the first 32-byte X25519 share, if there is one. */
  ghost predicate FirstKey(items: seq<Item>, key: Option<Frame>)
  {
    if exists i :: 0 <= i < |items| && IsX25519(items[i]) then
      exists i :: 0 <= i < |items| && IsX25519(items[i]) && key == Some(items[i].body) &&
        forall j :: 0 <= j < i ==> !IsX25519(items[j])
    else key == None
  }

  lemma {:induction false} NamesExactly(items: seq<Item>, tail: Frame)
    requires ItemsFit(items, 1) && Ends(tail, 1)
    ensures FirstName(items, FirstHost(ItemsBytes(items, 1) + tail))
  {
    if items == [] {
      assert [] + tail == tail;
      assert |tail| >= 3 ==> TakeVec16(tail[1..]) == None;
    } else {
      var rest := ItemsBytes(items[1..], 1) + tail;
      var s := items[0].head + Vec16(items[0].body) + rest;
      assert ItemsBytes(items, 1) + tail == s;
      TakesFirst(items[0].head, items[0].body, rest);
      NamesExactly(items[1..], tail);
      assert s[0] == items[0].head[0];
      NameAfter(items, FirstHost(rest));
    }
  }

  lemma NameAfter(items: seq<Item>, name: Frame)
    requires items != [] && FirstName(items[1..], name)
    ensures IsHost(items[0]) ==> FirstName(items, items[0].body)
    ensures !IsHost(items[0]) ==> FirstName(items, name)
  {
    hide IsHost;
    assert forall i :: 1 <= i < |items| ==> items[i] == items[1..][i - 1];
    if !IsHost(items[0]) && exists i :: 0 <= i < |items| && IsHost(items[i]) {
      var i :| 0 <= i < |items| && IsHost(items[i]);
      assert IsHost(items[1..][i - 1]);
      var k :| 0 <= k < |items[1..]| && IsHost(items[1..][k]) && name == items[1..][k].body
        && forall j :: 0 <= j < k ==> !IsHost(items[1..][j]);
      assert IsHost(items[k + 1]);
    }
  }

  lemma {:induction false} SharesExactly(items: seq<Item>, tail: Frame)
    requires ItemsFit(items, 2) && Ends(tail, 2)
    ensures FirstKey(items, FirstX25519(ItemsBytes(items, 2) + tail))
  {
    if items == [] {
      assert [] + tail == tail;
      assert |tail| >= 4 ==> TakeVec16(tail[2..]) == None;
    } else {
      var rest := ItemsBytes(items[1..], 2) + tail;
      var s := items[0].head + Vec16(items[0].body) + rest;
      assert ItemsBytes(items, 2) + tail == s;
      hide ItemsBytes, Vec16, FirstKey, Ends;
      TakesFirst(items[0].head, items[0].body, rest);
      SharesExactly(items[1..], tail);
      assert s[0] == items[0].head[0] && s[1] == items[0].head[1];
      TwoByteHead(items[0].head);
      KeyAfter(items, FirstX25519(rest));
    }
  }

  lemma KeyAfter(items: seq<Item>, key: Option<Frame>)
    requires items != [] && FirstKey(items[1..], key)
    ensures IsX25519(items[0]) ==> FirstKey(items, Some(items[0].body))
    ensures !IsX25519(items[0]) ==> FirstKey(items, key)
  {
    hide IsX25519;
    assert forall i :: 1 <= i < |items| ==> items[i] == items[1..][i - 1];
    if !IsX25519(items[0]) && exists i :: 0 <= i < |items| && IsX25519(items[i]) {
      var i :| 0 <= i < |items| && IsX25519(items[i]);
      assert IsX25519(items[1..][i - 1]);
      var k :| 0 <= k < |items[1..]| && IsX25519(items[1..][k]) && key == Some(items[1..][k].body)
        && forall j :: 0 <= j < k ==> !IsX25519(items[1..][j]);
      assert IsX25519(items[k + 1]);
    }
  }

  /** The list in a body: what its two-byte length covers, if it is all there. */
  predicate Covered(data: Frame)
  {
    |data| >= 2 && 2 + U16(data[0], data[1]) <= |data|
  }

  function ListIn(data: Frame): Frame
    requires Covered(data)
  {
    data[2..2 + U16(data[0], data[1])]
  }

  ghost predicate NameOfList(list: Frame, items: seq<Item>, tail: Frame, name: Frame)
  {
    Lists(list, items, tail, 1) && FirstName(items, name)
  }

  ghost predicate KeyOfList(list: Frame, items: seq<Item>, tail: Frame, key: Option<Frame>)
  {
    Lists(list, items, tail, 2) && FirstKey(items, key)
  }

  /** The name in a server_name body: the first host name of its list. */
  ghost predicate NameIn(data: Frame, name: Frame)
  {
    if !Covered(data) then name == []
    else exists items, tail :: NameOfList(ListIn(data), items, tail, name)
  }

  /** The key in a key_share body. */
  ghost predicate KeyIn(data: Frame, key: Option<Frame>)
  {
    if !Covered(data) then key == None
    else exists items, tail :: KeyOfList(ListIn(data), items, tail, key)
  }

  lemma SniIs(data: Frame, name: Frame)
    ensures ParseSni(data) == name <==> NameIn(data, name)
  {
    hide FirstName, FirstHost;
    if Covered(data) {
      var list := ListIn(data);
      assert TakeVec16(data).value.0 == list;
      var items, tail := Splits(list, 1);
      NamesExactly(items, tail);
      assert NameOfList(list, items, tail, ParseSni(data));
      if items': seq<Item>, tail' :| NameOfList(list, items', tail', name) {
        NamesExactly(items', tail');
        OneName(items', name, ParseSni(data));
      }
    }
  }

  lemma OneName(items: seq<Item>, a: Frame, b: Frame)
    requires FirstName(items, a) && FirstName(items, b)
    ensures a == b
  {
  }

  lemma KeyShareIs(data: Frame, key: Option<Frame>)
    ensures ParseKeyShare(data) == key <==> KeyIn(data, key)
  {
    hide FirstKey, FirstX25519;
    if Covered(data) {
      var list := ListIn(data);
      assert TakeVec16(data).value.0 == list;
      var items, tail := Splits(list, 2);
      SharesExactly(items, tail);
      assert KeyOfList(list, items, tail, ParseKeyShare(data));
      if items': seq<Item>, tail' :| KeyOfList(list, items', tail', key) {
        SharesExactly(items', tail');
        OneKey(items', key, ParseKeyShare(data));
      }
    }
  }

  lemma OneKey(items: seq<Item>, a: Option<Frame>, b: Option<Frame>)
    requires FirstKey(items, a) && FirstKey(items, b)
    ensures a == b
  {
  }

  // ---------- extensions ----------

  /** The body of the last extension of a type. */
  function LastOf(items: seq<Item>, head: Frame): Option<Frame>
  {
    if items == [] then None
    else if items[|items| - 1].head == head then Some(items[|items| - 1].body)
    else LastOf(items[..|items| - 1], head)
  }

  lemma {:induction false} LastOfCons(items: seq<Item>, head: Frame)
    requires items != []
    ensures LastOf(items, head) ==
      if LastOf(items[1..], head).Some? then LastOf(items[1..], head)
      else if items[0].head == head then Some(items[0].body) else None
  {
    if |items| > 1 {
      var n := |items| - 1;
      assert items[..n][1..] == items[1..][..n - 1];
      LastOfCons(items[..n], head);
    } else {
      assert items[..0] == [] && items[1..] == [];
    }
  }

  /** One whole extension at the front is applied, and the parser goes on behind it. */
  lemma AppliesFirst(i: Item, rest: Frame, p: Parsed)
    requires |i.head| == 2 && |i.body| < 0x1_0000
    ensures ParseExtensions(i.head + Vec16(i.body) + rest, p) == ParseExtensions(rest, AfterOne(i, p))
  {
    hide ParseSni, ParseKeyShare;
    var s := i.head + Vec16(i.body) + rest;
    TakesFirst(i.head, i.body, rest);
    assert s[0] == i.head[0] && s[1] == i.head[1];
    TwoByteHead(i.head);
  }

  function AfterOne(i: Item, p: Parsed): Parsed
  {
    if i.head == [0, 0] then p.(serverName := ParseSni(i.body))
    else if i.head == [0, 0x33] then p.(x25519Pub := ParseKeyShare(i.body))
    else p
  }

  lemma NoExtension(tail: Frame, p: Parsed)
    requires Ends(tail, 2)
    ensures ParseExtensions(tail, p) == p
  {
    assert |tail| >= 4 ==> TakeVec16(tail[2..]) == None;
  }

  /** The fields after some whole extensions: of each kind the last one counts. */
  lemma {:induction false} ExtensionsExactly(items: seq<Item>, tail: Frame, p: Parsed)
    requires ItemsFit(items, 2) && Ends(tail, 2)
    ensures var sni, share := LastOf(items, [0, 0]), LastOf(items, [0, 0x33]);
      ParseExtensions(ItemsBytes(items, 2) + tail, p) ==
        p.(serverName := if sni.Some? then ParseSni(sni.value) else p.serverName,
           x25519Pub := if share.Some? then ParseKeyShare(share.value) else p.x25519Pub)
  {
    hide ParseSni, ParseKeyShare, ParseExtensions, Ends, Vec16;
    if items == [] {
      NoExtension(tail, p);
      assert ItemsBytes(items, 2) + tail == tail;
    } else {
      var rest := ItemsBytes(items[1..], 2) + tail;
      assert ItemsBytes(items, 2) + tail == items[0].head + Vec16(items[0].body) + rest;
      hide ItemsBytes, LastOf;
      AppliesFirst(items[0], rest, p);
      LastOfCons(items, [0, 0]);
      LastOfCons(items, [0, 0x33]);
      ExtensionsExactly(items[1..], tail, AfterOne(items[0], p));
    }
  }

  // ---------- records ----------

  /** A record as the parser cuts it: after the extensions, the hello, the message and the record there may be
      more bytes. */
  datatype Raw = Raw(recVersion: Frame, len: Frame, version: Frame, random: Frame, sessionID: Frame, suites: Frame,
                     compression: Frame, items: seq<Item>, tail: Frame, afterHello: Frame, afterMessage: Frame,
                     afterRecord: Frame)

  function ExtensionBlock(r: Raw): Frame
    requires ItemsFit(r.items, 2)
  {
    ItemsBytes(r.items, 2) + r.tail
  }

  predicate PartsFit(r: Raw)
  {
    && |r.recVersion| == 2 && |r.version| == 2 && |r.random| == 32 && |r.sessionID| < 0x100
    && |r.suites| < 0x1_0000 && |r.compression| < 0x100
    && ItemsFit(r.items, 2) && Ends(r.tail, 2) && |ExtensionBlock(r)| < 0x1_0000
  }

  function HelloBytes(r: Raw): Frame
    requires PartsFit(r)
  {
    r.version + r.random + Vec8(r.sessionID) + Vec16(r.suites) + Vec8(r.compression) + Vec16(ExtensionBlock(r)) +
    r.afterHello
  }

  /** The handshake message, its three-byte length given. */
  function MessageBytes(r: Raw): Frame
    requires PartsFit(r)
  {
    [1] + r.len + HelloBytes(r) + r.afterMessage
  }

  predicate RawFits(r: Raw)
  {
    && PartsFit(r) && |r.len| == 3 && U24(r.len[0], r.len[1], r.len[2]) == |HelloBytes(r)|
    && |MessageBytes(r)| < 0x1_0000
  }

  function RawBytes(r: Raw): Frame
    requires RawFits(r)
  {
    [0x16] + r.recVersion + Vec16(MessageBytes(r)) + r.afterRecord
  }

  /** What is to be found in it. */
  ghost predicate FieldsAre(r: Raw, p: Parsed)
  {
    && p.random == r.random && p.sessionID == r.sessionID
    && (match LastOf(r.items, [0, 0]) case None => p.serverName == [] case Some(body) => NameIn(body, p.serverName))
    && (match LastOf(r.items, [0, 0x33]) case None => p.x25519Pub == None case Some(body) => KeyIn(body, p.x25519Pub))
  }

  lemma HelloShape(r: Raw)
    requires PartsFit(r)
    ensures var hs, ext := HelloBytes(r), Vec16(ExtensionBlock(r));
      && |hs| >= 34 && hs[2..34] == r.random
      && hs[34..] == Vec8(r.sessionID) + (Vec16(r.suites) + (Vec8(r.compression) + (ext + r.afterHello)))
  {
    hide ExtensionBlock, Vec8, Vec16, ItemsFit, Ends;
  }

  /** The parser reads the hello's vectors one after the other. */
  lemma HelloReads(r: Raw)
    requires PartsFit(r)
    ensures var none := Parsed(r.random, r.sessionID, None, []);
      ParseBody(HelloBytes(r)) == Some(ParseExtensions(ExtensionBlock(r), none))
  {
    HelloShape(r);
    var s3 := Vec16(ExtensionBlock(r)) + r.afterHello;
    var s2 := Vec8(r.compression) + s3;
    var s1 := Vec16(r.suites) + s2;
    ReadVec8(r.sessionID, s1);
    ReadVec16(r.suites, s2);
    ReadVec8(r.compression, s3);
    ReadVec16(ExtensionBlock(r), r.afterHello);
    hide ParseExtensions, ItemsFit, Ends, ExtensionBlock, HelloBytes, TakeVec8, TakeVec16, Vec8, Vec16, PartsFit;
  }

  lemma FieldsFound(r: Raw, p: Parsed)
    requires PartsFit(r)
    ensures ParseExtensions(ExtensionBlock(r), Parsed(r.random, r.sessionID, None, [])) == p <==> FieldsAre(r, p)
  {
    hide ParseExtensions, LastOf, NameIn, KeyIn, ParseSni, ParseKeyShare;
    ExtensionsExactly(r.items, r.tail, Parsed(r.random, r.sessionID, None, []));
    var sni, share := LastOf(r.items, [0, 0]), LastOf(r.items, [0, 0x33]);
    if sni.Some? {
      SniIs(sni.value, p.serverName);
    }
    if share.Some? {
      KeyShareIs(share.value, p.x25519Pub);
    }
  }

  lemma MessageReads(r: Raw)
    requires RawFits(r)
    ensures var msg, hs := MessageBytes(r), HelloBytes(r);
      && |msg| >= 4 + |hs| && msg[0] == 1 && U24(msg[1], msg[2], msg[3]) == |hs| && msg[4..4 + |hs|] == hs
  {
    hide HelloBytes, PartsFit;
    var msg, hs := MessageBytes(r), HelloBytes(r);
    assert msg[1] == r.len[0] && msg[2] == r.len[1] && msg[3] == r.len[2];
  }

  lemma RecordReads(r: Raw)
    requires RawFits(r)
    ensures var rec, msg := RawBytes(r), MessageBytes(r);
      && |rec| >= 5 + |msg| && rec[0] == 0x16 && U16(rec[3], rec[4]) == |msg| && rec[5..5 + |msg|] == msg
  {
    hide HelloBytes, MessageBytes;
    var rec, msg := RawBytes(r), MessageBytes(r);
    assert rec[3] == Vec16(msg)[0] && rec[4] == Vec16(msg)[1];
  }

  lemma RecordParses(r: Raw, p: Parsed)
    requires RawFits(r)
    ensures ParseRecord(RawBytes(r)) == Some(p) <==> FieldsAre(r, p)
  {
    RecordReads(r);
    MessageReads(r);
    HelloReads(r);
    FieldsFound(r, p);
    hide ParseBody, FieldsAre, HelloBytes, MessageBytes, RawBytes, PartsFit, ParseExtensions, ExtensionBlock;
  }

  // ---------- every record it accepts ----------

  lemma Vec8Of(s: Frame)
    requires TakeVec8(s).Some?
    ensures var (f, rest) := TakeVec8(s).value; |f| < 0x100 && s == Vec8(f) + rest
  {
  }

  lemma Vec16Of(s: Frame)
    requires TakeVec16(s).Some?
    ensures var (f, rest) := TakeVec16(s).value; |f| < 0x1_0000 && s == Vec16(f) + rest
  {
    assert s[..2] == PutU16(U16(s[0], s[1]));
  }

  lemma HelloSplits(hs: Frame) returns (r: Raw)
    requires ParseBody(hs).Some?
    ensures PartsFit(r) && hs == HelloBytes(r)
  {
    hide ParseExtensions, ItemsBytes, Ends, TakeVec8, TakeVec16, Vec8, Vec16;
    var (sid, s1) := TakeVec8(hs[34..]).value;
    Vec8Of(hs[34..]);
    var (suites, s2) := TakeVec16(s1).value;
    Vec16Of(s1);
    var (compression, s3) := TakeVec8(s2).value;
    Vec8Of(s2);
    var (ext, rest) := TakeVec16(s3).value;
    Vec16Of(s3);
    var items, tail := Splits(ext, 2);
    r := Raw([0, 0], [], hs[..2], hs[2..34], sid, suites, compression, items, tail, rest, [], []);
    assert hs == hs[..2] + hs[2..34] + hs[34..];
    assert hs[34..] == Vec8(sid) + (Vec16(suites) + (Vec8(compression) + (Vec16(ext) + rest)));
  }

  lemma RecordSplits(rec: Frame) returns (r: Raw)
    requires ParseRecord(rec).Some?
    ensures RawFits(r) && rec == RawBytes(r)
  {
    hide ParseBody, HelloBytes;
    var recLen := U16(rec[3], rec[4]);
    var msg := rec[5..5 + recLen];
    var hsLen := U24(msg[1], msg[2], msg[3]);
    var hs := msg[4..4 + hsLen];
    var h := HelloSplits(hs);
    var v, len, m, after := rec[1..3], msg[1..4], msg[4 + hsLen..], rec[5 + recLen..];
    r := h.(recVersion := v, len := len, afterMessage := m, afterRecord := after);
    SameHello(h, v, len, m, after);
    assert msg == [msg[0]] + msg[1..4] + hs + msg[4 + hsLen..];
    assert rec[3..5] == PutU16(recLen);
    assert rec == [rec[0]] + rec[1..3] + (rec[3..5] + msg) + rec[5 + recLen..];
  }

  lemma SameHello(h: Raw, recVersion: Frame, len: Frame, afterMessage: Frame, afterRecord: Frame)
    requires PartsFit(h) && |recVersion| == 2
    ensures var r := h.(recVersion := recVersion, len := len, afterMessage := afterMessage, afterRecord := afterRecord);
      PartsFit(r) && HelloBytes(r) == HelloBytes(h)
  {
  }

  /** Main theorem. For every byte string: the parser accepts it and finds these fields if and only if it is a
      handshake record that holds a ClientHello with its lengths in order, whatever follows at each level, and
      the fields are its random, its session id, the first host name in its last server_name extension and the
      first 32-byte X25519 share in its last key_share extension. */
  lemma RecordParsesIff(rec: Frame, p: Parsed)
    ensures ParseRecord(rec) == Some(p) <==> exists r :: RawFits(r) && rec == RawBytes(r) && FieldsAre(r, p)
  {
    hide ParseRecord, FieldsAre, RawFits, RawBytes;
    if ParseRecord(rec) == Some(p) {
      var r := RecordSplits(rec);
      RecordParses(r, p);
    }
    if r :| RawFits(r) && rec == RawBytes(r) && FieldsAre(r, p) {
      RecordParses(r, p);
    }
  }
}
