/** The 512-bit replay window of crypto.go: eight words shifted in place, refining a set of counters. */
module ReplayGuard {
  import opened Bytes
  import opened Words

  const WINDOW_SIZE := 512

  // ---------- the window as a set ----------

  /** The highest counter seen and every counter accepted. */
  datatype Window = Window(maxSeen: Word, accepted: set<Word>)

  const EMPTY_WINDOW := Window(0, {})

  predicate Fresh(w: Window, counter: Word)
  {
    counter >= 1 && counter > w.maxSeen - WINDOW_SIZE && counter !in w.accepted
  }

  function Accept(w: Window, counter: Word): Window
  {
    if Fresh(w, counter)
    then Window(if counter > w.maxSeen then counter else w.maxSeen, w.accepted + {counter})
    else w
  }

  ghost predicate WindowValid(w: Window)
  {
    && (forall c :: c in w.accepted ==> 1 <= c <= w.maxSeen)
    && (w.maxSeen > 0 ==> w.maxSeen in w.accepted)
  }

  // ---------- the window as words ----------

  /** Position d of the window: bit d mod 64 of word d div 64. */
  ghost predicate Marked(ws: seq<Word>, d: nat)
    requires |ws| == 8 && d < WINDOW_SIZE
  {
    Bit(ws[d / 64], d % 64)
  }

  /** Position d is marked exactly when the counter d below the highest was accepted. */
  ghost predicate Represents(ws: seq<Word>, w: Window)
    requires |ws| == 8
  {
    forall d: nat :: d < WINDOW_SIZE ==>
      (Marked(ws, d) <==> d < w.maxSeen && w.maxSeen - d in w.accepted)
  }

  /** Word i after the window is shifted by q words and b bits. */
  function ShiftedWord(ws: seq<Word>, i: nat, q: nat, b: nat): Word
    requires |ws| == 8 && i < 8 && b < 64
  {
    var src := i - q;
    if src < 0 then 0
    else if b == 0 then ws[src]
    else if src > 0 then Or(Shl(ws[src], b), Shr(ws[src - 1], 64 - b))
    else Shl(ws[src], b)
  }

  lemma WordTop(w: Word, i: nat)
    requires i >= 64
    ensures !Bit(w, i)
  {
    Pow2At64();
    BitTop(w, 64, i);
  }

  /** One bit of a shifted word comes from shift positions below, across word borders. */
  lemma ShiftedWordBit(ws: seq<Word>, i: nat, q: nat, b: nat, j: nat)
    requires |ws| == 8 && i < 8 && b < 64 && j < 64
    ensures Bit(ShiftedWord(ws, i, q, b), j) <==>
      if j >= b then i >= q && Bit(ws[i - q], j - b) else i > q && Bit(ws[i - q - 1], j + 64 - b)
  {
    hide Shl, Shr, Or, Bit;
    if i < q {
      BitZero(j);
    } else if b > 0 {
      BitShl(ws[i - q], b, j);
      if i > q {
        var lower := ws[i - q - 1];
        BitShr(lower, 64 - b, j);
        BitOr(Shl(ws[i - q], b), Shr(lower, 64 - b), j);
        if j >= b {
          WordTop(lower, j + 64 - b);
        }
      }
    }
  }

  ghost predicate ShiftedBy(ws: seq<Word>, ws': seq<Word>, q: nat, b: nat)
    requires |ws| == |ws'| == 8 && b < 64
  {
    forall i :: 0 <= i < 8 ==> ws'[i] == ShiftedWord(ws, i, q, b)
  }

  /** The multi-word shift moves every position up by the shift. */
  lemma ShiftMovesPositions(ws: seq<Word>, ws': seq<Word>, shift: nat, d: nat)
    requires |ws| == |ws'| == 8 && shift < WINDOW_SIZE && d < WINDOW_SIZE
    requires ShiftedBy(ws, ws', shift / 64, shift % 64)
    ensures Marked(ws', d) <==> d >= shift && Marked(ws, d - shift)
  {
    hide ShiftedWord, Bit;
    var q, b, i, j := shift / 64, shift % 64, d / 64, d % 64;
    ShiftedWordBit(ws, i, q, b, j);
    if d >= shift {
      if j >= b {
        assert (d - shift) / 64 == i - q && (d - shift) % 64 == j - b;
      } else {
        assert (d - shift) / 64 == i - q - 1 && (d - shift) % 64 == j + 64 - b;
      }
    }
  }

  /** Marking one position sets that bit and no other. */
  lemma MarkPosition(ws: seq<Word>, p: nat, d: nat)
    requires |ws| == 8 && p < WINDOW_SIZE && d < WINDOW_SIZE
    ensures Marked(ws[p / 64 := Or(ws[p / 64], Shl(1, p % 64))], d) <==> Marked(ws, d) || d == p
  {
    hide Shl, Or, Bit, And;
    MaskBit(ws[p / 64], p % 64, d % 64);
  }

  lemma AdvanceRepresents(ws: seq<Word>, ws1: seq<Word>, w: Window, counter: Word)
    requires |ws| == |ws1| == 8 && WindowValid(w) && Represents(ws, w) && counter > w.maxSeen
    requires counter - w.maxSeen >= WINDOW_SIZE ==> forall i :: 0 <= i < 8 ==> ws1[i] == 0
    requires counter - w.maxSeen < WINDOW_SIZE ==>
      ShiftedBy(ws, ws1, (counter - w.maxSeen) / 64, (counter - w.maxSeen) % 64)
    ensures Represents(ws1[0 := Or(ws1[0], 1)], Accept(w, counter))
  {
    hide Bit, ShiftedBy, Or;
    var shift := counter - w.maxSeen;
    assert Shl(1, 0) == 1;
    var ws' := ws1[0 := Or(ws1[0], 1)];
    forall d: nat | d < WINDOW_SIZE
      ensures Marked(ws', d) <==> d < counter && counter - d in w.accepted + {counter}
    {
      MarkPosition(ws1, 0, d);
      if shift >= WINDOW_SIZE {
        BitZero(d % 64);
      } else {
        ShiftMovesPositions(ws, ws1, shift, d);
      }
    }
  }

  lemma MarkRepresents(ws: seq<Word>, w: Window, counter: Word)
    requires |ws| == 8 && WindowValid(w) && Represents(ws, w)
    requires 1 <= counter <= w.maxSeen && w.maxSeen - counter < WINDOW_SIZE && counter !in w.accepted
    ensures var p := w.maxSeen - counter;
      Represents(ws[p / 64 := Or(ws[p / 64], Shl(1, p % 64))], Accept(w, counter))
  {
    hide Bit, Or, Shl;
    var p := w.maxSeen - counter;
    var ws' := ws[p / 64 := Or(ws[p / 64], Shl(1, p % 64))];
    forall d: nat | d < WINDOW_SIZE
      ensures Marked(ws', d) <==>
        d < w.maxSeen && w.maxSeen - d in w.accepted + {counter}
    {
      MarkPosition(ws, p, d);
    }
  }

  class ReplayWindow {
    var maxSeen: Word
    var window: array<Word>
    ghost var accepted: set<Word>

    ghost function View(): Window
      reads this
    {
      Window(maxSeen, accepted)
    }

    ghost predicate Valid()
      reads this, window
    {
      && window.Length == 8
      && WindowValid(View())
      && Represents(window[..], View())
    }

    constructor ()
      ensures Valid() && View() == EMPTY_WINDOW && fresh(window)
    {
      maxSeen, accepted := 0, {};
      window := new Word[8](_ => 0);
      new;
      forall d: nat | d < WINDOW_SIZE
        ensures !Marked(window[..], d)
      {
        BitZero(d % 64);
      }
    }

    /** The shift loop of Check, from the high word down so that no source is overwritten early. */
    method ShiftWords(shift: nat)
      requires window.Length == 8 && shift < WINDOW_SIZE
      modifies window
      ensures ShiftedBy(old(window[..]), window[..], shift / 64, shift % 64)
    {
      hide Shl, Shr, Or;
      var wordShift, bitShift := shift / 64, shift % 64;
      ghost var was := window[..];
      var i := 7;
      while i >= 0
        invariant -1 <= i < 8 && window.Length == 8
        invariant forall j :: i < j < 8 ==> window[j] == ShiftedWord(was, j, wordShift, bitShift)
        invariant forall j :: 0 <= j <= i ==> window[j] == was[j]
      {
        var src := i - wordShift;
        if src < 0 {
          window[i] := 0;
        } else if bitShift == 0 {
          window[i] := window[src];
        } else {
          window[i] := Shl(window[src], bitShift);
          if src > 0 {
            window[i] := Or(window[i], Shr(window[src - 1], 64 - bitShift));
          }
        }
        i := i - 1;
      }
    }

    /** Check: accepts a counter at most once, and only within 512 of the highest. */
    method Check(counter: Word) returns (ok: bool)
      requires Valid()
      modifies this`maxSeen, this`accepted, window
      ensures Valid()
      ensures ok <==> Fresh(old(View()), counter)
      ensures View() == Accept(old(View()), counter)
    {
      hide Represents, ShiftedBy, Marked;
      if counter == 0 {
        return false;
      }
      ghost var was := View();
      ghost var ws := window[..];
      if counter > maxSeen {
        var shift := counter - maxSeen;
        if shift >= WINDOW_SIZE {
          for i := 0 to 8
            invariant View() == was && window.Length == 8
            invariant forall j :: 0 <= j < i ==> window[j] == 0
          {
            window[i] := 0;
          }
        } else {
          ShiftWords(shift);
        }
        ghost var ws1 := window[..];
        AdvanceRepresents(ws, ws1, was, counter);
        window[0] := Or(window[0], 1);
        assert window[..] == ws1[0 := Or(ws1[0], 1)];
        maxSeen := counter;
        accepted := accepted + {counter};
        return true;
      }
      var diff := maxSeen - counter;
      if diff >= WINDOW_SIZE {
        return false;
      }
      var word, bit := diff / 64, diff % 64;
      var mask := Shl(1, bit);
      SeenIffMasked(ws, was, counter);
      if And(window[word], mask) != 0 {
        return false;
      }
      MarkRepresents(ws, was, counter);
      window[word] := Or(window[word], mask);
      assert window[..] == ws[word := Or(ws[word], mask)];
      accepted := accepted + {counter};
      return true;
    }
  }

  lemma SeenIffMasked(ws: seq<Word>, w: Window, counter: Word)
    requires |ws| == 8 && WindowValid(w) && Represents(ws, w)
    requires 1 <= counter <= w.maxSeen && w.maxSeen - counter < WINDOW_SIZE
    ensures var d := w.maxSeen - counter;
      And(ws[d / 64], Shl(1, d % 64)) != 0 <==> counter in w.accepted
  {
    hide Bit, And, Shl, Or;
    var d := w.maxSeen - counter;
    MaskBit(ws[d / 64], d % 64, 0);
    assert Marked(ws, d) <==> counter in w.accepted;
  }
}

/** Sealed packets over a replay window: sequence numbers in, at-most-once delivery out. */
module SecureChannel {
  import opened Bytes
  import opened Words
  import opened ReplayGuard

  const HEADER_SIZE := 4 + 8 + 12
  const TAG_SIZE := 16

  /** AES-GCM: seal and open under a nonce and associated data. */
  datatype Aead = Aead(
    seal: (Frame, Frame, Frame) -> Frame,
    open: (Frame, Frame, Frame) -> Option<Frame>)

  /** What is assumed of the AEAD: opening undoes sealing and the tag has sixteen bytes. */
  ghost predicate Sound(aead: Aead)
  {
    forall nonce, plain, ad {:trigger aead.seal(nonce, plain, ad)} ::
      |aead.seal(nonce, plain, ad)| == |plain| + TAG_SIZE &&
      aead.open(nonce, aead.seal(nonce, plain, ad), ad) == Some(plain)
  }

  /** The fixed parts of a Cipher: the key's AEAD, the peer id and the session salt. */
  datatype Keys = Keys(aead: Aead, peerID: nat, salt: Frame)

  ghost predicate KeysValid(k: Keys)
  {
    Sound(k.aead) && k.peerID < 0x1_0000_0000 && |k.salt| == 4
  }

  function Nonce(k: Keys, cnt: Word): Frame
  {
    BigEndian(cnt, 8) + k.salt
  }

  /** The packet Seal builds for a counter. */
  function Packet(k: Keys, cnt: Word, plain: Frame): Frame
  {
    var peer := BigEndian(k.peerID, 4);
    peer + BigEndian(cnt, 8) + Nonce(k, cnt) + k.aead.seal(Nonce(k, cnt), plain, peer)
  }

  datatype Opened = Plain(frame: Frame) | TooShort | Replayed | Undecryptable

  /** Open on the window as a set. The counter is checked before the tag. */
  function OpenStep(k: Keys, w: Window, pkt: Frame): (Window, Opened)
  {
    if |pkt| < HEADER_SIZE + TAG_SIZE then (w, TooShort)
    else
      FromBigEndianRoundTrip(pkt[4..12]);
      Pow256At8();
      var cnt := FromBigEndian(pkt[4..12]);
      if !Fresh(w, cnt) then (w, Replayed)
      else
        (Accept(w, cnt),
         match k.aead.open(pkt[12..24], pkt[24..], pkt[..4])
         case Some(plain) => Plain(plain)
         case None => Undecryptable)
  }

  lemma Pow256At8()
    ensures Pow256(8) == U64_MOD
  {
    assert Pow256(4) == 0x1_0000_0000;
    assert Pow256(8) == 0x1_0000_0000 * Pow256(4);
  }

  class Cipher {
    const k: Keys
    var counter: Word

    constructor (k: Keys)
      ensures this.k == k && counter == 0
    {
      this.k, counter := k, 0;
    }

    /** Seal: the counter advances, modulo 2^64, and numbers the packet. */
    method Seal(plain: Frame) returns (pkt: Frame)
      modifies this
      ensures counter == (old(counter) + 1) % U64_MOD
      ensures pkt == Packet(k, counter, plain)
    {
      counter := (counter + 1) % U64_MOD;
      var cnt := counter;
      var nonce := BigEndian(cnt, 8) + k.salt;
      var buf := BigEndian(k.peerID, 4) + BigEndian(cnt, 8) + nonce;
      var peer := BigEndian(k.peerID, 4);
      pkt := buf + k.aead.seal(nonce, plain, peer);
    }

    /** Open, through the eight-word window. */
    method Open(pkt: Frame, replay: ReplayWindow) returns (res: Opened)
      requires replay.Valid()
      modifies replay`maxSeen, replay`accepted, replay.window
      ensures replay.Valid()
      ensures (replay.View(), res) == OpenStep(k, old(replay.View()), pkt)
    {
      if |pkt| < HEADER_SIZE + TAG_SIZE {
        return TooShort;
      }
      FromBigEndianRoundTrip(pkt[4..12]);
      Pow256At8();
      var cnt := FromBigEndian(pkt[4..12]);
      var ok := replay.Check(cnt);
      if !ok {
        return Replayed;
      }
      var plain := k.aead.open(pkt[12..24], pkt[24..], pkt[..4]);
      res := match plain case Some(p) => Plain(p) case None => Undecryptable;
    }
  }

  // ---------- at-most-once over whole runs ----------

  /** The packets a fresh cipher seals for a sequence of plaintexts: counters 1, 2, 3, ... */
  function Sealed(k: Keys, plains: seq<Frame>, i: nat): Frame
    requires i < |plains| < U64_MOD
  {
    Packet(k, i + 1, plains[i])
  }

  /** Opening a sealed packet gives its plaintext exactly when its counter is fresh. */
  lemma OpenSealed(k: Keys, w: Window, cnt: Word, plain: Frame)
    requires KeysValid(k)
    ensures OpenStep(k, w, Packet(k, cnt, plain)) ==
      if Fresh(w, cnt) then (Accept(w, cnt), Plain(plain)) else (w, Replayed)
  {
    hide Fresh, Accept;
    var pkt := Packet(k, cnt, plain);
    var peer := BigEndian(k.peerID, 4);
    assert |k.aead.seal(Nonce(k, cnt), plain, peer)| == |plain| + TAG_SIZE;
    assert pkt[..4] == peer;
    assert pkt[4..12] == BigEndian(cnt, 8);
    assert pkt[12..24] == Nonce(k, cnt);
    assert pkt[24..] == k.aead.seal(Nonce(k, cnt), plain, peer);
    Pow256At8();
    BigEndianRoundTrip(cnt, 8);
  }

  /** The packet on the wire, byte by byte: the peer id, the counter, the counter again with the salt as the
      nonce, and the plaintext sealed under that nonce with the peer id as associated data. */
  lemma SealedLayout(k: Keys, cnt: Word, plain: Frame)
    requires KeysValid(k)
    ensures var pkt := Packet(k, cnt, plain);
      && |pkt| == 40 + |plain|
      && (forall i :: 0 <= i < 4 ==> pkt[i] == BigEndian(k.peerID, 4)[i] && pkt[20 + i] == k.salt[i])
      && (forall i :: 0 <= i < 8 ==> pkt[4 + i] == pkt[12 + i] == BigEndian(cnt, 8)[i])
      && pkt[24..] == k.aead.seal(pkt[12..24], plain, pkt[..4])
  {
    var pkt, peer := Packet(k, cnt, plain), BigEndian(k.peerID, 4);
    assert |k.aead.seal(Nonce(k, cnt), plain, peer)| == |plain| + TAG_SIZE;
    assert pkt[..4] == peer;
    assert pkt[12..24] == Nonce(k, cnt);
    assert pkt[24..] == k.aead.seal(Nonce(k, cnt), plain, peer);
  }

  /** No nonce is used twice by a cipher for fewer than 2^64 packets. */
  lemma NoncesDiffer(k: Keys, plains: seq<Frame>, i: nat, j: nat)
    requires KeysValid(k) && i < j < |plains| < U64_MOD
    ensures |Sealed(k, plains, i)| >= 40 && |Sealed(k, plains, j)| >= 40
    ensures Sealed(k, plains, i)[12..24] != Sealed(k, plains, j)[12..24]
  {
    SealedLayout(k, i + 1, plains[i]);
    SealedLayout(k, j + 1, plains[j]);
    Pow256At8();
    BigEndianRoundTrip(i + 1, 8);
    BigEndianRoundTrip(j + 1, 8);
    var p, q := Sealed(k, plains, i), Sealed(k, plains, j);
    assert p[12..24][..8] == BigEndian(i + 1, 8) && q[12..24][..8] == BigEndian(j + 1, 8);
  }

  /** Every arrival is the number of a sealed packet. */
  predicate FromSent(plains: seq<Frame>, arrivals: seq<nat>)
  {
    |plains| < U64_MOD && forall i :: 0 <= i < |arrivals| ==> arrivals[i] < |plains|
  }

  /** A receiver fed the sealed packets arrivals[0], arrivals[1], ... in that order. */
  ghost function WindowAfter(k: Keys, plains: seq<Frame>, arrivals: seq<nat>): Window
    requires FromSent(plains, arrivals)
  {
    if arrivals == [] then EMPTY_WINDOW
    else
      var n := |arrivals| - 1;
      OpenStep(k, WindowAfter(k, plains, arrivals[..n]), Sealed(k, plains, arrivals[n])).0
  }

  /** What the n-th arrival is opened to. */
  ghost function OpenedAt(k: Keys, plains: seq<Frame>, arrivals: seq<nat>, n: nat): Opened
    requires FromSent(plains, arrivals) && n < |arrivals|
  {
    OpenStep(k, WindowAfter(k, plains, arrivals[..n]), Sealed(k, plains, arrivals[n])).1
  }

  /** The highest packet number among arrivals, counted from one. */
  function Highest(arrivals: seq<nat>): nat
  {
    if arrivals == [] then 0
    else
      var h, last := Highest(arrivals[..|arrivals| - 1]), arrivals[|arrivals| - 1] + 1;
      if last > h then last else h
  }

  ghost predicate Delivered(k: Keys, plains: seq<Frame>, arrivals: seq<nat>, n: nat)
    requires FromSent(plains, arrivals) && n < |arrivals|
  {
    OpenedAt(k, plains, arrivals, n).Plain?
  }

  /** After any arrivals the window knows the highest number and exactly the numbers delivered. */
  lemma {:induction false} WindowTracksRun(k: Keys, plains: seq<Frame>, arrivals: seq<nat>)
    requires KeysValid(k)
    requires FromSent(plains, arrivals)
    ensures var w := WindowAfter(k, plains, arrivals);
      && WindowValid(w)
      && w.maxSeen == Highest(arrivals)
      && forall c :: c in w.accepted <==> NumberDelivered(k, plains, arrivals, c)
  {
    hide Packet, Delivered, NumberDelivered;
    if arrivals == [] {
      forall c
        ensures !NumberDelivered(k, plains, arrivals, c)
      {
        NoneDelivered(k, plains, c);
      }
    } else {
      var m := |arrivals| - 1;
      var before := arrivals[..m];
      WindowTracksRun(k, plains, before);
      var w := WindowAfter(k, plains, before);
      var cnt := arrivals[m] + 1;
      OpenSealed(k, w, cnt, plains[arrivals[m]]);
      assert Delivered(k, plains, arrivals, m) <==> Fresh(w, cnt) by { DeliveredIs(k, plains, arrivals, m); }
      forall c
        ensures c in WindowAfter(k, plains, arrivals).accepted <==> NumberDelivered(k, plains, arrivals, c)
      {
        NumberDeliveredAppend(k, plains, arrivals, c);
      }
    }
  }

  /** Some arrival of packet number c was delivered. */
  ghost predicate NumberDelivered(k: Keys, plains: seq<Frame>, arrivals: seq<nat>, c: int)
    requires FromSent(plains, arrivals)
  {
    exists n :: 0 <= n < |arrivals| && Delivered(k, plains, arrivals, n) && arrivals[n] + 1 == c
  }

  lemma NoneDelivered(k: Keys, plains: seq<Frame>, c: int)
    requires |plains| < U64_MOD
    ensures !NumberDelivered(k, plains, [], c)
  {
  }

  lemma NumberDeliveredAppend(k: Keys, plains: seq<Frame>, arrivals: seq<nat>, c: int)
    requires KeysValid(k) && FromSent(plains, arrivals) && arrivals != []
    ensures var m := |arrivals| - 1;
      NumberDelivered(k, plains, arrivals, c) <==>
        NumberDelivered(k, plains, arrivals[..m], c) || (Delivered(k, plains, arrivals, m) && arrivals[m] + 1 == c)
  {
    hide Delivered;
    var m := |arrivals| - 1;
    var before := arrivals[..m];
    DeliveredPrefix(k, plains, arrivals);
    if NumberDelivered(k, plains, before, c) {
      var n :| 0 <= n < m && Delivered(k, plains, before, n) && before[n] + 1 == c;
      assert Delivered(k, plains, arrivals, n) && arrivals[n] + 1 == c;
    }
    if NumberDelivered(k, plains, arrivals, c) {
      var n :| 0 <= n < |arrivals| && Delivered(k, plains, arrivals, n) && arrivals[n] + 1 == c;
      if n < m {
        assert Delivered(k, plains, before, n) && before[n] + 1 == c;
      }
    }
  }

  lemma DeliveredIs(k: Keys, plains: seq<Frame>, arrivals: seq<nat>, n: nat)
    requires KeysValid(k) && n < |arrivals|
    requires FromSent(plains, arrivals)
    ensures arrivals[n] < |plains|
    ensures Delivered(k, plains, arrivals, n) <==> Fresh(WindowAfter(k, plains, arrivals[..n]), arrivals[n] + 1)
    ensures OpenedAt(k, plains, arrivals, n) ==
      if Delivered(k, plains, arrivals, n) then Plain(plains[arrivals[n]]) else Replayed
  {
    hide OpenStep, Packet, Fresh, Accept, KeysValid, WindowAfter;
    OpenSealed(k, WindowAfter(k, plains, arrivals[..n]), arrivals[n] + 1, plains[arrivals[n]]);
  }

  lemma DeliveredPrefix(k: Keys, plains: seq<Frame>, arrivals: seq<nat>)
    requires KeysValid(k) && arrivals != []
    requires FromSent(plains, arrivals)
    ensures forall n :: 0 <= n < |arrivals| - 1 ==>
      (Delivered(k, plains, arrivals[..|arrivals| - 1], n) <==> Delivered(k, plains, arrivals, n))
  {
    var m := |arrivals| - 1;
    forall n | 0 <= n < m
      ensures Delivered(k, plains, arrivals[..m], n) <==> Delivered(k, plains, arrivals, n)
    {
      assert arrivals[..m][..n] == arrivals[..n];
    }
  }

  /** Main theorem. Under any loss, duplication and reordering of fewer than 2^64 sealed packets, an
      arrival is opened to its own plaintext exactly when its number is within 512 of the highest
      number before it and no earlier arrival of the same packet was delivered; so each packet is
      delivered at most once. */
  lemma DeliveredExactlyWhenFirstInWindow(k: Keys, plains: seq<Frame>, arrivals: seq<nat>, n: nat)
    requires KeysValid(k) && n < |arrivals|
    requires FromSent(plains, arrivals)
    ensures arrivals[n] < |plains|
    ensures OpenedAt(k, plains, arrivals, n) ==
      if Delivered(k, plains, arrivals, n) then Plain(plains[arrivals[n]]) else Replayed
    ensures Delivered(k, plains, arrivals, n) <==>
      arrivals[n] + 1 > Highest(arrivals[..n]) - 512 &&
      forall m :: 0 <= m < n && arrivals[m] == arrivals[n] ==> !Delivered(k, plains, arrivals, m)
  {
    hide Packet, OpenedAt;
    var before := arrivals[..n];
    DeliveredIs(k, plains, arrivals, n);
    WindowTracksRun(k, plains, before);
    forall m | 0 <= m < n
      ensures Delivered(k, plains, before, m) <==> Delivered(k, plains, arrivals, m)
    {
      assert before[..m] == arrivals[..m];
      DeliveredIs(k, plains, before, m);
      DeliveredIs(k, plains, arrivals, m);
    }
    var w := WindowAfter(k, plains, before);
    if arrivals[n] + 1 in w.accepted {
      var m :| 0 <= m < |before| && Delivered(k, plains, before, m) && before[m] + 1 == arrivals[n] + 1;
      assert arrivals[m] == arrivals[n];
    } else {
      forall m | 0 <= m < n && arrivals[m] == arrivals[n]
        ensures !Delivered(k, plains, arrivals, m)
      {
        assert before[m] + 1 == arrivals[n] + 1;
      }
    }
  }

  // ---------- any packets at all ----------

  /** A receiver fed any byte strings, sealed by the sender or not. */
  ghost function WindowAfterAny(k: Keys, pkts: seq<Frame>): Window
  {
    if pkts == [] then EMPTY_WINDOW
    else OpenStep(k, WindowAfterAny(k, pkts[..|pkts| - 1]), pkts[|pkts| - 1]).0
  }

  ghost predicate OpenedAny(k: Keys, pkts: seq<Frame>, n: nat)
    requires n < |pkts|
  {
    OpenStep(k, WindowAfterAny(k, pkts[..n]), pkts[n]).1.Plain?
  }

  /** The counter field of a packet that is long enough to have one. */
  function CounterOf(pkt: Frame): nat
    requires |pkt| >= HEADER_SIZE
  {
    FromBigEndian(pkt[4..12])
  }

  lemma OpenUsesCounter(k: Keys, w: Window, pkt: Frame)
    ensures OpenStep(k, w, pkt).1.Plain? ==>
      |pkt| >= HEADER_SIZE && CounterOf(pkt) < U64_MOD && Fresh(w, CounterOf(pkt))
      && CounterOf(pkt) in OpenStep(k, w, pkt).0.accepted
    ensures w.accepted <= OpenStep(k, w, pkt).0.accepted
  {
    if |pkt| >= HEADER_SIZE {
      FromBigEndianRoundTrip(pkt[4..12]);
      Pow256At8();
    }
  }

  lemma {:induction false} AcceptedStays(k: Keys, pkts: seq<Frame>, n: nat)
    requires n <= |pkts|
    ensures WindowAfterAny(k, pkts[..n]).accepted <= WindowAfterAny(k, pkts).accepted
    decreases |pkts| - n
  {
    hide OpenStep;
    if n == |pkts| {
      assert pkts[..n] == pkts;
    } else {
      assert pkts[..n + 1][..n] == pkts[..n];
      OpenUsesCounter(k, WindowAfterAny(k, pkts[..n]), pkts[n]);
      AcceptedStays(k, pkts, n + 1);
    }
  }

  /** Main theorem. Whatever arrives, forged, altered or replayed, no two packets with the same counter
      are both opened. */
  lemma NoCounterOpensTwice(k: Keys, pkts: seq<Frame>, m: nat, n: nat)
    requires m < n < |pkts| && OpenedAny(k, pkts, m) && OpenedAny(k, pkts, n)
    ensures |pkts[m]| >= HEADER_SIZE && |pkts[n]| >= HEADER_SIZE && CounterOf(pkts[m]) != CounterOf(pkts[n])
  {
    hide OpenStep;
    OpenUsesCounter(k, WindowAfterAny(k, pkts[..m]), pkts[m]);
    OpenUsesCounter(k, WindowAfterAny(k, pkts[..n]), pkts[n]);
    assert pkts[..m + 1][..m] == pkts[..m];
    assert pkts[..n][..m + 1] == pkts[..m + 1];
    AcceptedStays(k, pkts[..n], m + 1);
  }

  // ---------- exactly what becomes of any packet ----------

  predicate LongEnough(pkt: Frame)
  {
    |pkt| >= 40
  }

  /** The highest counter among the packets long enough to be looked at. */
  function HighestAny(pkts: seq<Frame>): nat
  {
    if pkts == [] then 0
    else
      var h, last := HighestAny(pkts[..|pkts| - 1]), pkts[|pkts| - 1];
      if LongEnough(last) && CounterOf(last) > h then CounterOf(last) else h
  }

  /** The packet uses its counter up, genuine or forged: no key is needed to tell. */
  predicate Consumes(pkts: seq<Frame>, n: nat)
    requires n < |pkts|
    decreases n
  {
    LongEnough(pkts[n]) && CounterOf(pkts[n]) >= 1
    && CounterOf(pkts[n]) > HighestAny(pkts[..n]) - 512
    && forall m :: 0 <= m < n && LongEnough(pkts[m]) && CounterOf(pkts[m]) == CounterOf(pkts[n]) ==> !Consumes(pkts, m)
  }

  lemma CounterFits(pkt: Frame)
    requires LongEnough(pkt)
    ensures CounterOf(pkt) < U64_MOD
  {
    FromBigEndianRoundTrip(pkt[4..12]);
    Pow256At8();
  }

  /** What the tag says of a packet whose counter is fresh. */
  function Tagged(k: Keys, pkt: Frame): Opened
    requires LongEnough(pkt)
  {
    match k.aead.open(pkt[12..24], pkt[24..], pkt[..4])
    case Some(plain) => Plain(plain)
    case None => Undecryptable
  }

  /** Opening in terms of the packet's counter. */
  lemma OpenStepIs(k: Keys, w: Window, pkt: Frame)
    ensures !LongEnough(pkt) ==> OpenStep(k, w, pkt) == (w, TooShort)
    ensures LongEnough(pkt) ==> CounterOf(pkt) < U64_MOD
    ensures LongEnough(pkt) && !Fresh(w, CounterOf(pkt)) ==> OpenStep(k, w, pkt) == (w, Replayed)
    ensures LongEnough(pkt) && Fresh(w, CounterOf(pkt)) ==>
      OpenStep(k, w, pkt) == (Accept(w, CounterOf(pkt)), Tagged(k, pkt))
  {
    if LongEnough(pkt) {
      CounterFits(pkt);
    }
  }

  lemma {:induction false} ConsumesPrefix(pkts: seq<Frame>, m: nat, n: nat)
    requires m < n <= |pkts|
    ensures Consumes(pkts[..n], m) <==> Consumes(pkts, m)
    decreases m
  {
    assert pkts[..n][..m] == pkts[..m];
    forall l | 0 <= l < m
      ensures Consumes(pkts[..n], l) <==> Consumes(pkts, l)
    {
      ConsumesPrefix(pkts, l, n);
    }
  }

  /** The counter was used up by one of the first n packets. */
  ghost predicate Used(pkts: seq<Frame>, n: nat, c: int)
    requires n <= |pkts|
  {
    exists m :: 0 <= m < n && LongEnough(pkts[m]) && CounterOf(pkts[m]) == c && Consumes(pkts, m)
  }

  lemma UsedNext(pkts: seq<Frame>, n: nat, c: int)
    requires n < |pkts|
    ensures Used(pkts, n + 1, c) <==> Used(pkts, n, c) || (Consumes(pkts, n) && CounterOf(pkts[n]) == c)
  {
    hide HighestAny;
    if Consumes(pkts, n) && CounterOf(pkts[n]) == c {
      assert LongEnough(pkts[n]);
    }
  }

  lemma ConsumesIfFresh(pkts: seq<Frame>, w: Window, n: nat)
    requires n < |pkts| && LongEnough(pkts[n]) && CounterOf(pkts[n]) < U64_MOD
    requires w.maxSeen == HighestAny(pkts[..n]) && forall c :: c in w.accepted <==> Used(pkts, n, c)
    ensures Fresh(w, CounterOf(pkts[n])) <==> Consumes(pkts, n)
  {
    hide HighestAny;
    var c := CounterOf(pkts[n]);
    assert Used(pkts, n, c) <==>
      exists m :: 0 <= m < n && LongEnough(pkts[m]) && CounterOf(pkts[m]) == c && Consumes(pkts, m);
  }

  /** After any packets the window knows the highest counter and exactly the counters used up. */
  lemma {:induction false} WindowTracksAny(k: Keys, pkts: seq<Frame>, n: nat)
    requires n <= |pkts|
    ensures var w := WindowAfterAny(k, pkts[..n]);
      && WindowValid(w) && w.maxSeen == HighestAny(pkts[..n])
      && forall c :: c in w.accepted <==> Used(pkts, n, c)
  {
    hide OpenStep, Consumes;
    if n > 0 {
      var m := n - 1;
      WindowTracksAny(k, pkts, m);
      assert pkts[..n][..m] == pkts[..m];
      var w, w' := WindowAfterAny(k, pkts[..m]), WindowAfterAny(k, pkts[..n]);
      OpenStepIs(k, w, pkts[m]);
      if LongEnough(pkts[m]) {
        ConsumesIfFresh(pkts, w, m);
      } else {
        assert !Consumes(pkts, m) by { ShortNeverConsumes(pkts, m); }
      }
      forall c
        ensures c in w'.accepted <==> Used(pkts, n, c)
      {
        UsedNext(pkts, m, c);
      }
    }
  }

  lemma ShortNeverConsumes(pkts: seq<Frame>, n: nat)
    requires n < |pkts| && !LongEnough(pkts[n])
    ensures !Consumes(pkts, n)
  {
  }

  /** Main theorem, exactly, for any byte strings in any order. A packet of forty bytes or more is looked at;
      it is refused as a replay unless its counter is within 512 of the highest before it and no earlier
      packet, forged ones included, used that counter up; and then its tag decides. */
  lemma AnyPacketExactly(k: Keys, pkts: seq<Frame>, n: nat)
    requires n < |pkts|
    ensures OpenStep(k, WindowAfterAny(k, pkts[..n]), pkts[n]).1 ==
      if !LongEnough(pkts[n]) then TooShort else if !Consumes(pkts, n) then Replayed else Tagged(k, pkts[n])
  {
    hide OpenStep, Consumes;
    WindowTracksAny(k, pkts, n);
    OpenStepIs(k, WindowAfterAny(k, pkts[..n]), pkts[n]);
    if LongEnough(pkts[n]) {
      ConsumesIfFresh(pkts, WindowAfterAny(k, pkts[..n]), n);
    }
  }
}
