/**
 * The SRPP message of a media packet: its encryption by exclusive or with the session key, its layout in a
 * send buffer that is not cleared, and the way back.
 */
module SrppCodec {
  import opened Octets
  import opened Buffers
  import opened Wrappers
  import opened CString

  const HEADER := 80
  const TRAILER := 12
  const MAX_PAD := 1500
  const FLAG_MOD := 0x8000

  /** `flags` are the first two octets; the contributing sources are filled with random octets when sent. */
  datatype Header = Header(flags: seq<u8>, seqNo: u16, ts: u32, ssrc: u32, csrc: seq<u8>,
                           profile: u16, extension: u16, signalling: u32)

  datatype Message = Message(header: Header, payload: seq<u8>, padding: seq<u8>, padCount: u32,
                             dummy: nat, paddingBit: nat, originalSeq: u16, tag: u32)

  predicate MessageOk(m: Message) {
    && |m.header.flags| == 2 && |m.header.csrc| == 60
    && m.dummy < FLAG_MOD && m.paddingBit < 2
  }

  // ---------------------------------------------------------------- bits

  /** Exclusive or of `key` into a field of `w` bits; the higher bits of the key are lost. */
  function XorField(x: nat, key: nat, w: nat): (r: nat)
    ensures r < Pow2(w)
  {
    if w == 0 then 0 else 2 * XorField(x / 2, key / 2, w - 1) + (if x % 2 != key % 2 then 1 else 0)
  }

  lemma {:induction false} XorFieldTwice(x: nat, key: nat, w: nat)
    requires x < Pow2(w)
    ensures XorField(XorField(x, key, w), key, w) == x
  {
    if w > 0 {
      var y := XorField(x, key, w);
      assert y / 2 == XorField(x / 2, key / 2, w - 1) && y % 2 == if x % 2 != key % 2 then 1 else 0;
      XorFieldTwice(x / 2, key / 2, w - 1);
    }
  }

  lemma Widths()
    ensures Pow2(1) == 2 && Pow2(15) == FLAG_MOD && Pow2(16) == 0x1_0000 && Pow2(32) == 0x1_0000_0000
  {
    assert Pow2(8) == 256;
    assert Pow2(20) == 16 * Pow2(16);
    assert Pow2(24) == 16 * Pow2(20);
    assert Pow2(28) == 16 * Pow2(24);
    assert Pow2(32) == 16 * Pow2(28);
  }

  lemma {:induction false} NoKeyNoChange(x: nat, w: nat)
    requires x < Pow2(w)
    ensures XorField(x, 0, w) == x
  {
    if w > 0 {
      NoKeyNoChange(x / 2, w - 1);
    }
  }

  // ---------------------------------------------------------------- encryption

  function XorPad(x: u32, key: u16): u32 {
    Widths();
    XorField(x, key, 32)
  }

  function XorSeq(x: u16, key: u16): u16 {
    Widths();
    XorField(x, key, 16)
  }

  function XorOctets(s: seq<u8>, key: u16): (r: seq<u8>)
    ensures |r| == |s| && forall i :: 0 <= i < |s| ==> r[i] == XorOctet(s[i], key % 256)
  {
    seq(|s|, i requires 0 <= i < |s| => XorOctet(s[i], key % 256))
  }

  /** Encryption and decryption are the same. */
  function Crypted(m: Message, key: u16): (r: Message) {
    m.(payload := XorOctets(m.payload, key), padding := XorOctets(m.padding, key),
       originalSeq := XorSeq(m.originalSeq, key), dummy := XorField(m.dummy, key, 15),
       padCount := XorPad(m.padCount, key), paddingBit := XorField(m.paddingBit, key, 1))
  }

  lemma XorOctetsTwice(s: seq<u8>, key: u16)
    ensures XorOctets(XorOctets(s, key), key) == s
  {
    forall i | 0 <= i < |s|
      ensures XorOctets(XorOctets(s, key), key)[i] == s[i]
    {
      XorCancels(s[i], key % 256);
    }
  }

  lemma CryptedTwice(m: Message, key: u16)
    requires MessageOk(m)
    ensures Crypted(Crypted(m, key), key) == m && MessageOk(Crypted(m, key))
  {
    Widths();
    XorOctetsTwice(m.payload, key);
    XorOctetsTwice(m.padding, key);
    XorFieldTwice(m.originalSeq, key, 16);
    XorFieldTwice(m.dummy, key, 15);
    XorFieldTwice(m.padCount, key, 32);
    XorFieldTwice(m.paddingBit, key, 1);
  }

  // ---------------------------------------------------------------- on the wire

  function Octets16(n: u16): (r: seq<u8>)
    ensures |r| == 2 && Be16(r[0], r[1]) == n
  {
    [n / 256, n % 256]
  }

  function Reversed4(o: seq<u8>): (r: seq<u8>)
    requires |o| == 4
    ensures |r| == 4
  {
    [o[3], o[2], o[1], o[0]]
  }

  function HeaderOctets(h: Header, random: seq<u8>): (r: seq<u8>)
    requires |h.flags| == 2 && |random| == 60
    ensures |r| == HEADER
  {
    h.flags + Octets16(h.seqNo) + Octets32(h.ts) + Octets32(h.ssrc) + random +
    Octets16(h.profile) + Octets16(h.extension) + Octets32(h.signalling)
  }

  /** Pad count, flags and original sequence number in host order. */
  function TailOctets(m: Message): (r: seq<u8>)
    requires MessageOk(m)
    ensures |r| == 8
  {
    var bits := m.dummy + FLAG_MOD * m.paddingBit;
    Reversed4(Octets32(m.padCount)) + [bits % 256, bits / 256] + [m.originalSeq % 256, m.originalSeq / 256]
  }

  /** What a string copy leaves: octets up to the first zero, that zero, and what was there before. */
  function Copied(s: seq<u8>, before: seq<u8>): (r: seq<u8>)
    requires |before| == |s|
    ensures |r| == |s|
  {
    var n := |Cut(s)|;
    if n == |s| then s else Cut(s) + [0] + before[n + 1..]
  }

  /** The pad count as the sender uses it while it lays out the packet. */
  function PlainPad(m: Message, key: u16): u32 {
    if key > 0 && m.header.signalling == 0 then XorPad(m.padCount, key) else m.padCount
  }

  function Size(m: Message): nat {
    HEADER + |m.payload| + |m.padding| + TRAILER
  }

  /** The pad count is the length of the padding, and signaling messages have none. */
  predicate Sendable(m: Message, key: u16) {
    MessageOk(m) && PlainPad(m, key) == |m.padding| && (m.header.signalling != 0 ==> m.padding == [])
  }

  /** The packet laid out in a buffer that held `before`. */
  function OnWire(m: Message, key: u16, random: seq<u8>, before: seq<u8>): (r: seq<u8>)
    requires Sendable(m, key) && |random| == 60 && |before| == Size(m)
    ensures |r| == Size(m)
  {
    var at := HEADER + |m.payload|;
    HeaderOctets(m.header, random) + Copied(m.payload, before[HEADER..at]) +
    Copied(m.padding, before[at..at + |m.padding|]) + TailOctets(m) + Octets32(m.tag)
  }

  // ---------------------------------------------------------------- and back

  function HeaderFrom(b: seq<u8>): Header
    requires |b| >= HEADER
  {
    Header(b[0..2], Be16(b[2], b[3]), Number32(b[4..8]), Number32(b[8..12]), b[12..72],
           Be16(b[72], b[73]), Be16(b[74], b[75]), Number32(b[76..80]))
  }

  /** The message in a received packet; refused if the pad count is too large or reaches into the header. */
  function FromWire(b: seq<u8>, key: u16): (r: Option<Message>)
    requires |b| >= HEADER + TRAILER
  {
    var h, end := HeaderFrom(b), |b| - TRAILER;
    var tag, count := Number32(b[end + 8..end + 12]), Number32(Reversed4(b[end..end + 4]));
    var bits, originalSeq := Be16(b[end + 5], b[end + 4]), Be16(b[end + 7], b[end + 6]);
    var pad := if h.signalling == 0 && key > 0 then XorPad(count, key) else count;
    if pad > MAX_PAD then None
    else if pad > 0 && h.signalling == 0 then
      if end - pad < HEADER then None
      else Some(Message(h, b[HEADER..end - pad], [], XorPad(pad, key), bits % FLAG_MOD, bits / FLAG_MOD, originalSeq, tag))
    else Some(Message(h, b[HEADER..end + 8], [], 0, bits % FLAG_MOD, bits / FLAG_MOD, originalSeq, tag))
  }

  // ---------------------------------------------------------------- reading back the parts

  lemma HeaderReadsBack(h: Header, random: seq<u8>, b: seq<u8>)
    requires |h.flags| == 2 && |random| == 60 && |b| >= HEADER && b[..HEADER] == HeaderOctets(h, random)
    ensures HeaderFrom(b) == h.(csrc := random)
  {
    hide Octets32, Octets16, Number32;
    ReadBack32(h.ts);
    ReadBack32(h.ssrc);
    ReadBack32(h.signalling);
    var o := HeaderOctets(h, random);
    Within(b, o);
    assert o[0..2] == h.flags && o[2..4] == Octets16(h.seqNo) && o[4..8] == Octets32(h.ts);
    assert o[8..12] == Octets32(h.ssrc) && o[12..72] == random && o[72..74] == Octets16(h.profile);
    assert o[74..76] == Octets16(h.extension) && o[76..80] == Octets32(h.signalling);
    assert o[2] == o[2..4][0] && o[3] == o[2..4][1] && o[72] == o[72..74][0] && o[73] == o[72..74][1];
    assert o[74] == o[74..76][0] && o[75] == o[74..76][1];
  }

  lemma Within(b: seq<u8>, o: seq<u8>)
    requires |b| >= |o| && b[..|o|] == o
    ensures forall i :: 0 <= i < |o| ==> b[i] == o[i]
    ensures forall i, j :: 0 <= i <= j <= |o| ==> b[i..j] == o[i..j]
  {
  }

  lemma TailReadsBack(m: Message)
    requires MessageOk(m)
    ensures var t := TailOctets(m);
      && Number32(Reversed4(t[0..4])) == m.padCount
      && Be16(t[5], t[4]) % FLAG_MOD == m.dummy && Be16(t[5], t[4]) / FLAG_MOD == m.paddingBit
      && Be16(t[7], t[6]) == m.originalSeq
  {
    hide Octets32, Number32;
    ReadBack32(m.padCount);
    var t, o := TailOctets(m), Octets32(m.padCount);
    assert t[0..4] == Reversed4(o);
    assert Reversed4(Reversed4(o)) == o;
    var bits := m.dummy + FLAG_MOD * m.paddingBit;
    assert Be16(t[5], t[4]) == bits;
  }

  /** The parts of a packet on the wire, and where the receiver finds them. */
  lemma WireParts(m: Message, key: u16, random: seq<u8>, before: seq<u8>)
    requires Sendable(m, key) && |random| == 60 && |before| == Size(m)
    ensures var b, at := OnWire(m, key, random, before), HEADER + |m.payload|;
      var end := at + |m.padding|;
      && b[..HEADER] == HeaderOctets(m.header, random) && b[HEADER..at] == Copied(m.payload, before[HEADER..at])
      && b[end..end + 8] == TailOctets(m) && b[end + 8..end + 12] == Octets32(m.tag)
      && (m.padding == [] ==> b[HEADER..end + 8] == b[HEADER..at] + TailOctets(m))
  {
    hide HeaderOctets, Copied, TailOctets, Octets32, PlainPad;
  }

  lemma TailAt(b: seq<u8>, end: nat, t: seq<u8>)
    requires end + 8 <= |b| && |t| == 8 && b[end..end + 8] == t
    ensures b[end..end + 4] == t[0..4] && b[end + 4] == t[4] && b[end + 5] == t[5] && b[end + 6] == t[6] && b[end + 7] == t[7]
  {
  }

  /** What the receiver makes of a packet: all fields as sent, and the payload as copied. */
  lemma FromWireFields(m: Message, key: u16, random: seq<u8>, before: seq<u8>)
    requires Sendable(m, key) && m.header.signalling == 0 && |random| == 60 && |before| == Size(m)
    ensures var r := FromWire(OnWire(m, key, random, before), key);
      var sent := Copied(m.payload, before[HEADER..HEADER + |m.payload|]);
      if |m.padding| > MAX_PAD then r.None?
      else if m.padding == [] then r.Some? && r.value.payload == sent + TailOctets(m)
      else r == Some(m.(header := m.header.(csrc := random), payload := sent, padding := [], padCount := XorPad(|m.padding|, key)))
  {
    hide HeaderOctets, Copied, TailOctets, Octets32, Number32, OnWire, XorPad, Reversed4;
    var b := OnWire(m, key, random, before);
    var end := HEADER + |m.payload| + |m.padding|;
    WireParts(m, key, random, before);
    HeaderReadsBack(m.header, random, b);
    TailReadsBack(m);
    TailAt(b, end, TailOctets(m));
    ReadBack32(m.tag);
  }

  // ---------------------------------------------------------------- the whole way

  function And(a: nat, b: nat): nat
    decreases a
  {
    if a == 0 then 0 else 2 * And(a / 2, b / 2) + (if a % 2 == 1 && b % 2 == 1 then 1 else 0)
  }

  lemma {:induction false} AndBelow(a: nat, b: nat)
    ensures And(a, b) <= a && And(a, b) % 2 == if a % 2 == 1 && b % 2 == 1 then 1 else 0
    decreases a
  {
    if a > 0 {
      AndBelow(a / 2, b / 2);
    }
  }

  /** Only the last bit of the dummy flag is kept for certain. */
  function Masked(m: Message, mask: nat): Message {
    m.(dummy := And(m.dummy, if mask % 2 == 0 then mask + 1 else mask))
  }

  function Sealed(m: Message, key: u16, mask: nat): Message {
    Crypted(Masked(m, mask), key)
  }

  function Opened(m: Message, key: u16): Message {
    var r := Crypted(m, key);
    r.(dummy := r.dummy % 2)
  }

  /** A media message as the application hands it over. */
  predicate Media(m: Message) {
    MessageOk(m) && m.header.signalling == 0 && m.padCount == |m.padding|
  }

  lemma SealedSendable(m: Message, key: u16, mask: nat)
    requires Media(m)
    ensures Sendable(Sealed(m, key, mask), key) && Size(Sealed(m, key, mask)) == Size(m)
  {
    AndBelow(m.dummy, if mask % 2 == 0 then mask + 1 else mask);
    CryptedTwice(Masked(m, mask), key);
    Widths();
    if key == 0 {
      NoKeyNoChange(m.padCount, 32);
    }
  }

  ghost predicate Restored(m: Message, r: Option<Message>, key: u16) {
    r.Some? &&
    var x := Opened(r.value, key);
    && x.payload == m.payload && x.padCount == m.padCount && x.originalSeq == m.originalSeq
    && x.paddingBit == m.paddingBit && x.dummy == m.dummy % 2 && x.tag == m.tag
    && x.header == m.header.(csrc := x.header.csrc)
  }

  /** No zero in the payload as encrypted, except perhaps at its end. */
  predicate CopiesWhole(s: seq<u8>) {
    |s| <= |Cut(s)| + 1
  }

  lemma {:induction false} XorSelf(k: nat)
    ensures Xor(k, k) == 0 && Xor(0, k) == k
  {
    if k > 0 {
      XorSelf(k / 2);
    }
  }

  /** An octet encrypts to zero exactly if it is the low octet of the key. */
  lemma ZeroIffKeyOctet(a: u8, k: u8)
    ensures XorOctet(a, k) == 0 <==> a == k
  {
    XorSelf(k);
    XorCancels(a, k);
  }

  /** The condition on the encrypted payload, told of the payload and the key before. */
  lemma CopiesWholeIff(m: Message, key: u16, mask: nat)
    ensures CopiesWhole(Sealed(m, key, mask).payload) <==>
      forall i :: 0 <= i < |m.payload| - 1 ==> m.payload[i] != key % 256
  {
    var e := Sealed(m, key, mask).payload;
    forall i | 0 <= i < |e|
      ensures e[i] == 0 <==> m.payload[i] == key % 256
    {
      ZeroIffKeyOctet(m.payload[i], key % 256);
    }
    hide XorOctet;
    var n := |Cut(e)|;
    assert forall i :: 0 <= i < n ==> e[i] == Cut(e)[i];
    if n + 1 < |e| {
      assert m.payload[n] == key % 256;
    }
  }

  lemma CopiedWhole(s: seq<u8>, before: seq<u8>)
    requires |before| == |s| && CopiesWhole(s)
    ensures Copied(s, before) == s
  {
  }

  lemma RestoredIfWhole(m: Message, key: u16, mask: nat, random: seq<u8>, before: seq<u8>)
    requires Media(m) && |random| == 60 && |before| == Size(m) && 1 <= |m.padding| <= MAX_PAD
    requires CopiesWhole(Sealed(m, key, mask).payload) && Sendable(Sealed(m, key, mask), key)
    requires Size(Sealed(m, key, mask)) == Size(m)
    ensures Restored(m, FromWire(OnWire(Sealed(m, key, mask), key, random, before), key), key)
  {
    hide OnWire, FromWire, Copied, CopiesWhole, XorField, XorOctet;
    var e := Sealed(m, key, mask);
    FromWireFields(e, key, random, before);
    CopiedWhole(e.payload, before[HEADER..HEADER + |e.payload|]);
    var odd := if mask % 2 == 0 then mask + 1 else mask;
    AndBelow(m.dummy, odd);
    var x := Masked(m, mask);
    CryptedTwice(x, key);
    Widths();
    XorFieldTwice(m.padCount, key, 32);
  }

  /** A buffer whose old octets all differ from the payload about to be copied over them. */
  function Spoiled(m: Message): (r: seq<u8>)
    ensures |r| == Size(m)
    ensures forall i :: 0 <= i < |m.payload| ==> r[HEADER..HEADER + |m.payload|][i] != m.payload[i]
  {
    var other := seq(|m.payload|, i requires 0 <= i < |m.payload| => Octet(m.payload[i] as int + 1));
    var r := seq(HEADER, _ => 0) + other + seq(|m.padding| + TRAILER, _ => 0);
    assert r[HEADER..HEADER + |m.payload|] == other;
    r
  }

  lemma LostOtherwise(m: Message, key: u16, mask: nat, random: seq<u8>)
    requires Media(m) && |random| == 60 && Sendable(Sealed(m, key, mask), key) && Size(Sealed(m, key, mask)) == Size(m)
    requires !(1 <= |m.padding| <= MAX_PAD && CopiesWhole(Sealed(m, key, mask).payload))
    ensures !Restored(m, FromWire(OnWire(Sealed(m, key, mask), key, random, Spoiled(Sealed(m, key, mask))), key), key)
  {
    hide OnWire, FromWire, XorField, XorOctet, Spoiled;
    var e := Sealed(m, key, mask);
    FromWireFields(e, key, random, Spoiled(e));
    var old' := Spoiled(e)[HEADER..HEADER + |e.payload|];
    var sent := Copied(e.payload, old');
    if 1 <= |m.padding| <= MAX_PAD {
      var n := |Cut(e.payload)|;
      assert sent[n + 1] == old'[n + 1] != e.payload[n + 1];
      XorOctetsTwice(sent, key);
      XorOctetsTwice(m.payload, key);
    }
  }

  /**
   * A media message comes back as it was, whatever the send buffer held before, exactly when it has between 1 and
   * 1500 octets of padding and its payload, once encrypted, has no zero before its last octet.
   */
  lemma MediaRestoredIff(m: Message, key: u16, mask: nat, random: seq<u8>)
    requires Media(m) && |random| == 60
    ensures Sendable(Sealed(m, key, mask), key) && Size(Sealed(m, key, mask)) == Size(m)
    ensures
      (forall before: seq<u8> | |before| == Size(m) ::
         Restored(m, FromWire(OnWire(Sealed(m, key, mask), key, random, before), key), key))
      <==> 1 <= |m.padding| <= MAX_PAD && CopiesWhole(Sealed(m, key, mask).payload)
  {
    hide OnWire, FromWire, Restored, Sealed, CopiesWhole, Sendable, Media;
    SealedSendable(m, key, mask);
    if 1 <= |m.padding| <= MAX_PAD && CopiesWhole(Sealed(m, key, mask).payload) {
      forall before: seq<u8> | |before| == Size(m)
        ensures Restored(m, FromWire(OnWire(Sealed(m, key, mask), key, random, before), key), key)
      {
        RestoredIfWhole(m, key, mask, random, before);
      }
    } else {
      LostOtherwise(m, key, mask, random);
      assert |Spoiled(Sealed(m, key, mask))| == Size(m);
    }
  }

  // ---------------------------------------------------------------- in place

  class SrppMessage {
    var header: Header
    var payload: seq<u8>
    var padding: seq<u8>
    var padCount: u32
    var dummy: nat
    var paddingBit: nat
    var originalSeq: u16
    var tag: u32

    function Value(): Message
      reads this
    {
      Message(header, payload, padding, padCount, dummy, paddingBit, originalSeq, tag)
    }

    constructor (m: Message)
      ensures Value() == m
    {
      header, payload, padding, padCount := m.header, m.payload, m.padding, m.padCount;
      dummy, paddingBit, originalSeq, tag := m.dummy, m.paddingBit, m.originalSeq, m.tag;
    }

    /** Exclusive or of the key into every field but the header and the tag. */
    method Crypt(key: u16)
      modifies this
      ensures Value() == Crypted(old(Value()), key)
    {
      hide XorField, XorOctets, XorSeq, XorPad;
      payload := XorAll(payload, key);
      padding := XorAll(padding, key);
      originalSeq := XorSeq(originalSeq, key);
      dummy := XorField(dummy, key, 15);
      padCount := XorPad(padCount, key);
      paddingBit := XorField(paddingBit, key, 1);
    }

    /** Lays the message out; the pad count is put in the clear for the copy and hidden again before it is written. */
    method ToNetwork(buff: array<u8>, key: u16, random: seq<u8>)
      requires Sendable(Value(), key) && |random| == 60 && buff.Length == Size(Value())
      modifies this`padCount, buff
      ensures Value() == old(Value()) && buff[..] == OnWire(Value(), key, random, old(buff[..]))
    {
      hide HeaderOctets, TailOctets, Octets32, XorPad, Copied, Cut;
      ghost var m, before := Value(), buff[..];
      LayPayload(buff, HeaderOctets(header, random), payload);
      var at := HEADER + |payload|;
      ghost var one := buff[..at];
      if key > 0 && header.signalling == 0 {
        padCount := XorPad(padCount, key);
      }
      if padCount > 0 && header.signalling == 0 {
        LayPadding(buff, at, padding, before);
        at := at + padCount;
      } else {
        NothingCopied(padding, before[at..at]);
      }
      ghost var two := buff[..at];
      assert two == one + Copied(padding, before[HEADER + |payload|..at]);
      if key > 0 && header.signalling == 0 {
        PadTwice(m.padCount, key);
        padCount := XorPad(padCount, key);
      }
      LayTrailer(buff, at, TailOctets(Value()), Octets32(tag));
    }

    /** Takes the message from a packet; `false` if it is none. */
    method FromNetwork(buff: array<u8>, bytes: nat, key: u16) returns (ok: bool)
      requires HEADER + TRAILER <= bytes <= buff.Length
      modifies this
      ensures ok <==> FromWire(buff[..bytes], key).Some?
      ensures ok ==> Value() == FromWire(buff[..bytes], key).value.(padding := old(padding))
    {
      hide XorPad, Number32, Reversed4, HeaderFrom, Be16;
      var b := buff[..bytes];
      header := HeaderFrom(b);
      var data := bytes - 4;
      tag := Number32(b[data..data + 4]);
      var thisnow := data - 8;
      padCount := Number32(Reversed4(b[thisnow..thisnow + 4]));
      var bits := Be16(b[thisnow + 5], b[thisnow + 4]);
      dummy, paddingBit := bits % FLAG_MOD, bits / FLAG_MOD;
      originalSeq := Be16(b[thisnow + 7], b[thisnow + 6]);
      if header.signalling == 0 && key > 0 {
        padCount := XorPad(padCount, key);
      }
      if padCount > MAX_PAD {
        return false;
      }
      if padCount > 0 && header.signalling == 0 {
        if thisnow - padCount < HEADER {
          return false;
        }
        data := thisnow - padCount;
        padCount := XorPad(padCount, key);
      } else {
        padCount := 0;
      }
      payload := b[HEADER..data];
      ok := true;
    }
  }

  method XorAll(s: seq<u8>, key: u16) returns (r: seq<u8>)
    ensures r == XorOctets(s, key)
  {
    r := s;
    for i := 0 to |s|
      invariant |r| == |s|
      invariant forall j :: 0 <= j < |s| ==> r[j] == if j < i then XorOctet(s[j], key % 256) else s[j]
    {
      r := r[i := XorOctet(r[i], key % 256)];
    }
  }

  lemma PadTwice(n: u32, key: u16)
    ensures XorPad(XorPad(n, key), key) == n
  {
    Widths();
    XorFieldTwice(n, key, 32);
  }

  method LayPayload(buff: array<u8>, h: seq<u8>, payload: seq<u8>)
    requires |h| == HEADER && HEADER + |payload| < buff.Length
    modifies buff
    ensures buff[..HEADER + |payload|] == h + Copied(payload, old(buff[HEADER..HEADER + |payload|]))
    ensures buff[HEADER + |payload| + 1..] == old(buff[HEADER + |payload| + 1..])
  {
    hide Copied;
    ghost var before, end := buff[..], HEADER + |payload|;
    CopyInto(buff, 0, h);
    assert buff[..HEADER] == h;
    assert buff[HEADER..end] == before[HEADER..end] && buff[end + 1..] == before[end + 1..];
    StringCopy(buff, HEADER, payload);
  }

  method LayPadding(buff: array<u8>, at: nat, padding: seq<u8>, ghost before: seq<u8>)
    requires padding != [] && at + |padding| < buff.Length == |before| && buff[at + 1..] == before[at + 1..]
    modifies buff
    ensures buff[..at + |padding|] == old(buff[..at]) + Copied(padding, before[at..at + |padding|])
  {
    hide Copied;
    ghost var a, b := buff[at..at + |padding|], before[at..at + |padding|];
    assert a[1..] == buff[at + 1..][..|padding| - 1] && b[1..] == before[at + 1..][..|padding| - 1];
    CopiedForgets(padding, a, b);
    StringCopy(buff, at, padding);
  }

  method LayTrailer(buff: array<u8>, at: nat, tail: seq<u8>, tag: seq<u8>)
    requires |tail| == 8 && |tag| == 4 && at + TRAILER == buff.Length
    modifies buff
    ensures buff[..] == old(buff[..at]) + tail + tag
  {
    ghost var was := buff[..at];
    CopyInto(buff, at, tail);
    assert buff[..at + 8] == was + tail;
    CopyInto(buff, at + 8, tag);
  }

  /** The C string copy: it ends with the first zero, which it copies too. */
  method StringCopy(buf: array<u8>, at: nat, s: seq<u8>)
    requires at + |s| < buf.Length
    modifies buf
    ensures buf[..at + |s|] == old(buf[..at]) + Copied(s, old(buf[at..at + |s|]))
    ensures buf[at + |s| + 1..] == old(buf[at + |s| + 1..])
  {
    hide Cut;
    ghost var was := buf[..];
    var text := Cut(s) + [0];
    CopyInto(buf, at, text);
    ghost var room := was[at..at + |s|];
    assert buf[at + |s| + 1..] == was[at + |s| + 1..];
    assert buf[..at] == was[..at];
    CopiedIs(s, room, buf[at..at + |s|], text);
    assert buf[..at + |s|] == buf[..at] + buf[at..at + |s|];
  }

  lemma CopiedIs(s: seq<u8>, room: seq<u8>, now: seq<u8>, text: seq<u8>)
    requires |room| == |now| == |s| && text == Cut(s) + [0]
    requires if |text| <= |s| then now == text + room[|text|..] else now == Cut(s)
    ensures now == Copied(s, room)
  {
  }

  lemma NothingCopied(s: seq<u8>, before: seq<u8>)
    requires s == [] == before
    ensures Copied(s, before) == []
  {
  }

  /** The first octet is always written over. */
  lemma CopiedForgets(s: seq<u8>, a: seq<u8>, b: seq<u8>)
    requires s != [] && |a| == |b| == |s| && a[1..] == b[1..]
    ensures Copied(s, a) == Copied(s, b)
  {
  }
}
