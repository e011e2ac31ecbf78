/**
 * RTP packets as octets: how ccRTP builds an outgoing packet, protects it in place, and what it does to
 * an incoming one.
 */
module SrtpPacket {
  import opened Octets
  import opened Buffers
  import opened SrtpContext
  import opened SrtpKeystream

  // ---------------------------------------------------------------- reading the header

  function Cc(p: seq<u8>): (r: nat)
    requires |p| >= 12
  {
    p[0] % 16
  }

  predicate Extended(p: seq<u8>)
    requires |p| >= 12
  {
    p[0] / 16 % 2 == 1
  }

  predicate Padded(p: seq<u8>)
    requires |p| >= 12
  {
    p[0] / 32 % 2 == 1
  }

  function SeqNum(p: seq<u8>): u16
    requires |p| >= 12
  {
    Be16(p[2], p[3])
  }

  function Ssrc(p: seq<u8>): u32
    requires |p| >= 12
  {
    Be32(p[8], p[9], p[10], p[11])
  }

  /** The header fields the constructor reads are inside the packet. */
  predicate Readable(p: seq<u8>) {
    |p| >= 12 && (Extended(p) ==> |p| >= 12 + 4 * Cc(p) + 4)
  }

  function HeaderSize(p: seq<u8>): (r: nat)
    requires Readable(p)
    ensures r >= 12
  {
    var fixedPart := 12 + 4 * Cc(p);
    if Extended(p) then fixedPart + 4 + 4 * Be16(p[fixedPart + 2], p[fixedPart + 3]) else fixedPart
  }

  /** A complete packet: the header it announces fits. */
  predicate Complete(p: seq<u8>) {
    Readable(p) && HeaderSize(p) <= |p|
  }

  lemma SameHeaderSameSize(p: seq<u8>, q: seq<u8>)
    requires Complete(p) && HeaderSize(p) <= |q| && q[..HeaderSize(p)] == p[..HeaderSize(p)]
    ensures Complete(q) && HeaderSize(q) == HeaderSize(p) && Padded(q) == Padded(p)
    ensures SeqNum(q) == SeqNum(p) && Ssrc(q) == Ssrc(p)
  {
  }

  // ---------------------------------------------------------------- protecting and unprotecting octets

  function RocOctets(roc: u32): seq<u8> {
    [Octet(ShiftOctets(roc, 3)), Octet(ShiftOctets(roc, 2)), Octet(ShiftOctets(roc, 1)), Octet(roc)]
  }

  function Tag(suite: Suite, message: seq<u8>, roc: u32): (t: seq<u8>)
    ensures |t| == suite.tagLength
  {
    seq<u8>(suite.tagLength, j requires 0 <= j => suite.hmac(message + RocOctets(roc), j))
  }

  /** Counter-mode encryption of `len` octets after the first `h`; it is its own inverse. */
  function Crypt(suite: Suite, p: seq<u8>, h: nat, len: nat, ssrc: u32, index: nat): (r: seq<u8>)
    requires ValidSuite(suite) && h + len <= |p|
    ensures |r| == |p| && r[..h] == p[..h]
  {
    if suite.encrypts
    then p[..h] + XorWith(p[h..h + len], Keystream(suite, ssrc, index), 0) + p[h + len..]
    else p
  }

  lemma CryptTwice(suite: Suite, p: seq<u8>, h: nat, len: nat, ssrc: u32, index: nat)
    requires ValidSuite(suite) && h + len <= |p|
    ensures Crypt(suite, Crypt(suite, p, h, len, ssrc, index), h, len, ssrc, index) == p
  {
    if suite.encrypts {
      var key := Keystream(suite, ssrc, index);
      var q := Crypt(suite, p, h, len, ssrc, index);
      assert q[h..h + len] == XorWith(p[h..h + len], key, 0);
      assert q[h + len..] == p[h + len..];
      XorWithTwice(p[h..h + len], key, 0);
      assert p == p[..h] + p[h..h + len] + p[h + len..];
    }
  }

  function Encrypted(suite: Suite, p: seq<u8>, roc: u32): (e: seq<u8>)
    requires ValidSuite(suite) && Complete(p)
    ensures |e| == |p|
  {
    Crypt(suite, p, HeaderSize(p), |p| - HeaderSize(p), Ssrc(p), roc * SEQ_MOD + SeqNum(p))
  }

  /** The octets that go on the wire for packet `p` under rollover counter `roc`. */
  function OnWire(suite: Suite, p: seq<u8>, roc: u32): (w: seq<u8>)
    requires ValidSuite(suite) && Complete(p)
    ensures |w| == |p| + suite.tagLength
  {
    Encrypted(suite, p, roc) + Tag(suite, Encrypted(suite, p, roc), roc)
  }

  /** The counter after a packet with sequence number `s` has been protected. */
  function RocAfter(roc: u32, s: u16): u32 {
    if s == 0xFFFF then (roc + 1) % ROC_MOD else roc
  }

  /** Overrun stands for an access outside the received octets, which the code does not check for. */
  datatype Verdict = Accepted(plain: seq<u8>) | Replayed | AuthFailed | Overrun

  /**
   * How many octets unprotect decrypts. For a padded packet the constructor takes the padding count from
   * the last received octet and the decryption takes it from the last octet before the tag.
   */
  function DecryptLength(suite: Suite, wire: seq<u8>): int
    requires Readable(wire) && |wire| > suite.tagLength
  {
    var last := if Padded(wire) then wire[|wire| - 1] else 0;
    var pad := if Padded(wire) then wire[|wire| - suite.tagLength - 1] else 0;
    |wire| - last - HeaderSize(wire) - suite.tagLength + pad
  }

  predicate Decryptable(suite: Suite, wire: seq<u8>) {
    && Readable(wire) && |wire| > suite.tagLength
    && (suite.encrypts ==> 0 <= DecryptLength(suite, wire) <= |wire| - HeaderSize(wire))
  }

  function Decrypted(suite: Suite, wire: seq<u8>, index: nat): seq<u8>
    requires ValidSuite(suite) && Decryptable(suite, wire)
  {
    if suite.encrypts
    then Crypt(suite, wire, HeaderSize(wire), DecryptLength(suite, wire), Ssrc(wire), index)[..|wire| - suite.tagLength]
    else wire[..|wire| - suite.tagLength]
  }

  predicate Authentic(suite: Suite, wire: seq<u8>, roc: u32)
    requires |wire| >= suite.tagLength
  {
    var total := |wire| - suite.tagLength;
    suite.authenticates ==> wire[total..] == Tag(suite, wire[..total], roc)
  }

  /** What unprotect may answer and leave behind; `ok` is the answer of the replay check. */
  predicate Unprotected(suite: Suite, c: Ctx, wire: seq<u8>, ok: bool, v: Verdict, c': Ctx)
    requires ValidSuite(suite)
  {
    if !Readable(wire) || |wire| <= suite.tagLength then
      v == Overrun && c' == c
    else
      var s := SeqNum(wire);
      && (if suite.encrypts || suite.authenticates then ReplayVerdict(c, s, ok) else ok)
      && if !ok then
           v == Replayed && c' == Guessed(c, s)
         else if !Authentic(suite, wire, Guessed(c, s).guessedRoc) then
           v == AuthFailed && c' == Guessed(c, s)
         else if !Decryptable(suite, wire) then
           v == Overrun && c' == Guessed(c, s)
         else
           v == Accepted(Decrypted(suite, wire, IndexGuess(c, s))) && Updated(Guessed(c, s), s, c')
  }

  /** An unpadded packet comes back octet for octet whenever the receiver's guess is the sender's index. */
  lemma UnprotectUndoesProtect(suite: Suite, p: seq<u8>, roc: u32, c: Ctx, ok: bool, v: Verdict, c': Ctx)
    requires ValidSuite(suite) && Complete(p) && !Padded(p)
    requires IndexGuess(c, SeqNum(p)) == roc * SEQ_MOD + SeqNum(p)
    requires Delta(c, SeqNum(p)) > 0 || (!c.seqNumSet && c.window == EmptyWindow())
    requires Unprotected(suite, c, OnWire(suite, p, roc), ok, v, c')
    ensures v == Accepted(p) && Updated(Guessed(c, SeqNum(p)), SeqNum(p), c')
  {
    hide OnWire, Tag, Decrypted, Updated, Encrypted, DecryptLength, HeaderSize, Ssrc, SeqNum;
    WireShape(suite, p, roc);
    DecryptRestores(suite, p, roc);
    WireIsAuthentic(suite, p, roc);
    assert Guessed(c, SeqNum(p)).guessedRoc == roc;
    AheadIsAdmitted(c, SeqNum(p), ok);
  }

  lemma AheadIsAdmitted(c: Ctx, s: u16, ok: bool)
    requires Delta(c, s) > 0 || (!c.seqNumSet && c.window == EmptyWindow())
    ensures ReplayVerdict(c, s, ok) ==> ok
  {
  }

  lemma WireIsAuthentic(suite: Suite, p: seq<u8>, roc: u32)
    requires ValidSuite(suite) && Complete(p)
    ensures |OnWire(suite, p, roc)| > suite.tagLength && Authentic(suite, OnWire(suite, p, roc), roc)
  {
    hide Tag, Encrypted;
    WireShape(suite, p, roc);
  }

  lemma DecryptRestores(suite: Suite, p: seq<u8>, roc: u32)
    requires ValidSuite(suite) && Complete(p) && !Padded(p)
    ensures Decryptable(suite, OnWire(suite, p, roc))
    ensures Decrypted(suite, OnWire(suite, p, roc), roc * SEQ_MOD + SeqNum(p)) == p
  {
    hide Crypt, Tag, DecryptLength;
    WireShape(suite, p, roc);
    var w, h := OnWire(suite, p, roc), HeaderSize(p);
    if !suite.encrypts {
      NotEncrypted(suite, p, h, |p| - h, Ssrc(p), roc * SEQ_MOD + SeqNum(p));
    } else {
      var index := roc * SEQ_MOD + SeqNum(p);
      CryptPrefix(suite, w, h, |p| - h, Ssrc(p), index);
      CryptTwice(suite, p, h, |p| - h, Ssrc(p), index);
    }
  }

  /** Encrypting up to a point and cutting there commute. */
  lemma CryptPrefix(suite: Suite, p: seq<u8>, h: nat, len: nat, ssrc: u32, index: nat)
    requires ValidSuite(suite) && h + len <= |p|
    ensures Crypt(suite, p, h, len, ssrc, index)[..h + len] == Crypt(suite, p[..h + len], h, len, ssrc, index)
  {
  }

  lemma WireShape(suite: Suite, p: seq<u8>, roc: u32)
    requires ValidSuite(suite) && Complete(p)
    ensures var w := OnWire(suite, p, roc);
            && Complete(w) && HeaderSize(w) == HeaderSize(p) && Padded(w) == Padded(p)
            && SeqNum(w) == SeqNum(p) && Ssrc(w) == Ssrc(p)
            && w[..|p|] == Encrypted(suite, p, roc)
            && w[|p|..] == Tag(suite, Encrypted(suite, p, roc), roc)
            && (!Padded(p) ==> Decryptable(suite, w) && DecryptLength(suite, w) == |p| - HeaderSize(p))
  {
    var w, e, h := OnWire(suite, p, roc), Encrypted(suite, p, roc), HeaderSize(p);
    assert w[..h] == e[..h] == p[..h];
    SameHeaderSameSize(p, w);
  }

  /**
   * A padded packet is decrypted over the length that was encrypted exactly when the last octet of the
   * tag happens to equal the last octet of the ciphertext (always so without a tag). It is then restored.
   */
  lemma PaddedLengthExact(suite: Suite, p: seq<u8>, roc: u32)
    requires ValidSuite(suite) && Complete(p) && Padded(p)
    ensures Readable(OnWire(suite, p, roc))
    ensures var w := OnWire(suite, p, roc);
            && (DecryptLength(suite, w) == |p| - HeaderSize(p) <==> w[|w| - 1] == w[|p| - 1])
            && (w[|w| - 1] == w[|p| - 1] ==>
                  Decryptable(suite, w) && Decrypted(suite, w, roc * SEQ_MOD + SeqNum(p)) == p)
  {
    hide Crypt, Tag;
    WireShape(suite, p, roc);
    var w, h := OnWire(suite, p, roc), HeaderSize(p);
    if suite.encrypts && w[|w| - 1] == w[|p| - 1] {
      var index := roc * SEQ_MOD + SeqNum(p);
      CryptPrefix(suite, w, h, |p| - h, Ssrc(p), index);
      CryptTwice(suite, p, h, |p| - h, Ssrc(p), index);
    } else if !suite.encrypts {
      NotEncrypted(suite, p, h, |p| - h, Ssrc(p), roc * SEQ_MOD + SeqNum(p));
    }
  }

  lemma NotEncrypted(suite: Suite, p: seq<u8>, h: nat, len: nat, ssrc: u32, index: nat)
    requires ValidSuite(suite) && !suite.encrypts && h + len <= |p|
    ensures Crypt(suite, p, h, len, ssrc, index) == p
  {
  }

  /** A suite, and a packet with one octet of padding, for which the two octets differ. */
  lemma PaddedLengthCanDiffer(roc: u32) returns (suite: Suite, p: seq<u8>)
    ensures ValidSuite(suite) && Complete(p) && Padded(p) && Readable(OnWire(suite, p, roc))
    ensures DecryptLength(suite, OnWire(suite, p, roc)) != |p| - HeaderSize(p)
  {
    suite := Suite(false, true, seq(14, _ => 0), (_, _) => 0, (_, _) => 7, 1);
    p := [160, 0, 0, 0, 0, 0, 0, 0, 0, 0, 0, 0, 1];
    hide Crypt;
    PaddedLengthExact(suite, p, roc);
    WireShape(suite, p, roc);
    NotEncrypted(suite, p, 12, 1, Ssrc(p), roc * SEQ_MOD + SeqNum(p));
    var w := OnWire(suite, p, roc);
    assert w[12] == w[..13][12] == 1 && w[13] == w[13..][0] == 7;
  }

  // ---------------------------------------------------------------- the objects

  method XorInPlace(buffer: array<u8>, from: nat, stream: array<u8>)
    requires buffer != stream && from + stream.Length <= buffer.Length
    modifies buffer
    ensures forall j :: 0 <= j < buffer.Length ==>
              buffer[j] == if from <= j < from + stream.Length then XorOctet(old(buffer[j]), stream[j - from]) else old(buffer[j])
  {
    for i := 0 to stream.Length
      invariant forall j :: 0 <= j < buffer.Length ==>
                  buffer[j] == if from <= j < from + i then XorOctet(old(buffer[j]), stream[j - from]) else old(buffer[j])
    {
      buffer[from + i] := XorOctet(buffer[from + i], stream[i]);
    }
  }

  lemma CryptAt(suite: Suite, p: seq<u8>, h: nat, len: nat, ssrc: u32, index: nat, j: nat)
    requires ValidSuite(suite) && suite.encrypts && h + len <= |p| && j < |p|
    ensures Crypt(suite, p, h, len, ssrc, index)[j]
            == if h <= j < h + len then XorOctet(p[j], Keystream(suite, ssrc, index)(j - h)) else p[j]
  {
  }

  /** Encrypts `len` octets from `from` on in place, with the keystream computed beforehand. */
  method SrtpEncrypt(suite: Suite, buffer: array<u8>, from: nat, len: nat, index: nat, ssrc: u32)
    requires ValidSuite(suite) && from + len <= buffer.Length
    requires len < 16 * 65536
    modifies buffer
    ensures buffer[..] == Crypt(suite, old(buffer[..]), from, len, ssrc, index)
  {
    if !suite.encrypts {
      return;
    }
    var stream := CipherStream(suite, ssrc, index, len);
    XorInPlace(buffer, from, stream);
    forall j | 0 <= j < buffer.Length
      ensures buffer[j] == Crypt(suite, old(buffer[..]), from, len, ssrc, index)[j]
    {
      CryptAt(suite, old(buffer[..]), from, len, ssrc, index, j);
    }
  }

  /** A packet to be sent; the octets after `total` are room for the tag. */
  class OutgoingPacket {
    const buffer: array<u8>
    const total: nat

    ghost predicate Valid(suite: Suite)
      reads this, buffer
    {
      && ValidSuite(suite)
      && buffer.Length == total + suite.tagLength
      && Complete(buffer[..total])
      && total < 65536
    }

    constructor (suite: Suite, raw: seq<u8>)
      requires ValidSuite(suite) && Complete(raw) && |raw| < 65536
      ensures Valid(suite) && fresh(buffer) && buffer[..total] == raw
    {
      var room := new u8[|raw| + suite.tagLength];
      forall i | 0 <= i < |raw| {
        room[i] := raw[i];
      }
      buffer, total := room, |raw|;
      new;
      assert buffer[..total] == raw;
    }

    method Protect(suite: Suite, pcc: CryptoContext)
      requires Valid(suite)
      modifies buffer, pcc`roc
      ensures buffer[..] == OnWire(suite, old(buffer[..total]), old(pcc.roc))
      ensures pcc.roc == RocAfter(old(pcc.roc), SeqNum(old(buffer[..total])))
    {
      var s, roc := SeqNum(buffer[..total]), pcc.roc;
      Seal(suite, buffer, total, roc);
      if s == 0xFFFF {
        pcc.roc := (roc + 1) % ROC_MOD;
      }
    }
  }

  /** Encrypts the first `total` octets after the header and writes the tag behind them. */
  method Seal(suite: Suite, buffer: array<u8>, total: nat, roc: u32)
    requires ValidSuite(suite) && buffer.Length == total + suite.tagLength && total < 65536
    requires Complete(buffer[..total])
    modifies buffer
    ensures buffer[..] == OnWire(suite, old(buffer[..total]), roc)
  {
    hide Crypt, Tag;
    var raw := buffer[..total];
    ghost var whole := buffer[..];
    assert raw == whole[..total];
    EncryptWithinRoom(suite, whole, total, roc);
    SrtpEncrypt(suite, buffer, HeaderSize(raw), total - HeaderSize(raw), roc * SEQ_MOD + SeqNum(raw), Ssrc(raw));
    var sealed := buffer[..total];
    assert sealed == buffer[..][..total];
    CopyInto(buffer, total, Tag(suite, sealed, roc));
  }

  /** The room kept for the tag does not change what is encrypted. */
  lemma EncryptWithinRoom(suite: Suite, whole: seq<u8>, total: nat, roc: u32)
    requires ValidSuite(suite) && total <= |whole| && Complete(whole[..total])
    ensures var raw := whole[..total];
            Crypt(suite, whole, HeaderSize(raw), total - HeaderSize(raw), Ssrc(raw), roc * SEQ_MOD + SeqNum(raw))[..total]
            == Encrypted(suite, raw, roc)
  {
  }

  /** Decrypts a received packet in place; the tag stays behind it. */
  method Open(suite: Suite, buffer: array<u8>, index: nat)
    requires ValidSuite(suite) && buffer.Length < 65536 && Decryptable(suite, buffer[..])
    modifies buffer
    ensures buffer[..buffer.Length - suite.tagLength] == Decrypted(suite, old(buffer[..]), index)
  {
    var wire := buffer[..];
    if suite.encrypts {
      SrtpEncrypt(suite, buffer, HeaderSize(wire), DecryptLength(suite, wire), index, Ssrc(wire));
    }
    assert buffer[..buffer.Length - suite.tagLength] == buffer[..][..buffer.Length - suite.tagLength];
  }

  /** A received packet. `total` is the size of what was received until the tag has been taken off. */
  class IncomingPacket {
    const buffer: array<u8>
    var total: nat

    constructor (block: array<u8>)
      ensures buffer == block && total == block.Length
    {
      buffer, total := block, block.Length;
    }

    method Unprotect(suite: Suite, pcc: CryptoContext) returns (v: Verdict, ghost ok: bool)
      requires ValidSuite(suite)
      requires total == buffer.Length < 65536
      modifies this, buffer, pcc
      ensures Unprotected(suite, old(pcc.State()), old(buffer[..]), ok, v, pcc.State())
      ensures v.Accepted? ==> total == buffer.Length - suite.tagLength && v.plain == buffer[..total]
      ensures !v.Accepted? ==> buffer[..] == old(buffer[..])
    {
      hide Unprotected, Decrypted, Decryptable, Authentic, Readable, SeqNum, Guessed, IndexGuess, ReplayVerdict, Updated;
      var wire := buffer[..];
      ok := true;
      if !Readable(wire) || |wire| <= suite.tagLength {
        NotReadable(suite, pcc.State(), wire);
        return Overrun, ok;
      }
      ReadableLength(wire);
      var s := SeqNum(wire);
      ghost var c := pcc.State();
      total := total - suite.tagLength;
      var admitted := pcc.CheckReplay(s, suite.encrypts || suite.authenticates);
      ok := admitted;
      if !admitted {
        IsReplayed(suite, c, wire);
        return Replayed, ok;
      }
      GuessAgain(c, s);
      var guessedIndex := pcc.GuessIndex(s);
      RocOfIndex(c, s);
      if !Authentic(suite, wire, guessedIndex / SEQ_MOD) {
        IsForged(suite, c, wire);
        return AuthFailed, ok;
      }
      if !Decryptable(suite, wire) {
        IsOverrun(suite, c, wire);
        return Overrun, ok;
      }
      Open(suite, buffer, guessedIndex);
      pcc.Update(s);
      IsAccepted(suite, c, wire, pcc.State());
      return Accepted(buffer[..total]), ok;
    }
  }

  // One lemma for each way unprotect ends.

  lemma ReadableLength(wire: seq<u8>)
    requires Readable(wire)
    ensures |wire| >= 12
  {
  }

  lemma RocOfIndex(c: Ctx, s: u16)
    ensures IndexGuess(c, s) / SEQ_MOD == Guessed(c, s).guessedRoc
  {
  }

  /** The replay check of a packet that is read has answered `ok`. */
  ghost predicate Answered(suite: Suite, c: Ctx, wire: seq<u8>, ok: bool) {
    && Readable(wire) && |wire| > suite.tagLength
    && if suite.encrypts || suite.authenticates then ReplayVerdict(c, SeqNum(wire), ok) else ok
  }

  lemma NotReadable(suite: Suite, c: Ctx, wire: seq<u8>)
    requires ValidSuite(suite) && (!Readable(wire) || |wire| <= suite.tagLength)
    ensures Unprotected(suite, c, wire, true, Overrun, c)
  {
  }

  lemma IsReplayed(suite: Suite, c: Ctx, wire: seq<u8>)
    requires ValidSuite(suite) && Answered(suite, c, wire, false)
    ensures Unprotected(suite, c, wire, false, Replayed, Guessed(c, SeqNum(wire)))
  {
  }

  lemma IsForged(suite: Suite, c: Ctx, wire: seq<u8>)
    requires ValidSuite(suite) && Answered(suite, c, wire, true)
    requires !Authentic(suite, wire, Guessed(c, SeqNum(wire)).guessedRoc)
    ensures Unprotected(suite, c, wire, true, AuthFailed, Guessed(c, SeqNum(wire)))
  {
  }

  lemma IsOverrun(suite: Suite, c: Ctx, wire: seq<u8>)
    requires ValidSuite(suite) && Answered(suite, c, wire, true) && !Decryptable(suite, wire)
    requires Authentic(suite, wire, Guessed(c, SeqNum(wire)).guessedRoc)
    ensures Unprotected(suite, c, wire, true, Overrun, Guessed(c, SeqNum(wire)))
  {
  }

  lemma IsAccepted(suite: Suite, c: Ctx, wire: seq<u8>, c': Ctx)
    requires ValidSuite(suite) && Answered(suite, c, wire, true) && Decryptable(suite, wire)
    requires Authentic(suite, wire, Guessed(c, SeqNum(wire)).guessedRoc)
    requires Updated(Guessed(c, SeqNum(wire)), SeqNum(wire), c')
    ensures Unprotected(suite, c, wire, true, Accepted(Decrypted(suite, wire, IndexGuess(c, SeqNum(wire)))), c')
  {
    hide Decrypted;
  }
}
