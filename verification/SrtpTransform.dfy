/** The octets of libSRTP packets: encryption, tag and trailer of SRTP and SRTCP, and their removal. */
module SrtpTransform {
  import opened Octets
  import opened Wrappers
  import Rtp = SrtpPacket

  const TAG_MAX := 12
  const TRAILER := 4
  const RTCP_HEADER := 8
  const E_BIT := 0x8000_0000

  /** Cipher and authenticator of one direction of use, under their keys, with the services asked for. */
  datatype Transform = Transform(
    icm: bool,
    keystream: (seq<u8>, nat) -> u8,
    prefixLength: nat,
    tagLength: nat,
    mac: (seq<u8>, seq<u8>, nat) -> u8,
    conf: bool,
    auth: bool)

  /** A computed tag fits the buffer it is computed into. */
  predicate Fits(t: Transform) {
    t.tagLength <= TAG_MAX && t.prefixLength <= TAG_MAX
  }

  // ---------------------------------------------------------------- cipher and authenticator

  function Iv(t: Transform, ssrc: seq<u8>, index: nat): seq<u8> {
    if t.icm then [0, 0, 0, 0] + ssrc + Octets64(index * SEQ_MOD) else [0, 0, 0, 0, 0, 0, 0, 0] + Octets64(index)
  }

  /** In counter mode no two packets share a vector: it holds the identifier and the whole index. */
  lemma IvsDistinct(t: Transform, a: seq<u8>, i: nat, b: seq<u8>, j: nat)
    requires t.icm && |a| == |b| == 4 && i < INDEX_MOD && j < INDEX_MOD && Iv(t, a, i) == Iv(t, b, j)
    ensures a == b && i == j
  {
    hide Octets64;
    var x, y := Iv(t, a, i), Iv(t, b, j);
    assert x[4..8] == a && y[4..8] == b;
    assert x[8..] == Octets64(i * SEQ_MOD) && y[8..] == Octets64(j * SEQ_MOD);
    Octets64Injective(i * SEQ_MOD, j * SEQ_MOD);
  }

  lemma Octets64Injective(m: nat, n: nat)
    requires m < 0x1_0000_0000_0000_0000 && n < 0x1_0000_0000_0000_0000 && Octets64(m) == Octets64(n)
    ensures m == n
  {
    hide Octets32;
    var a, b := Octets64(m), Octets64(n);
    assert a[..4] == Octets32(m / ROC_MOD) && b[..4] == Octets32(n / ROC_MOD);
    assert a[4..] == Octets32(m % ROC_MOD) && b[4..] == Octets32(n % ROC_MOD);
    ReadBack32(m / ROC_MOD);
    ReadBack32(n / ROC_MOD);
    ReadBack32(m % ROC_MOD);
    ReadBack32(n % ROC_MOD);
  }

  function KeyFor(t: Transform, iv: seq<u8>): nat -> u8 {
    (i: nat) => t.keystream(iv, i)
  }

  function Prefix(t: Transform, iv: seq<u8>): (r: seq<u8>)
    ensures |r| == t.prefixLength
  {
    seq(t.prefixLength, i requires 0 <= i => t.keystream(iv, i))
  }

  function Tag(t: Transform, message: seq<u8>, prefix: seq<u8>): (r: seq<u8>)
    ensures |r| == t.tagLength
  {
    seq(t.tagLength, i requires 0 <= i => t.mac(message, prefix, i))
  }

  /** Exclusive or of the keystream, from octet `skip` on, into the octets from `h` on. */
  function Crypt(t: Transform, iv: seq<u8>, skip: nat, p: seq<u8>, h: nat): (r: seq<u8>)
    requires h <= |p|
    ensures |r| == |p| && r[..h] == p[..h]
  {
    p[..h] + XorWith(p[h..], KeyFor(t, iv), skip)
  }

  lemma CryptTwice(t: Transform, iv: seq<u8>, skip: nat, p: seq<u8>, h: nat)
    requires h <= |p|
    ensures Crypt(t, iv, skip, Crypt(t, iv, skip, p, h), h) == p
  {
    var q := Crypt(t, iv, skip, p, h);
    assert q[h..] == XorWith(p[h..], KeyFor(t, iv), skip);
    XorWithTwice(p[h..], KeyFor(t, iv), skip);
    assert p == p[..h] + p[h..];
  }

  // ---------------------------------------------------------------- SRTP

  function Skip(t: Transform): nat {
    if t.auth then t.prefixLength else 0
  }

  function RtpIv(t: Transform, p: seq<u8>, index: nat): seq<u8>
    requires |p| >= 12
  {
    Iv(t, p[8..12], index)
  }

  function RtpTag(t: Transform, e: seq<u8>, index: nat): (r: seq<u8>)
    requires |e| >= 12
    ensures |r| == t.tagLength
  {
    Tag(t, e + Octets32(index / SEQ_MOD), Prefix(t, RtpIv(t, e, index)))
  }

  function Encrypted(t: Transform, p: seq<u8>, index: nat): (e: seq<u8>)
    requires |p| >= 12 && (t.conf ==> Rtp.Complete(p))
    ensures |e| == |p|
  {
    if t.conf then Crypt(t, RtpIv(t, p, index), Skip(t), p, Rtp.HeaderSize(p)) else p
  }

  /** A packet as protected under packet index `index`. */
  function Sealed(t: Transform, p: seq<u8>, index: nat): (q: seq<u8>)
    requires |p| >= 12 && (t.conf ==> Rtp.Complete(p))
    ensures |q| == |p| + if t.auth then t.tagLength else 0
  {
    var e := Encrypted(t, p, index);
    if t.auth then e + RtpTag(t, e, index) else e
  }

  /** Whether the last octets of a packet are the tag of the ones before, where tags are used. */
  predicate Authentic(t: Transform, q: seq<u8>, index: nat)
    requires Fits(t) && |q| >= 12
  {
    var n := |q| - t.tagLength;
    t.auth ==> q[n..] == Tag(t, q[..n] + Octets32(index / SEQ_MOD), Prefix(t, RtpIv(t, q, index)))
  }

  /** The packet without its tag and encryption; none if the header reaches into the tag or beyond. */
  function Opened(t: Transform, q: seq<u8>, index: nat): (r: Option<seq<u8>>)
    requires Fits(t) && |q| >= 12
    ensures r.Some? ==> |r.value| == |q| - t.tagLength
  {
    var n := |q| - t.tagLength;
    if !t.conf then Some(q[..n])
    else if Rtp.Readable(q) && Rtp.HeaderSize(q) <= n then
      Some(Crypt(t, RtpIv(t, q, index), Skip(t), q[..n], Rtp.HeaderSize(q)))
    else None
  }

  lemma SealedHeader(t: Transform, p: seq<u8>, index: nat)
    requires |p| >= 12 && (t.conf ==> Rtp.Complete(p))
    ensures Sealed(t, p, index)[..12] == p[..12] && Sealed(t, p, index)[..|p|] == Encrypted(t, p, index)
    ensures t.conf ==> Rtp.Complete(Sealed(t, p, index)) && Rtp.HeaderSize(Sealed(t, p, index)) == Rtp.HeaderSize(p)
    ensures RtpIv(t, Sealed(t, p, index), index) == RtpIv(t, p, index)
  {
    var q, e := Sealed(t, p, index), Encrypted(t, p, index);
    assert q[..|p|] == e;
    if t.conf {
      var h := Rtp.HeaderSize(p);
      assert q[..h] == e[..h] == p[..h];
      Rtp.SameHeaderSameSize(p, q);
      assert q[..12] == q[..h][..12] && p[..12] == p[..h][..12];
    }
    assert q[8..12] == q[..12][8..] && p[8..12] == p[..12][8..];
  }

  /** A protected packet is authentic, and removing the protection under the same index restores it. */
  lemma SealedIsAuthentic(t: Transform, p: seq<u8>, index: nat)
    requires Fits(t) && |p| >= 12 && (t.conf ==> Rtp.Complete(p))
    ensures Authentic(t, Sealed(t, p, index), index)
  {
    SealedHeader(t, p, index);
    if t.auth {
      var q, e := Sealed(t, p, index), Encrypted(t, p, index);
      assert q[|p|..] == RtpTag(t, e, index);
      assert e[8..12] == q[8..12];
    }
  }

  /**
   * Unprotecting under the index used to protect gives back the packet exactly when tags are used or have
   * no length: the length of the tag is taken off whether or not one was put on.
   */
  lemma OpenedSealedIff(t: Transform, p: seq<u8>, index: nat)
    requires Fits(t) && |p| >= 12 && (t.conf ==> Rtp.Complete(p))
    ensures Opened(t, Sealed(t, p, index), index) == Some(p) <==> t.auth || t.tagLength == 0
  {
    var q := Sealed(t, p, index);
    SealedHeader(t, p, index);
    if t.auth || t.tagLength == 0 {
      assert |q| - t.tagLength == |p|;
      if t.conf {
        CryptTwice(t, RtpIv(t, p, index), Skip(t), p, Rtp.HeaderSize(p));
      }
    }
  }

  // ---------------------------------------------------------------- SRTCP

  function RtcpIv(t: Transform, p: seq<u8>, n: nat): seq<u8>
    requires |p| >= RTCP_HEADER
  {
    Iv(t, p[4..8], n)
  }

  /** The encryption bit and the index in one word; the index of the last packet before expiry is the bit alone. */
  function TrailerWord(conf: bool, n: nat): (w: u32)
    requires n <= E_BIT
  {
    if conf && n < E_BIT then E_BIT + n else n
  }

  function RtcpBody(t: Transform, p: seq<u8>, n: nat): (e: seq<u8>)
    requires |p| >= RTCP_HEADER && n <= E_BIT
    ensures |e| == |p| + TRAILER
  {
    (if t.conf then Crypt(t, RtcpIv(t, p, n), t.prefixLength, p, RTCP_HEADER) else p) + Octets32(TrailerWord(t.conf, n))
  }

  function SealedRtcp(t: Transform, p: seq<u8>, n: nat): (q: seq<u8>)
    requires |p| >= RTCP_HEADER && n <= E_BIT
    ensures |q| == |p| + TRAILER + t.tagLength
  {
    RtcpBody(t, p, n) + Tag(t, RtcpBody(t, p, n), Prefix(t, RtcpIv(t, p, n)))
  }

  /** The packet reaches back as far as its tag and trailer. */
  predicate HasTrailer(t: Transform, q: seq<u8>) {
    |q| >= RTCP_HEADER && |q| >= t.tagLength + TRAILER
  }

  function TrailerOf(t: Transform, q: seq<u8>): u32
    requires HasTrailer(t, q)
  {
    var n := |q| - t.tagLength - TRAILER;
    Number32(q[n..n + TRAILER])
  }

  function RtcpIndex(t: Transform, q: seq<u8>): nat
    requires HasTrailer(t, q)
  {
    TrailerOf(t, q) % E_BIT
  }

  /** The tag is computed into a buffer that holds `left` where the keystream prefix should be. */
  predicate AuthenticRtcp(t: Transform, q: seq<u8>, left: seq<u8>)
    requires HasTrailer(t, q)
  {
    var n := |q| - t.tagLength;
    q[n..] == Tag(t, q[..n], left)
  }

  function OpenedRtcp(t: Transform, q: seq<u8>): (r: Option<seq<u8>>)
    requires HasTrailer(t, q)
  {
    var n := |q| - t.tagLength - TRAILER;
    if TrailerOf(t, q) < E_BIT then Some(q[..n])
    else if n < RTCP_HEADER then None
    else Some(Crypt(t, RtcpIv(t, q, RtcpIndex(t, q)), t.prefixLength, q[..n], RTCP_HEADER))
  }

  lemma SealedRtcpParts(t: Transform, p: seq<u8>, n: nat)
    requires |p| >= RTCP_HEADER && n <= E_BIT
    ensures var q := SealedRtcp(t, p, n);
      && HasTrailer(t, q) && TrailerOf(t, q) == TrailerWord(t.conf, n)
      && q[..|p| + TRAILER] == RtcpBody(t, p, n) && q[|p| + TRAILER..] == Tag(t, RtcpBody(t, p, n), Prefix(t, RtcpIv(t, p, n)))
      && q[..|p|] == (if t.conf then Crypt(t, RtcpIv(t, p, n), t.prefixLength, p, RTCP_HEADER) else p)
      && q[4..8] == p[4..8]
  {
    var q, body := SealedRtcp(t, p, n), RtcpBody(t, p, n);
    var e := if t.conf then Crypt(t, RtcpIv(t, p, n), t.prefixLength, p, RTCP_HEADER) else p;
    assert q[..|p| + TRAILER] == body;
    assert q[..|p|] == body[..|p|] == e;
    assert q[|p|..|p| + TRAILER] == body[|p|..] == Octets32(TrailerWord(t.conf, n));
    ReadBack32(TrailerWord(t.conf, n));
    assert e[..8] == p[..8];
    assert q[4..8] == e[..8][4..8] && p[4..8] == p[..8][4..8];
  }

  /**
   * The receiver computes the tag without the keystream prefix the sender had put in its place, so a packet
   * is authentic exactly when the prefix makes no difference to its tag; with no prefix it always is.
   */
  lemma SealedRtcpIsAuthenticIff(t: Transform, p: seq<u8>, n: nat, left: seq<u8>)
    requires |p| >= RTCP_HEADER && n <= E_BIT && |left| == t.prefixLength
    ensures AuthenticRtcp(t, SealedRtcp(t, p, n), left) <==>
      Tag(t, RtcpBody(t, p, n), Prefix(t, RtcpIv(t, p, n))) == Tag(t, RtcpBody(t, p, n), left)
    ensures t.prefixLength == 0 ==> AuthenticRtcp(t, SealedRtcp(t, p, n), left)
  {
  }

  lemma TrailerFields(conf: bool, n: nat)
    requires n <= E_BIT
    ensures TrailerWord(conf, n) % E_BIT == n <==> n < E_BIT
    ensures n < E_BIT ==> (TrailerWord(conf, n) >= E_BIT <==> conf)
  {
  }

  /** The index sent is read back, and the packet restored, for every index that leaves the encryption bit alone. */
  lemma OpenedSealedRtcp(t: Transform, p: seq<u8>, n: nat)
    requires |p| >= RTCP_HEADER && n <= E_BIT
    ensures RtcpIndex(t, SealedRtcp(t, p, n)) == n <==> n < E_BIT
    ensures n < E_BIT ==> OpenedRtcp(t, SealedRtcp(t, p, n)) == Some(p)
  {
    hide SealedRtcp, RtcpBody, Crypt, Tag, Iv, TrailerWord, TrailerOf;
    TrailerFields(t.conf, n);
    SealedRtcpParts(t, p, n);
    if n < E_BIT && t.conf {
      var q := SealedRtcp(t, p, n);
      assert RtcpIv(t, q, n) == RtcpIv(t, p, n);
      CryptTwice(t, RtcpIv(t, p, n), t.prefixLength, p, RTCP_HEADER);
    }
  }
}
