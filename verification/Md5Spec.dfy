/** Folding a compression function over the complete 64-octet blocks of a message. */
module BlockFold {
  function Fold<S>(f: (S, seq<bv8>) -> S, st: S, m: seq<bv8>): S
    decreases |m|
  {
    if |m| < 64 then st else Fold(f, f(st, m[..64]), m[64..])
  }

  lemma {:induction false} FoldAppend<S>(f: (S, seq<bv8>) -> S, st: S, m: seq<bv8>, n: seq<bv8>)
    requires |m| % 64 == 0
    ensures Fold(f, st, m + n) == Fold(f, Fold(f, st, m), n)
    decreases |m|
  {
    if m == [] {
      assert m + n == n;
    } else {
      assert (m + n)[..64] == m[..64] && (m + n)[64..] == m[64..] + n;
      FoldAppend(f, f(st, m[..64]), m[64..], n);
    }
  }

  lemma FoldBlock<S>(f: (S, seq<bv8>) -> S, st: S, m: seq<bv8>, block: seq<bv8>)
    requires |m| % 64 == 0 && |block| == 64
    ensures Fold(f, st, m + block) == f(Fold(f, st, m), block)
  {
    FoldAppend(f, st, m, block);
    assert block[..64] == block && block[64..] == [];
  }

  /** What is left over after whole blocks is the rest modulo the block size. */
  lemma RestOfBlocks(n: nat, k: nat)
    requires k % 64 == 0 && k <= n < k + 64
    ensures n % 64 == n - k
  {
  }
}

/**
 * The MD5 digest of RFC 1321 as a fold over 64-octet blocks: padding (sections 3.1 and 3.2), the sixteen
 * operations of each of four rounds (section 3.4) and the little-endian output (section 3.5).
 */
module Md5Spec {
  import opened Octets
  import opened BlockFold

  const WORD_MOD := 0x1_0000_0000

  datatype State = State(a: bv32, b: bv32, c: bv32, d: bv32)

  function InitState(): State {
    State(0x67452301, 0xefcdab89, 0x98badcfe, 0x10325476)
  }

  // ---------------------------------------------------------------- one operation

  function F(x: bv32, y: bv32, z: bv32): bv32 { (x & y) | (!x & z) }

  function G(x: bv32, y: bv32, z: bv32): bv32 { (x & z) | (y & !z) }

  function H(x: bv32, y: bv32, z: bv32): bv32 { x ^ y ^ z }

  function I(x: bv32, y: bv32, z: bv32): bv32 { y ^ (x | !z) }

  /** Addition modulo 2^32. */
  function Plus(x: bv32, y: bv32): bv32 { x + y }

  function RotateLeft(x: bv32, n: bv32): bv32
    requires 0 < n < 32
  {
    (x << n) | (x >> (32 - n))
  }

  function FF(a: bv32, b: bv32, c: bv32, d: bv32, x: bv32, s: bv32, ac: bv32): bv32
    requires 0 < s < 32
  {
    Plus(RotateLeft(Plus(Plus(Plus(a, F(b, c, d)), x), ac), s), b)
  }

  function GG(a: bv32, b: bv32, c: bv32, d: bv32, x: bv32, s: bv32, ac: bv32): bv32
    requires 0 < s < 32
  {
    Plus(RotateLeft(Plus(Plus(Plus(a, G(b, c, d)), x), ac), s), b)
  }

  function HH(a: bv32, b: bv32, c: bv32, d: bv32, x: bv32, s: bv32, ac: bv32): bv32
    requires 0 < s < 32
  {
    Plus(RotateLeft(Plus(Plus(Plus(a, H(b, c, d)), x), ac), s), b)
  }

  function II(a: bv32, b: bv32, c: bv32, d: bv32, x: bv32, s: bv32, ac: bv32): bv32
    requires 0 < s < 32
  {
    Plus(RotateLeft(Plus(Plus(Plus(a, I(b, c, d)), x), ac), s), b)
  }

  // ---------------------------------------------------------------- the four rounds

  function Round1(st: State, x: seq<bv32>): State
    requires |x| == 16
  {
    var a1 := FF(st.a, st.b, st.c, st.d, x[0], 7, 0xd76aa478);
    var d1 := FF(st.d, a1, st.b, st.c, x[1], 12, 0xe8c7b756);
    var c1 := FF(st.c, d1, a1, st.b, x[2], 17, 0x242070db);
    var b1 := FF(st.b, c1, d1, a1, x[3], 22, 0xc1bdceee);
    var a2 := FF(a1, b1, c1, d1, x[4], 7, 0xf57c0faf);
    var d2 := FF(d1, a2, b1, c1, x[5], 12, 0x4787c62a);
    var c2 := FF(c1, d2, a2, b1, x[6], 17, 0xa8304613);
    var b2 := FF(b1, c2, d2, a2, x[7], 22, 0xfd469501);
    var a3 := FF(a2, b2, c2, d2, x[8], 7, 0x698098d8);
    var d3 := FF(d2, a3, b2, c2, x[9], 12, 0x8b44f7af);
    var c3 := FF(c2, d3, a3, b2, x[10], 17, 0xffff5bb1);
    var b3 := FF(b2, c3, d3, a3, x[11], 22, 0x895cd7be);
    var a4 := FF(a3, b3, c3, d3, x[12], 7, 0x6b901122);
    var d4 := FF(d3, a4, b3, c3, x[13], 12, 0xfd987193);
    var c4 := FF(c3, d4, a4, b3, x[14], 17, 0xa679438e);
    var b4 := FF(b3, c4, d4, a4, x[15], 22, 0x49b40821);
    State(a4, b4, c4, d4)
  }

  function Round2(st: State, x: seq<bv32>): State
    requires |x| == 16
  {
    var a1 := GG(st.a, st.b, st.c, st.d, x[1], 5, 0xf61e2562);
    var d1 := GG(st.d, a1, st.b, st.c, x[6], 9, 0xc040b340);
    var c1 := GG(st.c, d1, a1, st.b, x[11], 14, 0x265e5a51);
    var b1 := GG(st.b, c1, d1, a1, x[0], 20, 0xe9b6c7aa);
    var a2 := GG(a1, b1, c1, d1, x[5], 5, 0xd62f105d);
    var d2 := GG(d1, a2, b1, c1, x[10], 9, 0x2441453);
    var c2 := GG(c1, d2, a2, b1, x[15], 14, 0xd8a1e681);
    var b2 := GG(b1, c2, d2, a2, x[4], 20, 0xe7d3fbc8);
    var a3 := GG(a2, b2, c2, d2, x[9], 5, 0x21e1cde6);
    var d3 := GG(d2, a3, b2, c2, x[14], 9, 0xc33707d6);
    var c3 := GG(c2, d3, a3, b2, x[3], 14, 0xf4d50d87);
    var b3 := GG(b2, c3, d3, a3, x[8], 20, 0x455a14ed);
    var a4 := GG(a3, b3, c3, d3, x[13], 5, 0xa9e3e905);
    var d4 := GG(d3, a4, b3, c3, x[2], 9, 0xfcefa3f8);
    var c4 := GG(c3, d4, a4, b3, x[7], 14, 0x676f02d9);
    var b4 := GG(b3, c4, d4, a4, x[12], 20, 0x8d2a4c8a);
    State(a4, b4, c4, d4)
  }

  function Round3(st: State, x: seq<bv32>): State
    requires |x| == 16
  {
    var a1 := HH(st.a, st.b, st.c, st.d, x[5], 4, 0xfffa3942);
    var d1 := HH(st.d, a1, st.b, st.c, x[8], 11, 0x8771f681);
    var c1 := HH(st.c, d1, a1, st.b, x[11], 16, 0x6d9d6122);
    var b1 := HH(st.b, c1, d1, a1, x[14], 23, 0xfde5380c);
    var a2 := HH(a1, b1, c1, d1, x[1], 4, 0xa4beea44);
    var d2 := HH(d1, a2, b1, c1, x[4], 11, 0x4bdecfa9);
    var c2 := HH(c1, d2, a2, b1, x[7], 16, 0xf6bb4b60);
    var b2 := HH(b1, c2, d2, a2, x[10], 23, 0xbebfbc70);
    var a3 := HH(a2, b2, c2, d2, x[13], 4, 0x289b7ec6);
    var d3 := HH(d2, a3, b2, c2, x[0], 11, 0xeaa127fa);
    var c3 := HH(c2, d3, a3, b2, x[3], 16, 0xd4ef3085);
    var b3 := HH(b2, c3, d3, a3, x[6], 23, 0x4881d05);
    var a4 := HH(a3, b3, c3, d3, x[9], 4, 0xd9d4d039);
    var d4 := HH(d3, a4, b3, c3, x[12], 11, 0xe6db99e5);
    var c4 := HH(c3, d4, a4, b3, x[15], 16, 0x1fa27cf8);
    var b4 := HH(b3, c4, d4, a4, x[2], 23, 0xc4ac5665);
    State(a4, b4, c4, d4)
  }

  function Round4(st: State, x: seq<bv32>): State
    requires |x| == 16
  {
    var a1 := II(st.a, st.b, st.c, st.d, x[0], 6, 0xf4292244);
    var d1 := II(st.d, a1, st.b, st.c, x[7], 10, 0x432aff97);
    var c1 := II(st.c, d1, a1, st.b, x[14], 15, 0xab9423a7);
    var b1 := II(st.b, c1, d1, a1, x[5], 21, 0xfc93a039);
    var a2 := II(a1, b1, c1, d1, x[12], 6, 0x655b59c3);
    var d2 := II(d1, a2, b1, c1, x[3], 10, 0x8f0ccc92);
    var c2 := II(c1, d2, a2, b1, x[10], 15, 0xffeff47d);
    var b2 := II(b1, c2, d2, a2, x[1], 21, 0x85845dd1);
    var a3 := II(a2, b2, c2, d2, x[8], 6, 0x6fa87e4f);
    var d3 := II(d2, a3, b2, c2, x[15], 10, 0xfe2ce6e0);
    var c3 := II(c2, d3, a3, b2, x[6], 15, 0xa3014314);
    var b3 := II(b2, c3, d3, a3, x[13], 21, 0x4e0811a1);
    var a4 := II(a3, b3, c3, d3, x[4], 6, 0xf7537e82);
    var d4 := II(d3, a4, b3, c3, x[11], 10, 0xbd3af235);
    var c4 := II(c3, d4, a4, b3, x[2], 15, 0x2ad7d2bb);
    var b4 := II(b3, c4, d4, a4, x[9], 21, 0xeb86d391);
    State(a4, b4, c4, d4)
  }

  // ---------------------------------------------------------------- a block, a message

  function Join32(x: bv32, y: bv32, z: bv32, w: bv32): bv32 {
    x | y | z | w
  }

  function DecodeWord(a: bv8, b: bv8, c: bv8, d: bv8): bv32 {
    Join32(a as bv32, (b as bv32) << 8, (c as bv32) << 16, (d as bv32) << 24)
  }

  function Decode(block: seq<bv8>): (x: seq<bv32>)
    requires |block| == 64
    ensures |x| == 16
  {
    seq(16, i requires 0 <= i < 16 =>
      DecodeWord(block[4 * i], block[4 * i + 1], block[4 * i + 2], block[4 * i + 3]))
  }

  function Rounds(st: State, x: seq<bv32>): State
    requires |x| == 16
  {
    Round4(Round3(Round2(Round1(st, x), x), x), x)
  }

  function Add(s: State, t: State): State {
    State(Plus(s.a, t.a), Plus(s.b, t.b), Plus(s.c, t.c), Plus(s.d, t.d))
  }

  function Compress(st: State, block: seq<bv8>): State
    requires |block| == 64
  {
    Add(st, Rounds(st, Decode(block)))
  }

  /** Compression as a total function of a state and any octets, to be folded over blocks. */
  function Compression(st: State, block: seq<bv8>): State {
    if |block| == 64 then Compress(st, block) else st
  }

  /** The state after all complete 64-octet blocks of `m`. */
  function Absorb(st: State, m: seq<bv8>): State {
    Fold(Compression, st, m)
  }

  // ---------------------------------------------------------------- padding and output

  function Zeros(n: nat): (r: seq<bv8>)
    ensures |r| == n
  {
    seq(n, _ => 0)
  }

  /** The one octet 0x80 and the zeros that bring a message of `n` octets to 56 modulo 64. */
  function Fill(n: nat): (r: seq<bv8>)
    ensures |r| == (if n % 64 < 56 then 56 - n % 64 else 120 - n % 64)
  {
    [0x80] + Zeros((if n % 64 < 56 then 56 - n % 64 else 120 - n % 64) - 1)
  }

  /** A counter word as four octets, low-order octet first. */
  function WordOctets(n: u32): (r: seq<bv8>)
    ensures |r| == 4
  {
    EncodeWord(n as bv32)
  }

  /** The bit count of `n` octets, low-order word first. */
  function BitCount(n: nat): (r: seq<bv8>)
    ensures |r| == 8
  {
    WordOctets((8 * n) % WORD_MOD) + WordOctets((8 * n) / WORD_MOD % WORD_MOD)
  }

  function Padded(m: seq<bv8>): seq<bv8> {
    m + Fill(|m|) + BitCount(|m|)
  }

  function EncodeWord(w: bv32): (r: seq<bv8>)
    ensures |r| == 4
  {
    [(w & 0xff) as bv8, ((w >> 8) & 0xff) as bv8, ((w >> 16) & 0xff) as bv8, ((w >> 24) & 0xff) as bv8]
  }

  function Encode(st: State): (r: seq<bv8>)
    ensures |r| == 16
  {
    EncodeWord(st.a) + EncodeWord(st.b) + EncodeWord(st.c) + EncodeWord(st.d)
  }

  function Digest(m: seq<bv8>): seq<bv8> {
    Encode(Absorb(InitState(), Padded(m)))
  }

  lemma FillCompletes(n: nat)
    ensures (n + |Fill(n)| + 8) % 64 == 0
  {
  }
}
