/**
 * The MD5 accumulator of ccRTP on 64-bit words. Only the low 32 bits of a word ever reach the digest, and
 * no operation lets the high bits flow down into them.
 */
module CcMd5 {
  import opened Octets
  import opened BlockFold
  import opened Md5Spec

  // ---------------------------------------------------------------- one operation on 64-bit words

  function Low(x: bv64): bv32 {
    (x & 0xffff_ffff) as bv32
  }

  /** Addition modulo 2^64. */
  function Plus64(x: bv64, y: bv64): bv64 { x + y }

  function RotateLeft64(x: bv64, n: bv64): bv64
    requires 0 < n < 32
  {
    (x << n) | ((x & 0xffff_ffff) >> (32 - n))
  }

  function F64(x: bv64, y: bv64, z: bv64): bv64 { (x & y) | (!x & z) }

  function G64(x: bv64, y: bv64, z: bv64): bv64 { (x & z) | (y & !z) }

  function H64(x: bv64, y: bv64, z: bv64): bv64 { x ^ y ^ z }

  function I64(x: bv64, y: bv64, z: bv64): bv64 { y ^ (x | !z) }

  lemma MaskedSum(x: bv64, y: bv64)
    ensures ((x + y) & 0xffff_ffff) as bv32 == ((x & 0xffff_ffff) as bv32) + ((y & 0xffff_ffff) as bv32)
  {
  }

  lemma LowOfSum(x: bv64, y: bv64)
    ensures Low(Plus64(x, y)) == Plus(Low(x), Low(y))
  {
    calc {
      Low(Plus64(x, y));
      ((x + y) & 0xffff_ffff) as bv32;
      { MaskedSum(x, y); }
      ((x & 0xffff_ffff) as bv32) + ((y & 0xffff_ffff) as bv32);
      Plus((x & 0xffff_ffff) as bv32, (y & 0xffff_ffff) as bv32);
      Plus(Low(x), (y & 0xffff_ffff) as bv32);
      Plus(Low(x), Low(y));
    }
  }

  lemma MaskedRotation(x: bv64, n: bv32)
    requires 0 < n < 32
    ensures (((x << (n as bv64)) | ((x & 0xffff_ffff) >> (32 - (n as bv64)))) & 0xffff_ffff) as bv32
            == (((x & 0xffff_ffff) as bv32) << n) | (((x & 0xffff_ffff) as bv32) >> (32 - n))
  {
  }

  lemma LowOfRotation(x: bv64, n: bv32)
    requires 0 < n < 32
    ensures Low(RotateLeft64(x, n as bv64)) == RotateLeft(Low(x), n)
  {
    calc {
      Low(RotateLeft64(x, n as bv64));
      (((x << (n as bv64)) | ((x & 0xffff_ffff) >> (32 - (n as bv64)))) & 0xffff_ffff) as bv32;
      { MaskedRotation(x, n); }
      RotateLeft((x & 0xffff_ffff) as bv32, n);
      RotateLeft(Low(x), n);
    }
  }

  lemma LowOfF(x: bv64, y: bv64, z: bv64)
    ensures Low(F64(x, y, z)) == F(Low(x), Low(y), Low(z))
  {
  }

  lemma LowOfG(x: bv64, y: bv64, z: bv64)
    ensures Low(G64(x, y, z)) == G(Low(x), Low(y), Low(z))
  {
  }

  lemma LowOfH(x: bv64, y: bv64, z: bv64)
    ensures Low(H64(x, y, z)) == H(Low(x), Low(y), Low(z))
  {
  }

  lemma LowOfI(x: bv64, y: bv64, z: bv64)
    ensures Low(I64(x, y, z)) == I(Low(x), Low(y), Low(z))
  {
  }

  lemma SumsAgree(a: bv32, f: bv32, x: bv32, ac: bv32)
    ensures a + ((f + x) + ac) == ((a + f) + x) + ac
  {
  }

  lemma Reassociate(a: bv32, f: bv32, x: bv32, ac: bv32)
    ensures Plus(a, Plus(Plus(f, x), ac)) == Plus(Plus(Plus(a, f), x), ac)
  {
    calc {
      Plus(a, Plus(Plus(f, x), ac));
      a + Plus(Plus(f, x), ac);
      a + (Plus(f, x) + ac);
      a + ((f + x) + ac);
      { SumsAgree(a, f, x, ac); }
      ((a + f) + x) + ac;
      Plus(a + f, x) + ac;
      Plus(Plus(a, f), x) + ac;
      Plus(Plus(Plus(a, f), x), ac);
    }
  }

  /** What the four operations have in common: `f` stands for the value of the bitwise function. */
  function Mix64(a: bv64, f: bv64, x: bv64, s: bv32, ac: bv64, b: bv64): bv64
    requires 0 < s < 32
  {
    Plus64(RotateLeft64(Plus64(a, Plus64(Plus64(f, x), ac)), s as bv64), b)
  }

  /** Adding up, rotating and adding commute with taking the low words, whatever the high bits hold. */
  lemma LowOfMix(a: bv64, f: bv64, x: bv64, s: bv32, ac: bv64, b: bv64)
    requires 0 < s < 32
    ensures Low(Mix64(a, f, x, s, ac, b))
            == Plus(RotateLeft(Plus(Plus(Plus(Low(a), Low(f)), Low(x)), Low(ac)), s), Low(b))
  {
    hide Low, Plus, Plus64, RotateLeft, RotateLeft64;
    var sum := Plus64(a, Plus64(Plus64(f, x), ac));
    LowOfSum(RotateLeft64(sum, s as bv64), b);
    LowOfRotation(sum, s);
    LowOfSum(a, Plus64(Plus64(f, x), ac));
    LowOfSum(Plus64(f, x), ac);
    LowOfSum(f, x);
    Reassociate(Low(a), Low(f), Low(x), Low(ac));
  }

  method FF64(a: bv64, b: bv64, c: bv64, d: bv64, x: bv64, s: bv32, ac: bv64) returns (r: bv64)
    requires 0 < s < 32
    ensures Low(r) == FF(Low(a), Low(b), Low(c), Low(d), Low(x), s, Low(ac))
  {
    hide Low, Plus, Plus64, RotateLeft, RotateLeft64, F, F64;
    r := Plus64(a, Plus64(Plus64(F64(b, c, d), x), ac));
    r := Plus64(RotateLeft64(r, s as bv64), b);
    LowOfF(b, c, d);
    LowOfMix(a, F64(b, c, d), x, s, ac, b);
  }

  method GG64(a: bv64, b: bv64, c: bv64, d: bv64, x: bv64, s: bv32, ac: bv64) returns (r: bv64)
    requires 0 < s < 32
    ensures Low(r) == GG(Low(a), Low(b), Low(c), Low(d), Low(x), s, Low(ac))
  {
    hide Low, Plus, Plus64, RotateLeft, RotateLeft64, G, G64;
    r := Plus64(a, Plus64(Plus64(G64(b, c, d), x), ac));
    r := Plus64(RotateLeft64(r, s as bv64), b);
    LowOfG(b, c, d);
    LowOfMix(a, G64(b, c, d), x, s, ac, b);
  }

  method HH64(a: bv64, b: bv64, c: bv64, d: bv64, x: bv64, s: bv32, ac: bv64) returns (r: bv64)
    requires 0 < s < 32
    ensures Low(r) == HH(Low(a), Low(b), Low(c), Low(d), Low(x), s, Low(ac))
  {
    hide Low, Plus, Plus64, RotateLeft, RotateLeft64, H, H64;
    r := Plus64(a, Plus64(Plus64(H64(b, c, d), x), ac));
    r := Plus64(RotateLeft64(r, s as bv64), b);
    LowOfH(b, c, d);
    LowOfMix(a, H64(b, c, d), x, s, ac, b);
  }

  method II64(a: bv64, b: bv64, c: bv64, d: bv64, x: bv64, s: bv32, ac: bv64) returns (r: bv64)
    requires 0 < s < 32
    ensures Low(r) == II(Low(a), Low(b), Low(c), Low(d), Low(x), s, Low(ac))
  {
    hide Low, Plus, Plus64, RotateLeft, RotateLeft64, I, I64;
    r := Plus64(a, Plus64(Plus64(I64(b, c, d), x), ac));
    r := Plus64(RotateLeft64(r, s as bv64), b);
    LowOfI(b, c, d);
    LowOfMix(a, I64(b, c, d), x, s, ac, b);
  }

  // ---------------------------------------------------------------- the four rounds

  datatype Words = Words(a: bv64, b: bv64, c: bv64, d: bv64)

  function LowState(w: Words): State {
    State(Low(w.a), Low(w.b), Low(w.c), Low(w.d))
  }

  /** 64-bit words whose low halves are the words of a block. */
  ghost predicate Carries(x: seq<bv64>, y: seq<bv32>) {
    |x| == |y| == 16 && forall i :: 0 <= i < 16 ==> Low(x[i]) == y[i]
  }

  method FirstRound(a0: bv64, b0: bv64, c0: bv64, d0: bv64, x: seq<bv64>, ghost y: seq<bv32>)
    returns (a: bv64, b: bv64, c: bv64, d: bv64)
    requires Carries(x, y)
    ensures LowState(Words(a, b, c, d)) == Round1(LowState(Words(a0, b0, c0, d0)), y)
  {
    a, b, c, d := a0, b0, c0, d0;
    a := FF64(a, b, c, d, x[0], 7, 0xd76aa478);
    d := FF64(d, a, b, c, x[1], 12, 0xe8c7b756);
    c := FF64(c, d, a, b, x[2], 17, 0x242070db);
    b := FF64(b, c, d, a, x[3], 22, 0xc1bdceee);
    a := FF64(a, b, c, d, x[4], 7, 0xf57c0faf);
    d := FF64(d, a, b, c, x[5], 12, 0x4787c62a);
    c := FF64(c, d, a, b, x[6], 17, 0xa8304613);
    b := FF64(b, c, d, a, x[7], 22, 0xfd469501);
    a := FF64(a, b, c, d, x[8], 7, 0x698098d8);
    d := FF64(d, a, b, c, x[9], 12, 0x8b44f7af);
    c := FF64(c, d, a, b, x[10], 17, 0xffff5bb1);
    b := FF64(b, c, d, a, x[11], 22, 0x895cd7be);
    a := FF64(a, b, c, d, x[12], 7, 0x6b901122);
    d := FF64(d, a, b, c, x[13], 12, 0xfd987193);
    c := FF64(c, d, a, b, x[14], 17, 0xa679438e);
    b := FF64(b, c, d, a, x[15], 22, 0x49b40821);
  }

  method SecondRound(a0: bv64, b0: bv64, c0: bv64, d0: bv64, x: seq<bv64>, ghost y: seq<bv32>)
    returns (a: bv64, b: bv64, c: bv64, d: bv64)
    requires Carries(x, y)
    ensures LowState(Words(a, b, c, d)) == Round2(LowState(Words(a0, b0, c0, d0)), y)
  {
    a, b, c, d := a0, b0, c0, d0;
    a := GG64(a, b, c, d, x[1], 5, 0xf61e2562);
    d := GG64(d, a, b, c, x[6], 9, 0xc040b340);
    c := GG64(c, d, a, b, x[11], 14, 0x265e5a51);
    b := GG64(b, c, d, a, x[0], 20, 0xe9b6c7aa);
    a := GG64(a, b, c, d, x[5], 5, 0xd62f105d);
    d := GG64(d, a, b, c, x[10], 9, 0x2441453);
    c := GG64(c, d, a, b, x[15], 14, 0xd8a1e681);
    b := GG64(b, c, d, a, x[4], 20, 0xe7d3fbc8);
    a := GG64(a, b, c, d, x[9], 5, 0x21e1cde6);
    d := GG64(d, a, b, c, x[14], 9, 0xc33707d6);
    c := GG64(c, d, a, b, x[3], 14, 0xf4d50d87);
    b := GG64(b, c, d, a, x[8], 20, 0x455a14ed);
    a := GG64(a, b, c, d, x[13], 5, 0xa9e3e905);
    d := GG64(d, a, b, c, x[2], 9, 0xfcefa3f8);
    c := GG64(c, d, a, b, x[7], 14, 0x676f02d9);
    b := GG64(b, c, d, a, x[12], 20, 0x8d2a4c8a);
  }

  method ThirdRound(a0: bv64, b0: bv64, c0: bv64, d0: bv64, x: seq<bv64>, ghost y: seq<bv32>)
    returns (a: bv64, b: bv64, c: bv64, d: bv64)
    requires Carries(x, y)
    ensures LowState(Words(a, b, c, d)) == Round3(LowState(Words(a0, b0, c0, d0)), y)
  {
    a, b, c, d := a0, b0, c0, d0;
    a := HH64(a, b, c, d, x[5], 4, 0xfffa3942);
    d := HH64(d, a, b, c, x[8], 11, 0x8771f681);
    c := HH64(c, d, a, b, x[11], 16, 0x6d9d6122);
    b := HH64(b, c, d, a, x[14], 23, 0xfde5380c);
    a := HH64(a, b, c, d, x[1], 4, 0xa4beea44);
    d := HH64(d, a, b, c, x[4], 11, 0x4bdecfa9);
    c := HH64(c, d, a, b, x[7], 16, 0xf6bb4b60);
    b := HH64(b, c, d, a, x[10], 23, 0xbebfbc70);
    a := HH64(a, b, c, d, x[13], 4, 0x289b7ec6);
    d := HH64(d, a, b, c, x[0], 11, 0xeaa127fa);
    c := HH64(c, d, a, b, x[3], 16, 0xd4ef3085);
    b := HH64(b, c, d, a, x[6], 23, 0x4881d05);
    a := HH64(a, b, c, d, x[9], 4, 0xd9d4d039);
    d := HH64(d, a, b, c, x[12], 11, 0xe6db99e5);
    c := HH64(c, d, a, b, x[15], 16, 0x1fa27cf8);
    b := HH64(b, c, d, a, x[2], 23, 0xc4ac5665);
  }

  method FourthRound(a0: bv64, b0: bv64, c0: bv64, d0: bv64, x: seq<bv64>, ghost y: seq<bv32>)
    returns (a: bv64, b: bv64, c: bv64, d: bv64)
    requires Carries(x, y)
    ensures LowState(Words(a, b, c, d)) == Round4(LowState(Words(a0, b0, c0, d0)), y)
  {
    a, b, c, d := a0, b0, c0, d0;
    a := II64(a, b, c, d, x[0], 6, 0xf4292244);
    d := II64(d, a, b, c, x[7], 10, 0x432aff97);
    c := II64(c, d, a, b, x[14], 15, 0xab9423a7);
    b := II64(b, c, d, a, x[5], 21, 0xfc93a039);
    a := II64(a, b, c, d, x[12], 6, 0x655b59c3);
    d := II64(d, a, b, c, x[3], 10, 0x8f0ccc92);
    c := II64(c, d, a, b, x[10], 15, 0xffeff47d);
    b := II64(b, c, d, a, x[1], 21, 0x85845dd1);
    a := II64(a, b, c, d, x[8], 6, 0x6fa87e4f);
    d := II64(d, a, b, c, x[15], 10, 0xfe2ce6e0);
    c := II64(c, d, a, b, x[6], 15, 0xa3014314);
    b := II64(b, c, d, a, x[13], 21, 0x4e0811a1);
    a := II64(a, b, c, d, x[4], 6, 0xf7537e82);
    d := II64(d, a, b, c, x[11], 10, 0xbd3af235);
    c := II64(c, d, a, b, x[2], 15, 0x2ad7d2bb);
    b := II64(b, c, d, a, x[9], 21, 0xeb86d391);
  }

  // ---------------------------------------------------------------- words of a block

  /** A 32-bit signed value converted to a 64-bit unsigned one. */
  function SignExtend(w: bv32): bv64 {
    if w & 0x8000_0000 == 0 then w as bv64 else (w as bv64) | 0xffff_ffff_0000_0000
  }

  /** Four octets assembled as the code does it: each octet is shifted as a signed 32-bit value. */
  function Word64(a: bv8, b: bv8, c: bv8, d: bv8): bv64 {
    Join64(a as bv64, SignExtend((b as bv32) << 8), SignExtend((c as bv32) << 16), SignExtend((d as bv32) << 24))
  }

  function Join64(x: bv64, y: bv64, z: bv64, w: bv64): bv64 {
    x | y | z | w
  }

  lemma MaskedOrs(x: bv64, y: bv64, z: bv64, w: bv64, p: bv32, q: bv32, r: bv32, s: bv32)
    requires (x & 0xffff_ffff) as bv32 == p && (y & 0xffff_ffff) as bv32 == q
    requires (z & 0xffff_ffff) as bv32 == r && (w & 0xffff_ffff) as bv32 == s
    ensures ((x | y | z | w) & 0xffff_ffff) as bv32 == p | q | r | s
  {
  }

  lemma LowOfOrs(x: bv64, y: bv64, z: bv64, w: bv64, p: bv32, q: bv32, r: bv32, s: bv32)
    requires Low(x) == p && Low(y) == q && Low(z) == r && Low(w) == s
    ensures Low(Join64(x, y, z, w)) == Join32(p, q, r, s)
  {
    calc {
      Low(Join64(x, y, z, w));
      ((x | y | z | w) & 0xffff_ffff) as bv32;
      { MaskedOrs(x, y, z, w, p, q, r, s); }
      p | q | r | s;
    }
  }

  lemma MaskedWide(w: bv32)
    ensures (w as bv64) & 0xffff_ffff == w as bv64
    ensures ((w as bv64) | 0xffff_ffff_0000_0000) & 0xffff_ffff == w as bv64
    ensures (w as bv64) as bv32 == w
  {
  }

  lemma LowOfSignExtend(w: bv32)
    ensures Low(SignExtend(w)) == w
  {
    if w & 0x8000_0000 == 0 {
      calc {
        Low(SignExtend(w));
        Low(w as bv64);
        ((w as bv64) & 0xffff_ffff) as bv32;
        { MaskedWide(w); }
        w;
      }
    } else {
      calc {
        Low(SignExtend(w));
        Low((w as bv64) | 0xffff_ffff_0000_0000);
        (((w as bv64) | 0xffff_ffff_0000_0000) & 0xffff_ffff) as bv32;
        { MaskedWide(w); }
        w;
      }
    }
  }

  lemma LowOfOctet(a: bv8)
    ensures Low(a as bv64) == a as bv32
  {
  }

  lemma LowOfWord64(a: bv8, b: bv8, c: bv8, d: bv8)
    ensures Low(Word64(a, b, c, d)) == DecodeWord(a, b, c, d)
  {
    hide Low, SignExtend, Join64, Join32;
    var p, q, r := (b as bv32) << 8, (c as bv32) << 16, (d as bv32) << 24;
    LowOfOctet(a);
    LowOfSignExtend(p);
    LowOfSignExtend(q);
    LowOfSignExtend(r);
    LowOfOrs(a as bv64, SignExtend(p), SignExtend(q), SignExtend(r), a as bv32, p, q, r);
  }

  method Words64(block: seq<bv8>) returns (x: seq<bv64>)
    requires |block| == 64
    ensures Carries(x, Decode(block))
  {
    x := [];
    for i := 0 to 16
      invariant |x| == i && forall j :: 0 <= j < i ==> Low(x[j]) == Decode(block)[j]
    {
      LowOfWord64(block[4 * i], block[4 * i + 1], block[4 * i + 2], block[4 * i + 3]);
      x := x + [Word64(block[4 * i], block[4 * i + 1], block[4 * i + 2], block[4 * i + 3])];
    }
  }

  method Compress64(w: Words, block: seq<bv8>) returns (w': Words)
    requires |block| == 64
    ensures LowState(w') == Compress(LowState(w), block)
  {
    hide Low, Plus, Plus64, Round1, Round2, Round3, Round4;
    var x := Words64(block);
    ghost var y := Decode(block);
    var a, b, c, d := FirstRound(w.a, w.b, w.c, w.d, x, y);
    a, b, c, d := SecondRound(a, b, c, d, x, y);
    a, b, c, d := ThirdRound(a, b, c, d, x, y);
    a, b, c, d := FourthRound(a, b, c, d, x, y);
    LowOfSum(w.a, a);
    LowOfSum(w.b, b);
    LowOfSum(w.c, c);
    LowOfSum(w.d, d);
    w' := Words(Plus64(w.a, a), Plus64(w.b, b), Plus64(w.c, c), Plus64(w.d, d));
  }

  // ---------------------------------------------------------------- counting

  const LONG_MOD := 0x1_0000_0000_0000_0000

  ghost predicate Counts(c0: nat, c1: nat, n: nat) {
    c0 < LONG_MOD && c1 < LONG_MOD && c0 + LONG_MOD * c1 == (8 * n) % (LONG_MOD * LONG_MOD)
  }

  lemma LongCarryTest(c0: nat, d: nat)
    requires c0 < LONG_MOD && d < LONG_MOD
    ensures (c0 + d) / LONG_MOD == (if (c0 + d) % LONG_MOD < d then 1 else 0)
  {
  }

  /** One addition of the code, with the carry into the second word. */
  lemma CountStep(c0: nat, c1: nat, n: nat, k: nat)
    requires Counts(c0, c1, n) && 8 * k < LONG_MOD
    ensures var c0' := (c0 + 8 * k) % LONG_MOD;
            Counts(c0', if c0' < 8 * k then (c1 + 1) % LONG_MOD else c1, n + k)
  {
    var q := (8 * n) / (LONG_MOD * LONG_MOD);
    LongCarryTest(c0, 8 * k);
    var c0', carry := (c0 + 8 * k) % LONG_MOD, (c0 + 8 * k) / LONG_MOD;
    WordsOf(c0, c1, n, q);
    LongHighWord(q, c1 + carry, c0', 8 * (n + k));
  }

  lemma LongHighWord(q: nat, h: nat, lo: nat, x: nat)
    requires h <= LONG_MOD && lo < LONG_MOD && x == q * (LONG_MOD * LONG_MOD) + h * LONG_MOD + lo
    ensures x % (LONG_MOD * LONG_MOD) == (h % LONG_MOD) * LONG_MOD + lo
  {
  }

  lemma CountWords(c0: nat, c1: nat, n: nat)
    requires Counts(c0, c1, n)
    ensures c0 % WORD_MOD == (8 * n) % WORD_MOD
    ensures c1 % WORD_MOD == (8 * n) / LONG_MOD % WORD_MOD
  {
    var q := (8 * n) / (LONG_MOD * LONG_MOD);
    var a := q * LONG_MOD + c1;
    WordsOf(c0, c1, n, q);
    LongQuotient(8 * n, a, c0);
    SameLowWord(q * WORD_MOD, c1);
  }

  lemma LongQuotient(x: nat, a: nat, r: nat)
    requires r < LONG_MOD && x == a * LONG_MOD + r
    ensures x / LONG_MOD == a && x % WORD_MOD == r % WORD_MOD
  {
  }

  lemma SameLowWord(k: nat, r: nat)
    ensures (k * WORD_MOD + r) % WORD_MOD == r % WORD_MOD
  {
  }

  lemma CountIndex(c0: nat, c1: nat, n: nat)
    requires Counts(c0, c1, n)
    ensures c0 / 8 % 64 == n % 64
  {
    var q := (8 * n) / (LONG_MOD * LONG_MOD);
    var a := q * LONG_MOD + c1;
    WordsOf(c0, c1, n, q);
    EighthsOf(n, a, c0);
    SixtyFourths(a * 0x80_0000_0000_0000, c0 / 8);
  }

  lemma WordsOf(c0: nat, c1: nat, n: nat, q: nat)
    requires Counts(c0, c1, n) && q == (8 * n) / (LONG_MOD * LONG_MOD)
    ensures 8 * n == (q * LONG_MOD + c1) * LONG_MOD + c0
  {
  }

  lemma EighthsOf(n: nat, a: nat, r: nat)
    requires 8 * n == a * LONG_MOD + r
    ensures n == (a * 0x80_0000_0000_0000) * 64 + r / 8
  {
    assert r == 8 * (n - a * 0x2000_0000_0000_0000);
  }

  lemma SixtyFourths(k: nat, y: nat)
    ensures (k * 64 + y) % 64 == y % 64
  {
  }

  // ---------------------------------------------------------------- the object

  /** The eight octets this implementation appends: the low 32 bits of each of its two counter words. */
  function CcBitCount(n: nat): (r: seq<bv8>)
    ensures |r| == 8
  {
    WordOctets((8 * n) % WORD_MOD) + WordOctets((8 * n) / LONG_MOD % WORD_MOD)
  }

  function CcPadded(m: seq<bv8>): seq<bv8> {
    m + Fill(|m|) + CcBitCount(|m|)
  }

  function CcDigest(m: seq<bv8>): seq<bv8> {
    Encode(Absorb(InitState(), CcPadded(m)))
  }

  class MD5Digest {
    var state: Words
    var count0: nat
    var count1: nat
    const buf: array<bv8>
    var bpos: nat
    /** Offset of the stream's put pointer in `buf`. */
    var pptr: nat
    var md5: seq<bv8>
    var updated: bool

    ghost var message: seq<bv8>
    ghost var fed: seq<bv8>
    /** The counter words still count the octets given to the rounds; ends when commit adds the rest. */
    ghost var counting: bool

    ghost predicate Valid()
      reads this, buf
    {
      && buf.Length == 64
      && updated
      && pptr == |message| % 64
      && Filled(pptr)
    }

    /** The invariant inside a call, with `n` octets in the buffer. */
    ghost predicate Filled(n: nat)
      reads this, buf
      requires buf.Length == 64
    {
      && n <= 64
      && (counting ==> Counts(count0, count1, |fed|))
      && |fed| % 64 == 0
      && LowState(state) == Absorb(InitState(), fed)
      && message == fed + buf[..n]
    }

    constructor ()
      ensures Valid() && counting && fresh(buf) && message == []
    {
      buf := new bv8[64];
      state := Words(0x67452301, 0xefcdab89, 0x98badcfe, 0x10325476);
      count0, count1, bpos, pptr, updated := 0, 0, 0, 0, true;
      md5 := [];
      message, fed, counting := [], [], true;
      new;
      assert LowState(state) == InitState();
    }

    method InitDigest()
      requires buf.Length == 64
      modifies this
      ensures Valid() && counting && message == [] && md5 == old(md5)
    {
      count0, count1 := 0, 0;
      state := Words(0x67452301, 0xefcdab89, 0x98badcfe, 0x10325476);
      assert LowState(state) == InitState();
      bpos, updated, pptr := 0, true, 0;
      message, fed, counting := [], [], true;
    }

    method CountBlock()
      modifies this`count0, this`count1
      ensures counting && old(Counts(count0, count1, |fed|)) ==> Counts(count0, count1, |fed| + 64)
    {
      if counting && Counts(count0, count1, |fed|) {
        CountStep(count0, count1, |fed|, 64);
      }
      count0 := (count0 + 512) % LONG_MOD;
      if count0 < 512 {
        count1 := (count1 + 1) % LONG_MOD;
      }
    }

    method RunBuffer()
      requires buf.Length == 64 && |fed| % 64 == 0 && LowState(state) == Absorb(InitState(), fed)
      modifies this`state, this`fed
      ensures fed == old(fed) + buf[..] && LowState(state) == Absorb(InitState(), fed)
    {
      hide Compress, LowState;
      FoldBlock(Compression, InitState(), fed, buf[..]);
      state := Compress64(state, buf[..]);
      fed := fed + buf[..];
    }

    /** Fills the buffer up with zeros. */
    method FillUp()
      requires buf.Length == 64 && bpos <= 64
      modifies this`bpos, buf
      ensures bpos == 64 && buf[..64] == old(buf[..bpos]) + Zeros(64 - old(bpos))
    {
      while bpos < 64
        invariant old(bpos) <= bpos <= 64 && buf[..bpos] == old(buf[..bpos]) + Zeros(bpos - old(bpos))
      {
        buf[bpos] := 0;
        bpos := bpos + 1;
        assert buf[..bpos] == buf[..bpos - 1] + [0];
      }
    }

    /** Runs the block in the buffer, if there is anything in it; a partial one is filled up with zeros first. */
    method Update()
      requires buf.Length == 64 && bpos <= 64 && Filled(bpos)
      modifies this`state, this`count0, this`count1, this`bpos, this`updated, this`fed, this`message, buf
      ensures bpos == 0 && Filled(0) && counting == old(counting) && updated == (old(updated) || old(bpos) > 0)
      ensures message == old(message) + Zeros(if old(bpos) == 0 then 0 else 64 - old(bpos))
    {
      hide Absorb, Counts, LowState;
      if bpos == 0 {
        assert message + Zeros(0) == message;
        return;
      }
      ghost var held := buf[..bpos];
      FillUp();
      message := message + Zeros(64 - old(bpos));
      assert buf[..] == buf[..64] == held + Zeros(64 - old(bpos));
      assert message == fed + buf[..];
      bpos := 0;
      CountBlock();
      RunBuffer();
      updated := true;
    }

    /** Puts one octet into the buffer, and runs the block if that is full. */
    method PutOctet(octet: bv8)
      requires buf.Length == 64 && bpos < 64 && updated && Filled(bpos)
      modifies this`state, this`count0, this`count1, this`bpos, this`updated, this`fed, this`message, buf
      ensures bpos < 64 && updated && Filled(bpos) && message == old(message) + [octet]
    {
      hide Absorb, Counts, LowState;
      buf[bpos] := octet;
      bpos := bpos + 1;
      message := message + [octet];
      assert buf[..bpos] == buf[..bpos - 1] + [octet];
      if bpos >= 64 {
        assert message + Zeros(0) == message;
        Update();
      }
    }

    method PutDigest(buffer: seq<bv8>)
      requires Valid()
      modifies this, buf
      ensures Valid() && message == old(message) + buffer && md5 == old(md5) && counting == old(counting)
    {
      hide Absorb, Counts, LowState;
      bpos := pptr;
      ghost var m := message;
      for i := 0 to |buffer|
        invariant bpos < 64 && updated && md5 == old(md5)
        invariant Filled(bpos) && message == m + buffer[..i] && counting == old(counting)
      {
        PutOctet(buffer[i]);
        assert buffer[..i + 1] == buffer[..i] + [buffer[i]];
      }
      pptr := bpos;
      FilledTo(pptr);
      assert buffer[..|buffer|] == buffer;
    }

    /** The rest in the buffer is what the blocks leave of the message. */
    lemma FilledTo(n: nat)
      requires buf.Length == 64 && n < 64 && Filled(n)
      ensures n == |message| % 64
    {
      hide Absorb, Counts, LowState;
      RestOfBlocks(|message|, |fed|);
    }

    /** Adds the octets still in the buffer to the counter words and returns the octets of the count. */
    method CountRest() returns (cbuf: seq<bv8>, i: nat)
      requires Valid() && counting
      modifies this`count0, this`count1, this`bpos, this`counting
      ensures Valid() && bpos == pptr && cbuf == CcBitCount(|message|) && i == |message| % 64
    {
      hide Absorb, LowState, Counts;
      bpos := pptr;
      CountStep(count0, count1, |fed|, bpos);
      counting := false;
      count0 := (count0 + 8 * bpos) % LONG_MOD;
      if count0 < 8 * bpos {
        count1 := (count1 + 1) % LONG_MOD;
      }
      CountWords(count0, count1, |message|);
      CountIndex(count0, count1, |message|);
      cbuf := WordOctets(count0 % WORD_MOD) + WordOctets(count1 % WORD_MOD);
      i := count0 / 8 % 64;
    }

    /** Ends the digest and starts a new one. */
    method Commit()
      requires Valid() && counting
      modifies this, buf
      ensures Valid() && counting && message == []
      ensures md5 == CcDigest(old(message))
    {
      hide Absorb, Counts, LowState, Encode;
      ghost var m := message;
      var cbuf, i := CountRest();
      var len := if i < 56 then 56 - i else 120 - i;
      var pad := [0x80] + Zeros(63);
      assert pad[..len] == Fill(|m|);
      PutDigest(pad[..len]);
      PutDigest(cbuf);
      FillCompletes(|m|);
      assert message == CcPadded(m) == fed;
      md5 := Encode(LowState(state));
      InitDigest();
    }
  }

  // ---------------------------------------------------------------- agreement with the 32-bit object

  lemma ZeroWord(w: bv32)
    requires EncodeWord(w) == EncodeWord(0)
    ensures w == 0
  {
  }

  lemma ZeroCount(n: u32)
    requires n as bv32 == 0
    ensures n == 0
  {
  }

  /** The high word of the bit count is zero exactly for short messages. */
  lemma HighWordOfCount(n: nat)
    requires n < 0x2000_0000_0000_0000
    ensures (8 * n) / LONG_MOD % WORD_MOD == 0
    ensures (8 * n) / WORD_MOD % WORD_MOD == 0 <==> n < 0x2000_0000
  {
  }

  /**
   * For messages whose length fits 61 bits, both implementations hash the same blocks exactly when the
   * message is shorter than 2^29 octets: the second counter word here only counts carries out of 64 bits.
   */
  lemma SameBlocksIffShort(m: seq<bv8>)
    requires |m| < 0x2000_0000_0000_0000
    ensures CcPadded(m) == Padded(m) <==> |m| < 0x2000_0000
  {
    hide EncodeWord;
    HighWordOfCount(|m|);
    var p, q := Padded(m), CcPadded(m);
    assert p[|m| + |Fill(|m|)|..] == BitCount(|m|) && q[|m| + |Fill(|m|)|..] == CcBitCount(|m|);
    assert BitCount(|m|)[4..] == WordOctets((8 * |m|) / WORD_MOD % WORD_MOD);
    assert CcBitCount(|m|)[4..] == WordOctets(0);
    if p == q {
      ZeroWord(((8 * |m|) / WORD_MOD % WORD_MOD) as bv32);
      ZeroCount((8 * |m|) / WORD_MOD % WORD_MOD);
    }
  }

  lemma SameDigestWhenShort(m: seq<bv8>)
    requires |m| < 0x2000_0000
    ensures CcDigest(m) == Digest(m)
  {
    hide Absorb, Encode;
    SameBlocksIffShort(m);
  }
}
