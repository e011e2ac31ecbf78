/** Octets and machine words as bounded integers, and the bitwise exclusive or on them. */
module Octets {
  type u8 = x: int | 0 <= x < 0x100
  type u16 = x: int | 0 <= x < 0x1_0000
  type u32 = x: int | 0 <= x < 0x1_0000_0000

  const SEQ_MOD := 0x1_0000
  const ROC_MOD := 0x1_0000_0000
  const INDEX_MOD := 0x1_0000_0000_0000
  const COUNT_MOD := 0x1_0000_0000

  /** The octet that holds the low eight bits of `n`. */
  function Octet(n: int): u8 {
    n % 256
  }

  // ---------------------------------------------------------------- exclusive or

  /** Bitwise exclusive or of two unsigned numbers of any width. */
  function Xor(a: nat, b: nat): nat
    decreases a + b
  {
    if a == 0 && b == 0 then 0
    else 2 * Xor(a / 2, b / 2) + (if a % 2 != b % 2 then 1 else 0)
  }

  lemma {:induction false} XorCancels(a: nat, k: nat)
    ensures Xor(Xor(a, k), k) == a
    decreases a + k
  {
    if a + k > 0 {
      XorCancels(a / 2, k / 2);
      var x := Xor(a, k);
      assert x / 2 == Xor(a / 2, k / 2) && x % 2 == (if a % 2 != k % 2 then 1 else 0);
    }
  }

  lemma XorInjective(a: nat, b: nat, k: nat)
    requires Xor(a, k) == Xor(b, k)
    ensures a == b
  {
  }

  function Pow2(w: nat): nat {
    if w == 0 then 1 else 2 * Pow2(w - 1)
  }

  lemma {:induction false} XorWidth(a: nat, b: nat, w: nat)
    requires a < Pow2(w) && b < Pow2(w)
    ensures Xor(a, b) < Pow2(w)
  {
    if w > 0 {
      XorWidth(a / 2, b / 2, w - 1);
    }
  }

  function XorOctet(a: u8, b: u8): u8 {
    assert Pow2(8) == 256;
    XorWidth(a, b, 8);
    Xor(a, b)
  }

  /** Exclusive or of `data` with the octets `key(from)`, `key(from + 1)`, ... */
  function XorWith(data: seq<u8>, key: nat -> u8, from: nat): (r: seq<u8>)
    ensures |r| == |data|
  {
    seq(|data|, i requires 0 <= i < |data| => XorOctet(data[i], key(from + i)))
  }

  lemma XorWithTwice(data: seq<u8>, key: nat -> u8, from: nat)
    ensures XorWith(XorWith(data, key, from), key, from) == data
  {
    forall i | 0 <= i < |data|
      ensures XorWith(XorWith(data, key, from), key, from)[i] == data[i]
    {
      XorCancels(data[i], key(from + i));
    }
  }

  // ---------------------------------------------------------------- fields in network order

  function Be16(hi: u8, lo: u8): u16 {
    256 * hi + lo
  }

  function Be32(a: u8, b: u8, c: u8, d: u8): u32 {
    65536 * Be16(a, b) + Be16(c, d)
  }

  function Octets32(n: nat): (r: seq<u8>)
    ensures |r| == 4
  {
    [Octet(n / 0x100_0000), Octet(n / 0x1_0000), Octet(n / 0x100), Octet(n)]
  }

  function Octets64(n: nat): (r: seq<u8>)
    ensures |r| == 8
  {
    Octets32(n / ROC_MOD) + Octets32(n % ROC_MOD)
  }

  function Number32(o: seq<u8>): u32
    requires |o| == 4
  {
    Be32(o[0], o[1], o[2], o[3])
  }

  lemma ReadBack32(n: u32)
    ensures Number32(Octets32(n)) == n
  {
    var a, b, c := n / 0x100_0000, n / 0x1_0000, n / 0x100;
    assert n == 0x100 * c + n % 0x100;
    assert c == 0x100 * b + c % 0x100;
    assert b == 0x100 * a + b % 0x100;
    assert a % 0x100 == a;
  }
}
