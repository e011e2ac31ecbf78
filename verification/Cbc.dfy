/**
 * Cipher block chaining of libSRTP, in place, with the padding that ends in 0xa0 and zeros. The block cipher
 * is any pair of inverse functions on blocks.
 */
module Cbc {
  import opened Octets
  import opened Wrappers

  const PAD_MARK: u8 := 0xa0

  type Block = b: seq<u8> | |b| == 16 witness seq(16, _ => 0)

  datatype BlockCipher = BlockCipher(enc: Block -> Block, dec: Block -> Block)

  ghost predicate Inverse(c: BlockCipher) {
    forall b: Block :: c.dec(c.enc(b)) == b
  }

  function XorBlock(a: Block, b: Block): (r: Block)
    ensures forall i :: 0 <= i < 16 ==> r[i] == XorOctet(a[i], b[i])
  {
    seq(16, i requires 0 <= i < 16 => XorOctet(a[i], b[i]))
  }

  lemma XorBlockTwice(a: Block, b: Block)
    ensures XorBlock(XorBlock(a, b), a) == b && XorBlock(a, b) == XorBlock(b, a)
  {
    forall i | 0 <= i < 16
      ensures XorBlock(XorBlock(a, b), a)[i] == b[i] && XorBlock(a, b)[i] == XorBlock(b, a)[i]
    {
      XorCommutes(a[i], b[i]);
      XorCancels(b[i], a[i]);
    }
  }

  lemma {:induction false} XorCommutes(a: nat, b: nat)
    ensures Xor(a, b) == Xor(b, a)
    decreases a + b
  {
    if a + b > 0 {
      XorCommutes(a / 2, b / 2);
    }
  }

  // ---------------------------------------------------------------- the mode

  type Blocks = d: seq<u8> | |d| % 16 == 0

  function CbcEncrypt(c: BlockCipher, iv: Block, d: Blocks): (r: Blocks)
    ensures |r| == |d|
    decreases |d|
  {
    if d == [] then []
    else
      var b := c.enc(XorBlock(iv, d[..16]));
      b + CbcEncrypt(c, b, d[16..])
  }

  function CbcDecrypt(c: BlockCipher, iv: Block, d: Blocks): (r: Blocks)
    ensures |r| == |d|
    decreases |d|
  {
    if d == [] then [] else XorBlock(c.dec(d[..16]), iv) + CbcDecrypt(c, d[..16], d[16..])
  }

  /** What the next block is chained to: the last block of the ciphertext, or the initialization vector. */
  function Chain(iv: Block, d: Blocks): (r: Block) {
    if d == [] then iv else d[|d| - 16..]
  }

  function BlockAt(d: Blocks, j: nat): Block
    requires 16 * j < |d|
  {
    d[16 * j..16 * j + 16]
  }

  /** Behind a first block every block stands one place later. */
  lemma BlockBehind(d: Blocks, j: nat)
    requires 0 < j && 16 * j < |d|
    ensures BlockAt(d[16..], j - 1) == BlockAt(d, j)
  {
    SliceBehind(d, 16 * j);
    assert 16 * (j - 1) == 16 * j - 16;
  }

  lemma SliceBehind(d: seq<u8>, i: nat)
    requires 16 <= i && i + 16 <= |d|
    ensures d[16..][i - 16..i] == d[i..i + 16]
  {
    var x, y, z := d[16..], d[16..][i - 16..i], d[i..i + 16];
    forall k | 0 <= k < 16
      ensures y[k] == z[k]
    {
      assert y[k] == x[i - 16 + k];
    }
  }

  /** Block `j` of the ciphertext is the encryption of block `j` chained to the ciphertext block before. */
  lemma {:induction false} EncryptBlockwise(c: BlockCipher, iv: Block, d: Blocks, j: nat)
    requires 16 * j < |d|
    ensures var e := CbcEncrypt(c, iv, d);
      BlockAt(e, j) == c.enc(XorBlock(if j == 0 then iv else BlockAt(e, j - 1), BlockAt(d, j)))
    decreases j
  {
    hide CbcEncrypt, XorBlock, BlockAt;
    FirstBlock(c, iv, d);
    var b := c.enc(XorBlock(iv, d[..16]));
    var e, rest := CbcEncrypt(c, iv, d), CbcEncrypt(c, b, d[16..]);
    FirstIs(d, d[..16]);
    FirstIs(e, b);
    assert e[16..] == rest;
    if j > 0 {
      EncryptBlockwise(c, b, d[16..], j - 1);
      BlockBehind(e, j);
      BlockBehind(d, j);
      if j > 1 {
        BlockBehind(e, j - 1);
      }
    }
  }

  lemma FirstIs(d: Blocks, b: Block)
    requires |d| >= 16 && d[..16] == b
    ensures BlockAt(d, 0) == b
  {
  }

  lemma {:induction false} DecryptUndoesEncrypt(c: BlockCipher, iv: Block, d: Blocks)
    requires Inverse(c)
    ensures CbcDecrypt(c, iv, CbcEncrypt(c, iv, d)) == d
    decreases |d|
  {
    if d != [] {
      var b := c.enc(XorBlock(iv, d[..16]));
      var e := CbcEncrypt(c, iv, d);
      assert e[..16] == b && e[16..] == CbcEncrypt(c, b, d[16..]);
      DecryptUndoesEncrypt(c, b, d[16..]);
      XorBlockTwice(iv, d[..16]);
      assert d == d[..16] + d[16..];
    }
  }

  /** Encrypting in two calls, the second chained to the first, is encrypting the whole in one. */
  lemma {:induction false} EncryptInTwo(c: BlockCipher, iv: Block, a: Blocks, b: Blocks)
    ensures CbcEncrypt(c, iv, a + b) == CbcEncrypt(c, iv, a) + CbcEncrypt(c, Chain(iv, CbcEncrypt(c, iv, a)), b)
    decreases |a|
  {
    hide CbcEncrypt, Chain, XorBlock;
    if a == [] {
      assert a + b == b;
      NoBlocks(c, iv);
    } else {
      FirstBlock(c, iv, a);
      FirstBlock(c, iv, a + b);
      var x := c.enc(XorBlock(iv, a[..16]));
      var rest := CbcEncrypt(c, x, a[16..]);
      FrontOf(a, b);
      EncryptInTwo(c, x, a[16..], b);
      ChainFrom(iv, x, rest);
      var y := CbcEncrypt(c, Chain(x, rest), b);
      Regroup(x, rest, y);
    }
  }

  lemma FrontOf(a: Blocks, b: Blocks)
    requires a != []
    ensures (a + b)[..16] == a[..16] && (a + b)[16..] == a[16..] + b
  {
  }

  lemma Regroup(x: seq<u8>, y: seq<u8>, z: seq<u8>)
    ensures x + (y + z) == (x + y) + z
  {
  }

  lemma NoBlocks(c: BlockCipher, iv: Block)
    ensures CbcEncrypt(c, iv, []) == [] && CbcDecrypt(c, iv, []) == [] && Chain(iv, []) == iv
  {
  }

  lemma FirstBlock(c: BlockCipher, iv: Block, d: Blocks)
    requires d != []
    ensures var x := c.enc(XorBlock(iv, d[..16])); CbcEncrypt(c, iv, d) == x + CbcEncrypt(c, x, d[16..])
    ensures CbcDecrypt(c, iv, d) == XorBlock(c.dec(d[..16]), iv) + CbcDecrypt(c, d[..16], d[16..])
  {
  }

  lemma ChainFrom(iv: Block, x: Block, rest: Blocks)
    ensures Chain(iv, x + rest) == Chain(x, rest)
  {
    if rest == [] {
      assert x + rest == x && x[0..] == x;
    } else {
      assert (x + rest)[|x + rest| - 16..] == rest[|rest| - 16..];
    }
  }

  lemma {:induction false} DecryptInTwo(c: BlockCipher, iv: Block, a: Blocks, b: Blocks)
    ensures CbcDecrypt(c, iv, a + b) == CbcDecrypt(c, iv, a) + CbcDecrypt(c, Chain(iv, a), b)
    decreases |a|
  {
    hide CbcDecrypt, Chain, XorBlock;
    if a == [] {
      assert a + b == b;
      NoBlocks(c, iv);
    } else {
      FirstBlock(c, iv, a);
      FirstBlock(c, iv, a + b);
      FrontOf(a, b);
      DecryptInTwo(c, a[..16], a[16..], b);
      assert a == a[..16] + a[16..];
      ChainFrom(iv, a[..16], a[16..]);
      var x, rest, y := XorBlock(c.dec(a[..16]), iv), CbcDecrypt(c, a[..16], a[16..]), CbcDecrypt(c, Chain(iv, a), b);
      Regroup(x, rest, y);
    }
  }

  /**
   * Decryption does not carry its chain to the next call, so two calls give what one would exactly when there
   * is nothing left for the second or the first ends in the initialization vector.
   */
  lemma TwoDecryptsIff(c: BlockCipher, iv: Block, a: Blocks, b: Blocks)
    ensures CbcDecrypt(c, iv, a) + CbcDecrypt(c, iv, b) == CbcDecrypt(c, iv, a + b) <==> b == [] || Chain(iv, a) == iv
  {
    DecryptInTwo(c, iv, a, b);
    var first, chain := CbcDecrypt(c, iv, a), Chain(iv, a);
    assert (first + CbcDecrypt(c, iv, b))[|a|..] == CbcDecrypt(c, iv, b);
    assert (first + CbcDecrypt(c, chain, b))[|a|..] == CbcDecrypt(c, chain, b);
    if b != [] && CbcDecrypt(c, iv, b) == CbcDecrypt(c, chain, b) {
      var x := c.dec(b[..16]);
      assert CbcDecrypt(c, iv, b)[..16] == XorBlock(x, iv) && CbcDecrypt(c, chain, b)[..16] == XorBlock(x, chain);
      XorBlockTwice(x, iv);
      XorBlockTwice(x, chain);
    }
  }

  // ---------------------------------------------------------------- the padding

  function PadCount(n: nat): (r: nat)
    ensures 1 <= r <= 16 && (n + r) % 16 == 0
  {
    16 - n % 16
  }

  function Padded(d: seq<u8>): (r: Blocks)
    ensures |r| == |d| + PadCount(|d|)
  {
    d + [PAD_MARK] + seq(PadCount(|d|) - 1, _ => 0)
  }

  /** Where the search for the mark, from the end, finds it; none if it would leave the buffer. */
  function Unpadded(p: seq<u8>): (n: Option<nat>)
    ensures n.Some? ==> n.value < |p| && p[n.value] == PAD_MARK && forall i :: n.value < i < |p| ==> p[i] != PAD_MARK
    ensures n.None? <==> PAD_MARK !in p
  {
    if p == [] then None
    else if p[|p| - 1] == PAD_MARK then Some(|p| - 1)
    else
      assert p == p[..|p| - 1] + [p[|p| - 1]];
      Unpadded(p[..|p| - 1])
  }

  /** The padding is removed exactly, whatever the data holds. */
  lemma UnpadUndoesPad(d: seq<u8>)
    ensures Unpadded(Padded(d)) == Some(|d|) && Padded(d)[..|d|] == d
  {
    var p := Padded(d);
    assert p[|d|] == PAD_MARK && forall i :: |d| < i < |p| ==> p[i] == 0;
    if Unpadded(p).Some? && Unpadded(p).value < |d| {
      assert false;
    }
  }

  // ---------------------------------------------------------------- in place

  datatype Status = Ok | BadParam | AuthFail | Overrun

  class CbcContext {
    const cipher: BlockCipher
    const state: array<u8>
    const previous: array<u8>

    ghost predicate Valid() {
      state.Length == 16 && previous.Length == 16 && state != previous
    }

    constructor (cipher: BlockCipher)
      ensures Valid() && this.cipher == cipher && fresh(state) && fresh(previous)
    {
      this.cipher := cipher;
      state, previous := new u8[16](_ => 0), new u8[16](_ => 0);
    }

    method SetIv(iv: Block)
      requires Valid()
      modifies state, previous
      ensures state[..] == iv && previous[..] == iv
    {
      for i := 0 to 16
        invariant state[..i] == iv[..i] && previous[..i] == iv[..i]
      {
        state[i] := iv[i];
        previous[i] := iv[i];
      }
    }

    /** One block: exclusive or into the state, encryption of the state, and its copy over the data. */
    method EncryptBlock(data: array<u8>, at: nat)
      requires Valid() && data != state && at + 16 <= data.Length
      modifies state, data
      ensures state[..] == cipher.enc(XorBlock(old(state[..]), old(data[at..at + 16])))
      ensures data[..] == old(data[..at]) + state[..] + old(data[at + 16..])
    {
      ghost var was, d := state[..], data[at..at + 16];
      for i := 0 to 16
        invariant forall j :: 0 <= j < 16 ==> state[j] == if j < i then XorOctet(was[j], d[j]) else was[j]
        invariant data[..] == old(data[..])
      {
        assert data[at + i] == d[i];
        state[i] := XorOctet(state[i], data[at + i]);
      }
      assert state[..] == XorBlock(was, d);
      var b := cipher.enc(state[..]);
      for i := 0 to 16
        invariant forall j :: 0 <= j < i ==> state[j] == b[j]
        invariant data[..] == old(data[..])
      {
        state[i] := b[i];
      }
      for i := 0 to 16
        invariant forall j :: 0 <= j < data.Length ==> data[j] == if at <= j < at + i then state[j - at] else old(data[j])
        invariant state[..] == b
      {
        data[at + i] := state[i];
      }
    }

    /** One turn of the loop: the data up to `at` is encrypted, and then the block behind it. */
    method EncryptNext(data: array<u8>, at: nat, ghost iv: Block, ghost whole: seq<u8>)
      requires Valid() && data != state && at + 16 <= |whole| && EncryptedTo(cipher, iv, whole, at, data[..], state[..])
      modifies state, data
      ensures EncryptedTo(cipher, iv, whole, at + 16, data[..], state[..])
    {
      hide CbcEncrypt, XorBlock, Chain;
      ghost var done := CbcEncrypt(cipher, iv, whole[..at]);
      NextBlock(data[..], done, whole, at);
      EncryptBlock(data, at);
      PrefixOfPrefix(whole, at + 16, at);
      OneMoreBlock(cipher, iv, whole[..at + 16], at);
      ChainOf(iv, done, state[..]);
    }

    method Encrypt(data: array<u8>, n: nat) returns (status: Status)
      requires Valid() && data != state && n <= data.Length
      modifies state, data
      ensures status == if n % 16 == 0 then Ok else BadParam
      ensures n % 16 == 0 ==> data[..n] == CbcEncrypt(cipher, old(state[..]), old(data[..n]))
      ensures n % 16 == 0 ==> state[..] == Chain(old(state[..]), data[..n])
      ensures n % 16 != 0 ==> state[..] == old(state[..]) && data[..n] == old(data[..n])
      ensures data[n..] == old(data[n..])
    {
      if n % 16 != 0 {
        return BadParam;
      }
      hide CbcEncrypt, XorBlock, Chain, EncryptedTo;
      ghost var iv, d, rest := state[..], data[..n], data[n..];
      assert data[..] == d + rest;
      EncryptBlocks(data, n);
      AllEncrypted(cipher, iv, d, rest, data[..], state[..]);
      Parts(data[..], CbcEncrypt(cipher, iv, d), rest);
      assert data[..n] == data[..][..n] && data[n..] == data[..][n..];
      return Ok;
    }

    /** The loop over the blocks. */
    method EncryptBlocks(data: array<u8>, n: nat)
      requires Valid() && data != state && n <= data.Length && n % 16 == 0
      modifies state, data
      ensures EncryptedTo(cipher, old(state[..]), old(data[..]), n, data[..], state[..])
    {
      hide EncryptedTo;
      ghost var iv, whole := state[..], data[..];
      NothingDone(cipher, iv, whole);
      var at := 0;
      while at < n
        invariant at <= n && at % 16 == 0 && EncryptedTo(cipher, iv, whole, at, data[..], state[..])
      {
        EncryptNext(data, at, iv, whole);
        at := at + 16;
      }
    }

    /** One block of the way back; `previous` is the ciphertext block before, and then this one. */
    method DecryptBlock(data: array<u8>, at: nat, previous: array<u8>)
      requires previous.Length == 16 && data != previous && at + 16 <= data.Length
      modifies previous, data
      ensures previous[..] == old(data[at..at + 16])
      ensures data[at..at + 16] == XorBlock(cipher.dec(old(data[at..at + 16])), old(previous[..]))
      ensures data[..] == old(data[..at]) + data[at..at + 16] + old(data[at + 16..])
    {
      ghost var d, was := data[at..at + 16], previous[..];
      var s := cipher.dec(data[at..at + 16]);
      for i := 0 to 16
        invariant forall j :: 0 <= j < 16 ==> previous[j] == if j < i then d[j] else was[j]
        invariant forall j :: 0 <= j < data.Length ==>
          data[j] == if at <= j < at + i then XorOctet(s[j - at], was[j - at]) else old(data[j])
      {
        assert data[at + i] == d[i];
        var tmp := data[at + i];
        data[at + i] := XorOctet(s[i], previous[i]);
        previous[i] := tmp;
      }
    }

    /** One turn of the loop back; `last` is the ciphertext block before. */
    method DecryptNext(data: array<u8>, at: nat, last: array<u8>, ghost iv: Block, ghost whole: seq<u8>)
      requires last.Length == 16 && data != last && at + 16 <= |whole| && DecryptedTo(cipher, iv, whole, at, data[..], last[..])
      modifies last, data
      ensures DecryptedTo(cipher, iv, whole, at + 16, data[..], last[..])
    {
      hide CbcDecrypt, XorBlock, Chain;
      NextBlock(data[..], CbcDecrypt(cipher, iv, whole[..at]), whole, at);
      DecryptBlock(data, at, last);
      PrefixOfPrefix(whole, at + 16, at);
      OneMoreBlockBack(cipher, iv, whole[..at + 16], at);
    }

    method Decrypt(data: array<u8>, n: nat) returns (status: Status)
      requires Valid() && data != previous && n <= data.Length
      modifies data
      ensures status == if n % 16 == 0 then Ok else BadParam
      ensures n % 16 == 0 ==> data[..n] == CbcDecrypt(cipher, previous[..], old(data[..n]))
      ensures n % 16 != 0 ==> data[..n] == old(data[..n])
      ensures data[n..] == old(data[n..])
    {
      if n % 16 != 0 {
        return BadParam;
      }
      hide CbcDecrypt, XorBlock, Chain, DecryptedTo;
      var last := new u8[16](i requires 0 <= i < 16 reads previous => previous[i]);
      ghost var iv, d, rest := previous[..], data[..n], data[n..];
      assert last[..] == iv && data[..] == d + rest;
      DecryptBlocks(data, n, last);
      AllDecrypted(cipher, iv, d, rest, data[..], last[..]);
      Parts(data[..], CbcDecrypt(cipher, iv, d), rest);
      assert data[..n] == data[..][..n] && data[n..] == data[..][n..];
      return Ok;
    }

    /** The loop back over the blocks, on a copy of the chaining block. */
    method DecryptBlocks(data: array<u8>, n: nat, last: array<u8>)
      requires last.Length == 16 && data != last && n <= data.Length && n % 16 == 0
      modifies last, data
      ensures DecryptedTo(cipher, old(last[..]), old(data[..]), n, data[..], last[..])
    {
      hide DecryptedTo;
      ghost var iv, whole := last[..], data[..];
      NothingDone(cipher, iv, whole);
      var at := 0;
      while at < n
        invariant at <= n && at % 16 == 0 && DecryptedTo(cipher, iv, whole, at, data[..], last[..])
      {
        DecryptNext(data, at, last, iv, whole);
        at := at + 16;
      }
    }

    /** Pads and encrypts; the padding loop writes one zero beyond the padded data. */
    method NistEncrypt(data: array<u8>, n: nat) returns (newN: nat)
      requires Valid() && data != state && n + PadCount(n) + 1 <= data.Length
      modifies state, data
      ensures newN == n + PadCount(n) && data[..newN] == CbcEncrypt(cipher, old(state[..]), Padded(old(data[..n])))
      ensures data[newN] == 0 && data[newN + 1..] == old(data[newN + 1..])
    {
      hide CbcEncrypt, Padded, Chain;
      newN := Pad(data, n);
      ghost var rest := data[newN..];
      var status := Encrypt(data, newN);
      assert data[newN..] == rest;
      assert data[newN] == rest[0] && data[newN + 1..] == rest[1..];
    }

    /** Decrypts and looks for the mark from the end. */
    method NistDecrypt(data: array<u8>, n: nat) returns (status: Status, newN: nat)
      requires Valid() && data != previous && n <= data.Length
      modifies data
      ensures status.BadParam? <==> n % 16 != 0
      ensures n % 16 == 0 ==> data[..n] == CbcDecrypt(cipher, previous[..], old(data[..n]))
      ensures n % 16 == 0 ==> status == if Unpadded(data[..n]).None? then Overrun else Ok
      ensures status == Ok ==> Unpadded(data[..n]) == Some(newN)
    {
      hide CbcDecrypt;
      status := Decrypt(data, n);
      newN := n;
      if status == Ok {
        newN := FindMark(data, n);
        if newN == 0 {
          return Overrun, n;
        }
        newN := newN - 1;
      }
    }
  }

  /** Writes the mark and zeros behind the data, one zero more than the padding has. */
  method Pad(data: array<u8>, n: nat) returns (newN: nat)
    requires n + PadCount(n) + 1 <= data.Length
    modifies data
    ensures newN == n + PadCount(n) && data[..newN] == Padded(old(data[..n]))
    ensures data[newN..][0] == 0 && data[newN..][1..] == old(data[newN + 1..])
  {
    var pads := PadCount(n);
    newN := n + pads;
    data[n] := PAD_MARK;
    for i := 0 to pads
      invariant data[n] == PAD_MARK && forall j :: n < j <= n + i ==> data[j] == 0
      invariant forall j :: 0 <= j < n || newN < j < data.Length ==> data[j] == old(data[j])
    {
      data[n + 1 + i] := 0;
    }
    assert data[..n] == old(data[..n]);
    assert data[..newN] == data[..n] + [PAD_MARK] + seq(pads - 1, _ => 0);
    assert data[newN + 1..] == old(data[newN + 1..]) && data[newN..][1..] == data[newN + 1..];
  }

  /** One past the last mark, or zero. */
  method FindMark(data: array<u8>, n: nat) returns (k: nat)
    requires n <= data.Length
    ensures k <= n && Unpadded(data[..n]) == if k == 0 then None else Some(k - 1)
  {
    hide Unpadded;
    k := n;
    while k > 0 && data[k - 1] != PAD_MARK
      invariant k <= n && Unpadded(data[..n]) == Unpadded(data[..k])
    {
      UnpaddedStep(data[..k], data[..k - 1]);
      k := k - 1;
    }
    if k == 0 {
      UnpaddedNone(data[..k]);
    } else {
      UnpaddedStep(data[..k], data[..k - 1]);
    }
  }

  lemma UnpaddedNone(p: seq<u8>)
    requires |p| == 0
    ensures Unpadded(p) == None
  {
  }

  lemma UnpaddedStep(p: seq<u8>, front: seq<u8>)
    requires p != [] && front == p[..|p| - 1]
    ensures Unpadded(p) == if p[|p| - 1] == PAD_MARK then Some(|p| - 1) else Unpadded(front)
  {
  }

  lemma OneMoreBlock(c: BlockCipher, iv: Block, d: Blocks, at: nat)
    requires at + 16 <= |d| && at % 16 == 0
    ensures CbcEncrypt(c, iv, d[..at + 16]) ==
      CbcEncrypt(c, iv, d[..at]) + c.enc(XorBlock(Chain(iv, CbcEncrypt(c, iv, d[..at])), d[at..at + 16]))
  {
    assert d[..at + 16] == d[..at] + d[at..at + 16];
    EncryptInTwo(c, iv, d[..at], d[at..at + 16]);
    OneBlock(c, Chain(iv, CbcEncrypt(c, iv, d[..at])), d[at..at + 16]);
  }

  lemma OneMoreBlockBack(c: BlockCipher, iv: Block, d: Blocks, at: nat)
    requires at + 16 <= |d| && at % 16 == 0
    ensures CbcDecrypt(c, iv, d[..at + 16]) == CbcDecrypt(c, iv, d[..at]) + XorBlock(c.dec(d[at..at + 16]), Chain(iv, d[..at]))
    ensures Chain(iv, d[..at + 16]) == d[at..at + 16]
  {
    assert d[..at + 16] == d[..at] + d[at..at + 16];
    DecryptInTwo(c, iv, d[..at], d[at..at + 16]);
    OneBlock(c, Chain(iv, d[..at]), d[at..at + 16]);
  }

  lemma PrefixOfPrefix(whole: seq<u8>, n: nat, at: nat)
    requires at + 16 <= n <= |whole|
    ensures whole[..n][..at] == whole[..at] && whole[..n][..at + 16] == whole[..at + 16]
    ensures whole[..n][at..at + 16] == whole[at..at + 16]
  {
  }

  /** The block at hand is still the one of the original data. */
  lemma NextBlock(data: seq<u8>, done: seq<u8>, whole: seq<u8>, at: nat)
    requires |done| == at && at + 16 <= |whole| && data == done + whole[at..]
    ensures data[..at] == done && data[at..at + 16] == whole[at..at + 16] && data[at + 16..] == whole[at + 16..]
  {
    assert data[at..at + 16] == whole[at..][..16];
    assert data[at + 16..] == whole[at..][16..];
  }

  /** The state of the encryption loop: the blocks up to `at` are done, and `state` is what the next is chained to. */
  ghost predicate EncryptedTo(c: BlockCipher, iv: Block, whole: seq<u8>, at: nat, data: seq<u8>, state: seq<u8>) {
    && at <= |whole| && at % 16 == 0
    && data == CbcEncrypt(c, iv, whole[..at]) + whole[at..] && state == Chain(iv, CbcEncrypt(c, iv, whole[..at]))
  }

  ghost predicate DecryptedTo(c: BlockCipher, iv: Block, whole: seq<u8>, at: nat, data: seq<u8>, last: seq<u8>) {
    && at <= |whole| && at % 16 == 0
    && data == CbcDecrypt(c, iv, whole[..at]) + whole[at..] && last == Chain(iv, whole[..at])
  }

  lemma NothingDone(c: BlockCipher, iv: Block, whole: seq<u8>)
    ensures EncryptedTo(c, iv, whole, 0, whole, iv) && DecryptedTo(c, iv, whole, 0, whole, iv)
  {
    NoBlocks(c, iv);
    assert whole[..0] == [] && whole[0..] == whole;
  }

  lemma AllEncrypted(c: BlockCipher, iv: Block, d: Blocks, rest: seq<u8>, data: seq<u8>, state: seq<u8>)
    requires EncryptedTo(c, iv, d + rest, |d|, data, state)
    ensures data == CbcEncrypt(c, iv, d) + rest && state == Chain(iv, CbcEncrypt(c, iv, d))
  {
    assert (d + rest)[..|d|] == d && (d + rest)[|d|..] == rest;
  }

  lemma AllDecrypted(c: BlockCipher, iv: Block, d: Blocks, rest: seq<u8>, data: seq<u8>, last: seq<u8>)
    requires DecryptedTo(c, iv, d + rest, |d|, data, last)
    ensures data == CbcDecrypt(c, iv, d) + rest
  {
    assert (d + rest)[..|d|] == d && (d + rest)[|d|..] == rest;
  }

  lemma Parts(data: seq<u8>, done: seq<u8>, rest: seq<u8>)
    requires data == done + rest
    ensures data[..|done|] == done && data[|done|..] == rest
  {
  }

  lemma ChainOf(iv: Block, done: Blocks, b: Block)
    ensures Chain(iv, done + b) == b
  {
    assert (done + b)[|done + b| - 16..] == b;
  }

  lemma OneBlock(c: BlockCipher, iv: Block, b: Block)
    ensures CbcEncrypt(c, iv, b) == c.enc(XorBlock(iv, b)) && CbcDecrypt(c, iv, b) == XorBlock(c.dec(b), iv)
  {
    assert b[..16] == b && b[16..] == [];
  }
}
