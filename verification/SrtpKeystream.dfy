/**
 * AES counter mode as ccRTP keys it: the initialisation vector built from the session salt, the SSRC and
 * the packet index, and the counter blocks the cipher is applied to.
 */
module SrtpKeystream {
  import opened Octets

  /**
   * The keys of a context. `aes(block, j)` is octet j of the block cipher under the session key and
   * `hmac(message, j)` octet j of the authentication code; both are arbitrary functions here.
   */
  datatype Suite = Suite(
    encrypts: bool,
    authenticates: bool,
    salt: seq<u8>,
    aes: (seq<u8>, nat) -> u8,
    hmac: (seq<u8>, nat) -> u8,
    tagLength: nat)

  predicate ValidSuite(suite: Suite) {
    && |suite.salt| == 14
    && (!suite.authenticates ==> suite.tagLength == 0)
  }

  /** `n` shifted right by `k` octets. */
  function ShiftOctets(n: nat, k: nat): nat {
    if k == 0 then n else ShiftOctets(n / 256, k - 1)
  }

  function Pow256(w: nat): nat {
    if w == 0 then 1 else 256 * Pow256(w - 1)
  }

  function CmIv(salt: seq<u8>, ssrc: u32, index: nat): (iv: seq<u8>)
    requires |salt| == 14
    ensures |iv| == 16
  {
    seq(16, i requires 0 <= i < 16 =>
      if i < 4 then salt[i]
      else if i < 8 then XorOctet(Octet(ShiftOctets(ssrc, 7 - i)), salt[i])
      else if i < 14 then XorOctet(Octet(ShiftOctets(index, 13 - i)), salt[i])
      else 0)
  }

  /** The vector as the encryption routine fills it, octet by octet. */
  method FillIv(salt: seq<u8>, ssrc: u32, index: nat) returns (iv: array<u8>)
    requires |salt| == 14
    ensures iv[..] == CmIv(salt, ssrc, index)
  {
    iv := new u8[16];
    for i := 0 to 4
      invariant forall j :: 0 <= j < i ==> iv[j] == CmIv(salt, ssrc, index)[j]
    {
      iv[i] := salt[i];
    }
    for i := 4 to 8
      invariant forall j :: 0 <= j < i ==> iv[j] == CmIv(salt, ssrc, index)[j]
    {
      iv[i] := XorOctet(Octet(ShiftOctets(ssrc, 7 - i)), salt[i]);
    }
    for i := 8 to 14
      invariant forall j :: 0 <= j < i ==> iv[j] == CmIv(salt, ssrc, index)[j]
    {
      iv[i] := XorOctet(Octet(ShiftOctets(index, 13 - i)), salt[i]);
    }
    iv[14], iv[15] := 0, 0;
  }

  function CounterBlock(iv: seq<u8>, block: nat): (r: seq<u8>)
    requires |iv| == 16
    ensures |r| == 16
  {
    iv[..14] + [Octet(block / 256), Octet(block)]
  }

  /** Octet j of the keystream of one packet. */
  function Keystream(suite: Suite, ssrc: u32, index: nat): nat -> u8
    requires ValidSuite(suite)
  {
    (j: nat) => suite.aes(CounterBlock(CmIv(suite.salt, ssrc, index), j / 16), j % 16)
  }

  /** The keystream octets as the cipher routine produces them: whole blocks first, then the last bytes. */
  method CipherStream(suite: Suite, ssrc: u32, index: nat, length: nat) returns (output: array<u8>)
    requires ValidSuite(suite)
    requires length < 16 * 65536
    ensures fresh(output) && output.Length == length
    ensures forall j :: 0 <= j < length ==> output[j] == Keystream(suite, ssrc, index)(j)
  {
    output := new u8[length];
    var filled := FillIv(suite.salt, ssrc, index);
    var iv := filled[..];
    ghost var key := Keystream(suite, ssrc, index);
    for ctr := 0 to length / 16
      invariant forall j :: 0 <= j < 16 * ctr ==> output[j] == key(j)
    {
      var input := CounterBlock(iv, ctr);
      for k := 0 to 16
        invariant forall j :: 0 <= j < 16 * ctr + k ==> output[j] == key(j)
      {
        assert (16 * ctr + k) / 16 == ctr && (16 * ctr + k) % 16 == k;
        output[16 * ctr + k] := suite.aes(input, k);
      }
    }
    var done := length / 16;
    var last := CounterBlock(iv, done);
    for k := 0 to length % 16
      invariant forall j :: 0 <= j < 16 * done + k ==> output[j] == key(j)
    {
      assert (16 * done + k) / 16 == done && (16 * done + k) % 16 == k;
      output[16 * done + k] := suite.aes(last, k);
    }
  }

  // ---------------------------------------------------------------- no block is used twice

  lemma {:induction false} OctetsDetermine(m: nat, n: nat, w: nat)
    requires m < Pow256(w) && n < Pow256(w)
    requires forall k :: 0 <= k < w ==> ShiftOctets(m, k) % 256 == ShiftOctets(n, k) % 256
    ensures m == n
  {
    if w > 0 {
      assert ShiftOctets(m, 0) % 256 == ShiftOctets(n, 0) % 256;
      forall k | 0 <= k < w - 1
        ensures ShiftOctets(m / 256, k) % 256 == ShiftOctets(n / 256, k) % 256
      {
        assert ShiftOctets(m, k + 1) % 256 == ShiftOctets(n, k + 1) % 256;
      }
      OctetsDetermine(m / 256, n / 256, w - 1);
    }
  }

  lemma MaskedOctet(a: nat, b: nat, mask: u8)
    requires XorOctet(Octet(a), mask) == XorOctet(Octet(b), mask)
    ensures a % 256 == b % 256
  {
    XorInjective(Octet(a), Octet(b), mask);
  }

  lemma IvDeterminesSsrc(salt: seq<u8>, ssrc: u32, index: nat, ssrc': u32, index': nat, k: nat)
    requires |salt| == 14 && k < 4
    requires CmIv(salt, ssrc, index)[7 - k] == CmIv(salt, ssrc', index')[7 - k]
    ensures ShiftOctets(ssrc, k) % 256 == ShiftOctets(ssrc', k) % 256
  {
    MaskedOctet(ShiftOctets(ssrc, k), ShiftOctets(ssrc', k), salt[7 - k]);
  }

  lemma IvDeterminesIndex(salt: seq<u8>, ssrc: u32, index: nat, ssrc': u32, index': nat, k: nat)
    requires |salt| == 14 && k < 6
    requires CmIv(salt, ssrc, index)[13 - k] == CmIv(salt, ssrc', index')[13 - k]
    ensures ShiftOctets(index, k) % 256 == ShiftOctets(index', k) % 256
  {
    MaskedOctet(ShiftOctets(index, k), ShiftOctets(index', k), salt[13 - k]);
  }

  lemma VectorsDistinct(salt: seq<u8>, ssrc: u32, index: nat, ssrc': u32, index': nat)
    requires |salt| == 14
    requires index < INDEX_MOD && index' < INDEX_MOD
    requires CmIv(salt, ssrc, index)[..14] == CmIv(salt, ssrc', index')[..14]
    ensures ssrc == ssrc' && index == index'
  {
    var iv, iv' := CmIv(salt, ssrc, index), CmIv(salt, ssrc', index');
    forall i | 0 <= i < 14
      ensures iv[i] == iv'[i]
    {
      assert iv[..14][i] == iv'[..14][i];
    }
    forall k | 0 <= k < 4
      ensures ShiftOctets(ssrc, k) % 256 == ShiftOctets(ssrc', k) % 256
    {
      IvDeterminesSsrc(salt, ssrc, index, ssrc', index', k);
    }
    forall k | 0 <= k < 6
      ensures ShiftOctets(index, k) % 256 == ShiftOctets(index', k) % 256
    {
      IvDeterminesIndex(salt, ssrc, index, ssrc', index', k);
    }
    PowersOf256();
    OctetsDetermine(ssrc, ssrc', 4);
    OctetsDetermine(index, index', 6);
  }

  /**
   * Under one salt, two counter blocks are equal only when SSRC, packet index and block number are all
   * equal: no block of keystream is used for two places.
   */
  lemma CounterBlocksDistinct(salt: seq<u8>, ssrc: u32, index: nat, block: nat,
                              ssrc': u32, index': nat, block': nat)
    requires |salt| == 14
    requires index < INDEX_MOD && index' < INDEX_MOD && block < 65536 && block' < 65536
    requires CounterBlock(CmIv(salt, ssrc, index), block) == CounterBlock(CmIv(salt, ssrc', index'), block')
    ensures ssrc == ssrc' && index == index' && block == block'
  {
    CounterBlockParts(CmIv(salt, ssrc, index), block, CmIv(salt, ssrc', index'), block');
    VectorsDistinct(salt, ssrc, index, ssrc', index');
  }

  lemma CounterBlockParts(iv: seq<u8>, block: nat, iv': seq<u8>, block': nat)
    requires |iv| == |iv'| == 16 && block < 65536 && block' < 65536
    requires CounterBlock(iv, block) == CounterBlock(iv', block')
    ensures iv[..14] == iv'[..14] && block == block'
  {
    var c, c' := CounterBlock(iv, block), CounterBlock(iv', block');
    assert c[14] == c'[14] && c[15] == c'[15];
    assert c[..14] == iv[..14] && c'[..14] == iv'[..14];
  }

  lemma PowersOf256()
    ensures Pow256(4) == ROC_MOD && Pow256(6) == INDEX_MOD
  {
  }
}
