/** Authenticated encryption of libSRTP on top of the chained mode: ciphertext, then a 12-octet tag. */
module AeTransform {
  import opened Octets
  import opened Wrappers
  import opened Buffers
  import opened Cbc

  const AE_TAG := 12

  /** The room for growth the callers of the transform are told to leave. */
  const MAX_EXPAND := 27

  datatype Ae = Ae(cipher: BlockCipher, mac: (seq<u8>, nat) -> u8)

  function AeTag(a: Ae, message: seq<u8>): (r: seq<u8>)
    ensures |r| == AE_TAG
  {
    seq<u8>(AE_TAG, i requires 0 <= i => a.mac(message, i))
  }

  function AeSealed(a: Ae, clear: seq<u8>, iv: Block, d: seq<u8>): seq<u8> {
    var e := CbcEncrypt(a.cipher, iv, Padded(d));
    e + AeTag(a, clear + e)
  }

  datatype AeResult = Fail(status: Status) | Plain(data: seq<u8>)

  function AeOpened(a: Ae, clear: seq<u8>, iv: Block, o: seq<u8>): AeResult {
    if |o| < AE_TAG then Fail(Overrun)
    else
      var n := |o| - AE_TAG;
      if o[n..] != AeTag(a, clear + o[..n]) then Fail(AuthFail)
      else if n % 16 != 0 then Fail(BadParam)
      else
        var p := CbcDecrypt(a.cipher, iv, o[..n]);
        match Unpadded(p)
        case None => Fail(Overrun)
        case Some(at) => Plain(p[..at])
  }

  /** Every plaintext comes back, whatever the clear data and the vector. */
  lemma AeRoundTrip(a: Ae, clear: seq<u8>, iv: Block, d: seq<u8>)
    requires Inverse(a.cipher)
    ensures AeOpened(a, clear, iv, AeSealed(a, clear, iv, d)) == Plain(d)
  {
    hide Padded, Inverse;
    var e := CbcEncrypt(a.cipher, iv, Padded(d));
    var o := AeSealed(a, clear, iv, d);
    assert o[..|e|] == e && o[|e|..] == AeTag(a, clear + e);
    DecryptUndoesEncrypt(a.cipher, iv, Padded(d));
    UnpadUndoesPad(d);
  }

  /** The growth, which passes the announced maximum exactly for data of whole blocks. */
  lemma AeGrowth(a: Ae, clear: seq<u8>, iv: Block, d: seq<u8>)
    ensures |AeSealed(a, clear, iv, d)| == |d| + 28 - |d| % 16
    ensures |AeSealed(a, clear, iv, d)| - |d| > MAX_EXPAND <==> |d| % 16 == 0
  {
  }

  /** Of the packets with a given body, exactly the one with the right tag is not refused. */
  lemma AeRefusesIff(a: Ae, clear: seq<u8>, iv: Block, body: seq<u8>, tag: seq<u8>)
    requires |tag| == AE_TAG
    ensures AeOpened(a, clear, iv, body + tag) == Fail(AuthFail) <==> tag != AeTag(a, clear + body)
  {
  }

  method AeEncrypt(a: Ae, clear: seq<u8>, iv: Block, opaqueData: array<u8>, len: nat) returns (newLen: nat)
    requires len + PadCount(len) + AE_TAG <= opaqueData.Length
    modifies opaqueData
    ensures newLen <= opaqueData.Length && opaqueData[..newLen] == AeSealed(a, clear, iv, old(opaqueData[..len]))
    ensures opaqueData[newLen..] == old(opaqueData[newLen..])
  {
    hide CbcEncrypt, Padded;
    var ctx := new CbcContext(a.cipher);
    ctx.SetIv(iv);
    var n := ctx.NistEncrypt(opaqueData, len);
    ghost var e, rest := opaqueData[..n], opaqueData[n + 1..];
    CopyInto(opaqueData, n, AeTag(a, clear + opaqueData[..n]));
    newLen := n + AE_TAG;
    assert opaqueData[..newLen] == opaqueData[..n] + opaqueData[n..newLen];
    assert opaqueData[newLen..] == rest[AE_TAG - 1..] == old(opaqueData[newLen..]);
  }

  method AeDecrypt(a: Ae, clear: seq<u8>, iv: Block, opaqueData: array<u8>, len: nat) returns (status: Status, newLen: nat)
    requires len <= opaqueData.Length
    modifies opaqueData
    ensures var r := AeOpened(a, clear, iv, old(opaqueData[..len]));
      && (status == Ok <==> r.Plain?) && (r.Fail? ==> status == r.status)
      && (r.Plain? ==> newLen <= opaqueData.Length && opaqueData[..newLen] == r.data)
    ensures status == AuthFail ==> newLen == len && opaqueData[..] == old(opaqueData[..])
  {
    hide CbcDecrypt, AeTag, Unpadded;
    if len < AE_TAG {
      return Overrun, len;
    }
    var n := len - AE_TAG;
    ghost var o := opaqueData[..len];
    assert o[..n] == opaqueData[..n] && o[n..] == opaqueData[n..len];
    var tag := AeTag(a, clear + opaqueData[..n]);
    var same := SameOctets(opaqueData, n, tag);
    if !same {
      return AuthFail, len;
    }
    var ctx := new CbcContext(a.cipher);
    ctx.SetIv(iv);
    status, newLen := ctx.NistDecrypt(opaqueData, n);
    if status == Ok {
      MarkInside(opaqueData[..n], newLen);
      assert opaqueData[..n][..newLen] == opaqueData[..newLen];
    } else if status == BadParam {
      newLen := n;
    }
  }

  lemma MarkInside(p: seq<u8>, at: nat)
    requires Unpadded(p) == Some(at)
    ensures at < |p|
  {
  }
}
