/** The two MD5 implementations side by side. */
module Md5Agreement {
  import opened Md5Spec
  import opened Md5
  import opened CcMd5

  function Concat(parts: seq<seq<bv8>>): seq<bv8> {
    if parts == [] then [] else Concat(parts[..|parts| - 1]) + parts[|parts| - 1]
  }

  lemma ConcatStep(parts: seq<seq<bv8>>, i: nat)
    requires i < |parts|
    ensures Concat(parts[..i + 1]) == Concat(parts[..i]) + parts[i]
  {
    assert parts[..i + 1][..i] == parts[..i];
  }

  /** The digest of libSRPP's object over any split of a message. */
  method DigestOfParts(parts: seq<seq<bv8>>) returns (digest: seq<bv8>)
    requires forall p :: p in parts ==> |p| < WORD_MOD - 64
    ensures digest == Digest(Concat(parts))
  {
    hide Digest;
    var md5 := new MD5();
    for i := 0 to |parts|
      invariant fresh(md5) && fresh(md5.buffer)
      invariant md5.Valid() && !md5.finalized && md5.message == Concat(parts[..i])
    {
      md5.Update(parts[i]);
      ConcatStep(parts, i);
    }
    assert parts[..|parts|] == parts;
    md5.Finalize();
    digest := md5.digest;
  }

  /** The digest of ccRTP's object over any split of a message. */
  method CcDigestOfParts(parts: seq<seq<bv8>>) returns (digest: seq<bv8>)
    ensures digest == CcDigest(Concat(parts))
  {
    hide CcDigest;
    var md5 := new MD5Digest();
    for i := 0 to |parts|
      invariant fresh(md5) && fresh(md5.buf)
      invariant md5.Valid() && md5.counting && md5.message == Concat(parts[..i])
    {
      md5.PutDigest(parts[i]);
      ConcatStep(parts, i);
    }
    assert parts[..|parts|] == parts;
    md5.Commit();
    digest := md5.md5;
  }

  /** However a message below 2^29 octets is split for each of them, both give the same 16 octets. */
  method DigestBothWays(parts: seq<seq<bv8>>, parts': seq<seq<bv8>>) returns (d: seq<bv8>, d': seq<bv8>)
    requires forall p :: p in parts ==> |p| < WORD_MOD - 64
    ensures Concat(parts) == Concat(parts') && |Concat(parts)| < 0x2000_0000 ==> d == d'
  {
    hide Digest, CcDigest;
    d := DigestOfParts(parts);
    d' := CcDigestOfParts(parts');
    if |Concat(parts)| < 0x2000_0000 {
      SameDigestWhenShort(Concat(parts));
    }
  }
}
