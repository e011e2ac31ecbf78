/** Octets as C strings: what stands before the first zero. */
module CString {
  import opened Octets

  /** What comes before the first zero. */
  function Cut(s: seq<u8>): (r: seq<u8>)
    ensures |r| <= |s| && r == s[..|r|] && 0 !in r
    ensures |r| < |s| ==> s[|r|] == 0
  {
    if s == [] || s[0] == 0 then [] else [s[0]] + Cut(s[1..])
  }

  lemma {:induction false} CutKeeps(s: seq<u8>, rest: seq<u8>)
    requires 0 !in s && (rest == [] || rest[0] == 0)
    ensures Cut(s + rest) == s
  {
    if s == [] {
      assert s + rest == rest;
    } else {
      assert (s + rest)[1..] == s[1..] + rest;
      CutKeeps(s[1..], rest);
    }
  }

  lemma CutWhole(s: seq<u8>)
    requires 0 !in s
    ensures Cut(s) == s
  {
  }
}
