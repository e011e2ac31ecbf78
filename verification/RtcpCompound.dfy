/** Compound RTCP packets of ccRTP: how a report is built in the send buffer, and how a received one is checked. */
module RtcpCompound {
  import opened Octets

  const PATH_MTU := 1500
  const LOWER_HEADERS := 28
  const RR_BLOCK := 24
  const MAX_BLOCKS := 31

  const SR: u8 := 200
  const RR: u8 := 201
  const SDES: u8 := 202

  // ---------------------------------------------------------------- packets

  /** The first octet holds version, padding bit and count; the body is a whole number of words. */
  datatype Packet = Packet(first: u8, kind: u8, body: seq<u8>)

  predicate WellFormed(p: Packet) {
    |p.body| % 4 == 0 && |p.body| / 4 < 0x1_0000
  }

  predicate Version2(first: u8) {
    first / 64 == 2
  }

  function Encode(p: Packet): (r: seq<u8>)
    ensures |r| == 4 + |p.body|
  {
    var words := |p.body| / 4;
    [p.first, p.kind, Octet(words / 256), Octet(words)] + p.body
  }

  function Concat(ps: seq<Packet>): seq<u8> {
    if ps == [] then [] else Encode(ps[0]) + Concat(ps[1..])
  }

  lemma {:induction false} ConcatAppend(ps: seq<Packet>, qs: seq<Packet>)
    ensures Concat(ps + qs) == Concat(ps) + Concat(qs)
  {
    if ps == [] {
      assert ps + qs == qs;
    } else {
      assert (ps + qs)[1..] == ps[1..] + qs;
      ConcatAppend(ps[1..], qs);
    }
  }

  lemma ConcatOne(p: Packet)
    ensures Concat([p]) == Encode(p)
  {
  }

  /** The length a header announces. */
  function Announced(s: seq<u8>): (n: nat)
    requires |s| >= 4
    ensures n >= 4 && n % 4 == 0
  {
    4 * (Be16(s[2], s[3]) + 1)
  }

  lemma AnnouncedExact(p: Packet, rest: seq<u8>)
    requires WellFormed(p)
    ensures Announced(Encode(p) + rest) == |Encode(p)|
  {
    var words := |p.body| / 4;
    assert words / 256 < 256 && words == 256 * (words / 256) + words % 256;
    assert (Encode(p) + rest)[2] == words / 256 && (Encode(p) + rest)[3] == words % 256;
  }

  // ---------------------------------------------------------------- the check of a received compound

  /** Version 2, no padding, and a sender or receiver report. */
  predicate ReportFirst(s: seq<u8>) {
    |s| >= 2 && s[0] / 32 == 4 && s[1] / 2 == 100
  }

  /** The packets fill the compound exactly, and every one but the last is of version 2. */
  ghost predicate IsCompound(s: seq<u8>, ps: seq<Packet>) {
    && ps != [] && Concat(ps) == s
    && (forall i :: 0 <= i < |ps| ==> WellFormed(ps[i]))
    && (forall i :: 0 <= i < |ps| - 1 ==> Version2(ps[i].first))
  }

  /** The same, followed from one header to the next. */
  predicate Chained(s: seq<u8>)
    decreases |s|
  {
    |s| >= 4 &&
    var n := Announced(s);
    n == |s| || (n < |s| && Version2(s[0]) && Chained(s[n..]))
  }

  lemma {:induction false} ChainedSplits(s: seq<u8>) returns (ps: seq<Packet>)
    requires Chained(s)
    ensures IsCompound(s, ps)
    decreases |s|
  {
    var n := Announced(s);
    var p := Packet(s[0], s[1], s[4..n]);
    HeaderOf(s, p);
    if n == |s| {
      ps := [p];
      ConcatOne(p);
      assert s[..n] == s;
    } else {
      var rest := ChainedSplits(s[n..]);
      ps := [p] + rest;
      assert ps[1..] == rest;
      assert s == s[..n] + s[n..];
    }
  }

  lemma HeaderOf(s: seq<u8>, p: Packet)
    requires |s| >= 4 && Announced(s) <= |s| && p == Packet(s[0], s[1], s[4..Announced(s)])
    ensures WellFormed(p) && Encode(p) == s[..Announced(s)]
  {
  }

  lemma {:induction false} CompoundIsChained(s: seq<u8>, ps: seq<Packet>)
    requires IsCompound(s, ps)
    ensures Chained(s)
    decreases |ps|
  {
    var rest := Concat(ps[1..]);
    assert s == Encode(ps[0]) + rest;
    AnnouncedExact(ps[0], rest);
    if |ps| > 1 {
      assert s[|Encode(ps[0])|..] == rest;
      CompoundIsChained(rest, ps[1..]);
    } else {
      assert ps[1..] == [];
    }
  }

  /** Accepted are exactly the compounds that start with a report; the version of the last packet is never looked at. */
  lemma AcceptedIff(s: seq<u8>)
    ensures Chained(s) <==> exists ps :: IsCompound(s, ps)
  {
    if Chained(s) {
      var ps := ChainedSplits(s);
    }
    if ps :| IsCompound(s, ps) {
      CompoundIsChained(s, ps);
    }
  }

  /** The receive buffer is a whole number of words, so that a header at a multiple of four is inside it. */
  method CheckCompoundHeader(buf: array<u8>, len: nat) returns (ok: bool)
    requires len <= buf.Length && 4 <= buf.Length && buf.Length % 4 == 0
    ensures ok <==> ReportFirst(buf[..len]) && Chained(buf[..len])
  {
    hide Chained, Announced, Version2;
    if buf[0] / 32 != 4 || buf[1] / 2 != 100 {
      return false;
    }
    var pointer := 0;
    assert buf[0..len] == buf[..len];
    while true
      invariant pointer % 4 == 0 && (pointer < len || pointer == 0)
      invariant Chained(buf[..len]) <==> Chained(buf[pointer..len])
      decreases len - pointer
    {
      ghost var s := buf[pointer..len];
      var head := buf[pointer..pointer + 4];
      var next := pointer + Announced(head);
      ChainedStep(s, head);
      if !(next < len && Version2(head[0])) {
        return next == len;
      }
      assert s[next - pointer..] == buf[next..len];
      pointer := next;
    }
  }

  /** The chain, told by its first header. */
  lemma ChainedStep(s: seq<u8>, head: seq<u8>)
    requires |head| == 4 && forall i :: 0 <= i < 4 && i < |s| ==> s[i] == head[i]
    ensures var n := Announced(head);
      Chained(s) == (|s| >= 4 && (n == |s| || (n < |s| && Version2(head[0]) && Chained(s[n..]))))
  {
  }
}
