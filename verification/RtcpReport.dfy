/** The regular control packet of ccRTP, built in the send buffer: reports, then the source description. */
module RtcpReport {
  import opened Octets
  import opened Buffers
  import opened RtcpCompound

  const CNAME: u8 := 1
  const LAST_ITEM: u8 := 9

  // ---------------------------------------------------------------- what is sent

  /** A report block as it stands in the packet: 24 octets on one source. */
  type Block = b: seq<u8> | |b| == RR_BLOCK witness seq(RR_BLOCK, _ => 0)

  function Flat(bs: seq<Block>): (r: seq<u8>)
    ensures |r| == RR_BLOCK * |bs|
  {
    if bs == [] then [] else Flat(bs[..|bs| - 1]) + bs[|bs| - 1]
  }

  /** How many of `n` blocks go into a packet that is `len` octets long before them. */
  function Fit(n: nat, len: nat, available: nat): (j: nat)
    ensures j <= n && j <= MAX_BLOCKS
    ensures j > 0 ==> len + RR_BLOCK * j < available
    ensures len + RR_BLOCK < available && n > 0 ==> j > 0
  {
    var room := if len + RR_BLOCK < available then (available - len - 1) / RR_BLOCK else 0;
    if room <= n && room <= MAX_BLOCKS then room else if n <= MAX_BLOCKS then n else MAX_BLOCKS
  }

  /** The report packet that starts with `lead`, and those that follow it when it is full. */
  function Reports(kind: u8, lead: seq<u8>, ssrc: seq<u8>, bs: seq<Block>, len: nat, available: nat): (ps: seq<Packet>)
    requires len < available
    ensures ps != []
    decreases available - len
  {
    var j := Fit(|bs|, len, available);
    var p := Packet(128 + j, kind, lead + Flat(bs[..j]));
    var end := len + RR_BLOCK * j;
    if j == MAX_BLOCKS && end < available - (8 + RR_BLOCK) then [p] + Reports(RR, ssrc, ssrc, bs, end + 8, available)
    else [p]
  }

  datatype Item = NoItem | Item(kind: u8, text: seq<u8>)

  function ItemOctets(it: Item): seq<u8> {
    match it
    case NoItem => []
    case Item(kind, text) => [kind, Octet(|text|)] + text
  }

  /** One zero ends the items, and zeros fill the last word. */
  function Ending(n: nat): (r: seq<u8>)
    ensures 1 <= |r| <= 4 && (n + |r|) % 4 == 0 && forall i :: 0 <= i < |r| ==> r[i] == 0
  {
    seq(4 - n % 4, _ => 0)
  }

  function SdesPacket(ssrc: seq<u8>, cname: seq<u8>, it: Item): (p: Packet)
    requires |ssrc| == 4
    ensures |p.body| % 4 == 0
  {
    var items := ItemOctets(Item(CNAME, cname)) + ItemOctets(it);
    Packet(129, SDES, ssrc + items + Ending(|items|))
  }

  /** The room for reports, once the lower headers, a name and a reserve are set aside. */
  function Available(start: nat, cname: nat): int {
    PATH_MTU - LOWER_HEADERS - start - (4 + 2 + cname) - 100
  }

  datatype SenderInfo = NotSent | Sent(info: seq<u8>)

  function Kind(si: SenderInfo): u8 {
    if si.Sent? then SR else RR
  }

  function Lead(ssrc: seq<u8>, si: SenderInfo): seq<u8> {
    if si.Sent? then ssrc + si.info else ssrc
  }

  predicate InputsOk(ssrc: seq<u8>, si: SenderInfo, cname: seq<u8>, it: Item) {
    && |ssrc| == 4 && (si.Sent? ==> |si.info| == 20) && |cname| <= 255
    && (it.Item? ==> |it.text| <= 127 && CNAME < it.kind <= LAST_ITEM)
  }

  function Start(si: SenderInfo): nat {
    if si.Sent? then 28 else 8
  }

  function ControlPackets(ssrc: seq<u8>, si: SenderInfo, bs: seq<Block>, cname: seq<u8>, it: Item): seq<Packet>
    requires InputsOk(ssrc, si, cname, it)
  {
    Reports(Kind(si), Lead(ssrc, si), ssrc, bs, Start(si), Available(Start(si), |cname|)) + [SdesPacket(ssrc, cname, it)]
  }

  // ---------------------------------------------------------------- the buffer

  /** Packs blocks from the first source on until they or the room end, or the count is full. */
  method PackReportBlocks(buf: array<u8>, len: nat, available: nat, bs: seq<Block>) returns (j: nat, newLen: nat)
    requires RR_BLOCK <= available <= buf.Length && len < available
    modifies buf
    ensures j == Fit(|bs|, len, available) && newLen == len + RR_BLOCK * j < available
    ensures buf[..newLen] == old(buf[..len]) + Flat(bs[..j])
  {
    newLen, j := len, 0;
    ghost var before := buf[..len];
    while j < |bs| && newLen < available - RR_BLOCK && j < MAX_BLOCKS
      invariant j <= |bs| && j <= MAX_BLOCKS && newLen == len + RR_BLOCK * j < available
      invariant buf[..newLen] == before + Flat(bs[..j])
    {
      hide Flat, Fit;
      CopyInto(buf, newLen, bs[j]);
      FlatStep(bs, j);
      assert (before + Flat(bs[..j])) + bs[j] == before + (Flat(bs[..j]) + bs[j]);
      newLen := newLen + RR_BLOCK;
      j := j + 1;
    }
  }

  lemma FlatStep(bs: seq<Block>, j: nat)
    requires j < |bs|
    ensures Flat(bs[..j + 1]) == Flat(bs[..j]) + bs[j]
  {
    assert bs[..j + 1][..j] == bs[..j];
  }

  /** One report packet: its fixed part first, then the blocks, then count and length in the header. */
  method PackReport(buf: array<u8>, start: nat, kind: u8, lead: seq<u8>, available: nat, bs: seq<Block>)
    returns (j: nat, len: nat)
    requires start + 4 + |lead| < available <= buf.Length && |lead| % 4 == 0 && available <= PATH_MTU && RR_BLOCK <= available
    modifies buf
    ensures j == Fit(|bs|, start + 4 + |lead|, available) && len == start + 4 + |lead| + RR_BLOCK * j < available
    ensures buf[..len] == old(buf[..start]) + Encode(Packet(128 + j, kind, lead + Flat(bs[..j])))
    ensures start % 4 == 0 ==> len % 4 == 0
  {
    hide Fit, Flat, Encode;
    ghost var before := buf[..start];
    CopyInto(buf, start, [128, kind, 0, 0] + lead);
    j, len := PackReportBlocks(buf, start + 4 + |lead|, available, bs);
    BehindLead(buf[..len], before, [128, kind, 0, 0], lead, Flat(bs[..j]));
    assert buf[start + 4..len] == buf[..len][start + 4..] && buf[..start] == buf[..len][..start];
    Complete(buf, start, len, 128 + j, kind, lead + Flat(bs[..j]));
    assert buf[..len] == buf[..start] + buf[start..len];
  }

  lemma BehindLead(s: seq<u8>, before: seq<u8>, head: seq<u8>, lead: seq<u8>, blocks: seq<u8>)
    requires |head| == 4 && s == before + (head + lead) + blocks
    ensures s[|before| + 4..] == lead + blocks && s[..|before|] == before
  {
  }

  /** Writes count and length over the header once the packet's body stands behind it. */
  method Complete(buf: array<u8>, start: nat, len: nat, first: u8, kind: u8, ghost body: seq<u8>)
    requires start + 4 <= len <= buf.Length && buf[start + 4..len] == body && |body| % 4 == 0
    modifies buf
    ensures buf[..start] == old(buf[..start]) && buf[start..len] == Encode(Packet(first, kind, body))
  {
    var words := (len - start) / 4 - 1;
    ghost var rest := buf[start + 4..];
    assert rest[..len - start - 4] == body;
    CopyInto(buf, start, [first, kind, Octet(words / 256), Octet(words)]);
    assert buf[start..len] == buf[start..start + 4] + rest[..len - start - 4];
  }

  method Append(buf: array<u8>, ghost start: nat, len: nat, s: seq<u8>) returns (newLen: nat)
    requires start <= len && len + |s| <= buf.Length
    modifies buf
    ensures newLen == len + |s| && buf[..start] == old(buf[..start]) && buf[start..newLen] == old(buf[start..len]) + s
  {
    ghost var was := buf[..len];
    CopyInto(buf, len, s);
    newLen := len + |s|;
    assert buf[..start] == was[..start] && buf[start..len] == was[start..];
    assert buf[start..newLen] == buf[start..len] + buf[len..newLen];
  }

  lemma EndingAligned(n: nat, len: nat)
    requires len % 4 == n % 4
    ensures if (len + 1) % 4 == 0 then Ending(n) == [0] else Ending(n) == [0] + seq(4 - (len + 1) % 4, _ => 0)
  {
  }

  /** The source description behind the reports. */
  method PackSdes(buf: array<u8>, start: nat, ssrc: seq<u8>, cname: seq<u8>, it: Item) returns (len: nat)
    requires |ssrc| == 4 && |cname| <= 255 && (it.Item? ==> |it.text| <= 255 && CNAME < it.kind <= LAST_ITEM)
    requires start % 4 == 0 && start + |Encode(SdesPacket(ssrc, cname, it))| <= buf.Length
    modifies buf
    ensures len == start + |Encode(SdesPacket(ssrc, cname, it))|
    ensures buf[..start] == old(buf[..start]) && buf[start..len] == Encode(SdesPacket(ssrc, cname, it))
  {
    hide Encode, ItemOctets, Ending, SdesPacket;
    ghost var items := ItemOctets(Item(CNAME, cname)) + ItemOctets(it);
    SdesBody(ssrc, cname, it);
    len := PackItems(buf, start, ssrc, cname, it);
    len := PackEnding(buf, start, len, |items|);
    ghost var body := SdesPacket(ssrc, cname, it).body;
    BodyBehindHeader(buf[start..len], body);
    assert buf[start + 4..len] == buf[start..len][4..];
    Complete(buf, start, len, 129, SDES, body);
  }

  lemma BodyBehindHeader(s: seq<u8>, body: seq<u8>)
    requires s == [129, SDES, 0, 0] + body
    ensures s[4..] == body
  {
  }

  lemma SdesBody(ssrc: seq<u8>, cname: seq<u8>, it: Item)
    requires |ssrc| == 4
    ensures var items, p := ItemOctets(Item(CNAME, cname)) + ItemOctets(it), SdesPacket(ssrc, cname, it);
      && p == Packet(129, SDES, p.body) && |Encode(p)| == 8 + |items| + |Ending(|items|)|
      && [129, SDES, 0, 0] + p.body == [129, SDES, 0, 0] + ssrc + items + Ending(|items|)
  {
  }

  method PackItems(buf: array<u8>, start: nat, ssrc: seq<u8>, cname: seq<u8>, it: Item) returns (len: nat)
    requires |ssrc| == 4 && |cname| <= 255 && (it.Item? ==> |it.text| <= 255)
    requires start + 8 + |ItemOctets(Item(CNAME, cname)) + ItemOctets(it)| <= buf.Length
    modifies buf
    ensures len == start + 8 + |ItemOctets(Item(CNAME, cname)) + ItemOctets(it)| && buf[..start] == old(buf[..start])
    ensures buf[start..len] == [129, SDES, 0, 0] + ssrc + (ItemOctets(Item(CNAME, cname)) + ItemOctets(it))
  {
    hide ItemOctets;
    ghost var a, b := ItemOctets(Item(CNAME, cname)), ItemOctets(it);
    len := Append(buf, start, start, [129, SDES, 0, 0] + ssrc);
    ghost var head := buf[start..len];
    len := AppendItem(buf, start, len, Item(CNAME, cname));
    len := AppendItem(buf, start, len, it);
    assert (head + a) + b == head + (a + b);
  }

  method AppendItem(buf: array<u8>, ghost start: nat, len: nat, it: Item) returns (newLen: nat)
    requires start <= len && len + |ItemOctets(it)| <= buf.Length && (it.Item? ==> |it.text| <= 255)
    modifies buf
    ensures newLen == len + |ItemOctets(it)| && buf[..start] == old(buf[..start])
    ensures buf[start..newLen] == old(buf[start..len]) + ItemOctets(it)
  {
    newLen := len;
    if it.Item? {
      newLen := Append(buf, start, newLen, [it.kind, |it.text|] + it.text);
    }
  }

  method PackEnding(buf: array<u8>, ghost start: nat, len: nat, ghost n: nat) returns (newLen: nat)
    requires start <= len && len % 4 == n % 4 && len + |Ending(n)| <= buf.Length
    modifies buf
    ensures newLen == len + |Ending(n)| && buf[..start] == old(buf[..start])
    ensures buf[start..newLen] == old(buf[start..len]) + Ending(n)
  {
    EndingAligned(n, len);
    newLen := Append(buf, start, len, [0]);
    if newLen % 4 != 0 {
      newLen := Append(buf, start, newLen, seq(4 - newLen % 4, _ => 0));
    }
  }

  method DispatchControl(buf: array<u8>, ssrc: seq<u8>, si: SenderInfo, bs: seq<Block>, cname: seq<u8>, it: Item)
    returns (len: nat)
    requires InputsOk(ssrc, si, cname, it) && buf.Length == PATH_MTU
    modifies buf
    ensures len <= PATH_MTU && buf[..len] == Concat(ControlPackets(ssrc, si, bs, cname, it))
  {
    hide Reports, Encode, Concat, SdesPacket;
    var available := Available(Start(si), |cname|);
    len := PackReports(buf, ssrc, Kind(si), Lead(ssrc, si), available, bs);
    SdesSize(ssrc, cname, it);
    ghost var reports := buf[..len];
    ghost var at := len;
    len := PackSdes(buf, len, ssrc, cname, it);
    ConcatAppend(Reports(Kind(si), Lead(ssrc, si), ssrc, bs, Start(si), available), [SdesPacket(ssrc, cname, it)]);
    ConcatOne(SdesPacket(ssrc, cname, it));
    assert buf[..len] == reports + buf[at..len];
  }

  /** The first report packet, and another one as long as the last is full and there is room. */
  method PackReports(buf: array<u8>, ssrc: seq<u8>, kind0: u8, lead0: seq<u8>, available: nat, bs: seq<Block>)
    returns (len: nat)
    requires |ssrc| == 4 && |lead0| % 4 == 0 && RR_BLOCK <= available <= PATH_MTU <= buf.Length && 4 + |lead0| < available
    modifies buf
    ensures len % 4 == 0 && len < available
    ensures buf[..len] == Concat(Reports(kind0, lead0, ssrc, bs, 4 + |lead0|, available))
  {
    hide Reports, Encode, Fit, Flat, Concat;
    var start, kind, lead := 0, kind0, lead0;
    ghost var done: seq<Packet> := [];
    ghost var all := Reports(kind, lead, ssrc, bs, 4 + |lead0|, available);
    ConcatNone();
    var another := true;
    len := 0;
    while another
      invariant start % 4 == 0 && start + 4 + |lead| < available && |lead| % 4 == 0
      invariant another ==> len == start && all == done + Reports(kind, lead, ssrc, bs, start + 4 + |lead|, available)
      invariant !another ==> all == done && len < available && len % 4 == 0
      invariant buf[..len] == Concat(done)
      decreases another, available - start
    {
      var j;
      ReportsStep(kind, lead, ssrc, bs, start + 4 + |lead|, available);
      j, len := PackReport(buf, start, kind, lead, available, bs);
      ghost var p := Packet(128 + j, kind, lead + Flat(bs[..j]));
      OneMore(done, p, Reports(RR, ssrc, ssrc, bs, if len + 8 < available then len + 8 else 0, available));
      done := done + [p];
      if j == MAX_BLOCKS && len < available - (8 + RR_BLOCK) {
        start, kind, lead := len, RR, ssrc;
      } else {
        another := false;
      }
    }
  }

  lemma OneMore(done: seq<Packet>, p: Packet, rest: seq<Packet>)
    ensures Concat(done + [p]) == Concat(done) + Encode(p)
    ensures (done + [p]) + rest == done + ([p] + rest)
  {
    hide Concat, Encode;
    ConcatAppend(done, [p]);
    ConcatOne(p);
  }

  lemma ConcatNone()
    ensures Concat([]) == []
  {
  }

  lemma ReportsStep(kind: u8, lead: seq<u8>, ssrc: seq<u8>, bs: seq<Block>, len: nat, available: nat)
    requires len < available
    ensures var j := Fit(|bs|, len, available);
      var p := Packet(128 + j, kind, lead + Flat(bs[..j]));
      var end := len + RR_BLOCK * j;
      Reports(kind, lead, ssrc, bs, len, available) ==
        if j == MAX_BLOCKS && end < available - (8 + RR_BLOCK) then [p] + Reports(RR, ssrc, ssrc, bs, end + 8, available)
        else [p]
  {
  }

  lemma SdesSize(ssrc: seq<u8>, cname: seq<u8>, it: Item)
    requires |ssrc| == 4 && (it.Item? ==> |it.text| <= 127)
    ensures |Encode(SdesPacket(ssrc, cname, it))| <= 143 + |cname|
  {
  }

  // ---------------------------------------------------------------- the receiver's check of it

  lemma {:induction false} ReportsWellFormed(kind: u8, lead: seq<u8>, ssrc: seq<u8>, bs: seq<Block>, len: nat, available: nat)
    requires len < available <= PATH_MTU && |lead| % 4 == 0 && |lead| <= 24 && |ssrc| == 4
    ensures var ps := Reports(kind, lead, ssrc, bs, len, available);
      && (forall i :: 0 <= i < |ps| ==> WellFormed(ps[i]) && ps[i].first / 32 == 4)
      && ps[0].kind == kind
    decreases available - len
  {
  }

  /**
   * Every control packet is accepted by the check of a received compound, for every list of sources, name of
   * up to 255 octets and further item of up to 127.
   */
  lemma ControlIsAccepted(ssrc: seq<u8>, si: SenderInfo, bs: seq<Block>, cname: seq<u8>, it: Item)
    requires InputsOk(ssrc, si, cname, it)
    ensures var s := Concat(ControlPackets(ssrc, si, bs, cname, it)); ReportFirst(s) && Chained(s)
  {
    hide Reports, Concat, Ending;
    var ps := ControlPackets(ssrc, si, bs, cname, it);
    var s := Concat(ps);
    ReportsWellFormed(Kind(si), Lead(ssrc, si), ssrc, bs, Start(si), Available(Start(si), |cname|));
    SdesSize(ssrc, cname, it);
    assert forall i :: 0 <= i < |ps| ==> WellFormed(ps[i]) && ps[i].first / 32 == 4;
    CompoundIsChained(s, ps);
    FirstOctets(ps);
  }

  lemma FirstOctets(ps: seq<Packet>)
    requires ps != []
    ensures |Concat(ps)| >= 2 && Concat(ps)[0] == ps[0].first && Concat(ps)[1] == ps[0].kind
  {
  }

  // ---------------------------------------------------------------- which sources are reported

  /**
   * A further report starts again with the first source: every report packet of the compound carries the first
   * few blocks of the list, so no source after the 31st is ever reported.
   */
  lemma {:induction false} EveryReportStartsAgain(kind: u8, lead: seq<u8>, ssrc: seq<u8>, bs: seq<Block>, len: nat, available: nat, i: nat)
    returns (j: nat)
    requires len < available && i < |Reports(kind, lead, ssrc, bs, len, available)|
    ensures j <= |bs| && j <= MAX_BLOCKS
    ensures Reports(kind, lead, ssrc, bs, len, available)[i].body == (if i == 0 then lead else ssrc) + Flat(bs[..j])
    ensures i < |Reports(kind, lead, ssrc, bs, len, available)| - 1 ==> j == MAX_BLOCKS
    decreases i
  {
    hide Flat;
    j := Fit(|bs|, len, available);
    if i > 0 {
      j := EveryReportStartsAgain(RR, ssrc, ssrc, bs, len + RR_BLOCK * j + 8, available, i - 1);
    }
  }

  /** The path MTU leaves room for two report packets at most. */
  lemma AtMostTwoReports(ssrc: seq<u8>, si: SenderInfo, bs: seq<Block>, cname: seq<u8>)
    requires |cname| <= 255
    ensures |Reports(Kind(si), Lead(ssrc, si), ssrc, bs, Start(si), Available(Start(si), |cname|))| <= 2
  {
  }
}
