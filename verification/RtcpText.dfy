/** The text in control packets of ccRTP: source descriptions and reasons for leaving, as a receiver reads them. */
module RtcpText {
  import opened Octets
  import opened CString
  import opened RtcpCompound
  import opened RtcpReport

  const BYE: u8 := 203

  // ---------------------------------------------------------------- source descriptions

  /** The items stored for the participant, and whether a name was among them. */
  datatype Read = Overrun | Items(items: seq<Item>, cname: bool)

  function Cons(it: Item, isName: bool, stored: bool, r: Read): Read {
    match r
    case Overrun => Overrun
    case Items(items, cname) => Items(if stored then [it] + items else items, cname || isName)
  }

  /** Reads items from `at` on; before the participant is known only a name is stored. */
  function ReadItems(c: seq<u8>, at: nat, len: nat, known: bool): Read
    decreases len - at
  {
    if at >= len then Items([], false)
    else if at >= |c| then Overrun
    else if c[at] == 0 then Items([], false)
    else if c[at] > LAST_ITEM then ReadItems(c, at + 1, len, known)
    else if at + 1 >= |c| || at + 2 + c[at + 1] > |c| then Overrun
    else
      var next, isName := at + 2 + c[at + 1], c[at] == CNAME;
      Cons(Item(c[at], Cut(c[at + 2..next])), isName, known || isName, ReadItems(c, next, len, known || isName))
  }

  /** The receiver's loop over the items of a chunk. */
  method OnGotSdesChunk(c: array<u8>, len: nat, known: bool) returns (r: Read)
    ensures r == ReadItems(c[..], 4, len, known)
  {
    hide ReadItems, Cut;
    var at, part, cname, items := 4, known, false, [];
    assert Then([], false, ReadItems(c[..], 4, len, known)) == ReadItems(c[..], 4, len, known);
    while at < len
      invariant Then(items, cname, ReadItems(c[..], at, len, part)) == ReadItems(c[..], 4, len, known)
      decreases len - at
    {
      ReadUnfolds(c[..], at, len, part);
      if at >= c.Length {
        return Overrun;
      }
      var kind := c[at];
      if kind == 0 {
        assert items + [] == items;
        return Items(items, cname);
      } else if kind > LAST_ITEM {
        at := at + 1;
      } else {
        if at + 1 >= c.Length || at + 2 + c[at + 1] > c.Length {
          return Overrun;
        }
        var next := at + 2 + c[at + 1];
        ghost var rest := ReadItems(c[..], next, len, part || kind == CNAME);
        var it := Item(kind, Cut(c[at + 2..next]));
        assert c[..][at + 2..next] == c[at + 2..next];
        ThenCons(items, cname, it, kind == CNAME, part || kind == CNAME, rest);
        part := part || kind == CNAME;
        if part {
          items := items + [it];
        }
        cname := cname || kind == CNAME;
        at := next;
      }
    }
    ReadUnfolds(c[..], at, len, part);
    assert items + [] == items;
    return Items(items, cname);
  }

  /** One step of the reading. */
  lemma ReadUnfolds(c: seq<u8>, at: nat, len: nat, known: bool)
    ensures at >= len ==> ReadItems(c, at, len, known) == Items([], false)
    ensures |c| <= at < len ==> ReadItems(c, at, len, known) == Overrun
    ensures at < len && at < |c| && c[at] == 0 ==> ReadItems(c, at, len, known) == Items([], false)
    ensures at < len && at < |c| && c[at] > LAST_ITEM ==> ReadItems(c, at, len, known) == ReadItems(c, at + 1, len, known)
    ensures at < len && at < |c| && 0 < c[at] <= LAST_ITEM && (at + 1 >= |c| || at + 2 + c[at + 1] > |c|) ==>
      ReadItems(c, at, len, known) == Overrun
    ensures at < len && at + 1 < |c| && 0 < c[at] <= LAST_ITEM && at + 2 + c[at + 1] <= |c| ==>
      var next, isName := at + 2 + c[at + 1], c[at] == CNAME;
      ReadItems(c, at, len, known) ==
        Cons(Item(c[at], Cut(c[at + 2..next])), isName, known || isName, ReadItems(c, next, len, known || isName))
  {
    hide Cut;
  }

  ghost function Then(items: seq<Item>, cname: bool, r: Read): Read {
    match r
    case Overrun => Overrun
    case Items(more, c) => Items(items + more, cname || c)
  }

  lemma ThenCons(items: seq<Item>, cname: bool, it: Item, isName: bool, stored: bool, r: Read)
    ensures Then(items, cname, Cons(it, isName, stored, r)) ==
      Then(if stored then items + [it] else items, cname || isName, r)
  {
  }

  predicate Sendable(it: Item) {
    it.Item? && CNAME <= it.kind <= LAST_ITEM && |it.text| <= 255 && 0 !in it.text
  }

  predicate IsName(it: Item) {
    it.Item? && it.kind == CNAME
  }

  predicate HasName(items: seq<Item>) {
    exists i :: 0 <= i < |items| && IsName(items[i])
  }

  function AllOctets(items: seq<Item>): seq<u8> {
    if items == [] then [] else ItemOctets(items[0]) + AllOctets(items[1..])
  }

  /** The octets `o` stand at position `at` of `c`, with a zero behind them. */
  ghost predicate Stands(c: seq<u8>, at: nat, o: seq<u8>) {
    at + |o| < |c| && c[at..at + |o|] == o && c[at + |o|] == 0
  }

  /** Any list of items, ended by a zero, is read back as it was, with the name found if there is one. */
  lemma {:induction false} ItemsReadBack(c: seq<u8>, at: nat, len: nat, items: seq<Item>, known: bool)
    requires forall i :: 0 <= i < |items| ==> Sendable(items[i])
    requires at + |AllOctets(items)| < len && Stands(c, at, AllOctets(items))
    requires known || items == [] || IsName(items[0])
    ensures ReadItems(c, at, len, known) == Items(items, HasName(items))
    decreases |items|
  {
    hide AllOctets, HasName, ReadItems, Stands, ItemOctets, Sendable;
    AllOctetsStep(items);
    HasNameStep(items);
    if items == [] {
      ReadEnd(c, at, len, known);
    } else {
      var it, rest := items[0], items[1..];
      ReadOne(c, at, len, it, AllOctets(rest), known);
      ItemsReadBack(c, at + 2 + |it.text|, len, rest, true);
      assert items == [it] + rest;
    }
  }

  lemma ReadEnd(c: seq<u8>, at: nat, len: nat, known: bool)
    requires at < len && Stands(c, at, [])
    ensures ReadItems(c, at, len, known) == Items([], false)
  {
  }

  lemma ReadOne(c: seq<u8>, at: nat, len: nat, it: Item, rest: seq<u8>, known: bool)
    requires Sendable(it) && at < len && Stands(c, at, ItemOctets(it) + rest)
    ensures it.Item? && |ItemOctets(it)| == 2 + |it.text| && Stands(c, at + 2 + |it.text|, rest)
    ensures ReadItems(c, at, len, known) ==
      Cons(it, IsName(it), known || IsName(it), ReadItems(c, at + 2 + |it.text|, len, known || IsName(it)))
  {
    hide Cut, Stands, ItemOctets;
    ItemHead(c, at, it, rest);
    ItemText(c, at, it, rest);
    ItemRest(c, at, it, rest);
    CutWhole(it.text);
  }

  lemma AllOctetsStep(items: seq<Item>)
    ensures AllOctets(items) == if items == [] then [] else ItemOctets(items[0]) + AllOctets(items[1..])
  {
  }

  lemma HasNameStep(items: seq<Item>)
    ensures HasName(items) <==> items != [] && (IsName(items[0]) || HasName(items[1..]))
  {
  }

  lemma SliceOfSlice(c: seq<u8>, a: nat, b: nat, i: nat, j: nat)
    requires a <= b <= |c| && i <= j <= b - a
    ensures c[a..b][i..j] == c[a + i..a + j]
  {
    var s := c[a..b];
    assert forall k :: 0 <= k < b - a ==> s[k] == c[a + k];
    forall k | 0 <= k < j - i
      ensures s[i..j][k] == c[a + i..a + j][k]
    {
      assert s[i..j][k] == s[i + k];
    }
  }

  lemma ItemHead(c: seq<u8>, at: nat, it: Item, rest: seq<u8>)
    requires Sendable(it) && Stands(c, at, ItemOctets(it) + rest)
    ensures |ItemOctets(it)| == 2 + |it.text| && at + 2 + |it.text| + |rest| < |c|
    ensures c[at] == it.kind && c[at + 1] == |it.text|
  {
    ItemSplits(it, rest);
    hide ItemOctets;
    var n := at + |ItemOctets(it) + rest|;
    SliceIndex(c, at, n, 0);
    SliceIndex(c, at, n, 1);
  }

  lemma ItemText(c: seq<u8>, at: nat, it: Item, rest: seq<u8>)
    requires Sendable(it) && Stands(c, at, ItemOctets(it) + rest)
    ensures at + 2 + |it.text| <= |c| && c[at + 2..at + 2 + |it.text|] == it.text
  {
    ItemSplits(it, rest);
    hide ItemOctets;
    SliceOfSlice(c, at, at + |ItemOctets(it) + rest|, 2, 2 + |it.text|);
  }

  lemma ItemRest(c: seq<u8>, at: nat, it: Item, rest: seq<u8>)
    requires Sendable(it) && Stands(c, at, ItemOctets(it) + rest)
    ensures Stands(c, at + 2 + |it.text|, rest)
  {
    ItemSplits(it, rest);
    hide ItemOctets;
    var o := ItemOctets(it) + rest;
    SliceOfSlice(c, at, at + |o|, 2 + |it.text|, |o|);
  }

  lemma SliceIndex(c: seq<u8>, a: nat, b: nat, i: nat)
    requires a + i < b <= |c|
    ensures c[a..b][i] == c[a + i]
  {
  }

  lemma ItemSplits(it: Item, rest: seq<u8>)
    requires Sendable(it)
    ensures var s := ItemOctets(it) + rest;
      && |s| == 2 + |it.text| + |rest| && s[0] == it.kind && s[1] == |it.text|
      && s[2..2 + |it.text|] == it.text && s[2 + |it.text|..|s|] == rest
  {
  }

  /** The description `PackSdes` builds is read back as its name and its item, in that order. */
  lemma SdesReadsBack(ssrc: seq<u8>, cname: seq<u8>, it: Item, known: bool, after: seq<u8>)
    requires |ssrc| == 4 && Sendable(Item(CNAME, cname)) && (it.Item? ==> Sendable(it))
    ensures ReadItems(SdesPacket(ssrc, cname, it).body + after, 4, |Encode(SdesPacket(ssrc, cname, it))|, known) ==
      Items([Item(CNAME, cname)] + (if it.Item? then [it] else []), true)
  {
    hide ReadItems, AllOctets, SdesPacket, Stands, ItemOctets, Encode, Sendable;
    var items := [Item(CNAME, cname)] + if it.Item? then [it] else [];
    NameAndItem(cname, it);
    SdesStands(ssrc, cname, it, after);
    ItemsReadBack(SdesPacket(ssrc, cname, it).body + after, 4, |Encode(SdesPacket(ssrc, cname, it))|, items, known);
    assert IsName(items[0]);
  }

  lemma NameAndItem(cname: seq<u8>, it: Item)
    ensures AllOctets([Item(CNAME, cname)] + if it.Item? then [it] else []) == ItemOctets(Item(CNAME, cname)) + ItemOctets(it)
  {
    var rest := if it.Item? then [it] else [];
    assert ([Item(CNAME, cname)] + rest)[1..] == rest;
    AllOctetsShort(it);
  }

  /** The items of the packet stand behind the identifier, with a zero behind them. */
  lemma SdesStands(ssrc: seq<u8>, cname: seq<u8>, it: Item, after: seq<u8>)
    requires |ssrc| == 4
    ensures var o, p := ItemOctets(Item(CNAME, cname)) + ItemOctets(it), SdesPacket(ssrc, cname, it);
      Stands(p.body + after, 4, o) && 4 + |o| < |Encode(p)|
  {
    hide ItemOctets;
    var o, p := ItemOctets(Item(CNAME, cname)) + ItemOctets(it), SdesPacket(ssrc, cname, it);
    var e := Ending(|o|);
    assert p.body + after == ssrc + (o + (e + after));
    var c := p.body + after;
    assert c[4..4 + |o|] == o;
    assert c[4 + |o|] == e[0];
  }

  lemma AllOctetsShort(it: Item)
    ensures AllOctets([]) == [] && AllOctets([it]) == ItemOctets(it)
  {
  }

  // ---------------------------------------------------------------- reasons for leaving

  /** Padding up to the next word, a whole word of it where none is needed. */
  function ByePad(n: nat): (r: nat)
    ensures 1 <= r <= 4 && (5 + n + r) % 4 == 0
  {
    4 - (9 + n) % 4
  }

  /** The length octet counts the padding too, and both are cut to eight bits. */
  function ByeBody(ssrc: seq<u8>, reason: seq<u8>): (r: seq<u8>)
    requires |ssrc| == 4
    ensures |r| % 4 == 0
  {
    var text := Cut(reason);
    var m := |text| % 256;
    var pad := ByePad(m);
    ssrc + [Octet(m + pad)] + text[..m] + seq(pad, _ => 0)
  }

  function ByePacket(ssrc: seq<u8>, reason: seq<u8>, padBit: bool): Packet
    requires |ssrc| == 4
  {
    Packet(if padBit then 161 else 129, BYE, ByeBody(ssrc, reason))
  }

  function ByePackets(ssrc: seq<u8>, reason: seq<u8>, padBit: bool): seq<Packet>
    requires |ssrc| == 4
  {
    [Packet(128, RR, ssrc), ByePacket(ssrc, reason, padBit)]
  }

  /** Builds the compound in a buffer of 500 octets; the padding bit of the second header is never set. */
  method DispatchBye(buf: array<u8>, ssrc: seq<u8>, reason: seq<u8>, padBit: bool) returns (len: nat)
    requires |ssrc| == 4 && buf.Length == 500
    modifies buf
    ensures len <= 276 && buf[..len] == Concat(ByePackets(ssrc, reason, padBit))
  {
    hide Encode, ByeBody;
    len := Append(buf, 0, 0, [128, RR, 0, 1] + ssrc);
    assert buf[..8] == buf[0..8] == [128, RR, 0, 1] + ssrc;
    len := PackBye(buf, len, if padBit then 161 else 129, ssrc, reason);
    ByeCompound(ssrc, reason, padBit);
    assert buf[..len] == buf[..8] + buf[8..len];
  }

  method PackBye(buf: array<u8>, start: nat, first: u8, ssrc: seq<u8>, reason: seq<u8>) returns (len: nat)
    requires |ssrc| == 4 && start % 4 == 0 && start + 268 <= buf.Length
    modifies buf
    ensures start <= len <= start + 268 && buf[..start] == old(buf[..start])
    ensures buf[start..len] == Encode(Packet(first, BYE, ByeBody(ssrc, reason)))
  {
    hide Encode, Cut, ByeBody;
    var m, pad;
    len, m, pad := PackReason(buf, start, [first, BYE, 0, 0] + ssrc, Cut(reason));
    ghost var s := buf[start..len];
    AmendLength(buf, start, len, (m + pad) % 256);
    ByeOctets(ssrc, reason);
    assert s[4..] == ssrc + [m] + Cut(reason)[..m] + seq(pad, _ => 0);
    BehindHeader(buf[start..len], s, ByeBody(ssrc, reason), (m + pad) % 256);
    assert buf[start + 4..len] == buf[start..len][4..];
    Complete(buf, start, len, first, BYE, ByeBody(ssrc, reason));
  }

  lemma BehindHeader(now: seq<u8>, s: seq<u8>, body: seq<u8>, n: u8)
    requires |s| >= 9 && now == s[8 := n] && body == s[4..][4 := n]
    ensures now[4..] == body
  {
  }

  /** Head, length octet, text and padding of a BYE; the length octet does not count the padding yet. */
  method PackReason(buf: array<u8>, start: nat, head: seq<u8>, text: seq<u8>) returns (len: nat, m: nat, pad: nat)
    requires |head| == 8 && start % 4 == 0 && start + 268 <= buf.Length
    modifies buf
    ensures m == |text| % 256 && pad == ByePad(m) && len == start + 9 + m + pad && buf[..start] == old(buf[..start])
    ensures buf[start..len] == head + [m] + text[..m] + seq(pad, _ => 0)
  {
    m := |text| % 256;
    len := Append(buf, start, start, head + [m]);
    len := Append(buf, start, len, text[..m]);
    pad := 4 - (len - start) % 4;
    assert (len - start) % 4 == (9 + m) % 4;
    len := Append(buf, start, len, seq(pad, _ => 0));
  }

  /** Writes the length octet again. */
  method AmendLength(buf: array<u8>, start: nat, ghost len: nat, n: u8)
    requires start + 9 <= len <= buf.Length
    modifies buf
    ensures buf[..start] == old(buf[..start]) && buf[start..len] == old(buf[start..len])[8 := n]
  {
    buf[start + 8] := n;
  }

  lemma ByeOctets(ssrc: seq<u8>, reason: seq<u8>)
    requires |ssrc| == 4
    ensures var m := |Cut(reason)| % 256;
      var pad := ByePad(m);
      var plain: seq<u8> := ssrc + [m] + Cut(reason)[..m] + seq(pad, _ => 0);
      ByeBody(ssrc, reason) == plain[4 := Octet(m + pad)]
  {
  }

  lemma ByeCompound(ssrc: seq<u8>, reason: seq<u8>, padBit: bool)
    requires |ssrc| == 4
    ensures Concat(ByePackets(ssrc, reason, padBit)) ==
      [128, RR, 0, 1] + ssrc + Encode(ByePacket(ssrc, reason, padBit))
  {
    var ps := ByePackets(ssrc, reason, padBit);
    assert ps[1..] == [ps[1]];
    ConcatOne(ps[1]);
  }

  lemma ByeIsAccepted(ssrc: seq<u8>, reason: seq<u8>, padBit: bool)
    requires |ssrc| == 4
    ensures var s := Concat(ByePackets(ssrc, reason, padBit)); ReportFirst(s) && Chained(s)
  {
    var ps := ByePackets(ssrc, reason, padBit);
    CompoundIsChained(Concat(ps), ps);
    FirstOctets(ps);
  }

  /** What a receiver takes for the reason: nothing if the identifiers fill the packet. */
  function ReadReason(p: seq<u8>): (r: seq<u8>)
    requires |p| >= 4
  {
    var end := 4 + 4 * (p[0] % 32);
    if end < Announced(p) && end < |p| && end + 1 + p[end] <= |p| then Cut(p[end + 1..end + 1 + p[end]]) else []
  }

  /** The reason arrives as it was given exactly when it has at most 254 octets. */
  lemma ReasonArrivesIff(ssrc: seq<u8>, reason: seq<u8>, padBit: bool)
    requires |ssrc| == 4
    ensures Announced(Encode(ByePacket(ssrc, reason, padBit))) == |Encode(ByePacket(ssrc, reason, padBit))|
    ensures ReadReason(Encode(ByePacket(ssrc, reason, padBit))) == Cut(reason) <==> |Cut(reason)| <= 254
  {
    hide Encode, Cut, Announced, ByePacket, ByePad, ReadReason;
    var text := Cut(reason);
    var m := |text| % 256;
    var pad := ByePad(m);
    var s := Encode(ByePacket(ssrc, reason, padBit));
    var zeros: seq<u8> := seq(pad, _ => 0);
    ByeFields(ssrc, reason, padBit);
    var n := Octet(m + pad);
    ReasonCut(text, m, zeros, n);
    ReasonRead(s, text[..m] + zeros);
  }

  lemma ReasonRead(s: seq<u8>, rest: seq<u8>)
    requires |s| == 9 + |rest| && Announced(s) == |s| && s[0] % 32 == 1 && s[9..] == rest && s[8] <= |rest|
    ensures ReadReason(s) == Cut(rest[..s[8]])
  {
    hide Cut, Announced;
    assert s[9..9 + s[8]] == rest[..s[8]];
  }

  lemma ByeFields(ssrc: seq<u8>, reason: seq<u8>, padBit: bool)
    requires |ssrc| == 4
    ensures var s, m := Encode(ByePacket(ssrc, reason, padBit)), |Cut(reason)| % 256;
      && Announced(s) == |s| == 9 + m + ByePad(m) && s[0] % 32 == 1 && s[8] == Octet(m + ByePad(m))
      && s[9..] == Cut(reason)[..m] + seq(ByePad(m), _ => 0)
  {
    hide Cut, ByeBody, Announced, Encode;
    var p := ByePacket(ssrc, reason, padBit);
    BodyFields(ssrc, reason);
    AnnouncedExact(p, []);
    assert Encode(p) + [] == Encode(p);
    EncodeOctets(p);
  }

  lemma EncodeOctets(p: Packet)
    requires |p.body| >= 5
    ensures Encode(p)[0] == p.first && Encode(p)[8] == p.body[4] && Encode(p)[9..] == p.body[5..]
  {
  }

  lemma BodyFields(ssrc: seq<u8>, reason: seq<u8>)
    requires |ssrc| == 4
    ensures var b, m := ByeBody(ssrc, reason), |Cut(reason)| % 256;
      |b| == 5 + m + ByePad(m) && b[4] == Octet(m + ByePad(m)) && b[5..] == Cut(reason)[..m] + seq(ByePad(m), _ => 0)
  {
    hide Cut;
  }

  lemma ReasonCut(text: seq<u8>, m: nat, zeros: seq<u8>, n: nat)
    requires 0 !in text && m == |text| % 256 && |zeros| == ByePad(m) && n == Octet(m + ByePad(m))
    requires forall i :: 0 <= i < |zeros| ==> zeros[i] == 0
    ensures Cut((text[..m] + zeros)[..n]) == text <==> |text| <= 254
  {
    hide Cut;
    var all := text[..m] + zeros;
    if |text| <= 254 {
      assert n == m + ByePad(m);
      assert all[..n] == text + zeros;
      CutKeeps(text, zeros);
    } else if m + ByePad(m) < 256 {
      assert all[..n] == all;
      CutKeeps(text[..m], zeros);
    }
  }
}
