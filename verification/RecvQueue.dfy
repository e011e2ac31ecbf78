/**
 * The reception queue of ccRTP. Every packet link is on two doubly linked lists at once: the global queue
 * and the list of its source. A late packet is searched for from the end of its source's list.
 */
module RecvQueue {
  import opened Octets

  class SourceLink {
    var first: PacketLink?
    var last: PacketLink?

    constructor ()
      ensures first == null && last == null
    {
      first, last := null, null;
    }
  }

  class PacketLink {
    const src: SourceLink
    const seqNum: u16
    var prev: PacketLink?
    var next: PacketLink?
    var srcPrev: PacketLink?
    var srcNext: PacketLink?

    constructor (src: SourceLink, seqNum: u16)
      ensures this.src == src && this.seqNum == seqNum && Unlinked()
    {
      this.src, this.seqNum := src, seqNum;
      prev, next, srcPrev, srcNext := null, null, null, null;
    }

    ghost predicate Unlinked()
      reads this
    {
      prev == null && next == null && srcPrev == null && srcNext == null
    }
  }

  // ---------------------------------------------------------------- sequences of links

  ghost function At(ps: seq<PacketLink>, i: int): PacketLink? {
    if 0 <= i < |ps| then ps[i] else null
  }

  ghost predicate Distinct(ps: seq<PacketLink>) {
    forall i, j :: 0 <= i < j < |ps| ==> ps[i] != ps[j]
  }

  /** The packets of source `s`, in the same order. */
  ghost function Of(ps: seq<PacketLink>, s: SourceLink): (r: seq<PacketLink>)
    ensures forall i :: 0 <= i < |r| ==> r[i] in ps
  {
    if ps == [] then []
    else if ps[|ps| - 1].src == s then Of(ps[..|ps| - 1], s) + [ps[|ps| - 1]]
    else Of(ps[..|ps| - 1], s)
  }

  ghost function Insert(ps: seq<PacketLink>, p: nat, x: PacketLink): (r: seq<PacketLink>)
    requires p <= |ps|
    ensures |r| == |ps| + 1 && r[p] == x
    ensures forall i :: 0 <= i < p ==> r[i] == ps[i]
    ensures forall i :: p < i < |r| ==> r[i] == ps[i - 1]
  {
    ps[..p] + [x] + ps[p..]
  }

  lemma {:induction false} OfAppend(a: seq<PacketLink>, b: seq<PacketLink>, s: SourceLink)
    ensures Of(a + b, s) == Of(a, s) + Of(b, s)
    decreases |b|
  {
    if b == [] {
      assert a + b == a;
    } else {
      assert (a + b)[..|a + b| - 1] == a + b[..|b| - 1];
      OfAppend(a, b[..|b| - 1], s);
    }
  }

  lemma {:induction false} OfMembers(ps: seq<PacketLink>, s: SourceLink)
    ensures forall x :: x in Of(ps, s) <==> x in ps && x.src == s
  {
    if ps != [] {
      OfMembers(ps[..|ps| - 1], s);
      assert ps == ps[..|ps| - 1] + [ps[|ps| - 1]];
    }
  }

  lemma OfInsert(ps: seq<PacketLink>, p: nat, x: PacketLink, s: SourceLink)
    requires p <= |ps|
    ensures |Of(ps[..p], s)| <= |Of(ps, s)|
    ensures Of(Insert(ps, p, x), s) == (if x.src == s then Insert(Of(ps, s), |Of(ps[..p], s)|, x) else Of(ps, s))
  {
    hide Of;
    OfAppend(ps[..p], ps[p..], s);
    OfAppend(ps[..p] + [x], ps[p..], s);
    OfAppend(ps[..p], [x], s);
    assert ps == ps[..p] + ps[p..];
    OfSingle(x, s);
  }

  lemma OfSingle(x: PacketLink, s: SourceLink)
    ensures Of([x], s) == (if x.src == s then [x] else [])
  {
  }

  ghost predicate Sorted(ps: seq<PacketLink>) {
    forall i, j :: 0 <= i < j < |ps| ==> ps[i].seqNum <= ps[j].seqNum
  }

  // ---------------------------------------------------------------- where a packet goes

  /** Whether `x` goes in front of `y`: a packet of the same source with a larger sequence number. */
  ghost predicate Overtakes(x: PacketLink, y: PacketLink) {
    x.src == y.src && x.seqNum < y.seqNum
  }

  /** A packet whose number repeats the last one of its source is dropped. */
  ghost predicate Duplicate(ps: seq<PacketLink>, x: PacketLink) {
    var l := Of(ps, x.src);
    l != [] && l[|l| - 1].seqNum == x.seqNum
  }

  /** Where the search from the end of a sorted list stops. */
  ghost predicate SearchedTo(l: seq<PacketLink>, seqNum: u16, k: nat) {
    k <= |l| && (k > 0 ==> l[k - 1].seqNum <= seqNum) && forall j :: k <= j < |l| ==> seqNum < l[j].seqNum
  }

  /** The place of a packet: before the first one it overtakes, or at the end. */
  ghost function Place(ps: seq<PacketLink>, x: PacketLink): (p: nat)
    ensures p <= |ps| && (p < |ps| ==> Overtakes(x, ps[p]))
    ensures forall i :: 0 <= i < p ==> !Overtakes(x, ps[i])
  {
    if ps == [] then 0
    else
      var n := |ps| - 1;
      var p := Place(ps[..n], x);
      if p < n then p else if Overtakes(x, ps[n]) then n else n + 1
  }

  ghost function After(ps: seq<PacketLink>, x: PacketLink): seq<PacketLink> {
    if Duplicate(ps, x) then ps else Insert(ps, Place(ps, x), x)
  }

  lemma {:induction false} DistinctOf(ps: seq<PacketLink>, s: SourceLink)
    requires Distinct(ps)
    ensures Distinct(Of(ps, s))
  {
    if ps != [] {
      DistinctOf(ps[..|ps| - 1], s);
      OfMembers(ps[..|ps| - 1], s);
    }
  }

  /** The packets of its source in front of the place of `x` are those with a number not above its own. */
  lemma PlaceInSource(ps: seq<PacketLink>, x: PacketLink, p: nat, k: nat)
    requires Distinct(ps) && p < |ps| && ps[p].src == x.src
    requires k < |Of(ps, x.src)| && Of(ps, x.src)[k] == ps[p]
    ensures Of(ps[..p], x.src) == Of(ps, x.src)[..k]
  {
    hide Of;
    var s := x.src;
    OfAppend(ps[..p], ps[p..], s);
    assert ps == ps[..p] + ps[p..];
    OfAppend([ps[p]], ps[p + 1..], s);
    assert ps[p..] == [ps[p]] + ps[p + 1..];
    OfSingle(ps[p], s);
    var h := |Of(ps[..p], s)|;
    assert Of(ps, s)[h] == ps[p];
    DistinctOf(ps, s);
  }

  lemma {:induction false} IndexOf(ps: seq<PacketLink>, x: PacketLink) returns (p: nat)
    requires x in ps
    ensures p < |ps| && ps[p] == x
  {
    p :| p < |ps| && ps[p] == x;
  }

  /** The search in the source's list finds the place in the global queue. */
  lemma SearchFindsPlace(ps: seq<PacketLink>, x: PacketLink, p: nat, k: nat)
    requires Distinct(ps) && Sorted(Of(ps, x.src)) && SearchedTo(Of(ps, x.src), x.seqNum, k)
    requires k < |Of(ps, x.src)| && p < |ps| && ps[p] == Of(ps, x.src)[k]
    ensures p == Place(ps, x) && Of(ps[..p], x.src) == Of(ps, x.src)[..k]
  {
    hide Of;
    var l := Of(ps, x.src);
    OfMembers(ps, x.src);
    PlaceInSource(ps, x, p, k);
    OfMembers(ps[..p], x.src);
    forall i | 0 <= i < p
      ensures !Overtakes(x, ps[i])
    {
      if ps[i].src == x.src {
        assert ps[i] == ps[..p][i];
        assert ps[i] in l[..k];
        var j :| 0 <= j < k && l[..k][j] == ps[i];
        assert l[j].seqNum <= l[k - 1].seqNum;
      }
    }
  }

  /** A packet that overtakes nothing of its source goes to the end. */
  lemma NothingToOvertake(ps: seq<PacketLink>, x: PacketLink)
    requires SearchedTo(Of(ps, x.src), x.seqNum, |Of(ps, x.src)|) && Sorted(Of(ps, x.src))
    ensures Place(ps, x) == |ps| && Of(ps[..|ps|], x.src) == Of(ps, x.src)
  {
    hide Of;
    var l := Of(ps, x.src);
    OfMembers(ps, x.src);
    assert ps[..|ps|] == ps;
    var p := Place(ps, x);
    if p < |ps| {
      assert false;
    }
  }

  lemma SortedInsert(l: seq<PacketLink>, x: PacketLink, k: nat)
    requires Sorted(l) && SearchedTo(l, x.seqNum, k)
    ensures Sorted(Insert(l, k, x))
  {
  }

  lemma DistinctInsert(ps: seq<PacketLink>, x: PacketLink, p: nat)
    requires Distinct(ps) && x !in ps && p <= |ps|
    ensures Distinct(Insert(ps, p, x))
    ensures forall y :: y in Insert(ps, p, x) <==> y == x || y in ps
  {
  }

  // ---------------------------------------------------------------- the links

  ghost predicate PrevLinks(ps: seq<PacketLink>)
    reads ps`prev
  {
    forall i {:trigger ps[i].prev} :: 0 <= i < |ps| ==> ps[i].prev == At(ps, i - 1)
  }

  ghost predicate NextLinks(ps: seq<PacketLink>)
    reads ps`next
  {
    forall i {:trigger ps[i].next} :: 0 <= i < |ps| ==> ps[i].next == At(ps, i + 1)
  }

  ghost predicate SrcPrevLinks(l: seq<PacketLink>)
    reads l`srcPrev
  {
    forall k {:trigger l[k].srcPrev} :: 0 <= k < |l| ==> l[k].srcPrev == At(l, k - 1)
  }

  ghost predicate SrcNextLinks(l: seq<PacketLink>)
    reads l`srcNext
  {
    forall k {:trigger l[k].srcNext} :: 0 <= k < |l| ==> l[k].srcNext == At(l, k + 1)
  }

  /** A well-formed doubly linked list of one source, with its two ends. */
  ghost predicate SourceThreaded(l: seq<PacketLink>, s: SourceLink)
    reads s, l`srcPrev, l`srcNext
  {
    s.first == At(l, 0) && s.last == At(l, |l| - 1) && SrcPrevLinks(l) && SrcNextLinks(l)
  }

  /** Insertion into the global queue directly in front of `y`. */
  method GlobalBefore(x: PacketLink, y: PacketLink, ghost ps: seq<PacketLink>, ghost p: nat)
    requires Distinct(ps) && PrevLinks(ps) && NextLinks(ps) && x !in ps && x.prev == null && x.next == null
    requires p < |ps| && ps[p] == y
    modifies ps`prev, ps`next, x`prev, x`next
    ensures PrevLinks(Insert(ps, p, x)) && NextLinks(Insert(ps, p, x))
  {
    hide Insert;
    var before := y.prev;
    if before != null {
      before.next := x;
      x.prev := before;
    }
    y.prev := x;
    x.next := y;
    ghost var r := Insert(ps, p, x);
    assert PrevLinks(r) by {
      assert forall i :: 0 <= i < |r| ==> r[i] == if i < p then ps[i] else if i == p then x else ps[i - 1];
    }
    assert NextLinks(r) by {
      assert forall i :: 0 <= i < |r| ==> r[i] == if i < p then ps[i] else if i == p then x else ps[i - 1];
    }
  }

  /** Insertion at the end of the global queue, whose last packet is `last`. */
  method GlobalAppend(x: PacketLink, last: PacketLink?, ghost ps: seq<PacketLink>)
    requires Distinct(ps) && PrevLinks(ps) && NextLinks(ps) && x !in ps && x.prev == null && x.next == null
    requires last == At(ps, |ps| - 1)
    modifies ps`next, x`prev
    ensures PrevLinks(Insert(ps, |ps|, x)) && NextLinks(Insert(ps, |ps|, x))
  {
    hide Insert;
    if last != null {
      last.next := x;
      x.prev := last;
    }
  }

  method SourceFirst(x: PacketLink, s: SourceLink, ghost l: seq<PacketLink>)
    requires Distinct(l) && SourceThreaded(l, s) && l != [] && x !in l && x.srcPrev == null
    modifies l`srcPrev, x`srcNext, s`first
    ensures SourceThreaded(Insert(l, 0, x), s)
  {
    hide Insert;
    var srcFirst := s.first;
    srcFirst.srcPrev := x;
    x.srcNext := srcFirst;
    s.first := x;
  }

  method SourceMiddle(x: PacketLink, plink: PacketLink, ghost s: SourceLink, ghost l: seq<PacketLink>, ghost k: nat)
    requires Distinct(l) && SourceThreaded(l, s) && x !in l
    requires 0 < k < |l| && l[k - 1] == plink
    modifies l`srcPrev, l`srcNext, x`srcPrev, x`srcNext
    ensures SourceThreaded(Insert(l, k, x), s)
  {
    hide Insert;
    assert plink.srcNext == l[k];
    plink.srcNext.srcPrev := x;
    x.srcNext := plink.srcNext;
    plink.srcNext := x;
    x.srcPrev := plink;
    ghost var r := Insert(l, k, x);
    assert SrcPrevLinks(r) by {
      assert forall i :: 0 <= i < |r| ==> r[i] == if i < k then l[i] else if i == k then x else l[i - 1];
    }
    assert SrcNextLinks(r) by {
      assert forall i :: 0 <= i < |r| ==> r[i] == if i < k then l[i] else if i == k then x else l[i - 1];
    }
  }

  method SourceAppend(x: PacketLink, s: SourceLink, ghost l: seq<PacketLink>)
    requires Distinct(l) && SourceThreaded(l, s) && x !in l && x.srcPrev == null && x.srcNext == null
    modifies l`srcNext, x`srcPrev, s`first, s`last
    ensures SourceThreaded(Insert(l, |l|, x), s)
  {
    hide Insert;
    if s.last == null {
      s.last := x;
      s.first := x;
    } else {
      s.last.srcNext := x;
      x.srcPrev := s.last;
      s.last := x;
    }
  }

  // ---------------------------------------------------------------- all sources

  ghost predicate SourceOk(ps: seq<PacketLink>, s: SourceLink)
    reads s, ps`srcPrev, ps`srcNext
  {
    SourceThreaded(Of(ps, s), s) && Sorted(Of(ps, s))
  }

  ghost predicate SourcesOk(ps: seq<PacketLink>, sources: set<SourceLink>)
    reads sources, ps`srcPrev, ps`srcNext
  {
    forall s :: s in sources ==> SourceOk(ps, s)
  }

  /** Once `x` is in its place on the list of its source, every source is in order. */
  lemma SourceOkInsert(ps: seq<PacketLink>, x: PacketLink, p: nat, k: nat, s: SourceLink)
    requires p <= |ps| && SearchedTo(Of(ps, x.src), x.seqNum, k) && k == |Of(ps[..p], x.src)|
    requires Sorted(Of(ps, x.src)) && SourceThreaded(Insert(Of(ps, x.src), k, x), x.src)
    requires s != x.src ==> SourceOk(ps, s)
    ensures SourceOk(Insert(ps, p, x), s)
  {
    hide Of, Insert;
    OfInsert(ps, p, x, s);
    SortedInsert(Of(ps, x.src), x, k);
  }

  /** Puts `x` on the list of its source in front of packet `k`, or at the end. */
  method LinkSource(x: PacketLink, plink: PacketLink?, atEnd: bool,
                    ghost ps: seq<PacketLink>, ghost sources: set<SourceLink>, ghost p: nat, ghost k: nat)
    requires Distinct(ps) && SourcesOk(ps, sources) && x.src in sources && x !in ps && x.srcPrev == null && x.srcNext == null
    requires p <= |ps| && SearchedTo(Of(ps, x.src), x.seqNum, k) && Of(ps[..p], x.src) == Of(ps, x.src)[..k]
    requires plink == At(Of(ps, x.src), k - 1) && atEnd == (k == |Of(ps, x.src)|)
    modifies ps`srcPrev, ps`srcNext, x`srcPrev, x`srcNext, x.src
    ensures SourcesOk(Insert(ps, p, x), sources)
  {
    hide Of, Insert, SourceThreaded;
    ghost var l := Of(ps, x.src);
    assert SourceOk(ps, x.src);
    DistinctOf(ps, x.src);
    OfMembers(ps, x.src);
    label before:
    if atEnd {
      SourceAppend(x, x.src, l);
    } else if plink == null {
      SourceFirst(x, x.src, l);
    } else {
      SourceMiddle(x, plink, x.src, l, k);
    }
    forall s | s in sources
      ensures SourceOk(Insert(ps, p, x), s)
    {
      if s != x.src {
        OfMembers(ps, s);
        assert old@before(SourceOk(ps, s));
        assert SourceThreaded(Of(ps, s), s);
      }
      SourceOkInsert(ps, x, p, k, s);
    }
  }

  /** Both insertions of a packet that goes in front of `y`. */
  method LinkBefore(x: PacketLink, y: PacketLink, plink: PacketLink?,
                    ghost ps: seq<PacketLink>, ghost sources: set<SourceLink>, ghost p: nat, ghost k: nat)
    requires Distinct(ps) && PrevLinks(ps) && NextLinks(ps) && SourcesOk(ps, sources)
    requires x.src in sources && x !in ps && x.Unlinked() && p < |ps| && ps[p] == y
    requires SearchedTo(Of(ps, x.src), x.seqNum, k) && Of(ps[..p], x.src) == Of(ps, x.src)[..k]
    requires k < |Of(ps, x.src)| && plink == At(Of(ps, x.src), k - 1)
    modifies ps, x, x.src
    ensures PrevLinks(Insert(ps, p, x)) && NextLinks(Insert(ps, p, x)) && SourcesOk(Insert(ps, p, x), sources)
  {
    hide Of, Insert, SearchedTo, SourcesOk, PrevLinks, NextLinks, Distinct;
    LinkSource(x, plink, false, ps, sources, p, k);
    GlobalBefore(x, y, ps, p);
  }

  /** Both insertions of a packet that goes to the end. */
  method LinkLast(x: PacketLink, last: PacketLink?, ghost ps: seq<PacketLink>, ghost sources: set<SourceLink>)
    requires Distinct(ps) && PrevLinks(ps) && NextLinks(ps) && SourcesOk(ps, sources)
    requires x.src in sources && x !in ps && x.Unlinked() && last == At(ps, |ps| - 1)
    requires SearchedTo(Of(ps, x.src), x.seqNum, |Of(ps, x.src)|)
    modifies ps, x, x.src
    ensures PrevLinks(Insert(ps, |ps|, x)) && NextLinks(Insert(ps, |ps|, x)) && SourcesOk(Insert(ps, |ps|, x), sources)
  {
    hide Of, Insert, SearchedTo, SourceThreaded, SourceOk, PrevLinks, NextLinks, Sorted, Distinct;
    ghost var l := Of(ps, x.src);
    assert SourceOk(ps, x.src);
    EndOfSource(ps, x.src);
    assert ps[..|ps|] == ps && l[..|l|] == l;
    LinkSource(x, x.src.last, true, ps, sources, |ps|, |l|);
    GlobalAppend(x, last, ps);
  }

  // ---------------------------------------------------------------- the queue

  class IncomingQueue {
    var recvFirst: PacketLink?
    var recvLast: PacketLink?

    /** The packets of the global queue from first to last, and the sources they may come from. */
    ghost var order: seq<PacketLink>
    ghost var sources: set<SourceLink>

    ghost predicate Valid()
      reads this, order, sources
    {
      && Distinct(order)
      && PrevLinks(order) && NextLinks(order)
      && recvLast == At(order, |order| - 1)
      && (if order == [] then recvFirst == null else recvFirst in order)
      && (forall x :: x in order ==> x.src in sources)
      && SourcesOk(order, sources)
    }

    /** An empty queue for packets of these sources, none of which has any yet. */
    constructor (ghost sources: set<SourceLink>)
      requires forall s :: s in sources ==> s.first == null && s.last == null
      ensures Valid() && order == [] && this.sources == sources
    {
      recvFirst, recvLast, order := null, null, [];
      this.sources := sources;
    }

    /** Puts `x` in front of `y` on both lists; `plink` is the packet of its source in front of `y`, if any. */
    method PutBefore(x: PacketLink, y: PacketLink, plink: PacketLink?, ghost k: nat)
      requires Valid() && x.src in sources && x !in order && x.Unlinked()
      requires SearchedTo(Of(order, x.src), x.seqNum, k) && k < |Of(order, x.src)|
      requires y == Of(order, x.src)[k] && plink == At(Of(order, x.src), k - 1)
      modifies this, order, x, x.src
      ensures Valid() && sources == old(sources) && recvFirst == old(recvFirst)
      ensures order == Insert(old(order), Place(old(order), x), x)
    {
      hide Of, Insert, SearchedTo, SourceThreaded, PrevLinks, NextLinks, Sorted, Distinct, Place, SourceOk;
      ghost var was := order;
      assert SourceOk(was, x.src);
      EndOfSource(was, x.src);
      OfMembers(was, x.src);
      ghost var p := IndexOf(was, y);
      SearchFindsPlace(was, x, p, k);
      LinkBefore(x, y, plink, was, sources, p, k);
      order := Insert(was, p, x);
      DistinctInsert(was, x, p);
      assert SourcesOk(order, sources);
      assert recvLast == At(order, |order| - 1);
      assert forall z :: z in order ==> z.src in sources;
    }

    /** Puts `x` at the end of both lists. */
    method PutLast(x: PacketLink)
      requires Valid() && x.src in sources && x !in order && x.Unlinked()
      requires SearchedTo(Of(order, x.src), x.seqNum, |Of(order, x.src)|)
      modifies this, order, x, x.src
      ensures Valid() && sources == old(sources)
      ensures order == Insert(old(order), Place(old(order), x), x) && Place(old(order), x) == |old(order)|
      ensures recvFirst == if old(order) == [] then x else old(recvFirst)
    {
      hide Of, Insert, SearchedTo, SourceThreaded, SourceOk, PrevLinks, NextLinks, Sorted, Distinct, Place;
      ghost var was := order;
      assert SourceOk(was, x.src);
      EndOfSource(was, x.src);
      NothingToOvertake(was, x);
      DistinctInsert(was, x, |was|);
      assert forall z :: z in Insert(was, |was|, x) ==> z.src in sources;
      LinkLast(x, recvLast, was, sources);
      order := Insert(was, |was|, x);
      recvLast := x;
      if recvFirst == null {
        recvFirst := x;
      }
      assert SourcesOk(order, sources);
    }

    method InsertRecvPacket(x: PacketLink) returns (accepted: bool)
      requires Valid() && x.src in sources && x !in order && x.Unlinked()
      modifies this, order, x, x.src
      ensures Valid() && sources == old(sources)
      ensures accepted == !Duplicate(old(order), x) && order == After(old(order), x)
      ensures recvFirst == if old(order) == [] then x else old(recvFirst)
    {
      hide Of, Insert, Place, SourceThreaded, SourceOk, PrevLinks, NextLinks, Sorted, Distinct;
      ghost var l := Of(order, x.src);
      assert SourceOk(order, x.src);
      EndOfSource(order, x.src);
      var plink := x.src.last;
      if plink != null && x.seqNum < plink.seqNum {
        ghost var k;
        plink, k := SearchBack(x.seqNum, x.src, l);
        var y := if plink == null then x.src.first else plink.srcNext;
        PutBefore(x, y, plink, k);
      } else {
        if plink != null && x.seqNum == plink.seqNum {
          return false;
        }
        PutLast(x);
      }
      return true;
    }
  }

  /** The search for the place of a late packet, from the end of its source's list. */
  method SearchBack(seqNum: u16, s: SourceLink, ghost l: seq<PacketLink>) returns (plink: PacketLink?, ghost k: nat)
    requires SourceThreaded(l, s) && l != [] && seqNum < l[|l| - 1].seqNum
    ensures SearchedTo(l, seqNum, k) && k < |l| && plink == At(l, k - 1)
    ensures l[k] == if plink == null then s.first else plink.srcNext
  {
    plink, k := s.last, |l|;
    while plink != null && seqNum < plink.seqNum
      invariant k <= |l| && plink == At(l, k - 1)
      invariant k == |l| ==> plink != null && seqNum < plink.seqNum
      invariant forall j :: k <= j < |l| ==> seqNum < l[j].seqNum
      decreases k
    {
      plink := plink.srcPrev;
      k := k - 1;
    }
  }

  lemma EndOfSource(ps: seq<PacketLink>, s: SourceLink)
    requires SourceOk(ps, s)
    ensures SourceThreaded(Of(ps, s), s) && Sorted(Of(ps, s))
    ensures s.last == At(Of(ps, s), |Of(ps, s)| - 1)
  {
  }

  // ---------------------------------------------------------------- walks and whole runs

  ghost function Reversed(ps: seq<PacketLink>): (r: seq<PacketLink>)
    ensures |r| == |ps|
  {
    if ps == [] then [] else [ps[|ps| - 1]] + Reversed(ps[..|ps| - 1])
  }

  /** The backward walk of the global queue visits every packet exactly once, the newest first. */
  method WalkBack(q: IncomingQueue) returns (visited: seq<PacketLink>)
    requires q.Valid()
    ensures visited == Reversed(q.order)
  {
    hide Of, SourcesOk, Distinct, NextLinks, Reversed;
    visited := [];
    var x := q.recvLast;
    ghost var i := |q.order|;
    ReversedNone();
    assert q.order[..i] == q.order;
    while x != null
      invariant 0 <= i <= |q.order| && x == At(q.order, i - 1)
      invariant visited + Reversed(q.order[..i]) == Reversed(q.order)
      decreases i
    {
      ReversedStep(q.order, i);
      assert (visited + [x]) + Reversed(q.order[..i - 1]) == visited + ([x] + Reversed(q.order[..i - 1]));
      visited := visited + [x];
      x := x.prev;
      i := i - 1;
    }
  }

  lemma ReversedNone()
    ensures Reversed([]) == []
  {
  }

  lemma ReversedStep(ps: seq<PacketLink>, i: nat)
    requires 0 < i <= |ps|
    ensures Reversed(ps[..i]) == [ps[i - 1]] + Reversed(ps[..i - 1])
  {
    assert ps[..i][..i - 1] == ps[..i - 1];
  }

  /** Restricted to one source, the backward walk is that source's list reversed. */
  lemma {:induction false} WalkRestricted(ps: seq<PacketLink>, s: SourceLink)
    ensures Of(Reversed(ps), s) == Reversed(Of(ps, s))
  {
    if ps != [] {
      var n := |ps| - 1;
      WalkRestricted(ps[..n], s);
      OfAppend([ps[n]], Reversed(ps[..n]), s);
      OfSingle(ps[n], s);
      if ps[n].src == s {
        assert (Of(ps[..n], s) + [ps[n]])[..|Of(ps[..n], s)|] == Of(ps[..n], s);
      }
    }
  }

  /** A run of insertions on the order alone, and the packets it accepts. */
  ghost function AfterAll(ps: seq<PacketLink>, xs: seq<PacketLink>): seq<PacketLink> {
    if xs == [] then ps else After(AfterAll(ps, xs[..|xs| - 1]), xs[|xs| - 1])
  }

  ghost function Accepted(ps: seq<PacketLink>, xs: seq<PacketLink>): seq<PacketLink> {
    if xs == [] then []
    else
      var n := |xs| - 1;
      if Duplicate(AfterAll(ps, xs[..n]), xs[n]) then Accepted(ps, xs[..n]) else Accepted(ps, xs[..n]) + [xs[n]]
  }

  /** A run on the object follows the run on the order, and the invariant holds throughout. */
  method InsertAll(q: IncomingQueue, xs: seq<PacketLink>)
    requires q.Valid() && Distinct(xs)
    requires forall i :: 0 <= i < |xs| ==> xs[i].Unlinked() && xs[i] !in q.order && xs[i].src in q.sources
    modifies q, q.order, q.sources, xs
    ensures q.Valid() && q.order == AfterAll(old(q.order), xs)
  {
    hide Of, After, AfterAll, Duplicate, SourcesOk, PrevLinks, NextLinks;
    AfterNone(q.order, xs);
    for n := 0 to |xs|
      invariant q.Valid() && q.sources == old(q.sources) && q.order == AfterAll(old(q.order), xs[..n])
      invariant forall x :: x in q.order ==> x in old(q.order) || x in xs[..n]
      invariant forall i :: n <= i < |xs| ==> xs[i].Unlinked()
    {
      AfterOneMore(old(q.order), xs, n);
      MembersAfter(q.order, xs[n]);
      NotAgain(xs, n);
      assert forall i :: 0 <= i < |q.order| ==> q.order[i] in old(q.order) || q.order[i] in xs;
      var accepted := q.InsertRecvPacket(xs[n]);
    }
    assert xs[..|xs|] == xs;
  }

  lemma NotAgain(xs: seq<PacketLink>, n: nat)
    requires Distinct(xs) && n < |xs|
    ensures xs[n] !in xs[..n] && forall i :: n < i < |xs| ==> xs[i] != xs[n] && xs[i] !in xs[..n]
    ensures forall y :: y in xs[..n + 1] <==> y == xs[n] || y in xs[..n]
  {
  }

  lemma AfterNone(ps: seq<PacketLink>, xs: seq<PacketLink>)
    ensures AfterAll(ps, xs[..0]) == ps
  {
  }

  lemma AfterOneMore(ps: seq<PacketLink>, xs: seq<PacketLink>, n: nat)
    requires n < |xs|
    ensures AfterAll(ps, xs[..n + 1]) == After(AfterAll(ps, xs[..n]), xs[n])
  {
    hide After;
    assert xs[..n + 1][..n] == xs[..n];
  }

  lemma MembersAfter(ps: seq<PacketLink>, x: PacketLink)
    ensures forall y :: y in After(ps, x) ==> y == x || y in ps
  {
  }

  /**
   * Over any run from the empty queue every source's packets are in sequence-number order, and the queue
   * holds exactly the accepted packets, each once.
   */
  lemma {:induction false} RunFromEmpty(xs: seq<PacketLink>, s: SourceLink)
    ensures Sorted(Of(AfterAll([], xs), s))
    ensures multiset(AfterAll([], xs)) == multiset(Accepted([], xs))
  {
    hide Of, Place, Insert, Duplicate, Sorted;
    if xs == [] {
      OfNothing(s);
      SortedNothing();
    } else {
      var n := |xs| - 1;
      RunFromEmpty(xs[..n], s);
      var ps, x := AfterAll([], xs[..n]), xs[n];
      if !Duplicate(ps, x) {
        InsertKeepsSorted(ps, x, s);
        MultisetInsert(ps, Place(ps, x), x);
      }
    }
  }

  lemma MultisetInsert(ps: seq<PacketLink>, p: nat, x: PacketLink)
    requires p <= |ps|
    ensures multiset(Insert(ps, p, x)) == multiset(ps) + multiset{x}
  {
    assert ps == ps[..p] + ps[p..];
  }

  /** The packets of a source in front of the place of `x` are those its search would stop behind. */
  lemma {:induction false} PlaceSplitsSource(ps: seq<PacketLink>, x: PacketLink)
    requires Sorted(Of(ps, x.src))
    ensures SearchedTo(Of(ps, x.src), x.seqNum, |Of(ps[..Place(ps, x)], x.src)|)
  {
    hide Of;
    var p, l := Place(ps, x), Of(ps, x.src);
    var k := |Of(ps[..p], x.src)|;
    OfAppend(ps[..p], ps[p..], x.src);
    assert ps == ps[..p] + ps[p..];
    OfMembers(ps[..p], x.src);
    if k > 0 {
      assert l[k - 1] in Of(ps[..p], x.src);
    }
    if p < |ps| {
      OfAppend([ps[p]], ps[p + 1..], x.src);
      assert ps[p..] == [ps[p]] + ps[p + 1..];
      OfSingle(ps[p], x.src);
      assert l[k] == ps[p];
    } else {
      assert ps[p..] == [];
      OfNothing(x.src);
    }
  }

  lemma SortedNothing()
    ensures Sorted([])
  {
  }

  lemma OfNothing(s: SourceLink)
    ensures Of([], s) == []
  {
  }

  lemma InsertKeepsSorted(ps: seq<PacketLink>, x: PacketLink, s: SourceLink)
    requires Sorted(Of(ps, s))
    ensures Sorted(Of(Insert(ps, Place(ps, x), x), s))
  {
    hide Of, Insert, Place, SearchedTo;
    OfInsert(ps, Place(ps, x), x, s);
    if s == x.src {
      PlaceSplitsSource(ps, x);
      SortedInsert(Of(ps, s), x, |Of(ps[..Place(ps, x)], s)|);
    }
  }

  /**
   * The pointer to the first packet is never moved once set, so a forward walk from it sees the whole
   * queue exactly until a packet arrives that overtakes the first one.
   */
  lemma FirstStaysHead(ps: seq<PacketLink>, x: PacketLink)
    requires ps != [] && Sorted(Of(ps, ps[0].src))
    ensures After(ps, x)[0] == ps[0] <==> !Overtakes(x, ps[0])
  {
    hide Of, Place;
    if Overtakes(x, ps[0]) {
      OfAppend([ps[0]], ps[1..], x.src);
      OfSingle(ps[0], x.src);
      assert ps == [ps[0]] + ps[1..];
      assert Of(ps, x.src)[0] == ps[0];
    }
  }
}
