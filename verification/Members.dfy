/**
 * The membership table of ccRTP: a hash table of sources with sorted collision chains, threaded onto a
 * list in order of creation, with a member count kept beside it.
 */
module Members {
  import opened Octets

  class SyncSourceLink {
    const id: u32
    var nextCollis: SyncSourceLink?
    var next: SyncSourceLink?

    constructor (id: u32)
      ensures this.id == id && nextCollis == null && next == null
    {
      this.id := id;
      nextCollis, next := null, null;
    }
  }

  function Hash(a: u32, buckets: nat): (h: nat)
    requires buckets > 0
    ensures h < buckets
  {
    ((a + a / 256) % COUNT_MOD) % buckets
  }

  // ---------------------------------------------------------------- sequences of links

  ghost function At(c: seq<SyncSourceLink>, i: int): SyncSourceLink? {
    if 0 <= i < |c| then c[i] else null
  }

  ghost function Insert(c: seq<SyncSourceLink>, p: nat, x: SyncSourceLink): (r: seq<SyncSourceLink>)
    requires p <= |c|
    ensures |r| == |c| + 1 && r[p] == x
    ensures forall i :: 0 <= i < p ==> r[i] == c[i]
    ensures forall i :: p < i < |r| ==> r[i] == c[i - 1]
  {
    c[..p] + [x] + c[p..]
  }

  ghost function Ids(order: seq<SyncSourceLink>): (r: seq<u32>)
    ensures |r| == |order| && forall i :: 0 <= i < |r| ==> r[i] == order[i].id
  {
    seq(|order|, i requires 0 <= i < |order| => order[i].id)
  }

  ghost predicate Ascending(c: seq<SyncSourceLink>) {
    forall i, j :: 0 <= i < j < |c| ==> c[i].id < c[j].id
  }

  ghost predicate DistinctIds(order: seq<SyncSourceLink>) {
    forall i, j :: 0 <= i < j < |order| ==> order[i].id != order[j].id
  }

  /** The search of a sorted chain for `ssrc` stops at position `k`. */
  ghost predicate SearchedTo(c: seq<SyncSourceLink>, ssrc: u32, k: nat) {
    k <= |c| && (forall j :: 0 <= j < k ==> c[j].id < ssrc) && (k < |c| ==> ssrc <= c[k].id)
  }

  // ---------------------------------------------------------------- the links

  ghost predicate CollisLinks(c: seq<SyncSourceLink>)
    reads c`nextCollis
  {
    forall k {:trigger c[k].nextCollis} :: 0 <= k < |c| ==> c[k].nextCollis == At(c, k + 1)
  }

  ghost predicate NextLinks(order: seq<SyncSourceLink>)
    reads order`next
  {
    forall k {:trigger order[k].next} :: 0 <= k < |order| ==> order[k].next == At(order, k + 1)
  }

  /** Everything about one bucket that does not depend on the heap. */
  ghost predicate Bucket(c: seq<SyncSourceLink>, order: seq<SyncSourceLink>, h: nat, buckets: nat)
    requires buckets > 0
  {
    && Ascending(c)
    && (forall k :: 0 <= k < |c| ==> c[k] in order && Hash(c[k].id, buckets) == h)
    && (forall i :: 0 <= i < |order| && Hash(order[i].id, buckets) == h ==> order[i] in c)
  }

  ghost predicate Chained(c: seq<SyncSourceLink>, head: SyncSourceLink?)
    reads c`nextCollis
  {
    head == At(c, 0) && CollisLinks(c)
  }

  /** Puts the new link `x` into the chain in front of position `k`. */
  method LinkCollis(links: array<SyncSourceLink?>, h: nat, x: SyncSourceLink, prev: SyncSourceLink?,
                    result: SyncSourceLink?, ghost c: seq<SyncSourceLink>, ghost k: nat)
    requires h < links.Length && Chained(c, links[h]) && Ascending(c) && k <= |c|
    requires prev == At(c, k - 1) && result == At(c, k) && x !in c && x.nextCollis == null
    modifies links, c`nextCollis, x`nextCollis
    ensures Chained(Insert(c, k, x), links[h])
    ensures forall g :: 0 <= g < links.Length && g != h ==> links[g] == old(links[g])
  {
    hide Insert;
    if prev != null {
      prev.nextCollis := x;
    } else {
      links[h] := x;
    }
    if result != null {
      x.nextCollis := result;
    }
    ghost var r := Insert(c, k, x);
    assert CollisLinks(r) by {
      assert forall i :: 0 <= i < |r| ==> r[i] == if i < k then c[i] else if i == k then x else c[i - 1];
    }
  }

  lemma BucketInsert(c: seq<SyncSourceLink>, order: seq<SyncSourceLink>, h: nat, buckets: nat, x: SyncSourceLink, k: nat)
    requires buckets > 0 && Bucket(c, order, h, buckets) && SearchedTo(c, x.id, k) && (k < |c| ==> c[k].id != x.id)
    requires Hash(x.id, buckets) == h
    ensures Bucket(Insert(c, k, x), order + [x], h, buckets)
  {
  }

  /** A search that does not stop at `ssrc` has shown that it is not registered. */
  lemma SearchDecides(c: seq<SyncSourceLink>, order: seq<SyncSourceLink>, h: nat, buckets: nat, ssrc: u32, k: nat)
    requires buckets > 0 && h == Hash(ssrc, buckets) && Bucket(c, order, h, buckets) && SearchedTo(c, ssrc, k)
    ensures ssrc in Ids(order) <==> k < |c| && c[k].id == ssrc
  {
  }

  ghost predicate AllBuckets(chains: seq<seq<SyncSourceLink>>, order: seq<SyncSourceLink>, buckets: nat)
    requires |chains| == buckets > 0
  {
    forall h :: 0 <= h < buckets ==> Bucket(chains[h], order, h, buckets)
  }

  ghost predicate AllChained(chains: seq<seq<SyncSourceLink>>, order: seq<SyncSourceLink>, links: array<SyncSourceLink?>)
    requires |chains| == links.Length
    reads links, order`nextCollis
  {
    forall h :: 0 <= h < |chains| ==>
      (forall k :: 0 <= k < |chains[h]| ==> chains[h][k] in order) && Chained(chains[h], links[h])
  }

  /** The chains once `x` is put in front of position `k` of its own. */
  ghost function Entered(chains: seq<seq<SyncSourceLink>>, x: SyncSourceLink, k: nat): (r: seq<seq<SyncSourceLink>>)
    requires |chains| > 0 && k <= |chains[Hash(x.id, |chains|)]|
    ensures |r| == |chains|
  {
    var h := Hash(x.id, |chains|);
    chains[h := Insert(chains[h], k, x)]
  }

  // ---------------------------------------------------------------- the table

  class MembershipBookkeeping {
    const buckets: nat
    const sourceLinks: array<SyncSourceLink?>
    var first: SyncSourceLink?
    var last: SyncSourceLink?
    var members: u32

    /** The collision chains, and the sources in order of creation. */
    ghost var chains: seq<seq<SyncSourceLink>>
    ghost var order: seq<SyncSourceLink>

    ghost predicate Shape()
      reads this
    {
      buckets > 0 && sourceLinks.Length == buckets == |chains|
    }

    ghost predicate Creation()
      reads this, order`next
    {
      DistinctIds(order) && NextLinks(order) && first == At(order, 0) && last == At(order, |order| - 1)
    }

    ghost predicate Valid()
      reads this, sourceLinks, order
    {
      Shape() && AllBuckets(chains, order, buckets) && AllChained(chains, order, sourceLinks) && Creation()
    }

    constructor (initialSize: u32)
      requires initialSize > 0
      ensures Valid() && order == [] && members == 0 && fresh(sourceLinks) && buckets == initialSize
    {
      buckets := initialSize;
      sourceLinks := new SyncSourceLink?[initialSize](_ => null);
      first, last, members := null, null, 0;
      order, chains := [], seq(initialSize, _ => []);
    }

    /** Whether a source is registered; the search ends at the first larger identifier. */
    method IsRegistered(ssrc: u32) returns (result: bool)
      requires Valid()
      ensures result == (ssrc in Ids(order))
    {
      hide Hash, Ids, Ascending;
      var h := Hash(ssrc, buckets);
      ghost var c, k := chains[h], 0;
      result := false;
      var sl := sourceLinks[h];
      while sl != null && !result
        invariant k <= |c| && sl == At(c, k)
        invariant forall j :: 0 <= j < k ==> c[j].id < ssrc
        invariant result ==> k < |c| && c[k].id == ssrc
        decreases |c| - k, !result
      {
        if ssrc == sl.id {
          result := true;
        } else if ssrc < sl.id {
          break;
        } else {
          sl := sl.nextCollis;
          k := k + 1;
        }
      }
      assert Bucket(c, order, h, buckets);
      SearchDecides(c, order, h, buckets, ssrc, k);
    }

    /** The place of a source in its chain, with the link in front of it. */
    method Search(ssrc: u32) returns (prev: SyncSourceLink?, result: SyncSourceLink?, ghost k: nat)
      requires Valid()
      ensures SearchedTo(chains[Hash(ssrc, buckets)], ssrc, k)
      ensures prev == At(chains[Hash(ssrc, buckets)], k - 1) && result == At(chains[Hash(ssrc, buckets)], k)
    {
      hide Hash, Ids, Ascending;
      var h := Hash(ssrc, buckets);
      ghost var c := chains[h];
      result, prev, k := sourceLinks[h], null, 0;
      while result != null && ssrc > result.id
        invariant k <= |c| && result == At(c, k) && prev == At(c, k - 1)
        invariant forall j :: 0 <= j < k ==> c[j].id < ssrc
        decreases |c| - k
      {
        prev := result;
        result := result.nextCollis;
        k := k + 1;
      }
    }

    /** Gets the link of a source, or creates it in its place on both lists. */
    method GetSourceBySSRC(ssrc: u32) returns (result: SyncSourceLink, created: bool)
      requires Valid()
      modifies this, sourceLinks, order
      ensures Valid() && result.id == ssrc && result in order
      ensures created == (ssrc !in Ids(old(order)))
      ensures if created then fresh(result) && order == old(order) + [result] else order == old(order)
      ensures members == if created then (old(members) + 1) % COUNT_MOD else old(members)
    {
      hide Hash, Ids, Ascending, Bucket, Insert, CollisLinks;
      var prev, found, k := Search(ssrc);
      ghost var h := Hash(ssrc, buckets);
      assert Bucket(chains[h], order, h, buckets);
      SearchDecides(chains[h], order, h, buckets, ssrc, k);
      if found != null && found.id == ssrc {
        result, created := found, false;
      } else {
        result := new SyncSourceLink(ssrc);
        created := true;
        Enter(result, prev, found, k);
      }
    }

    /** Enters a new link in its chain and at the end of the creation order, and counts it. */
    method Enter(x: SyncSourceLink, prev: SyncSourceLink?, found: SyncSourceLink?, ghost k: nat)
      requires Valid() && x !in order && x.nextCollis == null && x.next == null && x.id !in Ids(order)
      requires SearchedTo(chains[Hash(x.id, buckets)], x.id, k)
      requires prev == At(chains[Hash(x.id, buckets)], k - 1) && found == At(chains[Hash(x.id, buckets)], k)
      requires found != null ==> found.id != x.id
      modifies this, sourceLinks, order, x
      ensures Valid() && order == old(order) + [x] && members == (old(members) + 1) % COUNT_MOD
    {
      hide Hash, Ids, Insert, Chained, SearchedTo, AllBuckets, AllChained, DistinctIds, NextLinks, Entered, At;
      SearchBounds(chains[Hash(x.id, buckets)], x.id, k);
      BucketsInsert(chains, order, x, k);
      EnterChain(sourceLinks, x, prev, found, chains, order, k);
      chains := Entered(chains, x, k);
      EnterOrder(x);
      members := (members + 1) % COUNT_MOD;
    }

    /** Enters a new link at the end of the creation order. */
    method EnterOrder(x: SyncSourceLink)
      requires Creation() && x !in order && x.next == null && x.id !in Ids(order)
      modifies this`first, this`last, this`order, order`next
      ensures Creation() && order == old(order) + [x]
    {
      hide Ids, DistinctIds, NextLinks, At;
      EndsWith(order, x);
      DistinctAppend(order, x);
      AppendNext(x, last, order);
      if first == null {
        first := x;
      }
      last := x;
      order := order + [x];
    }

    /** The two ends of the creation order with one more link. */
    lemma EndsWith(order: seq<SyncSourceLink>, x: SyncSourceLink)
      ensures At(order + [x], |order + [x]| - 1) == x
      ensures At(order + [x], 0) == (if At(order, 0) == null then x else At(order, 0))
    {
    }

    /** A source that says good-bye is no longer counted, though it stays in the table. */
    method ByeSource(ssrc: u32) returns (found: bool)
      requires Valid()
      modifies this`members
      ensures Valid() && found == (ssrc in Ids(order))
      ensures members == if found then (old(members) - 1) % COUNT_MOD else old(members)
    {
      found := IsRegistered(ssrc);
      if found {
        members := (members - 1) % COUNT_MOD;
      }
    }
  }

  lemma BucketParts(c: seq<SyncSourceLink>, order: seq<SyncSourceLink>, h: nat, buckets: nat)
    requires buckets > 0 && Bucket(c, order, h, buckets)
    ensures Ascending(c) && forall k :: 0 <= k < |c| ==> c[k] in order && Hash(c[k].id, buckets) == h
  {
  }

  lemma InsertMembers(c: seq<SyncSourceLink>, k: nat, x: SyncSourceLink)
    requires k <= |c|
    ensures forall i :: 0 <= i <= |c| ==> Insert(c, k, x)[i] == x || Insert(c, k, x)[i] in c
    ensures forall y :: y in Insert(c, k, x) <==> y == x || y in c
  {
  }

  lemma BucketsInsert(chains: seq<seq<SyncSourceLink>>, order: seq<SyncSourceLink>, x: SyncSourceLink, k: nat)
    requires |chains| > 0 && AllBuckets(chains, order, |chains|) && x.id !in Ids(order)
    requires SearchedTo(chains[Hash(x.id, |chains|)], x.id, k)
    ensures AllBuckets(Entered(chains, x, k), order + [x], |chains|)
  {
  }

  /** Enters `x` in its chain; the other chains stay as they are. */
  method EnterChain(links: array<SyncSourceLink?>, x: SyncSourceLink, prev: SyncSourceLink?, found: SyncSourceLink?,
                    ghost chains: seq<seq<SyncSourceLink>>, ghost order: seq<SyncSourceLink>, ghost k: nat)
    requires |chains| == links.Length > 0 && AllBuckets(chains, order, |chains|) && AllChained(chains, order, links)
    requires x !in order && x.nextCollis == null && k <= |chains[Hash(x.id, |chains|)]|
    requires prev == At(chains[Hash(x.id, |chains|)], k - 1) && found == At(chains[Hash(x.id, |chains|)], k)
    modifies links, order`nextCollis, x`nextCollis
    ensures AllChained(Entered(chains, x, k), order + [x], links)
  {
    hide Hash, Insert, Bucket, CollisLinks, Chained, Ascending;
    var h := Hash(x.id, links.Length);
    ghost var c := chains[h];
    assert Bucket(c, order, h, |chains|) && Chained(c, links[h]);
    BucketParts(c, order, h, |chains|);
    InsertMembers(c, k, x);
    label before:
    LinkCollis(links, h, x, prev, found, c, k);
    ghost var r := Entered(chains, x, k);
    forall g | 0 <= g < |r|
      ensures (forall k :: 0 <= k < |r[g]| ==> r[g][k] in order + [x]) && Chained(r[g], links[g])
    {
      if g != h {
        assert Bucket(chains[g], order, g, |chains|) && old@before(Chained(chains[g], links[g]));
        BucketParts(chains[g], order, g, |chains|);
      }
    }
  }

  lemma SearchBounds(c: seq<SyncSourceLink>, ssrc: u32, k: nat)
    requires SearchedTo(c, ssrc, k)
    ensures k <= |c|
  {
  }

  lemma DistinctAppend(order: seq<SyncSourceLink>, x: SyncSourceLink)
    requires DistinctIds(order) && x.id !in Ids(order)
    ensures DistinctIds(order + [x])
  {
  }

  /** Puts `x` behind the last link of the creation order. */
  method AppendNext(x: SyncSourceLink, last: SyncSourceLink?, ghost order: seq<SyncSourceLink>)
    requires NextLinks(order) && DistinctIds(order) && x !in order && x.next == null && last == At(order, |order| - 1)
    modifies order`next
    ensures NextLinks(order + [x])
  {
    if last != null {
      last.next := x;
    }
  }

  // ---------------------------------------------------------------- whole runs

  datatype Op = Get(ssrc: u32) | Bye(ssrc: u32)

  /** The sources asked for in a run, in the order in which each was first asked for. */
  ghost function FirstAsked(ops: seq<Op>): seq<u32> {
    if ops == [] then []
    else
      var ids, op := FirstAsked(ops[..|ops| - 1]), ops[|ops| - 1];
      if op.Get? && op.ssrc !in ids then ids + [op.ssrc] else ids
  }

  /** How many good-byes of a run came from sources asked for before. */
  ghost function Departures(ops: seq<Op>): nat {
    if ops == [] then 0
    else
      var op := ops[|ops| - 1];
      Departures(ops[..|ops| - 1]) + if op.Bye? && op.ssrc in FirstAsked(ops[..|ops| - 1]) then 1 else 0
  }

  /** One operation on the table. */
  method Do(m: MembershipBookkeeping, op: Op)
    requires m.Valid()
    modifies m, m.sourceLinks, m.order
    ensures m.Valid() && forall i :: 0 <= i < |m.order| ==> fresh(m.order[i]) || m.order[i] in old(m.order)
    ensures Ids(m.order) ==
      if op.Get? && op.ssrc !in Ids(old(m.order)) then Ids(old(m.order)) + [op.ssrc] else Ids(old(m.order))
    ensures op.Bye? && op.ssrc in Ids(old(m.order)) ==> m.members == (old(m.members) - 1) % COUNT_MOD
    ensures op.Get? && op.ssrc !in Ids(old(m.order)) ==> m.members == (old(m.members) + 1) % COUNT_MOD
    ensures op.Get? == (op.ssrc in Ids(old(m.order))) ==> m.members == old(m.members)
  {
    hide AllBuckets, AllChained, DistinctIds, NextLinks;
    match op
    case Get(ssrc) =>
      var link, created := m.GetSourceBySSRC(ssrc);
    case Bye(ssrc) =>
      var found := m.ByeSource(ssrc);
  }

  /** Any run from the empty table registers the sources in the order they were first asked for, once each. */
  method RunAll(m: MembershipBookkeeping, ops: seq<Op>)
    requires m.Valid() && m.order == [] && m.members == 0
    modifies m, m.sourceLinks
    ensures m.Valid() && Ids(m.order) == FirstAsked(ops)
    ensures m.members == (|m.order| - Departures(ops)) % COUNT_MOD
  {
    hide FirstAsked, Departures, AllBuckets, AllChained, DistinctIds, NextLinks, Ids, Hash;
    RunNone(ops);
    for n := 0 to |ops|
      invariant m.Valid() && forall i :: 0 <= i < |m.order| ==> fresh(m.order[i])
      invariant Ids(m.order) == FirstAsked(ops[..n]) && m.members == (|m.order| - Departures(ops[..n])) % COUNT_MOD
    {
      RunOneMore(ops, n);
      WrapsBy(|m.order| - Departures(ops[..n]));
      Do(m, ops[n]);
    }
    assert ops[..|ops|] == ops;
  }

  lemma WrapsBy(n: int)
    ensures (n % COUNT_MOD + 1) % COUNT_MOD == (n + 1) % COUNT_MOD
    ensures (n % COUNT_MOD - 1) % COUNT_MOD == (n - 1) % COUNT_MOD
  {
  }

  lemma RunNone(ops: seq<Op>)
    ensures FirstAsked(ops[..0]) == [] && Departures(ops[..0]) == 0
  {
  }

  lemma RunOneMore(ops: seq<Op>, n: nat)
    requires n < |ops|
    ensures ops[n].Get? && ops[n].ssrc !in FirstAsked(ops[..n]) ==>
              FirstAsked(ops[..n + 1]) == FirstAsked(ops[..n]) + [ops[n].ssrc]
    ensures !(ops[n].Get? && ops[n].ssrc !in FirstAsked(ops[..n])) ==> FirstAsked(ops[..n + 1]) == FirstAsked(ops[..n])
    ensures Departures(ops[..n + 1]) ==
              Departures(ops[..n]) + if ops[n].Bye? && ops[n].ssrc in FirstAsked(ops[..n]) then 1 else 0
  {
    assert ops[..n + 1][..n] == ops[..n];
  }

  /** After any run exactly the sources asked for are registered, each at one place. */
  lemma {:induction false} RegisteredIffAsked(ops: seq<Op>, ssrc: u32)
    ensures ssrc in FirstAsked(ops) <==> Get(ssrc) in ops
    ensures forall i, j :: 0 <= i < j < |FirstAsked(ops)| ==> FirstAsked(ops)[i] != FirstAsked(ops)[j]
  {
    if ops != [] {
      var n := |ops| - 1;
      RegisteredIffAsked(ops[..n], ssrc);
      assert ops == ops[..n] + [ops[n]];
    }
  }

  /** The sources that said good-bye after they were asked for. */
  ghost function Departed(ops: seq<Op>): set<u32> {
    if ops == [] then {}
    else
      var op := ops[|ops| - 1];
      Departed(ops[..|ops| - 1]) + if op.Bye? && op.ssrc in FirstAsked(ops[..|ops| - 1]) then {op.ssrc} else {}
  }

  /** Some registered source says good-bye a second time. */
  ghost predicate LeavesTwice(ops: seq<Op>) {
    exists i, j :: 0 <= i < j < |ops| && ops[i] == ops[j] && ops[i].Bye? && ops[i].ssrc in FirstAsked(ops[..i])
  }

  lemma {:induction false} DepartedExactly(ops: seq<Op>, ssrc: u32)
    ensures ssrc in Departed(ops) <==> exists i :: 0 <= i < |ops| && ops[i] == Bye(ssrc) && ssrc in FirstAsked(ops[..i])
  {
    if ops != [] {
      var n := |ops| - 1;
      DepartedExactly(ops[..n], ssrc);
      forall i | 0 <= i < n
        ensures ops[..n][..i] == ops[..i]
      {
      }
      if ssrc in Departed(ops[..n]) {
        var i :| 0 <= i < n && ops[..n][i] == Bye(ssrc) && ssrc in FirstAsked(ops[..n][..i]);
        assert ops[i] == Bye(ssrc) && ssrc in FirstAsked(ops[..i]);
      }
      if i :| 0 <= i < |ops| && ops[i] == Bye(ssrc) && ssrc in FirstAsked(ops[..i]) {
        if i < n {
          assert ops[..n][i] == Bye(ssrc) && ssrc in FirstAsked(ops[..n][..i]);
        }
      }
    }
  }

  lemma {:induction false} AskedSize(ops: seq<Op>)
    ensures |FirstAsked(ops)| <= |ops| && Departures(ops) <= |ops|
    ensures forall ssrc :: ssrc in Departed(ops) ==> ssrc in FirstAsked(ops)
  {
    if ops != [] {
      AskedSize(ops[..|ops| - 1]);
    }
  }

  lemma {:induction false} SetSize(s: set<u32>, ids: seq<u32>)
    requires forall x :: x in s ==> x in ids
    ensures |s| <= |ids|
  {
    if ids == [] {
      assert s == {};
    } else {
      SetSize(s - {ids[0]}, ids[1..]);
    }
  }

  /** The good-byes counted exceed the sources that left exactly when some source leaves twice. */
  lemma {:induction false} DeparturesIff(ops: seq<Op>)
    ensures |Departed(ops)| <= Departures(ops)
    ensures |Departed(ops)| == Departures(ops) <==> !LeavesTwice(ops)
  {
    hide FirstAsked;
    if ops != [] {
      var n := |ops| - 1;
      DeparturesIff(ops[..n]);
      LeavesTwiceStep(ops);
      AskedSize(ops[..n]);
    }
  }

  lemma LeavesTwiceStep(ops: seq<Op>)
    requires ops != []
    ensures LeavesTwice(ops) <==>
      LeavesTwice(ops[..|ops| - 1]) || (ops[|ops| - 1].Bye? && ops[|ops| - 1].ssrc in Departed(ops[..|ops| - 1]))
  {
    hide FirstAsked, Departed;
    var n := |ops| - 1;
    var front := ops[..n];
    if ops[n].Bye? {
      DepartedExactly(front, ops[n].ssrc);
    }
    if LeavesTwice(front) {
      var i, j :| 0 <= i < j < n && front[i] == front[j] && front[i].Bye? && front[i].ssrc in FirstAsked(front[..i]);
      assert front[..i] == ops[..i] && ops[i] == ops[j];
    } else if ops[n].Bye? && ops[n].ssrc in Departed(front) {
      var i :| 0 <= i < n && front[i] == Bye(ops[n].ssrc) && ops[n].ssrc in FirstAsked(front[..i]);
      assert front[..i] == ops[..i] && ops[i] == ops[n];
    }
    if LeavesTwice(ops) {
      var i, j :| 0 <= i < j <= n && ops[i] == ops[j] && ops[i].Bye? && ops[i].ssrc in FirstAsked(ops[..i]);
      assert front[..i] == ops[..i] && front[i] == ops[i];
      if j < n {
        assert front[j] == ops[j];
      }
    }
  }

  /**
   * The member count is the number of registered sources that have not left exactly when no registered
   * source says good-bye twice: every further good-bye is subtracted again.
   */
  lemma CountIsExactIff(ops: seq<Op>)
    requires |ops| < COUNT_MOD
    ensures (|FirstAsked(ops)| - Departures(ops)) % COUNT_MOD == |FirstAsked(ops)| - |Departed(ops)| <==> !LeavesTwice(ops)
  {
    hide FirstAsked, Departures, Departed, LeavesTwice;
    AskedSize(ops);
    SetSize(Departed(ops), FirstAsked(ops));
    DeparturesIff(ops);
    WrapsOnce(|FirstAsked(ops)|, Departures(ops), |Departed(ops)|);
  }

  lemma WrapsOnce(asked: nat, byes: nat, left: nat)
    requires left <= byes < COUNT_MOD && left <= asked < COUNT_MOD
    ensures (asked - byes) % COUNT_MOD == asked - left <==> byes == left
  {
  }
}
