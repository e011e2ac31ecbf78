/** The sending queue of ccRTP: data is cut into packets, which are sent or expire in the order they were put. */
module OutQueue {
  import opened Octets

  datatype Packet = Packet(seqNum: u16, stamp: u32, marker: bool, payload: seq<u8>)

  // ---------------------------------------------------------------- segmentation

  function Cuts(data: seq<u8>, max: nat): (r: seq<seq<u8>>)
    requires max > 0
    decreases |data|
  {
    if data == [] then [] else if |data| <= max then [data] else [data[..max]] + Cuts(data[max..], max)
  }

  function Join(segs: seq<seq<u8>>): seq<u8> {
    if segs == [] then [] else segs[0] + Join(segs[1..])
  }

  /** The segments join to the data. */
  lemma {:induction false} CutsJoin(data: seq<u8>, max: nat)
    requires max > 0
    ensures Join(Cuts(data, max)) == data
    decreases |data|
  {
    hide Join;
    JoinNone();
    if |data| > max {
      CutsJoin(data[max..], max);
      JoinFirst(data[..max], Cuts(data[max..], max));
      assert data == data[..max] + data[max..];
    } else if data != [] {
      JoinFirst(data, []);
      assert [data] + [] == [data] && data + [] == data;
    }
  }

  lemma JoinNone()
    ensures Join([]) == []
  {
  }

  lemma JoinFirst(s: seq<u8>, segs: seq<seq<u8>>)
    ensures Join([s] + segs) == s + Join(segs)
  {
    assert ([s] + segs)[1..] == segs;
  }

  /** All segments but the last have the full size, and none is empty. */
  lemma {:induction false} CutsSizes(data: seq<u8>, max: nat)
    requires max > 0
    ensures forall i :: 0 <= i < |Cuts(data, max)| ==> 0 < |Cuts(data, max)[i]| <= max
    ensures forall i :: 0 <= i < |Cuts(data, max)| - 1 ==> |Cuts(data, max)[i]| == max
    decreases |data|
  {
    if |data| > max {
      CutsSizes(data[max..], max);
      assert |Cuts(data[max..], max)| > 0;
    }
  }

  function Built(segs: seq<seq<u8>>, first: u16, stamp: u32, mark: bool): (r: seq<Packet>)
    ensures |r| == |segs|
    ensures forall i :: 0 <= i < |segs| ==> r[i] == Packet((first + i) % SEQ_MOD, stamp, mark && i == 0, segs[i])
  {
    seq(|segs|, i requires 0 <= i < |segs| => Packet((first + i) % SEQ_MOD, stamp, mark && i == 0, segs[i]))
  }

  // ---------------------------------------------------------------- what has happened

  datatype Gone = Sent(packet: Packet) | Expired(packet: Packet)

  ghost function Packets(gone: seq<Gone>): (r: seq<Packet>)
    ensures |r| == |gone| && forall i :: 0 <= i < |gone| ==> r[i] == gone[i].packet
  {
    seq(|gone|, i requires 0 <= i < |gone| => gone[i].packet)
  }

  ghost function SentCount(gone: seq<Gone>): nat {
    if gone == [] then 0 else SentCount(gone[..|gone| - 1]) + if gone[|gone| - 1].Sent? then 1 else 0
  }

  ghost function SentOctets(gone: seq<Gone>): nat {
    if gone == [] then 0
    else SentOctets(gone[..|gone| - 1]) + if gone[|gone| - 1].Sent? then |gone[|gone| - 1].packet.payload| else 0
  }

  ghost predicate Consecutive(ps: seq<Packet>, first: u16) {
    forall i :: 0 <= i < |ps| ==> ps[i].seqNum == (first + i) % SEQ_MOD
  }

  class OutgoingQueue {
    const segment: nat
    var queue: seq<Packet>
    var sendSeq: u16
    var packetCount: u32
    var octetCount: u32
    var mark: bool

    /** Every packet ever put, those no longer in the queue, and the first sequence number. */
    ghost var put: seq<Packet>
    ghost var gone: seq<Gone>
    ghost const firstSeq: u16

    ghost predicate Valid()
      reads this
    {
      && segment > 0
      && Packets(gone) + queue == put
      && Consecutive(put, firstSeq) && sendSeq == (firstSeq + |put|) % SEQ_MOD
      && packetCount == SentCount(gone) % COUNT_MOD && octetCount == SentOctets(gone) % COUNT_MOD
    }

    constructor (segment: nat, seqNum: u16)
      requires segment > 0
      ensures Valid() && put == [] && gone == [] && queue == []
    {
      this.segment, queue, sendSeq, packetCount, octetCount, mark := segment, [], seqNum, 0, 0, false;
      put, gone, firstSeq := [], [], seqNum;
    }

    method PutData(stamp: u32, data: seq<u8>)
      requires Valid()
      modifies this`queue, this`sendSeq, this`mark, this`put
      ensures Valid()
      ensures put == old(put) + Built(Cuts(data, segment), old(sendSeq), stamp, old(mark))
      ensures mark == (old(mark) && data == [])
    {
      hide Cuts, Built, Valid;
      HasSegments();
      ghost var target := put + Built(Cuts(data, segment), sendSeq, stamp, mark);
      var offset := 0;
      assert data[0..] == data;
      while offset < |data|
        invariant offset <= |data| && Valid() && mark == (old(mark) && offset == 0)
        invariant put + Built(Cuts(data[offset..], segment), sendSeq, stamp, mark) == target
      {
        var remainder := |data| - offset;
        var step := if remainder > segment then segment else remainder;
        var payload := data[offset..offset + step];
        BuiltFirst(data, offset, segment, sendSeq, stamp, mark);
        Regroup(put, Packet(sendSeq, stamp, mark, payload),
                Built(Cuts(data[offset + step..], segment), (sendSeq + 1) % SEQ_MOD, stamp, false));
        Enqueue(stamp, offset == 0, payload);
        offset := offset + step;
      }
      NoData(sendSeq, stamp, mark, segment);
      assert data[offset..] == [] && put + [] == put;
    }

    lemma HasSegments()
      requires Valid()
      ensures segment > 0
    {
    }

    /** Puts one packet at the end; the first of a call takes the mark, if it is set. */
    method Enqueue(stamp: u32, isFirst: bool, payload: seq<u8>)
      requires Valid()
      modifies this`queue, this`sendSeq, this`mark, this`put
      ensures Valid()
      ensures put == old(put) + [Packet(old(sendSeq), stamp, isFirst && old(mark), payload)]
      ensures sendSeq == (old(sendSeq) + 1) % SEQ_MOD && mark == (old(mark) && !isFirst)
    {
      hide SentCount, SentOctets, Packets;
      var packet := Packet(sendSeq, stamp, isFirst && mark, payload);
      NumberNext(put, firstSeq, packet);
      sendSeq := (sendSeq + 1) % SEQ_MOD;
      mark := mark && !isFirst;
      queue := queue + [packet];
      put := put + [packet];
    }

    method DispatchDataPacket() returns (octets: nat)
      requires Valid()
      modifies this
      ensures Valid() && put == old(put) && sendSeq == old(sendSeq) && mark == old(mark)
      ensures if old(queue) == [] then octets == 0 && gone == old(gone) && queue == []
              else octets == |old(queue)[0].payload| && gone == old(gone) + [Sent(old(queue)[0])] && queue == old(queue)[1..]
    {
      if queue == [] {
        return 0;
      }
      hide SentCount, SentOctets, Consecutive, Packets;
      octets := |queue[0].payload|;
      CountNext(gone, Sent(queue[0]));
      AddWraps(packetCount, SentCount(gone), 1);
      AddWraps(octetCount, SentOctets(gone), octets);
      packetCount := (packetCount + 1) % COUNT_MOD;
      octetCount := (octetCount + octets) % COUNT_MOD;
      Moved(gone, queue, Sent(queue[0]));
      gone := gone + [Sent(queue[0])];
      queue := queue[1..];
    }

    /** A packet whose time is over is taken out without being counted. */
    method ExpireFirst()
      requires Valid() && queue != []
      modifies this
      ensures Valid() && put == old(put) && gone == old(gone) + [Expired(old(queue)[0])] && queue == old(queue)[1..]
      ensures packetCount == old(packetCount) && octetCount == old(octetCount) && sendSeq == old(sendSeq) && mark == old(mark)
    {
      CountNext(gone, Expired(queue[0]));
      Moved(gone, queue, Expired(queue[0]));
      hide SentCount, SentOctets, Consecutive;
      gone := gone + [Expired(queue[0])];
      queue := queue[1..];
    }
  }

  lemma NoData(first: u16, stamp: u32, mark: bool, max: nat)
    requires max > 0
    ensures Cuts([], max) == [] && Built([], first, stamp, mark) == []
  {
  }

  /** The first packet of the data from `offset` on, and those of the data behind it. */
  lemma BuiltFirst(data: seq<u8>, offset: nat, max: nat, first: u16, stamp: u32, mark: bool)
    requires max > 0 && offset < |data|
    ensures var step := if |data| - offset > max then max else |data| - offset;
      Built(Cuts(data[offset..], max), first, stamp, mark) ==
        [Packet(first, stamp, mark, data[offset..offset + step])] +
        Built(Cuts(data[offset + step..], max), (first + 1) % SEQ_MOD, stamp, false)
  {
    var step := if |data| - offset > max then max else |data| - offset;
    var d, rest := data[offset..], Cuts(data[offset + step..], max);
    if |d| > max {
      assert d[..max] == data[offset..offset + max] && d[max..] == data[offset + max..];
    } else {
      assert d == data[offset..offset + step] && data[offset + step..] == [];
    }
    assert Cuts(d, max) == [data[offset..offset + step]] + rest;
    hide Cuts;
    BuiltCons(data[offset..offset + step], rest, first, stamp, mark);
  }

  lemma Regroup(a: seq<Packet>, p: Packet, r: seq<Packet>)
    ensures (a + [p]) + r == a + ([p] + r)
  {
  }

  lemma BuiltCons(s: seq<u8>, rest: seq<seq<u8>>, first: u16, stamp: u32, mark: bool)
    ensures Built([s] + rest, first, stamp, mark) ==
      [Packet(first, stamp, mark, s)] + Built(rest, (first + 1) % SEQ_MOD, stamp, false)
  {
    var l, r := Built([s] + rest, first, stamp, mark), Built(rest, (first + 1) % SEQ_MOD, stamp, false);
    assert l[0] == Packet(first, stamp, mark, s);
    forall i | 0 < i < |l|
      ensures l[i] == r[i - 1]
    {
      assert ((first + 1) % SEQ_MOD + (i - 1)) % SEQ_MOD == (first + i) % SEQ_MOD;
    }
  }

  lemma NumberNext(put: seq<Packet>, first: u16, p: Packet)
    requires Consecutive(put, first) && p.seqNum == (first + |put|) % SEQ_MOD
    ensures Consecutive(put + [p], first) && (p.seqNum + 1) % SEQ_MOD == (first + |put + [p]|) % SEQ_MOD
  {
  }

  lemma CountNext(gone: seq<Gone>, g: Gone)
    ensures SentCount(gone + [g]) == SentCount(gone) + if g.Sent? then 1 else 0
    ensures SentOctets(gone + [g]) == SentOctets(gone) + if g.Sent? then |g.packet.payload| else 0
  {
  }

  lemma AddWraps(count: u32, total: nat, more: nat)
    requires count == total % COUNT_MOD
    ensures (count + more) % COUNT_MOD == (total + more) % COUNT_MOD
  {
  }

  lemma Moved(gone: seq<Gone>, queue: seq<Packet>, g: Gone)
    requires queue != [] && g.packet == queue[0]
    ensures Packets(gone + [g]) + queue[1..] == Packets(gone) + queue
  {
  }

  // ---------------------------------------------------------------- whole runs

  datatype Op = Put(stamp: u32, data: seq<u8>) | Dispatch | Expire | SetMark

  method Do(q: OutgoingQueue, op: Op)
    requires q.Valid()
    modifies q
    ensures q.Valid() && old(q.put) <= q.put && old(q.gone) <= q.gone
    ensures Payloads(q.put) == Payloads(old(q.put)) + if op.Put? then op.data else []
  {
    hide SentCount, SentOctets, Consecutive, Packets, Cuts, Built, Payloads;
    match op
    case Put(stamp, data) =>
      BuiltPayloads(Cuts(data, q.segment), q.sendSeq, stamp, q.mark);
      PayloadsAppend(q.put, Built(Cuts(data, q.segment), q.sendSeq, stamp, q.mark));
      CutsJoin(data, q.segment);
      q.PutData(stamp, data);
    case Dispatch =>
      var octets := q.DispatchDataPacket();
    case Expire =>
      if q.queue != [] {
        q.ExpireFirst();
      }
    case SetMark =>
      q.mark := true;
  }

  /** Any interleaving keeps the queue's invariant: what was put is what is gone, followed by what is queued. */
  method Run(q: OutgoingQueue, ops: seq<Op>)
    requires q.Valid()
    modifies q
    ensures q.Valid() && old(q.put) <= q.put && old(q.gone) <= q.gone
    ensures Payloads(q.put) == Payloads(old(q.put)) + AllData(ops)
  {
    hide SentCount, SentOctets, Consecutive, Packets, Payloads, AllData;
    DataNone(ops);
    for n := 0 to |ops|
      invariant q.Valid() && old(q.put) <= q.put && old(q.gone) <= q.gone
      invariant Payloads(q.put) == Payloads(old(q.put)) + AllData(ops[..n])
    {
      DataNext(ops, n);
      Do(q, ops[n]);
    }
    assert ops[..|ops|] == ops;
  }

  ghost function Payloads(ps: seq<Packet>): seq<u8> {
    if ps == [] then [] else Payloads(ps[..|ps| - 1]) + ps[|ps| - 1].payload
  }

  /** The data of a run, call after call. */
  ghost function AllData(ops: seq<Op>): seq<u8> {
    if ops == [] then [] else AllData(ops[..|ops| - 1]) + if ops[|ops| - 1].Put? then ops[|ops| - 1].data else []
  }

  lemma DataNone(ops: seq<Op>)
    ensures AllData(ops[..0]) == []
  {
  }

  lemma DataNext(ops: seq<Op>, n: nat)
    requires n < |ops|
    ensures AllData(ops[..n + 1]) == AllData(ops[..n]) + if ops[n].Put? then ops[n].data else []
  {
    assert ops[..n + 1][..n] == ops[..n];
  }

  lemma {:induction false} PayloadsAppend(ps: seq<Packet>, qs: seq<Packet>)
    ensures Payloads(ps + qs) == Payloads(ps) + Payloads(qs)
    decreases |qs|
  {
    if qs == [] {
      assert ps + qs == ps;
    } else {
      assert (ps + qs)[..|ps + qs| - 1] == ps + qs[..|qs| - 1];
      PayloadsAppend(ps, qs[..|qs| - 1]);
    }
  }

  lemma {:induction false} JoinAppend(segs: seq<seq<u8>>, s: seq<u8>)
    ensures Join(segs + [s]) == Join(segs) + s
  {
    if segs == [] {
      assert [s][1..] == [];
    } else {
      assert (segs + [s])[1..] == segs[1..] + [s];
      JoinAppend(segs[1..], s);
    }
  }

  lemma {:induction false} BuiltPayloads(segs: seq<seq<u8>>, first: u16, stamp: u32, mark: bool)
    ensures Payloads(Built(segs, first, stamp, mark)) == Join(segs)
    decreases |segs|
  {
    if segs != [] {
      var n := |segs| - 1;
      BuiltPayloads(segs[..n], first, stamp, mark);
      JoinAppend(segs[..n], segs[n]);
      assert segs == segs[..n] + [segs[n]];
      assert Built(segs, first, stamp, mark)[..n] == Built(segs[..n], first, stamp, mark);
    }
  }
}
