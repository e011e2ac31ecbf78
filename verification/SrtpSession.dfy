/**
 * The objects of ccRTP at work together: the packets a sending queue has numbered are protected one after the
 * other, and what reaches the receiver is unprotected one after the other.
 */
module SrtpSession {
  import opened Octets
  import opened Wrappers
  import opened SrtpContext
  import opened SrtpKeystream
  import opened SrtpPacket
  import opened SrtpRun
  import Out = OutQueue

  /** How queued packets are laid out: complete, not padded, with the sequence number the queue gave them. */
  ghost predicate Layout(raw: Out.Packet -> seq<u8>, room: nat) {
    forall p :: Complete(raw(p)) && !Padded(raw(p)) && SeqNum(raw(p)) == p.seqNum && |raw(p)| + room < 65536
  }

  /** An empty packet with the n-th sequence number, for the numbers no packet was put for. */
  function Filler(first: u16, n: nat): (p: seq<u8>)
    ensures Complete(p) && !Padded(p) && SeqNum(p) == SendSeq(first, n)
  {
    var s := SendSeq(first, n);
    [128, 0, s / 256, s % 256, 0, 0, 0, 0, 0, 0, 0, 0]
  }

  /** The sender's n-th packet. */
  function PacketAt(put: seq<Out.Packet>, raw: Out.Packet -> seq<u8>, first: u16): nat -> seq<u8> {
    (n: nat) => if n < |put| then raw(put[n]) else Filler(first, n)
  }

  /** The packets of a queue are a sender's packets. */
  lemma QueueFeedsSender(put: seq<Out.Packet>, raw: Out.Packet -> seq<u8>, first: u16, room: nat)
    requires Layout(raw, room) && Out.Consecutive(put, first)
    ensures SenderPackets(first, PacketAt(put, raw, first))
  {
    var packet := PacketAt(put, raw, first);
    forall n: nat
      ensures Complete(packet(n)) && !Padded(packet(n)) && SeqNum(packet(n)) == SendSeq(first, n)
    {
      if n < |put| {
        assert put[n].seqNum == (first + n) % SEQ_MOD;
        var p := put[n];
        assert Complete(raw(p)) && !Padded(raw(p)) && SeqNum(raw(p)) == p.seqNum;
        assert packet(n) == raw(p);
      } else {
        assert packet(n) == Filler(first, n);
      }
    }
  }

  /** Protects every packet in order, under a context that starts with rollover counter 0. */
  method ProtectAll(suite: Suite, put: seq<Out.Packet>, raw: Out.Packet -> seq<u8>, first: u16) returns (wires: seq<seq<u8>>)
    requires ValidSuite(suite) && Layout(raw, suite.tagLength) && Out.Consecutive(put, first)
    ensures |wires| == |put|
    ensures forall n :: 0 <= n < |put| ==> wires[n] == WireOf(suite, first, raw(put[n]), n) && |wires[n]| < 65536
  {
    hide OnWire;
    var pcc := new CryptoContext(0);
    wires := [];
    for n := 0 to |put|
      invariant |wires| == n && pcc.roc == SendRoc(0, first, n)
      invariant forall k :: 0 <= k < n ==> wires[k] == WireOf(suite, first, raw(put[k]), k) && |wires[k]| < 65536
    {
      var p := put[n];
      assert Complete(raw(p)) && SeqNum(raw(p)) == p.seqNum == SendSeq(first, n) && |raw(p)| + suite.tagLength < 65536;
      var wire := ProtectOne(suite, pcc, raw(p));
      wires := wires + [wire];
    }
  }

  method ProtectOne(suite: Suite, pcc: CryptoContext, p: seq<u8>) returns (wire: seq<u8>)
    requires ValidSuite(suite) && Complete(p) && |p| < 65536
    modifies pcc
    ensures wire == OnWire(suite, p, old(pcc.roc)) && pcc.roc == RocAfter(old(pcc.roc), SeqNum(p))
  {
    var packet := new OutgoingPacket(suite, p);
    packet.Protect(suite, pcc);
    wire := packet.buffer[..];
  }

  method UnprotectOne(suite: Suite, pcc: CryptoContext, wire: seq<u8>) returns (v: Verdict, ghost ok: bool)
    requires ValidSuite(suite) && |wire| < 65536
    modifies pcc
    ensures Unprotected(suite, old(pcc.State()), wire, ok, v, pcc.State())
  {
    hide Unprotected;
    var block := new u8[|wire|](i requires 0 <= i < |wire| => wire[i]);
    assert block[..] == wire;
    var packet := new IncomingPacket(block);
    v, ok := packet.Unprotect(suite, pcc);
  }

  /** What the channel gives the receiver: one of the protected packets, or octets from elsewhere. */
  predicate Given(ev: Event, count: nat) {
    match ev
    case Deliver(n) => n < count
    case Noise(wire) => |wire| < 65536
  }

  /**
   * Unprotects what arrives, in order, until something from elsewhere is not refused. The verdicts and contexts are
   * those of a run.
   */
  method UnprotectAll(suite: Suite, put: seq<Out.Packet>, raw: Out.Packet -> seq<u8>, first: u16,
                      wires: seq<seq<u8>>, events: seq<Event>) returns (verdicts: seq<Verdict>, ghost r: Run)
    requires ValidSuite(suite) && Layout(raw, suite.tagLength) && Out.Consecutive(put, first)
    requires SenderPackets(first, PacketAt(put, raw, first))
    requires |wires| == |put| && first + |put| < INDEX_MOD - SEQ_MOD
    requires forall n :: 0 <= n < |put| ==> wires[n] == WireOf(suite, first, raw(put[n]), n) && |wires[n]| < 65536
    requires forall k :: 0 <= k < |events| ==> Given(events[k], |put|)
    ensures |verdicts| <= |events| && (|verdicts| < |events| ==> events[|verdicts|].Noise?)
    ensures RunOf(suite, first, PacketAt(put, raw, first), r) && r.verdicts == verdicts && r.events == events[..|verdicts|]
  {
    hide Unprotected, WireOf, RunOf, SenderPackets, Layout, PacketAt;
    var pcc := new CryptoContext(0);
    ghost var packet := PacketAt(put, raw, first);
    verdicts := [];
    r := Run([], [Fresh(0)], [], []);
    EmptyRun(suite, first, packet);
    for k := 0 to |events|
      invariant |verdicts| == k && RunOf(suite, first, packet, r) && r.verdicts == verdicts && r.events == events[..k]
      invariant |r.contexts| == k + 1 && pcc.State() == r.contexts[k]
    {
      var ev := events[k];
      assert Given(ev, |put|) && events[..k + 1] == events[..k] + [ev];
      var wire := if ev.Deliver? then wires[ev.n] else ev.wire;
      var v, ok := UnprotectOne(suite, pcc, wire);
      if ev.Noise? && !v.Replayed? && !v.AuthFailed? {
        return;
      }
      if ev.Deliver? {
        PacketPut(put, raw, first, ev.n);
      }
      ExtendRun(suite, first, packet, r, ev, pcc.State(), ok, v);
      r := Extended(r, ev, pcc.State(), ok, v);
      verdicts := verdicts + [v];
    }
    assert events[..|events|] == events;
  }

  lemma PacketPut(put: seq<Out.Packet>, raw: Out.Packet -> seq<u8>, first: u16, n: nat)
    requires n < |put|
    ensures PacketAt(put, raw, first)(n) == raw(put[n])
  {
  }

  lemma EmptyRun(suite: Suite, first: u16, packet: nat -> seq<u8>)
    requires ValidSuite(suite) && SenderPackets(first, packet)
    ensures RunOf(suite, first, packet, Run([], [Fresh(0)], [], []))
  {
  }

  ghost function Extended(r: Run, ev: Event, c: Ctx, ok: bool, v: Verdict): Run {
    Run(r.events + [ev], r.contexts + [c], r.admitted + [ok], r.verdicts + [v])
  }

  /** A run goes on with a step from its last context. */
  lemma ExtendRun(suite: Suite, first: u16, packet: nat -> seq<u8>, r: Run, ev: Event, c: Ctx, ok: bool, v: Verdict)
    requires ValidSuite(suite) && SenderPackets(first, packet) && RunOf(suite, first, packet, r)
    requires |r.contexts| == |r.events| + 1
    requires match ev
      case Deliver(n) =>
        first + n < INDEX_MOD - SEQ_MOD &&
        Unprotected(suite, r.contexts[|r.events|], WireOf(suite, first, packet(n), n), ok, v, c)
      case Noise(wire) =>
        Unprotected(suite, r.contexts[|r.events|], wire, ok, v, c) && (v.Replayed? || v.AuthFailed?)
    ensures RunOf(suite, first, packet, Extended(r, ev, c, ok, v))
  {
    hide Unprotected, WireOf, SenderPackets;
    var x := Extended(r, ev, c, ok, v);
    forall k | 0 <= k < |x.events|
      ensures RunStep(suite, first, packet, x, k)
    {
      if k < |r.events| {
        assert RunStep(suite, first, packet, r, k);
      }
    }
  }

  /**
   * From the queue to the receiver: of the packets a queue was given, in any way, every one that the channel delivers
   * within reach comes out of unprotect as it was laid out.
   */
  method SendAndReceive(suite: Suite, q: Out.OutgoingQueue, raw: Out.Packet -> seq<u8>, put: seq<Out.Packet>, first: u16,
                        events: seq<Event>) returns (verdicts: seq<Verdict>)
    requires ValidSuite(suite) && Layout(raw, suite.tagLength)
    requires q.Valid() && put == q.put && first == q.firstSeq && first + |put| < INDEX_MOD - SEQ_MOD
    requires forall k :: 0 <= k < |events| ==> Given(events[k], |put|) && EventInReach(first, events, k)
    ensures |verdicts| <= |events| && (|verdicts| < |events| ==> events[|verdicts|].Noise?)
    ensures forall k :: 0 <= k < |verdicts| && events[k].Deliver? ==>
      events[k].n < |put| && verdicts[k] == Accepted(raw(put[events[k].n]))
  {
    hide Unprotected, WireOf, Layout, PacketAt, SenderPackets;
    QueueFeedsSender(put, raw, first, suite.tagLength);
    var wires := ProtectAll(suite, put, raw, first);
    ghost var r;
    verdicts, r := UnprotectAll(suite, put, raw, first, wires, events);
    ghost var packet := PacketAt(put, raw, first);
    forall k | 0 <= k < |r.events|
      ensures EventInReach(first, r.events, k)
    {
      SamePast(events, r.events, k);
    }
    RunRestoresEveryPacket(suite, first, packet, r);
    forall k | 0 <= k < |verdicts| && events[k].Deliver?
      ensures events[k].n < |put| && verdicts[k] == Accepted(raw(put[events[k].n]))
    {
      assert Given(events[k], |put|) && r.events[k] == events[k];
      PacketPut(put, raw, first, events[k].n);
    }
  }

  lemma {:induction false} SamePast(events: seq<Event>, some: seq<Event>, k: nat)
    requires some <= events && k <= |some|
    ensures LastDelivered(some, k) == LastDelivered(events, k)
  {
    if k > 0 {
      SamePast(events, some, k - 1);
    }
  }
}
