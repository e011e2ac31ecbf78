/**
 * Whole runs of one SRTP sender and one receiver: the indices the sender uses, the packets a lossy
 * channel delivers, and what the receiver makes of them.
 */
module SrtpRun {
  import opened Octets
  import opened Wrappers
  import opened SrtpContext
  import opened SrtpKeystream
  import opened SrtpPacket

  // ---------------------------------------------------------------- the sender

  /** Sequence number of the n-th packet of a sender that starts at `seq0`. */
  function SendSeq(seq0: u16, n: nat): u16 {
    (seq0 + n) % SEQ_MOD
  }

  /** The sender's rollover counter when it protects packet n: bumped after each sequence number 0xFFFF. */
  function SendRoc(roc0: u32, seq0: u16, n: nat): u32 {
    if n == 0 then roc0 else RocAfter(SendRoc(roc0, seq0, n - 1), SendSeq(seq0, n - 1))
  }

  function SendIndex(roc0: u32, seq0: u16, n: nat): nat {
    SendRoc(roc0, seq0, n) * SEQ_MOD + SendSeq(seq0, n)
  }

  /** Packet n carries the start index plus n, modulo the 48 bits of an index. */
  lemma {:induction false} SendIndexIsLinear(roc0: u32, seq0: u16, n: nat)
    ensures SendIndex(roc0, seq0, n) == (roc0 * SEQ_MOD + seq0 + n) % INDEX_MOD
  {
    if n > 0 {
      SendIndexIsLinear(roc0, seq0, n - 1);
      NextIndex(roc0 * SEQ_MOD + seq0 + (n - 1), SendRoc(roc0, seq0, n - 1), SendSeq(seq0, n - 1));
      NextSeq(seq0 + (n - 1));
    }
  }

  lemma NextSeq(i: nat)
    ensures (i + 1) % SEQ_MOD == (i % SEQ_MOD + 1) % SEQ_MOD
  {
  }

  lemma NextIndex(i: nat, r: u32, s: u16)
    requires i % INDEX_MOD == r * SEQ_MOD + s
    ensures (i + 1) % INDEX_MOD == RocAfter(r, s) * SEQ_MOD + (s + 1) % SEQ_MOD
  {
  }

  /**
   * Fewer than 2^48 packets apart, two packets of one sender, or packets of senders with different SSRCs
   * under the same salt, share no block of keystream.
   */
  lemma KeystreamNeverReused(salt: seq<u8>, roc0: u32, seq0: u16, ssrc: u32, m: nat, block: nat,
                             roc0': u32, seq0': u16, ssrc': u32, n: nat, block': nat)
    requires |salt| == 14 && block < 65536 && block' < 65536
    requires ssrc != ssrc' || (roc0 == roc0' && seq0 == seq0' && m < n < m + INDEX_MOD)
    ensures CounterBlock(CmIv(salt, ssrc, SendIndex(roc0, seq0, m)), block)
            != CounterBlock(CmIv(salt, ssrc', SendIndex(roc0', seq0', n)), block')
  {
    SendIndexIsLinear(roc0, seq0, m);
    SendIndexIsLinear(roc0', seq0', n);
    var i, j := SendIndex(roc0, seq0, m), SendIndex(roc0', seq0', n);
    if CounterBlock(CmIv(salt, ssrc, i), block) == CounterBlock(CmIv(salt, ssrc', j), block') {
      CounterBlocksDistinct(salt, ssrc, i, block, ssrc', j, block');
      assert false;
    }
  }

  // ---------------------------------------------------------------- which losses the guess survives

  /** Packets `ns` of the sender accepted in this order, and the receiver's contexts between them. */
  ghost predicate Delivered(seq0: u16, ns: seq<nat>, cs: seq<Ctx>) {
    && |cs| == |ns| + 1
    && cs[0] == Fresh(0)
    && (forall k :: 0 <= k < |ns| ==> Received(seq0, ns, cs, k))
  }

  ghost predicate Received(seq0: u16, ns: seq<nat>, cs: seq<Ctx>, k: nat)
    requires k < |ns| && |cs| == |ns| + 1
  {
    && (k > 0 ==> ns[k - 1] < ns[k])
    && seq0 + ns[k] < INDEX_MOD - SEQ_MOD
    && Updated(cs[k], SendSeq(seq0, ns[k]), cs[k + 1])
  }

  ghost predicate GuessedRight(seq0: u16, ns: seq<nat>, cs: seq<Ctx>, k: nat)
    requires k < |ns| && |cs| == |ns| + 1
  {
    IndexGuess(cs[k], SendSeq(seq0, ns[k])) == seq0 + ns[k]
  }

  /** The step to packet k is within reach; the first packet has to precede the sender's first wrap. */
  predicate StepInReach(seq0: u16, ns: seq<nat>, k: nat)
    requires k < |ns|
  {
    if k == 0 then seq0 + ns[0] < SEQ_MOD
    else ns[k] - ns[k - 1] <= Reach(SendSeq(seq0, ns[k - 1]))
  }

  ghost predicate AllGuessedRight(seq0: u16, ns: seq<nat>, cs: seq<Ctx>, n: nat)
    requires n <= |ns| && |cs| == |ns| + 1
  {
    n == 0 || (AllGuessedRight(seq0, ns, cs, n - 1) && GuessedRight(seq0, ns, cs, n - 1))
  }

  predicate AllInReach(seq0: u16, ns: seq<nat>, n: nat)
    requires n <= |ns|
  {
    n == 0 || (AllInReach(seq0, ns, n - 1) && StepInReach(seq0, ns, n - 1))
  }

  /**
   * The receiver finds the sender's index for each of the first n delivered packets, over any number of
   * wraps, exactly when every step stays within reach: 32768 packets after one whose sequence number is
   * below 32768 and 32767 after any other.
   */
  lemma {:induction false} GuessesRightIffInReach(seq0: u16, ns: seq<nat>, cs: seq<Ctx>, n: nat)
    requires Delivered(seq0, ns, cs) && n <= |ns|
    ensures AllGuessedRight(seq0, ns, cs, n) <==> AllInReach(seq0, ns, n)
    ensures n > 0 && AllInReach(seq0, ns, n) ==> cs[n].seqNumSet && Local(cs[n]) == seq0 + ns[n - 1]
  {
    if n > 0 {
      GuessesRightIffInReach(seq0, ns, cs, n - 1);
      assert Received(seq0, ns, cs, n - 1);
      if n == 1 {
        FirstStep(seq0, ns[0], cs[1]);
      } else if AllInReach(seq0, ns, n - 1) {
        NextStep(seq0, ns[n - 2], ns[n - 1], cs[n - 1], cs[n]);
      }
    }
  }

  lemma FirstStep(seq0: u16, n: nat, c': Ctx)
    requires Updated(Fresh(0), SendSeq(seq0, n), c')
    ensures IndexGuess(Fresh(0), SendSeq(seq0, n)) == seq0 + n <==> seq0 + n < SEQ_MOD
    ensures seq0 + n < SEQ_MOD ==> c'.seqNumSet && Local(c') == seq0 + n
  {
  }

  lemma NextStep(seq0: u16, m: nat, n: nat, c: Ctx, c': Ctx)
    requires c.seqNumSet && Local(c) == seq0 + m
    requires m < n && seq0 + n < INDEX_MOD - SEQ_MOD
    requires Updated(c, SendSeq(seq0, n), c')
    ensures IndexGuess(c, SendSeq(seq0, n)) == seq0 + n <==> n - m <= Reach(SendSeq(seq0, m))
    ensures n - m <= Reach(SendSeq(seq0, m)) ==> c'.seqNumSet && Local(c') == seq0 + n
    ensures n - m <= Reach(SendSeq(seq0, m)) ==> Delta(c, SendSeq(seq0, n)) == n - m
  {
    hide Updated, IndexGuess, Delta;
    LocalSplits(c, seq0 + m);
    GuessIsExact(c, seq0 + n);
    Unwrapped(n - m, Reach(c.sl));
    if n - m <= Reach(c.sl) {
      AdvanceMovesLocal(c, seq0 + n, c');
      GuessInWindow(c, seq0 + n);
    }
  }

  lemma LocalSplits(c: Ctx, i: nat)
    requires Local(c) == i
    ensures c.sl == i % SEQ_MOD
  {
  }

  /** A step ahead that is no longer than all indices, in the window of the guess. */
  lemma Unwrapped(d: nat, reach: int)
    requires 0 < d < INDEX_MOD - SEQ_MOD && 32767 <= reach <= 32768
    ensures (d + 65535 - reach) % INDEX_MOD <= 65535 <==> d <= reach
  {
  }

  /** Losing 32767 packets in a row, fewer than 2^15, is already too much after sequence number 40000. */
  lemma LongestLossDependsOnTheHalf(c: Ctx, c': Ctx)
    requires Updated(Fresh(0), 40000, c) && Updated(c, SendSeq(40000, 32768), c')
    ensures IndexGuess(c, SendSeq(40000, 32768)) != 40000 + 32768
  {
  }

  // ---------------------------------------------------------------- whole runs of octets

  /** What reaches the receiver: packet n of the sender, or octets that it refuses. */
  datatype Event = Deliver(n: nat) | Noise(wire: seq<u8>)

  /** A sender's packets: complete, not padded, and numbered consecutively from `seq0`. */
  ghost predicate SenderPackets(seq0: u16, packet: nat -> seq<u8>) {
    forall n: nat :: Complete(packet(n)) && !Padded(packet(n)) && SeqNum(packet(n)) == SendSeq(seq0, n)
  }

  function WireOf(suite: Suite, seq0: u16, p: seq<u8>, n: nat): seq<u8>
    requires ValidSuite(suite) && Complete(p)
  {
    OnWire(suite, p, SendRoc(0, seq0, n))
  }

  datatype Run = Run(events: seq<Event>, contexts: seq<Ctx>, admitted: seq<bool>, verdicts: seq<Verdict>)

  ghost predicate RunOf(suite: Suite, seq0: u16, packet: nat -> seq<u8>, r: Run)
    requires ValidSuite(suite) && SenderPackets(seq0, packet)
  {
    && |r.contexts| == |r.events| + 1 && |r.admitted| == |r.verdicts| == |r.events|
    && r.contexts[0] == Fresh(0)
    && (forall k :: 0 <= k < |r.events| ==> RunStep(suite, seq0, packet, r, k))
  }

  ghost predicate RunStep(suite: Suite, seq0: u16, packet: nat -> seq<u8>, r: Run, k: nat)
    requires ValidSuite(suite) && SenderPackets(seq0, packet)
    requires k < |r.events| < |r.contexts| && |r.admitted| == |r.verdicts| == |r.events|
  {
    match r.events[k]
    case Deliver(n) =>
      && seq0 + n < INDEX_MOD - SEQ_MOD
      && Unprotected(suite, r.contexts[k], WireOf(suite, seq0, packet(n), n), r.admitted[k], r.verdicts[k], r.contexts[k + 1])
    case Noise(wire) =>
      && Unprotected(suite, r.contexts[k], wire, r.admitted[k], r.verdicts[k], r.contexts[k + 1])
      && (r.verdicts[k].Replayed? || r.verdicts[k].AuthFailed?)
  }

  /** The last packet of the sender that was delivered among the first k events. */
  function LastDelivered(events: seq<Event>, k: nat): Option<nat>
    requires k <= |events|
  {
    if k == 0 then None
    else match events[k - 1]
      case Deliver(n) => Some(n)
      case Noise(_) => LastDelivered(events, k - 1)
  }

  /** The channel keeps the order, loses no more than the guess can bridge and starts with a packet. */
  predicate EventInReach(seq0: u16, events: seq<Event>, k: nat)
    requires k < |events|
  {
    match events[k]
    case Noise(_) => LastDelivered(events, k).Some?
    case Deliver(n) =>
      match LastDelivered(events, k)
      case None => seq0 + n < SEQ_MOD
      case Some(m) => m < n && n - m <= Reach(SendSeq(seq0, m))
  }

  ghost predicate InStep(seq0: u16, last: Option<nat>, c: Ctx) {
    match last
    case None => c == Fresh(0)
    case Some(m) => c.seqNumSet && Local(c) == seq0 + m
  }

  /**
   * Every packet of the sender that arrives is accepted and comes back octet for octet, over any number
   * of wraps of the sequence number, with refused octets mixed in anywhere after the first packet.
   */
  lemma RunRestoresEveryPacket(suite: Suite, seq0: u16, packet: nat -> seq<u8>, r: Run)
    requires ValidSuite(suite) && SenderPackets(seq0, packet) && RunOf(suite, seq0, packet, r)
    requires forall k :: 0 <= k < |r.events| ==> EventInReach(seq0, r.events, k)
    ensures forall k :: 0 <= k < |r.events| && r.events[k].Deliver? ==> r.verdicts[k] == Accepted(packet(r.events[k].n))
  {
    forall k | 0 <= k < |r.events| && r.events[k].Deliver?
      ensures r.verdicts[k] == Accepted(packet(r.events[k].n))
    {
      StaysInStep(suite, seq0, packet, r, k + 1);
    }
  }

  lemma {:induction false} StaysInStep(suite: Suite, seq0: u16, packet: nat -> seq<u8>, r: Run, k: nat)
    requires ValidSuite(suite) && SenderPackets(seq0, packet) && RunOf(suite, seq0, packet, r)
    requires forall j :: 0 <= j < |r.events| ==> EventInReach(seq0, r.events, j)
    requires k <= |r.events|
    ensures InStep(seq0, LastDelivered(r.events, k), r.contexts[k])
    ensures k > 0 && r.events[k - 1].Deliver? ==> r.verdicts[k - 1] == Accepted(packet(r.events[k - 1].n))
  {
    hide Unprotected, InStep, WireOf, Complete;
    if k == 0 {
      StartsInStep(seq0);
    } else {
      StaysInStep(suite, seq0, packet, r, k - 1);
      assert RunStep(suite, seq0, packet, r, k - 1) && EventInReach(seq0, r.events, k - 1);
      var last := LastDelivered(r.events, k - 1);
      match r.events[k - 1]
      case Deliver(n) =>
        DeliveryRestores(suite, seq0, packet(n), n, last, r.contexts[k - 1], r.admitted[k - 1], r.verdicts[k - 1], r.contexts[k]);
      case Noise(wire) =>
        NoiseChangesNothing(suite, seq0, last, wire, r.contexts[k - 1], r.admitted[k - 1], r.verdicts[k - 1], r.contexts[k]);
    }
  }

  lemma StartsInStep(seq0: u16)
    ensures InStep(seq0, None, Fresh(0))
  {
  }

  lemma NoiseChangesNothing(suite: Suite, seq0: u16, last: Option<nat>, wire: seq<u8>,
                            c: Ctx, ok: bool, v: Verdict, c': Ctx)
    requires ValidSuite(suite) && last.Some? && InStep(seq0, last, c)
    requires Unprotected(suite, c, wire, ok, v, c') && (v.Replayed? || v.AuthFailed?)
    ensures InStep(seq0, last, c') && c'.window == c.window
  {
  }

  /** A refused packet leaves the context as it was, but for the last guess, exactly when it is not the first one. */
  lemma RefusalLeavesStateIff(suite: Suite, wire: seq<u8>, c: Ctx, ok: bool, v: Verdict, c': Ctx)
    requires ValidSuite(suite) && Unprotected(suite, c, wire, ok, v, c') && (v.Replayed? || v.AuthFailed?)
    ensures c'.(guessedRoc := c.guessedRoc) == c <==> c.seqNumSet
  {
  }

  /** A refused first packet numbered 60000 makes the receiver place the sender's packet 10 one rollover too late. */
  lemma RefusedFirstMisleads(suite: Suite, wire: seq<u8>, ok: bool, v: Verdict, c': Ctx)
    requires ValidSuite(suite) && Unprotected(suite, Fresh(0), wire, ok, v, c') && v.AuthFailed?
    requires |wire| >= 12 && SeqNum(wire) == 60000
    ensures IndexGuess(c', 10) == SEQ_MOD + 10
  {
  }

  lemma DeliveryRestores(suite: Suite, seq0: u16, p: seq<u8>, n: nat, last: Option<nat>,
                         c: Ctx, ok: bool, v: Verdict, c': Ctx)
    requires ValidSuite(suite) && Complete(p) && !Padded(p) && SeqNum(p) == SendSeq(seq0, n)
    requires InStep(seq0, last, c) && seq0 + n < INDEX_MOD - SEQ_MOD
    requires last.None? ==> seq0 + n < SEQ_MOD
    requires last.Some? ==> last.value < n && n - last.value <= Reach(SendSeq(seq0, last.value))
    requires Unprotected(suite, c, WireOf(suite, seq0, p, n), ok, v, c')
    ensures v == Accepted(p) && InStep(seq0, Some(n), c')
  {
    GuessOnDelivery(seq0, n, last, c);
    IndexBelowTheTop(seq0, n);
    UnprotectUndoesProtect(suite, p, SendRoc(0, seq0, n), c, ok, v, c');
    DeliveryMovesLocal(seq0, n, last, c, c');
  }

  lemma IndexBelowTheTop(seq0: u16, n: nat)
    requires seq0 + n < INDEX_MOD
    ensures SendRoc(0, seq0, n) * SEQ_MOD + SendSeq(seq0, n) == seq0 + n
  {
    hide SendRoc;
    SendIndexIsLinear(0, seq0, n);
  }

  lemma DeliveryMovesLocal(seq0: u16, n: nat, last: Option<nat>, c: Ctx, c': Ctx)
    requires InStep(seq0, last, c) && seq0 + n < INDEX_MOD - SEQ_MOD
    requires last.None? ==> seq0 + n < SEQ_MOD
    requires last.Some? ==> last.value < n && n - last.value <= Reach(SendSeq(seq0, last.value))
    requires Updated(Guessed(c, SendSeq(seq0, n)), SendSeq(seq0, n), c')
    ensures InStep(seq0, Some(n), c')
  {
    UpdateAfterGuess(c, SendSeq(seq0, n), c');
    if last.Some? {
      NextStep(seq0, last.value, n, c, c');
    } else {
      FirstStep(seq0, n, c');
    }
  }

  lemma GuessOnDelivery(seq0: u16, n: nat, last: Option<nat>, c: Ctx)
    requires InStep(seq0, last, c) && seq0 + n < INDEX_MOD - SEQ_MOD
    requires last.None? ==> seq0 + n < SEQ_MOD
    requires last.Some? ==> last.value < n && n - last.value <= Reach(SendSeq(seq0, last.value))
    ensures IndexGuess(c, SendSeq(seq0, n)) == seq0 + n
    ensures Delta(c, SendSeq(seq0, n)) > 0 || (!c.seqNumSet && c.window == EmptyWindow())
  {
    if last.Some? {
      assert c.sl == SendSeq(seq0, last.value);
      GuessInWindow(c, seq0 + n);
    }
  }
}
