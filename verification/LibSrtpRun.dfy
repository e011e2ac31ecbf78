/**
 * Whole runs of libSRTP sessions: a session with a template behaves as one stream for every identifier, and
 * a receiver that starts as the twin of a sender restores every packet.
 */
module LibSrtpRun {
  import opened Octets
  import opened Wrappers
  import opened SrtpTransform
  import opened LibSrtp
  import R = ReplayDb
  import Rtp = SrtpPacket

  // ---------------------------------------------------------------- streams as seen from outside

  function Core(st: Stream): Stream {
    st.(direction := Unknown)
  }

  /** The stream that answers for `ssrc`: the one on the list, or what would be cloned. */
  function View(s: Session, ssrc: u32): (v: Option<Stream>)
    ensures v.Some? ==> v.value.ssrc == ssrc && (SessionOk(s) ==> StreamOk(v.value, |s.limits|))
  {
    if Known(s, ssrc) then Some(Core(At(s, ssrc)))
    else if s.template.Some? then Some(Core(Clone(s.template.value, ssrc)))
    else None
  }

  lemma ViewPut(s: Session, st: Stream, b: u32)
    requires Known(s, st.ssrc)
    ensures View(Put(s, st), b) == if b == st.ssrc then Some(Core(st)) else View(s, b)
  {
  }

  lemma ViewAdopted(s: Session, ssrc: u32, b: u32)
    requires s.template.Some? || Known(s, ssrc)
    ensures View(Adopted(s, ssrc), b) == View(s, b)
  {
    hide Lookup, Clone, Core;
    if !Known(s, ssrc) {
      var st := Clone(s.template.value, ssrc);
      assert st.ssrc == ssrc by {
        CloneSsrc(s.template.value, ssrc);
      }
      LookupInFront(st, s.streams, b);
      if Known(s, b) && b != ssrc {
        assert ([st] + s.streams)[1 + Lookup(s.streams, b)] == s.streams[Lookup(s.streams, b)];
      }
    }
  }

  lemma CloneSsrc(t: Stream, ssrc: u32)
    ensures Clone(t, ssrc).ssrc == ssrc
  {
  }

  lemma LookupInFront(st: Stream, streams: seq<Stream>, b: u32)
    ensures Lookup([st] + streams, b) == if st.ssrc == b then 0 else 1 + Lookup(streams, b)
  {
  }

  lemma ViewReceived(s: Session, ssrc: u32, b: u32)
    requires SessionOk(s) && (Known(s, ssrc) || s.template.Some?)
    ensures View(Received(s, ssrc), b) == View(s, b)
  {
    hide Put, Adopted, Lookup;
    if Known(s, ssrc) {
      ViewPut(s, Directed(At(s, ssrc), Receiver), b);
    } else {
      var t := s.(template := Some(Directed(s.template.value, Receiver)));
      ViewAdopted(t, ssrc, b);
    }
  }

  /** The view of `b` once the stream of `ssrc` has taken the packet `delta` places ahead. */
  ghost predicate Moved(s: Session, r: Session, ssrc: u32, delta: int, b: u32)
    requires View(s, ssrc).Some? && -R.BITS < delta
  {
    var st := View(s, ssrc).value;
    View(r, b) == if b == ssrc then Some(st.(rdbx := R.RdbxAdd(st.rdbx, delta))) else View(s, b)
  }

  lemma CommittedMoves(s: Session, ssrc: u32, delta: int, b: u32)
    requires SessionOk(s) && (Known(s, ssrc) || s.template.Some?) && -R.BITS < delta
    ensures Moved(s, Committed(s, ssrc, delta), ssrc, delta, b)
  {
    hide Put, Adopted, Lookup, Received;
    var r := Received(s, ssrc);
    ViewReceived(s, ssrc, b);
    ViewReceived(s, ssrc, ssrc);
    ViewPut(r, At(r, ssrc).(rdbx := R.RdbxAdd(At(r, ssrc).rdbx, delta)), b);
  }

  /** What is left to do for a packet that is no replay, told by the view alone. */
  ghost predicate ChecksByView(s: Session, st: Stream, e: R.Estimate, q: seq<u8>, o: Outcome, b: u32)
    requires SessionOk(s) && |q| >= 12 && View(s, Rtp.Ssrc(q)).Some? && StreamOk(st, |s.limits|) && -R.BITS < e.delta
  {
    var left := LimitUpdated(s.limits[st.limit]);
    if !Authentic(st.rtp, q, e.index) then o == Outcome(AuthFail, s, q)
    else
      && o.session.limits == s.limits[st.limit := left]
      && if left == 0 then o.status == KeyExpired && View(o.session, b) == View(s, b)
         else if Opened(st.rtp, q, e.index).None? then o.status == Overrun && View(o.session, b) == View(s, b)
         else o.status == Ok && Some(o.packet) == Opened(st.rtp, q, e.index) &&
              Moved(s, o.session, Rtp.Ssrc(q), e.delta, b)
  }

  lemma CheckedByView(s: Session, st: Stream, e: R.Estimate, q: seq<u8>, b: u32)
    requires SessionOk(s) && StreamOk(st, |s.limits|) && |q| >= 12 && -R.BITS < e.delta
    requires Known(s, Rtp.Ssrc(q)) || s.template.Some?
    ensures ChecksByView(s, st, e, q, Checked(s, st, e, q), b)
  {
    hide Lookup, Committed, Authentic, Opened, Rtp.Ssrc, LimitUpdated, R.RdbxAdd, View, SessionOk, Known;
    var r := s.(limits := s.limits[st.limit := LimitUpdated(s.limits[st.limit])]);
    SameStreams(s, r, Rtp.Ssrc(q), b);
    CommittedMoves(r, Rtp.Ssrc(q), e.delta, b);
  }

  /** Limits change neither what is known nor the views. */
  lemma SameStreams(s: Session, r: Session, ssrc: u32, b: u32)
    requires SessionOk(s) && r.streams == s.streams && r.template == s.template && |r.limits| == |s.limits|
    ensures SessionOk(r) && Known(r, ssrc) == Known(s, ssrc) && View(r, ssrc) == View(s, ssrc) && View(r, b) == View(s, b)
    ensures Known(s, ssrc) || s.template.Some? ==> View(s, ssrc).Some?
  {
  }

  /** What unprotecting does, told by the view alone: a provisional stream answers as a fresh clone would. */
  ghost predicate UnprotectsByView(s: Session, q: seq<u8>, o: Outcome, b: u32)
    requires SessionOk(s) && |q| >= 12
  {
    var v := View(s, Rtp.Ssrc(q));
    if v.None? then o == Outcome(NoCtx, s, q)
    else
      var e := R.RdbxEstimate(v.value.rdbx, Rtp.SeqNum(q));
      var check := R.RdbxCheck(v.value.rdbx, e.delta);
      if check != R.Ok then o == Outcome(FromReplay(check), s, q) else ChecksByView(s, v.value, e, q, o, b)
  }

  lemma UnprotectByView(s: Session, q: seq<u8>, b: u32)
    requires SessionOk(s) && |q| >= 12
    ensures UnprotectsByView(s, q, Unprotect(s, q), b)
  {
    hide Lookup, Checked, Authentic, Opened, Rtp.Ssrc, Rtp.SeqNum, R.RdbxEstimate, R.RdbxCheck, R.RdbxInit, FromReplay, Moved;
    var ssrc := Rtp.Ssrc(q);
    if View(s, ssrc).Some? {
      ProvisionalEstimate(Rtp.SeqNum(q));
      var st := if Known(s, ssrc) then At(s, ssrc) else s.template.value;
      var e := R.RdbxEstimate(View(s, ssrc).value.rdbx, Rtp.SeqNum(q));
      if R.RdbxCheck(View(s, ssrc).value.rdbx, e.delta) == R.Ok {
        CheckedReach(View(s, ssrc).value.rdbx, e.delta);
        CheckedByView(s, st, e, q, b);
      }
    }
  }

  lemma ProvisionalEstimate(s: u16)
    ensures R.RdbxEstimate(R.RdbxInit(), s) == R.Estimate(s, s) && R.RdbxCheck(R.RdbxInit(), s) == R.Ok
  {
  }

  lemma ProtectKnownByView(s: Session, p: seq<u8>, b: u32)
    requires SessionOk(s) && |p| >= 12 && Known(s, Rtp.Ssrc(p))
    ensures ProtectsByView(s, p, ProtectKnown(s, p), b)
  {
    hide Put, Lookup, Sealed, R.RdbxEstimate, R.RdbxAdd, R.RdbxCheck, LimitUpdated, Rtp.Complete, Rtp.Ssrc, Rtp.SeqNum;
    hide FromReplay, View, SessionOk;
    var ssrc := Rtp.Ssrc(p);
    var st := Directed(At(s, ssrc), Sender);
    var left := LimitUpdated(s.limits[st.limit]);
    var r := Put(s, st).(limits := s.limits[st.limit := left]);
    ViewKnown(s, ssrc);
    OnlyLimitsDiffer(Put(s, st), r, b);
    ViewPut(s, st, b);
    var e := R.RdbxEstimate(st.rdbx, Rtp.SeqNum(p));
    if R.RdbxCheck(st.rdbx, e.delta) == R.Ok {
      CheckedReach(st.rdbx, e.delta);
      ViewPut(r, st.(rdbx := R.RdbxAdd(st.rdbx, e.delta)), b);
    }
  }

  lemma ViewKnown(s: Session, ssrc: u32)
    requires Known(s, ssrc)
    ensures View(s, ssrc) == Some(Core(At(s, ssrc)))
  {
  }

  lemma CheckedReach(db: R.Rdbx, delta: int)
    requires R.RdbxCheck(db, delta) == R.Ok
    ensures -R.BITS < delta
  {
  }

  lemma LimitDown(left: nat)
    requires 1 <= left < LIMIT_MOD
    ensures LimitUpdated(left) == left - 1
  {
  }

  lemma OnlyLimitsDiffer(s: Session, r: Session, b: u32)
    requires r.streams == s.streams && r.template == s.template
    ensures View(r, b) == View(s, b)
  {
  }

  /** The outcome of protecting, told by the view alone. */
  ghost predicate ProtectsByView(s: Session, p: seq<u8>, o: Outcome, b: u32)
    requires SessionOk(s) && |p| >= 12
  {
    var v := View(s, Rtp.Ssrc(p));
    if v.None? then o == Outcome(NoCtx, s, p)
    else
      var st := v.value;
      var e := R.RdbxEstimate(st.rdbx, Rtp.SeqNum(p));
      var check, left := R.RdbxCheck(st.rdbx, e.delta), LimitUpdated(s.limits[st.limit]);
      && o.session.limits == s.limits[st.limit := left]
      && if left == 0 then o.status == KeyExpired && View(o.session, b) == View(s, b)
         else if check != R.Ok then o.status == FromReplay(check) && View(o.session, b) == View(s, b)
         else
           && Moved(s, o.session, Rtp.Ssrc(p), e.delta, b)
           && if st.rtp.conf && !Rtp.Complete(p) then o.status == Overrun
              else o.status == Ok && o.packet == Sealed(st.rtp, p, e.index)
  }

  lemma ProtectByView(s: Session, p: seq<u8>, b: u32)
    requires SessionOk(s) && |p| >= 12
    ensures ProtectsByView(s, p, Protect(s, p), b)
  {
    hide Put, Adopted, Lookup, ProtectKnown, ProtectsByView, Rtp.Ssrc, View, SessionOk;
    var ssrc := Rtp.Ssrc(p);
    if Known(s, ssrc) {
      ProtectKnownByView(s, p, b);
    } else if s.template.Some? {
      var r := Adopted(s, ssrc);
      var st := At(r, ssrc).(direction := Sender);
      ViewAdopted(s, ssrc, ssrc);
      ViewAdopted(s, ssrc, b);
      ViewPut(r, st, ssrc);
      ViewPut(r, st, b);
      ViewKnown(r, ssrc);
      AdoptedLimits(s, ssrc);
      ProtectKnownByView(Put(r, st), p, b);
      SameViewsSameOutcome(s, Put(r, st), p, Protect(s, p), b);
    } else {
      NoViewNoContext(s, p, b);
    }
  }

  lemma SameViewsSameOutcome(s: Session, r: Session, p: seq<u8>, o: Outcome, b: u32)
    requires SessionOk(s) && SessionOk(r) && |p| >= 12 && r.limits == s.limits && View(r, b) == View(s, b)
    requires View(r, Rtp.Ssrc(p)) == View(s, Rtp.Ssrc(p)) && View(s, Rtp.Ssrc(p)).Some? && ProtectsByView(r, p, o, b)
    ensures ProtectsByView(s, p, o, b)
  {
    hide View, Sealed, R.RdbxEstimate, R.RdbxAdd, R.RdbxCheck, LimitUpdated, Rtp.Complete, Rtp.Ssrc, Rtp.SeqNum, FromReplay;
  }

  lemma NoViewNoContext(s: Session, p: seq<u8>, b: u32)
    requires SessionOk(s) && |p| >= 12 && !Known(s, Rtp.Ssrc(p)) && s.template.None?
    ensures ProtectsByView(s, p, Outcome(NoCtx, s, p), b)
  {
  }

  lemma AdoptedLimits(s: Session, ssrc: u32)
    requires s.template.Some? || Known(s, ssrc)
    ensures Adopted(s, ssrc).limits == s.limits
  {
  }

  // ---------------------------------------------------------------- the same packet again

  /** The packet's stream is known or can be cloned, and has packets left for two more. */
  predicate TwiceOk(s: Session, p: seq<u8>)
    requires SessionOk(s)
  {
    |p| >= 12 && View(s, Rtp.Ssrc(p)).Some? &&
    var st := View(s, Rtp.Ssrc(p)).value;
    st.rdbx.index + SEQ_MOD < INDEX_MOD && 2 < s.limits[st.limit] < LIMIT_MOD
  }

  /** The index estimated for a packet, and the one estimated for it when it comes again. */
  function First(s: Session, p: seq<u8>): R.Estimate
    requires SessionOk(s) && TwiceOk(s, p)
  {
    R.RdbxEstimate(View(s, Rtp.Ssrc(p)).value.rdbx, Rtp.SeqNum(p))
  }

  function Second(s: Session, p: seq<u8>): R.Estimate
    requires SessionOk(s) && TwiceOk(s, p) && -R.BITS < First(s, p).delta
  {
    R.RdbxEstimate(R.RdbxAdd(View(s, Rtp.Ssrc(p)).value.rdbx, First(s, p).delta), Rtp.SeqNum(p))
  }

  /** The packet lies ahead, and its guess does not reach back over a wrap of the sequence number. */
  predicate LaysAhead(s: Session, p: seq<u8>)
    requires SessionOk(s) && TwiceOk(s, p)
  {
    First(s, p).delta > 0 && R.Straight(View(s, Rtp.Ssrc(p)).value.rdbx, Rtp.SeqNum(p))
  }

  /** What the estimates say of a packet that comes twice. */
  lemma SecondEstimate(s: Session, p: seq<u8>)
    requires SessionOk(s) && TwiceOk(s, p)
    requires R.RdbxCheck(View(s, Rtp.Ssrc(p)).value.rdbx, First(s, p).delta) == R.Ok
    ensures -R.BITS < First(s, p).delta
    ensures var next := R.RdbxAdd(View(s, Rtp.Ssrc(p)).value.rdbx, First(s, p).delta);
      && R.RdbxCheck(next, Second(s, p).delta) == (if LaysAhead(s, p) then R.ReplayFail else R.Ok)
      && (First(s, p).delta <= 0 ==> Second(s, p) == First(s, p))
  {
    hide View, R.RdbxEstimate, R.RdbxAdd, R.RdbxCheck, R.Straight, Rtp.Ssrc, Rtp.SeqNum;
    var db := View(s, Rtp.Ssrc(p)).value.rdbx;
    CheckedReach(db, First(s, p).delta);
    R.EnteredIsRefusedIff(db, Rtp.SeqNum(p));
  }

  /**
   * Protecting a packet a second time is refused exactly if it lay ahead the first time, not guessed back over a wrap.
   * Every other packet is protected again; a late one under the same index, and so with the same octets.
   */
  lemma ProtectTwiceIff(s: Session, p: seq<u8>)
    requires SessionOk(s) && TwiceOk(s, p) && Protect(s, p).status == Ok
    ensures -R.BITS < First(s, p).delta
    ensures var again := Protect(Protect(s, p).session, p);
      && (again.status == ReplayFail <==> LaysAhead(s, p))
      && (again.status == Ok <==> !LaysAhead(s, p))
      && (again.status == Ok && Second(s, p).index == First(s, p).index ==> again.packet == Protect(s, p).packet)
      && (First(s, p).delta <= 0 ==> Second(s, p).index == First(s, p).index)
  {
    hide Protect, View, Sealed, R.RdbxEstimate, R.RdbxAdd, R.RdbxCheck, R.Straight, LimitUpdated;
    hide Rtp.Complete, Rtp.Ssrc, Rtp.SeqNum;
    var ssrc, r := Rtp.Ssrc(p), Protect(s, p).session;
    var st := View(s, ssrc).value;
    ProtectByView(s, p, ssrc);
    LimitDown(s.limits[st.limit]);
    SecondEstimate(s, p);
    ProtectByView(r, p, ssrc);
    LimitDown(r.limits[st.limit]);
  }

  /**
   * A packet that was accepted is refused as a replay exactly if it lay ahead, not guessed back over a wrap. Every
   * other packet passes the replay check again, and is accepted again exactly if its tag holds under the index now
   * estimated; for a late one that is the index of before.
   */
  lemma UnprotectTwiceIff(s: Session, q: seq<u8>)
    requires SessionOk(s) && TwiceOk(s, q) && Unprotect(s, q).status == Ok
    ensures -R.BITS < First(s, q).delta
    ensures var again, st := Unprotect(Unprotect(s, q).session, q), View(s, Rtp.Ssrc(q)).value;
      && (again.status == ReplayFail <==> LaysAhead(s, q))
      && (again.status == Ok <==> !LaysAhead(s, q) && Authentic(st.rtp, q, Second(s, q).index))
      && (!LaysAhead(s, q) && Second(s, q).index == First(s, q).index ==>
            again.status == Ok && again.packet == Unprotect(s, q).packet)
      && (First(s, q).delta <= 0 ==> Second(s, q).index == First(s, q).index)
  {
    hide Unprotect, View, Opened, Authentic, R.RdbxEstimate, R.RdbxAdd, R.RdbxCheck, R.Straight, LimitUpdated;
    hide Rtp.Ssrc, Rtp.SeqNum;
    var ssrc, r := Rtp.Ssrc(q), Unprotect(s, q).session;
    var st := View(s, ssrc).value;
    UnprotectByView(s, q, ssrc);
    LimitDown(s.limits[st.limit]);
    SecondEstimate(s, q);
    UnprotectByView(r, q, ssrc);
    LimitDown(r.limits[st.limit]);
    OpenedAnyIndex(st.rtp, q, First(s, q).index, Second(s, q).index);
  }

  /** Whether a packet can be opened does not depend on its index. */
  lemma OpenedAnyIndex(t: Transform, q: seq<u8>, i: nat, j: nat)
    requires Fits(t) && |q| >= 12
    ensures Opened(t, q, i).Some? == Opened(t, q, j).Some?
  {
  }

  // ---------------------------------------------------------------- sender and receiver in step

  ghost predicate SameStream(v: Option<Stream>, w: Option<Stream>) {
    && v.Some? == w.Some?
    && (v.Some? ==>
          && v.value.rtp == w.value.rtp && v.value.rdbx == w.value.rdbx && v.value.limit == w.value.limit
          && (v.value.rtp.auth || v.value.rtp.tagLength == 0))
  }

  /** The receiver holds the sender's keys and replay state, and has at least as many packets left. */
  ghost predicate Twins(a: Session, b: Session) {
    && SessionOk(a) && SessionOk(b) && |a.limits| == |b.limits|
    && (forall i :: 0 <= i < |a.limits| ==> 1 <= a.limits[i] <= b.limits[i] < LIMIT_MOD)
    && forall ssrc: u32 :: SameStream(View(a, ssrc), View(b, ssrc))
  }

  /** One packet from a sender to its twin: it comes out as it went in, and the two stay twins. */
  lemma PacketBetweenTwins(a: Session, b: Session, p: seq<u8>)
    requires Twins(a, b) && Protect(a, p).status == Ok
    ensures Unprotect(b, Protect(a, p).packet).status == Ok && Unprotect(b, Protect(a, p).packet).packet == p
    ensures Twins(Protect(a, p).session, Unprotect(b, Protect(a, p).packet).session)
  {
    hide Protect, Unprotect, View, Sealed, Opened, Authentic, R.RdbxEstimate, R.RdbxAdd, R.RdbxCheck, LimitUpdated;
    hide Rtp.Complete, Rtp.Ssrc, Rtp.SeqNum, Rtp.HeaderSize;
    TooShort(a, p);
    var o, ssrc := Protect(a, p), Rtp.Ssrc(p);
    ProtectByView(a, p, ssrc);
    assert SameStream(View(a, ssrc), View(b, ssrc));
    var st, q := View(a, ssrc).value, o.packet;
    var e := R.RdbxEstimate(st.rdbx, Rtp.SeqNum(p));
    LimitDown(a.limits[st.limit]);
    LimitDown(b.limits[st.limit]);
    SealedHeader(st.rtp, p, e.index);
    SameFields(p, q);
    SealedIsAuthentic(st.rtp, p, e.index);
    OpenedSealedIff(st.rtp, p, e.index);
    UnprotectByView(b, q, ssrc);
    var u := Unprotect(b, q);
    forall c: u32
      ensures SameStream(View(o.session, c), View(u.session, c))
    {
      ProtectByView(a, p, c);
      UnprotectByView(b, q, c);
      assert SameStream(View(a, c), View(b, c));
    }
  }

  lemma TooShort(s: Session, p: seq<u8>)
    requires SessionOk(s)
    ensures |p| < 12 ==> Protect(s, p) == Outcome(BadParam, s, p)
  {
  }

  lemma SameFields(p: seq<u8>, q: seq<u8>)
    requires |p| >= 12 && |q| >= 12 && p[..12] == q[..12]
    ensures Rtp.Ssrc(p) == Rtp.Ssrc(q) && Rtp.SeqNum(p) == Rtp.SeqNum(q)
  {
  }

  /** A packet the sender refuses to protect does not part the twins. */
  lemma RefusalBetweenTwins(a: Session, b: Session, p: seq<u8>)
    requires Twins(a, b) && Protect(a, p).status !in {Ok, KeyExpired, Overrun}
    ensures Twins(Protect(a, p).session, b)
  {
    hide Protect, View, Sealed, R.RdbxEstimate, R.RdbxAdd, R.RdbxCheck, LimitUpdated, Rtp.Complete, Rtp.Ssrc, Rtp.SeqNum;
    TooShort(a, p);
    if |p| >= 12 {
      var o, ssrc := Protect(a, p), Rtp.Ssrc(p);
      ProtectByView(a, p, ssrc);
      if View(a, ssrc).Some? {
        LimitDown(a.limits[View(a, ssrc).value.limit]);
      }
      forall c: u32
        ensures SameStream(View(o.session, c), View(b, c))
      {
        ProtectByView(a, p, c);
        assert SameStream(View(a, c), View(b, c));
      }
    }
  }

  // ---------------------------------------------------------------- whole runs

  /** The sender is asked to protect a packet, or the receiver is given one from elsewhere. */
  datatype Event = Send(packet: seq<u8>) | Noise(packet: seq<u8>)

  datatype Ends = Ends(sender: Session, receiver: Session)

  predicate EndsOk(x: Ends) {
    SessionOk(x.sender) && SessionOk(x.receiver)
  }

  function Happen(x: Ends, ev: Event): (r: Ends)
    requires EndsOk(x)
    ensures EndsOk(r)
  {
    match ev
    case Send(p) =>
      var o := Protect(x.sender, p);
      Ends(o.session, if o.status == Ok then Unprotect(x.receiver, o.packet).session else x.receiver)
    case Noise(q) => x.(receiver := Unprotect(x.receiver, q).session)
  }

  /** The key still has packets left, headers are whole, and what comes from elsewhere is refused. */
  predicate Fair(x: Ends, ev: Event)
    requires EndsOk(x)
  {
    match ev
    case Send(p) => Protect(x.sender, p).status !in {KeyExpired, Overrun}
    case Noise(q) => Refuses(x.receiver, UnprotectOp(q))
  }

  function Ran(x: Ends, evs: seq<Event>): (r: Ends)
    requires EndsOk(x)
    ensures EndsOk(r)
  {
    if evs == [] then x else Happen(Ran(x, evs[..|evs| - 1]), evs[|evs| - 1])
  }

  predicate FairRun(x: Ends, evs: seq<Event>)
    requires EndsOk(x)
  {
    evs == [] || (FairRun(x, evs[..|evs| - 1]) && Fair(Ran(x, evs[..|evs| - 1]), evs[|evs| - 1]))
  }

  /** The packets the sender protected, and what the receiver made of each. */
  function Sent(x: Ends, evs: seq<Event>): seq<Result>
    requires EndsOk(x)
  {
    if evs == [] then []
    else
      var front, ev := evs[..|evs| - 1], evs[|evs| - 1];
      if ev.Send? && Protect(Ran(x, front).sender, ev.packet).status == Ok then Sent(x, front) + [Result(Ok, ev.packet)]
      else Sent(x, front)
  }

  function Arrived(x: Ends, evs: seq<Event>): seq<Result>
    requires EndsOk(x)
  {
    if evs == [] then []
    else
      var front, ev := evs[..|evs| - 1], evs[|evs| - 1];
      if ev.Send? && Protect(Ran(x, front).sender, ev.packet).status == Ok then
        var u := Unprotect(Ran(x, front).receiver, Protect(Ran(x, front).sender, ev.packet).packet);
        Arrived(x, front) + [Result(u.status, u.packet)]
      else Arrived(x, front)
  }

  /**
   * Over every run of packets of any number of streams, in any order of sequence numbers and with any noise
   * that is refused in between, the receiver accepts and restores every packet the sender protected.
   */
  lemma {:induction false} EveryPacketArrives(x: Ends, evs: seq<Event>)
    requires EndsOk(x) && Twins(x.sender, x.receiver) && FairRun(x, evs)
    ensures Arrived(x, evs) == Sent(x, evs) && Twins(Ran(x, evs).sender, Ran(x, evs).receiver)
  {
    hide Twins, Protect, Unprotect, Refuses, SessionOk;
    if evs != [] {
      var front, ev := evs[..|evs| - 1], evs[|evs| - 1];
      EveryPacketArrives(x, front);
      var y := Ran(x, front);
      if ev.Noise? {
        RefusedNoise(y.receiver, ev.packet);
      } else if Protect(y.sender, ev.packet).status == Ok {
        PacketBetweenTwins(y.sender, y.receiver, ev.packet);
      } else {
        RefusalBetweenTwins(y.sender, y.receiver, ev.packet);
      }
    }
  }

  lemma RefusedNoise(s: Session, q: seq<u8>)
    requires SessionOk(s) && Refuses(s, UnprotectOp(q))
    ensures Unprotect(s, q).session == s
  {
  }

  // ---------------------------------------------------------------- control packets

  /** The view of `b` once the SRTCP database of `ssrc` has changed. */
  ghost predicate RdbMoved(s: Session, r: Session, ssrc: u32, rdb: R.Rdb, b: u32)
    requires View(s, ssrc).Some?
  {
    View(r, b) == if b == ssrc then Some(View(s, ssrc).value.(rdb := rdb)) else View(s, b)
  }

  ghost predicate ProtectsRtcpByView(s: Session, p: seq<u8>, o: Outcome, b: u32)
    requires |p| >= RTCP_HEADER && View(s, RtcpSsrc(p)).Some?
  {
    var st := View(s, RtcpSsrc(p)).value;
    var n := (st.rdb.start + 1) % ROC_MOD;
    && RdbMoved(s, o.session, RtcpSsrc(p), st.rdb.(start := n), b)
    && if st.rdb.start > 0x7fff_ffff then o.status == KeyExpired
       else o.status == Ok && o.packet == SealedRtcp(st.rtcp, p, n)
  }

  lemma ProtectRtcpKnownByView(s: Session, p: seq<u8>, b: u32)
    requires SessionOk(s) && |p| >= RTCP_HEADER && Known(s, RtcpSsrc(p))
    ensures ProtectsRtcpByView(s, p, ProtectRtcpKnown(s, p), b)
  {
    hide Put, Lookup, SealedRtcp, RtcpSsrc, View, SessionOk, Known;
    ViewKnown(s, RtcpSsrc(p));
    var st := Directed(At(s, RtcpSsrc(p)), Sender);
    ViewPut(s, st.(rdb := st.rdb.(start := (st.rdb.start + 1) % ROC_MOD)), b);
  }

  lemma ProtectRtcpByView(s: Session, p: seq<u8>, b: u32)
    requires SessionOk(s) && |p| >= RTCP_HEADER && View(s, RtcpSsrc(p)).Some?
    ensures ProtectsRtcpByView(s, p, ProtectRtcp(s, p), b)
  {
    hide Adopted, Lookup, SealedRtcp, RtcpSsrc, ProtectRtcpKnown;
    var ssrc := RtcpSsrc(p);
    ViewAdopted(s, ssrc, ssrc);
    ViewAdopted(s, ssrc, b);
    ProtectRtcpKnownByView(Adopted(s, ssrc), p, b);
  }

  /** What a control packet that passes all checks does, told by the view alone. */
  lemma UnprotectRtcpByView(s: Session, q: seq<u8>, left: seq<u8>, b: u32)
    requires SessionOk(s) && |q| >= RTCP_HEADER && View(s, RtcpSsrc(q)).Some?
    requires var st := View(s, RtcpSsrc(q)).value;
      && HasTrailer(st.rtcp, q) && AuthenticRtcp(st.rtcp, q, left) && OpenedRtcp(st.rtcp, q).Some?
      && R.RdbCheck(st.rdb, RtcpIndex(st.rtcp, q)) == R.Ok && R.RdbInReach(st.rdb, RtcpIndex(st.rtcp, q))
    requires Known(s, RtcpSsrc(q)) || s.template.value.rdb == R.RdbInit()
    ensures var o, st := UnprotectRtcp(s, q, left), View(s, RtcpSsrc(q)).value;
      && o.status == Ok && Some(o.packet) == OpenedRtcp(st.rtcp, q)
      && RdbMoved(s, o.session, RtcpSsrc(q), R.RdbAdd(st.rdb, RtcpIndex(st.rtcp, q)), b)
  {
    hide Put, Lookup, Received, RtcpSsrc, AuthenticRtcp, OpenedRtcp, RtcpIndex, R.RdbAdd, R.RdbCheck, R.RdbInReach, R.RdbInit;
    var ssrc := RtcpSsrc(q);
    var r := Received(s, ssrc);
    ViewReceived(s, ssrc, ssrc);
    ViewReceived(s, ssrc, b);
    var n := RtcpIndex(View(s, ssrc).value.rtcp, q);
    ViewPut(r, At(r, ssrc).(rdb := R.RdbAdd(At(r, ssrc).rdb, n)), b);
  }

  /** The sender of `ssrc` has sent `n` control packets, and the receiver has accepted all of them in order. */
  ghost predicate RtcpInStep(a: Session, b: Session, ssrc: u32, n: nat) {
    && SessionOk(a) && SessionOk(b) && View(a, ssrc).Some? && View(b, ssrc).Some?
    && View(a, ssrc).value.rdb.start == n && View(b, ssrc).value.rdb == R.InOrder(n)
    && View(a, ssrc).value.rtcp == View(b, ssrc).value.rtcp && View(a, ssrc).value.rtcp.prefixLength == 0
    && (Known(b, ssrc) || b.template.value.rdb == R.RdbInit())
  }

  /** Without a keystream prefix, each control packet in order is restored, up to the end of the index. */
  lemma RtcpPacketArrives(a: Session, b: Session, p: seq<u8>, n: nat, left: seq<u8>)
    requires |p| >= RTCP_HEADER && RtcpInStep(a, b, RtcpSsrc(p), n) && n + 1 < E_BIT && left == []
    ensures var o := ProtectRtcp(a, p);
      var u := UnprotectRtcp(b, o.packet, left);
      o.status == Ok && u.status == Ok && u.packet == p && RtcpInStep(o.session, u.session, RtcpSsrc(p), n + 1)
  {
    hide View, ProtectRtcp, UnprotectRtcp, RtcpSsrc, SealedRtcp, AuthenticRtcp, OpenedRtcp, RtcpIndex, HasTrailer;
    hide R.RdbAdd, R.RdbCheck, R.RdbInReach, R.RdbInit, Known, SessionOk, StreamOk;
    var ssrc := RtcpSsrc(p);
    var st := View(a, ssrc).value;
    ProtectRtcpByView(a, p, ssrc);
    var q := SealedRtcp(st.rtcp, p, n + 1);
    RtcpWire(st.rtcp, p, n + 1, left);
    R.InOrderShows(n);
    UnprotectRtcpByView(b, q, left, ssrc);
    StaysKnown(b, q, left);
  }

  /** Everything the receiver's checks need of a packet on the wire. */
  lemma RtcpWire(t: Transform, p: seq<u8>, n: nat, left: seq<u8>)
    requires |p| >= RTCP_HEADER && n < E_BIT && t.prefixLength == 0 && left == []
    ensures var q := SealedRtcp(t, p, n);
      && |q| >= RTCP_HEADER && RtcpSsrc(q) == RtcpSsrc(p) && HasTrailer(t, q) && AuthenticRtcp(t, q, left)
      && RtcpIndex(t, q) == n && OpenedRtcp(t, q) == Some(p)
  {
    hide SealedRtcp, AuthenticRtcp, OpenedRtcp, RtcpIndex, RtcpSsrc;
    SealedRtcpParts(t, p, n);
    SameRtcpSsrc(p, SealedRtcp(t, p, n));
    SealedRtcpIsAuthenticIff(t, p, n, left);
    OpenedSealedRtcp(t, p, n);
  }

  lemma SameRtcpSsrc(p: seq<u8>, q: seq<u8>)
    requires |p| >= RTCP_HEADER && |q| >= RTCP_HEADER && q[4..8] == p[4..8]
    ensures RtcpSsrc(q) == RtcpSsrc(p)
  {
  }

  lemma StaysKnown(s: Session, q: seq<u8>, left: seq<u8>)
    requires SessionOk(s) && |q| >= RTCP_HEADER && UnprotectRtcp(s, q, left).status == Ok
    ensures Known(UnprotectRtcp(s, q, left).session, RtcpSsrc(q))
  {
    hide Lookup, Received, AuthenticRtcp, OpenedRtcp, RtcpIndex, R.RdbAdd, R.RdbCheck, R.RdbInReach;
  }

  function RtcpSend(x: Ends, p: seq<u8>): (r: Ends)
    requires EndsOk(x)
    ensures EndsOk(r)
  {
    var o := ProtectRtcp(x.sender, p);
    Ends(o.session, UnprotectRtcp(x.receiver, o.packet, []).session)
  }

  function RtcpRan(x: Ends, ps: seq<seq<u8>>): (r: Ends)
    requires EndsOk(x)
    ensures EndsOk(r)
  {
    if ps == [] then x else RtcpSend(RtcpRan(x, ps[..|ps| - 1]), ps[|ps| - 1])
  }

  function RtcpArrived(x: Ends, ps: seq<seq<u8>>): seq<Result>
    requires EndsOk(x)
  {
    if ps == [] then []
    else
      var y, p := RtcpRan(x, ps[..|ps| - 1]), ps[|ps| - 1];
      var u := UnprotectRtcp(y.receiver, ProtectRtcp(y.sender, p).packet, []);
      RtcpArrived(x, ps[..|ps| - 1]) + [Result(u.status, u.packet)]
  }

  function Accepted(ps: seq<seq<u8>>): seq<Result> {
    if ps == [] then [] else Accepted(ps[..|ps| - 1]) + [Result(Ok, ps[|ps| - 1])]
  }

  /** Every control packet of one source that is sent and delivered in order is accepted and restored. */
  lemma {:induction false} EveryRtcpPacketArrives(x: Ends, ps: seq<seq<u8>>, ssrc: u32, n: nat)
    requires EndsOk(x) && RtcpInStep(x.sender, x.receiver, ssrc, n) && n + |ps| < E_BIT
    requires forall i :: 0 <= i < |ps| ==> |ps[i]| >= RTCP_HEADER && RtcpSsrc(ps[i]) == ssrc
    ensures RtcpArrived(x, ps) == Accepted(ps)
    ensures RtcpInStep(RtcpRan(x, ps).sender, RtcpRan(x, ps).receiver, ssrc, n + |ps|)
  {
    hide RtcpInStep, ProtectRtcp, UnprotectRtcp, RtcpSsrc, SessionOk;
    if ps != [] {
      var k := |ps| - 1;
      EveryRtcpPacketArrives(x, ps[..k], ssrc, n);
      var y := RtcpRan(x, ps[..k]);
      RtcpPacketArrives(y.sender, y.receiver, ps[k], n + k, []);
    }
  }

  // ---------------------------------------------------------------- the packet limit

  /** The limit stops one packet only: the count then starts again from the top. */
  lemma ExpiryIsOneOff(s: Session, p: seq<u8>)
    requires SessionOk(s) && Protect(s, p).status == KeyExpired
    ensures Protect(Protect(s, p).session, p).status != KeyExpired
  {
    hide Protect, View, Sealed, R.RdbxEstimate, R.RdbxAdd, R.RdbxCheck, LimitUpdated, Rtp.Complete, Rtp.Ssrc, Rtp.SeqNum;
    TooShort(s, p);
    var r := Protect(s, p).session;
    ProtectByView(s, p, Rtp.Ssrc(p));
    ProtectByView(r, p, Rtp.Ssrc(p));
    LimitWraps();
  }

  lemma LimitWraps()
    ensures LimitUpdated(0) == LIMIT_MOD - 1
  {
  }

  // ---------------------------------------------------------------- sessions from policies

  datatype Kind = Undefined | Specific | AnyInbound | AnyOutbound

  datatype Policy = Policy(kind: Kind, ssrc: u32, rtp: Transform, rtcp: Transform)

  predicate PoliciesOk(ps: seq<Policy>) {
    forall i :: 0 <= i < |ps| ==> Fits(ps[i].rtp) && Fits(ps[i].rtcp)
  }

  predicate Wildcard(p: Policy) {
    p.kind == AnyInbound || p.kind == AnyOutbound
  }

  function NewStream(p: Policy, limit: nat): Stream {
    var direction := match p.kind
      case AnyInbound => Receiver
      case AnyOutbound => Sender
      case _ => Unknown;
    Stream(p.ssrc, direction, p.rtp, p.rtcp, R.RdbxInit(), R.RdbInit(), limit)
  }

  /** The session with one more policy, unless the policy is undefined or a second wildcard. */
  function Added(s: Session, p: Policy): (r: Option<Session>)
    requires SessionOk(s) && Fits(p.rtp) && Fits(p.rtcp)
    ensures r.Some? ==> SessionOk(r.value)
  {
    var st, limits := NewStream(p, |s.limits|), s.limits + [FULL_LIMIT];
    if p.kind == Undefined || (Wildcard(p) && s.template.Some?) then None
    else if p.kind == Specific then Some(Session(s.template, [st] + s.streams, limits))
    else Some(Session(Some(st), s.streams, limits))
  }

  function Created(ps: seq<Policy>): (r: Option<Session>)
    requires PoliciesOk(ps)
    ensures r.Some? ==> SessionOk(r.value) && |r.value.limits| == |ps|
    ensures r.Some? ==> forall i :: 0 <= i < |ps| ==> r.value.limits[i] == FULL_LIMIT
  {
    if ps == [] then Some(Session(None, [], []))
    else
      match Created(ps[..|ps| - 1])
      case None => None
      case Some(s) => Added(s, ps[|ps| - 1])
  }

  predicate HasWildcard(ps: seq<Policy>) {
    exists i :: 0 <= i < |ps| && Wildcard(ps[i])
  }

  /** No policy is undefined, and at most one is a wildcard. */
  ghost predicate Acceptable(ps: seq<Policy>) {
    && (forall i :: 0 <= i < |ps| ==> ps[i].kind != Undefined)
    && (forall i, j :: 0 <= i < j < |ps| ==> !(Wildcard(ps[i]) && Wildcard(ps[j])))
  }

  lemma HasWildcardStep(ps: seq<Policy>, n: nat)
    requires |ps| == n + 1
    ensures HasWildcard(ps) <==> HasWildcard(ps[..n]) || Wildcard(ps[n])
  {
    if HasWildcard(ps[..n]) {
      var i :| 0 <= i < n && Wildcard(ps[..n][i]);
      assert Wildcard(ps[i]);
    }
    if HasWildcard(ps) {
      var i :| 0 <= i <= n && Wildcard(ps[i]);
      assert i < n ==> Wildcard(ps[..n][i]);
    }
  }

  lemma AcceptableStep(ps: seq<Policy>, n: nat)
    requires |ps| == n + 1
    ensures Acceptable(ps) <==>
      Acceptable(ps[..n]) && ps[n].kind != Undefined && !(Wildcard(ps[n]) && HasWildcard(ps[..n]))
  {
    var front := ps[..n];
    assert forall i :: 0 <= i < n ==> front[i] == ps[i];
    if HasWildcard(front) {
      var i :| 0 <= i < n && Wildcard(front[i]);
      assert Wildcard(ps[i]);
    }
  }

  /** A policy list is taken exactly when it has no undefined policy and at most one wildcard. */
  lemma {:induction false} CreatedIff(ps: seq<Policy>)
    requires PoliciesOk(ps)
    ensures Created(ps).Some? <==> Acceptable(ps)
    ensures Created(ps).Some? ==> (Created(ps).value.template.Some? <==> HasWildcard(ps))
  {
    hide SessionOk, Acceptable, HasWildcard;
    if ps != [] {
      var n := |ps| - 1;
      CreatedIff(ps[..n]);
      HasWildcardStep(ps, n);
      AcceptableStep(ps, n);
    } else {
      NoPolicies();
    }
  }

  lemma NoPolicies()
    ensures Acceptable([]) && !HasWildcard([])
  {
  }

  ghost predicate DistinctPolicies(ps: seq<Policy>) {
    forall i, j :: 0 <= i < j < |ps| && ps[i].kind == Specific && ps[j].kind == Specific ==> ps[i].ssrc != ps[j].ssrc
  }

  /** The identifiers of the specific policies, the last one first. */
  ghost function SpecificIds(ps: seq<Policy>): seq<u32> {
    if ps == [] then []
    else
      var ids, p := SpecificIds(ps[..|ps| - 1]), ps[|ps| - 1];
      if p.kind == Specific then [p.ssrc] + ids else ids
  }

  lemma {:induction false} CreatedIds(ps: seq<Policy>)
    requires PoliciesOk(ps) && Created(ps).Some?
    ensures Ids(Created(ps).value) == SpecificIds(ps)
  {
    hide SessionOk;
    if ps != [] {
      CreatedIds(ps[..|ps| - 1]);
    }
  }

  ghost predicate HasSpecific(ps: seq<Policy>, b: u32) {
    exists i :: 0 <= i < |ps| && ps[i].kind == Specific && ps[i].ssrc == b
  }

  lemma {:induction false} SpecificIdsMembers(ps: seq<Policy>, b: u32)
    ensures b in SpecificIds(ps) <==> HasSpecific(ps, b)
  {
    if ps != [] {
      var n := |ps| - 1;
      SpecificIdsMembers(ps[..n], b);
      if HasSpecific(ps[..n], b) {
        var i :| 0 <= i < n && ps[..n][i].kind == Specific && ps[..n][i].ssrc == b;
        assert ps[i].kind == Specific && ps[i].ssrc == b;
      }
      if HasSpecific(ps, b) {
        var i :| 0 <= i < |ps| && ps[i].kind == Specific && ps[i].ssrc == b;
        assert i < n ==> ps[..n][i] == ps[i];
      }
    }
  }

  ghost predicate NoRepeats(ids: seq<u32>) {
    forall i, j :: 0 <= i < j < |ids| ==> ids[i] != ids[j]
  }

  lemma NoRepeatsStep(x: u32, ids: seq<u32>)
    ensures NoRepeats([x] + ids) <==> NoRepeats(ids) && x !in ids
  {
    var r := [x] + ids;
    assert forall i :: 0 <= i < |ids| ==> r[i + 1] == ids[i];
    if NoRepeats(r) {
      forall i, j | 0 <= i < j < |ids|
        ensures ids[i] != ids[j]
      {
        assert r[i + 1] != r[j + 1];
      }
      forall j | 0 <= j < |ids|
        ensures ids[j] != x
      {
        assert r[0] != r[j + 1];
      }
    }
  }

  lemma {:induction false} SpecificIdsDistinct(ps: seq<Policy>)
    ensures NoRepeats(SpecificIds(ps)) <==> DistinctPolicies(ps)
  {
    if ps != [] {
      var n := |ps| - 1;
      SpecificIdsDistinct(ps[..n]);
      SpecificIdsMembers(ps[..n], ps[n].ssrc);
      NoRepeatsStep(ps[n].ssrc, SpecificIds(ps[..n]));
      assert forall i :: 0 <= i < n ==> ps[..n][i] == ps[i];
      if HasSpecific(ps[..n], ps[n].ssrc) {
        var i :| 0 <= i < n && ps[..n][i].kind == Specific && ps[..n][i].ssrc == ps[n].ssrc;
        assert ps[i].kind == Specific && ps[i].ssrc == ps[n].ssrc;
      }
    }
  }

  /** The streams of a new session are those of its specific policies, and distinct exactly when these are. */
  lemma CreatedDistinctIff(ps: seq<Policy>)
    requires PoliciesOk(ps) && Created(ps).Some?
    ensures DistinctStreams(Created(ps).value) <==> DistinctPolicies(ps)
  {
    hide Created;
    var s := Created(ps).value;
    CreatedIds(ps);
    SpecificIdsDistinct(ps);
    assert forall i :: 0 <= i < |s.streams| ==> Ids(s)[i] == s.streams[i].ssrc;
    assert DistinctStreams(s) <==> NoRepeats(Ids(s)) by {
      if DistinctStreams(s) {
        assert forall i, j :: 0 <= i < j < |Ids(s)| ==> s.streams[i].ssrc != s.streams[j].ssrc;
      }
      if NoRepeats(Ids(s)) {
        assert forall i, j :: 0 <= i < j < |s.streams| ==> Ids(s)[i] != Ids(s)[j];
      }
    }
  }

  // ---------------------------------------------------------------- twins from matching policies

  /** The two ends agree on identifiers and transforms; wildcards may differ in their direction. */
  ghost predicate Matching(p: Policy, q: Policy) {
    && p.ssrc == q.ssrc && p.rtp == q.rtp && p.rtcp == q.rtcp && (p.rtp.auth || p.rtp.tagLength == 0)
    && (p.kind == q.kind || (Wildcard(p) && Wildcard(q)))
  }

  ghost predicate SameCore(v: Stream, w: Stream) {
    Core(v) == Core(w) && (v.rtp.auth || v.rtp.tagLength == 0)
  }

  ghost predicate SameButDirections(a: Session, b: Session) {
    && a.limits == b.limits && |a.streams| == |b.streams| && a.template.Some? == b.template.Some?
    && (a.template.Some? ==> SameCore(a.template.value, b.template.value))
    && forall i :: 0 <= i < |a.streams| ==> SameCore(a.streams[i], b.streams[i])
  }

  lemma {:induction false} CreatedAlike(ps: seq<Policy>, qs: seq<Policy>)
    requires PoliciesOk(ps) && PoliciesOk(qs) && |ps| == |qs|
    requires forall i :: 0 <= i < |ps| ==> Matching(ps[i], qs[i])
    ensures Created(ps).Some? == Created(qs).Some?
    ensures Created(ps).Some? ==> SameButDirections(Created(ps).value, Created(qs).value)
  {
    hide SessionOk, SameButDirections, Added;
    if ps != [] {
      var n := |ps| - 1;
      assert forall i :: 0 <= i < n ==> Matching(ps[..n][i], qs[..n][i]) by {
        assert forall i :: 0 <= i < n ==> ps[..n][i] == ps[i] && qs[..n][i] == qs[i];
      }
      CreatedAlike(ps[..n], qs[..n]);
      if Created(ps[..n]).Some? {
        AddedAlike(Created(ps[..n]).value, Created(qs[..n]).value, ps[n], qs[n]);
      }
    } else {
      NothingAlike();
    }
  }

  lemma NothingAlike()
    ensures SameButDirections(Session(None, [], []), Session(None, [], []))
  {
  }

  lemma AddedAlike(a: Session, b: Session, p: Policy, q: Policy)
    requires SessionOk(a) && SessionOk(b) && SameButDirections(a, b) && Matching(p, q)
    requires Fits(p.rtp) && Fits(p.rtcp) && Fits(q.rtp) && Fits(q.rtcp)
    ensures Added(a, p).Some? == Added(b, q).Some?
    ensures Added(a, p).Some? ==> SameButDirections(Added(a, p).value, Added(b, q).value)
  {
    hide SessionOk;
  }

  /** Two sessions created from matching policy lists are twins. */
  lemma TwinsFromPolicies(ps: seq<Policy>, qs: seq<Policy>)
    requires PoliciesOk(ps) && PoliciesOk(qs) && |ps| == |qs| && Created(ps).Some?
    requires forall i :: 0 <= i < |ps| ==> Matching(ps[i], qs[i])
    ensures Created(qs).Some? && Twins(Created(ps).value, Created(qs).value)
  {
    hide Created, SessionOk;
    CreatedAlike(ps, qs);
    var a, b := Created(ps).value, Created(qs).value;
    forall ssrc: u32
      ensures SameStream(View(a, ssrc), View(b, ssrc))
    {
      AlikeViews(a, b, ssrc);
    }
  }

  lemma AlikeViews(a: Session, b: Session, ssrc: u32)
    requires SameButDirections(a, b)
    ensures SameStream(View(a, ssrc), View(b, ssrc))
  {
  }
}
