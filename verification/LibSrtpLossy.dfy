/**
 * Runs of libSRTP sessions over a channel that loses packets: the receiver's replay state lags behind the
 * sender's, and every packet that arrives within its reach is restored.
 */
module LibSrtpLossy {
  import opened Octets
  import opened Wrappers
  import opened SrtpTransform
  import opened LibSrtp
  import opened LibSrtpRun
  import R = ReplayDb
  import Rtp = SrtpPacket

  // ---------------------------------------------------------------- the receiver behind the sender

  /** The receiver's index is one the sender has passed. Nothing has been entered at the top while it is zero. */
  ghost predicate Behind(v: R.Rdbx, w: R.Rdbx) {
    w.index <= v.index && (w.index == 0 ==> !w.mask[R.BITS - 1])
  }

  ghost predicate FollowsStream(v: Option<Stream>, w: Option<Stream>) {
    && v.Some? == w.Some?
    && (v.Some? ==>
          && v.value.rtp == w.value.rtp && v.value.limit == w.value.limit && Behind(v.value.rdbx, w.value.rdbx)
          && (v.value.rtp.auth || v.value.rtp.tagLength == 0))
  }

  /** The receiver holds the sender's keys, lags behind it, and has at least as many packets left. */
  ghost predicate Follows(a: Session, b: Session) {
    && SessionOk(a) && SessionOk(b) && |a.limits| == |b.limits|
    && (forall i :: 0 <= i < |a.limits| ==> 1 <= a.limits[i] <= b.limits[i] < LIMIT_MOD)
    && forall ssrc: u32 :: FollowsStream(View(a, ssrc), View(b, ssrc))
  }

  /** The sender goes forward: its next packet lies ahead, or is number 0 of a stream that has not moved yet. */
  predicate Forward(db: R.Rdbx, s: u16) {
    && db.index + 2 * SEQ_MOD < INDEX_MOD
    && R.Straight(db, s)
    && (R.RdbxEstimate(db, s).delta > 0 || (db.index == 0 && s == 0))
  }

  /** Where the sender's index is after such a packet: at the packet's own. */
  lemma ForwardMoves(db: R.Rdbx, s: u16)
    requires Forward(db, s)
    ensures var e := R.RdbxEstimate(db, s);
      && 0 <= e.delta < SEQ_MOD && e.index == db.index + e.delta && e.index % SEQ_MOD == s
      && R.RdbxAdd(db, e.delta).index == e.index
  {
    hide R.IndexGuess, R.RdbxAdd;
    var e := R.RdbxEstimate(db, s);
    R.DeltaBelow(db, s);
    if db.index > R.MEDIAN {
      var k := R.GuessStep(db.index, s);
      R.GuessSplits(db.index, s);
      SmallRoc(db.index, k);
      assert k != -1;
    }
    SameSeq(e.index, s);
    if e.delta > 0 {
      R.AddAhead(db, e.delta);
    } else {
      StaysAt(db);
    }
  }

  lemma SmallRoc(index: nat, k: int)
    requires R.MEDIAN < index && index + 2 * SEQ_MOD < INDEX_MOD && -1 <= k <= 1 && index / SEQ_MOD + k >= 0
    ensures (index / SEQ_MOD + k) % ROC_MOD == index / SEQ_MOD + k
  {
  }

  lemma SameSeq(index: nat, s: u16)
    ensures (exists q: nat :: index == q * SEQ_MOD + s) ==> index % SEQ_MOD == s
  {
  }

  lemma StaysAt(db: R.Rdbx)
    ensures R.RdbxAdd(db, 0).index == db.index
  {
  }

  /** A receiver behind the sender finds the index of a packet within its reach, admits it and moves to it. */
  lemma ReachedIsAdmitted(v: R.Rdbx, w: R.Rdbx, s: u16)
    requires Forward(v, s) && Behind(v, w) && R.InReach(w.index, R.RdbxEstimate(v, s).index)
    ensures var e, f := R.RdbxEstimate(v, s), R.RdbxEstimate(w, s);
      && f.index == e.index && R.RdbxCheck(w, f.delta) == R.Ok && -R.BITS < e.delta && -R.BITS < f.delta
      && Behind(R.RdbxAdd(v, e.delta), R.RdbxAdd(w, f.delta))
  {
    hide R.RdbxEstimate, R.InReach;
    var e, f := R.RdbxEstimate(v, s), R.RdbxEstimate(w, s);
    ForwardMoves(v, s);
    R.EstimateIsExactIff(w, e.index);
    if e.index > w.index {
      R.AheadIsReported(w, e.index);
      R.DeltaBelow(w, s);
      R.AddAhead(w, f.delta);
    } else {
      ForwardFromZero(v, s);
      AtZero(w);
    }
  }

  lemma ForwardFromZero(db: R.Rdbx, s: u16)
    requires Forward(db, s) && R.RdbxEstimate(db, s).delta <= 0
    ensures db.index == 0 && s == 0
  {
  }

  lemma AtZero(db: R.Rdbx)
    requires db.index == 0 && !db.mask[R.BITS - 1]
    ensures R.RdbxEstimate(db, 0) == R.Estimate(0, 0) && R.RdbxCheck(db, 0) == R.Ok
    ensures R.RdbxAdd(db, 0).index == 0 && !R.RdbxAdd(db, 0).mask[R.BITS - 1]
  {
  }

  lemma SenderMovesOn(v: R.Rdbx, w: R.Rdbx, s: u16)
    requires Forward(v, s) && Behind(v, w)
    ensures -R.BITS < R.RdbxEstimate(v, s).delta && Behind(R.RdbxAdd(v, R.RdbxEstimate(v, s).delta), w)
  {
    hide R.RdbxEstimate, R.RdbxAdd;
    ForwardMoves(v, s);
  }

  // ---------------------------------------------------------------- one packet

  /** The index of a packet, and whether it is the next one of a sender that goes forward. */
  predicate GoesForward(a: Session, p: seq<u8>) {
    |p| >= 12 && View(a, Rtp.Ssrc(p)).Some? && Forward(View(a, Rtp.Ssrc(p)).value.rdbx, Rtp.SeqNum(p))
  }

  predicate Reaches(a: Session, b: Session, p: seq<u8>)
    requires GoesForward(a, p)
  {
    var ssrc := Rtp.Ssrc(p);
    View(b, ssrc).Some? &&
    R.InReach(View(b, ssrc).value.rdbx.index, R.RdbxEstimate(View(a, ssrc).value.rdbx, Rtp.SeqNum(p)).index)
  }

  /** A packet that arrives is restored, and the receiver has caught up with it. */
  lemma ArrivalRestores(a: Session, b: Session, p: seq<u8>)
    requires Follows(a, b) && Protect(a, p).status == Ok && GoesForward(a, p) && Reaches(a, b, p)
    ensures Unprotect(b, Protect(a, p).packet).status == Ok && Unprotect(b, Protect(a, p).packet).packet == p
    ensures Follows(Protect(a, p).session, Unprotect(b, Protect(a, p).packet).session)
  {
    hide Protect, Unprotect, View, Sealed, Opened, Authentic, R.RdbxEstimate, R.RdbxAdd, R.RdbxCheck, LimitUpdated;
    hide Rtp.Complete, Rtp.Ssrc, Rtp.SeqNum, Rtp.HeaderSize, Behind, Forward, R.InReach;
    var o, ssrc := Protect(a, p), Rtp.Ssrc(p);
    ProtectByView(a, p, ssrc);
    assert FollowsStream(View(a, ssrc), View(b, ssrc));
    var st, q := View(a, ssrc).value, o.packet;
    var e := R.RdbxEstimate(st.rdbx, Rtp.SeqNum(p));
    LimitDown(a.limits[st.limit]);
    LimitDown(b.limits[st.limit]);
    SealedHeader(st.rtp, p, e.index);
    SameFields(p, q);
    SealedIsAuthentic(st.rtp, p, e.index);
    OpenedSealedIff(st.rtp, p, e.index);
    ReachedIsAdmitted(st.rdbx, View(b, ssrc).value.rdbx, Rtp.SeqNum(p));
    UnprotectByView(b, q, ssrc);
    var u := Unprotect(b, q);
    forall c: u32
      ensures FollowsStream(View(o.session, c), View(u.session, c))
    {
      ProtectByView(a, p, c);
      UnprotectByView(b, q, c);
      assert FollowsStream(View(a, c), View(b, c));
    }
  }

  /** A packet that is lost leaves the receiver behind. */
  lemma LossLeavesBehind(a: Session, b: Session, p: seq<u8>)
    requires Follows(a, b) && Protect(a, p).status == Ok && GoesForward(a, p)
    ensures Follows(Protect(a, p).session, b)
  {
    hide Protect, View, Sealed, R.RdbxEstimate, R.RdbxAdd, R.RdbxCheck, LimitUpdated;
    hide Rtp.Complete, Rtp.Ssrc, Rtp.SeqNum, Behind, Forward;
    var o, ssrc := Protect(a, p), Rtp.Ssrc(p);
    ProtectByView(a, p, ssrc);
    assert FollowsStream(View(a, ssrc), View(b, ssrc));
    LimitDown(a.limits[View(a, ssrc).value.limit]);
    SenderMovesOn(View(a, ssrc).value.rdbx, View(b, ssrc).value.rdbx, Rtp.SeqNum(p));
    forall c: u32
      ensures FollowsStream(View(o.session, c), View(b, c))
    {
      ProtectByView(a, p, c);
      assert FollowsStream(View(a, c), View(b, c));
    }
  }

  lemma RefusalLeavesFollowing(a: Session, b: Session, p: seq<u8>)
    requires Follows(a, b) && Protect(a, p).status !in {Ok, KeyExpired, Overrun}
    ensures Follows(Protect(a, p).session, b)
  {
    hide Protect, View, Sealed, R.RdbxEstimate, R.RdbxAdd, R.RdbxCheck, LimitUpdated, Rtp.Complete, Rtp.Ssrc, Rtp.SeqNum;
    TooShort(a, p);
    if |p| >= 12 {
      var o, ssrc := Protect(a, p), Rtp.Ssrc(p);
      ProtectByView(a, p, ssrc);
      if View(a, ssrc).Some? {
        LimitDown(a.limits[View(a, ssrc).value.limit]);
      }
      forall c: u32
        ensures FollowsStream(View(o.session, c), View(b, c))
      {
        ProtectByView(a, p, c);
        assert FollowsStream(View(a, c), View(b, c));
      }
    }
  }

  // ---------------------------------------------------------------- whole runs

  /** A packet that is protected and arrives, one that is protected and lost, or one from elsewhere. */
  datatype Fate = Arrives(packet: seq<u8>) | Lost(packet: seq<u8>) | Noise(packet: seq<u8>)

  function Happens(x: Ends, f: Fate): (r: Ends)
    requires EndsOk(x)
    ensures EndsOk(r)
  {
    if f.Noise? then x.(receiver := Unprotect(x.receiver, f.packet).session)
    else
      var o := Protect(x.sender, f.packet);
      Ends(o.session, if f.Arrives? && o.status == Ok then Unprotect(x.receiver, o.packet).session else x.receiver)
  }

  /**
   * The key has packets left, headers are whole, the sender goes forward, what arrives is within the receiver's
   * reach, and what comes from elsewhere is refused.
   */
  predicate FairFate(x: Ends, f: Fate)
    requires EndsOk(x)
  {
    if f.Noise? then Refuses(x.receiver, UnprotectOp(f.packet))
    else
      var status := Protect(x.sender, f.packet).status;
      && status !in {KeyExpired, Overrun}
      && (status == Ok ==> GoesForward(x.sender, f.packet) && (f.Arrives? ==> Reaches(x.sender, x.receiver, f.packet)))
  }

  function AfterFates(x: Ends, fs: seq<Fate>): (r: Ends)
    requires EndsOk(x)
    ensures EndsOk(r)
  {
    if fs == [] then x else Happens(AfterFates(x, fs[..|fs| - 1]), fs[|fs| - 1])
  }

  predicate FairFates(x: Ends, fs: seq<Fate>)
    requires EndsOk(x)
  {
    fs == [] || (FairFates(x, fs[..|fs| - 1]) && FairFate(AfterFates(x, fs[..|fs| - 1]), fs[|fs| - 1]))
  }

  /** The packets that were protected and arrived, and what the receiver made of each. */
  function SentOn(x: Ends, fs: seq<Fate>): seq<Result>
    requires EndsOk(x)
  {
    if fs == [] then []
    else
      var y, f := AfterFates(x, fs[..|fs| - 1]), fs[|fs| - 1];
      SentOn(x, fs[..|fs| - 1]) +
        if f.Arrives? && Protect(y.sender, f.packet).status == Ok then [Result(Ok, f.packet)] else []
  }

  function Got(x: Ends, fs: seq<Fate>): seq<Result>
    requires EndsOk(x)
  {
    if fs == [] then []
    else
      var y, f := AfterFates(x, fs[..|fs| - 1]), fs[|fs| - 1];
      var o := Protect(y.sender, f.packet);
      var u := Unprotect(y.receiver, o.packet);
      Got(x, fs[..|fs| - 1]) + if f.Arrives? && o.status == Ok then [Result(u.status, u.packet)] else []
  }

  /**
   * Over every run of any number of streams that go forward, with losses, and with refused noise in between, every
   * packet that arrives within the receiver's reach is accepted and restored, over any number of rollovers.
   */
  lemma {:induction false} EveryArrivalIsRestored(x: Ends, fs: seq<Fate>)
    requires EndsOk(x) && Follows(x.sender, x.receiver) && FairFates(x, fs)
    ensures Got(x, fs) == SentOn(x, fs) && Follows(AfterFates(x, fs).sender, AfterFates(x, fs).receiver)
  {
    hide Follows, Protect, Unprotect, Refuses, SessionOk, GoesForward, Reaches;
    if fs != [] {
      var f := fs[|fs| - 1];
      EveryArrivalIsRestored(x, fs[..|fs| - 1]);
      var y := AfterFates(x, fs[..|fs| - 1]);
      if f.Noise? {
        RefusedNoise(y.receiver, f.packet);
      } else if Protect(y.sender, f.packet).status != Ok {
        RefusalLeavesFollowing(y.sender, y.receiver, f.packet);
      } else if f.Arrives? {
        ArrivalRestores(y.sender, y.receiver, f.packet);
      } else {
        LossLeavesBehind(y.sender, y.receiver, f.packet);
      }
    }
  }

  /** Sessions just created from matching policies are such a pair. */
  lemma CreatedFollow(ps: seq<Policy>, qs: seq<Policy>)
    requires PoliciesOk(ps) && PoliciesOk(qs) && |ps| == |qs| && Created(ps).Some?
    requires forall i :: 0 <= i < |ps| ==> Matching(ps[i], qs[i])
    ensures Created(qs).Some? && Follows(Created(ps).value, Created(qs).value)
  {
    hide Created, SessionOk, View;
    TwinsFromPolicies(ps, qs);
    var a, b := Created(ps).value, Created(qs).value;
    forall ssrc: u32
      ensures FollowsStream(View(a, ssrc), View(b, ssrc))
    {
      assert SameStream(View(a, ssrc), View(b, ssrc));
      CreatedFresh(ps, ssrc);
    }
  }

  /** No stream of a new session has entered anything. */
  lemma CreatedFresh(ps: seq<Policy>, ssrc: u32)
    requires PoliciesOk(ps) && Created(ps).Some?
    ensures View(Created(ps).value, ssrc).Some? ==> View(Created(ps).value, ssrc).value.rdbx == R.RdbxInit()
  {
    hide Created, Lookup;
    CreatedStreams(ps);
  }

  lemma {:induction false} CreatedStreams(ps: seq<Policy>)
    requires PoliciesOk(ps) && Created(ps).Some?
    ensures forall i :: 0 <= i < |Created(ps).value.streams| ==> Created(ps).value.streams[i].rdbx == R.RdbxInit()
  {
    hide SessionOk;
    if ps != [] {
      CreatedStreams(ps[..|ps| - 1]);
    }
  }
}
