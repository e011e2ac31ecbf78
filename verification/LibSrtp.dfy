/** Sessions of libSRTP: the stream list with its template, and what each packet does to it. */
module LibSrtp {
  import opened Octets
  import opened Wrappers
  import opened SrtpTransform
  import R = ReplayDb
  import Rtp = SrtpPacket

  const LIMIT_MOD := 0x1_0000_0000_0000_0000
  const FULL_LIMIT := 0xffff_ffff_ffff

  datatype Direction = Unknown | Sender | Receiver

  /** `Overrun` marks the calls that leave the packet's buffer, on which nothing more is said. */
  datatype Status = Ok | BadParam | NoCtx | KeyExpired | ReplayOld | ReplayFail | AuthFail | Overrun

  datatype Stream = Stream(ssrc: u32, direction: Direction, rtp: Transform, rtcp: Transform,
                           rdbx: R.Rdbx, rdb: R.Rdb, limit: nat)

  /** Cloned streams share the packet limit of the template; `limits` holds what is left of each limit. */
  datatype Session = Session(template: Option<Stream>, streams: seq<Stream>, limits: seq<nat>)

  datatype Outcome = Outcome(status: Status, session: Session, packet: seq<u8>)

  predicate StreamOk(st: Stream, limits: nat) {
    st.limit < limits && Fits(st.rtp) && Fits(st.rtcp)
  }

  predicate SessionOk(s: Session) {
    && (s.template.Some? ==> StreamOk(s.template.value, |s.limits|))
    && forall i :: 0 <= i < |s.streams| ==> StreamOk(s.streams[i], |s.limits|)
  }

  // ---------------------------------------------------------------- streams

  /** The first stream of the list with this identifier, or the length of the list. */
  function Lookup(streams: seq<Stream>, ssrc: u32): (k: nat)
    ensures k <= |streams| && (k < |streams| ==> streams[k].ssrc == ssrc)
    ensures forall i :: 0 <= i < k ==> streams[i].ssrc != ssrc
  {
    if streams == [] then 0
    else if streams[0].ssrc == ssrc then 0
    else 1 + Lookup(streams[1..], ssrc)
  }

  ghost function Ids(s: Session): (r: seq<u32>)
    ensures |r| == |s.streams| && forall i :: 0 <= i < |r| ==> r[i] == s.streams[i].ssrc
  {
    seq(|s.streams|, i requires 0 <= i < |s.streams| => s.streams[i].ssrc)
  }

  /** The identifiers on the list once a stream for `ssrc` is on it: a new one comes first. */
  ghost function IdsWith(s: Session, ssrc: u32): seq<u32> {
    if Known(s, ssrc) then Ids(s) else [ssrc] + Ids(s)
  }

  predicate Known(s: Session, ssrc: u32) {
    Lookup(s.streams, ssrc) < |s.streams|
  }

  function At(s: Session, ssrc: u32): (st: Stream)
    requires Known(s, ssrc)
    ensures st.ssrc == ssrc && (SessionOk(s) ==> StreamOk(st, |s.limits|))
  {
    s.streams[Lookup(s.streams, ssrc)]
  }

  /** The session with the stream of the same identifier replaced. */
  function Put(s: Session, st: Stream): (r: Session)
    requires Known(s, st.ssrc)
    ensures SessionOk(s) && StreamOk(st, |s.limits|) ==> SessionOk(r)
    ensures Ids(r) == Ids(s)
    ensures Known(r, st.ssrc) && At(r, st.ssrc) == st && r.template == s.template && r.limits == s.limits
  {
    LookupUpdated(s.streams, st);
    s.(streams := s.streams[Lookup(s.streams, st.ssrc) := st])
  }

  lemma LookupUpdated(streams: seq<Stream>, st: Stream)
    requires Lookup(streams, st.ssrc) < |streams|
    ensures forall b :: Lookup(streams[Lookup(streams, st.ssrc) := st], b) == Lookup(streams, b)
  {
    var r := streams[Lookup(streams, st.ssrc) := st];
    forall b
      ensures Lookup(r, b) == Lookup(streams, b)
    {
      SameIdsSameLookup(streams, r, b);
    }
  }

  lemma SameIdsSameLookup(streams: seq<Stream>, r: seq<Stream>, b: u32)
    requires |streams| == |r| && forall i :: 0 <= i < |r| ==> r[i].ssrc == streams[i].ssrc
    ensures Lookup(r, b) == Lookup(streams, b)
  {
  }

  function Clone(template: Stream, ssrc: u32): Stream {
    template.(ssrc := ssrc, rdbx := R.RdbxInit(), rdb := R.RdbInit())
  }

  /** The session once a stream for `ssrc` is on its list. */
  function Adopted(s: Session, ssrc: u32): (r: Session)
    requires s.template.Some? || Known(s, ssrc)
    ensures SessionOk(s) ==> SessionOk(r)
    ensures Known(r, ssrc) && Ids(r) == IdsWith(s, ssrc)
  {
    if Known(s, ssrc) then s else s.(streams := [Clone(s.template.value, ssrc)] + s.streams)
  }

  function Directed(st: Stream, d: Direction): Stream {
    if st.direction == Unknown then st.(direction := d) else st
  }

  function LimitUpdated(left: nat): (r: nat)
    ensures r < LIMIT_MOD
  {
    (left - 1) % LIMIT_MOD
  }

  function FromReplay(status: R.Status): Status {
    match status
    case Ok => Ok
    case ReplayOld => ReplayOld
    case ReplayFail => ReplayFail
  }

  // ---------------------------------------------------------------- SRTP

  function Protect(s: Session, p: seq<u8>): (o: Outcome)
    requires SessionOk(s)
    ensures SessionOk(o.session)
  {
    if |p| < 12 then Outcome(BadParam, s, p)
    else if Known(s, Rtp.Ssrc(p)) then ProtectKnown(s, p)
    else if s.template.None? then Outcome(NoCtx, s, p)
    else
      var r := Adopted(s, Rtp.Ssrc(p));
      ProtectKnown(Put(r, At(r, Rtp.Ssrc(p)).(direction := Sender)), p)
  }

  function ProtectKnown(s: Session, p: seq<u8>): (o: Outcome)
    requires SessionOk(s) && |p| >= 12 && Known(s, Rtp.Ssrc(p))
    ensures SessionOk(o.session) && Ids(o.session) == Ids(s)
  {
    var st := Directed(At(s, Rtp.Ssrc(p)), Sender);
    var left := LimitUpdated(s.limits[st.limit]);
    var r := Put(s, st).(limits := s.limits[st.limit := left]);
    if left == 0 then Outcome(KeyExpired, r, p)
    else
      var e := R.RdbxEstimate(st.rdbx, Rtp.SeqNum(p));
      var check := R.RdbxCheck(st.rdbx, e.delta);
      if check != R.Ok then Outcome(FromReplay(check), r, p)
      else
        var r' := Put(r, st.(rdbx := R.RdbxAdd(st.rdbx, e.delta)));
        if st.rtp.conf && !Rtp.Complete(p) then Outcome(Overrun, r', p)
        else Outcome(Ok, r', Sealed(st.rtp, p, e.index))
  }

  function Unprotect(s: Session, q: seq<u8>): (o: Outcome)
    requires SessionOk(s)
    ensures SessionOk(o.session)
  {
    if |q| < 12 then Outcome(BadParam, s, q)
    else
      var ssrc, seqNo := Rtp.Ssrc(q), Rtp.SeqNum(q);
      if Known(s, ssrc) then
        var st := At(s, ssrc);
        var e := R.RdbxEstimate(st.rdbx, seqNo);
        var check := R.RdbxCheck(st.rdbx, e.delta);
        if check != R.Ok then Outcome(FromReplay(check), s, q) else Checked(s, st, e, q)
      else if s.template.None? then Outcome(NoCtx, s, q)
      else Checked(s, s.template.value, R.Estimate(seqNo, seqNo), q)
  }

  /** The rest of the work on a packet that is no replay; `st` is its stream, or the template in its place. */
  function Checked(s: Session, st: Stream, e: R.Estimate, q: seq<u8>): (o: Outcome)
    requires SessionOk(s) && StreamOk(st, |s.limits|) && |q| >= 12 && -R.BITS < e.delta
    requires Known(s, Rtp.Ssrc(q)) || s.template.Some?
    ensures SessionOk(o.session) && Ids(o.session) in {Ids(s), IdsWith(s, Rtp.Ssrc(q))}
  {
    if !Authentic(st.rtp, q, e.index) then Outcome(AuthFail, s, q)
    else
      var left := LimitUpdated(s.limits[st.limit]);
      var r := s.(limits := s.limits[st.limit := left]);
      if left == 0 then Outcome(KeyExpired, r, q)
      else
        match Opened(st.rtp, q, e.index)
        case None => Outcome(Overrun, r, q)
        case Some(p) => Outcome(Ok, Committed(r, Rtp.Ssrc(q), e.delta), p)
  }

  /** The stream of a packet that was accepted, on the list and no longer without a direction. */
  function Received(s: Session, ssrc: u32): (r: Session)
    requires SessionOk(s) && (Known(s, ssrc) || s.template.Some?)
    ensures SessionOk(r) && Known(r, ssrc) && r.limits == s.limits && Ids(r) == IdsWith(s, ssrc)
  {
    if Known(s, ssrc) then Put(s, Directed(At(s, ssrc), Receiver))
    else Adopted(s.(template := Some(Directed(s.template.value, Receiver))), ssrc)
  }

  function Committed(s: Session, ssrc: u32, delta: int): (r: Session)
    requires SessionOk(s) && (Known(s, ssrc) || s.template.Some?) && -R.BITS < delta
    ensures SessionOk(r) && r.limits == s.limits && Ids(r) == IdsWith(s, ssrc)
  {
    var r := Received(s, ssrc);
    Put(r, At(r, ssrc).(rdbx := R.RdbxAdd(At(r, ssrc).rdbx, delta)))
  }

  // ---------------------------------------------------------------- SRTCP

  function RtcpSsrc(p: seq<u8>): u32
    requires |p| >= RTCP_HEADER
  {
    Number32(p[4..8])
  }

  function ProtectRtcp(s: Session, p: seq<u8>): (o: Outcome)
    requires SessionOk(s)
    ensures SessionOk(o.session)
  {
    if |p| < RTCP_HEADER then Outcome(Overrun, s, p)
    else
      var ssrc := RtcpSsrc(p);
      if !Known(s, ssrc) && s.template.None? then Outcome(NoCtx, s, p)
      else ProtectRtcpKnown(Adopted(s, ssrc), p)
  }

  function ProtectRtcpKnown(s: Session, p: seq<u8>): (o: Outcome)
    requires SessionOk(s) && |p| >= RTCP_HEADER && Known(s, RtcpSsrc(p))
    ensures SessionOk(o.session) && Ids(o.session) == Ids(s)
  {
    var st := Directed(At(s, RtcpSsrc(p)), Sender);
    var n := (st.rdb.start + 1) % ROC_MOD;
    var r := Put(s, st.(rdb := st.rdb.(start := n)));
    if st.rdb.start > 0x7fff_ffff then Outcome(KeyExpired, r, p)
    else Outcome(Ok, r, SealedRtcp(st.rtcp, p, n))
  }

  /** `left` is what the buffer for the computed tag holds before. */
  function UnprotectRtcp(s: Session, q: seq<u8>, left: seq<u8>): (o: Outcome)
    requires SessionOk(s)
    ensures SessionOk(o.session)
  {
    if |q| < RTCP_HEADER then Outcome(Overrun, s, q)
    else
      var ssrc := RtcpSsrc(q);
      if !Known(s, ssrc) && s.template.None? then Outcome(NoCtx, s, q)
      else
        var st := if Known(s, ssrc) then At(s, ssrc) else s.template.value;
        if !HasTrailer(st.rtcp, q) then Outcome(Overrun, s, q)
        else
          var n := RtcpIndex(st.rtcp, q);
          var check := R.RdbCheck(st.rdb, n);
          if check != R.Ok then Outcome(FromReplay(check), s, q)
          else if !AuthenticRtcp(st.rtcp, q, left) then Outcome(AuthFail, s, q)
          else
            match OpenedRtcp(st.rtcp, q)
            case None => Outcome(Overrun, s, q)
            case Some(p) => CommittedRtcp(s, ssrc, n, p)
  }

  function CommittedRtcp(s: Session, ssrc: u32, n: nat, p: seq<u8>): (o: Outcome)
    requires SessionOk(s) && (Known(s, ssrc) || s.template.Some?)
    ensures SessionOk(o.session) && o.status in {Ok, Overrun} && Ids(o.session) == IdsWith(s, ssrc)
  {
    var r := Received(s, ssrc);
    var rdb := At(r, ssrc).rdb;
    if !R.RdbInReach(rdb, n) then Outcome(Overrun, r, p)
    else Outcome(Ok, Put(r, At(r, ssrc).(rdb := R.RdbAdd(rdb, n))), p)
  }

  // ---------------------------------------------------------------- refused packets leave no trace

  datatype Op = ProtectOp(packet: seq<u8>) | UnprotectOp(packet: seq<u8>)
              | ProtectRtcpOp(packet: seq<u8>) | UnprotectRtcpOp(packet: seq<u8>, left: seq<u8>)

  function Step(s: Session, op: Op): (o: Outcome)
    requires SessionOk(s)
    ensures SessionOk(o.session)
  {
    match op
    case ProtectOp(p) => Protect(s, p)
    case UnprotectOp(q) => Unprotect(s, q)
    case ProtectRtcpOp(p) => ProtectRtcp(s, p)
    case UnprotectRtcpOp(q, left) => UnprotectRtcp(s, q, left)
  }

  /** The receiver's refusals: neither accepted, nor counted against the key, nor out of bounds. */
  predicate Refuses(s: Session, op: Op)
    requires SessionOk(s)
  {
    (op.UnprotectOp? || op.UnprotectRtcpOp?) && Step(s, op).status !in {Ok, KeyExpired, Overrun}
  }

  /** A refused packet changes neither the session nor itself. */
  lemma RefusalChangesNothing(s: Session, op: Op)
    requires SessionOk(s) && Refuses(s, op)
    ensures Step(s, op).session == s && Step(s, op).packet == op.packet
  {
    hide Authentic, Opened, Committed, LimitUpdated, AuthenticRtcp, OpenedRtcp, CommittedRtcp, Lookup, SessionOk;
    hide Rtp.Ssrc, Rtp.SeqNum, RtcpSsrc, RtcpIndex, R.RdbxEstimate, R.RdbxCheck, R.RdbCheck;
  }

  function After(s: Session, ops: seq<Op>): (r: Session)
    requires SessionOk(s)
    ensures SessionOk(r)
  {
    if ops == [] then s else Step(After(s, ops[..|ops| - 1]), ops[|ops| - 1]).session
  }

  datatype Result = Result(status: Status, packet: seq<u8>)

  /** The operations of a run without the refused packets, and the results of the same operations. */
  function Kept(s: Session, ops: seq<Op>): seq<Op>
    requires SessionOk(s)
  {
    if ops == [] then []
    else
      var front, op := ops[..|ops| - 1], ops[|ops| - 1];
      if Refuses(After(s, front), op) then Kept(s, front) else Kept(s, front) + [op]
  }

  function KeptResults(s: Session, ops: seq<Op>): seq<Result>
    requires SessionOk(s)
  {
    if ops == [] then []
    else
      var front, op := ops[..|ops| - 1], ops[|ops| - 1];
      var o := Step(After(s, front), op);
      if Refuses(After(s, front), op) then KeptResults(s, front)
      else KeptResults(s, front) + [Result(o.status, o.packet)]
  }

  function Results(s: Session, ops: seq<Op>): seq<Result>
    requires SessionOk(s)
  {
    if ops == [] then []
    else
      var o := Step(After(s, ops[..|ops| - 1]), ops[|ops| - 1]);
      Results(s, ops[..|ops| - 1]) + [Result(o.status, o.packet)]
  }

  /**
   * Deleting the refused packets from any run of all four operations leaves every other result, the stream
   * list, the limits and all replay databases as they are.
   */
  lemma {:induction false} RefusedPacketsLeaveNoTrace(s: Session, ops: seq<Op>)
    requires SessionOk(s)
    ensures After(s, Kept(s, ops)) == After(s, ops)
    ensures Results(s, Kept(s, ops)) == KeptResults(s, ops)
  {
    hide Step, Refuses;
    if ops != [] {
      var front, op := ops[..|ops| - 1], ops[|ops| - 1];
      RefusedPacketsLeaveNoTrace(s, front);
      if Refuses(After(s, front), op) {
        RefusalChangesNothing(After(s, front), op);
      } else {
        assert (Kept(s, front) + [op])[..|Kept(s, front)|] == Kept(s, front);
      }
    }
  }

  // ---------------------------------------------------------------- one stream for each identifier

  ghost predicate DistinctStreams(s: Session) {
    forall i, j :: 0 <= i < j < |s.streams| ==> s.streams[i].ssrc != s.streams[j].ssrc
  }

  /** A step puts at most one stream on the list, in front, with an identifier that was not there. */
  lemma StepGrowsList(s: Session, op: Op) returns (ssrc: u32)
    requires SessionOk(s)
    ensures Ids(Step(s, op).session) == Ids(s) || (!Known(s, ssrc) && Ids(Step(s, op).session) == [ssrc] + Ids(s))
  {
    hide Sealed, SealedRtcp, Authentic, Opened, AuthenticRtcp, OpenedRtcp, Put, Adopted, Lookup, Ids, Received, Committed;
    if op.ProtectOp? || op.UnprotectOp? {
      ssrc := if |op.packet| >= 12 then Rtp.Ssrc(op.packet) else 0;
    } else {
      ssrc := if |op.packet| >= RTCP_HEADER then RtcpSsrc(op.packet) else 0;
    }
  }

  lemma StepKeepsDistinct(s: Session, op: Op)
    requires SessionOk(s) && DistinctStreams(s)
    ensures DistinctStreams(Step(s, op).session)
  {
    hide Step;
    var ssrc := StepGrowsList(s, op);
    var r := Step(s, op).session;
    forall i, j | 0 <= i < j < |r.streams|
      ensures r.streams[i].ssrc != r.streams[j].ssrc
    {
      assert Ids(r)[i] == r.streams[i].ssrc && Ids(r)[j] == r.streams[j].ssrc;
    }
  }

  /** No run of any mix of the four operations puts two streams with one identifier on the list. */
  lemma {:induction false} StreamsStayDistinct(s: Session, ops: seq<Op>)
    requires SessionOk(s) && DistinctStreams(s)
    ensures DistinctStreams(After(s, ops))
  {
    hide Step;
    if ops != [] {
      StreamsStayDistinct(s, ops[..|ops| - 1]);
      StepKeepsDistinct(After(s, ops[..|ops| - 1]), ops[|ops| - 1]);
    }
  }
}
