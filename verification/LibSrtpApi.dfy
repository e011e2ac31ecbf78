/** The libSRTP calls as they work: on the packet's buffer in place, and on the fields of the session. */
module LibSrtpApi {
  import opened Octets
  import opened Buffers
  import opened Wrappers
  import opened SrtpTransform
  import opened LibSrtp
  import R = ReplayDb
  import Rtp = SrtpPacket

  // ---------------------------------------------------------------- the buffer

  /** Exclusive or of the keystream into the octets `h` to `n` of the buffer. */
  method CryptInPlace(buf: array<u8>, t: Transform, iv: seq<u8>, skip: nat, h: nat, n: nat)
    requires h <= n <= buf.Length
    modifies buf
    ensures buf[..n] == Crypt(t, iv, skip, old(buf[..n]), h) && buf[n..] == old(buf[n..])
  {
    var key := KeyFor(t, iv);
    for i := h to n
      invariant forall j :: 0 <= j < buf.Length && (j < h || i <= j) ==> buf[j] == old(buf[j])
      invariant forall j :: h <= j < i ==> buf[j] == XorOctet(old(buf[j]), key(skip + (j - h)))
    {
      buf[i] := XorOctet(buf[i], key(skip + (i - h)));
    }
    ghost var was := old(buf[..n]);
    forall j | 0 <= j < n
      ensures buf[j] == Crypt(t, iv, skip, was, h)[j]
    {
      if j >= h {
        assert was[h..][j - h] == was[j];
      }
    }
  }

  // ---------------------------------------------------------------- the session

  class SrtpCtx {
    var template: Option<Stream>
    var streams: seq<Stream>
    var limits: seq<nat>

    function State(): Session
      reads this
    {
      Session(template, streams, limits)
    }

    /** Walks down the list until the identifier is found. */
    method GetStream(ssrc: u32) returns (k: nat)
      ensures k == Lookup(streams, ssrc)
    {
      k := 0;
      assert streams[0..] == streams;
      while k < |streams|
        invariant k <= |streams| && Lookup(streams, ssrc) == k + Lookup(streams[k..], ssrc)
      {
        if streams[k].ssrc == ssrc {
          return;
        }
        assert streams[k..][1..] == streams[k + 1..];
        k := k + 1;
      }
    }

    method SrtpProtect(buf: array<u8>, len: nat) returns (status: Status, newLen: nat)
      requires SessionOk(State()) && len + TAG_MAX <= buf.Length
      modifies this, buf
      ensures var o := Protect(old(State()), old(buf[..len]));
        && status == o.status && State() == o.session
        && (if status == Ok then newLen == |o.packet| <= buf.Length && buf[..newLen] == o.packet else newLen == len)
    {
      hide ProtectKnown, Put, SessionOk, Lookup, Adopted, Clone, Rtp.Ssrc;
      if len < 12 {
        return BadParam, len;
      }
      var ssrc := Rtp.Ssrc(buf[..len]);
      var k := GetStream(ssrc);
      if k == |streams| {
        if template.None? {
          return NoCtx, len;
        }
        ghost var was := State();
        streams := [Clone(template.value, ssrc).(direction := Sender)] + streams;
        k := 0;
        AdoptedFirst(was, ssrc, State());
      }
      status, newLen := ProtectOn(k, buf, len);
    }

    method ProtectOn(k: nat, buf: array<u8>, len: nat) returns (status: Status, newLen: nat)
      requires SessionOk(State()) && 12 <= len && len + TAG_MAX <= buf.Length
      requires k == Lookup(streams, Rtp.Ssrc(buf[..len])) < |streams|
      modifies this, buf
      ensures var o := ProtectKnown(old(State()), old(buf[..len]));
        && status == o.status && State() == o.session
        && (if status == Ok then newLen == |o.packet| <= buf.Length && buf[..newLen] == o.packet else newLen == len)
    {
      hide Lookup, R.RdbxEstimate, R.RdbxAdd, Rtp.SeqNum, Rtp.Ssrc, Sealed, LimitUpdated;
      var st := streams[k];
      LookupUpdated(streams, Directed(st, Sender));
      if st.direction == Unknown {
        st := st.(direction := Sender);
      }
      streams := streams[k := st];
      limits := limits[st.limit := LimitUpdated(limits[st.limit])];
      if limits[st.limit] == 0 {
        return KeyExpired, len;
      }
      var e := R.RdbxEstimate(st.rdbx, Rtp.SeqNum(buf[..len]));
      var check := R.RdbxCheck(st.rdbx, e.delta);
      if check != R.Ok {
        return FromReplay(check), len;
      }
      streams := streams[k := st.(rdbx := R.RdbxAdd(st.rdbx, e.delta))];
      if st.rtp.conf && !Rtp.Complete(buf[..len]) {
        return Overrun, len;
      }
      newLen := SealInPlace(st.rtp, e.index, buf, len);
      status := Ok;
    }

    method SrtpUnprotect(buf: array<u8>, len: nat) returns (status: Status, newLen: nat)
      requires SessionOk(State()) && len <= buf.Length
      modifies this, buf
      ensures var o := Unprotect(old(State()), old(buf[..len]));
        && status == o.status && State() == o.session
        && (if status == Ok then newLen == |o.packet| <= buf.Length && buf[..newLen] == o.packet else newLen == len)
        && (status in {NoCtx, BadParam, ReplayOld, ReplayFail, AuthFail} ==> buf[..] == old(buf[..]))
    {
      hide Lookup, R.RdbxEstimate, R.RdbxAdd, Rtp.SeqNum, Checked;
      if len < 12 {
        return BadParam, len;
      }
      var ssrc, seqNo := Rtp.Ssrc(buf[..len]), Rtp.SeqNum(buf[..len]);
      var k := GetStream(ssrc);
      if k == |streams| {
        if template.None? {
          return NoCtx, len;
        }
        status, newLen := UnprotectOn(k, template.value, R.Estimate(seqNo, seqNo), buf, len);
      } else {
        var e := R.RdbxEstimate(streams[k].rdbx, seqNo);
        var check := R.RdbxCheck(streams[k].rdbx, e.delta);
        if check != R.Ok {
          return FromReplay(check), len;
        }
        status, newLen := UnprotectOn(k, streams[k], e, buf, len);
      }
    }

    /** From the authentication on; the stream is provisional if `k` is past the list. */
    method UnprotectOn(k: nat, st: Stream, e: R.Estimate, buf: array<u8>, len: nat) returns (status: Status, newLen: nat)
      requires SessionOk(State()) && 12 <= len <= buf.Length && -R.BITS < e.delta && StreamOk(st, |limits|)
      requires k == Lookup(streams, Rtp.Ssrc(buf[..len]))
      requires if k < |streams| then st == streams[k] else template.Some? && st == template.value
      modifies this, buf
      ensures var o := Checked(old(State()), st, e, old(buf[..len]));
        && status == o.status && State() == o.session
        && (if status == Ok then newLen == |o.packet| <= buf.Length && buf[..newLen] == o.packet else newLen == len)
        && (status in {NoCtx, BadParam, ReplayOld, ReplayFail, AuthFail} ==> buf[..] == old(buf[..]))
    {
      hide Lookup, R.RdbxAdd, Rtp.Ssrc, Committed;
      var ssrc := Rtp.Ssrc(buf[..len]);
      var authentic := AuthenticInPlace(st.rtp, e.index, buf, len);
      if !authentic {
        return AuthFail, len;
      }
      limits := limits[st.limit := LimitUpdated(limits[st.limit])];
      if limits[st.limit] == 0 {
        return KeyExpired, len;
      }
      var open: bool;
      open, newLen := OpenInPlace(st.rtp, e.index, buf, len);
      if !open {
        return Overrun, len;
      }
      Commit(k, ssrc, e.delta);
      status := Ok;
    }

    /** Enters the packet in the replay database of its stream, which is cloned first if it was provisional. */
    method Commit(k: nat, ssrc: u32, delta: int)
      requires SessionOk(State()) && k == Lookup(streams, ssrc) && (k < |streams| || template.Some?) && -R.BITS < delta
      modifies this
      ensures State() == Committed(old(State()), ssrc, delta)
    {
      hide R.RdbxAdd, SessionOk;
      var i := k;
      if k < |streams| {
        LookupUpdated(streams, Directed(streams[k], Receiver));
        streams := streams[k := Directed(streams[k], Receiver)];
      } else {
        template := Some(Directed(template.value, Receiver));
        streams := [Clone(template.value, ssrc)] + streams;
        i := 0;
      }
      streams := streams[i := streams[i].(rdbx := R.RdbxAdd(streams[i].rdbx, delta))];
    }
  }

  lemma AdoptedFirst(s: Session, ssrc: u32, r: Session)
    requires !Known(s, ssrc) && s.template.Some? && SessionOk(s)
    requires r == s.(streams := [Clone(s.template.value, ssrc).(direction := Sender)] + s.streams)
    ensures SessionOk(r) && Lookup(r.streams, ssrc) == 0
    ensures r == Put(Adopted(s, ssrc), At(Adopted(s, ssrc), ssrc).(direction := Sender))
  {
    assert Adopted(s, ssrc).streams[0].ssrc == ssrc;
  }

  // ---------------------------------------------------------------- one packet

  method SealInPlace(t: Transform, index: nat, buf: array<u8>, len: nat) returns (newLen: nat)
    requires Fits(t) && 12 <= len && len + TAG_MAX <= buf.Length && (t.conf ==> Rtp.Complete(buf[..len]))
    modifies buf
    ensures newLen <= buf.Length && buf[..newLen] == Sealed(t, old(buf[..len]), index)
  {
    hide Rtp.HeaderSize, Crypt, Tag, Iv;
    ghost var p := buf[..len];
    if t.conf {
      CryptInPlace(buf, t, RtpIv(t, buf[..len], index), Skip(t), Rtp.HeaderSize(buf[..len]), len);
    }
    newLen := len;
    if t.auth {
      var tag := RtpTag(t, buf[..len], index);
      CopyInto(buf, len, tag);
      newLen := len + t.tagLength;
    }
  }

  method AuthenticInPlace(t: Transform, index: nat, buf: array<u8>, len: nat) returns (ok: bool)
    requires Fits(t) && 12 <= len <= buf.Length
    ensures ok <==> Authentic(t, buf[..len], index)
  {
    hide Tag, Prefix, RtpIv;
    ok := true;
    if t.auth {
      var n := len - t.tagLength;
      var tag := Tag(t, buf[..n] + Octets32(index / SEQ_MOD), Prefix(t, RtpIv(t, buf[..len], index)));
      ok := SameOctets(buf, n, tag);
      assert buf[..len][n..] == buf[n..len] && buf[..len][..n] == buf[..n];
    }
  }

  method OpenInPlace(t: Transform, index: nat, buf: array<u8>, len: nat) returns (ok: bool, newLen: nat)
    requires Fits(t) && 12 <= len <= buf.Length
    modifies buf
    ensures ok <==> Opened(t, old(buf[..len]), index).Some?
    ensures ok ==> newLen <= buf.Length && Some(buf[..newLen]) == Opened(t, old(buf[..len]), index)
    ensures !ok ==> buf[..] == old(buf[..])
  {
    hide Rtp.HeaderSize, Crypt, Iv;
    newLen := len - t.tagLength;
    assert buf[..len][..newLen] == buf[..newLen];
    if t.conf {
      if !Rtp.Readable(buf[..len]) || Rtp.HeaderSize(buf[..len]) > newLen {
        return false, len;
      }
      CryptInPlace(buf, t, RtpIv(t, buf[..len], index), Skip(t), Rtp.HeaderSize(buf[..len]), newLen);
    }
    ok := true;
  }
}
