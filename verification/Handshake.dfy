/**
 * The in-band HELLO / HELLOACK handshake of SRPP: the flags of one endpoint, and two endpoints joined by
 * a network that may lose, repeat and reorder every message.
 */
module Handshake {
  import opened SignalingText

  const HELLO_ROUND := 5

  /** The text is the payload as it was sent. */
  datatype Message = Hello(text: string) | HelloAck(text: string)

  datatype Endpoint = Endpoint(
    helloSent: bool, helloRecvd: bool, helloAckSent: bool, helloAckRecvd: bool,
    complete: bool, key: int, maxSize: int)

  function Idle(size: int): Endpoint {
    Endpoint(false, false, false, false, false, 0, size)
  }

  /** The state of an endpoint after a call, and the messages it has sent meanwhile. */
  datatype Outcome = Outcome(state: Endpoint, sent: seq<Message>)

  // ---------------------------------------------------------------- what one endpoint does

  predicate MaySendHello(e: Endpoint) {
    !e.helloSent && !e.helloRecvd && !e.helloAckSent && !e.helloAckRecvd
  }

  function SendHello(e: Endpoint, key: nat): Outcome
    requires e.maxSize >= 0
  {
    if !MaySendHello(e) then Outcome(e, [])
    else Outcome(e.(key := key, helloSent := true), seq(HELLO_ROUND, _ => Hello(HelloText(key, e.maxSize))))
  }

  function SendHelloAck(e: Endpoint): Outcome
    requires e.maxSize >= 0
  {
    if (!e.helloRecvd && !e.helloSent) || e.helloAckSent then Outcome(e, [])
    else if !e.helloAckRecvd || e.helloSent then Outcome(e.(helloAckSent := true), [HelloAck(AckText(e.maxSize))])
    else Outcome(e, [])
  }

  function Smaller(size: int, received: int): int {
    if size > received then received else size
  }

  function ReceiveHello(e: Endpoint, text: string): Outcome
    requires e.maxSize >= 0 && SecondField(text) >= 0
  {
    SendHelloAck(e.(key := FirstField(text), maxSize := Smaller(e.maxSize, SecondField(text)), helloRecvd := true))
  }

  function ReceiveHelloAck(e: Endpoint, text: string): Outcome
    requires e.maxSize >= 0 && FirstField(text) >= 0
  {
    var e1 := e.(maxSize := Smaller(e.maxSize, FirstField(text)), helloAckRecvd := true, complete := true);
    var answer := if e.helloAckSent then Outcome(e1, []) else SendHelloAck(e1);
    Outcome(answer.state.(helloSent := false, helloAckRecvd := false), answer.sent)
  }

  /** The flags, the session's key and size, and what has been handed to the socket. */
  class SignalingFunctions {
    var helloSent: bool
    var helloRecvd: bool
    var helloAckSent: bool
    var helloAckRecvd: bool
    var complete: bool
    var key: int
    var maxSize: int
    var outbox: seq<Message>

    function State(): Endpoint
      reads this
    {
      Endpoint(helloSent, helloRecvd, helloAckSent, helloAckRecvd, complete, key, maxSize)
    }

    constructor (size: int)
      ensures State() == Idle(size) && outbox == []
    {
      helloSent, helloRecvd, helloAckSent, helloAckRecvd, complete := false, false, false, false, false;
      key, maxSize, outbox := 0, size, [];
    }

    method SendHelloMessage(newKey: nat)
      requires maxSize >= 0
      modifies this
      ensures var o := SendHello(old(State()), newKey); State() == o.state && outbox == old(outbox) + o.sent
    {
      if helloSent || helloRecvd || helloAckSent || helloAckRecvd {
        return;
      }
      key := newKey;
      var options := HelloText(newKey, maxSize);
      for i := 0 to HELLO_ROUND
        invariant helloSent == (i > 0) && !helloAckRecvd
        invariant State() == old(State()).(key := newKey, helloSent := i > 0)
        invariant outbox == old(outbox) + seq(i, _ => Hello(options))
      {
        if !helloAckRecvd {
          helloSent := true;
          outbox := outbox + [Hello(options)];
        }
      }
    }

    method SendHelloAckMessage()
      requires maxSize >= 0
      modifies this
      ensures var o := SendHelloAck(old(State())); State() == o.state && outbox == old(outbox) + o.sent
    {
      if (!helloRecvd && !helloSent) || helloAckSent {
        return;
      }
      if !helloAckRecvd || helloSent {
        outbox := outbox + [HelloAck(AckText(maxSize))];
      } else {
        return;
      }
      helloAckSent := true;
    }

    method ReceivedHelloMessage(text: string)
      requires maxSize >= 0 && SecondField(text) >= 0
      modifies this
      ensures var o := ReceiveHello(old(State()), text); State() == o.state && outbox == old(outbox) + o.sent
    {
      key := FirstField(text);
      var size := SecondField(text);
      if maxSize > size {
        maxSize := size;
      }
      helloRecvd := true;
      SendHelloAckMessage();
    }

    method ReceivedHelloAckMessage(text: string)
      requires maxSize >= 0 && FirstField(text) >= 0
      modifies this
      ensures var o := ReceiveHelloAck(old(State()), text); State() == o.state && outbox == old(outbox) + o.sent
    {
      var size := FirstField(text);
      if maxSize > size {
        maxSize := size;
      }
      helloAckRecvd := true;
      if !helloAckSent {
        complete := true;
        SendHelloAckMessage();
        helloSent := false;
        helloAckRecvd := false;
      } else {
        complete := true;
        helloSent := false;
        helloAckRecvd := false;
      }
    }
  }

  // ---------------------------------------------------------------- two endpoints and a network

  /**
   * `toA` and `toB` hold every message ever sent to an endpoint: any of them may arrive at any time, more
   * than once or never. The counters count the messages each endpoint has sent.
   */
  datatype System = System(
    a: Endpoint, b: Endpoint, toA: set<Message>, toB: set<Message>,
    hellosA: nat, acksA: nat, hellosB: nat, acksB: nat)

  /** A call of the sender at either end, or the arrival of a message with octets behind its text. */
  datatype Step = StartA(key: nat) | StartB(key: nat) | ArriveA(m: Message, tail: string) | ArriveB(m: Message, tail: string)

  function Start(sizeA: nat, sizeB: nat): System {
    System(Idle(sizeA), Idle(sizeB), {}, {}, 0, 0, 0, 0)
  }

  function Hellos(ms: seq<Message>): nat {
    if ms == [] then 0 else (if ms[0].Hello? then 1 else 0) + Hellos(ms[1..])
  }

  function SetOf(ms: seq<Message>): set<Message> {
    set i | 0 <= i < |ms| :: ms[i]
  }

  /** Handling of an arrived message; a size below zero is not a number either side prints. */
  predicate Readable(m: Message, tail: string) {
    match m
    case Hello(text) => SecondField(text + tail) >= 0
    case HelloAck(text) => FirstField(text + tail) >= 0
  }

  function Handle(e: Endpoint, m: Message, tail: string): Outcome
    requires e.maxSize >= 0 && Readable(m, tail)
  {
    match m
    case Hello(text) => ReceiveHello(e, text + tail)
    case HelloAck(text) => ReceiveHelloAck(e, text + tail)
  }

  predicate Enabled(s: System, step: Step) {
    && s.a.maxSize >= 0 && s.b.maxSize >= 0
    && match step
       case StartA(_) => true
       case StartB(_) => true
       case ArriveA(m, tail) => m in s.toA && Readable(m, tail)
       case ArriveB(m, tail) => m in s.toB && Readable(m, tail)
  }

  function Next(s: System, step: Step): System
    requires Enabled(s, step)
  {
    match step
    case StartA(key) => FromA(s, SendHello(s.a, key))
    case StartB(key) => FromB(s, SendHello(s.b, key))
    case ArriveA(m, tail) => FromA(s, Handle(s.a, m, tail))
    case ArriveB(m, tail) => FromB(s, Handle(s.b, m, tail))
  }

  function FromA(s: System, o: Outcome): System {
    var h := Hellos(o.sent);
    s.(a := o.state, toB := s.toB + SetOf(o.sent), hellosA := s.hellosA + h,
       acksA := s.acksA + (if |o.sent| >= h then |o.sent| - h else 0))
  }

  function FromB(s: System, o: Outcome): System {
    var h := Hellos(o.sent);
    s.(b := o.state, toA := s.toA + SetOf(o.sent), hellosB := s.hellosB + h,
       acksB := s.acksB + (if |o.sent| >= h then |o.sent| - h else 0))
  }

  /** A run from the start state; only A's sender ever passes its guard. */
  ghost predicate Run(sizeA: nat, sizeB: nat, steps: seq<Step>, ss: seq<System>) {
    && |ss| == |steps| + 1
    && ss[0] == Start(sizeA, sizeB)
    && forall k :: 0 <= k < |steps| ==> RunStep(ss[k], steps[k], ss[k + 1])
  }

  ghost predicate RunStep(s: System, step: Step, s': System) {
    && Enabled(s, step)
    && (step.StartA? ==> step.key < 65536)
    && (step.StartB? ==> !MaySendHello(s.b))
    && s' == Next(s, step)
  }

  // ---------------------------------------------------------------- which sizes are settled on

  function Agreed(sizeA: nat, sizeB: nat): nat {
    if sizeA > sizeB then sizeB else sizeA
  }

  /** The size of the end that answers, once it has read the HELLO of the end that opens. */
  function Heard(key: nat, sizeA: nat, sizeB: nat): nat
    requires |Decimal(key)| <= 12
  {
    Smaller(sizeB, HelloSize(key, sizeA))
  }

  /** The size that a HELLOACK brings back of it. */
  function Settled(key: nat, sizeA: nat, sizeB: nat): nat
    requires |Decimal(key)| <= 12
  {
    Spelled(Heard(key, sizeA, sizeB), 5)
  }

  /** The size settled on is the smaller of the two exactly when that has at most five digits. */
  lemma SizesSettled(key: nat, sizeA: nat, sizeB: nat)
    requires key < 65536
    ensures |Decimal(key)| <= 5
    ensures Settled(key, sizeA, sizeB) <= Heard(key, sizeA, sizeB) <= HelloSize(key, sizeA) <= sizeA
    ensures Heard(key, sizeA, sizeB) <= sizeB
    ensures Spelled(Settled(key, sizeA, sizeB), 5) == Settled(key, sizeA, sizeB)
    ensures Settled(key, sizeA, sizeB) == Agreed(sizeA, sizeB) <==> Agreed(sizeA, sizeB) < 100000
    ensures Settled(key, sizeA, sizeB) == Heard(key, sizeA, sizeB) <==> Agreed(sizeA, sizeB) < 100000
    ensures sizeA < 100000000 ==> Heard(key, sizeA, sizeB) == Agreed(sizeA, sizeB)
  {
    hide Decimal, Spelled;
    Powers();
    DecimalLength(key, 5);
    var w := 13 - |Decimal(key)|;
    SpelledRange(sizeA, w);
    Pow10Rises(8, w);
    Pow10Rises(7, w - 1);
    SpelledRange(Heard(key, sizeA, sizeB), 5);
    SpelledRange(Settled(key, sizeA, sizeB), 5);
  }

  // ---------------------------------------------------------------- what every run keeps

  ghost predicate Untouched(s: System, sizeA: nat, sizeB: nat) {
    s == Start(sizeA, sizeB)
  }

  /**
   * A has sent its round of HELLOs. Nothing is in flight but that HELLO and one HELLOACK each way; B holds
   * `heard` once it has read the HELLO, and either end `settled` once it has read a HELLOACK.
   */
  ghost predicate RunningWith(s: System, sizeA: nat, sizeB: nat, heard: nat, settled: nat)
    requires s.a.key >= 0
  {
    && !s.a.helloRecvd && !s.a.helloAckRecvd
    && (s.a.complete <==> s.a.helloAckSent) && (s.a.helloSent <==> !s.a.complete)
    && s.a.maxSize == (if s.a.complete then settled else sizeA)
    && s.toB == {Hello(HelloText(s.a.key, sizeA))} + (if s.a.complete then {HelloAck(AckText(settled))} else {})
    && s.hellosA == HELLO_ROUND && s.acksA == (if s.a.complete then 1 else 0)
    && !s.b.helloSent && !s.b.helloAckRecvd
    && (s.b.helloAckSent <==> s.b.helloRecvd)
    && s.b.maxSize == (if !s.b.helloRecvd then sizeB else if s.b.complete then settled else heard)
    && (s.b.helloRecvd ==> s.b.key == s.a.key)
    && s.toA == (if s.b.helloRecvd then {HelloAck(AckText(heard))} else {})
    && s.hellosB == 0 && s.acksB == (if s.b.helloRecvd then 1 else 0)
    && (s.a.complete ==> s.b.helloRecvd)
    && (s.b.complete ==> s.a.complete)
  }

  ghost predicate Running(s: System, sizeA: nat, sizeB: nat) {
    && 0 <= s.a.key < 65536 && |Decimal(s.a.key)| <= 5
    && RunningWith(s, sizeA, sizeB, Heard(s.a.key, sizeA, sizeB), Settled(s.a.key, sizeA, sizeB))
  }

  ghost predicate Invariant(s: System, sizeA: nat, sizeB: nat) {
    Untouched(s, sizeA, sizeB) || Running(s, sizeA, sizeB)
  }

  lemma SentNothing(s: System)
    ensures FromA(s, Outcome(s.a, [])) == s && FromB(s, Outcome(s.b, [])) == s
  {
    NothingSent();
  }

  lemma NothingSent()
    ensures SetOf([]) == {} && Hellos([]) == 0
  {
    assert forall x :: x !in SetOf([]);
  }

  lemma SentOne(m: Message)
    ensures SetOf([m]) == {m} && Hellos([m]) == (if m.Hello? then 1 else 0)
  {
    assert [m][0] == m && [m][1..] == [];
    assert m in SetOf([m]);
    assert forall x :: x in SetOf([m]) ==> x == m;
  }

  /** Copies of one message. */
  lemma {:induction false} SentMany(m: Message, n: nat)
    requires m.Hello?
    ensures Hellos(seq(n, _ => m)) == n && (n > 0 ==> SetOf(seq(n, _ => m)) == {m})
  {
    var ms := seq(n, _ => m);
    if n > 0 {
      assert ms[1..] == seq(n - 1, _ => m) && ms[0] == m;
      SentMany(m, n - 1);
      assert m in SetOf(ms);
      assert forall x :: x in SetOf(ms) ==> x == m;
    }
  }

  lemma StartStep(s: System, key: nat, sizeA: nat, sizeB: nat)
    requires Untouched(s, sizeA, sizeB) && key < 65536
    ensures Running(FromA(s, SendHello(s.a, key)), sizeA, sizeB)
  {
    hide Decimal, HelloText, AckText, Heard, Settled;
    SizesSettled(key, sizeA, sizeB);
    SentMany(Hello(HelloText(key, sizeA)), HELLO_ROUND);
  }

  lemma HelloAtB(s: System, m: Message, tail: string, sizeA: nat, sizeB: nat)
    requires Running(s, sizeA, sizeB) && m in s.toB && m.Hello?
    ensures Readable(m, tail) && Running(FromB(s, Handle(s.b, m, tail)), sizeA, sizeB)
  {
    hide FirstField, SecondField, HelloText, AckText, Decimal, Spelled, HelloSize;
    SizesSettled(s.a.key, sizeA, sizeB);
    HelloReads(s.a.key, sizeA, tail);
    SentOne(HelloAck(AckText(Heard(s.a.key, sizeA, sizeB))));
    NothingSent();
  }

  lemma AckAtB(s: System, m: Message, tail: string, sizeA: nat, sizeB: nat)
    requires Running(s, sizeA, sizeB) && m in s.toB && m.HelloAck?
    ensures Readable(m, tail) && Running(FromB(s, Handle(s.b, m, tail)), sizeA, sizeB)
  {
    hide FirstField, SecondField, HelloText, AckText, Decimal, Spelled, Heard, Settled;
    SizesSettled(s.a.key, sizeA, sizeB);
    AckReads(Settled(s.a.key, sizeA, sizeB), tail);
    NothingSent();
  }

  lemma AckAtA(s: System, m: Message, tail: string, sizeA: nat, sizeB: nat)
    requires Running(s, sizeA, sizeB) && m in s.toA
    ensures Readable(m, tail) && Running(FromA(s, Handle(s.a, m, tail)), sizeA, sizeB)
  {
    hide FirstField, SecondField, HelloText, AckText, Decimal, Spelled, Heard;
    SizesSettled(s.a.key, sizeA, sizeB);
    AckReads(Heard(s.a.key, sizeA, sizeB), tail);
    SentOne(HelloAck(AckText(Settled(s.a.key, sizeA, sizeB))));
    NothingSent();
  }

  lemma InvariantStep(s: System, step: Step, s': System, sizeA: nat, sizeB: nat)
    requires Invariant(s, sizeA, sizeB) && RunStep(s, step, s')
    ensures Invariant(s', sizeA, sizeB)
  {
    hide FromA, FromB, Handle;
    SentNothing(s);
    match step
    case StartA(key) =>
      if Untouched(s, sizeA, sizeB) {
        StartStep(s, key, sizeA, sizeB);
      }
    case StartB(_) =>
    case ArriveA(m, tail) =>
      AckAtA(s, m, tail, sizeA, sizeB);
    case ArriveB(m, tail) =>
      if m.Hello? {
        HelloAtB(s, m, tail, sizeA, sizeB);
      } else {
        AckAtB(s, m, tail, sizeA, sizeB);
      }
  }

  lemma {:induction false} InvariantHolds(sizeA: nat, sizeB: nat, steps: seq<Step>, ss: seq<System>, k: nat)
    requires Run(sizeA, sizeB, steps, ss) && k <= |steps|
    ensures Invariant(ss[k], sizeA, sizeB)
  {
    hide Invariant;
    if k > 0 {
      InvariantHolds(sizeA, sizeB, steps, ss, k - 1);
      assert RunStep(ss[k - 1], steps[k - 1], ss[k]);
      InvariantStep(ss[k - 1], steps[k - 1], ss[k], sizeA, sizeB);
    } else {
      StartInvariant(sizeA, sizeB);
    }
  }

  lemma StartInvariant(sizeA: nat, sizeB: nat)
    ensures Invariant(Start(sizeA, sizeB), sizeA, sizeB)
  {
  }

  /**
   * In every run in which only A opens, for all sizes: B completes only after A has, and once A has completed
   * both hold the same key. A then holds the smaller of the two sizes exactly when that has at most five digits,
   * and the number its first five digits spell otherwise; B holds the same size as A, except that a longer one
   * waits for A's HELLOACK. Neither end sends more than one round of HELLOs and one HELLOACK.
   */
  lemma HandshakeAgrees(sizeA: nat, sizeB: nat, steps: seq<Step>, ss: seq<System>, k: nat)
    requires Run(sizeA, sizeB, steps, ss) && k <= |steps|
    ensures ss[k].b.complete ==> ss[k].a.complete
    ensures ss[k].a.complete ==> ss[k].a.key == ss[k].b.key
    ensures ss[k].a.complete ==> (ss[k].a.maxSize == Agreed(sizeA, sizeB) <==> Agreed(sizeA, sizeB) < 100000)
    ensures ss[k].a.complete && sizeA < 100000000 ==> ss[k].a.maxSize == Spelled(Agreed(sizeA, sizeB), 5)
    ensures ss[k].a.complete ==>
      (ss[k].a.maxSize == ss[k].b.maxSize <==> ss[k].b.complete || Agreed(sizeA, sizeB) < 100000)
    ensures ss[k].hellosA <= HELLO_ROUND && ss[k].acksA <= 1 && ss[k].hellosB == 0 && ss[k].acksB <= 1
  {
    hide HelloText, AckText, Decimal, Spelled, Heard;
    InvariantHolds(sizeA, sizeB, steps, ss, k);
    if ss[k].a.complete {
      SizesSettled(ss[k].a.key, sizeA, sizeB);
    }
  }

  /** No message in flight is ever stuck: whatever has been sent can be handled, with any octets behind it. */
  lemma EveryMessageCanArrive(sizeA: nat, sizeB: nat, steps: seq<Step>, ss: seq<System>, k: nat, m: Message, tail: string)
    requires Run(sizeA, sizeB, steps, ss) && k <= |steps|
    requires m in ss[k].toA || m in ss[k].toB
    ensures Readable(m, tail)
  {
    hide FromA, FromB, Handle, Readable, HelloText, AckText, Decimal, Heard, Settled;
    InvariantHolds(sizeA, sizeB, steps, ss, k);
    if m in ss[k].toA {
      AckAtA(ss[k], m, tail, sizeA, sizeB);
    } else if m.Hello? {
      HelloAtB(ss[k], m, tail, sizeA, sizeB);
    } else {
      AckAtB(ss[k], m, tail, sizeA, sizeB);
    }
  }

  /**
   * Loss never ends a handshake for good: from every reachable state in which the HELLO has been sent,
   * the three arrivals HELLO, HELLOACK, HELLOACK complete both ends.
   */
  lemma CanAlwaysComplete(s: System, tail: string, sizeA: nat, sizeB: nat) returns (s1: System, s2: System, t: System)
    requires Running(s, sizeA, sizeB)
    ensures RunStep(s, ArriveB(Hello(HelloText(s.a.key, sizeA)), tail), s1)
    ensures RunStep(s1, ArriveA(HelloAck(AckText(Heard(s.a.key, sizeA, sizeB))), tail), s2)
    ensures RunStep(s2, ArriveB(HelloAck(AckText(Settled(s.a.key, sizeA, sizeB))), tail), t)
    ensures t.a.complete && t.b.complete && t.a.key == t.b.key == s.a.key
  {
    hide HelloText, AckText, Decimal, Heard, Settled, FirstField, SecondField;
    var hello := Hello(HelloText(s.a.key, sizeA));
    HelloAtB(s, hello, tail, sizeA, sizeB);
    s1 := FromB(s, Handle(s.b, hello, tail));
    var answer := HelloAck(AckText(Heard(s.a.key, sizeA, sizeB)));
    AckAtA(s1, answer, tail, sizeA, sizeB);
    s2 := FromA(s1, Handle(s1.a, answer, tail));
    var ack := HelloAck(AckText(Settled(s.a.key, sizeA, sizeB)));
    AckAtB(s2, ack, tail, sizeA, sizeB);
    t := FromB(s2, Handle(s2.b, ack, tail));
  }

  // ---------------------------------------------------------------- both ends opening at once

  /** A run in which either end may open at any time. */
  ghost predicate FreeRun(sizeA: nat, sizeB: nat, steps: seq<Step>, ss: seq<System>) {
    && |ss| == |steps| + 1
    && ss[0] == Start(sizeA, sizeB)
    && forall k :: 0 <= k < |steps| ==> FreeStep(ss[k], steps[k], ss[k + 1])
  }

  ghost predicate FreeStep(s: System, step: Step, s': System) {
    && Enabled(s, step)
    && (step.StartA? || step.StartB? ==> step.key < 65536)
    && s' == Next(s, step)
  }

  /** An end that has opened with `own` and whose peer has opened with `peer`: it takes over the peer's key. */
  ghost predicate Opened(e: Endpoint, own: nat, peer: nat) {
    && (e.helloSent || e.helloAckSent) && !e.helloAckRecvd
    && e.key == (if e.helloRecvd then peer else own)
  }

  /** Every HELLO of a set is this one, and there are HELLOACKs in it only if some end has read a HELLO. */
  ghost predicate OnlyHello(ms: set<Message>, hello: Message, read: bool) {
    forall m :: m in ms ==> if m.Hello? then m == hello else read
  }

  /** Both ends have opened. */
  ghost predicate Crossed(s: System, keyA: nat, keyB: nat, sizeA: nat, sizeB: nat) {
    var read := s.a.helloRecvd || s.b.helloRecvd;
    && keyA < 65536 && keyB < 65536
    && Opened(s.a, keyA, keyB) && Opened(s.b, keyB, keyA)
    && OnlyHello(s.toA, Hello(HelloText(keyB, sizeB)), read) && OnlyHello(s.toB, Hello(HelloText(keyA, sizeA)), read)
    && (s.a.complete || s.b.complete ==> read)
  }

  lemma HelloKey(key: nat, size: nat, tail: string)
    requires key < 65536
    ensures FirstField(HelloText(key, size) + tail) == key
  {
    hide Decimal, FirstField, SecondField, HelloText;
    Powers();
    DecimalLength(key, 5);
    HelloReads(key, size, tail);
  }

  /** What one end makes of a message when both have opened. */
  lemma OpenedHandles(e: Endpoint, m: Message, tail: string, own: nat, peer: nat, size: nat)
    requires Opened(e, own, peer) && peer < 65536 && e.maxSize >= 0 && Readable(m, tail)
    requires m.Hello? ==> m == Hello(HelloText(peer, size))
    ensures var o := Handle(e, m, tail);
      && Opened(o.state, own, peer) && (forall x :: x in o.sent ==> x.HelloAck?)
      && o.state.helloRecvd == (e.helloRecvd || m.Hello?)
      && (o.state.complete ==> e.complete || m.HelloAck?)
  {
    hide FirstField, SecondField, HelloText, AckText;
    HelloKey(peer, size, tail);
  }

  lemma SetOfMembers(ms: seq<Message>, x: Message)
    ensures x in SetOf(ms) <==> x in ms
  {
  }

  lemma CrossedArrivesA(s: System, m: Message, tail: string, keyA: nat, keyB: nat, sizeA: nat, sizeB: nat)
    requires Crossed(s, keyA, keyB, sizeA, sizeB) && Enabled(s, ArriveA(m, tail))
    ensures Crossed(FromA(s, Handle(s.a, m, tail)), keyA, keyB, sizeA, sizeB)
  {
    hide Handle, SetOf, Opened, HelloText;
    OpenedHandles(s.a, m, tail, keyA, keyB, sizeB);
    var o := Handle(s.a, m, tail);
    forall x | x in SetOf(o.sent)
      ensures x.HelloAck?
    {
      SetOfMembers(o.sent, x);
    }
  }

  lemma CrossedArrivesB(s: System, m: Message, tail: string, keyA: nat, keyB: nat, sizeA: nat, sizeB: nat)
    requires Crossed(s, keyA, keyB, sizeA, sizeB) && Enabled(s, ArriveB(m, tail))
    ensures Crossed(FromB(s, Handle(s.b, m, tail)), keyA, keyB, sizeA, sizeB)
  {
    hide Handle, SetOf, Opened, HelloText;
    OpenedHandles(s.b, m, tail, keyB, keyA, sizeA);
    var o := Handle(s.b, m, tail);
    forall x | x in SetOf(o.sent)
      ensures x.HelloAck?
    {
      SetOfMembers(o.sent, x);
    }
  }

  /** Who has opened in a run, and with which keys. */
  datatype Opening = Nobody | OnlyA | OnlyB | Both(keyA: nat, keyB: nat)

  function Mirror(s: System): System {
    System(s.b, s.a, s.toB, s.toA, s.hellosB, s.acksB, s.hellosA, s.acksA)
  }

  ghost predicate Phase(s: System, o: Opening, sizeA: nat, sizeB: nat) {
    match o
    case Nobody => Untouched(s, sizeA, sizeB)
    case OnlyA => Running(s, sizeA, sizeB)
    case OnlyB => Running(Mirror(s), sizeB, sizeA)
    case Both(keyA, keyB) => Crossed(s, keyA, keyB, sizeA, sizeB)
  }

  /** An end that has heard nothing opens after the other. */
  lemma SecondOpens(s: System, key: nat, sizeA: nat, sizeB: nat)
    requires Running(s, sizeA, sizeB) && key < 65536 && s.b.maxSize >= 0
    ensures MaySendHello(s.b) ==> Crossed(FromB(s, SendHello(s.b, key)), s.a.key, key, sizeA, sizeB)
    ensures !MaySendHello(s.b) ==> FromB(s, SendHello(s.b, key)) == s
  {
    hide HelloText, AckText, Decimal, Heard, Settled;
    if MaySendHello(s.b) {
      SentMany(Hello(HelloText(key, sizeB)), HELLO_ROUND);
    } else {
      SentNothing(s);
    }
  }

  lemma OpenerStaysOpen(s: System, key: nat, sizeA: nat, sizeB: nat)
    requires Running(s, sizeA, sizeB) && s.a.maxSize >= 0
    ensures FromA(s, SendHello(s.a, key)) == s
  {
    hide HelloText, AckText, Decimal, Heard, Settled;
    SentNothing(s);
  }

  lemma CrossedStaysCrossed(s: System, step: Step, keyA: nat, keyB: nat, sizeA: nat, sizeB: nat)
    requires Crossed(s, keyA, keyB, sizeA, sizeB) && Enabled(s, step)
    ensures Crossed(Next(s, step), keyA, keyB, sizeA, sizeB)
  {
    hide FromA, FromB, Handle;
    match step
    case StartA(_) =>
      SentNothing(s);
    case StartB(_) =>
      SentNothing(s);
    case ArriveA(m, tail) =>
      CrossedArrivesA(s, m, tail, keyA, keyB, sizeA, sizeB);
    case ArriveB(m, tail) =>
      CrossedArrivesB(s, m, tail, keyA, keyB, sizeA, sizeB);
  }

  lemma MirrorCrossed(s: System, keyA: nat, keyB: nat, sizeA: nat, sizeB: nat)
    requires Crossed(Mirror(s), keyA, keyB, sizeA, sizeB)
    ensures Crossed(s, keyB, keyA, sizeB, sizeA)
  {
    hide HelloText;
  }

  lemma MirrorSends(s: System, o: Outcome)
    ensures Mirror(FromA(s, o)) == FromB(Mirror(s), o) && Mirror(FromB(s, o)) == FromA(Mirror(s), o)
  {
  }

  /** One step while one end alone has opened. */
  lemma OneOpenStep(s: System, step: Step, sizeA: nat, sizeB: nat) returns (o: Opening)
    requires Running(s, sizeA, sizeB) && Enabled(s, step) && (step.StartB? ==> step.key < 65536)
    ensures o == OnlyA || o == Both(s.a.key, if step.StartB? then step.key else 0)
    ensures Phase(Next(s, step), o, sizeA, sizeB)
  {
    hide FromA, FromB, Handle, SendHello, RunningWith, Crossed;
    o := OnlyA;
    match step
    case StartA(key) =>
      OpenerStaysOpen(s, key, sizeA, sizeB);
    case StartB(key) =>
      SecondOpens(s, key, sizeA, sizeB);
      if MaySendHello(s.b) {
        o := Both(s.a.key, key);
      }
    case ArriveA(m, tail) =>
      ArrivesInRunning(s, m, tail, sizeA, sizeB);
    case ArriveB(m, tail) =>
      ArrivesInRunning(s, m, tail, sizeA, sizeB);
  }

  lemma ArrivesInRunning(s: System, m: Message, tail: string, sizeA: nat, sizeB: nat)
    requires Running(s, sizeA, sizeB)
    ensures m in s.toA ==> Readable(m, tail) && Running(FromA(s, Handle(s.a, m, tail)), sizeA, sizeB)
    ensures m in s.toB ==> Readable(m, tail) && Running(FromB(s, Handle(s.b, m, tail)), sizeA, sizeB)
  {
    hide FromA, FromB, Handle, Running, Readable;
    if m in s.toA {
      AckAtA(s, m, tail, sizeA, sizeB);
    }
    if m in s.toB && m.Hello? {
      HelloAtB(s, m, tail, sizeA, sizeB);
    } else if m in s.toB {
      AckAtB(s, m, tail, sizeA, sizeB);
    }
  }

  function MirrorStep(step: Step): Step {
    match step
    case StartA(key) => StartB(key)
    case StartB(key) => StartA(key)
    case ArriveA(m, tail) => ArriveB(m, tail)
    case ArriveB(m, tail) => ArriveA(m, tail)
  }

  /** The two ends run the same code. */
  lemma MirrorNext(s: System, step: Step)
    requires Enabled(s, step)
    ensures Enabled(Mirror(s), MirrorStep(step)) && Next(Mirror(s), MirrorStep(step)) == Mirror(Next(s, step))
  {
    hide FromA, FromB, Handle, SendHello, Readable;
    match step
    case StartA(key) =>
      MirrorSends(s, SendHello(s.a, key));
    case StartB(key) =>
      MirrorSends(s, SendHello(s.b, key));
    case ArriveA(m, tail) =>
      MirrorSends(s, Handle(s.a, m, tail));
    case ArriveB(m, tail) =>
      MirrorSends(s, Handle(s.b, m, tail));
  }

  lemma FirstOpens(s: System, step: Step, sizeA: nat, sizeB: nat)
    requires Untouched(s, sizeA, sizeB) && step.StartA? && step.key < 65536
    ensures Enabled(s, step) && Running(Next(s, step), sizeA, sizeB)
  {
    hide FromA, SendHello, Running;
    StartStep(s, step.key, sizeA, sizeB);
  }

  lemma PhaseStep(s: System, o: Opening, step: Step, s': System, sizeA: nat, sizeB: nat) returns (o': Opening)
    requires Phase(s, o, sizeA, sizeB) && FreeStep(s, step, s')
    ensures Phase(s', o', sizeA, sizeB) && (o.Both? ==> o' == o)
  {
    hide Next, Running, Crossed;
    MirrorNext(s, step);
    match o
    case Nobody =>
      if step.StartA? {
        FirstOpens(s, step, sizeA, sizeB);
        o' := OnlyA;
      } else if step.StartB? {
        FirstOpens(Mirror(s), MirrorStep(step), sizeB, sizeA);
        o' := OnlyB;
      } else {
        assert false;
      }
    case OnlyA =>
      o' := OneOpenStep(s, step, sizeA, sizeB);
    case OnlyB =>
      var p := OneOpenStep(Mirror(s), MirrorStep(step), sizeB, sizeA);
      if p.Both? {
        MirrorCrossed(s', p.keyA, p.keyB, sizeB, sizeA);
        o' := Both(p.keyB, p.keyA);
      } else {
        o' := OnlyB;
      }
    case Both(keyA, keyB) =>
      CrossedStaysCrossed(s, step, keyA, keyB, sizeA, sizeB);
      o' := o;
  }

  /** Every state of every run is one in which nobody, one end or both ends have opened. */
  lemma {:induction false} EveryStateHasAPhase(sizeA: nat, sizeB: nat, steps: seq<Step>, ss: seq<System>, k: nat)
    returns (o: Opening)
    requires FreeRun(sizeA, sizeB, steps, ss) && k <= |steps|
    ensures Phase(ss[k], o, sizeA, sizeB)
  {
    hide Phase;
    if k == 0 {
      o := Nobody;
      StartPhase(sizeA, sizeB);
    } else {
      var before := EveryStateHasAPhase(sizeA, sizeB, steps, ss, k - 1);
      assert FreeStep(ss[k - 1], steps[k - 1], ss[k]);
      o := PhaseStep(ss[k - 1], before, steps[k - 1], ss[k], sizeA, sizeB);
    }
  }

  lemma StartPhase(sizeA: nat, sizeB: nat)
    ensures Phase(Start(sizeA, sizeB), Nobody, sizeA, sizeB)
  {
  }

  /**
   * Once both ends have opened, with different keys, each holds its peer's key from the moment it has read a HELLO.
   * So in every later state the keys agree exactly when one end alone has read the other's HELLO.
   */
  lemma CrossedKeysAgreeIff(s: System, keyA: nat, keyB: nat, sizeA: nat, sizeB: nat)
    requires Crossed(s, keyA, keyB, sizeA, sizeB) && keyA != keyB
    ensures s.a.key == s.b.key <==> s.a.helloRecvd != s.b.helloRecvd
    ensures s.a.key == (if s.a.helloRecvd then keyB else keyA) && s.b.key == (if s.b.helloRecvd then keyA else keyB)
  {
  }

  /**
   * In every run at all, whoever opens and whatever is lost, repeated or reordered. In every state after both ends
   * have opened with different keys, their keys agree exactly if one of them alone has read the other's HELLO. When both
   * have completed, their keys agree exactly if they have not each read the other's HELLO, or had drawn the same key.
   */
  lemma KeysAgreeIff(sizeA: nat, sizeB: nat, steps: seq<Step>, ss: seq<System>, k: nat) returns (o: Opening)
    requires FreeRun(sizeA, sizeB, steps, ss) && k <= |steps|
    ensures Phase(ss[k], o, sizeA, sizeB)
    ensures o.Both? && o.keyA != o.keyB ==> (ss[k].a.key == ss[k].b.key <==> ss[k].a.helloRecvd != ss[k].b.helloRecvd)
    ensures ss[k].a.complete && ss[k].b.complete ==>
      (ss[k].a.key == ss[k].b.key <==> !(ss[k].a.helloRecvd && ss[k].b.helloRecvd) || (o.Both? && o.keyA == o.keyB))
  {
    hide HelloText, AckText, Decimal, Heard, Settled;
    o := EveryStateHasAPhase(sizeA, sizeB, steps, ss, k);
    if o.Both? && o.keyA != o.keyB {
      CrossedKeysAgreeIff(ss[k], o.keyA, o.keyB, sizeA, sizeB);
    }
  }

  // ---------------------------------------------------------------- two runs with both ends opening

  /** Both ends have just opened with the same size. */
  ghost predicate JustOpened(s: System, keyA: nat, keyB: nat, size: nat) {
    && s.a == Idle(size).(key := keyA, helloSent := true) && s.b == Idle(size).(key := keyB, helloSent := true)
    && s.toA == {Hello(HelloText(keyB, size))} && s.toB == {Hello(HelloText(keyA, size))}
  }

  lemma BothOpen(keyA: nat, keyB: nat, size: nat) returns (s1: System, s2: System)
    requires keyA < 65536 && keyB < 65536
    ensures FreeStep(Start(size, size), StartA(keyA), s1) && FreeStep(s1, StartB(keyB), s2)
    ensures JustOpened(s2, keyA, keyB, size)
  {
    hide HelloText;
    SentMany(Hello(HelloText(keyA, size)), HELLO_ROUND);
    SentMany(Hello(HelloText(keyB, size)), HELLO_ROUND);
    s1 := Next(Start(size, size), StartA(keyA));
    s2 := Next(s1, StartB(keyB));
  }

  lemma TextsRead(key: nat, size: nat, tail: string)
    requires key < 65536 && size < 100000
    ensures FirstField(HelloText(key, size) + tail) == key
    ensures SecondField(HelloText(key, size) + tail) == size
    ensures FirstField(AckText(size) + tail) == size
  {
    hide FirstField, SecondField, HelloText, AckText, Decimal;
    Powers();
    DecimalLength(key, 5);
    DecimalLength(size, 5);
    HelloReadsBackIff(key, size, tail);
    AckReadsBackIffShort(size, tail);
  }

  /** One end of such a run reads the peer's HELLO. */
  lemma ReadsHello(e: Endpoint, key: nat, size: nat)
    requires key < 65536 && size < 100000 && e.maxSize == size && !e.helloAckRecvd
    ensures Readable(Hello(HelloText(key, size)), "")
    ensures var o := Handle(e, Hello(HelloText(key, size)), "");
      && o.state == e.(key := key, helloRecvd := true, helloAckSent := true)
      && o.sent == if e.helloAckSent then [] else [HelloAck(AckText(size))]
  {
    hide FirstField, SecondField, HelloText, AckText;
    TextsRead(key, size, "");
  }

  /** One end of such a run reads a HELLOACK. */
  lemma ReadsAck(e: Endpoint, size: nat)
    requires size < 100000 && e.maxSize == size && (e.helloSent || e.helloAckSent)
    ensures Readable(HelloAck(AckText(size)), "")
    ensures var o := Handle(e, HelloAck(AckText(size)), "");
      && o.state == e.(complete := true, helloAckSent := true, helloSent := false, helloAckRecvd := false)
      && o.sent == if e.helloAckSent then [] else [HelloAck(AckText(size))]
  {
    hide FirstField, SecondField, HelloText, AckText;
    TextsRead(0, size, "");
  }

  /** When every message arrives, both complete with the two keys exchanged. */
  lemma CrossedHellosExchangeKeys(keyA: nat, keyB: nat, size: nat) returns (steps: seq<Step>, ss: seq<System>)
    requires keyA < 65536 && keyB < 65536 && size < 100000
    ensures FreeRun(size, size, steps, ss)
    ensures var t := ss[|steps|]; t.a.complete && t.b.complete && t.a.key == keyB && t.b.key == keyA
  {
    hide HelloText, AckText, Handle, SetOf, Hellos, Readable, SendHello;
    var helloA, helloB, ack := Hello(HelloText(keyA, size)), Hello(HelloText(keyB, size)), HelloAck(AckText(size));
    var s1, s2 := BothOpen(keyA, keyB, size);
    SentOne(ack);
    NothingSent();
    ReadsHello(s2.a, keyB, size);
    var s3 := Next(s2, ArriveA(helloB, ""));
    ReadsHello(s3.b, keyA, size);
    var s4 := Next(s3, ArriveB(helloA, ""));
    ReadsAck(s4.a, size);
    var s5 := Next(s4, ArriveA(ack, ""));
    ReadsAck(s5.b, size);
    var s6 := Next(s5, ArriveB(ack, ""));
    steps := [StartA(keyA), StartB(keyB), ArriveA(helloB, ""), ArriveB(helloA, ""), ArriveA(ack, ""), ArriveB(ack, "")];
    ss := [Start(size, size), s1, s2, s3, s4, s5, s6];
  }

  /** When one end's HELLO is lost, both complete with the key of the other. */
  lemma LostHelloLeavesOneKey(keyA: nat, keyB: nat, size: nat) returns (steps: seq<Step>, ss: seq<System>)
    requires keyA < 65536 && keyB < 65536 && size < 100000
    ensures FreeRun(size, size, steps, ss)
    ensures var t := ss[|steps|]; t.a.complete && t.b.complete && t.a.key == keyA && t.b.key == keyA
  {
    hide HelloText, AckText, Handle, SetOf, Hellos, Readable, SendHello;
    var helloA, ack := Hello(HelloText(keyA, size)), HelloAck(AckText(size));
    var s1, s2 := BothOpen(keyA, keyB, size);
    SentOne(ack);
    NothingSent();
    ReadsHello(s2.b, keyA, size);
    var s3 := Next(s2, ArriveB(helloA, ""));
    ReadsAck(s3.a, size);
    var s4 := Next(s3, ArriveA(ack, ""));
    ReadsAck(s4.b, size);
    var s5 := Next(s4, ArriveB(ack, ""));
    steps := [StartA(keyA), StartB(keyB), ArriveB(helloA, ""), ArriveA(ack, ""), ArriveB(ack, "")];
    ss := [Start(size, size), s1, s2, s3, s4, s5];
  }
}
