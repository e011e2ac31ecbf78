/**
 * The rollover-counter state of a ccRTP CryptoContext: the guess of a packet's 48-bit index from its
 * 16-bit sequence number, the replay check and the update after an authentic packet.
 */
module SrtpContext {
  import opened Octets

  const REPLAY_WINDOW_SIZE := 64

  /** The unsigned 64-bit replay mask; element k is bit k. */
  type Window = w: seq<bool> | |w| == 64 witness seq(64, _ => false)

  datatype Ctx = Ctx(roc: u32, guessedRoc: u32, sl: u16, window: Window, seqNumSet: bool)

  function EmptyWindow(): Window {
    seq(64, _ => false)
  }

  function Fresh(roc: u32): Ctx {
    Ctx(roc, 0, 0, EmptyWindow(), false)
  }

  function Local(c: Ctx): int {
    c.roc * SEQ_MOD + c.sl
  }

  /** The first sequence number that is looked at becomes the highest one. */
  function Seeded(c: Ctx, s: u16): Ctx {
    if c.seqNumSet then c else c.(seqNumSet := true, sl := s)
  }

  function GuessRoc(roc: u32, sl: u16, s: u16): u32 {
    if sl < 32768 then
      if s - sl > 32768 then (roc - 1) % ROC_MOD else roc
    else
      if sl - 32768 > s then (roc + 1) % ROC_MOD else roc
  }

  function Guessed(c: Ctx, s: u16): Ctx {
    var seeded := Seeded(c, s);
    seeded.(guessedRoc := GuessRoc(seeded.roc, seeded.sl, s))
  }

  function IndexGuess(c: Ctx, s: u16): int {
    Guessed(c, s).guessedRoc * SEQ_MOD + s
  }

  /** Distance of the guess from the local index, as checkReplay and update compute it. */
  function Delta(c: Ctx, s: u16): int {
    IndexGuess(c, s) - Local(Seeded(c, s))
  }

  /** What the replay check may answer; the shift by exactly 64 bits has no defined result. */
  predicate ReplayVerdict(c: Ctx, s: u16, ok: bool) {
    var d := Delta(c, s);
    && (d > 0 ==> ok)
    && (d < -REPLAY_WINDOW_SIZE ==> !ok)
    && (-REPLAY_WINDOW_SIZE < d <= 0 ==> ok == !c.window[-d])
  }

  function ShiftedIn(w: Window, d: nat): Window {
    seq(64, k requires 0 <= k < 64 => if k == 0 then true else if k < d then false else w[k - d])
  }

  /**
   * What update leaves behind. The mask is determined when the packet advances the index by 1 to 63 or
   * repeats the local index; every other shift amount has no defined result.
   */
  predicate Updated(c: Ctx, s: u16, c': Ctx) {
    var d := Delta(c, s);
    var g := Guessed(c, s);
    && c'.seqNumSet
    && c'.guessedRoc == g.guessedRoc
    && (0 < d < 64 ==> c'.window == ShiftedIn(c.window, d))
    && (d == 0 ==> c'.window == c.window[0 := true])
    && c'.roc == (if g.guessedRoc > g.roc then g.guessedRoc else g.roc)
    && c'.sl == (if g.guessedRoc > g.roc || s > g.sl then s else g.sl)
  }

  // ---------------------------------------------------------------- the guess

  /** Guessing again for the same packet changes nothing. */
  lemma GuessAgain(c: Ctx, s: u16)
    ensures Guessed(Guessed(c, s), s) == Guessed(c, s)
    ensures IndexGuess(Guessed(c, s), s) == IndexGuess(c, s)
    ensures Delta(Guessed(c, s), s) == Delta(c, s)
  {
  }

  /** How far ahead of the highest sequence number a packet may be and still be indexed right. */
  function Reach(sl: u16): int {
    if sl < 32768 then 32768 else 32767
  }

  /**
   * The guess is the true index exactly when the true index lies in the 2^16 indices around the local
   * one, counted modulo 2^48. The window is not symmetric, and its upper end depends on the half of the
   * sequence space the highest sequence number is in.
   */
  lemma GuessIsExact(c: Ctx, i: int)
    requires c.seqNumSet
    requires 0 <= i < INDEX_MOD
    ensures IndexGuess(c, i % SEQ_MOD) == i
            <==> (i - Local(c) + 65535 - Reach(c.sl)) % INDEX_MOD <= 65535
  {
    var s, t := i % SEQ_MOD, i / SEQ_MOD;
    var k := GuessOffset(c.roc, c.sl, s);
    var w := k * SEQ_MOD + s - c.sl + 65535 - Reach(c.sl);
    assert i - Local(c) + 65535 - Reach(c.sl) == (t - c.roc - k) * SEQ_MOD + w;
    SplitMod(t - c.roc - k, w);
    SameResidue(t, c.roc + k);
  }

  /** The guess moves the counter by the one step that brings the index into the window. */
  lemma GuessOffset(roc: u32, sl: u16, s: u16) returns (k: int)
    ensures -1 <= k <= 1
    ensures GuessRoc(roc, sl, s) == (roc + k) % ROC_MOD
    ensures 0 <= k * SEQ_MOD + s - sl + 65535 - Reach(sl) <= 65535
  {
    k := if sl < 32768 then (if s - sl > 32768 then -1 else 0) else if sl - 32768 > s then 1 else 0;
  }

  lemma SameResidue(t: u32, r: int)
    ensures (t - r) % ROC_MOD == 0 <==> t == r % ROC_MOD
  {
  }

  lemma SplitMod(q: int, w: int)
    requires 0 <= w <= 65535
    ensures (q * SEQ_MOD + w) % INDEX_MOD == (q % ROC_MOD) * SEQ_MOD + w
  {
  }

  /** Without a counter wrap the window reads as a plain interval around the local index. */
  lemma GuessInWindow(c: Ctx, i: int)
    requires c.seqNumSet
    requires 0 <= i < INDEX_MOD
    requires Reach(c.sl) - 65535 <= i - Local(c) <= Reach(c.sl)
    ensures IndexGuess(c, i % SEQ_MOD) == i && Delta(c, i % SEQ_MOD) == i - Local(c)
  {
  }

  // ---------------------------------------------------------------- the update

  /**
   * The local index moves to the larger of itself and the guess for every packet but one kind: a late
   * packet from before a wrap of the sequence number, for which the counter stays and the highest
   * sequence number does not.
   */
  lemma UpdateKeepsMaximum(c: Ctx, s: u16, c': Ctx)
    requires c.seqNumSet && Updated(c, s, c')
    ensures Local(c') == (if IndexGuess(c, s) > Local(c) then IndexGuess(c, s) else Local(c))
            <==> !(c.roc > 0 && c.sl < 32768 && s - c.sl > 32768)
  {
  }

  lemma UpdateAfterGuess(c: Ctx, s: u16, c': Ctx)
    requires Updated(Guessed(c, s), s, c')
    ensures Updated(c, s, c')
  {
  }

  /** A packet ahead of the local index and within reach moves the local index to its own. */
  lemma AdvanceMovesLocal(c: Ctx, i: int, c': Ctx)
    requires c.seqNumSet && Updated(c, i % SEQ_MOD, c')
    requires 0 <= i < INDEX_MOD
    requires 0 < i - Local(c) <= Reach(c.sl)
    ensures c'.seqNumSet && Local(c') == i
  {
  }

  /** The first packet fixes the sequence number under the counter the context was made with. */
  lemma FirstPacketSeeds(roc: u32, s: u16, c': Ctx)
    requires Updated(Fresh(roc), s, c')
    ensures c'.seqNumSet && Local(c') == roc * SEQ_MOD + s == IndexGuess(Fresh(roc), s)
    ensures c'.window == EmptyWindow()[0 := true]
  {
  }

  // ---------------------------------------------------------------- the replay window over a run

  /** Successive contexts of a receiver that accepts the packets with indices `idx` in this order. */
  ghost predicate AcceptingRun(roc: u32, idx: seq<int>, cs: seq<Ctx>) {
    && |cs| == |idx| + 1
    && cs[0] == Fresh(roc)
    && (forall n :: 0 <= n < |idx| ==> 0 <= idx[n] < INDEX_MOD)
    && (forall n :: 0 <= n < |idx| ==> Updated(cs[n], idx[n] % SEQ_MOD, cs[n + 1]))
    && (idx != [] ==> idx[0] / SEQ_MOD == roc)
    && (forall n {:trigger idx[n]} :: 0 < n < |idx| ==> 1 <= idx[n] - idx[n - 1] <= 63)
  }

  ghost predicate WindowShows(c: Ctx, accepted: seq<int>) {
    && c.seqNumSet
    && accepted != []
    && Local(c) == accepted[|accepted| - 1]
    && (forall a :: a in accepted ==> a <= Local(c))
    && (forall k :: 0 <= k < 64 ==> (c.window[k] <==> Local(c) - k in accepted))
  }

  lemma {:induction false} WindowShowsRun(roc: u32, idx: seq<int>, cs: seq<Ctx>)
    requires AcceptingRun(roc, idx, cs) && idx != []
    ensures WindowShows(cs[|idx|], idx)
  {
    hide Updated, WindowShows;
    var n := |idx| - 1;
    if n == 0 {
      FirstWindow(roc, idx[0], cs[1]);
      assert idx == [idx[0]];
    } else {
      PrefixRun(roc, idx, cs);
      WindowShowsRun(roc, idx[..n], cs[..n + 1]);
      ShowsLocal(cs[n], idx[..n]);
      assert 1 <= idx[n] - idx[n - 1] <= 63 && Updated(cs[n], idx[n] % SEQ_MOD, cs[n + 1]);
      WindowStep(cs[n], idx[..n], idx[n], cs[n + 1]);
      assert idx == idx[..n] + [idx[n]];
    }
  }

  lemma ShowsLocal(c: Ctx, accepted: seq<int>)
    requires WindowShows(c, accepted)
    ensures accepted != [] && Local(c) == accepted[|accepted| - 1]
  {
  }

  lemma PrefixRun(roc: u32, idx: seq<int>, cs: seq<Ctx>)
    requires AcceptingRun(roc, idx, cs) && |idx| > 1
    ensures AcceptingRun(roc, idx[..|idx| - 1], cs[..|idx|])
  {
  }

  lemma FirstWindow(roc: u32, i: int, c': Ctx)
    requires 0 <= i < INDEX_MOD && i / SEQ_MOD == roc
    requires Updated(Fresh(roc), i % SEQ_MOD, c')
    ensures WindowShows(c', [i])
  {
  }

  lemma WindowStep(c: Ctx, accepted: seq<int>, i: int, c': Ctx)
    requires WindowShows(c, accepted)
    requires 0 <= i < INDEX_MOD && 1 <= i - Local(c) <= 63
    requires Updated(c, i % SEQ_MOD, c')
    ensures WindowShows(c', accepted + [i])
  {
    GuessInWindow(c, i);
    AdvanceMovesLocal(c, i, c');
    var d := i - Local(c);
    forall k | 0 <= k < 64
      ensures c'.window[k] <==> i - k in accepted + [i]
    {
      assert i - k in accepted + [i] <==> k == 0 || i - k in accepted;
      if d <= k {
        assert i - k == Local(c) - (k - d);
      }
    }
  }

  /**
   * Over a run whose packets advance by 1 to 63, the replay check admits an index of the last 64 exactly
   * when no accepted packet carried it.
   */
  lemma ReplayCheckIsExact(roc: u32, idx: seq<int>, cs: seq<Ctx>, i: int, ok: bool)
    requires AcceptingRun(roc, idx, cs) && idx != []
    requires 0 <= i && idx[|idx| - 1] - 64 < i <= idx[|idx| - 1]
    requires ReplayVerdict(cs[|idx|], i % SEQ_MOD, ok)
    ensures ok <==> i !in idx
  {
    WindowShowsRun(roc, idx, cs);
    VerdictReadsWindow(cs[|idx|], idx, i, ok);
  }

  lemma VerdictReadsWindow(c: Ctx, accepted: seq<int>, i: int, ok: bool)
    requires WindowShows(c, accepted)
    requires 0 <= i && Local(c) - 64 < i <= Local(c)
    requires ReplayVerdict(c, i % SEQ_MOD, ok)
    ensures ok <==> i !in accepted
  {
  }

  // ---------------------------------------------------------------- the object

  class CryptoContext {
    var roc: u32
    var guessedRoc: u32
    var sl: u16
    var replayWindow: Window
    var seqNumSet: bool

    function State(): Ctx
      reads this
    {
      Ctx(roc, guessedRoc, sl, replayWindow, seqNumSet)
    }

    constructor (roc: u32)
      ensures State() == Fresh(roc)
    {
      this.roc, guessedRoc, sl, replayWindow, seqNumSet := roc, 0, 0, EmptyWindow(), false;
    }

    method GuessIndex(newSeq: u16) returns (index: int)
      modifies this
      ensures State() == Guessed(old(State()), newSeq)
      ensures index == IndexGuess(old(State()), newSeq)
    {
      if !seqNumSet {
        seqNumSet := true;
        sl := newSeq;
      }
      if sl < 32768 {
        if newSeq - sl > 32768 {
          guessedRoc := (roc - 1) % ROC_MOD;
        } else {
          guessedRoc := roc;
        }
      } else {
        if sl - 32768 > newSeq {
          guessedRoc := (roc + 1) % ROC_MOD;
        } else {
          guessedRoc := roc;
        }
      }
      index := guessedRoc * SEQ_MOD + newSeq;
    }

    /** `secured` is false when neither encryption nor authentication is configured. */
    method CheckReplay(newSeq: u16, secured: bool) returns (ok: bool)
      modifies this
      ensures !secured ==> ok && State() == old(State())
      ensures secured ==> State() == Guessed(old(State()), newSeq) && ReplayVerdict(old(State()), newSeq, ok)
    {
      if !secured {
        return true;
      }
      if !seqNumSet {
        seqNumSet := true;
        sl := newSeq;
      }
      var guessed := GuessIndex(newSeq);
      var delta := guessed - (roc * SEQ_MOD + sl);
      if delta > 0 {
        return true;
      } else if -delta > REPLAY_WINDOW_SIZE {
        return false;
      } else if -delta < 64 {
        return !replayWindow[-delta];
      } else {
        ok := *;
      }
    }

    method Update(newSeq: u16)
      modifies this
      ensures Updated(old(State()), newSeq, State())
    {
      var guessed := GuessIndex(newSeq);
      var delta := guessed - (roc * SEQ_MOD + sl);
      if 0 < delta < 64 {
        replayWindow := ShiftedIn(replayWindow, delta);
      } else if delta == 0 {
        replayWindow := replayWindow[0 := true];
      } else {
        replayWindow := *;
      }
      if newSeq > sl {
        sl := newSeq;
      }
      if guessedRoc > roc {
        roc := guessedRoc;
        sl := newSeq;
      }
    }
  }
}
