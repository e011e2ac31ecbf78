/** The replay databases of libSRTP: an extended index with a bit mask for SRTP, a plain window for SRTCP. */
module ReplayDb {
  import opened Octets

  const INDEX_WORD := 0x1_0000_0000_0000_0000
  const MEDIAN := 0x8000
  const BITS := 128

  datatype Status = Ok | ReplayOld | ReplayFail

  // ---------------------------------------------------------------- the bit mask

  type Mask = m: seq<bool> | |m| == BITS witness seq(BITS, _ => false)

  function SetBit(m: Mask, k: nat): (r: Mask)
    requires k < BITS
  {
    m[k := true]
  }

  /** Moves every bit `d` places towards bit 0. */
  function ShiftDown(m: Mask, d: nat): (r: Mask)
    ensures forall k :: 0 <= k < BITS ==> r[k] == (k + d < BITS && m[k + d])
  {
    seq(BITS, k requires 0 <= k < BITS => k + d < BITS && m[k + d])
  }

  function NoBits(): (m: Mask)
    ensures forall k :: 0 <= k < BITS ==> !m[k]
  {
    seq(BITS, _ => false)
  }

  // ---------------------------------------------------------------- the extended index

  datatype Estimate = Estimate(index: nat, delta: int)

  /** The index a sequence number stands for, and the difference reported with it. */
  function IndexGuess(local: nat, s: u16): Estimate {
    var roc, seqNo := local / SEQ_MOD % ROC_MOD, local % SEQ_MOD;
    if seqNo < MEDIAN then
      if s - seqNo > MEDIAN then Estimate((roc - 1) % ROC_MOD * SEQ_MOD + s, SEQ_MOD - s + seqNo)
      else Estimate(roc * SEQ_MOD + s, s - seqNo)
    else if seqNo - MEDIAN > s then Estimate((roc + 1) % ROC_MOD * SEQ_MOD + s, SEQ_MOD - seqNo + s)
    else Estimate(roc * SEQ_MOD + s, s - seqNo)
  }

  /** The guess reaches back over a wrap of the sequence number. */
  predicate BackOverWrap(local: nat, s: u16) {
    local % SEQ_MOD < MEDIAN && s - local % SEQ_MOD > MEDIAN
  }

  datatype Rdbx = Rdbx(index: nat, mask: Mask)

  function RdbxInit(): Rdbx {
    Rdbx(0, NoBits())
  }

  /** Small indices are never guessed to lie before the first rollover. */
  function RdbxEstimate(db: Rdbx, s: u16): Estimate {
    if db.index > MEDIAN then IndexGuess(db.index, s) else Estimate(s, s - db.index % SEQ_MOD)
  }

  function RdbxCheck(db: Rdbx, delta: int): Status {
    if delta > 0 then Ok
    else if BITS - 1 + delta < 0 then ReplayOld
    else if db.mask[BITS - 1 + delta] then ReplayFail
    else Ok
  }

  function RdbxAdd(db: Rdbx, delta: int): Rdbx
    requires -BITS < delta
  {
    if delta > 0 then
      Rdbx((db.index + delta % SEQ_MOD) % INDEX_WORD, SetBit(ShiftDown(db.mask, delta), BITS - 1))
    else db.(mask := SetBit(db.mask, -delta))
  }

  lemma GuessSplits(local: nat, s: u16)
    requires local < INDEX_MOD
    ensures local == local / SEQ_MOD * SEQ_MOD + local % SEQ_MOD && local / SEQ_MOD < ROC_MOD
  {
  }

  /** The guess adds one of -1, 0, 1 to the rollover counter, and reports the distance, turned where it is -1. */
  lemma GuessStep(local: nat, s: u16) returns (k: int)
    requires local < INDEX_MOD
    ensures -1 <= k <= 1 && (k == -1 <==> BackOverWrap(local, s))
    ensures IndexGuess(local, s).index == (local / SEQ_MOD + k) % ROC_MOD * SEQ_MOD + s
    ensures var d := k * SEQ_MOD + s - local % SEQ_MOD; IndexGuess(local, s).delta == if k == -1 then -d else d
    ensures var d := k * SEQ_MOD + s - local % SEQ_MOD;
      if local % SEQ_MOD < MEDIAN then -MEDIAN < d <= MEDIAN else -MEDIAN <= d < MEDIAN
  {
    var seqNo := local % SEQ_MOD;
    k := if BackOverWrap(local, s) then -1 else if seqNo >= MEDIAN && seqNo - MEDIAN > s then 1 else 0;
    assert local / SEQ_MOD % ROC_MOD == local / SEQ_MOD;
  }

  /** Adding to an index is adding to its rollover counter and its sequence number. */
  lemma IndexPlus(roc: int, k: int, s: u16)
    requires 0 <= roc < ROC_MOD && -1 <= k <= 1
    ensures ((roc + k) * SEQ_MOD + s) % INDEX_MOD == (roc + k) % ROC_MOD * SEQ_MOD + s
  {
    if roc + k < 0 {
      assert (roc + k) % ROC_MOD == ROC_MOD - 1;
    } else if roc + k == ROC_MOD {
      assert (roc + k) % ROC_MOD == 0;
    } else {
      assert (roc + k) % ROC_MOD == roc + k;
    }
  }

  /**
   * The difference reported with a guess leads from the local index to the guess exactly when the guess does
   * not reach back over a wrap; there its sign is turned, and the guess lies as far behind as the difference says ahead.
   */
  lemma GuessDifferenceIff(local: nat, s: u16)
    requires local < INDEX_MOD
    ensures var g := IndexGuess(local, s);
      && ((local + g.delta) % INDEX_MOD == g.index <==> !BackOverWrap(local, s))
      && (BackOverWrap(local, s) ==> g.delta > 0 && (local - g.delta) % INDEX_MOD == g.index)
  {
    hide IndexGuess;
    var k := GuessStep(local, s);
    GuessSplits(local, s);
    IndexPlus(local / SEQ_MOD, k, s);
    var g, d := IndexGuess(local, s), k * SEQ_MOD + s - local % SEQ_MOD;
    assert local + d == (local / SEQ_MOD + k) * SEQ_MOD + s;
    if k == -1 {
      ApartModulo(local, d);
    }
  }

  lemma ApartModulo(local: nat, d: int)
    requires local < INDEX_MOD && -MEDIAN < d < 0
    ensures (local - d) % INDEX_MOD != (local + d) % INDEX_MOD
  {
    var x, y := local + d, local - d;
    assert 0 < y - x < SEQ_MOD;
    assert x % INDEX_MOD == if x < 0 then x + INDEX_MOD else x;
    assert y % INDEX_MOD == if y >= INDEX_MOD then y - INDEX_MOD else y;
  }

  /** The local index reaches so far back and ahead. */
  predicate InReach(local: nat, truth: nat) {
    if local <= MEDIAN then truth < SEQ_MOD
    else if local % SEQ_MOD < MEDIAN then -MEDIAN < truth - local <= MEDIAN
    else -MEDIAN <= truth - local < MEDIAN
  }

  /** A true index is found from its sequence number exactly when it lies in the reach of the local one. */
  lemma EstimateIsExactIff(db: Rdbx, truth: nat)
    requires db.index < INDEX_MOD - SEQ_MOD && truth < INDEX_MOD - SEQ_MOD
    ensures RdbxEstimate(db, truth % SEQ_MOD).index == truth <==> InReach(db.index, truth)
  {
    hide IndexGuess;
    if db.index > MEDIAN {
      GuessIsExactIff(db.index, truth);
    }
  }

  lemma GuessIsExactIff(local: nat, truth: nat)
    requires MEDIAN < local < INDEX_MOD - SEQ_MOD && truth < INDEX_MOD - SEQ_MOD
    ensures IndexGuess(local, truth % SEQ_MOD).index == truth <==> InReach(local, truth)
  {
    hide IndexGuess;
    var s, q, roc := truth % SEQ_MOD, truth / SEQ_MOD, local / SEQ_MOD;
    var k := GuessStep(local, s);
    GuessSplits(local, s);
    GuessSplits(truth, s);
    assert 0 <= roc + k < ROC_MOD && (roc + k) % ROC_MOD == roc + k;
    assert truth - local == (q - roc - k) * SEQ_MOD + (k * SEQ_MOD + s - local % SEQ_MOD);
    assert IndexGuess(local, s).index == truth <==> q == roc + k;
  }

  /** An index that lies ahead and is found is reported as far ahead as it lies. */
  lemma AheadIsReported(db: Rdbx, truth: nat)
    requires db.index < truth < INDEX_MOD - SEQ_MOD && RdbxEstimate(db, truth % SEQ_MOD).index == truth
    ensures RdbxEstimate(db, truth % SEQ_MOD).delta == truth - db.index
  {
    hide IndexGuess;
    if db.index > MEDIAN {
      var s := truth % SEQ_MOD;
      var k := GuessStep(db.index, s);
      GuessSplits(db.index, s);
      GuessSplits(truth, s);
      assert 0 <= db.index / SEQ_MOD + k < ROC_MOD;
      assert (db.index / SEQ_MOD + k) % ROC_MOD == db.index / SEQ_MOD + k;
    }
  }

  // ---------------------------------------------------------------- what the mask shows

  /** The top bit stands for the local index, every lower bit for the index before. */
  ghost predicate RdbxShows(db: Rdbx, seen: set<int>) {
    forall b :: 0 <= b < BITS ==> (db.mask[b] <==> db.index - (BITS - 1 - b) in seen)
  }

  /** The set of accepted indices stays shown exactly when the accepted index lies ahead. */
  lemma RdbxStepIff(db: Rdbx, delta: int, seen: set<int>)
    requires RdbxShows(db, seen) && RdbxCheck(db, delta) == Ok && delta < SEQ_MOD
    requires db.index + SEQ_MOD < INDEX_WORD && forall i :: i in seen ==> i <= db.index
    ensures RdbxShows(RdbxAdd(db, delta), seen + {db.index + delta}) <==> delta > 0
  {
    var r, all := RdbxAdd(db, delta), seen + {db.index + delta};
    if delta > 0 {
      assert r.index == db.index + delta;
      forall b | 0 <= b < BITS
        ensures r.mask[b] <==> r.index - (BITS - 1 - b) in all
      {
        if b < BITS - 1 && b + delta < BITS {
          assert r.mask[b] == db.mask[b + delta];
        }
      }
    } else {
      var b := BITS - 1 + delta;
      assert !r.mask[b] && r.index - (BITS - 1 - b) in all;
    }
  }

  /** Every late packet that is accepted would be accepted again. */
  lemma LateIsNotRecorded(db: Rdbx, delta: int)
    requires RdbxCheck(db, delta) == Ok && delta <= 0
    ensures RdbxCheck(RdbxAdd(db, delta), delta) == Ok
  {
  }

  /** The guess does not reach back over a wrap; below the median it never does. */
  predicate Straight(db: Rdbx, s: u16) {
    !(db.index > MEDIAN && BackOverWrap(db.index, s))
  }

  lemma EstimateOfSelf(db: Rdbx)
    ensures RdbxEstimate(db, db.index % SEQ_MOD).delta == 0
  {
  }

  lemma StraightLeads(db: Rdbx, s: u16)
    requires Straight(db, s) && db.index < INDEX_MOD
    ensures (db.index + RdbxEstimate(db, s).delta) % SEQ_MOD == s
  {
  }

  /** A guess back over a wrap moves the local index forward, and the sequence number still lies ahead of it. */
  lemma BackOverWrapMovesOn(db: Rdbx, s: u16)
    requires !Straight(db, s) && db.index + SEQ_MOD < INDEX_MOD
    ensures var e := RdbxEstimate(db, s);
      var next := RdbxAdd(db, e.delta);
      && 0 < e.delta < MEDIAN && next.index == db.index + e.delta
      && RdbxEstimate(next, s).delta > 0
      && RdbxEstimate(next, s).index == (if Straight(next, s) then e.index + SEQ_MOD else e.index)
  {
    hide IndexGuess, RdbxAdd;
    var e := RdbxEstimate(db, s);
    var roc, seqNo := db.index / SEQ_MOD, db.index % SEQ_MOD;
    var k := GuessStep(db.index, s);
    GuessSplits(db.index, s);
    AddAhead(db, e.delta);
    var next := RdbxAdd(db, e.delta);
    SplitOf(next.index, roc, seqNo + e.delta);
    var k' := GuessStep(next.index, s);
    assert roc >= 1 && k == -1 && k' <= 0;
  }

  lemma SplitOf(index: nat, roc: nat, s: u16)
    requires index == roc * SEQ_MOD + s
    ensures index / SEQ_MOD == roc && index % SEQ_MOD == s
  {
  }

  /**
   * A sequence number just entered is refused when it comes again, exactly if it lay ahead and the guess did not
   * reach back over a wrap. Otherwise it is admitted again: under the same index if it was late in the window or is
   * still guessed back over the wrap, and under the index one rollover later if not.
   */
  lemma EnteredIsRefusedIff(db: Rdbx, s: u16)
    requires db.index + SEQ_MOD < INDEX_MOD && RdbxCheck(db, RdbxEstimate(db, s).delta) == Ok
    ensures var e := RdbxEstimate(db, s);
      var next := RdbxAdd(db, e.delta);
      var again := RdbxEstimate(next, s);
      && (RdbxCheck(next, again.delta) == ReplayFail <==> e.delta > 0 && Straight(db, s))
      && (RdbxCheck(next, again.delta) == Ok <==> e.delta <= 0 || !Straight(db, s))
      && (e.delta <= 0 ==> again == e)
      && (!Straight(db, s) ==> again.index == if Straight(next, s) then e.index + SEQ_MOD else e.index)
  {
    var e := RdbxEstimate(db, s);
    var next := RdbxAdd(db, e.delta);
    hide RdbxAdd, RdbxEstimate, Straight;
    if !Straight(db, s) {
      BackOverWrapMovesOn(db, s);
    } else if e.delta > 0 {
      DeltaBelow(db, s);
      AddAhead(db, e.delta);
      StraightLeads(db, s);
      EstimateOfSelf(next);
      TopBitSet(db, e.delta);
    } else {
      LateIsNotRecorded(db, e.delta);
      LateKeepsEstimate(db, e.delta, s);
      StraightOrAhead(db, s);
    }
  }

  lemma TopBitSet(db: Rdbx, delta: int)
    requires delta > 0
    ensures RdbxAdd(db, delta).mask[BITS - 1]
  {
  }

  lemma LateKeepsEstimate(db: Rdbx, delta: int, s: u16)
    requires -BITS < delta <= 0
    ensures RdbxEstimate(RdbxAdd(db, delta), s) == RdbxEstimate(db, s)
  {
  }

  lemma StraightOrAhead(db: Rdbx, s: u16)
    ensures !Straight(db, s) ==> RdbxEstimate(db, s).delta > 0
  {
  }

  /** From local index 0x17000 sequence number 0xF001 is entered twice, under indices one rollover apart. */
  lemma EnteredTwice(mask: Mask)
    ensures var db := Rdbx(0x17000, mask);
      var e := RdbxEstimate(db, 0xF001);
      var next := RdbxAdd(db, e.delta);
      var again := RdbxEstimate(next, 0xF001);
      && e.index == 0xF001 && RdbxCheck(db, e.delta) == Ok && next.index == 0x1EFFF
      && again.index == 0x1F001 && RdbxCheck(next, again.delta) == Ok
  {
  }

  lemma DeltaBelow(db: Rdbx, s: u16)
    ensures RdbxEstimate(db, s).delta < SEQ_MOD
  {
  }

  /** The database after a run in which every accepted packet lies ahead of the one before. */
  ghost function Advanced(db: Rdbx, deltas: seq<int>): Rdbx
    requires forall i :: 0 <= i < |deltas| ==> 0 < deltas[i] < SEQ_MOD
  {
    if deltas == [] then db else RdbxAdd(Advanced(db, deltas[..|deltas| - 1]), deltas[|deltas| - 1])
  }

  ghost function Sum(deltas: seq<int>): int {
    if deltas == [] then 0 else Sum(deltas[..|deltas| - 1]) + deltas[|deltas| - 1]
  }

  /** The indices such a run accepts. */
  ghost function Indices(deltas: seq<int>): set<int> {
    if deltas == [] then {} else Indices(deltas[..|deltas| - 1]) + {Sum(deltas)}
  }

  /** In such a run from the start every accepted index is refused, and every skipped one of the last 128 admitted. */
  lemma {:induction false} CheckAfterAdvances(deltas: seq<int>, k: int)
    requires forall i :: 0 <= i < |deltas| ==> 0 < deltas[i] < SEQ_MOD
    requires Sum(deltas) < INDEX_MOD && 0 <= k < BITS
    ensures var db := Advanced(RdbxInit(), deltas);
      && db.index == Sum(deltas)
      && (RdbxCheck(db, -k) == ReplayFail <==> Sum(deltas) - k in Indices(deltas))
      && (RdbxCheck(db, -k) == Ok <==> Sum(deltas) - k !in Indices(deltas))
  {
    AdvancedShows(deltas);
    hide Advanced, Indices;
    assert Advanced(RdbxInit(), deltas).mask[BITS - 1 - k] <==> Sum(deltas) - k in Indices(deltas);
  }

  lemma AddAhead(db: Rdbx, delta: int)
    requires 0 < delta < SEQ_MOD && db.index + SEQ_MOD < INDEX_WORD
    ensures RdbxAdd(db, delta).index == db.index + delta && RdbxCheck(db, delta) == Ok
  {
  }

  lemma {:induction false} AdvancedShows(deltas: seq<int>)
    requires forall i :: 0 <= i < |deltas| ==> 0 < deltas[i] < SEQ_MOD
    requires Sum(deltas) < INDEX_MOD
    ensures Sum(deltas) >= 0 && Advanced(RdbxInit(), deltas).index == Sum(deltas)
    ensures RdbxShows(Advanced(RdbxInit(), deltas), Indices(deltas))
    ensures forall i :: i in Indices(deltas) ==> i <= Sum(deltas)
  {
    if deltas != [] {
      var front, d := deltas[..|deltas| - 1], deltas[|deltas| - 1];
      AdvancedShows(front);
      hide RdbxAdd, RdbxShows, RdbxCheck;
      AddAhead(Advanced(RdbxInit(), front), d);
      RdbxStepIff(Advanced(RdbxInit(), front), d, Indices(front));
    }
  }

  // ---------------------------------------------------------------- the SRTCP window

  datatype Rdb = Rdb(start: nat, mask: Mask)

  function RdbInit(): Rdb {
    Rdb(0, NoBits())
  }

  function RdbCheck(db: Rdb, index: nat): Status {
    if index >= db.start + BITS then Ok
    else if index < db.start then ReplayOld
    else if db.mask[index - db.start] then ReplayFail
    else Ok
  }

  /** Beyond `start` + 255 the bit written lies outside the mask. */
  predicate RdbInReach(db: Rdb, index: nat) {
    db.start <= index < db.start + 2 * BITS
  }

  function RdbAdd(db: Rdb, index: nat): Rdb
    requires RdbInReach(db, index)
  {
    var delta := index - db.start;
    if delta < BITS then db.(mask := SetBit(db.mask, delta))
    else
      var d := delta - (BITS - 1);
      Rdb(db.start + d, SetBit(ShiftDown(db.mask, d), BITS - d))
  }

  ghost predicate RdbShows(db: Rdb, seen: set<int>) {
    && (forall k :: 0 <= k < BITS ==> (db.mask[k] <==> db.start + k in seen))
    && forall i :: i in seen ==> i < db.start + BITS
  }

  /** The accepted SRTCP indices stay shown exactly when the new one lies at most one place behind the window. */
  lemma RdbStepIff(db: Rdb, index: nat, seen: set<int>)
    requires RdbShows(db, seen) && RdbCheck(db, index) == Ok && RdbInReach(db, index)
    ensures RdbShows(RdbAdd(db, index), seen + {index}) <==> index <= db.start + BITS
  {
    var r, all := RdbAdd(db, index), seen + {index};
    if index < db.start + BITS {
      assert forall k :: 0 <= k < BITS ==> (r.mask[k] <==> r.start + k in all);
    } else {
      var d := index - db.start - (BITS - 1);
      assert r.start + (BITS - 1) == index;
      if d == 1 {
        forall k | 0 <= k < BITS
          ensures r.mask[k] <==> r.start + k in all
        {
          if k < BITS - 1 {
            assert r.mask[k] == db.mask[k + 1];
          }
        }
      } else {
        assert !r.mask[BITS - 1];
      }
    }
  }

  /** An index that jumps further is not recorded, and would be accepted again. */
  lemma FarIndexIsNotRecorded(db: Rdb, index: nat)
    requires RdbInReach(db, index) && index > db.start + BITS
    ensures RdbCheck(RdbAdd(db, index), index) == Ok
  {
  }

  /** The window after the indices 1 to `n` were added in order. */
  ghost function InOrder(n: nat): (db: Rdb)
    ensures db.start <= n < db.start + BITS
  {
    if n == 0 then RdbInit()
    else
      var db := InOrder(n - 1);
      RdbAdd(db, n)
  }

  ghost function UpTo(n: nat): set<int> {
    if n == 0 then {} else UpTo(n - 1) + {n}
  }

  lemma {:induction false} UpToMembers(n: nat, i: int)
    ensures i in UpTo(n) <==> 1 <= i <= n
  {
    if n > 0 {
      UpToMembers(n - 1, i);
    }
  }

  lemma {:induction false} InOrderShows(n: nat)
    ensures RdbShows(InOrder(n), UpTo(n)) && RdbCheck(InOrder(n), n + 1) == Ok && RdbInReach(InOrder(n), n + 1)
  {
    hide RdbAdd, RdbShows, UpTo;
    if n == 0 {
      EmptyShows();
    } else {
      InOrderShows(n - 1);
      RdbStepIff(InOrder(n - 1), n, UpTo(n - 1));
      UpToStep(n);
    }
    NextAdmitted(InOrder(n), n);
  }

  lemma EmptyShows()
    ensures RdbShows(RdbInit(), UpTo(0))
  {
  }

  lemma UpToStep(n: nat)
    requires n > 0
    ensures UpTo(n - 1) + {n} == UpTo(n)
  {
  }

  lemma NextAdmitted(db: Rdb, n: nat)
    requires RdbShows(db, UpTo(n)) && db.start <= n < db.start + BITS
    ensures RdbCheck(db, n + 1) == Ok && RdbInReach(db, n + 1)
  {
    if n + 1 < db.start + BITS {
      UpToMembers(n, n + 1);
      assert db.mask[n + 1 - db.start] <==> db.start + (n + 1 - db.start) in UpTo(n);
    }
  }
}
