/**
 * Padding of SRPP packets: the cache of dummy packets and the sizes the padding algorithms choose. Only lengths
 * are modelled; every random number is an input.
 */
module Padding {
  import opened Octets
  import opened Wrappers
  import opened SrppCodec

  const CACHE_SIZE := 100
  const CACHE_USED := 99
  const FULL_SIZE := 1366

  function Abs(n: int): nat {
    if n < 0 then -n else n
  }

  /** The random number between `min` and `max`, as it is drawn from `r`: the range is `max` numbers from `min` on. */
  function Rand(min: int, max: int, r: nat): (x: int)
    ensures if max == 0 then x == 0 else min <= x < min + Abs(max)
  {
    if max == 0 then 0 else r % Abs(max) + min
  }

  datatype Entry = Entry(payload: nat, padding: nat)

  datatype Modes = Modes(fullBandwidth: bool, gradualAscent: bool, burst: bool, smallPerturbation: bool)

  /** How single precision rounds: it keeps order, and whole numbers of up to 24 bits. */
  ghost predicate Rounding(f: real -> real) {
    && (forall x, y :: x <= y ==> f(x) <= f(y))
    && (forall n :: n <= 0x100_0000 ==> f(Whole(n)) == Whole(n))
  }

  function Whole(n: nat): real {
    n as real
  }

  /** The raised maximum of the gradual ascent: the payload scaled by the quotient of two random numbers, cut to a whole. */
  function Raised(payload: u16, r1: nat, r2: nat, f: real -> real): (x: nat)
    requires payload > 0 && Rounding(f)
    ensures x >= payload
  {
    var l := Rand(payload, FULL_SIZE, r1);
    var m := Rand(l, FULL_SIZE, r2);
    ScaledUp(payload, m, l, f);
    f(Whole(payload) * f(Whole(m) / Whole(l))).Floor
  }

  lemma ScaledUp(payload: u16, m: nat, l: nat, f: real -> real)
    requires 0 < l <= m && Rounding(f)
    ensures f(Whole(payload) * f(Whole(m) / Whole(l))) >= Whole(payload)
  {
    hide Rounding;
    AtLeastOne(Whole(m), Whole(l));
    RoundsUp(f, 1, Whole(m) / Whole(l));
    Scales(Whole(payload), f(Whole(m) / Whole(l)));
    RoundsUp(f, payload, Whole(payload) * f(Whole(m) / Whole(l)));
  }

  lemma RoundsUp(f: real -> real, n: nat, x: real)
    requires Rounding(f) && n <= 0x100_0000 && Whole(n) <= x
    ensures f(x) >= Whole(n)
  {
    assert f(Whole(n)) == Whole(n);
  }

  lemma AtLeastOne(x: real, y: real)
    requires 0.0 < y <= x
    ensures x / y >= 1.0
  {
  }

  lemma Scales(x: real, r: real)
    requires x >= 0.0 && r >= 1.0
    ensures x * r >= x
  {
  }

  class PaddingFunctions {
    const cache: array<Entry>
    var lastMax: int
    var modes: Modes

    /** Every entry that can be drawn has a payload, and the maximum never lies below its first value. */
    ghost predicate Valid()
      reads this, cache
    {
      cache.Length == CACHE_SIZE && lastMax >= 100 && forall i :: 0 <= i < CACHE_USED ==> cache[i].payload > 0
    }

    constructor (maxPacketSize: nat, random: nat -> nat)
      requires maxPacketSize > 0
      ensures Valid() && fresh(cache) && modes == Modes(false, false, false, false) && lastMax == 100
    {
      var c := new Entry[CACHE_SIZE](_ => Entry(0, 0));
      for i := 0 to CACHE_USED
        invariant forall j :: 0 <= j < i ==> c[j].payload > 0
      {
        c[i] := Entry(Rand(1, maxPacketSize, random(i)), 0);
      }
      cache, lastMax, modes := c, 100, Modes(false, false, false, false);
    }

    /** Copies one entry again and again until the size is reached. */
    method GenerateDummyData(size: int, r: nat) returns (length: nat)
      requires Valid()
      ensures length == if size > 0 then size else 0
    {
      var entry := cache[Rand(0, CACHE_USED, r)];
      length := 0;
      while length < size
        invariant 0 <= length && (length <= size || length == 0)
        decreases size - length
      {
        var step := entry.payload;
        if step > size - length {
          step := size - length;
        }
        length := length + step;
      }
    }

    /** A dummy packet of at most `size` octets; the entry in the cache is cut with it. */
    method GenerateDummyPkt(size: int, r: nat) returns (entry: Entry)
      requires Valid() && size > 0
      modifies cache
      ensures Valid() && entry.payload > 0 && entry.payload + entry.padding <= size
    {
      var i := Rand(0, CACHE_USED, r);
      var e := cache[i];
      if e.payload > size {
        e := Entry(size, 0);
      } else if e.padding > size - e.payload {
        e := e.(padding := size - e.payload);
      }
      cache[i] := e;
      entry := e;
    }

    method AddToDummyCache(message: Entry, r1: nat, r2: nat)
      requires Valid()
      modifies cache
      ensures Valid()
    {
      var size := Rand(1, 500, r2);
      var payload := if message.payload < size then size else message.payload;
      cache[Rand(0, CACHE_USED, r1)] := message.(payload := payload);
    }

    /** The size of the padding for a payload. */
    method PacketSizePadding(payload: u16, f: real -> real, random: nat -> nat) returns (padding: nat)
      requires Valid() && Rounding(f)
      modifies this`lastMax
      ensures Valid() && lastMax >= old(lastMax)
      ensures modes == Modes(true, false, false, false) ==>
        padding == (if payload < FULL_SIZE then FULL_SIZE - payload else 0) && lastMax == old(lastMax)
      ensures modes.smallPerturbation || modes.burst ==> padding < 10
      ensures modes.gradualAscent && !modes.smallPerturbation && !modes.burst ==>
        payload <= lastMax && (if payload < lastMax then 1 <= padding <= lastMax - payload else padding == 0)
    {
      var extra := FULL_SIZE - payload;
      if !modes.fullBandwidth {
        extra := Rand(1, extra, random(0));
      }
      if modes.gradualAscent {
        if lastMax < payload {
          lastMax := Raised(payload, random(1), random(2), f);
        }
        extra := Rand(1, lastMax - payload, random(3));
      }
      if modes.smallPerturbation || modes.burst {
        extra := Rand(0, 10, random(4));
      }
      padding := GenerateDummyData(extra, random(5));
    }

    /** Pads a message, and may put a copy of it into the cache. */
    method Pad(payload: u16, f: real -> real, random: nat -> nat) returns (padding: nat)
      requires Valid() && Rounding(f)
      modifies this`lastMax, cache
      ensures Valid() && lastMax >= old(lastMax)
      ensures modes == Modes(true, false, false, false) ==>
        padding == if payload < FULL_SIZE then FULL_SIZE - payload else 0
    {
      padding := PacketSizePadding(payload, f, random);
      if Rand(0, 10, random(6)) <= 5 {
        AddToDummyCache(Entry(payload, padding), random(7), random(8));
      }
    }

    /** A burst of dummies, each of a size between 100 and the maximum above it. */
    method CurrentBurstPadding(random: nat -> nat) returns (sizes: seq<nat>)
      requires Valid()
      modifies cache
      ensures Valid() && |sizes| <= 2 && (!modes.burst ==> sizes == [])
      ensures forall i :: 0 <= i < |sizes| ==> 0 < sizes[i] < 100 + lastMax
    {
      sizes := [];
      if !modes.burst {
        return;
      }
      var dummies := Rand(0, 3, random(0));
      for i := 0 to dummies
        invariant Valid() && |sizes| == i
        invariant forall j :: 0 <= j < |sizes| ==> 0 < sizes[j] < 100 + lastMax
      {
        var size := Rand(100, lastMax, random(2 * i + 1));
        var entry := GenerateDummyPkt(size, random(2 * i + 2));
        sizes := sizes + [entry.payload + entry.padding];
      }
    }
  }

  // ---------------------------------------------------------------- full bandwidth on the wire

  function FullPadding(payload: nat): nat {
    if payload < FULL_SIZE then FULL_SIZE - payload else 0
  }

  /** With full-bandwidth padding every payload of up to 1366 octets, and no longer one, has the same size on the wire. */
  lemma FullBandwidthIsConstantIff(m: Message)
    requires |m.padding| == FullPadding(|m.payload|)
    ensures Size(m) == HEADER + FULL_SIZE + TRAILER <==> |m.payload| <= FULL_SIZE
  {
  }

  /**
   * A fully padded message comes back exactly when its payload is shorter than 1366 octets and has no zero before
   * its last octet once encrypted: the longest payload of constant size leaves no room for padding, and is lost.
   */
  lemma FullBandwidthRestoredIff(m: Message, key: u16, mask: nat, random: seq<u8>)
    requires Media(m) && |random| == 60 && |m.padding| == FullPadding(|m.payload|)
    ensures Sendable(Sealed(m, key, mask), key) && Size(Sealed(m, key, mask)) == Size(m)
    ensures
      (forall before: seq<u8> | |before| == Size(m) ::
         Restored(m, FromWire(OnWire(Sealed(m, key, mask), key, random, before), key), key))
      <==> |m.payload| < FULL_SIZE && CopiesWhole(Sealed(m, key, mask).payload)
  {
    hide OnWire, FromWire, Restored, Sealed, CopiesWhole, Sendable;
    MediaRestoredIff(m, key, mask, random);
  }
}
