/** The streaming MD5 object of libSRPP: 32-bit words, a 64-octet buffer and a two-word bit counter. */
module Md5 {
  import opened Octets
  import opened BlockFold
  import opened Md5Spec

  const BLOCK := 64

  // ---------------------------------------------------------------- the bit counter

  /** The two-word counter after `n` octets. */
  ghost predicate CountsBits(lo: u32, hi: u32, n: nat) {
    lo + WORD_MOD * hi == (8 * n) % (WORD_MOD * WORD_MOD)
  }

  lemma CounterWords(lo: u32, hi: u32, n: nat)
    requires CountsBits(lo, hi, n)
    ensures lo == (8 * n) % WORD_MOD && hi == (8 * n) / WORD_MOD % WORD_MOD
  {
  }

  lemma CounterIndex(lo: u32, hi: u32, n: nat)
    requires CountsBits(lo, hi, n)
    ensures lo / 8 % 64 == n % 64
  {
    CounterWords(lo, hi, n);
    var a := (8 * n) / WORD_MOD;
    assert 8 * n == a * WORD_MOD + lo;
    assert lo == 8 * (n - a * 0x2000_0000);
    LowSixBits(n, a, lo / 8);
  }

  lemma LowSixBits(n: nat, a: nat, k: nat)
    requires n == a * 0x2000_0000 + k
    ensures n % 64 == k % 64
  {
  }

  /** The code's test for a carry out of the low word. */
  lemma CarryTest(lo: u32, bits: u32)
    ensures (lo + bits) / WORD_MOD == (if (lo + bits) % WORD_MOD < bits then 1 else 0)
  {
  }

  lemma LengthBits(length: u32)
    ensures 8 * length == (length / 0x2000_0000) * WORD_MOD + (length * 8) % WORD_MOD
  {
  }

  /** Adding `length` octets: the shifted low word with its carry, and the bits above it. */
  lemma CounterStep(lo: u32, hi: u32, n: nat, length: u32)
    requires CountsBits(lo, hi, n)
    ensures var bits := (length * 8) % WORD_MOD;
            var lo' := (lo + bits) % WORD_MOD;
            var carried := if lo' < bits then (hi + 1) % WORD_MOD else hi;
            CountsBits(lo', (carried + length / 0x2000_0000) % WORD_MOD, n + length)
  {
    var bits, top := (length * 8) % WORD_MOD, length / 0x2000_0000;
    LengthBits(length);
    CarryTest(lo, bits);
    var c, lo' := (lo + bits) / WORD_MOD, (lo + bits) % WORD_MOD;
    var q := (8 * n) / (WORD_MOD * WORD_MOD);
    assert 8 * n == q * WORD_MOD * WORD_MOD + hi * WORD_MOD + lo;
    assert 8 * (n + length) == q * WORD_MOD * WORD_MOD + (hi + c + top) * WORD_MOD + lo';
    HighWord(q, hi + c + top, lo');
    WrapTwice(hi + c, top);
  }

  lemma WrapTwice(a: nat, b: nat)
    ensures (a % WORD_MOD + b) % WORD_MOD == (a + b) % WORD_MOD
  {
  }

  lemma HighWord(q: nat, h: nat, lo: u32)
    ensures (q * WORD_MOD * WORD_MOD + h * WORD_MOD + lo) % (WORD_MOD * WORD_MOD) == (h % WORD_MOD) * WORD_MOD + lo
  {
    var t := h / WORD_MOD;
    assert h == t * WORD_MOD + h % WORD_MOD;
    assert q * WORD_MOD * WORD_MOD + h * WORD_MOD + lo
           == (q + t) * (WORD_MOD * WORD_MOD) + ((h % WORD_MOD) * WORD_MOD + lo);
  }

  // ---------------------------------------------------------------- the object

  lemma Regroup(fed: seq<bv8>, held: seq<bv8>, input: seq<bv8>, a: nat, i: nat)
    requires a <= i <= |input|
    ensures (fed + held) + input == fed + (held + input[..a]) + input[a..i] + input[i..]
  {
  }

  class MD5 {
    var finalized: bool
    const buffer: array<bv8>
    var countLo: u32
    var countHi: u32
    var state: State
    var digest: seq<bv8>

    /** All octets given to update so far, and those already given to transform, in order. */
    ghost var message: seq<bv8>
    ghost var fed: seq<bv8>

    ghost predicate Valid()
      reads this, buffer
    {
      && buffer.Length == BLOCK
      && CountsBits(countLo, countHi, |message|)
      && |fed| % 64 == 0 && |fed| <= |message| < |fed| + 64
      && state == Absorb(InitState(), fed)
      && message == fed + buffer[..|message| - |fed|]
    }

    constructor ()
      ensures Valid() && fresh(buffer) && !finalized && message == []
    {
      finalized := false;
      countLo, countHi := 0, 0;
      state := InitState();
      digest := [];
      buffer := new bv8[BLOCK];
      message, fed := [], [];
    }

    method Transform(block: seq<bv8>)
      requires |block| == 64 && |fed| % 64 == 0 && state == Absorb(InitState(), fed)
      modifies this`state, this`fed
      ensures fed == old(fed) + block && |fed| % 64 == 0 && state == Absorb(InitState(), fed)
    {
      hide Compress;
      FoldBlock(Compression, InitState(), fed, block);
      state := Compress(state, block);
      fed := fed + block;
    }

    /** Copies `data` into the buffer from `at` on. */
    method Store(at: nat, data: seq<bv8>)
      requires at + |data| <= buffer.Length
      modifies buffer
      ensures buffer[..at + |data|] == old(buffer[..at]) + data
    {
      for i := 0 to |data|
        invariant buffer[..at + i] == old(buffer[..at]) + data[..i]
      {
        buffer[at + i] := data[i];
      }
    }

    method AddToCount(length: u32, ghost n: nat)
      requires CountsBits(countLo, countHi, n)
      modifies this`countLo, this`countHi
      ensures CountsBits(countLo, countHi, n + length)
    {
      CounterStep(countLo, countHi, n, length);
      var bits := (length * 8) % WORD_MOD;
      countLo := (countLo + bits) % WORD_MOD;
      if countLo < bits {
        countHi := (countHi + 1) % WORD_MOD;
      }
      countHi := (countHi + length / 0x2000_0000) % WORD_MOD;
    }

    /** Transforms the complete blocks of `input` from `from` on. */
    method TransformBlocks(input: seq<bv8>, from: nat) returns (i: nat)
      requires from <= |input| && |fed| % 64 == 0 && state == Absorb(InitState(), fed)
      modifies this`state, this`fed
      ensures from <= i <= |input| < i + BLOCK && |fed| % 64 == 0
      ensures fed == old(fed) + input[from..i] && state == Absorb(InitState(), fed)
    {
      hide Absorb;
      i := from;
      while i + BLOCK <= |input|
        invariant from <= i <= |input| && |fed| % 64 == 0
        invariant fed == old(fed) + input[from..i] && state == Absorb(InitState(), fed)
        decreases |input| - i
      {
        Transform(input[i..i + BLOCK]);
        assert input[from..i + BLOCK] == input[from..i] + input[i..i + BLOCK];
        i := i + BLOCK;
      }
    }

    /** The buffer and the blocks of an update, for a buffer that holds `index` octets. */
    method Distribute(input: seq<bv8>, index: nat)
      requires buffer.Length == BLOCK && index < BLOCK && |fed| % 64 == 0 && state == Absorb(InitState(), fed)
      modifies this`state, this`fed, buffer
      ensures |fed| % 64 == 0 && state == Absorb(InitState(), fed)
      ensures var n := |old(fed)| + index + |input| - |fed|;
              0 <= n < 64 && old(fed + buffer[..index]) + input == fed + buffer[..n]
    {
      hide Absorb;
      var firstPart := BLOCK - index;
      if |input| >= firstPart {
        ghost var held := buffer[..index];
        Store(index, input[..firstPart]);
        assert buffer[..] == held + input[..firstPart];
        Transform(buffer[..]);
        var i := TransformBlocks(input, firstPart);
        Store(0, input[i..]);
        Regroup(old(fed), held, input, firstPart, i);
        assert buffer[..|input| - i] == input[i..];
      } else {
        Store(index, input);
      }
    }

    method Update(input: seq<bv8>)
      requires Valid() && |input| < WORD_MOD - BLOCK
      modifies this`countLo, this`countHi, this`state, this`message, this`fed, buffer
      ensures Valid() && message == old(message) + input
    {
      hide Absorb, CountsBits;
      var index := countLo / 8 % BLOCK;
      CounterIndex(countLo, countHi, |message|);
      RestOfBlocks(|message|, |fed|);
      AddToCount(|input|, |message|);
      Distribute(input, index);
      message := message + input;
    }

    /**
     * Pads, appends the bit count and writes the digest, once. The octets given to transform are then
     * exactly the padded message.
     */
    method Finalize()
      requires !finalized ==> Valid()
      modifies this, buffer
      ensures finalized
      ensures !old(finalized) ==> digest == Digest(old(message)) && fed == Padded(old(message))
      ensures old(finalized) ==> digest == old(digest)
    {
      hide Absorb, Encode, Padded;
      if !finalized {
        PadAndCount();
        digest := Encode(state);
        forall i | 0 <= i < buffer.Length {
          buffer[i] := 0;
        }
        countLo, countHi := 0, 0;
        finalized := true;
      }
    }

    /** Updates with the fill and the bit count, after which nothing is left in the buffer. */
    method PadAndCount()
      requires Valid()
      modifies this`countLo, this`countHi, this`state, this`message, this`fed, buffer
      ensures fed == Padded(old(message)) && state == Absorb(InitState(), fed)
    {
      hide Absorb, CountsBits;
      var bits := WordOctets(countLo) + WordOctets(countHi);
      var index := countLo / 8 % BLOCK;
      var padLen := if index < 56 then 56 - index else 120 - index;
      CounterWords(countLo, countHi, |message|);
      CounterIndex(countLo, countHi, |message|);
      ghost var m := message;
      assert bits == BitCount(|m|);
      var padding := [0x80] + Zeros(63);
      assert padding[..padLen] == Fill(|m|);
      Update(padding[..padLen]);
      Update(bits);
      FillCompletes(|m|);
      RestOfBlocks(|message|, |fed|);
      assert message == Padded(m) == fed;
    }
  }
}
