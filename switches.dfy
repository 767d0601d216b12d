/** Sampling the eight DIP switches through the A/D converter (ReadSwitch in
    main.cpp). The converter itself is not modelled: its eight 16-bit result
    registers arrive as an array indexed by A/D channel. */
module Switches {

  /** A 16-bit A/D result register value (WORD). */
  newtype Word = x: int | 0 <= x < 0x1_0000

  /** NUM_SWITCHES */
  const NumSwitches: nat := 8

  /** Logical switch i is wired to A/D channel PinNumber[i]. */
  const PinNumber: seq<nat> := [7, 6, 5, 3, 4, 1, 0, 2]

  /** The inverse table: A/D channel c decides switch SwitchOfChannel[c]. */
  const SwitchOfChannel: seq<nat> := [6, 5, 7, 3, 4, 2, 1, 0]

  /** A reading above half of the positive 16-bit range (0x7FFF / 2, integer
      division) counts as logic high. */
  const Threshold: int := 0x7FFF / 2

  predicate IsHigh(reading: Word) {
    reading as int > Threshold
  }

  /** Is bit i of the byte m set? */
  predicate BitSet(m: bv8, i: nat)
    requires i < 8
  {
    m & (1 << i) != 0
  }

  /** The logic level that decides switch bit i, for every i. */
  function Levels(readings: seq<Word>): seq<bool>
    requires |readings| == NumSwitches
  {
    seq(NumSwitches, i requires 0 <= i < NumSwitches => IsHigh(readings[PinNumber[i]]))
  }

  /** The byte whose bit i is bits[i] (bits beyond |bits| are clear). */
  function MaskOf(bits: seq<bool>): (m: bv8)
    requires |bits| <= 8
    ensures forall i :: 0 <= i < 8 ==> (BitSet(m, i) <==> i < |bits| && bits[i])
  {
    if bits == [] then 0
    else
      var n := |bits| - 1;
      var low := MaskOf(bits[..n]);
      SetBit(low, n, bits[n]);
      assert forall i :: 0 <= i < 8 ==> (BitSet(low, i) <==> i < n && bits[i]);
      WithBit(low, n, bits[n])
  }

  /** m with bit n or-ed in when b holds. */
  function WithBit(m: bv8, n: nat, b: bool): bv8
    requires n < 8
  {
    m | (if b then (1 as bv8) << n else 0)
  }

  /** Or-ing in bit n (when b) sets bit n and leaves the other bits alone. */
  lemma SetBit(low: bv8, n: nat, b: bool)
    requires n < 8
    ensures forall i :: 0 <= i < 8 ==> (BitSet(WithBit(low, n, b), i) <==> BitSet(low, i) || (b && i == n))
  {
    forall i | 0 <= i < 8
      ensures BitSet(WithBit(low, n, b), i) <==> BitSet(low, i) || (b && i == n)
    {
      OrBit(low, if b then (1 as bv8) << n else 0, i);
      SingleBit(n, i);
    }
  }

  lemma OrBit(a: bv8, b: bv8, i: nat)
    requires i < 8
    ensures BitSet(a | b, i) <==> BitSet(a, i) || BitSet(b, i)
  {
  }

  lemma SingleBit(n: nat, i: nat)
    requires n < 8 && i < 8
    ensures BitSet((1 as bv8) << n, i) <==> i == n
    ensures !BitSet(0, i)
  {
  }

  /** The byte ReadSwitch is meant to return for the given readings. */
  function SwitchMask(readings: seq<Word>): bv8
    requires |readings| == NumSwitches
  {
    MaskOf(Levels(readings))
  }

  /** Two bytes that agree on all eight bits are equal. */
  lemma MaskDeterminedByBits(a: bv8, b: bv8)
    requires forall i :: 0 <= i < 8 ==> (BitSet(a, i) <==> BitSet(b, i))
    ensures a == b
  {
    assert BitSet(a, 0) == BitSet(b, 0) && BitSet(a, 1) == BitSet(b, 1);
    assert BitSet(a, 2) == BitSet(b, 2) && BitSet(a, 3) == BitSet(b, 3);
    assert BitSet(a, 4) == BitSet(b, 4) && BitSet(a, 5) == BitSet(b, 5);
    assert BitSet(a, 6) == BitSet(b, 6) && BitSet(a, 7) == BitSet(b, 7);
  }

  /** SwitchMask is the only byte with the threshold/bit correspondence. */
  lemma SwitchMaskUnique(readings: seq<Word>, m: bv8)
    requires |readings| == NumSwitches
    requires forall i :: 0 <= i < NumSwitches ==> (BitSet(m, i) <==> IsHigh(readings[PinNumber[i]]))
    ensures m == SwitchMask(readings)
  {
    MaskDeterminedByBits(m, SwitchMask(readings));
  }

  /** PinNumber is a permutation of the channels 0..7 and SwitchOfChannel is
      its inverse, so every A/D channel decides exactly one switch bit. */
  lemma PinNumberIsPermutation()
    ensures |PinNumber| == NumSwitches && |SwitchOfChannel| == NumSwitches
    ensures forall i :: 0 <= i < NumSwitches ==>
      PinNumber[i] < NumSwitches && SwitchOfChannel[PinNumber[i]] == i
    ensures forall c :: 0 <= c < NumSwitches ==>
      SwitchOfChannel[c] < NumSwitches && PinNumber[SwitchOfChannel[c]] == c
    ensures forall i, j :: 0 <= i < j < NumSwitches ==> PinNumber[i] != PinNumber[j]
  {
  }

  /** Changing the reading of one channel c can change bit SwitchOfChannel[c]
      of the mask and no other bit. */
  lemma ChannelDecidesOneBit(r1: seq<Word>, r2: seq<Word>, c: nat)
    requires |r1| == NumSwitches && |r2| == NumSwitches && c < NumSwitches
    requires forall k :: 0 <= k < NumSwitches && k != c ==> r1[k] == r2[k]
    ensures forall i :: 0 <= i < NumSwitches && i != SwitchOfChannel[c] ==>
      (BitSet(SwitchMask(r1), i) <==> BitSet(SwitchMask(r2), i))
    ensures BitSet(SwitchMask(r1), SwitchOfChannel[c]) <==> IsHigh(r1[c])
  {
    PinNumberIsPermutation();
  }

  /** The loop guard BitPos < 256 holds exactly for the bit positions 0..7. */
  lemma BitPosBound(i: nat)
    requires i <= 8
    ensures ((1 as bv32) << i < 256) <==> i < 8
    ensures i < 8 ==> ((0xFF & ((1 as bv32) << i)) as bv8) == (1 as bv8) << i
  {
  }

  /** Shifting BitPos moves it to the next bit position. */
  lemma ShiftStep(i: nat)
    requires i < 8
    ensures ((1 as bv32) << i) << 1 == (1 as bv32) << (i + 1)
  {
  }

  /** One pass of the loop adds bit i of the mask exactly when b holds. */
  lemma OrBitPos(m: bv8, i: nat, bitPos: bv32, b: bool)
    requires i < 8 && bitPos == (1 as bv32) << i
    ensures (if b then m | ((0xFF & bitPos) as bv8) else m) == WithBit(m, i, b)
  {
    BitPosBound(i);
  }

  /** ReadSwitch: switch i's bit is set exactly when the reading of channel
      PinNumber[i] is above the threshold; readings[c] is the result
      register of channel c, sampled after a completed conversion. */
  method ReadSwitch(readings: array<Word>) returns (bitMask: bv8)
    requires readings.Length == NumSwitches
    ensures forall i :: 0 <= i < NumSwitches ==>
      (BitSet(bitMask, i) <==> readings[PinNumber[i]] as int > Threshold)
    ensures bitMask == SwitchMask(readings[..])
  {
    ghost var levels := Levels(readings[..]);
    bitMask := 0;
    var bitPos: bv32 := 0x01;
    var i: nat := 0;
    while bitPos < 256
      invariant i <= 8
      invariant bitPos == (1 as bv32) << i
      invariant bitMask == MaskOf(levels[..i])
      decreases 8 - i
    {
      BitPosBound(i);
      OrBitPos(bitMask, i, bitPos, levels[i]);
      ShiftStep(i);
      assert levels[..i + 1][..i] == levels[..i];
      if readings[PinNumber[i]] as int > Threshold {
        bitMask := bitMask | ((0xFF & bitPos) as bv8);
      }
      bitPos := bitPos << 1;
      i := i + 1;
    }
    BitPosBound(i);
    assert levels[..i] == levels;
  }
}
