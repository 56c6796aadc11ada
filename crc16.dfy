/**
 * The frame checksum of controller.py: the byte-wise CRC-16 recurrence used by
 * `Message.calculate_crc16` (lines 11-22) and by the response check (lines 75-83).
 * Its check value for "123456789" is 0x31C3, that of CRC-16/XMODEM (polynomial
 * 0x1021, initial state 0, no reflection, no final XOR); that the two agree on
 * every input is not proved here.
 */
module Crc16 {
  import opened Bytes

  // One byte of the recurrence, operation by operation (controller.py lines 16-20).
  // The 16-bit versions mask after every operation, as bv16 arithmetic does.

  function Rotate16(n: bv16): bv16 { (n << 8) | (n >> 8) }
  function AddByte16(n: bv16, b: byte): bv16 { n ^ (b as bv16) }
  function Fold16(n: bv16): bv16 { n ^ ((n & 0xff) >> 4) }
  function Spread16(n: bv16): bv16 { n ^ (n << 12) }
  function LowShift16(n: bv16): bv16 { n ^ ((n & 0xff) << 5) }

  /** One byte of the recurrence on a 16-bit state. */
  function Step(crc: bv16, b: byte): bv16
  {
    LowShift16(Spread16(Fold16(AddByte16(Rotate16(crc), b))))
  }

  /** The checksum of a byte string: the recurrence run from state 0 over every byte in order. */
  function Crc(s: seq<byte>): bv16
  {
    if s == [] then 0 else Step(Crc(s[..|s| - 1]), s[|s| - 1])
  }

  /** `crc.to_bytes(2, byteorder='big')`: the two checksum bytes, most significant first. */
  function ToBytes(crc: bv16): (r: seq<byte>)
    ensures |r| == 2
    ensures ((r[0] as bv16) << 8) | (r[1] as bv16) == crc
  {
    [(crc >> 8) as byte, (crc & 0xff) as byte]
  }

  // ---------------------------------------------------------------------------
  // The source runs the recurrence on Python's unbounded integers and masks only
  // once per byte (line 21). A 40-bit state holds every intermediate value
  // exactly: from a state below 2^16 the rotation stays below 2^24 and the shift
  // by 12 below 2^36 (WideStepBounded). Each wide operation keeps the low 16 bits
  // in step with the 16-bit one, so one mask at the end gives the 16-bit result.

  function Rotate(w: bv40): bv40 { (w << 8) | (w >> 8) }
  function AddByte(w: bv40, b: byte): bv40 { w ^ (b as bv40) }
  function Fold(w: bv40): bv40 { w ^ ((w & 0xff) >> 4) }
  function Spread(w: bv40): bv40 { w ^ (w << 12) }
  function LowShift(w: bv40): bv40 { w ^ ((w & 0xff) << 5) }

  /** Lines 16-20 on the wide state, before the mask of line 21. */
  function WideStep(w: bv40, b: byte): bv40
  {
    LowShift(Spread(Fold(AddByte(Rotate(w), b))))
  }

  /** The low 16 bits of a wide state `w` are the 16-bit state `n`. */
  predicate LowAgree(w: bv40, n: bv16)
  {
    w & 0xffff == n as bv40
  }

  // Each agreement is first stated on the bit expressions themselves, which the
  // solver settles without unfolding any definition.

  lemma RotateBits(w: bv40, n: bv16)
    requires w == n as bv40
    ensures ((w << 8) | (w >> 8)) & 0xffff == ((n << 8) | (n >> 8)) as bv40
  {
  }

  lemma AddByteBits(w: bv40, n: bv16, b: byte)
    requires w & 0xffff == n as bv40
    ensures (w ^ (b as bv40)) & 0xffff == (n ^ (b as bv16)) as bv40
  {
  }

  lemma FoldBits(w: bv40, n: bv16)
    requires w & 0xffff == n as bv40
    ensures (w ^ ((w & 0xff) >> 4)) & 0xffff == (n ^ ((n & 0xff) >> 4)) as bv40
  {
  }

  lemma SpreadBits(w: bv40, n: bv16)
    requires w & 0xffff == n as bv40
    ensures (w ^ (w << 12)) & 0xffff == (n ^ (n << 12)) as bv40
  {
  }

  lemma LowShiftBits(w: bv40, n: bv16)
    requires w & 0xffff == n as bv40
    ensures (w ^ ((w & 0xff) << 5)) & 0xffff == (n ^ ((n & 0xff) << 5)) as bv40
  {
  }

  /** Line 16: rotating the wide state keeps its low 16 bits those of the 16-bit rotation. */
  lemma RotateAgrees(w: bv40, n: bv16)
    requires w == n as bv40
    ensures LowAgree(Rotate(w), Rotate16(n))
  {
    RotateBits(w, n);
  }

  /** Line 17. */
  lemma AddByteAgrees(w: bv40, n: bv16, b: byte)
    requires LowAgree(w, n)
    ensures LowAgree(AddByte(w, b), AddByte16(n, b))
  {
    AddByteBits(w, n, b);
  }

  /** Line 18. */
  lemma FoldAgrees(w: bv40, n: bv16)
    requires LowAgree(w, n)
    ensures LowAgree(Fold(w), Fold16(n))
  {
    FoldBits(w, n);
  }

  /** Line 19: the bits shifted past bit 15 never come back into the low half. */
  lemma SpreadAgrees(w: bv40, n: bv16)
    requires LowAgree(w, n)
    ensures LowAgree(Spread(w), Spread16(n))
  {
    SpreadBits(w, n);
  }

  /** Line 20. */
  lemma LowShiftAgrees(w: bv40, n: bv16)
    requires LowAgree(w, n)
    ensures LowAgree(LowShift(w), LowShift16(n))
  {
    LowShiftBits(w, n);
  }

  /** Lines 16-17: rotation and the new byte. */
  lemma MixAgrees(w: bv40, n: bv16, b: byte)
    requires w == n as bv40
    ensures LowAgree(AddByte(Rotate(w), b), AddByte16(Rotate16(n), b))
  {
    RotateAgrees(w, n);
    AddByteAgrees(Rotate(w), Rotate16(n), b);
  }

  /** Lines 18-20: the three XOR/shift operations. */
  lemma ScrambleAgrees(w: bv40, n: bv16)
    requires LowAgree(w, n)
    ensures LowAgree(LowShift(Spread(Fold(w))), LowShift16(Spread16(Fold16(n))))
  {
    FoldAgrees(w, n);
    SpreadAgrees(Fold(w), Fold16(n));
    LowShiftAgrees(Spread(Fold(w)), Spread16(Fold16(n)));
  }

  /** Masking once per byte gives the 16-bit recurrence masked after every operation. */
  lemma WideStepAgrees(w: bv40, n: bv16, b: byte)
    requires w == n as bv40
    ensures LowAgree(WideStep(w, b), Step(n, b))
  {
    MixAgrees(w, n, b);
    ScrambleAgrees(AddByte(Rotate(w), b), AddByte16(Rotate16(n), b));
  }

  /** Python keeps every bit: no intermediate value of lines 16-20 reaches 2^36. */
  lemma WideStepBounded(w: bv40, b: byte)
    requires w <= 0xffff
    ensures Rotate(w) < 0x100_0000
    ensures Fold(AddByte(Rotate(w), b)) < 0x100_0000
    ensures WideStep(w, b) < 0x10_0000_0000
  {
  }

  /**
   * The loop body of `calculate_crc16` (lines 16-21) and of the response check
   * (lines 77-82), one statement per line of the source. Between bytes the state
   * is below 2^16 (line 21 masks it), and by WideStepAgrees masking after every
   * operation gives what Python's single mask gives, so the state is kept in 16 bits.
   */
  method UpdateCrc(crc: bv16, b: byte) returns (next: bv16)
    ensures next == Step(crc, b)
  {
    next := Rotate16(crc);
    next := AddByte16(next, b);
    next := Fold16(next);
    next := Spread16(next);
    next := LowShift16(next);
  }

  // ---------------------------------------------------------------------------
  // Acceptance: running the recurrence over a string followed by its own
  // checksum (most significant byte first) ends in state 0.

  lemma StepTwiceClears(crc: bv16)
    ensures Step(Step(crc, (crc >> 8) as byte), (crc & 0xff) as byte) == 0
  {
  }

  /** Appending one byte advances the checksum by one step. */
  lemma CrcSnoc(s: seq<byte>, b: byte)
    ensures Crc(s + [b]) == Step(Crc(s), b)
  {
    assert (s + [b])[..|s + [b]| - 1] == s;
  }

  /** Appending two bytes advances the checksum by two steps. */
  lemma CrcTwoMore(s: seq<byte>, hi: byte, lo: byte)
    ensures Crc(s + [hi, lo]) == Step(Step(Crc(s), hi), lo)
  {
    assert s + [hi, lo] == (s + [hi]) + [lo];
    CrcSnoc(s, hi);
    CrcSnoc(s + [hi], lo);
  }

  /** The residue of an unaltered checksummed string is zero. */
  lemma {:induction false} ResidueZero(s: seq<byte>)
    ensures Crc(s + ToBytes(Crc(s))) == 0
  {
    var c := Crc(s);
    var hi, lo := (c >> 8) as byte, (c & 0xff) as byte;
    assert s + ToBytes(c) == (s + [hi]) + [lo];
    CrcSnoc(s, hi);
    CrcSnoc(s + [hi], lo);
    StepTwiceClears(c);
  }

  /** ToBytes loses nothing: equal checksums give equal byte pairs and back. */
  lemma ToBytesInjective(c: bv16, d: bv16)
    ensures ToBytes(c) == ToBytes(d) <==> c == d
  {
  }

  /** The checksum bytes are the only pair that brings the residue to zero. */
  lemma ChecksumUnique(c: bv16, hi: byte, lo: byte)
    ensures Step(Step(c, hi), lo) == 0 <==> hi == (c >> 8) as byte && lo == (c & 0xff) as byte
  {
  }

  /** Two bytes are the pair `ToBytes(c)` when they are its high and low byte. */
  lemma ToBytesPair(c: bv16, hi: byte, lo: byte)
    ensures [hi, lo] == ToBytes(c) <==> hi == (c >> 8) as byte && lo == (c & 0xff) as byte
  {
    var t := ToBytes(c);
    assert t[0] == (c >> 8) as byte && t[1] == (c & 0xff) as byte;
  }

  /** A string followed by two bytes passes the zero-residue test exactly when they are its checksum. */
  lemma {:induction false} ResidueZeroExactly(s: seq<byte>, hi: byte, lo: byte)
    ensures Crc(s + [hi, lo]) == 0 <==> [hi, lo] == ToBytes(Crc(s))
  {
    CrcTwoMore(s, hi, lo);
    ChecksumUnique(Crc(s), hi, lo);
    ToBytesPair(Crc(s), hi, lo);
  }

  // ---------------------------------------------------------------------------
  // Error detection: one step is a bijection in the byte and in the state, so a
  // difference anywhere survives to the end.

  // Each operation of lines 16-20 can be undone: the rotation, the XOR of the
  // byte and the two folds (lines 18-19) are their own inverses, and the shift
  // of line 20 is undone by XOR-ing its shifted low byte back in twice over.

  /** The inverse of line 20. */
  function Unshift16(n: bv16): bv16 { n ^ ((n & 0xff) << 5) ^ ((n & 0x7) << 10) }

  lemma RotateTwiceBits(x: bv16)
    ensures (((x << 8) | (x >> 8)) << 8) | (((x << 8) | (x >> 8)) >> 8) == x
  {
  }

  lemma FoldTwiceBits(x: bv16)
    ensures (x ^ ((x & 0xff) >> 4)) ^ (((x ^ ((x & 0xff) >> 4)) & 0xff) >> 4) == x
  {
  }

  lemma SpreadTwiceBits(x: bv16)
    ensures (x ^ (x << 12)) ^ ((x ^ (x << 12)) << 12) == x
  {
  }

  lemma UnshiftAfterBits(x: bv16)
    ensures var y := x ^ ((x & 0xff) << 5); y ^ ((y & 0xff) << 5) ^ ((y & 0x7) << 10) == x
  {
  }

  lemma UnshiftBeforeBits(y: bv16)
    ensures var x := y ^ ((y & 0xff) << 5) ^ ((y & 0x7) << 10); x ^ ((x & 0xff) << 5) == y
  {
  }

  /** Line 16 undone by itself. */
  lemma RotateTwice(x: bv16)
    ensures Rotate16(Rotate16(x)) == x
  {
    RotateTwiceBits(x);
  }

  /** Line 17 undone by itself. */
  lemma AddByteTwice(x: bv16, b: byte)
    ensures AddByte16(AddByte16(x, b), b) == x
  {
  }

  /** Line 18 undone by itself. */
  lemma FoldTwice(x: bv16)
    ensures Fold16(Fold16(x)) == x
  {
    FoldTwiceBits(x);
  }

  /** Line 19 undone by itself. */
  lemma SpreadTwice(x: bv16)
    ensures Spread16(Spread16(x)) == x
  {
    SpreadTwiceBits(x);
  }

  /** Line 20 and its inverse, in both orders. */
  lemma UnshiftLowShift(x: bv16)
    ensures Unshift16(LowShift16(x)) == x
    ensures LowShift16(Unshift16(x)) == x
  {
    UnshiftAfterBits(x);
    UnshiftBeforeBits(x);
  }

  /** Lines 18-20 undone: the rotated state with the byte mixed in, recovered from the next state. */
  function Unscramble(n: bv16): bv16 { Fold16(Spread16(Unshift16(n))) }

  /** The state before a step, recovered from the state after it and the byte. */
  function Unstep(n: bv16, b: byte): bv16 { Rotate16(AddByte16(Unscramble(n), b)) }

  /** The byte a step consumed, recovered from the states before and after it. */
  function StepByte(c: bv16, n: bv16): byte { ((Unscramble(n) ^ Rotate16(c)) & 0xff) as byte }

  lemma UnscrambleStep(c: bv16, b: byte)
    ensures Unscramble(Step(c, b)) == AddByte16(Rotate16(c), b)
  {
    var x := AddByte16(Rotate16(c), b);
    UnshiftLowShift(Spread16(Fold16(x)));
    SpreadTwice(Fold16(x));
    FoldTwice(x);
  }

  /** For a fixed byte, one step is a bijection on states with inverse Unstep. */
  lemma UnstepStep(c: bv16, b: byte)
    ensures Unstep(Step(c, b), b) == c
  {
    UnscrambleStep(c, b);
    AddByteTwice(Rotate16(c), b);
    RotateTwice(c);
  }

  lemma StepUnstep(n: bv16, b: byte)
    ensures Step(Unstep(n, b), b) == n
  {
    var u := Unscramble(n);
    RotateTwice(AddByte16(u, b));
    AddByteTwice(u, b);
    FoldTwice(Spread16(Unshift16(n)));
    SpreadTwice(Unshift16(n));
    UnshiftLowShift(n);
  }

  lemma ByteBits(r: bv16, b: byte)
    ensures (((r ^ (b as bv16)) ^ r) & 0xff) as byte == b
  {
  }

  /** The byte a step consumed is determined by the states around it. */
  lemma StepByteStep(c: bv16, b: byte)
    ensures StepByte(c, Step(c, b)) == b
  {
    UnscrambleStep(c, b);
    ByteBits(Rotate16(c), b);
  }

  /** From one state, different bytes lead to different states. */
  lemma StepInjectiveByte(c: bv16, a: byte, b: byte)
    ensures Step(c, a) == Step(c, b) <==> a == b
  {
    StepByteStep(c, a);
    StepByteStep(c, b);
  }

  /** With the same byte, different states lead to different states. */
  lemma StepInjectiveState(c: bv16, d: bv16, b: byte)
    ensures Step(c, b) == Step(d, b) <==> c == d
  {
    UnstepStep(c, b);
    UnstepStep(d, b);
  }

  /** Two strings with different checksums keep them different under any common suffix. */
  lemma {:induction false} CrcSuffixKeepsDifference(s: seq<byte>, t: seq<byte>, y: seq<byte>)
    requires Crc(s) != Crc(t)
    ensures Crc(s + y) != Crc(t + y)
    decreases |y|
  {
    if y == [] {
      assert s + y == s && t + y == t;
    } else {
      var y', b := y[..|y| - 1], y[|y| - 1];
      assert y == y' + [b];
      CrcSuffixKeepsDifference(s, t, y');
      assert s + y == (s + y') + [b] && t + y == (t + y') + [b];
      CrcSnoc(s + y', b);
      CrcSnoc(t + y', b);
      StepInjectiveState(Crc(s + y'), Crc(t + y'), b);
    }
  }

  /** Changing any single byte of a string changes its checksum. */
  lemma SingleByteChangeDetected(p: seq<byte>, a: byte, b: byte, q: seq<byte>)
    requires a != b
    ensures Crc(p + [a] + q) != Crc(p + [b] + q)
  {
    CrcSnoc(p, a);
    CrcSnoc(p, b);
    StepInjectiveByte(Crc(p), a, b);
    CrcSuffixKeepsDifference(p + [a], p + [b], q);
  }
}
