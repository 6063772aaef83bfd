/**
 The checksum of BSL packets. The updater computes it a byte at a time with shifts and XORs; it is
 shown to be division by x^16 + x^12 + x^5 + 1, one bit at a time.
 */
module Crc16 {
  import opened Machine

  const POLYNOMIAL: bv16 := 0x1021
  const INITIAL: bv16 := 0xFFFF

  function Halved(b: nat, k: nat): nat {
    if k == 0 then b else Halved(b, k - 1) / 2
  }

  /** Bit `k` of a byte. */
  predicate Bit(b: byte, k: nat) {
    Halved(b, k) % 2 == 1
  }

  function FromBits(b7: bool, b6: bool, b5: bool, b4: bool, b3: bool, b2: bool, b1: bool, b0: bool): bv16 {
    (if b7 then 0x80 else 0) | (if b6 then 0x40 else 0) | (if b5 then 0x20 else 0) | (if b4 then 0x10 else 0)
    | (if b3 then 0x08 else 0) | (if b2 then 0x04 else 0) | (if b1 then 0x02 else 0) | (if b0 then 0x01 else 0)
  }

  /** A byte as the low half of a 16-bit word. */
  function Low(b: byte): bv16 {
    FromBits(Bit(b, 7), Bit(b, 6), Bit(b, 5), Bit(b, 4), Bit(b, 3), Bit(b, 2), Bit(b, 1), Bit(b, 0))
  }

  lemma LowFits(b: byte)
    ensures Low(b) <= 0xFF
  {
    hide Bit;
  }

  lemma BitsDetermine(x7: bool, x6: bool, x5: bool, x4: bool, x3: bool, x2: bool, x1: bool, x0: bool,
                      y7: bool, y6: bool, y5: bool, y4: bool, y3: bool, y2: bool, y1: bool, y0: bool)
    requires FromBits(x7, x6, x5, x4, x3, x2, x1, x0) == FromBits(y7, y6, y5, y4, y3, y2, y1, y0)
    ensures x7 == y7 && x6 == y6 && x5 == y5 && x4 == y4 && x3 == y3 && x2 == y2 && x1 == y1 && x0 == y0
  {
  }

  function BitValue(b: byte, k: nat): nat {
    if Bit(b, k) then 1 else 0
  }

  lemma HalvedStep(b: byte, k: nat)
    ensures Halved(b, k) == 2 * Halved(b, k + 1) + BitValue(b, k)
  {
  }

  /** A byte is the sum of its bits. */
  lemma SumOfBits(b: byte)
    ensures b == BitValue(b, 0) + 2 * (BitValue(b, 1) + 2 * (BitValue(b, 2) + 2 * (BitValue(b, 3)
               + 2 * (BitValue(b, 4) + 2 * (BitValue(b, 5) + 2 * (BitValue(b, 6) + 2 * BitValue(b, 7)))))))
  {
    HalvedStep(b, 0);
    HalvedStep(b, 1);
    HalvedStep(b, 2);
    HalvedStep(b, 3);
    HalvedStep(b, 4);
    HalvedStep(b, 5);
    HalvedStep(b, 6);
    HalvedStep(b, 7);
    hide Bit, BitValue;
    assert Halved(b, 0) == b;
    hide Halved;
    assert Halved(b, 8) == 0;
  }

  lemma LowInjective(a: byte, b: byte)
    requires Low(a) == Low(b)
    ensures a == b
  {
    SumOfBits(a);
    SumOfBits(b);
    hide Bit, FromBits;
    BitsDetermine(Bit(a, 7), Bit(a, 6), Bit(a, 5), Bit(a, 4), Bit(a, 3), Bit(a, 2), Bit(a, 1), Bit(a, 0),
                  Bit(b, 7), Bit(b, 6), Bit(b, 5), Bit(b, 4), Bit(b, 3), Bit(b, 2), Bit(b, 1), Bit(b, 0));
  }

  function Xor(a: bv16, b: bv16): bv16 {
    a ^ b
  }

  // --- The updater's byte step -----------------------------------------------------------------

  function TopByte(crc: bv16, b: bv16): bv16 {
    ((crc >> 8) ^ b) & 0xFF
  }

  function FoldNibble(x: bv16): bv16 {
    x ^ (x >> 4)
  }

  function Spread(crc: bv16, x: bv16): bv16 {
    (crc << 8) ^ (x << 12) ^ (x << 5) ^ x
  }

  function FastStep(crc: bv16, b: bv16): bv16 {
    Spread(crc, FoldNibble(TopByte(crc, b)))
  }

  function Crc(msg: seq<byte>): bv16 {
    Fold(INITIAL, msg)
  }

  function Fold(crc: bv16, msg: seq<byte>): bv16
    decreases |msg|
  {
    if msg == [] then crc else FastStep(Fold(crc, msg[..|msg| - 1]), Low(msg[|msg| - 1]))
  }

  /** The loop of the updater. */
  method ComputeCrc(msg: seq<byte>, size: nat) returns (crc: bv16)
    requires size <= |msg|
    ensures crc == Crc(msg[..size])
  {
    hide TopByte, FoldNibble, Spread, Low;
    crc := 0xFFFF;
    for i := 0 to size
      invariant crc == Fold(INITIAL, msg[..i])
    {
      assert msg[..i + 1][..i] == msg[..i];
      var x := TopByte(crc, Low(msg[i]));
      x := FoldNibble(x);
      crc := Spread(crc, x);
    }
  }

  // --- Bit-serial division ----------------------------------------------------------------------

  /** Shift one message bit in and subtract the divisor when a one falls out of the register. */
  function BitStep(crc: bv16, bit: bool): bv16 {
    var out := (crc & 0x8000 != 0) != bit;
    if out then (crc << 1) ^ POLYNOMIAL else crc << 1
  }

  /** The eight bits of a byte, most significant first. */
  function ByteSteps(crc: bv16, b: bv16): bv16 {
    var c7 := BitStep(crc, b & 0x80 != 0);
    var c6 := BitStep(c7, b & 0x40 != 0);
    var c5 := BitStep(c6, b & 0x20 != 0);
    var c4 := BitStep(c5, b & 0x10 != 0);
    var c3 := BitStep(c4, b & 0x08 != 0);
    var c2 := BitStep(c3, b & 0x04 != 0);
    var c1 := BitStep(c2, b & 0x02 != 0);
    BitStep(c1, b & 0x01 != 0)
  }

  function BitSerial(crc: bv16, msg: seq<byte>): bv16
    decreases |msg|
  {
    if msg == [] then crc else BitSerial(ByteSteps(crc, Low(msg[0])), msg[1..])
  }

  /** Shifting a zero bit in. */
  function Shift(c: bv16): bv16 {
    if c & 0x8000 != 0 then (c << 1) ^ POLYNOMIAL else c << 1
  }

  function Shift8(c: bv16): bv16 {
    Shift(Shift(Shift(Shift(Shift(Shift(Shift(Shift(c))))))))
  }

  // Shifting is linear; the four cases of the two top bits.

  lemma Shift00(c: bv16, d: bv16)
    requires c & 0x8000 == 0 && d & 0x8000 == 0
    ensures Shift(c ^ d) == Shift(c) ^ Shift(d)
    ensures Shift(c) == Shift(d) ==> c == d
  {
  }

  lemma Shift01(c: bv16, d: bv16)
    requires c & 0x8000 == 0 && d & 0x8000 != 0
    ensures Shift(c ^ d) == Shift(c) ^ Shift(d) && Shift(d ^ c) == Shift(d) ^ Shift(c)
    ensures Shift(c) != Shift(d)
  {
  }

  lemma Shift11(c: bv16, d: bv16)
    requires c & 0x8000 != 0 && d & 0x8000 != 0
    ensures Shift(c ^ d) == Shift(c) ^ Shift(d)
    ensures Shift(c) == Shift(d) ==> c == d
  {
  }

  lemma ShiftLinear(c: bv16, d: bv16)
    ensures Shift(Xor(c, d)) == Xor(Shift(c), Shift(d))
    ensures Shift(c) == Shift(d) ==> c == d
  {
    hide Shift;
    if c & 0x8000 == 0 {
      if d & 0x8000 == 0 {
        Shift00(c, d);
      } else {
        Shift01(c, d);
      }
    } else {
      if d & 0x8000 == 0 {
        Shift01(d, c);
      } else {
        Shift11(c, d);
      }
    }
  }

  lemma Shift8Linear(c: bv16, d: bv16)
    ensures Shift8(Xor(c, d)) == Xor(Shift8(c), Shift8(d))
    ensures Shift8(c) == Shift8(d) ==> c == d
  {
    hide Shift, Xor;
    var c1, d1 := Shift(c), Shift(d);
    ShiftLinear(c, d);
    var c2, d2 := Shift(c1), Shift(d1);
    ShiftLinear(c1, d1);
    var c3, d3 := Shift(c2), Shift(d2);
    ShiftLinear(c2, d2);
    var c4, d4 := Shift(c3), Shift(d3);
    ShiftLinear(c3, d3);
    var c5, d5 := Shift(c4), Shift(d4);
    ShiftLinear(c4, d4);
    var c6, d6 := Shift(c5), Shift(d5);
    ShiftLinear(c5, d5);
    var c7, d7 := Shift(c6), Shift(d6);
    ShiftLinear(c6, d6);
    ShiftLinear(c7, d7);
  }

  // Feeding the top bit of `r` is shifting with `r` already added, up to the rest of `r`.

  lemma Absorb00(c: bv16, r: bv16)
    requires c & 0x8000 == 0 && r & 0x8000 == 0
    ensures Shift(c ^ r) == BitStep(c, false) ^ (r << 1)
  {
  }

  lemma Absorb01(c: bv16, r: bv16)
    requires c & 0x8000 == 0 && r & 0x8000 != 0
    ensures Shift(c ^ r) == BitStep(c, true) ^ (r << 1)
  {
  }

  lemma Absorb10(c: bv16, r: bv16)
    requires c & 0x8000 != 0 && r & 0x8000 == 0
    ensures Shift(c ^ r) == BitStep(c, false) ^ (r << 1)
  {
  }

  lemma Absorb11(c: bv16, r: bv16)
    requires c & 0x8000 != 0 && r & 0x8000 != 0
    ensures Shift(c ^ r) == BitStep(c, true) ^ (r << 1)
  {
  }

  function Double(r: bv16): bv16 {
    r << 1
  }

  predicate TopBit(r: bv16) {
    r & 0x8000 != 0
  }

  lemma Absorb(c: bv16, r: bv16)
    ensures Shift(Xor(c, r)) == Xor(BitStep(c, TopBit(r)), Double(r))
  {
    hide Shift, BitStep;
    if c & 0x8000 == 0 {
      if r & 0x8000 == 0 {
        Absorb00(c, r);
      } else {
        Absorb01(c, r);
      }
    } else {
      if r & 0x8000 == 0 {
        Absorb10(c, r);
      } else {
        Absorb11(c, r);
      }
    }
  }

  /** Eight message bits in a row, the byte standing in the top half of the register. */
  lemma AbsorbByte(c: bv16, b: bv16)
    requires b <= 0xFF
    ensures Shift8(Xor(c, b << 8)) == ByteSteps(c, b)
  {
    BitsOfByte(b);
    hide Shift, BitStep, Xor, Double, TopBit;
    var r7 := b << 8;
    var c7 := BitStep(c, TopBit(r7));
    Absorb(c, r7);
    var r6 := Double(r7);
    var c6 := BitStep(c7, TopBit(r6));
    Absorb(c7, r6);
    var r5 := Double(r6);
    var c5 := BitStep(c6, TopBit(r5));
    Absorb(c6, r5);
    var r4 := Double(r5);
    var c4 := BitStep(c5, TopBit(r4));
    Absorb(c5, r4);
    var r3 := Double(r4);
    var c3 := BitStep(c4, TopBit(r3));
    Absorb(c4, r3);
    var r2 := Double(r3);
    var c2 := BitStep(c3, TopBit(r2));
    Absorb(c3, r2);
    var r1 := Double(r2);
    var c1 := BitStep(c2, TopBit(r1));
    Absorb(c2, r1);
    var r0 := Double(r1);
    var c0 := BitStep(c1, TopBit(r0));
    Absorb(c1, r0);
    XorZero(c0);
  }

  lemma XorZero(c: bv16)
    ensures Xor(c, 0) == c
  {
  }

  /** Doubling brings the bits of a byte to the top one after the other. */
  lemma BitsOfByte(b: bv16)
    requires b <= 0xFF
    ensures var r7 := b << 8;
            var r6 := Double(r7);
            var r5 := Double(r6);
            var r4 := Double(r5);
            var r3 := Double(r4);
            var r2 := Double(r3);
            var r1 := Double(r2);
            var r0 := Double(r1);
            && TopBit(r7) == (b & 0x80 != 0) && TopBit(r6) == (b & 0x40 != 0)
            && TopBit(r5) == (b & 0x20 != 0) && TopBit(r4) == (b & 0x10 != 0)
            && TopBit(r3) == (b & 0x08 != 0) && TopBit(r2) == (b & 0x04 != 0)
            && TopBit(r1) == (b & 0x02 != 0) && TopBit(r0) == (b & 0x01 != 0)
            && Double(r0) == 0
  {
  }

  // The register split into its halves.

  lemma HighHalf(x: bv16)
    requires x <= 0xFF
    ensures Shift8(x << 8) == (FoldNibble(x) << 12) ^ (FoldNibble(x) << 5) ^ FoldNibble(x)
  {
  }

  lemma LowHalf(x: bv16)
    requires x <= 0xFF
    ensures Shift8(x) == x << 8
  {
  }

  lemma Halves(crc: bv16, b: bv16)
    requires b <= 0xFF
    ensures Xor(crc, b << 8) == Xor(TopByte(crc, b) << 8, crc & 0xFF)
  {
    hide Xor, TopByte;
    TopShifted(crc, b);
    JoinHalves(crc);
    XorMoves(crc & 0xFF00, crc & 0xFF, b << 8);
  }

  lemma TopShifted(crc: bv16, b: bv16)
    requires b <= 0xFF
    ensures TopByte(crc, b) << 8 == Xor(crc & 0xFF00, b << 8)
  {
  }

  lemma JoinHalves(crc: bv16)
    ensures Xor(crc & 0xFF00, crc & 0xFF) == crc
  {
  }

  lemma XorMoves(x: bv16, y: bv16, z: bv16)
    ensures Xor(Xor(x, y), z) == Xor(Xor(x, z), y)
  {
  }

  lemma HalvesFit(crc: bv16, b: bv16)
    ensures TopByte(crc, b) <= 0xFF && crc & 0xFF <= 0xFF
  {
  }

  lemma LowShifted(crc: bv16)
    ensures (crc & 0xFF) << 8 == crc << 8
  {
  }

  lemma SpreadIs(crc: bv16, y: bv16)
    ensures Spread(crc, y) == Xor((y << 12) ^ (y << 5) ^ y, crc << 8)
  {
  }

  /** One byte step is eight bit steps. */
  lemma StepsAgree(crc: bv16, b: bv16)
    requires b <= 0xFF
    ensures FastStep(crc, b) == ByteSteps(crc, b) == Shift8(Xor(crc, b << 8))
  {
    hide Shift8, ByteSteps, TopByte, FoldNibble, Spread, Xor;
    var x := TopByte(crc, b);
    AbsorbByte(crc, b);
    Halves(crc, b);
    HalvesFit(crc, b);
    LowShifted(crc);
    Shift8Linear(x << 8, crc & 0xFF);
    HighHalf(x);
    LowHalf(crc & 0xFF);
    SpreadIs(crc, FoldNibble(x));
  }

  lemma {:induction false} FoldFromFront(crc: bv16, msg: seq<byte>)
    requires msg != []
    ensures Fold(crc, msg) == Fold(FastStep(crc, Low(msg[0])), msg[1..])
    decreases |msg|
  {
    hide FastStep;
    if |msg| == 1 {
      assert msg[..0] == [] && msg[1..] == [];
    } else {
      var init, last := msg[..|msg| - 1], msg[|msg| - 1];
      FoldFromFront(crc, init);
      assert init[1..] == msg[1..][..|msg| - 2];
    }
  }

  /** The updater's checksum is the bit-serial remainder, for every message. */
  lemma {:induction false} FastIsBitSerial(crc: bv16, msg: seq<byte>)
    ensures Fold(crc, msg) == BitSerial(crc, msg)
    decreases |msg|
  {
    hide FastStep, ByteSteps, Low;
    if msg != [] {
      FoldFromFront(crc, msg);
      LowFits(msg[0]);
      StepsAgree(crc, Low(msg[0]));
      FastIsBitSerial(ByteSteps(crc, Low(msg[0])), msg[1..]);
    }
  }

  // --- What the checksum detects -----------------------------------------------------------------

  lemma StepInjective(c: bv16, d: bv16, a: bv16, b: bv16)
    requires a <= 0xFF && b <= 0xFF && FastStep(c, a) == FastStep(d, b)
    ensures Xor(c, a << 8) == Xor(d, b << 8)
  {
    hide Shift8, FastStep, ByteSteps, Xor;
    StepsAgree(c, a);
    StepsAgree(d, b);
    Shift8Linear(Xor(c, a << 8), Xor(d, b << 8));
  }

  lemma XorSame(c: bv16, d: bv16, b: bv16)
    ensures Xor(c, b << 8) == Xor(d, b << 8) ==> c == d
  {
  }

  lemma XorOther(c: bv16, a: bv16, b: bv16)
    requires a <= 0xFF && b <= 0xFF
    ensures Xor(c, a << 8) == Xor(c, b << 8) ==> a == b
  {
  }

  /** Equal checksums of messages with the same tail come from equal registers before the tail. */
  lemma {:induction false} FoldInjective(c: bv16, d: bv16, tail: seq<byte>)
    ensures Fold(c, tail) == Fold(d, tail) ==> c == d
    decreases |tail|
  {
    hide FastStep, Xor, Low;
    if tail != [] && Fold(c, tail) == Fold(d, tail) {
      var b := Low(tail[|tail| - 1]);
      var init := tail[..|tail| - 1];
      LowFits(tail[|tail| - 1]);
      StepInjective(Fold(c, init), Fold(d, init), b, b);
      XorSame(Fold(c, init), Fold(d, init), b);
      FoldInjective(c, d, init);
    }
  }

  lemma {:induction false} FoldConcat(crc: bv16, x: seq<byte>, y: seq<byte>)
    ensures Fold(crc, x + y) == Fold(Fold(crc, x), y)
    decreases |y|
  {
    hide FastStep, Low;
    if y == [] {
      assert x + y == x;
    } else {
      assert (x + y)[..|x + y| - 1] == x + y[..|y| - 1];
      FoldConcat(crc, x, y[..|y| - 1]);
    }
  }

  /** Any change confined to one byte of a message changes its checksum. */
  lemma OneByteDetected(head: seq<byte>, a: byte, b: byte, tail: seq<byte>)
    requires a != b
    ensures Crc(head + [a] + tail) != Crc(head + [b] + tail)
  {
    hide FastStep, Xor, Low;
    var c := Fold(INITIAL, head);
    FoldConcat(INITIAL, head, [a]);
    FoldConcat(INITIAL, head, [b]);
    FoldConcat(INITIAL, head + [a], tail);
    FoldConcat(INITIAL, head + [b], tail);
    FoldInjective(Fold(INITIAL, head + [a]), Fold(INITIAL, head + [b]), tail);
    assert Fold(c, [a]) == FastStep(c, Low(a)) && Fold(c, [b]) == FastStep(c, Low(b));
    LowFits(a);
    LowFits(b);
    if FastStep(c, Low(a)) == FastStep(c, Low(b)) {
      StepInjective(c, c, Low(a), Low(b));
      XorOther(c, Low(a), Low(b));
      LowInjective(a, b);
    }
  }

  // --- Known messages -----------------------------------------------------------------------------

  lemma HalfBit(b: byte, k: nat, h: nat)
    requires Halved(b, k) == h
    ensures Halved(b, k + 1) == Half(h) && (Bit(b, k) <==> Odd(h))
  {
  }

  function Half(n: nat): nat {
    n / 2
  }

  predicate Odd(n: nat) {
    n % 2 == 1
  }

  /** The word of a byte given by its bits. */
  lemma LowOf(b: byte, b7: bool, b6: bool, b5: bool, b4: bool, b3: bool, b2: bool, b1: bool, b0: bool)
    requires b0 == Odd(b) && b1 == Odd(Half(b)) && b2 == Odd(Half(Half(b))) && b3 == Odd(Half(Half(Half(b))))
    requires var h := Half(Half(Half(Half(b))));
             b4 == Odd(h) && b5 == Odd(Half(h)) && b6 == Odd(Half(Half(h))) && b7 == Odd(Half(Half(Half(h))))
    ensures Low(b) == FromBits(b7, b6, b5, b4, b3, b2, b1, b0)
  {
    ZeroHalfBit(b);
    hide Bit, FromBits, Halved, Half, Odd;
    var h1, h2, h3, h4 := Half(b), Half(Half(b)), Half(Half(Half(b))), Half(Half(Half(Half(b))));
    HalfBit(b, 0, b);
    HalfBit(b, 1, h1);
    HalfBit(b, 2, h2);
    HalfBit(b, 3, h3);
    HalfBit(b, 4, h4);
    HalfBit(b, 5, Half(h4));
    HalfBit(b, 6, Half(Half(h4)));
    HalfBit(b, 7, Half(Half(Half(h4))));
  }

  lemma ZeroHalfBit(b: byte)
    ensures Halved(b, 0) == b
  {
  }

  lemma Shifted(msg: seq<byte>, b: byte)
    ensures Crc(msg + [b]) == FastStep(Crc(msg), Low(b)) && Crc([]) == 0xFFFF
  {
    hide FastStep, Low;
    assert (msg + [b])[..|msg|] == msg;
  }

  lemma LowValues()
    ensures Low(0x15) == 0x15 && Low(0x25) == 0x25 && Low(0x3B) == 0x3B && Low(0) == 0
  {
    LowOf(0x15, false, false, false, true, false, true, false, true);
    LowOf(0x25, false, false, true, false, false, true, false, true);
    LowOf(0x3B, false, false, true, true, true, false, true, true);
    LowOf(0, false, false, false, false, false, false, false, false);
    WordValues();
    hide Low, FromBits;
  }

  lemma WordValues()
    ensures FromBits(false, false, false, true, false, true, false, true) == 0x15
    ensures FromBits(false, false, true, false, false, true, false, true) == 0x25
    ensures FromBits(false, false, true, true, true, false, true, true) == 0x3B
    ensures FromBits(false, false, false, false, false, false, false, false) == 0
  {
  }

  lemma StepValues()
    ensures FastStep(0xFFFF, 0x15) == 0xA364 && FastStep(0xFFFF, 0x25) == 0x9537
    ensures FastStep(FastStep(0xFFFF, 0x3B), 0) == 0xC460
  {
  }

  /** The checksums the updater's fixed requests carry, and that of an acknowledgement. */
  lemma KnownChecksums()
    ensures Crc([0x15]) == 0xA364 && Crc([0x25]) == 0x9537
    ensures Crc([0x3B, 0]) == 0xC460
  {
    hide Low, Crc, FastStep;
    LowValues();
    StepValues();
    Shifted([], 0x15);
    Shifted([], 0x25);
    Shifted([], 0x3B);
    Shifted([0x3B], 0);
    assert [] + [0x15] == [0x15] && [] + [0x25] == [0x25] && [] + [0x3B] == [0x3B] && [0x3B] + [0] == [0x3B, 0];
  }
}
