/** CRC-16 of the firmware manager: the branch-free byte-at-a-time loop, and the
    polynomial division over GF(2) it stands for.

    Everything is stated for byte strings of every length.  Bits are taken most
    significant first, the order in which ITU-T V.41 feeds its divider. */
module Crc16 {
  import opened Bits

  // ---------------------------------------------------------------------------
  // Reference: long division by x^16 + x^12 + x^5 + 1 (ITU-T V.41, section 2)
  // ---------------------------------------------------------------------------

  /** The generator without its leading term. */
  const GENERATOR_TAIL: Half :=
    [false, false, false, true, false, false, false, false,
     false, false, true, false, false, false, false, true]

  /** Schoolbook long division: while more than 16 bits are left, cancel the
      leading bit with the generator if it is set, and drop it. */
  function Remainder(dividend: Bits): (r: Bits)
    ensures |r| <= 16
    ensures |dividend| >= 16 ==> |r| == 16
    decreases |dividend|
  {
    if |dividend| <= 16 then dividend
    else if dividend[0] then
      Remainder(Xor(dividend[1..17], GENERATOR_TAIL) + dividend[17..])
    else
      Remainder(dividend[1..])
  }

  /** The message as one bit string. */
  function MessageBits(data: seq<Byte>): (r: Bits)
    ensures |r| == 8 * |data|
  {
    if data == [] then [] else MessageBits(data[..|data| - 1]) + data[|data| - 1]
  }

  // ---------------------------------------------------------------------------
  // The code
  // ---------------------------------------------------------------------------

  /** A byte or half word widened to 32 bits. */
  function Widen(a: Bits): (r: Word)
    requires |a| <= 32
  {
    Zeros(32 - |a|) + a
  }

  const LOW_HALF_MASK: Word := Zeros(16) + Ones(16)

  /** One turn of the loop, in the 32-bit arithmetic the code uses. */
  function ByteStep(crc: Word, byte: Byte): Word {
    var d0 := Xor(crc, ShiftLeft(Widen(byte), 8));
    var d1 := Xor(ShiftRight(d0, 12), ShiftRight(d0, 8));
    var d2 := Xor(d1, Xor(ShiftLeft(d1, 5), ShiftLeft(d1, 12)));
    And(Xor(ShiftLeft(crc, 8), d2), LOW_HALF_MASK)
  }

  /** The 32-bit register after all of `data`, starting from 0. */
  function Register(data: seq<Byte>): Word {
    if data == [] then Zeros(32) else ByteStep(Register(data[..|data| - 1]), data[|data| - 1])
  }

  /** The checksum: the low half of the register. */
  function CrcOf(data: seq<Byte>): Half {
    Register(data)[16..]
  }

  /** The checksum routine: `len` counts down while the pointer moves up. */
  method Crc16Ccitt(data: seq<Byte>) returns (result: Half)
    ensures result == CrcOf(data)
    ensures result == Remainder(MessageBits(data) + Zeros(16))
  {
    var crc: Word := Zeros(32);
    var len := |data|;
    var pdata := 0;
    while len > 0
      invariant 0 <= len && pdata + len == |data|
      invariant crc == Register(data[..pdata])
    {
      len := len - 1;
      var d: Word := Xor(crc, ShiftLeft(Widen(data[pdata]), 8));
      assert data[..pdata + 1][..pdata] == data[..pdata];
      pdata := pdata + 1;
      d := Xor(ShiftRight(d, 12), ShiftRight(d, 8));
      d := Xor(d, Xor(ShiftLeft(d, 5), ShiftLeft(d, 12)));
      crc := And(Xor(ShiftLeft(crc, 8), d), LOW_HALF_MASK);
    }
    assert data[..pdata] == data;
    CrcIsDivision(data);
    result := crc[16..];
  }

  // ---------------------------------------------------------------------------
  // A shift register between the two
  // ---------------------------------------------------------------------------

  /** Multiplication by x modulo the generator. */
  function TimesX(r: Half): Half {
    if r[0] then Xor(r[1..] + [false], GENERATOR_TAIL) else r[1..] + [false]
  }

  function TimesXPow(r: Half, n: nat): Half {
    if n == 0 then r else TimesX(TimesXPow(r, n - 1))
  }

  /** The constant polynomial 0 or 1. */
  function Constant(b: bool): Half {
    Zeros(15) + [b]
  }

  /** A divider that takes the dividend in at its low end, one bit at a time. */
  function Divide(r: Half, bits: Bits): Half
    decreases |bits|
  {
    if bits == [] then r
    else Xor(TimesX(Divide(r, bits[..|bits| - 1])), Constant(bits[|bits| - 1]))
  }

  lemma XorZero(a: Bits, z: Bits)
    requires |z| == |a| && z == Zeros(|a|)
    ensures Xor(a, z) == a && Xor(z, a) == a && Xor(a, a) == z
  {
  }

  lemma TimesXLinear(a: Half, b: Half)
    ensures TimesX(Xor(a, b)) == Xor(TimesX(a), TimesX(b))
  {
  }

  /** Multiplication by x is invertible: the generator has a constant term. */
  lemma TimesXInjective(a: Half)
    requires TimesX(a) == Zeros(16)
    ensures a == Zeros(16)
  {
    assert TimesX(a)[15] == a[0];
    forall i | 0 <= i < 16
      ensures !a[i]
    {
      if i > 0 {
        assert TimesX(a)[i - 1] == a[i];
      }
    }
  }

  lemma {:induction false} TimesXPowLinear(a: Half, b: Half, n: nat)
    ensures TimesXPow(Xor(a, b), n) == Xor(TimesXPow(a, n), TimesXPow(b, n))
  {
    if n == 0 {
    } else {
      TimesXPowLinear(a, b, n - 1);
      TimesXLinear(TimesXPow(a, n - 1), TimesXPow(b, n - 1));
    }
  }

  lemma {:induction false} TimesXPowInjective(a: Half, n: nat)
    requires TimesXPow(a, n) == Zeros(16)
    ensures a == Zeros(16)
  {
    if n == 0 {
    } else {
      TimesXInjective(TimesXPow(a, n - 1));
      TimesXPowInjective(a, n - 1);
    }
  }

  lemma {:induction false} TimesXPowShift(r: Half, n: nat)
    ensures TimesXPow(TimesX(r), n) == TimesX(TimesXPow(r, n))
  {
    if n == 0 {
    } else {
      TimesXPowShift(r, n - 1);
    }
  }

  lemma {:induction false} PowerOfZero(n: nat)
    ensures TimesXPow(Zeros(16), n) == Zeros(16)
  {
    if n == 0 {
    } else {
      PowerOfZero(n - 1);
      assert TimesX(Zeros(16)) == Zeros(16);
    }
  }

  // x^n for n below 16 is a single bit.
  lemma {:induction false} SmallPower(n: nat)
    requires n < 16
    ensures TimesXPow(Constant(true), n) == Zeros(15 - n) + [true] + Zeros(n)
  {
    if n == 0 {
    } else {
      SmallPower(n - 1);
      assert Zeros(16 - n)[1..] == Zeros(15 - n);
      assert Zeros(n - 1) + [false] == Zeros(n);
    }
  }

  // x^16 reduces to the tail of the generator.
  lemma PowerSixteen()
    ensures TimesXPow(Constant(true), 16) == GENERATOR_TAIL
  {
    SmallPower(15);
    var top := [true] + Zeros(15);
    assert Zeros(0) + [true] + Zeros(15) == top;
    assert top[1..] + [false] == Zeros(16);
    XorZero(GENERATOR_TAIL, Zeros(16));
  }

  lemma {:induction false} DivideAppend(r: Half, s: Bits, t: Bits)
    ensures Divide(r, s + t) == Divide(Divide(r, s), t)
    decreases |t|
  {
    if t == [] {
      assert s + t == s;
    } else {
      assert (s + t)[..|s + t| - 1] == s + t[..|t| - 1];
      DivideAppend(r, s, t[..|t| - 1]);
    }
  }

  lemma {:induction false} DivideZeros(r: Half, n: nat)
    ensures Divide(r, Zeros(n)) == TimesXPow(r, n)
  {
    if n == 0 {
    } else {
      assert Zeros(n)[..n - 1] == Zeros(n - 1);
      DivideZeros(r, n - 1);
      XorZero(TimesXPow(r, n), Constant(false));
    }
  }

  // ---------------------------------------------------------------------------
  // The divider is long division
  // ---------------------------------------------------------------------------

  lemma DivideOne(r: Half, b: bool)
    ensures Divide(r, [b]) == if r[0] then Xor(r[1..] + [b], GENERATOR_TAIL) else r[1..] + [b]
  {
    assert [b][..0] == [];
  }

  lemma {:induction false} DivideIsRemainder(r: Half, t: Bits)
    ensures Divide(r, t) == Remainder(r + t)
    decreases |t|
  {
    var s := r + t;
    if t == [] {
      assert s == r;
    } else {
      DivideOne(r, t[0]);
      assert s[1..17] == r[1..] + [t[0]];
      assert s[17..] == t[1..];
      assert s[1..] == s[1..17] + s[17..];
      DivideIsRemainder(Divide(r, [t[0]]), t[1..]);
      assert t == [t[0]] + t[1..];
      DivideAppend(r, [t[0]], t[1..]);
    }
  }

  lemma {:induction false} LeadingZeros(n: nat, t: Bits)
    requires |t| >= 16
    ensures Remainder(Zeros(n) + t) == Remainder(t)
  {
    if n == 0 {
      assert Zeros(0) + t == t;
    } else {
      assert (Zeros(n) + t)[1..] == Zeros(n - 1) + t;
      LeadingZeros(n - 1, t);
    }
  }

  // ---------------------------------------------------------------------------
  // The loop is the divider, sixteen places ahead
  // ---------------------------------------------------------------------------

  /** A divider that takes a bit in at its high end, so that the sixteen closing
      zeros of the dividend need not be fed. */
  function FeedBit(r: Half, b: bool): Half {
    Xor(TimesX(r), if b then GENERATOR_TAIL else Zeros(16))
  }

  function Feed(r: Half, bits: Bits): Half
    decreases |bits|
  {
    if bits == [] then r
    else FeedBit(Feed(r, bits[..|bits| - 1]), bits[|bits| - 1])
  }

  lemma FeedBitAhead(s: Half, b: bool)
    ensures FeedBit(TimesXPow(s, 16), b) == TimesXPow(Xor(TimesX(s), Constant(b)), 16)
  {
    TimesXPowLinear(TimesX(s), Constant(b), 16);
    TimesXPowShift(s, 16);
    if b {
      PowerSixteen();
    } else {
      assert Constant(false) == Zeros(16);
      PowerOfZero(16);
    }
  }

  lemma {:induction false} FeedAhead(s: Half, bits: Bits)
    ensures Feed(TimesXPow(s, 16), bits) == TimesXPow(Divide(s, bits), 16)
    decreases |bits|
  {
    if bits == [] {
    } else {
      var front := bits[..|bits| - 1];
      FeedAhead(s, front);
      FeedBitAhead(Divide(s, front), bits[|bits| - 1]);
    }
  }

  /** Bit i, or false where there is none. */
  ghost predicate At(a: Bits, i: int) {
    0 <= i < |a| && a[i]
  }

  /** The high byte of the register with the data byte added, folded once onto
      itself: what the first two lines of the loop leave in `data`. */
  ghost function Fold(h: Half, byte: Byte): Byte {
    var x := Xor(h[..8], byte);
    Xor(x, ShiftRight(x, 4))
  }

  lemma FoldIsFirstLines(crc: Word, byte: Byte, d0: Word, d1: Word)
    requires crc[..16] == Zeros(16)
    requires d0 == Xor(crc, ShiftLeft(Widen(byte), 8))
    requires d1 == Xor(ShiftRight(d0, 12), ShiftRight(d0, 8))
    ensures d1 == Widen(Fold(crc[16..], byte))
  {
    var h := crc[16..];
    var x := Xor(h[..8], byte);
    assert crc == Zeros(16) + h;
    assert forall j | 0 <= j < 24 :: d0[j] == At(x, j - 16);
    assert forall j | 0 <= j < 32 :: d1[j] == (At(d0, j - 12) != At(d0, j - 8));
    assert forall j | 0 <= j < 32 :: d1[j] == (At(x, j - 28) != At(x, j - 24));
  }

  // The folded byte lands at three places of the result.
  lemma ByteStepAt(crc: Word, byte: Byte)
    requires crc[..16] == Zeros(16)
    ensures ByteStep(crc, byte)[..16] == Zeros(16)
    ensures var u := Fold(crc[16..], byte);
      forall k | 0 <= k < 16 ::
        ByteStep(crc, byte)[16..][k] == (At(crc[16..], k + 8) != (At(u, k - 8) != (At(u, k - 3) != At(u, k + 4))))
  {
    var d0 := Xor(crc, ShiftLeft(Widen(byte), 8));
    var d1 := Xor(ShiftRight(d0, 12), ShiftRight(d0, 8));
    var d2 := Xor(d1, Xor(ShiftLeft(d1, 5), ShiftLeft(d1, 12)));
    FoldIsFirstLines(crc, byte, d0, d1);
    var u := Fold(crc[16..], byte);
    assert forall j | 0 <= j < 32 :: d2[j] == (At(u, j - 24) != (At(u, j - 19) != At(u, j - 12)));
    var r := ByteStep(crc, byte);
    assert forall j | 0 <= j < 32 :: r[j] == (j >= 16 && At(crc, j + 8) != d2[j]);
  }

  // The register after n of the eight bits of a byte.
  lemma {:induction false} FeedPrefix(r: Half, bits: Bits, n: nat)
    requires n < |bits|
    ensures Feed(r, bits[..n + 1]) == FeedBit(Feed(r, bits[..n]), bits[n])
  {
    assert bits[..n + 1][..n] == bits[..n];
  }

  /** A register spelled out bit by bit, for the one place that compares formulas. */
  datatype Reg = Reg(r0: bool, r1: bool, r2: bool, r3: bool, r4: bool, r5: bool, r6: bool, r7: bool,
                     r8: bool, r9: bool, r10: bool, r11: bool, r12: bool, r13: bool, r14: bool, r15: bool)

  function ToReg(h: Half): Reg {
    Reg(h[0], h[1], h[2], h[3], h[4], h[5], h[6], h[7], h[8], h[9], h[10], h[11], h[12], h[13], h[14], h[15])
  }

  function RegFeed(r: Reg, b: bool): Reg {
    var f := r.r0 != b;
    Reg(r.r1, r.r2, r.r3, r.r4 != f, r.r5, r.r6, r.r7, r.r8,
        r.r9, r.r10, r.r11 != f, r.r12, r.r13, r.r14, r.r15, f)
  }

  lemma FeedBitIsRegFeed(h: Half, b: bool)
    ensures ToReg(FeedBit(h, b)) == RegFeed(ToReg(h), b)
  {
  }

  /** Four bits at once: f is what has to be added for each of them. */
  function RegNibble(r: Reg, q: Bits): Reg
    requires |q| == 4
  {
    var f0, f1, f2, f3 := r.r0 != q[0], r.r1 != q[1], r.r2 != q[2], r.r3 != q[3];
    Reg(r.r4 != f0, r.r5 != f1, r.r6 != f2, r.r7 != f3, r.r8, r.r9, r.r10, r.r11 != f0,
        r.r12 != f1, r.r13 != f2, r.r14 != f3, r.r15, f0, f1, f2, f3)
  }

  lemma RegNibbleIsFeeds(r: Reg, q: Bits)
    requires |q| == 4
    ensures RegNibble(r, q) == RegFeed(RegFeed(RegFeed(RegFeed(r, q[0]), q[1]), q[2]), q[3])
  {
  }

  // The same fold, bit by bit.
  ghost predicate Folded(h: Half, byte: Byte, u: Byte) {
    && u[0] == (h[0] != byte[0]) && u[1] == (h[1] != byte[1])
    && u[2] == (h[2] != byte[2]) && u[3] == (h[3] != byte[3])
    && u[4] == ((h[4] != u[0]) != byte[4]) && u[5] == ((h[5] != u[1]) != byte[5])
    && u[6] == ((h[6] != u[2]) != byte[6]) && u[7] == ((h[7] != u[3]) != byte[7])
  }

  lemma FoldIsFolded(h: Half, byte: Byte)
    ensures Folded(h, byte, Fold(h, byte))
  {
  }

  // The register after four bits, and after eight, in terms of the folded byte.
  ghost function HalfWay(h: Half, u: Byte): Reg {
    Reg(h[4] != u[0], h[5] != u[1], h[6] != u[2], h[7] != u[3], h[8], h[9], h[10], h[11] != u[0],
        h[12] != u[1], h[13] != u[2], h[14] != u[3], h[15], u[0], u[1], u[2], u[3])
  }

  ghost function Spread(h: Half, u: Byte): Reg {
    Reg(h[8] != u[4], h[9] != u[5], h[10] != u[6], h[11] != (u[0] != u[7]), h[12] != u[1], h[13] != u[2],
        h[14] != u[3], h[15] != u[4], u[0] != u[5], u[1] != u[6], u[2] != u[7], u[3], u[4], u[5], u[6], u[7])
  }

  lemma FirstNibble(h: Half, byte: Byte, u: Byte)
    requires Folded(h, byte, u)
    ensures RegNibble(ToReg(h), byte[..4]) == HalfWay(h, u)
  {
  }

  lemma SecondNibble(h: Half, byte: Byte, u: Byte)
    requires Folded(h, byte, u)
    ensures RegNibble(HalfWay(h, u), byte[4..]) == Spread(h, u)
  {
  }

  lemma SpreadAt(h: Half, u: Byte, r: Half)
    requires forall k | 0 <= k < 16 :: r[k] == (At(h, k + 8) != (At(u, k - 8) != (At(u, k - 3) != At(u, k + 4))))
    ensures ToReg(r) == Spread(h, u)
  {
  }

  lemma ToRegInjective(g: Half, h: Half)
    requires ToReg(g) == ToReg(h)
    ensures g == h
  {
  }

  // Four bit steps of the register.
  lemma FourFeeds(s0: Half, q: Bits, s1: Half, s2: Half, s3: Half, s4: Half)
    requires |q| == 4
    requires s1 == FeedBit(s0, q[0]) && s2 == FeedBit(s1, q[1]) && s3 == FeedBit(s2, q[2]) && s4 == FeedBit(s3, q[3])
    ensures Feed(s0, q) == s4
  {
    assert q[..0] == [] && q[..4] == q;
    FeedPrefix(s0, q, 0);
    FeedPrefix(s0, q, 1);
    FeedPrefix(s0, q, 2);
    FeedPrefix(s0, q, 3);
  }

  lemma FeedNibble(s0: Half, q: Bits)
    requires |q| == 4
    ensures ToReg(Feed(s0, q)) == RegNibble(ToReg(s0), q)
  {
    var s1 := FeedBit(s0, q[0]);
    var s2 := FeedBit(s1, q[1]);
    var s3 := FeedBit(s2, q[2]);
    var s4 := FeedBit(s3, q[3]);
    FourFeeds(s0, q, s1, s2, s3, s4);
    FeedBitIsRegFeed(s0, q[0]);
    FeedBitIsRegFeed(s1, q[1]);
    FeedBitIsRegFeed(s2, q[2]);
    FeedBitIsRegFeed(s3, q[3]);
    RegNibbleIsFeeds(ToReg(s0), q);
  }

  lemma {:induction false} FeedAppend(r: Half, s: Bits, t: Bits)
    ensures Feed(r, s + t) == Feed(Feed(r, s), t)
    decreases |t|
  {
    if t == [] {
      assert s + t == s;
    } else {
      assert (s + t)[..|s + t| - 1] == s + t[..|t| - 1];
      FeedAppend(r, s, t[..|t| - 1]);
    }
  }

  lemma FeedIsSpread(h: Half, byte: Byte, u: Byte, s: Half, t: Half)
    requires Folded(h, byte, u)
    requires ToReg(s) == RegNibble(ToReg(h), byte[..4])
    requires ToReg(t) == RegNibble(ToReg(s), byte[4..])
    ensures ToReg(t) == Spread(h, u)
  {
    FirstNibble(h, byte, u);
    SecondNibble(h, byte, u);
  }

  lemma FeedByte(h: Half, byte: Byte, u: Byte)
    requires Folded(h, byte, u)
    ensures ToReg(Feed(h, byte)) == Spread(h, u)
  {
    hide *;
    var first, second := byte[..4], byte[4..];
    var s := Feed(h, first);
    var t := Feed(s, second);
    assert ToReg(s) == RegNibble(ToReg(h), byte[..4]) by {
      FeedNibble(h, first);
    }
    assert ToReg(t) == RegNibble(ToReg(s), byte[4..]) by {
      FeedNibble(s, second);
    }
    assert ToReg(t) == Spread(h, u) by {
      FeedIsSpread(h, byte, u, s, t);
    }
    assert Feed(h, byte) == t by {
      FeedAppend(h, first, second);
      assert first + second == byte;
    }
  }

  // One turn of the loop feeds the eight bits of a byte.
  lemma ByteStepIsFeed(crc: Word, byte: Byte, next: Word)
    requires crc[..16] == Zeros(16) && next == ByteStep(crc, byte)
    ensures next[..16] == Zeros(16)
    ensures next[16..] == Feed(crc[16..], byte)
  {
    var h := crc[16..];
    var u := Fold(h, byte);
    ByteStepAt(crc, byte);
    assert ToReg(next[16..]) == Spread(h, u) by {
      SpreadAt(h, u, next[16..]);
    }
    assert ToReg(Feed(h, byte)) == Spread(h, u) by {
      FoldIsFolded(h, byte);
      FeedByte(h, byte, u);
    }
    ToRegInjective(next[16..], Feed(h, byte));
  }

  lemma {:induction false} CrcIsDivideAhead(data: seq<Byte>)
    ensures Register(data)[..16] == Zeros(16)
    ensures CrcOf(data) == TimesXPow(Divide(Zeros(16), MessageBits(data)), 16)
    decreases |data|
  {
    if data == [] {
      PowerOfZero(16);
    } else {
      var front, last := data[..|data| - 1], data[|data| - 1];
      CrcIsDivideAhead(front);
      ByteStepIsFeed(Register(front), last, Register(data));
      FeedAhead(Divide(Zeros(16), MessageBits(front)), last);
      DivideAppend(Zeros(16), MessageBits(front), last);
    }
  }

  // ---------------------------------------------------------------------------
  // Main results
  // ---------------------------------------------------------------------------

  /** The routine computes the remainder of message * x^16 on division by the
      generator, for every message; the upper half of its 32-bit register is 0. */
  lemma CrcIsDivision(data: seq<Byte>)
    ensures CrcOf(data) == Remainder(MessageBits(data) + Zeros(16))
    ensures Register(data) == Widen(CrcOf(data))
  {
    var bits := MessageBits(data);
    CrcIsDivideAhead(data);
    DivideZeros(Divide(Zeros(16), bits), 16);
    DivideAppend(Zeros(16), bits, Zeros(16));
    DivideIsRemainder(Zeros(16), bits + Zeros(16));
    LeadingZeros(16, bits + Zeros(16));
    assert Register(data) == Register(data)[..16] + Register(data)[16..];
  }

  function XorBytes(a: seq<Byte>, b: seq<Byte>): (r: seq<Byte>)
    requires |a| == |b|
    ensures |r| == |a|
  {
    seq(|a|, i requires 0 <= i < |a| => Xor(a[i], b[i]))
  }

  lemma XorAppend(a: Bits, b: Bits, c: Bits, d: Bits)
    requires |a| == |b| && |c| == |d|
    ensures Xor(a + c, b + d) == Xor(a, b) + Xor(c, d)
  {
  }

  lemma {:induction false} MessageBitsXor(a: seq<Byte>, b: seq<Byte>)
    requires |a| == |b|
    ensures MessageBits(XorBytes(a, b)) == Xor(MessageBits(a), MessageBits(b))
    decreases |a|
  {
    if a == [] {
    } else {
      var n := |a| - 1;
      MessageBitsXor(a[..n], b[..n]);
      assert XorBytes(a, b)[..n] == XorBytes(a[..n], b[..n]);
      XorAppend(MessageBits(a[..n]), MessageBits(b[..n]), a[n], b[n]);
    }
  }

  lemma {:induction false} DivideLinear(s: Bits, t: Bits)
    requires |s| == |t|
    ensures Divide(Zeros(16), Xor(s, t)) == Xor(Divide(Zeros(16), s), Divide(Zeros(16), t))
    decreases |s|
  {
    if s == [] {
      XorZero(Zeros(16), Zeros(16));
    } else {
      var n := |s| - 1;
      assert Xor(s, t)[..n] == Xor(s[..n], t[..n]);
      DivideLinear(s[..n], t[..n]);
      TimesXLinear(Divide(Zeros(16), s[..n]), Divide(Zeros(16), t[..n]));
    }
  }

  /** The checksum is linear over exclusive or. */
  lemma CrcLinear(a: seq<Byte>, b: seq<Byte>)
    requires |a| == |b|
    ensures CrcOf(XorBytes(a, b)) == Xor(CrcOf(a), CrcOf(b))
  {
    CrcIsDivideAhead(a);
    CrcIsDivideAhead(b);
    CrcIsDivideAhead(XorBytes(a, b));
    MessageBitsXor(a, b);
    DivideLinear(MessageBits(a), MessageBits(b));
    TimesXPowLinear(Divide(Zeros(16), MessageBits(a)), Divide(Zeros(16), MessageBits(b)), 16);
  }

  // Sixteen bits are their own remainder.
  lemma DivideWindow(w: Half)
    ensures Divide(Zeros(16), w) == w
  {
    DivideIsRemainder(Zeros(16), w);
    LeadingZeros(16, w);
  }

  lemma {:induction false} MessageBitsInjective(a: seq<Byte>, b: seq<Byte>)
    requires |a| == |b| && MessageBits(a) == MessageBits(b)
    ensures a == b
    decreases |a|
  {
    if a == [] {
    } else {
      var n := |a| - 1;
      var x, y := MessageBits(a), MessageBits(b);
      assert x[..8 * n] == MessageBits(a[..n]) && y[..8 * n] == MessageBits(b[..n]);
      assert x[8 * n..] == a[n] && y[8 * n..] == b[n];
      MessageBitsInjective(a[..n], b[..n]);
      assert a == a[..n] + [a[n]] && b == b[..n] + [b[n]];
    }
  }

  lemma DividePadded(window: Half, start: nat, rest: nat)
    requires Divide(Zeros(16), Zeros(start) + window + Zeros(rest)) == Zeros(16)
    ensures window == Zeros(16)
  {
    DivideAppend(Zeros(16), Zeros(start) + window, Zeros(rest));
    DivideAppend(Zeros(16), Zeros(start), window);
    DivideZeros(Zeros(16), start);
    PowerOfZero(start);
    DivideZeros(Divide(Zeros(16), window), rest);
    TimesXPowInjective(Divide(Zeros(16), window), rest);
    DivideWindow(window);
  }

  /** No bit is set outside the 16 that begin at `start`. */
  ghost predicate Burst(error: Bits, start: nat) {
    forall i | 0 <= i < |error| && error[i] :: start <= i < start + 16
  }

  lemma WindowSplit(error: Bits, start: nat)
    requires Burst(error, start) && start + 16 <= |error|
    ensures error == Zeros(start) + error[start..start + 16] + Zeros(|error| - start - 16)
  {
    assert error[..start] == Zeros(start);
    assert error[start + 16..] == Zeros(|error| - start - 16);
    assert error == error[..start] + error[start..start + 16] + error[start + 16..];
  }

  // A dividend that is zero outside one window of 16 bits leaves a remainder.
  lemma BurstRemainder(error: Bits, start: nat)
    requires Burst(error, start) && start + 16 <= |error|
    requires Divide(Zeros(16), error) == Zeros(16)
    ensures error[start..start + 16] == Zeros(16)
  {
    WindowSplit(error, start);
    DividePadded(error[start..start + 16], start, |error| - start - 16);
  }

  lemma WindowEmpty(error: Bits, start: nat)
    requires Burst(error, start) && start + 16 <= |error| && error[start..start + 16] == Zeros(16)
    ensures error == Zeros(|error|)
  {
    assert forall i | start <= i < start + 16 :: error[i] == error[start..start + 16][i - start];
  }

  lemma BurstVanishes(error: Bits, start: nat)
    requires Burst(error, start) && start + 16 <= |error|
    requires Divide(Zeros(16), error) == Zeros(16)
    ensures error == Zeros(|error|)
  {
    BurstRemainder(error, start);
    WindowEmpty(error, start);
  }

  // A single byte is padded to make room for a window.
  lemma ShortVanishes(error: Bits)
    requires |error| == 8
    requires Divide(Zeros(16), error) == Zeros(16)
    ensures error == Zeros(8)
  {
    var padded := Zeros(8) + error;
    assert Divide(Zeros(16), padded) == Zeros(16) by {
      DivideAppend(Zeros(16), Zeros(8), error);
      DivideZeros(Zeros(16), 8);
      PowerOfZero(8);
    }
    DivideWindow(padded);
    assert error == padded[8..];
  }

  /** Every error confined to 16 consecutive bits is detected, whatever the
      length of the message and wherever the burst lies. */
  lemma BurstDetected(a: seq<Byte>, b: seq<Byte>, start: nat)
    requires |a| == |b| && a != b
    requires Burst(Xor(MessageBits(a), MessageBits(b)), start)
    ensures CrcOf(a) != CrcOf(b)
  {
    var error := Xor(MessageBits(a), MessageBits(b));
    if CrcOf(a) == CrcOf(b) {
      assert Divide(Zeros(16), error) == Zeros(16) by {
        EqualChecksums(a, b);
      }
      assert error == Zeros(|error|) by {
        if |a| >= 2 {
          BurstVanishes(error, if start + 16 <= |error| then start else |error| - 16);
        } else if |a| == 1 {
          ShortVanishes(error);
        }
      }
      XorZeroOnly(MessageBits(a), MessageBits(b));
      MessageBitsInjective(a, b);
    }
  }

  // Equal checksums mean that the difference is divisible by the generator.
  lemma EqualChecksums(a: seq<Byte>, b: seq<Byte>)
    requires |a| == |b| && CrcOf(a) == CrcOf(b)
    ensures Divide(Zeros(16), Xor(MessageBits(a), MessageBits(b))) == Zeros(16)
  {
    MessageBitsXor(a, b);
    CrcLinear(a, b);
    XorZero(CrcOf(a), Zeros(16));
    CrcIsDivideAhead(XorBytes(a, b));
    TimesXPowInjective(Divide(Zeros(16), MessageBits(XorBytes(a, b))), 16);
  }

  /** Appending two bytes brings the checksum to 0 exactly when they are the
      checksum itself, high byte first. */
  lemma CrcResidue(data: seq<Byte>, hi: Byte, lo: Byte)
    ensures CrcOf(data + [hi, lo]) == Zeros(16) <==> hi + lo == CrcOf(data)
  {
    var bits := MessageBits(data);
    var whole := data + [hi, lo];
    assert whole[..|data| + 1] == data + [hi];
    assert (data + [hi])[..|data|] == data;
    assert MessageBits(whole) == bits + (hi + lo);
    CrcIsDivideAhead(data);
    CrcIsDivideAhead(whole);
    DivideAppend(Zeros(16), bits, hi + lo);
    var register := Divide(Zeros(16), bits);
    DivideShifted(register, hi + lo);
    XorZero(CrcOf(data), Zeros(16));
    if CrcOf(whole) == Zeros(16) {
      TimesXPowInjective(Divide(register, hi + lo), 16);
      XorZeroOnly(CrcOf(data), hi + lo);
    } else if hi + lo == CrcOf(data) {
      PowerOfZero(16);
    }
  }

  lemma XorZeroOnly(a: Bits, b: Bits)
    requires |a| == |b| && Xor(a, b) == Zeros(|a|)
    ensures a == b
  {
    assert forall i | 0 <= i < |a| :: Xor(a, b)[i] == (a[i] != b[i]);
  }

  // Taking in 16 bits multiplies by x^16 and adds them.
  lemma DivideShifted(r: Half, w: Half)
    ensures Divide(r, w) == Xor(TimesXPow(r, 16), w)
  {
    DivideLinearFrom(r, w);
    DivideZeros(r, 16);
    DivideWindow(w);
  }

  lemma {:induction false} DivideLinearFrom(r: Half, t: Bits)
    ensures Divide(r, t) == Xor(Divide(r, Zeros(|t|)), Divide(Zeros(16), t))
    decreases |t|
  {
    if t == [] {
      assert Zeros(0) == [];
      XorZero(r, Zeros(16));
    } else {
      var n := |t| - 1;
      assert Zeros(n + 1)[..n] == Zeros(n);
      DivideLinearFrom(r, t[..n]);
      TimesXLinear(Divide(r, Zeros(n)), Divide(Zeros(16), t[..n]));
      XorZero(TimesX(Divide(r, Zeros(n))), Constant(false));
    }
  }
}
