/** Machine words as bit vectors, most significant bit first, with the C
    operators the drivers apply to them. */
module Bits {

  type Bits = seq<bool>
  type Byte = b: Bits | |b| == 8 witness seq(8, i => false)
  type Half = h: Bits | |h| == 16 witness seq(16, i => false)
  type Word = w: Bits | |w| == 32 witness seq(32, i => false)

  function Zeros(n: nat): (r: Bits)
    ensures |r| == n
  {
    seq(n, i => false)
  }

  function Ones(n: nat): (r: Bits)
    ensures |r| == n
  {
    seq(n, i => true)
  }

  function Xor(a: Bits, b: Bits): (r: Bits)
    requires |a| == |b|
    ensures |r| == |a|
  {
    seq(|a|, i requires 0 <= i < |a| => a[i] != b[i])
  }

  function And(a: Bits, b: Bits): (r: Bits)
    requires |a| == |b|
    ensures |r| == |a|
  {
    seq(|a|, i requires 0 <= i < |a| => a[i] && b[i])
  }

  function ShiftLeft(a: Bits, n: nat): (r: Bits)
    requires n <= |a|
    ensures |r| == |a|
  {
    a[n..] + Zeros(n)
  }

  function ShiftRight(a: Bits, n: nat): (r: Bits)
    requires n <= |a|
    ensures |r| == |a|
  {
    Zeros(n) + a[..|a| - n]
  }

  function Pow2(k: nat): (p: nat)
    ensures p > 0
  {
    if k == 0 then 1 else 2 * Pow2(k - 1)
  }

  /** The unsigned number a bit vector stands for. */
  function Value(a: Bits): nat {
    if a == [] then 0 else 2 * Value(a[..|a| - 1]) + (if a[|a| - 1] then 1 else 0)
  }

  /** The n lowest bits of a number. */
  function BitsOf(value: nat, n: nat): (r: Bits)
    ensures |r| == n
  {
    if n == 0 then [] else BitsOf(value / 2, n - 1) + [value % 2 == 1]
  }

  /** A number as a word. */
  function Number(value: nat): Word {
    BitsOf(value, 32)
  }

  lemma {:induction false} ValueOfBits(value: nat, n: nat)
    requires value < Pow2(n)
    ensures Value(BitsOf(value, n)) == value
    decreases n
  {
    if n == 0 {
    } else {
      ValueOfBits(value / 2, n - 1);
      assert BitsOf(value, n)[..n - 1] == BitsOf(value / 2, n - 1);
    }
  }

  lemma ValueOfNumber(value: nat)
    requires value < 0x1_0000_0000
    ensures Value(Number(value)) == value
  {
    assert Pow2(8) == 0x100 && Pow2(16) == 0x1_0000;
    assert Pow2(24) == 0x100_0000 && Pow2(32) == 0x1_0000_0000;
    ValueOfBits(value, 32);
  }

  lemma {:induction false} BitsOfZero(n: nat)
    ensures BitsOf(0, n) == Zeros(n)
  {
    if n == 0 {
    } else {
      BitsOfZero(n - 1);
    }
  }

  // The two words that stand for truth values.
  lemma SmallNumbers()
    ensures Number(0) == Zeros(32) && Number(1) == Zeros(31) + [true]
  {
    BitsOfZero(32);
    BitsOfZero(31);
  }
}
