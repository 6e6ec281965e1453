/** Oscillator trim: successive approximation of the greatest trim code that does
    not run the clock too fast. */
module TrimSearch {
  import opened Bits

  const TRIM_MSB: nat := 9
  const CODES: nat := 1024 // of TRIM_MSB + 1 bits
  const RTC_HZ: nat := 32768
  const PERIOD: nat := 100 // RTC ticks of one measurement

  datatype Mode = Mhz32 | Mhz16 | Mhz8 | Mhz4

  function Hertz(mode: Mode): nat {
    match mode
    case Mhz32 => 32000000
    case Mhz16 => 16000000
    case Mhz8 => 8000000
    case Mhz4 => 4000000
  }

  /** Timestamp ticks wanted in one measurement; the divisions truncate. */
  function Desired(mode: Mode): nat {
    Hertz(mode) / 2 / RTC_HZ * PERIOD
  }

  /** The speeds wanted, in the order of the modes. */
  lemma Targets()
    ensures Desired(Mhz32) == 48800 && Desired(Mhz16) == 24400 && Desired(Mhz8) == 12200 && Desired(Mhz4) == 6100
  {
  }

  /** The bits from k up, as a number whose lower bits are clear. */
  ghost predicate Multiple(code: nat, k: nat) {
    exists q: nat :: code == q * Pow2(k)
  }

  // Setting bit k where it and all lower bits are clear.
  lemma SetBit(code: nat, k: nat)
    requires Multiple(code, k + 1) && code + Pow2(k + 1) <= CODES
    ensures Multiple(code, k) && Multiple(code + Pow2(k), k)
    ensures code + Pow2(k) + Pow2(k) == code + Pow2(k + 1)
  {
    var q: nat :| code == q * Pow2(k + 1);
    assert code == 2 * q * Pow2(k);
    assert code + Pow2(k) == (2 * q + 1) * Pow2(k);
  }

  lemma TopBit()
    ensures Pow2(TRIM_MSB + 1) == CODES && Pow2(0) == 1 && Multiple(0, TRIM_MSB + 1)
  {
    assert Pow2(4) == 16 && Pow2(8) == 256;
    assert 0 == 0 * Pow2(TRIM_MSB + 1);
  }

  /** For any measured speed, monotone or not, the search ends at a crossing: the
      code found is not too fast, or is zero; the next code is too fast, or there
      is none. */
  ghost predicate Crossing(measured: nat -> nat, target: nat, code: nat) {
    && code < CODES
    && (code == 0 || measured(code) <= target)
    && (code + 1 == CODES || measured(code + 1) > target)
  }

  /** The code found so far will do, and the next one the search left behind is too
      fast. */
  ghost predicate Brackets(measured: nat -> nat, target: nat, code: nat, above: nat) {
    && (code == 0 || measured(code) <= target)
    && (above == CODES || measured(above) > target)
  }

  /** `measured(c)` is the number of ticks that one period takes under code c. */
  method TrimCompute(mode: Mode, measured: nat -> nat) returns (trim: nat)
    ensures Crossing(measured, Desired(mode), trim)
  {
    var trimCode: nat := 0;
    var i := TRIM_MSB;
    TopBit();
    while i >= 0
      invariant -1 <= i <= TRIM_MSB
      invariant Multiple(trimCode, i + 1) && trimCode + Pow2(i + 1) <= CODES
      invariant Brackets(measured, Desired(mode), trimCode, trimCode + Pow2(i + 1))
    {
      hide Multiple, Desired, Pow2;
      SetBit(trimCode, i);
      var mask := Pow2(i);
      trimCode := trimCode + mask; // the bit was clear: set it
      if measured(trimCode) > Desired(mode) {
        trimCode := trimCode - mask; // too fast: unset the bit
      }
      i := i - 1;
    }
    return trimCode;
  }

  ghost predicate NonDecreasing(measured: nat -> nat) {
    forall a: nat, b: nat | a <= b :: measured(a) <= measured(b)
  }

  /** For a measured speed that never falls with the code, that is the greatest code
      that is not too fast, or zero if there is none. */
  lemma GreatestCode(measured: nat -> nat, target: nat, code: nat)
    requires Crossing(measured, target, code) && NonDecreasing(measured)
    ensures forall c: nat | c < CODES && measured(c) <= target :: c <= code
    ensures measured(code) <= target || forall c: nat | c < CODES :: measured(c) > target
  {
    if code == 0 && measured(0) > target {
      forall c: nat | c < CODES
        ensures measured(c) > target
      {
        assert measured(0) <= measured(c);
      }
    }
    forall c: nat | code < c < CODES
      ensures measured(c) > target
    {
      assert measured(code + 1) <= measured(c);
    }
  }

  /** The crossing is unique then: the search has one answer. */
  lemma OneCrossing(measured: nat -> nat, target: nat, a: nat, b: nat)
    requires NonDecreasing(measured) && Crossing(measured, target, a) && Crossing(measured, target, b)
    ensures a == b
  {
    GreatestCode(measured, target, a);
    GreatestCode(measured, target, b);
  }

  /** Without monotony a crossing need not be the greatest code that will do: here
      code 3 would do as well as 0, and every single bit is too fast. */
  lemma NotGreatest()
    ensures var measured := (c: nat) => if c == 0 || c == 3 then 0 else 1;
      Crossing(measured, 0, 0) && measured(3) <= 0
  {
  }
}
