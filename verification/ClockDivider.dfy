/** How the driver turns a wanted bus speed into a clock divider. */
module ClockDivider {
  import opened Arithmetic

  const CORE_CLK_HZ: nat := 250000000
  const AUX_CLOCK_MIN: nat := 30500
  const AUX_CLOCK_MAX: nat := 125000000
  const AUX_SPEED_MAX: nat := 0xFFF

  function Clamped(speed: nat): nat {
    if speed < AUX_CLOCK_MIN then AUX_CLOCK_MIN else if speed > AUX_CLOCK_MAX then AUX_CLOCK_MAX else speed
  }

  /** bcm2835_aux_spi_CalcClockDivider, with the wrap-around of its 32-bit sum and 16-bit cast. */
  function AuxDivider(speed: nat): nat {
    var twice := 2 * Clamped(speed) % WORD32;
    var rounded := (CORE_CLK_HZ + twice - 1) % WORD32 / twice % WORD16;
    var divider := (rounded - 1) % WORD16;
    if divider > AUX_SPEED_MAX then AUX_SPEED_MAX else divider
  }

  /** The clock of divider d, CORE_CLK_HZ / (2 * (d + 1)), does not exceed the speed. */
  predicate NotFaster(d: nat, speed: nat) {
    CORE_CLK_HZ <= 2 * speed * (d + 1)
  }

  lemma RoundedQuotient(speed: nat)
    ensures var m := 2 * Clamped(speed); var q := (CORE_CLK_HZ + m - 1) / m;
            1 <= q <= 4099 && (q - 1) * m < CORE_CLK_HZ <= q * m
  {
    var m := 2 * Clamped(speed);
    var q := (CORE_CLK_HZ + m - 1) / m;
    DivBounds(CORE_CLK_HZ + m - 1, m);
    DivReaches(CORE_CLK_HZ + m - 1, m, 1);
    DivReaches(CORE_CLK_HZ + m - 1, m, 4100);
    assert (q - 1) * m == q * m - m;
  }

  /** Nothing wraps: the divider is one less than the quotient rounded up, or the limit. */
  lemma AuxDividerExact(speed: nat)
    ensures var m := 2 * Clamped(speed); var q := (CORE_CLK_HZ + m - 1) / m;
            && (q - 1) * m < CORE_CLK_HZ <= q * m
            && AuxDivider(speed) == if q - 1 > AUX_SPEED_MAX then AUX_SPEED_MAX else q - 1
  {
    var m := 2 * Clamped(speed);
    assert m % WORD32 == m && (CORE_CLK_HZ + m - 1) % WORD32 == CORE_CLK_HZ + m - 1;
    var q := (CORE_CLK_HZ + m - 1) / m;
    RoundedQuotient(speed);
    Casts(q);
  }

  lemma Casts(q: nat)
    requires 1 <= q <= 4099
    ensures q % WORD16 == q && (q - 1) % WORD16 == q - 1
  {
  }

  /** The divider is the smallest whose clock does not exceed the wanted speed; where no
      divider of 12 bits is slow enough it is the largest. */
  lemma AuxDividerOptimal(speed: nat)
    requires 30500 <= speed <= 125000000
    ensures AuxDivider(speed) <= 4095
    ensures NotFaster(AuxDivider(speed), speed) || AuxDivider(speed) == 4095
    ensures forall e: nat :: e < AuxDivider(speed) ==> !NotFaster(e, speed)
    ensures 250000000 <= 2 * speed * (AuxDivider(speed) + 1) || AuxDivider(speed) == 4095
    ensures AuxDivider(speed) > 0 ==> 2 * speed * AuxDivider(speed) < 250000000
  {
    AuxDividerExact(speed);
    var m := 2 * speed;
    var q := (CORE_CLK_HZ + m - 1) / m;
    forall e: nat | e < AuxDivider(speed)
      ensures !NotFaster(e, speed)
    {
      MulOrder(e, q - 1, m);
    }
    if AuxDivider(speed) > 0 {
      assert !NotFaster(AuxDivider(speed) - 1, speed);
    }
  }

  /** Speeds out of range get the divider of the nearest one in range. */
  lemma AuxDividerClamps(speed: nat)
    ensures speed < 30500 ==> AuxDivider(speed) == AuxDivider(30500) == 4095
    ensures speed > 125000000 ==> AuxDivider(speed) == AuxDivider(125000000) == 0
  {
    hide AuxDivider;
    AuxDividerExact(speed);
    AuxDividerExact(30500);
    AuxDividerExact(125000000);
  }

  /** A higher speed never gets a larger divider. */
  lemma AuxDividerAntitone(slow: nat, fast: nat)
    requires slow <= fast
    ensures AuxDivider(fast) <= AuxDivider(slow)
  {
    hide AuxDivider;
    AuxDividerExact(slow);
    AuxDividerExact(fast);
    var m, n := 2 * Clamped(slow), 2 * Clamped(fast);
    QuotientAntitone((CORE_CLK_HZ + m - 1) / m, m, (CORE_CLK_HZ + n - 1) / n, n);
  }

  lemma QuotientAntitone(p: nat, m: nat, q: nat, n: nat)
    requires m <= n && CORE_CLK_HZ <= p * m && (q - 1) * n < CORE_CLK_HZ
    ensures q <= p
  {
    assert p * m <= p * n;
    assert (p + 1) * n == p * n + n && (q - 1) * n == q * n - n;
    MulOrder(p, q, n);
  }

  /** The divider bcm2835_spi_set_speed_hz writes: cut to 16 bits, then made even. */
  function SpiDivider(speed: nat): nat
    requires 0 < speed
  {
    var divider := CORE_CLK_HZ / speed % WORD16;
    divider - divider % 2
  }

  /** The largest even divider whose clock, CORE_CLK_HZ / d, is not below the speed. */
  predicate LargestEven(d: nat, speed: nat) {
    2 <= d && d % 2 == 0 && d * speed <= CORE_CLK_HZ < (d + 2) * speed
  }

  /** That is what the driver picks exactly for the speeds whose quotient fits 16 bits and
      leaves a divider at all: below 3815 Hz it wraps, above 125 MHz it becomes zero. */
  lemma SpiDividerOptimal(speed: nat)
    requires 0 < speed
    ensures LargestEven(SpiDivider(speed), speed) <==> 3815 <= speed <= 125000000
    ensures 3815 <= speed <= 125000000 ==>
              var d := SpiDivider(speed);
              2 <= d && d % 2 == 0 && d * speed <= 250000000 < (d + 2) * speed
  {
    var q := CORE_CLK_HZ / speed;
    DivBounds(CORE_CLK_HZ, speed);
    DivReaches(CORE_CLK_HZ, speed, WORD16);
    DivReaches(CORE_CLK_HZ, speed, 2);
    if q < WORD16 {
      var d := q - q % 2;
      assert SpiDivider(speed) == d;
      MulOrder(d, q + 1, speed);
      MulOrder(q, d + 2, speed);
    } else {
      var d := SpiDivider(speed);
      MulOrder(d + 1, q, speed);
    }
  }
}
