/** The arithmetic of the local APIC timer: calibration against the PIT and the choice of divider. */
module Timer {
  import opened Bits

  const MAX_COUNT: nat := 0xFFFF_FFFF

  /** The largest frequency a calibration over at least ten PIT ticks can give. */
  const CALIBRATED_MAX: nat := MAX_COUNT * 100

  lemma QuotientBounds(x: nat, d: nat)
    requires 0 < d
    ensures x / d * d <= x < (x / d + 1) * d
  {
    var q, r := x / d, x % d;
    assert x == q * d + r;
    assert (q + 1) * d == q * d + d;
  }

  lemma Scaled(a: nat, b: nat, d: nat)
    requires a <= b
    ensures a * d <= b * d
  {
    assert b * d == a * d + (b - a) * d;
  }

  lemma QuotientBelow(x: nat, d: nat, q: nat, limit: nat)
    requires 0 < d && limit == (q + 1) * d && x < limit
    ensures x / d <= q
  {
    QuotientBounds(x, d);
    if q < x / d {
      Scaled(q + 1, x / d, d);
      assert false;
    }
  }

  /** The counters are read from hardware; the difference of the two counts is 32-bit. */
  method CalibrateFrequency(startCount: nat, endCount: nat, pitTicks: nat) returns (frequency: nat)
    requires startCount < WORD32 && endCount < WORD32
    ensures pitTicks == 0 ==> frequency == 0
    ensures pitTicks != 0 ==> frequency * pitTicks <= (startCount - endCount) % WORD32 * 1000 < (frequency + 1) * pitTicks
    ensures 10 <= pitTicks ==> frequency <= CALIBRATED_MAX
  {
    if pitTicks == 0 {
      return 0;
    }
    var apicTicks := (startCount - endCount) % WORD32;
    frequency := apicTicks * 1000 / pitTicks;
    QuotientBounds(apicTicks * 1000, pitTicks);
    if 10 <= pitTicks {
      QuotientBelow(apicTicks * 1000, pitTicks, CALIBRATED_MAX, (CALIBRATED_MAX + 1) * pitTicks);
    }
  }

  predicate IsDivider(d: int) {
    d == 1 || d == 2 || d == 4 || d == 8 || d == 16 || d == 32 || d == 64 || d == 128
  }

  /** The count for a divider. */
  function CountFor(frequency: nat, target: nat, d: nat): nat
    requires 0 < target && 0 < d
  {
    frequency / (target * d)
  }

  /** Whatever the calibrated frequency and the target, a divider of 128 is always enough. */
  lemma LargestDividerFits(frequency: nat, target: nat)
    requires 0 < target && frequency <= CALIBRATED_MAX
    ensures CountFor(frequency, target, 128) <= MAX_COUNT
  {
    QuotientBelow(frequency, target * 128, MAX_COUNT, (MAX_COUNT + 1) * (target * 128));
  }

  /** When the search runs at all the target is below 100, so target times divider fits 32 bits. */
  lemma SmallTarget(frequency: nat, target: nat)
    requires 0 < target && frequency <= CALIBRATED_MAX && frequency / target > MAX_COUNT
    ensures target < 100
  {
    if target >= 100 {
      QuotientBelow(frequency, target, MAX_COUNT, (MAX_COUNT + 1) * target);
    }
  }

  lemma NoWrap(target: nat, i: nat)
    requires 0 < target < 100 && 0 < i <= 128
    ensures 0 < target * i && target * i % WORD32 == target * i
  {
    Scaled(i, 128, target);
  }

  /** The least divider whose count fits 32 bits, and that count; the fallback for a count that
      fits with no divider is never taken. */
  method ChooseDivider(frequency: nat, target: nat) returns (divider: int, count: int, fallback: bool)
    requires 0 < target < WORD32 && frequency <= CALIBRATED_MAX
    ensures !fallback && IsDivider(divider) && 0 <= count <= MAX_COUNT
    ensures count * (target * divider) <= frequency < (count + 1) * (target * divider)
    ensures forall d: nat :: IsDivider(d) && d < divider ==> CountFor(frequency, target, d) > MAX_COUNT
  {
    divider, count, fallback := 1, frequency / target, false;
    assert target * 1 == target;
    assert count == CountFor(frequency, target, 1);
    if count > MAX_COUNT {
      SmallTarget(frequency, target);
      LargestDividerFits(frequency, target);
      var i := 1;
      while i <= 128
        invariant IsDivider(i) || i == 256
        invariant forall d: nat :: IsDivider(d) && d < i ==> CountFor(frequency, target, d) > MAX_COUNT
        decreases 256 - i
      {
        NoWrap(target, i);
        count := frequency / (target * i % WORD32);
        assert count == CountFor(frequency, target, i);
        if count <= MAX_COUNT {
          divider := i;
          break;
        }
        i := i * 2;
      }
      assert count <= MAX_COUNT && count == CountFor(frequency, target, divider);
    }
    if count > MAX_COUNT {
      count, divider, fallback := MAX_COUNT, 128, true;
    }
    QuotientBounds(frequency, target * divider);
  }

  /** The divide-configuration code of the source. */
  function DividerCode(d: nat): nat {
    match d
    case 1 => 0x0B
    case 2 => 0x00
    case 4 => 0x01
    case 8 => 0x02
    case 16 => 0x03
    case 32 => 0x08
    case 64 => 0x09
    case 128 => 0x0A
    case _ => 0x0B
  }

  /** How the hardware reads the code: bits 3, 1 and 0 give a power of two, all ones give one
      (section 10.5.4 of the Intel SDM, volume 3A). */
  function DecodedDivider(code: nat): nat {
    var bits := code / 8 % 2 * 4 + code % 4;
    match bits
    case 0 => 2
    case 1 => 4
    case 2 => 8
    case 3 => 16
    case 4 => 32
    case 5 => 64
    case 6 => 128
    case _ => 1
  }

  lemma DividerCodeRoundTrip(d: nat)
    requires IsDivider(d)
    ensures DecodedDivider(DividerCode(d)) == d
  {
  }

  /** What is written to the timer: nothing before calibration, otherwise a code that the hardware
      reads as the chosen divider, and its count. */
  method SetFrequency(frequency: nat, target: nat) returns (configured: bool, code: nat, count: int)
    requires 0 < target < WORD32 && frequency <= CALIBRATED_MAX
    ensures configured <==> frequency != 0
    ensures configured ==>
              var d := DecodedDivider(code);
              && IsDivider(d) && 0 <= count <= MAX_COUNT
              && count * (target * d) <= frequency < (count + 1) * (target * d)
              && forall e: nat :: IsDivider(e) && e < d ==> CountFor(frequency, target, e) > MAX_COUNT
  {
    configured, code, count := false, 0, 0;
    if frequency == 0 {
      return;
    }
    var divider, fallback;
    divider, count, fallback := ChooseDivider(frequency, target);
    DividerCodeRoundTrip(divider);
    configured, code := true, DividerCode(divider);
  }
}
