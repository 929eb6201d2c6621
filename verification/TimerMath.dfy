/** Counts and rates of the local APIC timer, in the 64-bit arithmetic that computes them. */
module TimerMath {
  import opened Architecture
  import opened Seqs

  const SECOND: nat := 1_000_000_000
  const MAX_COUNT: nat := 0xFFFF_FFFF

  /** The scaled seconds and the scaled remainder put together. */
  function Requested(whole: nat, part: nat): nat {
    (whole % WORD + part % WORD / SECOND) % WORD
  }

  function Product(a: nat, b: nat): nat {
    a * b
  }

  /** The one-shot count for an interval, split so that the seconds and the remainder
      are scaled apart; every product and sum is taken modulo 2^64. */
  function CountForNanoseconds(rate: nat, nanoseconds: nat): Option<nat>
    requires rate < WORD && nanoseconds < WORD
  {
    if rate == 0 || nanoseconds == 0 then None
    else if nanoseconds / SECOND > MAX_COUNT / rate then None
    else
      var requested := Requested(Product(nanoseconds / SECOND, rate), Product(nanoseconds % SECOND, rate));
      if requested == 0 || requested > MAX_COUNT then None else Some(requested)
  }

  /** The count the interval deserves: its exact floor, when the register can hold it. */
  function ExactCount(rate: nat, nanoseconds: nat): Option<nat> {
    var exact := nanoseconds * rate / SECOND;
    if 1 <= exact <= MAX_COUNT then Some(exact) else None
  }

  /** The remainder's product stays below 2^64. */
  predicate Fits(rate: nat, nanoseconds: nat) {
    nanoseconds % SECOND * rate < WORD
  }

  /** What is left of the remainder's product after wrapping, as a count. */
  function WrappedCount(rate: nat, nanoseconds: nat): nat {
    nanoseconds % SECOND * rate % WORD / SECOND
  }

  lemma SplitScale(rate: nat, seconds: nat, rest: nat)
    ensures (seconds * SECOND + rest) * rate / SECOND == seconds * rate + rest * rate / SECOND
  {
    var whole, part := seconds * rate, rest * rate;
    assert (seconds * SECOND + rest) * rate == whole * SECOND + part by {
      assert (seconds * SECOND + rest) * rate == seconds * SECOND * rate + rest * rate;
      assert seconds * SECOND * rate == whole * SECOND;
    }
    Carry(whole, part);
  }

  lemma Carry(whole: nat, part: nat)
    ensures (whole * SECOND + part) / SECOND == whole + part / SECOND
  {
  }

  lemma SecondsBound(rate: nat, seconds: nat)
    requires 0 < rate
    ensures seconds > MAX_COUNT / rate <==> seconds * rate > MAX_COUNT
  {
    var q := MAX_COUNT / rate;
    assert q * rate <= MAX_COUNT < (q + 1) * rate by { assert MAX_COUNT == rate * q + MAX_COUNT % rate; }
    if seconds > q {
      assert seconds * rate >= (q + 1) * rate by { Monotone(q + 1, seconds, rate); }
    } else {
      assert seconds * rate <= q * rate by { Monotone(seconds, q, rate); }
    }
  }

  lemma Monotone(a: nat, b: nat, k: nat)
    requires a <= b
    ensures a * k <= b * k
  {
    assert b * k == a * k + (b - a) * k;
  }

  /** Without wrapping, the split computes the exact count, and refuses exactly the
      intervals the register cannot express. */
  lemma ExactWhenFits(rate: nat, nanoseconds: nat)
    requires rate < WORD && nanoseconds < WORD && Fits(rate, nanoseconds)
    ensures CountForNanoseconds(rate, nanoseconds) == ExactCount(rate, nanoseconds)
  {
    hide Requested;
    var seconds, rest := nanoseconds / SECOND, nanoseconds % SECOND;
    SplitScale(rate, seconds, rest);
    assert nanoseconds == seconds * SECOND + rest;
    if rate > 0 {
      SecondsBound(rate, seconds);
      Scaled(seconds * rate, rest * rate);
    }
  }

  lemma Scaled(whole: nat, part: nat)
    requires part < WORD
    ensures whole <= MAX_COUNT ==> Requested(whole, part) == whole + part / SECOND
  {
  }

  /** With wrapping, the interval always deserves a refusal. */
  lemma WrapDeservesRefusal(rate: nat, nanoseconds: nat)
    requires !Fits(rate, nanoseconds)
    ensures ExactCount(rate, nanoseconds) == None
    ensures rate > MAX_COUNT
  {
    SlowRateFits(rate, nanoseconds);
    SplitScale(rate, nanoseconds / SECOND, nanoseconds % SECOND);
    TooLarge(nanoseconds / SECOND * rate, nanoseconds % SECOND * rate);
  }

  lemma TooLarge(whole: nat, part: nat)
    requires part >= WORD
    ensures whole + part / SECOND > MAX_COUNT
  {
  }

  lemma SlowRateFits(rate: nat, nanoseconds: nat)
    ensures rate <= MAX_COUNT ==> Fits(rate, nanoseconds)
  {
    if rate <= MAX_COUNT {
      Monotone(nanoseconds % SECOND, SECOND - 1, rate);
      Monotone(rate, MAX_COUNT, SECOND - 1);
    }
  }

  /** The conversion is right exactly when nothing wraps, or what is left after
      wrapping is itself not a count, or the interval has whole seconds. */
  lemma CountExactly(rate: nat, nanoseconds: nat)
    requires rate < WORD && nanoseconds < WORD
    ensures CountForNanoseconds(rate, nanoseconds) == ExactCount(rate, nanoseconds) <==>
      || Fits(rate, nanoseconds)
      || nanoseconds >= SECOND
      || !(1 <= WrappedCount(rate, nanoseconds) <= MAX_COUNT)
  {
    if Fits(rate, nanoseconds) {
      ExactWhenFits(rate, nanoseconds);
    } else {
      hide Fits, ExactCount;
      WrapDeservesRefusal(rate, nanoseconds);
      WrappedAnswer(rate, nanoseconds);
    }
  }

  /** A rate above the register's range leaves only the remainder to count. */
  lemma WrappedAnswer(rate: nat, nanoseconds: nat)
    requires MAX_COUNT < rate < WORD && 0 < nanoseconds < WORD
    ensures CountForNanoseconds(rate, nanoseconds) ==
      var w := WrappedCount(rate, nanoseconds);
      if nanoseconds < SECOND && 1 <= w <= MAX_COUNT then Some(w) else None
  {
    hide Requested, WrappedCount;
    var seconds, rest := nanoseconds / SECOND, nanoseconds % SECOND;
    BelowOne(rate);
    if nanoseconds < SECOND {
      assert seconds * rate == 0;
      Small(rest * rate);
      WrappedIs(rate, nanoseconds, rest * rate);
    }
  }

  lemma BelowOne(rate: nat)
    requires MAX_COUNT < rate
    ensures MAX_COUNT / rate == 0
  {
  }

  lemma WrappedIs(rate: nat, nanoseconds: nat, part: nat)
    requires part == nanoseconds % SECOND * rate
    ensures WrappedCount(rate, nanoseconds) == part % WORD / SECOND
  {
  }

  lemma Small(part: nat)
    ensures Requested(0, part) == part % WORD / SECOND
  {
  }

  /** So every rate below 2^64 / (10^9 - 1) converts every interval exactly. */
  lemma BoundedRateIsExact(rate: nat, nanoseconds: nat)
    requires nanoseconds < WORD && rate * (SECOND - 1) < WORD
    ensures rate < WORD && CountForNanoseconds(rate, nanoseconds) == ExactCount(rate, nanoseconds)
  {
    Monotone(nanoseconds % SECOND, SECOND - 1, rate);
    ExactWhenFits(rate, nanoseconds);
  }

  // ----- calibration -----

  datatype RateError = BadFrequency | CounterExhausted | NotCounting
  datatype Rate = Measured(rate: nat) | Failed(error: RateError)

  /** One observed countdown, scaled by the reference span. */
  function RateFromCountdown(start: nat, end: nat, frequency: nat, ticks: nat): Rate
    requires start <= MAX_COUNT && end <= MAX_COUNT && frequency <= MAX_COUNT && ticks < WORD
  {
    if frequency == 0 || ticks == 0 then Failed(BadFrequency)
    else if end == 0 then Failed(CounterExhausted)
    else if start <= end then Failed(NotCounting)
    else
      var rate := (start - end) * frequency % WORD / ticks;
      if rate == 0 then Failed(NotCounting) else Measured(rate)
  }

  /** The product never wraps, so a measured rate is the exact floor, and never zero. */
  lemma RateIsExact(start: nat, end: nat, frequency: nat, ticks: nat)
    requires start <= MAX_COUNT && end <= MAX_COUNT && frequency <= MAX_COUNT && ticks < WORD
    ensures var r := RateFromCountdown(start, end, frequency, ticks);
      r.Measured? <==> 0 < end < start && 0 < ticks <= (start - end) * frequency
    ensures var r := RateFromCountdown(start, end, frequency, ticks);
      r.Measured? ==> r.rate == (start - end) * frequency / ticks > 0 && r.rate < WORD
  {
    if 0 < end < start {
      Monotone(start - end, MAX_COUNT, frequency);
      Monotone(frequency, MAX_COUNT, MAX_COUNT);
      var product := (start - end) * frequency;
      assert product < WORD;
      if ticks > 0 { Quotient(product, ticks); }
    }
  }

  lemma Quotient(product: nat, ticks: nat)
    requires ticks > 0
    ensures product / ticks > 0 <==> ticks <= product
    ensures product / ticks <= product
  {
    if product < ticks { assert product / ticks == 0; } else { assert product / ticks >= 1; }
    var q := product / ticks;
    assert product == ticks * q + product % ticks;
    Monotone(1, ticks, q);
  }

  /** A countdown that calibration accepts measures twenty gigahertz, and at that rate
      nearly a second, which must be refused, is armed as less than a tenth of one. */
  lemma FastRateWraps()
    ensures RateFromCountdown(0xFFFF_FFFF, 294_967_295, 3_579_545, 715_909) == Measured(20_000_000_000)
    ensures CountForNanoseconds(20_000_000_000, 999_999_999) == Some(1_553_255_906)
    ensures ExactCount(20_000_000_000, 999_999_999) == None
  {
    assert 4_000_000_000 * 3_579_545 == 20_000_000_000 * 715_909;
    assert 999_999_999 * 20_000_000_000 == 19_999_999_980_000_000_000;
    assert 19_999_999_980_000_000_000 % WORD == 1_553_255_906_290_448_384;
  }

  /** Calibration does not by itself keep the rate under the bound. */
  lemma CalibrationAllowsWrap()
    ensures var r := RateFromCountdown(0xFFFF_FFFF, 1, 3_579_545, 357_954);
      r.Measured? && r.rate * (SECOND - 1) >= WORD
  {
    assert 0xFFFF_FFFE * 3_579_545 == 15_374_028_702_401_230;
    assert 15_374_028_702_401_230 / 357_954 == 42_949_732_933;
  }

  /** The periodic count. */
  function CountForFrequency(rate: nat, frequency: nat): Option<nat> {
    if frequency == 0 || rate == 0 then None
    else
      var requested := rate / frequency;
      if requested == 0 || requested > MAX_COUNT then None else Some(requested)
  }

  /** Whole input ticks in one period of the frequency, as the register can hold them. */
  ghost predicate IsPeriod(rate: nat, frequency: nat, count: nat) {
    1 <= count <= MAX_COUNT && 0 < frequency && count * frequency <= rate < (count + 1) * frequency
  }

  /** A count is answered exactly when it is that number. */
  lemma PeriodicIsExact(rate: nat, frequency: nat, count: nat)
    ensures CountForFrequency(rate, frequency) == Some(count) <==> IsPeriod(rate, frequency, count)
  {
    if frequency > 0 {
      var q := rate / frequency;
      assert q * frequency <= rate < (q + 1) * frequency by { assert rate == frequency * q + rate % frequency; }
      if count < q { Monotone(count + 1, q, frequency); }
      if q < count { Monotone(q + 1, count, frequency); }
    }
  }
}
