/**
 * Minute-granularity durations (`HumanDuration` in src/main.rs): an hours and a
 * minutes component, both 64-bit signed integers in the source. Rust's `/` and `%`
 * on integers truncate toward zero, so they are written out here rather than
 * using Dafny's Euclidean operators.
 */
module Durations {

  datatype HumanDuration = HumanDuration(hours: int, minutes: int)

  /** Rust's `a / 60` on integers: the quotient truncated toward zero. */
  function TruncDiv60(a: int): (q: int)
    ensures a >= 0 ==> 0 <= 60 * q <= a < 60 * q + 60
    ensures a < 0 ==> 60 * q - 60 < a <= 60 * q <= 0
  {
    if a >= 0 then a / 60 else -((-a) / 60)
  }

  /** Rust's `a % 60` on integers: the remainder takes the sign of the dividend. */
  function TruncRem60(a: int): (r: int)
    ensures a == 60 * TruncDiv60(a) + r
    ensures a >= 0 ==> 0 <= r < 60
    ensures a < 0 ==> -60 < r <= 0
  {
    if a >= 0 then a % 60 else -((-a) % 60)
  }

  /** The whole length of a duration in minutes. */
  function TotalMinutes(d: HumanDuration): int {
    d.hours * 60 + d.minutes
  }

  /** The form every sum of well-formed durations has: minutes in [0, 60). */
  predicate Normalized(d: HumanDuration) {
    0 <= d.minutes < 60
  }

  /** `HumanDuration::zero`: the well-formed duration of no length. */
  function Zero(): (z: HumanDuration)
    ensures Normalized(z) && z.hours == 0 && z.minutes == 0
  {
    HumanDuration(0, 0)
  }

  /**
   * `impl Add for HumanDuration`: minutes are summed, the truncated quotient by 60
   * is carried into the hours and the truncated remainder is kept as minutes.
   */
  function Add(a: HumanDuration, b: HumanDuration): (r: HumanDuration)
    ensures -60 < r.minutes < 60
  {
    HumanDuration(a.hours + b.hours + TruncDiv60(a.minutes + b.minutes), TruncRem60(a.minutes + b.minutes))
  }

  /**
   * The conversion of a time span into a duration (`Into<HumanDuration>` for
   * `chrono::Duration`) for a span of `span` whole minutes: `num_hours` truncates
   * toward zero and `num_minutes() % 60` keeps the sign of the span.
   */
  function FromSpan(span: int): (d: HumanDuration)
    ensures TotalMinutes(d) == span
    ensures span >= 0 ==> d == HumanDuration(span / 60, span % 60)
    ensures span >= 0 ==> Normalized(d) && d.hours >= 0
    ensures span < 0 ==> d.hours <= 0 && -60 < d.minutes <= 0
  {
    HumanDuration(TruncDiv60(span), TruncRem60(span))
  }
}

/** Algebraic laws of duration arithmetic. */
module DurationLaws {
  import opened Durations

  /** Addition carries the overflow of the minutes into the hours and loses no time. */
  lemma AddTotal(a: HumanDuration, b: HumanDuration)
    ensures TotalMinutes(Add(a, b)) == TotalMinutes(a) + TotalMinutes(b)
  {
  }

  /**
   * The minutes of a sum follow the sign of the operands' summed minutes: in
   * [0, 60) when that sum is not negative, and in (-60, 0] when it is, where
   * they are 0 exactly when the sum is a multiple of 60.
   */
  lemma AddMinutesRange(a: HumanDuration, b: HumanDuration)
    ensures a.minutes + b.minutes >= 0 ==> Normalized(Add(a, b))
    ensures a.minutes + b.minutes < 0 ==> -60 < Add(a, b).minutes <= 0
    ensures a.minutes + b.minutes < 0 ==>
      (Add(a, b).minutes == 0 <==> (a.minutes + b.minutes) % 60 == 0)
  {
    var m := a.minutes + b.minutes;
    if m < 0 {
      assert TruncRem60(m) == -((-m) % 60);
      assert (-m) % 60 == 0 <==> m % 60 == 0;
    }
  }

  /**
   * The sum of two durations whose minutes are not negative is normalized, and it
   * is not negative when neither operand is.
   */
  lemma AddNormalized(a: HumanDuration, b: HumanDuration)
    requires a.minutes >= 0 && b.minutes >= 0
    ensures Normalized(Add(a, b))
    ensures a.hours >= 0 && b.hours >= 0 ==> Add(a, b).hours >= 0
  {
    assert a.minutes + b.minutes >= 0;
  }

  /** Two normalized durations of the same length are the same duration. */
  lemma NormalizedUnique(a: HumanDuration, b: HumanDuration)
    requires Normalized(a) && Normalized(b)
    requires TotalMinutes(a) == TotalMinutes(b)
    ensures a == b
  {
  }

  /** Addition does not depend on the order of its operands. */
  lemma AddCommutative(a: HumanDuration, b: HumanDuration)
    ensures Add(a, b) == Add(b, a)
  {
  }

  /** On normalized durations addition is associative. */
  lemma AddAssociative(a: HumanDuration, b: HumanDuration, c: HumanDuration)
    requires Normalized(a) && Normalized(b) && Normalized(c)
    ensures Add(a, Add(b, c)) == Add(Add(a, b), c)
  {
    AddTotal(b, c);
    AddTotal(a, Add(b, c));
    AddTotal(a, b);
    AddTotal(Add(a, b), c);
    AddNormalized(b, c);
    AddNormalized(a, b);
    AddNormalized(a, Add(b, c));
    AddNormalized(Add(a, b), c);
    NormalizedUnique(Add(a, Add(b, c)), Add(Add(a, b), c));
  }

  /** Zero is a left and right identity for every duration whose minutes lie in (-60, 60). */
  lemma ZeroIdentity(d: HumanDuration)
    requires -60 < d.minutes < 60
    ensures Add(Zero(), d) == d && Add(d, Zero()) == d
  {
    assert TruncDiv60(d.minutes) == 0;
  }
}
