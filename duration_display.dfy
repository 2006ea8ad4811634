/**
 * The text form of a duration (`impl Display for HumanDuration`): the format
 * string `{:02}:{:02}h`, that is hours and minutes each zero-padded to a width of
 * two characters, separated by a colon and followed by the letter h. Rust pads a
 * negative number after its sign, so `{:02}` prints -5 as "-5".
 */
module DurationDisplay {
  import opened Wrappers
  import opened Durations

  predicate IsDigit(c: char) {
    '0' as int <= c as int <= '9' as int
  }

  function DigitChar(d: nat): (c: char)
    requires d < 10
    ensures IsDigit(c) && c as int - '0' as int == d
  {
    '0' + d as char
  }

  /** The decimal digits of `n`, without leading zeros. */
  function NatToString(n: nat): (s: string)
    ensures |s| >= 1
    ensures forall i :: 0 <= i < |s| ==> IsDigit(s[i])
    ensures n < 10 <==> |s| == 1
    decreases n
  {
    if n < 10 then [DigitChar(n)] else NatToString(n / 10) + [DigitChar(n % 10)]
  }

  /**
   * Rust's `{:02}` for a 64-bit integer: a non-negative number becomes at least two
   * digits that read back as the number, exactly two below 60; a negative one
   * starts with its sign.
   */
  function Pad2(n: int): (s: string)
    ensures |s| >= 2
    ensures n >= 0 ==> (forall i :: 0 <= i < |s| ==> IsDigit(s[i])) && DigitsValue(s) == n
    ensures 0 <= n < 60 ==> |s| == 2
    ensures n < 0 ==> s[0] == '-'
  {
    if n < 0 then "-" + NatToString(-n)
    else
      NatToStringValue(n);
      if n < 10 then
        LeadingZeroValue(NatToString(n));
        "0" + NatToString(n)
      else
        assert n < 100 ==> NatToString(n) == NatToString(n / 10) + [DigitChar(n % 10)];
        NatToString(n)
  }

  /**
   * `HumanDuration`'s `Display`: a duration with hours not negative and minutes
   * in [0, 60) has the shape `^\d{2,}:\d{2}h$`; negative hours print with a
   * leading minus sign and miss it.
   */
  function Format(d: HumanDuration): (s: string)
    ensures |s| >= 6
    ensures d.hours >= 0 && Normalized(d) ==> MatchesDisplayPattern(s)
    ensures d.hours < 0 ==> s[0] == '-' && !MatchesDisplayPattern(s)
  {
    var h, m := Pad2(d.hours), Pad2(d.minutes);
    var s := h + ":" + m + "h";
    assert d.hours >= 0 && Normalized(d) ==> s[..|s| - 4] == h && s[|s| - 3..|s| - 1] == m;
    assert d.hours < 0 ==> !IsDigit(s[0]) && |s| - 4 > 0;
    s
  }

  /** The value of a string of decimal digits. */
  function DigitsValue(s: string): (v: nat)
    requires forall i :: 0 <= i < |s| ==> IsDigit(s[i])
  {
    if s == [] then 0
    else
      assert IsDigit(s[|s| - 1]);
      DigitsValue(s[..|s| - 1]) * 10 + (s[|s| - 1] as int - '0' as int)
  }

  /**
   * The shape `^\d{2,}:\d{2}h$` that the text of a non-negative duration has:
   * at least two digits of hours, a colon, two digits of minutes and an `h`.
   */
  predicate MatchesDisplayPattern(s: string) {
    && |s| >= 6
    && s[|s| - 1] == 'h'
    && s[|s| - 4] == ':'
    && (forall i :: 0 <= i < |s| - 4 ==> IsDigit(s[i]))
    && IsDigit(s[|s| - 3]) && IsDigit(s[|s| - 2])
  }

  /** Reads back the text of a duration, the inverse of `Format` on its image. */
  function ParseFormatted(s: string): Option<HumanDuration> {
    if MatchesDisplayPattern(s) then
      Some(HumanDuration(DigitsValue(s[..|s| - 4]), DigitsValue(s[|s| - 3..|s| - 1])))
    else
      None
  }

  /** The digits of `n` read back as `n`. */
  lemma {:induction false} NatToStringValue(n: nat)
    ensures DigitsValue(NatToString(n)) == n
    decreases n
  {
    if n >= 10 {
      var s := NatToString(n);
      NatToStringValue(n / 10);
      assert s[..|s| - 1] == NatToString(n / 10);
    }
  }

  /** A leading zero does not change the value of a string of digits. */
  lemma {:induction false} LeadingZeroValue(s: string)
    requires forall i :: 0 <= i < |s| ==> IsDigit(s[i])
    ensures DigitsValue("0" + s) == DigitsValue(s)
    decreases |s|
  {
    if s != [] {
      var t := "0" + s;
      assert t[..|t| - 1] == "0" + s[..|s| - 1];
      LeadingZeroValue(s[..|s| - 1]);
    }
  }

  /**
   * The text of a duration with hours not negative and minutes in [0, 60) reads
   * back as the same duration.
   */
  lemma FormatRoundTrip(d: HumanDuration)
    requires d.hours >= 0 && Normalized(d)
    ensures ParseFormatted(Format(d)) == Some(d)
  {
    var h, m := Pad2(d.hours), Pad2(d.minutes);
    var s := Format(d);
    assert s == h + ":" + m + "h";
    assert s[..|s| - 4] == h;
    assert s[|s| - 3..|s| - 1] == m;
  }

  /**
   * The duration of an entry that does not end before it starts is printed in the
   * shape `^\d{2,}:\d{2}h$`.
   */
  lemma SpanDisplay(span: int)
    requires span >= 0
    ensures MatchesDisplayPattern(Format(FromSpan(span)))
  {
  }

  /** A span of at least an hour backwards prints with a leading minus sign and misses the shape. */
  lemma NegativeSpanDisplay(span: int)
    requires span <= -60
    ensures Format(FromSpan(span))[0] == '-'
    ensures !MatchesDisplayPattern(Format(FromSpan(span)))
  {
    assert FromSpan(span).hours < 0;
  }
}
