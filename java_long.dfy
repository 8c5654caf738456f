/** Java's 64-bit `long`, Long.parseLong (radix 10) and Long.toString. */
module JavaLong {
  import opened Wrappers

  const MinLong: int := -0x8000_0000_0000_0000
  const MaxLong: int := 0x7FFF_FFFF_FFFF_FFFF

  /** The values of a Java `long` / `Long`. */
  type Long = x: int | MinLong <= x <= MaxLong

  predicate IsDigit(c: char) {
    '0' <= c <= '9'
  }

  predicate AllDigits(s: string) {
    forall i :: 0 <= i < |s| ==> IsDigit(s[i])
  }

  /** The value of a string of decimal digits, most significant digit first. */
  function DigitsValue(s: string): nat
    requires AllDigits(s)
    decreases |s|
  {
    if |s| == 0 then 0 else DigitsValue(s[..|s| - 1]) * 10 + (s[|s| - 1] as int - '0' as int)
  }

  /**
   * Long.parseLong(s): an optional '-' or '+' followed by at least one
   * decimal digit, whose value fits in a `long`. None stands for the
   * NumberFormatException thrown for null, for the empty string, for a sign
   * alone, for any other character and for a value out of range.
   */
  function ParseLong(s: Option<string>): (r: Option<Long>)
    ensures r.Some? ==> s.Some? && |s.value| > 0
    ensures r.Some? && s.value[0] == '-' ==> r.value <= 0
    ensures r.Some? && s.value[0] != '-' ==> r.value >= 0
  {
    match s
    case None => None
    case Some(t) =>
      if |t| == 0 then None
      else
        var digits := if t[0] == '-' || t[0] == '+' then t[1..] else t;
        if |digits| == 0 || !AllDigits(digits) then None
        else
          var magnitude := DigitsValue(digits);
          var v: int := if t[0] == '-' then -(magnitude as int) else magnitude;
          if MinLong <= v <= MaxLong then Some(v) else None
  }

  function DigitChar(d: nat): (c: char)
    requires d < 10
    ensures IsDigit(c) && c as int - '0' as int == d
  {
    ('0' as int + d) as char
  }

  /** The decimal digits of `n`, without leading zeros. */
  function NatToDigits(n: nat): string
    decreases n
  {
    if n < 10 then [DigitChar(n)] else NatToDigits(n / 10) + [DigitChar(n % 10)]
  }

  /** Long.toString(n). */
  function FormatLong(n: Long): (s: string)
    ensures |s| > 0 && (s[0] == '-' <==> n < 0)
    ensures AllDigits(if n < 0 then s[1..] else s)
  {
    DigitsRoundTrip(if n < 0 then -(n as int) else n as int);
    if n < 0 then "-" + NatToDigits(-(n as int)) else NatToDigits(n)
  }

  /** The digits of `n` are digits, there is at least one, and they denote `n`. */
  lemma {:induction false} DigitsRoundTrip(n: nat)
    ensures |NatToDigits(n)| > 0 && AllDigits(NatToDigits(n))
    ensures DigitsValue(NatToDigits(n)) == n
    decreases n
  {
    if n >= 10 {
      DigitsRoundTrip(n / 10);
      var front, digits := NatToDigits(n / 10), NatToDigits(n);
      assert digits == front + [DigitChar(n % 10)];
      assert digits[..|digits| - 1] == front;
    }
  }

  /** Long.parseLong reads back every value Long.toString writes. */
  lemma ParseFormatRoundTrip(n: Long)
    ensures ParseLong(Some(FormatLong(n))) == Some(n)
  {
    if n < 0 {
      DigitsRoundTrip(-(n as int));
      assert ("-" + NatToDigits(-(n as int)))[1..] == NatToDigits(-(n as int));
    } else {
      DigitsRoundTrip(n);
      assert IsDigit(NatToDigits(n)[0]);
    }
  }

  /** A decimal above Long.MAX_VALUE, signed or not, does not parse. */
  lemma ParseLongRejectsOverflow(n: nat)
    requires n > MaxLong
    ensures ParseLong(Some(NatToDigits(n))) == None
    ensures ParseLong(Some("+" + NatToDigits(n))) == None
  {
    DigitsRoundTrip(n);
    assert IsDigit(NatToDigits(n)[0]);
    assert ("+" + NatToDigits(n))[1..] == NatToDigits(n);
  }

  /** A negative decimal below Long.MIN_VALUE does not parse. */
  lemma ParseLongRejectsUnderflow(n: nat)
    requires -(n as int) < MinLong
    ensures ParseLong(Some("-" + NatToDigits(n))) == None
  {
    DigitsRoundTrip(n);
    assert ("-" + NatToDigits(n))[1..] == NatToDigits(n);
  }

  /** null, the empty string and a sign alone do not parse. */
  lemma ParseLongRejectsBare()
    ensures ParseLong(None) == None
    ensures ParseLong(Some("")) == None
    ensures ParseLong(Some("-")) == None && ParseLong(Some("+")) == None
  {
  }

  /** A character other than a digit anywhere but a leading sign makes the text unparsable. */
  lemma ParseLongRejectsStray(t: string, i: nat)
    requires i < |t| && !IsDigit(t[i])
    requires i == 0 ==> t[0] != '-' && t[0] != '+'
    ensures ParseLong(Some(t)) == None
  {
    if t[0] == '-' || t[0] == '+' {
      assert t[1..][i - 1] == t[i];
    }
  }
}
