/**
 The human-readable size shown for an accepted upload: `"<n> bytes"`
 below 1024, `"<n/1024:.1f> KB"` below 1048576, `"<n/1048576:.1f> MB"`
 above. The divisors are powers of two, so `n / 1024` is an exact
 double and the `.1f` rendering is the exact quotient rounded to tenths
 with ties to even; that rounding is modelled on integers.
 */
module SizeFormat {
  import opened Common
  import opened Text

  const KiB: nat := 1024
  const MiB: nat := 1024 * 1024

  /**
   `q` is `a / d` rounded to the nearest integer, a tie going to the even
   neighbour. Applied to `10 * n` and the divisor, this is what the
   correctly rounded `.1f` decimal conversion of the exact quotient shows.
   */
  ghost predicate IsRoundHalfEven(a: nat, d: nat, q: nat) {
    && -(d as int) <= 2 * (q * d - a) <= d
    && (2 * (q * d - a) == d || 2 * (a - q * d) == d ==> q % 2 == 0)
  }

  /** `a / d` rounded half to even, computed from the quotient and remainder. */
  function RoundHalfEven(a: nat, d: nat): (q: nat)
    requires d > 0
    ensures IsRoundHalfEven(a, d, q)
  {
    var q0 := a / d;
    var r := a % d;
    assert a == q0 * d + r;
    assert (q0 + 1) * d - a == d - r;
    if 2 * r < d then q0
    else if 2 * r > d then q0 + 1
    else if q0 % 2 == 0 then q0
    else q0 + 1
  }

  /** Sign facts about `k * d` for a whole multiplier `k`. */
  lemma MulBounds(k: int, d: nat)
    ensures k >= 1 ==> k * d >= d
    ensures k >= 2 ==> k * d >= 2 * d
    ensures k <= -1 ==> k * d <= -(d as int)
    ensures k <= -2 ==> k * d <= -2 * d
  {
    if k >= 1 {
      assert k * d == (k - 1) * d + d;
    } else if k <= -1 {
      assert k * d == (k + 1) * d - d;
    }
  }

  /** There is only one correctly rounded value. */
  lemma RoundHalfEvenUnique(a: nat, d: nat, q1: nat, q2: nat)
    requires d > 0
    requires IsRoundHalfEven(a, d, q1) && IsRoundHalfEven(a, d, q2)
    ensures q1 == q2
  {
    assert (q1 - q2) * d == (q1 * d - a) - (q2 * d - a);
    MulBounds(q1 - q2, d);
  }

  /** Rounding never crosses an integer bound the exact quotient respects. */
  lemma RoundHalfEvenBounds(a: nat, d: nat, q: nat, k: nat)
    requires d > 0 && IsRoundHalfEven(a, d, q)
    ensures a >= k * d ==> q >= k
    ensures a <= k * d ==> q <= k
  {
    assert (k - q) * d == k * d - q * d;
    MulBounds(k - q, d);
  }

  /** A count of tenths `t` printed with one decimal (`f"{t / 10:.1f}"`). */
  function TenthsString(t: nat): string {
    DecimalString(t / 10) + "." + [DigitChar(t % 10)]
  }

  /** `n` formatted the way the upload reply shows it. */
  function FormatSize(n: nat): string {
    if n < KiB then DecimalString(n) + " bytes"
    else if n < MiB then TenthsString(RoundHalfEven(10 * n, KiB)) + " KB"
    else TenthsString(RoundHalfEven(10 * n, MiB)) + " MB"
  }

  // ---------------------------------------------------------------------
  // Reading a size display back

  /** What a size display says: a tier and the number shown in it. */
  datatype SizeDisplay = Bytes(count: nat) | Kilobytes(tenths: nat) | Megabytes(tenths: nat)

  /**
   The display `sd` is the right one for `n` bytes: the tier follows the
   integer thresholds and a KB or MB figure is `n / 1024` or `n / 1048576`
   correctly rounded to tenths.
   */
  ghost predicate Describes(sd: SizeDisplay, n: nat) {
    match sd
    case Bytes(c) => n < KiB && c == n
    case Kilobytes(t) => KiB <= n < MiB && IsRoundHalfEven(10 * n, KiB, t)
    case Megabytes(t) => MiB <= n && IsRoundHalfEven(10 * n, MiB, t)
  }

  predicate EndsWith(s: string, suffix: string) {
    |suffix| <= |s| && s[|s| - |suffix|..] == suffix
  }

  /** Reads `"<digits>.<digit>"` as a count of tenths. */
  function ParseTenths(s: string): Option<nat> {
    if |s| >= 3 && s[|s| - 2] == '.' && IsDigit(s[|s| - 1]) && IsCanonicalDecimal(s[..|s| - 2])
    then Some(DecimalValue(s[..|s| - 2]) * 10 + DigitValue(s[|s| - 1]))
    else None
  }

  /** Reads a size display back into its tier and number. */
  function ParseSize(s: string): Option<SizeDisplay> {
    if EndsWith(s, " bytes") && IsCanonicalDecimal(s[..|s| - 6]) then
      Some(Bytes(DecimalValue(s[..|s| - 6])))
    else if EndsWith(s, " KB") then
      match ParseTenths(s[..|s| - 3])
      case Some(t) => Some(Kilobytes(t))
      case None => None
    else if EndsWith(s, " MB") then
      match ParseTenths(s[..|s| - 3])
      case Some(t) => Some(Megabytes(t))
      case None => None
    else None
  }

  lemma TenthsRoundTrip(t: nat)
    ensures ParseTenths(TenthsString(t)) == Some(t)
  {
    var s := TenthsString(t);
    var whole := DecimalString(t / 10);
    assert s[..|s| - 2] == whole;
    DecimalRoundTrip(t / 10);
    assert DigitChar(DigitValue(s[|s| - 1])) == DigitChar(t % 10);
    assert DigitValue(s[|s| - 1]) == t % 10 by {
      assert DigitValue(DigitChar(t % 10)) == t % 10;
    }
  }

  lemma BytesReadBack(n: nat)
    requires n < KiB
    ensures ParseSize(FormatSize(n)) == Some(Bytes(n))
  {
    var s := FormatSize(n);
    assert s[..|s| - 6] == DecimalString(n);
    DecimalRoundTrip(n);
  }

  lemma TenthsReadBack(t: nat, unit: string)
    requires unit == " KB" || unit == " MB"
    ensures ParseSize(TenthsString(t) + unit).Some?
    ensures unit == " KB" ==> ParseSize(TenthsString(t) + unit) == Some(Kilobytes(t))
    ensures unit == " MB" ==> ParseSize(TenthsString(t) + unit) == Some(Megabytes(t))
  {
    var s := TenthsString(t) + unit;
    assert s[|s| - 1] == 'B';
    assert |s| >= 6 && s[|s| - 6..][5] == 'B';
    assert s[..|s| - 3] == TenthsString(t);
    TenthsRoundTrip(t);
  }

  /**
   Every size display reads back as the right tier and number for the
   size it was made from: the three tiers are disjoint, cover every size,
   and the KB and MB figures are the correctly rounded quotients.
   */
  lemma FormatSizeReadsBack(n: nat)
    ensures ParseSize(FormatSize(n)).Some?
    ensures Describes(ParseSize(FormatSize(n)).value, n)
  {
    if n < KiB {
      BytesReadBack(n);
    } else if n < MiB {
      TenthsReadBack(RoundHalfEven(10 * n, KiB), " KB");
    } else {
      TenthsReadBack(RoundHalfEven(10 * n, MiB), " MB");
    }
  }

  /** A display determines its size's tier and rounded figure uniquely. */
  lemma DescribesUnique(sd1: SizeDisplay, sd2: SizeDisplay, n: nat)
    requires Describes(sd1, n) && Describes(sd2, n)
    ensures sd1 == sd2
  {
    match sd1
    case Bytes(_) =>
    case Kilobytes(t1) => RoundHalfEvenUnique(10 * n, KiB, t1, sd2.tenths);
    case Megabytes(t1) => RoundHalfEvenUnique(10 * n, MiB, t1, sd2.tenths);
  }

  /** Below 1024 the display is exactly the count followed by " bytes". */
  lemma BytesTier(n: nat)
    ensures FormatSize(n) == DecimalString(n) + " bytes" <==> n < KiB
  {
    if n >= KiB {
      FormatSizeReadsBack(n);
      var s := DecimalString(n) + " bytes";
      assert s[..|s| - 6] == DecimalString(n);
      DecimalRoundTrip(n);
      assert ParseSize(s) == Some(Bytes(n));
    }
  }

  /** A KB figure lies between 1.0 and 1024.0. */
  lemma KilobytesShownRange(n: nat)
    requires KiB <= n < MiB
    ensures 10 <= RoundHalfEven(10 * n, KiB) <= 10240
  {
    RoundHalfEvenBounds(10 * n, KiB, RoundHalfEven(10 * n, KiB), 10);
    RoundHalfEvenBounds(10 * n, KiB, RoundHalfEven(10 * n, KiB), 10240);
  }

  /** An MB figure for at most `k` MiB lies between 1.0 and `k`.0. */
  lemma MegabytesShownRange(n: nat, k: nat)
    requires MiB <= n <= k * MiB
    ensures 10 <= RoundHalfEven(10 * n, MiB) <= 10 * k
  {
    RoundHalfEvenBounds(10 * n, MiB, RoundHalfEven(10 * n, MiB), 10);
    RoundHalfEvenBounds(10 * n, MiB, RoundHalfEven(10 * n, MiB), 10 * k);
  }

  /** The unit suffix alone tells the tier, and each tier has its own. */
  lemma FormatSizeTiers(n: nat)
    ensures EndsWith(FormatSize(n), " bytes") <==> n < KiB
    ensures EndsWith(FormatSize(n), " KB") <==> KiB <= n < MiB
    ensures EndsWith(FormatSize(n), " MB") <==> MiB <= n
  {
    var s := FormatSize(n);
    assert |s| >= 4;
    if n < KiB {
      assert s[|s| - 6..] == " bytes";
      assert s[|s| - 1] == 's';
    } else if n < MiB {
      assert s[|s| - 3..] == " KB";
      assert s[|s| - 1] == 'B' && s[|s| - 2] == 'K';
    } else {
      assert s[|s| - 3..] == " MB";
      assert s[|s| - 1] == 'B' && s[|s| - 2] == 'M';
    }
    assert EndsWith(s, " bytes") ==> s[|s| - 1] == 's';
    assert EndsWith(s, " KB") ==> s[|s| - 2] == 'K';
    assert EndsWith(s, " MB") ==> s[|s| - 2] == 'M';
  }

  /** Worked displays: plain bytes and whole kilobytes. */
  lemma FormatSizeExamples()
    ensures FormatSize(500) == "500 bytes"
    ensures FormatSize(2048) == "2.0 KB"
  {
  }

  /** One byte short of a mebibyte rounds up to the top of the KB tier. */
  lemma FormatSizeTopOfKilobytes()
    ensures FormatSize(1048575) == "1024.0 KB"
  {
    assert RoundHalfEven(10485750, KiB) == 10240;
    assert DecimalString(1024) == "1024";
  }

  /** A tie rounds to the even tenth: 1280 bytes is 1.25 KB, shown as 1.2. */
  lemma FormatSizeTieToEven()
    ensures FormatSize(1280) == "1.2 KB"
    ensures FormatSize(1792) == "1.8 KB"
  {
  }

  /** The largest accepted upload shows as 16.0 MB and the smallest MB size as 1.0 MB. */
  lemma FormatSizeMegabyteExamples()
    ensures FormatSize(16777216) == "16.0 MB"
    ensures FormatSize(1048576) == "1.0 MB"
  {
  }
}
