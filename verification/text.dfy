/**
 String helpers the handlers rely on: ASCII lower-casing (`str.lower`),
 decimal rendering of naturals (`str(n)` and f-string interpolation),
 `', '.join(...)`, and the infix relation used to talk about messages.
 */
module Text {

  predicate IsUpper(c: char) {
    'A' <= c <= 'Z'
  }

  predicate IsDigit(c: char) {
    '0' <= c <= '9'
  }

  /** Lower-cases one ASCII letter; every other character is kept. */
  function LowerChar(c: char): (d: char)
    ensures !IsUpper(d)
    ensures IsUpper(c) ==> d as int == c as int + 32
    ensures !IsUpper(c) ==> d == c
  {
    if IsUpper(c) then (c as int + 32) as char else c
  }

  /** `s.lower()` restricted to ASCII: lower-cases character by character. */
  function Lower(s: string): (t: string)
    ensures |t| == |s|
    ensures forall i :: 0 <= i < |s| ==> t[i] == LowerChar(s[i])
  {
    if |s| == 0 then "" else Lower(s[..|s| - 1]) + [LowerChar(s[|s| - 1])]
  }

  /** Lower-casing twice is lower-casing once. */
  lemma LowerIdempotent(s: string)
    ensures Lower(Lower(s)) == Lower(s)
  {
    var t := Lower(s);
    assert forall i :: 0 <= i < |t| ==> Lower(t)[i] == t[i];
  }

  /** A string with no upper-case letter is its own lower-case form. */
  lemma LowerKeepsLowercase(s: string)
    requires forall i :: 0 <= i < |s| ==> !IsUpper(s[i])
    ensures Lower(s) == s
  {
  }

  // ---------------------------------------------------------------------
  // Decimal rendering of naturals

  function DigitChar(d: nat): (c: char)
    requires d < 10
    ensures IsDigit(c)
  {
    ('0' as int + d) as char
  }

  function DigitValue(c: char): (d: nat)
    requires IsDigit(c)
    ensures d < 10
    ensures DigitChar(d) == c
  {
    c as int - '0' as int
  }

  predicate AllDigits(s: string) {
    forall i :: 0 <= i < |s| ==> IsDigit(s[i])
  }

  /** The form Python prints a non-negative int in: digits, no leading zero. */
  predicate IsCanonicalDecimal(s: string) {
    && |s| >= 1
    && AllDigits(s)
    && (|s| > 1 ==> s[0] != '0')
  }

  /** `str(n)` for a non-negative integer. */
  function DecimalString(n: nat): (s: string)
    ensures IsCanonicalDecimal(s)
    decreases n
  {
    if n < 10 then [DigitChar(n)] else DecimalString(n / 10) + [DigitChar(n % 10)]
  }

  /** The number a string of decimal digits denotes (`int(s)`). */
  function DecimalValue(s: string): nat
    requires AllDigits(s)
  {
    if |s| == 0 then 0 else DecimalValue(s[..|s| - 1]) * 10 + DigitValue(s[|s| - 1])
  }

  /** Reading back what was printed gives the number printed. */
  lemma {:induction false} DecimalRoundTrip(n: nat)
    ensures DecimalValue(DecimalString(n)) == n
    decreases n
  {
    var s := DecimalString(n);
    if n >= 10 {
      DecimalRoundTrip(n / 10);
      assert s[..|s| - 1] == DecimalString(n / 10);
      assert DigitValue(s[|s| - 1]) == n % 10 by {
        assert DigitChar(n % 10) == s[|s| - 1];
        assert DigitChar(DigitValue(s[|s| - 1])) == s[|s| - 1];
      }
    }
  }

  lemma {:induction false} LeadingNonZeroPositive(s: string)
    requires |s| >= 1 && AllDigits(s) && s[0] != '0'
    ensures DecimalValue(s) >= 1
    decreases |s|
  {
    if |s| > 1 {
      var p := s[..|s| - 1];
      assert p[0] == s[0];
      LeadingNonZeroPositive(p);
    } else {
      assert DigitValue(s[0]) != 0;
    }
  }

  /** Every canonical decimal string is what its value prints as. */
  lemma {:induction false} DecimalParsePrint(s: string)
    requires IsCanonicalDecimal(s)
    ensures DecimalString(DecimalValue(s)) == s
    decreases |s|
  {
    var d := DigitValue(s[|s| - 1]);
    if |s| == 1 {
      assert DecimalValue(s) == d;
      assert DecimalString(d) == [DigitChar(d)];
    } else {
      var p := s[..|s| - 1];
      assert p[0] == s[0];
      LeadingNonZeroPositive(p);
      DecimalParsePrint(p);
      var v := DecimalValue(s);
      assert v == DecimalValue(p) * 10 + d;
      assert v / 10 == DecimalValue(p) && v % 10 == d;
      assert s == p + [s[|s| - 1]];
    }
  }

  // ---------------------------------------------------------------------
  // Joining and infixes

  /** `sep.join(xs)`. */
  function Join(xs: seq<string>, sep: string): (s: string)
    ensures |xs| == 1 ==> s == xs[0]
  {
    if |xs| == 0 then ""
    else if |xs| == 1 then xs[0]
    else xs[0] + sep + Join(xs[1..], sep)
  }

  /** `w` occurs in `s` starting at position `k`. */
  predicate OccursAt(w: string, s: string, k: nat) {
    k + |w| <= |s| && s[k..k + |w|] == w
  }

  /** `w in s` for strings: `w` occurs contiguously in `s`. */
  ghost predicate IsInfix(w: string, s: string) {
    exists k: nat :: OccursAt(w, s, k)
  }

  lemma InfixOfPrefixPart(w: string, a: string, b: string)
    requires IsInfix(w, a)
    ensures IsInfix(w, a + b)
  {
    var k: nat :| OccursAt(w, a, k);
    assert (a + b)[k..k + |w|] == a[k..k + |w|];
    assert OccursAt(w, a + b, k);
  }

  lemma InfixOfSuffixPart(w: string, a: string, b: string)
    requires IsInfix(w, b)
    ensures IsInfix(w, a + b)
  {
    var k: nat :| OccursAt(w, b, k);
    assert (a + b)[|a| + k..|a| + k + |w|] == b[k..k + |w|];
    assert OccursAt(w, a + b, |a| + k);
  }

  lemma InfixSelf(w: string)
    ensures IsInfix(w, w)
  {
    assert w[0..|w|] == w;
    assert OccursAt(w, w, 0);
  }

  /** No `c` in `s` is immediately followed by `d`. */
  predicate NoAdjacent(s: string, c: char, d: char) {
    forall i :: 0 <= i < |s| - 1 ==> !(s[i] == c && s[i + 1] == d)
  }

  /** Gluing keeps the pair out when the seam does not form it. */
  lemma NoAdjacentConcat(a: string, b: string, c: char, d: char)
    requires NoAdjacent(a, c, d) && NoAdjacent(b, c, d)
    requires |a| == 0 || |b| == 0 || a[|a| - 1] != c || b[0] != d
    ensures NoAdjacent(a + b, c, d)
  {
  }

  /** A string without the pair `c d` contains no word that has it. */
  lemma NoAdjacentExcludes(w: string, s: string, c: char, d: char)
    requires NoAdjacent(s, c, d) && IsInfix([c, d], w)
    ensures !IsInfix(w, s)
  {
    var j: nat :| OccursAt([c, d], w, j);
    assert w[j] == w[j..j + 2][0] == c && w[j + 1] == w[j..j + 2][1] == d;
    forall k: nat ensures !OccursAt(w, s, k) {
      if k + |w| <= |s| {
        assert !(s[k + j] == c && s[k + j + 1] == d);
        assert s[k..k + |w|][j] == s[k + j] && s[k..k + |w|][j + 1] == s[k + j + 1];
      }
    }
  }

  /**
   Joining items that lack the pair `c d` with a separator that neither
   starts with `d` nor ends with `c` (nor holds the pair) yields a string
   that lacks it too.
   */
  lemma {:induction false} JoinNoAdjacent(xs: seq<string>, sep: string, c: char, d: char)
    requires forall i :: 0 <= i < |xs| ==> NoAdjacent(xs[i], c, d)
    requires NoAdjacent(sep, c, d) && |sep| > 0 && sep[0] != d && sep[|sep| - 1] != c
    ensures NoAdjacent(Join(xs, sep), c, d)
    decreases |xs|
  {
    if |xs| >= 2 {
      JoinNoAdjacent(xs[1..], sep, c, d);
      NoAdjacentConcat(xs[0], sep, c, d);
      NoAdjacentConcat(xs[0] + sep, Join(xs[1..], sep), c, d);
    }
  }

  /** Every joined item occurs in the joined string. */
  lemma {:induction false} JoinContainsItems(xs: seq<string>, sep: string, i: nat)
    requires i < |xs|
    ensures IsInfix(xs[i], Join(xs, sep))
    decreases |xs|
  {
    if |xs| == 1 {
      InfixSelf(xs[0]);
    } else if i == 0 {
      InfixSelf(xs[0]);
      InfixOfPrefixPart(xs[0], xs[0], sep + Join(xs[1..], sep));
      assert xs[0] + sep + Join(xs[1..], sep) == xs[0] + (sep + Join(xs[1..], sep));
    } else {
      JoinContainsItems(xs[1..], sep, i - 1);
      InfixOfSuffixPart(xs[i], xs[0] + sep, Join(xs[1..], sep));
    }
  }
}
