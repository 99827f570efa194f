/**
 * The JavaScript primitives the core relies on, written out over unbounded integers:
 * `BigInt` division (truncating toward zero), decimal `toString`, `BigInt(string)`,
 * `String.prototype.padStart` and `String.prototype.slice`.
 */
module JsNumerics {
  import opened Wrappers

  function Abs(x: int): nat { if x < 0 then -x else x }

  /** `a / b` on two bigints: the quotient truncated toward zero (Dafny's `/` is Euclidean). */
  function TruncDiv(a: int, b: int): (q: int)
    requires b != 0
    ensures Abs(a - b * q) < Abs(b)
    ensures a - b * q == 0 || (a - b * q < 0 <==> a < 0)
    ensures a >= 0 && b > 0 ==> q == a / b
  {
    var m := Abs(a) / Abs(b);
    DivModAbs(Abs(a), Abs(b));
    TruncProduct(a, b, m);
    if (a < 0) != (b < 0) then -m else m
  }

  /** The divisor times the signed quotient is the truncated multiple of `|b|`, with the sign of `a`. */
  lemma TruncProduct(a: int, b: int, m: int)
    requires b != 0
    ensures b * (if (a < 0) != (b < 0) then -m else m) == if a < 0 then -(Abs(b) * m) else Abs(b) * m
  {
    if b < 0 {
      assert b * m == -(Abs(b) * m);
      assert b * -m == Abs(b) * m;
    } else {
      assert b * -m == -(Abs(b) * m);
    }
  }

  /** Euclidean division of naturals: quotient and remainder. */
  lemma DivModAbs(x: nat, y: nat)
    requires y > 0
    ensures x == y * (x / y) + x % y && 0 <= x % y < y
  {
  }

  /** Euclidean division by a positive divisor is monotone on naturals. */
  lemma {:induction false} DivMonotone(u: nat, v: nat, d: nat)
    requires d > 0 && u <= v
    ensures u / d <= v / d
  {
    var qu, qv := u / d, v / d;
    DivModAbs(u, d);
    DivModAbs(v, d);
    if qu > qv {
      assert d * qu >= d * (qv + 1) by {
        MulMonotone(d, qv + 1, qu);
      }
      assert false;
    }
  }

  lemma MulNonNegative(x: int, y: int)
    requires x >= 0 && y >= 0
    ensures x * y >= 0
  {
  }

  lemma MulMonotone(d: nat, x: int, y: int)
    requires x <= y
    ensures d * x <= d * y
  {
  }

  /** Truncating division by a positive divisor is monotone in the dividend. */
  lemma {:induction false} TruncDivMonotone(x: int, y: int, d: int)
    requires d > 0 && x <= y
    ensures TruncDiv(x, d) <= TruncDiv(y, d)
  {
    TruncDivByPositive(x, d);
    TruncDivByPositive(y, d);
    if x >= 0 {
      DivMonotone(x, y, d);
    } else if y < 0 {
      DivMonotone(-y, -x, d);
    } else {
      DivNonNegative(-x, d);
      DivNonNegative(y, d);
    }
  }

  lemma DivNonNegative(u: nat, d: nat)
    requires d > 0
    ensures u / d >= 0
  {
  }

  /** By a positive divisor, truncation is Euclidean division of the magnitude, signed like the dividend. */
  lemma TruncDivByPositive(x: int, d: int)
    requires d > 0
    ensures TruncDiv(x, d) == if x >= 0 then x / d else -((-x) / d)
  {
  }

  /** On a non-negative dividend and a positive divisor the quotient is non-negative. */
  lemma TruncDivNonNegative(x: int, d: int)
    requires x >= 0 && d > 0
    ensures TruncDiv(x, d) >= 0
  {
  }

  /** Truncation and Dafny's Euclidean division differ on a negative dividend. */
  lemma TruncDivDiffersFromEuclidean()
    ensures TruncDiv(-7, 2) == -3 && -7 / 2 == -4
  {
  }

  // ---------------------------------------------------------------------------
  // Decimal strings

  predicate IsDigit(c: char) { '0' <= c <= '9' }

  predicate AllDigits(s: string) { forall i :: 0 <= i < |s| ==> IsDigit(s[i]) }

  function DigitChar(d: int): (c: char)
    requires 0 <= d < 10
    ensures IsDigit(c) && DigitValue(c) == d
  {
    (d + '0' as int) as char
  }

  function DigitValue(c: char): (d: nat)
    requires IsDigit(c)
    ensures d < 10
  {
    c as int - '0' as int
  }

  /** `n.toString()` for a non-negative integer: its shortest decimal numeral. */
  function NatToString(n: nat): (s: string)
    ensures |s| >= 1 && AllDigits(s)
    ensures n < 10 <==> |s| == 1
    decreases n
  {
    if n < 10 then [DigitChar(n)] else NatToString(n / 10) + [DigitChar(n % 10)]
  }

  /** `n.toString()` for any integer: a minus sign in front of the magnitude when negative. */
  function IntToString(n: int): (s: string)
    ensures |s| >= 1
    ensures n < 0 <==> s[0] == '-'
    ensures n >= 0 ==> AllDigits(s)
    ensures n < 0 ==> |s| > 1 && s[1..] == NatToString(-n)
    ensures n >= 0 ==> s == NatToString(n)
  {
    if n < 0 then "-" + NatToString(-n) else NatToString(n)
  }

  /** The value of a string of decimal digits (leading zeros allowed, the empty string is 0). */
  function ParseDigits(s: string): nat
    requires AllDigits(s)
  {
    if s == [] then 0 else ParseDigits(s[..|s| - 1]) * 10 + DigitValue(s[|s| - 1])
  }

  /**
   * `BigInt(s)` for a string in decimal form: the empty string is 0, otherwise an optional sign followed
   * by one or more digits; anything else throws a SyntaxError.
   */
  function ParseBigInt(s: string): (r: Result<int>)
    ensures AllDigits(s) ==> r == Success(ParseDigits(s))
    ensures r.Success? && r.value < 0 ==> s[0] == '-' && AllDigits(s[1..])
    ensures r.Failure? ==> r.error == ParseErrorMessage(s) && s != "" && !AllDigits(s)
  {
    if s == "" then Success(0)
    else if |s| > 1 && (s[0] == '-' || s[0] == '+') && AllDigits(s[1..]) then
      Success(if s[0] == '-' then 0 - ParseDigits(s[1..]) else ParseDigits(s[1..]))
    else if AllDigits(s) then Success(ParseDigits(s))
    else Failure(ParseErrorMessage(s))
  }

  /** The SyntaxError message `BigInt` throws for a string it cannot read. */
  function ParseErrorMessage(s: string): string {
    "Cannot convert " + s + " to a BigInt"
  }

  /** Reading a natural's numeral back gives the natural. */
  lemma {:induction false} ParseNatToString(n: nat)
    ensures ParseDigits(NatToString(n)) == n
    decreases n
  {
    var s := NatToString(n);
    if n >= 10 {
      ParseNatToString(n / 10);
      assert s[..|s| - 1] == NatToString(n / 10);
    }
  }

  /** A minus sign followed by digits reads as the negated digits. */
  lemma ParseNegativeNumeral(s: string)
    requires |s| > 1 && s[0] == '-' && AllDigits(s[1..])
    ensures ParseBigInt(s) == Success(0 - ParseDigits(s[1..]))
  {
  }

  /** Digits alone read as their value. */
  lemma ParseDigitNumeral(t: string)
    requires |t| >= 1 && AllDigits(t)
    ensures ParseBigInt(t) == Success(ParseDigits(t))
  {
    assert IsDigit(t[0]);
  }

  /** Reading an integer's numeral back with `BigInt` gives the integer. */
  lemma ParseIntToString(n: int)
    ensures ParseBigInt(IntToString(n)) == Success(n)
  {
    ParseNatToString(Abs(n));
    if n < 0 {
      ParseNegativeNumeral(IntToString(n));
    } else {
      ParseDigitNumeral(IntToString(n));
    }
  }

  // ---------------------------------------------------------------------------
  // String helpers

  function Repeat(c: char, k: nat): (r: string)
    ensures |r| == k && forall i :: 0 <= i < k ==> r[i] == c
  {
    seq(k, _ => c)
  }

  /** `s.padStart(n, c)`: `c` repeated in front of `s` until it is `n` characters long; never truncates. */
  function PadStart(s: string, n: int, c: char): (r: string)
    ensures |r| == if |s| >= n then |s| else n
    ensures r[|r| - |s|..] == s
    ensures forall i :: 0 <= i < |r| - |s| ==> r[i] == c
  {
    if |s| >= n then s else Repeat(c, n - |s|) + s
  }

  /** Leading zeros do not change the value of a digit string. */
  lemma {:induction false} ParseDigitsLeadingZeros(z: string, s: string)
    requires forall i :: 0 <= i < |z| ==> z[i] == '0'
    requires AllDigits(s)
    ensures AllDigits(z + s) && ParseDigits(z + s) == ParseDigits(s)
    decreases |s|
  {
    if s == [] {
      assert z + s == z;
      AllZerosParse(z);
    } else {
      var s' := s[..|s| - 1];
      ParseDigitsLeadingZeros(z, s');
      assert (z + s)[..|z + s| - 1] == z + s';
    }
  }

  lemma {:induction false} AllZerosParse(z: string)
    requires forall i :: 0 <= i < |z| ==> z[i] == '0'
    ensures AllDigits(z) && ParseDigits(z) == 0
    decreases |z|
  {
    if z != [] {
      AllZerosParse(z[..|z| - 1]);
    }
  }

  /** A relative index of `String.prototype.slice`: negative counts from the end; clamped to the string. */
  function SliceIndex(len: nat, k: int): (r: nat)
    ensures r <= len
  {
    if k < 0 then (if len + k < 0 then 0 else len + k) else if k > len then len else k
  }

  /** `s.slice(start, end)`. A `-0` argument is the integer 0 here, exactly as JavaScript treats it. */
  function Slice(s: string, start: int, end: int): (r: string)
    ensures |r| <= |s|
    ensures 0 <= start <= end <= |s| ==> r == s[start..end]
    ensures 0 <= start && 0 < -end <= |s| ==> r == if start < |s| + end then s[start..|s| + end] else ""
    ensures end == 0 ==> r == ""
  {
    var from, to := SliceIndex(|s|, start), SliceIndex(|s|, end);
    if from < to then s[from..to] else ""
  }

  /** `s.slice(start)`. */
  function SliceFrom(s: string, start: int): (r: string)
    ensures |r| <= |s|
    ensures 0 <= start <= |s| ==> r == s[start..]
    ensures 0 < -start <= |s| ==> r == s[|s| + start..] && |r| == -start
  {
    s[SliceIndex(|s|, start)..]
  }
}
