/** The two JavaScript number conversions the adapter relies on, over Dafny's
    unbounded integers: `String(n)` for an integral Number and the global
    `parseInt(s)` with its radix omitted (ECMAScript section 19.2.5). */
module JsNumber {
  import opened Wrappers

  /** StrWhiteSpaceChar: the WhiteSpace and LineTerminator code points that
      `parseInt` skips before the number. */
  predicate IsStrWhiteSpace(c: char) {
    || c == '\t' || c == '\n' || c == '\U{B}' || c == '\U{C}' || c == '\r'
    || c == ' ' || c == '\U{A0}' || c == '\U{1680}' || ('\U{2000}' <= c <= '\U{200A}')
    || c == '\U{2028}' || c == '\U{2029}' || c == '\U{202F}' || c == '\U{205F}'
    || c == '\U{3000}' || c == '\U{FEFF}'
  }

  /** The two radixes `parseInt` uses when none is given. */
  datatype Radix = Decimal | Hexadecimal

  /** A digit of the radix; hexadecimal letters in either case. */
  predicate IsDigitIn(c: char, radix: Radix) {
    || ('0' <= c <= '9')
    || (radix == Hexadecimal && (('a' <= c <= 'f') || ('A' <= c <= 'F')))
  }

  function DigitValue(c: char): (d: nat)
    ensures IsDigitIn(c, Decimal) ==> d < 10
    ensures IsDigitIn(c, Hexadecimal) ==> d < 16
  {
    if '0' <= c <= '9' then c as int - '0' as int
    else if 'a' <= c <= 'f' then c as int - 'a' as int + 10
    else if 'A' <= c <= 'F' then c as int - 'A' as int + 10
    else 0
  }

  function DigitChar(d: nat): (c: char)
    requires d < 10
    ensures IsDigitIn(c, Decimal) && DigitValue(c) == d
  {
    ('0' as int + d) as char
  }

  /** The number the digits `s[lo..hi]` denote, most significant first. */
  function DigitsValue(s: string, lo: nat, hi: nat, radix: Radix): nat
    requires lo <= hi <= |s|
    decreases hi - lo
  {
    if hi == lo then 0
    else
      var high := DigitsValue(s, lo, hi - 1, radix);
      (match radix case Decimal => high * 10 case Hexadecimal => high * 16) + DigitValue(s[hi - 1])
  }

  /** The first index from `i` on that does not hold white space. */
  function SkipWhiteSpace(s: string, i: nat): (j: nat)
    requires i <= |s|
    ensures i <= j <= |s|
    ensures forall k :: i <= k < j ==> IsStrWhiteSpace(s[k])
    ensures j == |s| || !IsStrWhiteSpace(s[j])
    decreases |s| - i
  {
    if i < |s| && IsStrWhiteSpace(s[i]) then SkipWhiteSpace(s, i + 1) else i
  }

  /** The end of the longest run of `radix` digits starting at `i`. */
  function DigitsEnd(s: string, i: nat, radix: Radix): (j: nat)
    requires i <= |s|
    ensures i <= j <= |s|
    ensures forall k :: i <= k < j ==> IsDigitIn(s[k], radix)
    ensures j == |s| || !IsDigitIn(s[j], radix)
    decreases |s| - i
  {
    if i < |s| && IsDigitIn(s[i], radix) then DigitsEnd(s, i + 1, radix) else i
  }

  predicate HasHexPrefix(t: string, i: nat) {
    i + 1 < |t| && t[i] == '0' && (t[i + 1] == 'x' || t[i + 1] == 'X')
  }

  /** `parseInt` once the white space is gone: an optional sign; radix 16
      after a `0x`/`0X` prefix, 10 otherwise; then the longest run of digits.
      None stands for NaN, the result when that run is empty. */
  function ParseSigned(t: string): Option<int> {
    var negative := |t| > 0 && t[0] == '-';
    var j := if |t| > 0 && (t[0] == '-' || t[0] == '+') then 1 else 0;
    var hex := HasHexPrefix(t, j);
    var radix := if hex then Hexadecimal else Decimal;
    var start := if hex then j + 2 else j;
    var end := DigitsEnd(t, start, radix);
    if end == start then None
    else
      var magnitude: int := DigitsValue(t, start, end, radix);
      Some(if negative then -magnitude else magnitude)
  }

  /** `parseInt(s)`: skip the leading white space, then read a signed
      integer. `-0` is the integer 0. */
  function ParseInt(s: string): (r: Option<int>)
    ensures (forall k :: 0 <= k < |s| ==> !IsDigitIn(s[k], Decimal)) ==> r == None
    ensures r.Some? && r.value < 0 ==> '-' in s
  {
    var i := SkipWhiteSpace(s, 0);
    ParseSignedNeedsDigit(s[i..]);
    ParseSignedSign(s[i..]);
    assert |s[i..]| > 0 ==> s[i..][0] == s[i];
    ParseSigned(s[i..])
  }

  /** The decimal digits of `n`, without leading zeros. */
  function NatToDecimal(n: nat): (r: string)
    ensures |r| > 0
  {
    if n < 10 then [DigitChar(n)] else NatToDecimal(n / 10) + [DigitChar(n % 10)]
  }

  /** `String(n)` for an integral Number `n`: a minus sign for negatives, then
      the decimal digits of its magnitude. */
  function IntToString(n: int): (r: string)
    ensures |r| > 0
  {
    if n < 0 then "-" + NatToDecimal(-n) else NatToDecimal(n)
  }

  /** Decimal digits only, and a leading zero only for zero itself. */
  lemma {:induction false} NatToDecimalDigits(n: nat)
    ensures forall k :: 0 <= k < |NatToDecimal(n)| ==> IsDigitIn(NatToDecimal(n)[k], Decimal)
    ensures NatToDecimal(n)[0] == '0' ==> n == 0
  {
    if n >= 10 {
      NatToDecimalDigits(n / 10);
      assert NatToDecimal(n)[0] == NatToDecimal(n / 10)[0];
    }
  }

  /** `String(n)` starts with a minus sign exactly for negative `n`, and is
      made of decimal digits after it. */
  lemma IntToStringShape(n: int)
    ensures IntToString(n)[0] == '-' <==> n < 0
    ensures forall k :: 0 < k < |IntToString(n)| ==> IsDigitIn(IntToString(n)[k], Decimal)
  {
    NatToDecimalDigits(if n < 0 then -n else n);
  }

  /** The value of a run of digits depends on those digits only, wherever
      they sit. */
  lemma {:induction false} DigitsValueShift(s: string, t: string, shift: nat, lo: nat, hi: nat, radix: Radix)
    requires lo <= hi <= |t| && hi + shift <= |s|
    requires forall k :: lo <= k < hi ==> s[k + shift] == t[k]
    ensures DigitsValue(s, lo + shift, hi + shift, radix) == DigitsValue(t, lo, hi, radix)
    decreases hi - lo
  {
    if hi > lo {
      DigitsValueShift(s, t, shift, lo, hi - 1, radix);
      assert s[hi - 1 + shift] == t[hi - 1];
    }
  }

  lemma {:induction false} NatToDecimalValue(n: nat)
    ensures DigitsValue(NatToDecimal(n), 0, |NatToDecimal(n)|, Decimal) == n
  {
    var r := NatToDecimal(n);
    if n >= 10 {
      var high := NatToDecimal(n / 10);
      NatToDecimalValue(n / 10);
      assert r == high + [DigitChar(n % 10)];
      DigitsValueShift(r, high, 0, 0, |high|, Decimal);
    }
  }

  /** A run of decimal digits followed by a non-digit (or by nothing) reads as
      the value of the run, unless it is a lone "0" opening a `0x` prefix. */
  lemma ParseSignedDigits(t: string, n: nat)
    requires n > 0 && n <= |t|
    requires forall k :: 0 <= k < n ==> IsDigitIn(t[k], Decimal)
    requires n == |t| || !IsDigitIn(t[n], Decimal)
    requires !HasHexPrefix(t, 0)
    ensures ParseSigned(t) == Some(DigitsValue(t, 0, n, Decimal))
  {
    assert t[0] != '-' && t[0] != '+';
    assert DigitsEnd(t, 0, Decimal) == n;
  }

  lemma ParseIntNoWhiteSpace(s: string)
    requires |s| > 0 && !IsStrWhiteSpace(s[0])
    ensures ParseInt(s) == ParseSigned(s)
  {
    assert SkipWhiteSpace(s, 0) == 0;
    assert s[0..] == s;
  }

  lemma ParseSignedNegative(d: string)
    requires |d| > 0
    requires forall k :: 0 <= k < |d| ==> IsDigitIn(d[k], Decimal)
    ensures ParseSigned("-" + d) == Some(-(DigitsValue(d, 0, |d|, Decimal) as int))
  {
    var s := "-" + d;
    DigitsValueShift(s, d, 1, 0, |d|, Decimal);
    assert !HasHexPrefix(s, 1);
    assert DigitsEnd(s, 1, Decimal) == |s|;
  }

  /** `parseInt(String(n))` gives back `n`. */
  lemma ParseIntToString(n: int)
    ensures ParseInt(IntToString(n)) == Some(n)
  {
    var s := IntToString(n);
    IntToStringShape(n);
    NatToDecimalDigits(if n < 0 then -n else n);
    ParseIntNoWhiteSpace(s);
    if n < 0 {
      NatToDecimalValue(-n);
      ParseSignedNegative(NatToDecimal(-n));
    } else {
      NatToDecimalValue(n);
      ParseSignedDigits(s, |s|);
    }
  }

  lemma {:induction false} SkipAfterPrefix(w: string, s: string, m: nat)
    requires m <= |s|
    ensures SkipWhiteSpace(w + s, |w| + m) == |w| + SkipWhiteSpace(s, m)
    decreases |s| - m
  {
    if m < |s| {
      assert (w + s)[|w| + m] == s[m];
      if IsStrWhiteSpace(s[m]) {
        SkipAfterPrefix(w, s, m + 1);
      }
    }
  }

  lemma {:induction false} SkipThroughPrefix(w: string, s: string, k: nat)
    requires k <= |w|
    requires forall i :: 0 <= i < |w| ==> IsStrWhiteSpace(w[i])
    ensures SkipWhiteSpace(w + s, k) == |w| + SkipWhiteSpace(s, 0)
    decreases |w| - k
  {
    if k < |w| {
      assert (w + s)[k] == w[k];
      SkipThroughPrefix(w, s, k + 1);
    } else {
      SkipAfterPrefix(w, s, 0);
    }
  }

  /** Leading white space does not change what `parseInt` reads. */
  lemma ParseIntSkipsWhiteSpace(w: string, s: string)
    requires forall k :: 0 <= k < |w| ==> IsStrWhiteSpace(w[k])
    ensures ParseInt(w + s) == ParseInt(s)
  {
    var ws := w + s;
    var i := SkipWhiteSpace(s, 0);
    var j := SkipWhiteSpace(ws, 0);
    SkipThroughPrefix(w, s, 0);
    assert ws[j..] == s[i..];
  }

  /** `parseInt` reads decimal digits up to the first character that is not
      one and ignores the rest ("2 (draft)" is 2, "1.5" is 1), unless the
      digits are a lone "0" opening a `0x` prefix. */
  lemma ParseIntStopsAtNonDigit(s: string, n: nat)
    requires 0 < n <= |s|
    requires forall k :: 0 <= k < n ==> IsDigitIn(s[k], Decimal)
    requires n == |s| || !IsDigitIn(s[n], Decimal)
    requires !HasHexPrefix(s, 0)
    ensures ParseInt(s) == Some(DigitsValue(s, 0, n, Decimal))
  {
    ParseIntNoWhiteSpace(s);
    ParseSignedDigits(s, n);
  }

  /** Without a decimal digit there is neither a `0x` prefix nor a digit
      run, so `parseInt` gives NaN. */
  lemma ParseSignedNeedsDigit(t: string)
    ensures (forall k :: 0 <= k < |t| ==> !IsDigitIn(t[k], Decimal)) ==> ParseSigned(t) == None
  {
    if forall k :: 0 <= k < |t| ==> !IsDigitIn(t[k], Decimal) {
      var j := if |t| > 0 && (t[0] == '-' || t[0] == '+') then 1 else 0;
      assert !HasHexPrefix(t, j);
      assert j == |t| || !IsDigitIn(t[j], Decimal);
      assert DigitsEnd(t, j, Decimal) == j;
    }
  }

  /** Only a leading minus sign makes the result negative. */
  lemma ParseSignedSign(t: string)
    ensures ParseSigned(t).Some? && ParseSigned(t).value < 0 ==> |t| > 0 && t[0] == '-'
  {
  }
}
