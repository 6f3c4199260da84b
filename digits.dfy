/** Decimal text: the digit strings used by the date format, the `u32` field parser and
    the rendering of status codes. */
module Digits {
  import opened Wrappers

  predicate IsDigit(c: char) {
    '0' <= c <= '9'
  }

  predicate AllDigits(s: string) {
    forall i :: 0 <= i < |s| ==> IsDigit(s[i])
  }

  function DigitChar(d: nat): (c: char)
    requires d < 10
    ensures IsDigit(c) && c as int - '0' as int == d
  {
    ('0' as int + d) as char
  }

  /** The number a string of decimal digits denotes (most significant digit first). */
  function Value(s: string): nat
    requires AllDigits(s)
  {
    if s == [] then 0 else Value(s[..|s| - 1]) * 10 + (s[|s| - 1] as int - '0' as int)
  }

  function Pow10(n: nat): (r: nat)
    ensures r >= 1
  {
    if n == 0 then 1 else 10 * Pow10(n - 1)
  }

  /** `n` written with exactly `width` digits, zero-padded on the left. */
  function Pad(n: nat, width: nat): (s: string)
    ensures |s| == width && AllDigits(s)
  {
    if width == 0 then [] else Pad(n / 10, width - 1) + [DigitChar(n % 10)]
  }

  /** `n` written with as few digits as possible. */
  function Decimal(n: nat): (s: string)
    ensures |s| >= 1 && AllDigits(s)
  {
    if n < 10 then [DigitChar(n)] else Decimal(n / 10) + [DigitChar(n % 10)]
  }

  lemma {:induction false} PadValue(n: nat, width: nat)
    requires n < Pow10(width)
    ensures Value(Pad(n, width)) == n
  {
    if width > 0 {
      var s := Pad(n, width);
      assert s[..|s| - 1] == Pad(n / 10, width - 1);
      assert n / 10 < Pow10(width - 1);
      PadValue(n / 10, width - 1);
    }
  }

  lemma {:induction false} DecimalValue(n: nat)
    ensures Value(Decimal(n)) == n
  {
    var s := Decimal(n);
    if n < 10 {
      assert s[..|s| - 1] == [];
    } else {
      assert s[..|s| - 1] == Decimal(n / 10);
      DecimalValue(n / 10);
    }
  }

  /** Different numbers have different decimal renderings. */
  lemma DecimalInjective(a: nat, b: nat)
    requires Decimal(a) == Decimal(b)
    ensures a == b
  {
    DecimalValue(a);
    DecimalValue(b);
  }

  /** One past the largest `u32`. */
  const U32_LIMIT: nat := 0x1_0000_0000

  type u32 = n: nat | n < U32_LIMIT

  /** Rust's `u32::from_str`: an optional `+`, then one or more decimal digits whose value fits
      in 32 bits; anything else (empty text, `-`, spaces, overflow) is rejected. */
  function ParseU32(s: string): (r: Option<u32>)
    ensures r.Some? ==> |s| > 0 && (s[0] == '+' || IsDigit(s[0]))
    ensures r.Some? ==> forall i :: 0 < i < |s| ==> IsDigit(s[i])
    ensures r.Some? ==> IsDigit(s[|s| - 1])
  {
    var digits := if |s| > 0 && s[0] == '+' then s[1..] else s;
    if |digits| > 0 && AllDigits(digits) && Value(digits) < U32_LIMIT then Some(Value(digits)) else None
  }

  /** Parsing the decimal rendering of `n` gives `n` back exactly when `n` fits in 32 bits. */
  lemma ParseU32Decimal(n: nat)
    ensures ParseU32(Decimal(n)) == if n < U32_LIMIT then Some(n) else None
  {
    DecimalValue(n);
    assert IsDigit(Decimal(n)[0]);
  }

  /** `k` zero digits. */
  function Zeros(k: nat): (s: string)
    ensures |s| == k && AllDigits(s)
  {
    seq(k, _ => '0')
  }

  /** The decimal rendering of `n` after an optional `+` and `k` leading zeros. */
  function Padded(plus: bool, k: nat, n: nat): string {
    (if plus then "+" else "") + (Zeros(k) + Decimal(n))
  }

  lemma {:induction false} ValueOfLeadingZero(t: string)
    requires AllDigits(t)
    ensures AllDigits(['0'] + t) && Value(['0'] + t) == Value(t)
  {
    var u := ['0'] + t;
    if t == [] {
      assert u[..|u| - 1] == [];
    } else {
      assert u[..|u| - 1] == ['0'] + t[..|t| - 1];
      ValueOfLeadingZero(t[..|t| - 1]);
    }
  }

  /** Leading zeros do not change the value of a digit string. */
  lemma {:induction false} ValueOfZeros(k: nat, t: string)
    requires AllDigits(t)
    ensures AllDigits(Zeros(k) + t) && Value(Zeros(k) + t) == Value(t)
  {
    if k == 0 {
      assert Zeros(k) + t == t;
    } else {
      assert Zeros(k) + t == ['0'] + (Zeros(k - 1) + t);
      ValueOfZeros(k - 1, t);
      ValueOfLeadingZero(Zeros(k - 1) + t);
    }
  }

  /** Every non-empty digit string is some zeros followed by the decimal rendering of its value. */
  lemma {:induction false} DigitsArePadded(t: string) returns (k: nat)
    requires |t| > 0 && AllDigits(t)
    ensures t == Zeros(k) + Decimal(Value(t))
  {
    var init := t[..|t| - 1];
    var c := t[|t| - 1];
    assert t == init + [c];
    if init == [] {
      k := 0;
      assert Zeros(0) + Decimal(Value(t)) == [c];
    } else {
      var k' := DigitsArePadded(init);
      var v := Value(init);
      assert Value(t) == v * 10 + (c as int - '0' as int);
      if v == 0 {
        k := k' + 1;
        assert Decimal(Value(t)) == [c];
        assert init == Zeros(k') + ['0'];
        assert Zeros(k) == Zeros(k') + ['0'];
      } else {
        k := k';
        assert Value(t) / 10 == v && Value(t) % 10 == c as int - '0' as int;
        assert Decimal(Value(t)) == Decimal(v) + [c];
      }
    }
  }

  /** Rust's `u32::from_str` on a sign, leading zeros and a decimal number: the number when it
      fits in 32 bits, and a rejection otherwise. */
  lemma ParseU32Padded(plus: bool, k: nat, n: nat)
    ensures ParseU32(Padded(plus, k, n)) == if n < U32_LIMIT then Some(n) else None
  {
    var t := Zeros(k) + Decimal(n);
    var s := Padded(plus, k, n);
    assert IsDigit(t[0]);
    assert plus ==> s[1..] == t;
    assert !plus ==> s == t;
    DecimalValue(n);
    ValueOfZeros(k, Decimal(n));
  }

  /** Every text `u32::from_str` accepts is an optional `+`, leading zeros and the decimal
      rendering of the value it gives. */
  lemma ParseU32Form(s: string)
    requires ParseU32(s).Some?
    ensures exists plus: bool, k: nat :: s == Padded(plus, k, ParseU32(s).value)
  {
    var plus := s[0] == '+';
    var digits := if plus then s[1..] else s;
    var k := DigitsArePadded(digits);
    assert s == Padded(plus, k, ParseU32(s).value);
  }

  /** A leading minus sign is never accepted, whatever follows it. */
  lemma ParseU32RejectsMinus(s: string)
    requires |s| > 0 && s[0] == '-'
    ensures ParseU32(s) == None
  {
    assert !IsDigit(s[0]);
  }
}
