/**
 * Decimal text of naturals and the fixed-width storage encoding `to_felt252`:
 * the decimal text of a value, left-padded with '0' to 77 characters and cut
 * to its first 77 characters.  Decoding is Python's `int(text)`.
 */
module FeltCodec {
  import opened Wrappers

  /** Width of every stored hash and root string. */
  const FeltWidth: nat := 77

  function Pow10(k: nat): (r: nat)
    ensures r >= 1
  {
    if k == 0 then 1 else 10 * Pow10(k - 1)
  }

  /**
   * CPython's default limit on the digits `int` converts from text
   * (`sys.int_info.default_max_str_digits`); longer text raises `ValueError`.
   */
  const MaxStrDigits: nat := 4300

  /** Values whose stored text is NOT truncated are exactly those below this bound. */
  const FeltBound: nat := Pow10(FeltWidth)

  predicate IsDigit(c: char) {
    '0' <= c <= '9'
  }

  predicate AllDigits(s: string) {
    forall i :: 0 <= i < |s| ==> IsDigit(s[i])
  }

  function DigitChar(d: nat): (c: char)
    requires d < 10
    ensures IsDigit(c) && c as int - '0' as int == d
  {
    ('0' as int + d) as char
  }

  function DigitValue(c: char): (d: nat)
    requires IsDigit(c)
    ensures d < 10
  {
    c as int - '0' as int
  }

  /** `str(n)` for a natural number: its canonical decimal text. */
  function Decimal(n: nat): (s: string)
    ensures |s| >= 1 && AllDigits(s)
    ensures s[0] == '0' ==> n == 0 && |s| == 1
  {
    if n < 10 then [DigitChar(n)] else Decimal(n / 10) + [DigitChar(n % 10)]
  }

  /** The number a string of decimal digits denotes (leading zeros allowed). */
  function DigitsValue(s: string): nat
    requires AllDigits(s)
  {
    if s == [] then 0 else DigitsValue(s[..|s| - 1]) * 10 + DigitValue(s[|s| - 1])
  }

  /**
   * `int(s)` on text: defined for a non-empty string of ASCII digits of at
   * most `MaxStrDigits` characters; anything else raises (modelled as `None`).
   */
  function ParseInt(s: string): (r: Option<nat>)
    ensures r.Some? <==> 0 < |s| <= MaxStrDigits && AllDigits(s)
  {
    if 0 < |s| <= MaxStrDigits && AllDigits(s) then Some(DigitsValue(s)) else None
  }

  function Zeros(k: nat): (z: string)
    ensures |z| == k && AllDigits(z)
    ensures forall i :: 0 <= i < k ==> z[i] == '0'
  {
    if k == 0 then [] else ['0'] + Zeros(k - 1)
  }

  /**
   * Python's `s.zfill(width)` on a string without a sign character: `s` itself
   * when it is at least `width` long, otherwise `s` behind enough '0's to
   * reach `width`.
   */
  function ZFill(s: string, width: nat): (r: string)
    requires AllDigits(s)
    ensures |r| == if |s| >= width then |s| else width
    ensures r == Zeros(|r| - |s|) + s
  {
    if |s| >= width then s else Zeros(width - |s|) + s
  }

  /** `to_felt252(v)`: the decimal text of `v` padded with '0' to 77 characters, then cut to its first 77. */
  function ToFelt252(v: nat): (r: string)
    ensures |r| == FeltWidth && AllDigits(r)
  {
    var s := ZFill(Decimal(v), FeltWidth);
    s[..FeltWidth]
  }

  lemma {:induction false} DecimalRoundTrip(n: nat)
    ensures DigitsValue(Decimal(n)) == n
  {
    if n >= 10 {
      var s := Decimal(n / 10);
      var c := DigitChar(n % 10);
      assert Decimal(n) == s + [c];
      assert (s + [c])[..|s|] == s;
      DecimalRoundTrip(n / 10);
    }
  }

  /** `str(n)` has at most `k` digits exactly when `n < 10^k`. */
  lemma {:induction false} DecimalWidth(n: nat, k: nat)
    requires k >= 1
    ensures |Decimal(n)| <= k <==> n < Pow10(k)
  {
    if n >= 10 {
      if k == 1 {
        assert |Decimal(n)| == |Decimal(n / 10)| + 1;
      } else {
        DecimalWidth(n / 10, k - 1);
        assert n / 10 < Pow10(k - 1) <==> n < 10 * Pow10(k - 1);
      }
    } else {
      assert Pow10(k) == 10 * Pow10(k - 1);
    }
  }

  /** Leading zeros do not change the value `int` reads. */
  lemma {:induction false} LeadingZeros(k: nat, s: string)
    requires AllDigits(s)
    ensures DigitsValue(Zeros(k) + s) == DigitsValue(s)
    decreases |s|, k
  {
    var t := Zeros(k) + s;
    if s == [] {
      assert t == Zeros(k);
      if k > 0 {
        assert Zeros(k) == Zeros(k - 1) + ['0'] by { ZerosSnoc(k); }
        assert t[..|t| - 1] == Zeros(k - 1);
        LeadingZeros(k - 1, []);
        assert Zeros(k - 1) + [] == Zeros(k - 1);
      }
    } else {
      assert t[..|t| - 1] == Zeros(k) + s[..|s| - 1];
      LeadingZeros(k, s[..|s| - 1]);
    }
  }

  lemma {:induction false} ZerosSnoc(k: nat)
    requires k > 0
    ensures Zeros(k) == Zeros(k - 1) + ['0']
  {
    if k > 1 {
      ZerosSnoc(k - 1);
      assert Zeros(k) == ['0'] + Zeros(k - 1) == ['0'] + (Zeros(k - 2) + ['0']);
    }
  }

  /** A digit string of length `k` denotes a value below `10^k`. */
  lemma {:induction false} DigitsValueBound(s: string)
    requires AllDigits(s)
    ensures DigitsValue(s) < Pow10(|s|)
  {
    if s != [] {
      var init := s[..|s| - 1];
      DigitsValueBound(init);
      assert DigitsValue(init) + 1 <= Pow10(|init|);
      assert (DigitsValue(init) + 1) * 10 <= Pow10(|init|) * 10;
    }
  }

  /** Padding to a width the decimal text fits in adds exactly the missing zeros. */
  lemma ZFillFits(v: nat, width: nat)
    requires width >= 1 && v < Pow10(width)
    ensures |Decimal(v)| <= width
    ensures ZFill(Decimal(v), width)[..width] == Zeros(width - |Decimal(v)|) + Decimal(v)
  {
    DecimalWidth(v, width);
    var padded := Zeros(width - |Decimal(v)|) + Decimal(v);
    assert padded[..width] == padded;
  }

  /** The stored text of a value below `10^77` is its decimal text padded with '0'. */
  lemma FeltPadded(v: nat)
    requires v < FeltBound
    ensures |Decimal(v)| <= FeltWidth
    ensures ToFelt252(v) == Zeros(FeltWidth - |Decimal(v)|) + Decimal(v)
  {
    ZFillFits(v, FeltWidth);
  }

  /** The stored text of a value of 78 or more digits is its leading 77 digits. */
  lemma FeltTruncated(v: nat)
    requires v >= FeltBound
    ensures |Decimal(v)| > FeltWidth
    ensures ToFelt252(v) == Decimal(v)[..FeltWidth]
  {
    DecimalWidth(v, FeltWidth);
  }

  /**
   * Round trip of the codec: `int(to_felt252(v)) == v` holds exactly for the
   * values below `10^77`; above it the leading-digit truncation loses the value.
   */
  lemma FeltRoundTrip(v: nat)
    ensures ParseInt(ToFelt252(v)) == Some(v) <==> v < FeltBound
  {
    if v < FeltBound {
      FeltPadded(v);
      LeadingZeros(FeltWidth - |Decimal(v)|, Decimal(v));
      DecimalRoundTrip(v);
    } else {
      FeltTruncated(v);
      DigitsValueBound(ToFelt252(v));
    }
  }

  /** Distinct values below the bound get distinct stored texts. */
  lemma FeltInjective(v: nat, w: nat)
    requires v < FeltBound && w < FeltBound
    requires ToFelt252(v) == ToFelt252(w)
    ensures v == w
  {
    FeltRoundTrip(v);
    FeltRoundTrip(w);
  }
}
