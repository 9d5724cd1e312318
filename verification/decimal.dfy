/**
 Base-10 conversion of integer-literal lexemes, as the evaluator does it with
 `strtol(lexeme, nullptr, 10)`, and the decimal spelling it inverts.
 */
module Decimal {
  import opened Lexer

  function DigitValue(c: char): nat
    requires IsDigit(c)
  {
    (c as int) - ('0' as int)
  }

  function DigitChar(d: nat): (c: char)
    requires d < 10
    ensures IsDigit(c) && DigitValue(c) == d
  {
    (('0' as int) + d) as char
  }

  /** The base-10 value of a run of digits, most significant first. */
  function DecimalValue(ds: string): nat
    requires AllIn(Digit, ds)
    decreases |ds|
  {
    if ds == [] then 0
    else
      assert AllIn(Digit, ds[..|ds| - 1]) by {
        var p := ds[..|ds| - 1];
        forall k | 0 <= k < |p| ensures InClass(Digit, p[k]) {
          assert p[k] == ds[k];
        }
      }
      10 * DecimalValue(ds[..|ds| - 1]) + DigitValue(ds[|ds| - 1])
  }

  /** The decimal spelling of `n`, without leading zeros. */
  function Decimal(n: nat): (s: string)
    ensures |s| > 0 && AllIn(Digit, s)
    ensures |s| == 1 || s[0] != '0'
    decreases n
  {
    if n < 10 then [DigitChar(n)] else Decimal(n / 10) + [DigitChar(n % 10)]
  }

  /** Reading back a spelling gives the number. */
  lemma {:induction false} DecimalRoundTrip(n: nat)
    ensures DecimalValue(Decimal(n)) == n
    decreases n
  {
    if n >= 10 {
      DecimalRoundTrip(n / 10);
      var s := Decimal(n);
      assert s[..|s| - 1] == Decimal(n / 10);
    }
  }

  lemma {:induction false} LeadingDigitNonZero(ds: string)
    requires |ds| > 0 && AllIn(Digit, ds) && ds[0] != '0'
    ensures DecimalValue(ds) >= 1
    decreases |ds|
  {
    if |ds| > 1 {
      var p := ds[..|ds| - 1];
      assert p[0] == ds[0];
      LeadingDigitNonZero(p);
    }
  }

  /** Spelling a value read from digits without leading zeros gives the digits. */
  lemma {:induction false} DecimalOfValue(ds: string)
    requires |ds| > 0 && AllIn(Digit, ds)
    requires |ds| == 1 || ds[0] != '0'
    ensures Decimal(DecimalValue(ds)) == ds
    decreases |ds|
  {
    var v := DecimalValue(ds);
    var last := ds[|ds| - 1];
    if |ds| == 1 {
      assert ds[..0] == [];
      assert DecimalValue(ds[..0]) == 0;
      assert v == DigitValue(last);
      assert DigitChar(v) == last;
      assert Decimal(v) == [last];
    } else {
      var p := ds[..|ds| - 1];
      assert p[0] == ds[0];
      LeadingDigitNonZero(p);
      DecimalOfValue(p);
      assert v == 10 * DecimalValue(p) + DigitValue(last);
      assert v / 10 == DecimalValue(p) && v % 10 == DigitValue(last);
      assert DigitChar(v % 10) == last;
      assert ds == p + [last];
    }
  }

  /** `strtol` in base 10: leading whitespace, an optional sign, then the
      longest run of digits; no digits at all give 0. */
  function Strtol(s: string): (r: int)
    ensures AllIn(Digit, s) ==> r == DecimalValue(s)
    ensures AllIn(Digit, s) ==> r >= 0
  {
    var i := FirstNonSpace(s, 0);
    var neg := i < |s| && s[i] == '-';
    var d := if i < |s| && (s[i] == '-' || s[i] == '+') then i + 1 else i;
    var e := RunEnd(Digit, s, d);
    var magnitude: int := DecimalValue(s[d..e]);
    assert AllIn(Digit, s) ==> i == 0 && d == 0 && e == |s| && s[d..e] == s by {
      if AllIn(Digit, s) && |s| > 0 {
        assert InClass(Digit, s[0]);
      }
    }
    if neg then -magnitude else magnitude
  }

  /** A run that covers the rest of the text ends at its end. */
  lemma {:induction false} RunToEnd(cls: CharClass, s: string, i: nat)
    requires i <= |s| && AllIn(cls, s[i..])
    ensures RunEnd(cls, s, i) == |s|
  {
  }

  /** `strtol` on a sign followed by digits. */
  lemma {:induction false} StrtolSign(sign: char, ds: string)
    requires sign == '-' || sign == '+'
    requires AllIn(Digit, ds)
    ensures Strtol([sign] + ds) == if sign == '-' then -(DecimalValue(ds) as int) else DecimalValue(ds)
  {
    var s := [sign] + ds;
    assert s[1..] == ds;
    assert FirstNonSpace(s, 0) == 0;
    RunToEnd(Digit, s, 1);
    assert s[1..|s|] == ds;
  }

  /** A sign in front of a spelling is honoured. */
  lemma {:induction false} StrtolSigned(n: nat)
    ensures Strtol("-" + Decimal(n)) == -(n as int)
    ensures Strtol("+" + Decimal(n)) == n
  {
    DecimalRoundTrip(n);
    StrtolSign('-', Decimal(n));
    StrtolSign('+', Decimal(n));
  }
}
