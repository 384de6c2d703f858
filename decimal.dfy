/** Decimal rendering and parsing of integers, as used by the boundary:
    `fmt.Sprint` / `%d` of an `int` (error texts, the Location header, the
    `fileid` of a listing) and `strconv.Atoi` (the `fileid` route parameter). */
module Decimal {
  import opened Wrappers

  /** Range of Go's 64-bit `int`; `strconv.Atoi` reports a range error outside it. */
  const MinInt: int := -0x8000_0000_0000_0000
  const MaxInt: int :=  0x7FFF_FFFF_FFFF_FFFF

  predicate IsDigit(c: char) {
    '0' <= c <= '9'
  }

  predicate AllDigits(s: string) {
    forall i :: 0 <= i < |s| ==> IsDigit(s[i])
  }

  function DigitChar(d: nat): (c: char)
    requires d < 10
    ensures IsDigit(c)
  {
    ('0' as int + d) as char
  }

  /** Digits of `n`, most significant first, without leading zeros. */
  function NatDigits(n: nat): (s: string)
    ensures |s| >= 1 && AllDigits(s)
    decreases n
  {
    if n < 10 then [DigitChar(n)] else NatDigits(n / 10) + [DigitChar(n % 10)]
  }

  /** Value of a digit string read left to right. */
  function DigitsValue(s: string): nat
    requires AllDigits(s)
  {
    if |s| == 0 then 0 else DigitsValue(s[..|s| - 1]) * 10 + (s[|s| - 1] as int - '0' as int)
  }

  /** `fmt.Sprint(i)` for an integer: optional minus sign, then the digits. */
  function FormatInt(i: int): (s: string)
    ensures |s| >= 1
    ensures forall k :: 0 <= k < |s| ==> IsDigit(s[k]) || s[k] == '-'
  {
    if i < 0 then "-" + NatDigits(-i) else NatDigits(i)
  }

  /** `strconv.Atoi(s)`: an optional `+` or `-` sign followed by at least one
      decimal digit and nothing else, whose value fits Go's `int`.
      Leading zeros are accepted; anything else is a syntax or range error. */
  function Atoi(s: string): (r: Option<int>)
    ensures r.Some? ==> MinInt <= r.value <= MaxInt
    ensures r.Some? ==> |s| >= 1 && (IsDigit(s[0]) || s[0] == '+' || s[0] == '-')
    ensures r.Some? ==> forall k | 1 <= k < |s| :: IsDigit(s[k])
    ensures r.Some? && !IsDigit(s[0]) ==> |s| >= 2
    ensures r.Some? ==> (r.value < 0 ==> s[0] == '-') && (s[0] == '-' ==> r.value <= 0)
    ensures s == "" ==> r == None
  {
    if |s| == 0 then None
    else
      var digits := if s[0] == '+' || s[0] == '-' then s[1..] else s;
      if |digits| == 0 || !AllDigits(digits) then None
      else
        var n: int := DigitsValue(digits);
        var v := if s[0] == '-' then 0 - n else n;
        if MinInt <= v <= MaxInt then Some(v) else None
  }

  lemma {:induction false} DigitsValueOfNatDigits(n: nat)
    ensures DigitsValue(NatDigits(n)) == n
    decreases n
  {
    if n >= 10 {
      var s := NatDigits(n);
      DigitsValueOfNatDigits(n / 10);
      assert s[..|s| - 1] == NatDigits(n / 10);
    }
  }

  /** `n` zero digits. */
  function Zeros(n: nat): (z: string)
    ensures |z| == n && forall k | 0 <= k < n :: z[k] == '0'
  {
    if n == 0 then "" else "0" + Zeros(n - 1)
  }

  /** A leading zero does not change the value. */
  lemma {:induction false} LeadingZeroValue(d: string)
    requires AllDigits(d)
    ensures AllDigits("0" + d) && DigitsValue("0" + d) == DigitsValue(d)
    decreases |d|
  {
    if |d| > 0 {
      var z := "0" + d;
      assert z[..|z| - 1] == "0" + d[..|d| - 1];
      LeadingZeroValue(d[..|d| - 1]);
    }
  }

  /** A digit string without leading zeros is the rendering of its value. */
  lemma {:induction false} NoLeadingZeroCanonical(d: string)
    requires |d| >= 1 && AllDigits(d) && (d[0] != '0' || |d| == 1)
    ensures NatDigits(DigitsValue(d)) == d
    ensures d[0] != '0' ==> DigitsValue(d) >= 1
    decreases |d|
  {
    var n := DigitsValue(d);
    if |d| > 1 {
      var init := d[..|d| - 1];
      NoLeadingZeroCanonical(init);
      var last := d[|d| - 1] as int - '0' as int;
      assert n == DigitsValue(init) * 10 + last && 0 <= last < 10;
      assert n / 10 == DigitsValue(init) && n % 10 == last;
      assert DigitChar(last) == d[|d| - 1];
      assert d == init + [d[|d| - 1]];
    } else {
      assert d[..0] == [];
      assert n == DigitsValue(d[..0]) * 10 + (d[0] as int - '0' as int);
      assert d == [DigitChar(n)];
    }
  }

  /** Any digit string is some zeros followed by the rendering of its value. */
  lemma {:induction false} CanonicalDigits(d: string)
    requires |d| >= 1 && AllDigits(d)
    ensures |NatDigits(DigitsValue(d))| <= |d|
    ensures d == Zeros(|d| - |NatDigits(DigitsValue(d))|) + NatDigits(DigitsValue(d))
    decreases |d|
  {
    if d[0] == '0' && |d| > 1 {
      var tail := d[1..];
      assert d == "0" + tail;
      LeadingZeroValue(tail);
      CanonicalDigits(tail);
      var nd := NatDigits(DigitsValue(tail));
      ZeroThenCanonical(tail, nd, |tail| - |nd|);
    } else {
      NoLeadingZeroCanonical(d);
    }
  }

  lemma ZeroThenCanonical(tail: string, nd: string, k: nat)
    requires tail == Zeros(k) + nd
    ensures "0" + tail == Zeros(k + 1) + nd
  {
    assert Zeros(k + 1) == "0" + Zeros(k);
  }

  /** What `Atoi` accepts: an optional sign, any number of zeros, then the
      rendering of the value's magnitude; a `-` only before a value <= 0. */
  lemma AtoiCanonical(s: string)
    requires Atoi(s).Some?
    ensures var v := Atoi(s).value;
            var digits := if s[0] == '+' || s[0] == '-' then s[1..] else s;
            var nd := NatDigits(if v < 0 then -v else v);
            |nd| <= |digits| && digits == Zeros(|digits| - |nd|) + nd
  {
    var digits := if s[0] == '+' || s[0] == '-' then s[1..] else s;
    AtoiMagnitude(s);
    CanonicalDigits(digits);
  }

  /** The digits after an accepted string's sign spell its magnitude. */
  lemma AtoiMagnitude(s: string)
    requires Atoi(s).Some?
    ensures var v := Atoi(s).value;
            var digits := if s[0] == '+' || s[0] == '-' then s[1..] else s;
            |digits| >= 1 && AllDigits(digits) && DigitsValue(digits) == if v < 0 then -v else v
  {
  }

  /** Leading zeros do not change the value. */
  lemma {:induction false} ZerosValue(k: nat, d: string)
    requires AllDigits(d)
    ensures AllDigits(Zeros(k) + d) && DigitsValue(Zeros(k) + d) == DigitsValue(d)
    decreases k
  {
    if k > 0 {
      ZerosValue(k - 1, d);
      assert Zeros(k) + d == "0" + (Zeros(k - 1) + d);
      LeadingZeroValue(Zeros(k - 1) + d);
    } else {
      assert Zeros(k) + d == d;
    }
  }

  /** `Atoi` of an optional sign followed by a non-empty digit string. */
  lemma AtoiSigned(sign: string, digits: string)
    requires sign == "" || sign == "+" || sign == "-"
    requires |digits| >= 1 && AllDigits(digits)
    requires var n: int := DigitsValue(digits); MinInt <= (if sign == "-" then -n else n) <= MaxInt
    ensures var n: int := DigitsValue(digits); Atoi(sign + digits) == Some(if sign == "-" then -n else n)
  {
    var s := sign + digits;
    if sign == "" {
      assert s == digits && IsDigit(s[0]);
    } else {
      assert s[0] == sign[0] && s[1..] == digits;
    }
  }

  /** The converse of `AtoiCanonical`: an optional sign (`+` only before a
      value >= 0, `-` only before a value <= 0), any number of zeros and the
      rendering of the magnitude of an `int` is accepted with that value. */
  lemma AtoiPadded(v: int, k: nat, sign: string)
    requires MinInt <= v <= MaxInt
    requires sign == "" || sign == "+" || sign == "-"
    requires v < 0 ==> sign == "-"
    requires sign == "-" ==> v <= 0
    ensures Atoi(sign + Zeros(k) + NatDigits(if v < 0 then -v else v)) == Some(v)
  {
    var a := if v < 0 then -v else v;
    var digits := Zeros(k) + NatDigits(a);
    ZerosValue(k, NatDigits(a));
    DigitsValueOfNatDigits(a);
    assert sign + Zeros(k) + NatDigits(a) == sign + digits;
    AtoiSigned(sign, digits);
  }

  /** Every integer that Go's `int` can hold is parsed back from its own rendering. */
  lemma AtoiFormatInt(i: int)
    requires MinInt <= i <= MaxInt
    ensures Atoi(FormatInt(i)) == Some(i)
  {
    var s := FormatInt(i);
    if i < 0 {
      DigitsValueOfNatDigits(-i);
      assert s[1..] == NatDigits(-i);
    } else {
      DigitsValueOfNatDigits(i);
    }
  }

  /** `NatDigits` writes no leading zero. */
  lemma {:induction false} NatDigitsNoLeadingZero(n: nat)
    ensures n == 0 <==> NatDigits(n) == "0"
    ensures n > 0 ==> NatDigits(n)[0] != '0'
    decreases n
  {
    if n >= 10 {
      NatDigitsNoLeadingZero(n / 10);
      assert NatDigits(n)[0] == NatDigits(n / 10)[0];
    } else if n > 0 {
      assert NatDigits(n) == [DigitChar(n)];
    }
  }

  /** The rendering has no leading zero: `0` is `"0"`, any other value starts
      with a non-zero digit, after a `-` when negative. */
  lemma FormatIntCanonical(i: int)
    ensures i == 0 <==> FormatInt(i) == "0"
    ensures i > 0 ==> IsDigit(FormatInt(i)[0]) && FormatInt(i)[0] != '0'
    ensures i < 0 ==> var s := FormatInt(i); |s| >= 2 && s[0] == '-' && s[1] != '0' && AllDigits(s[1..])
  {
    if i < 0 {
      NatDigitsNoLeadingZero(-i);
      assert FormatInt(i)[1..] == NatDigits(-i);
    } else {
      NatDigitsNoLeadingZero(i);
    }
  }

  /** Distinct integers have distinct renderings. */
  lemma FormatIntInjective(a: int, b: int)
    requires FormatInt(a) == FormatInt(b)
    ensures a == b
  {
    var s := FormatInt(a);
    assert (a < 0) == (s[0] == '-') == (b < 0);
    if a < 0 {
      DigitsValueOfNatDigits(-a);
      DigitsValueOfNatDigits(-b);
      assert s[1..] == NatDigits(-a) == NatDigits(-b);
    } else {
      DigitsValueOfNatDigits(a);
      DigitsValueOfNatDigits(b);
    }
  }
}
