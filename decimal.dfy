/**
  Decimal text of a non-negative amount counted in hundredths, as
  `Number.prototype.toFixed(2)` prints it, and the two trailing-zero trims
  `formatSize` applies to that text. The trimmed text is read back by
  `HundredthsOf`, the partner that the round-trip lemmas are stated against.
 */
module Decimal {

  predicate IsDigit(c: char) {
    '0' <= c <= '9'
  }

  function DigitChar(d: nat): (c: char)
    requires d < 10
    ensures IsDigit(c) && c as int - '0' as int == d
    ensures c == '0' <==> d == 0
  {
    (('0' as int) + d) as char
  }

  function DigitValue(c: char): (d: nat)
    requires IsDigit(c)
    ensures d < 10 && DigitChar(d) == c
  {
    c as int - '0' as int
  }

  predicate AllDigits(s: string) {
    forall i :: 0 <= i < |s| ==> IsDigit(s[i])
  }

  /** A numeral as JavaScript prints a whole number: at least one digit and no leading zero, except "0" itself. */
  predicate IsNumeral(s: string) {
    |s| > 0 && AllDigits(s) && (s[0] == '0' ==> |s| == 1)
  }

  /** The value a string of decimal digits denotes. */
  function NumeralValue(s: string): nat
    requires AllDigits(s)
    decreases |s|
  {
    if s == [] then 0 else NumeralValue(s[..|s| - 1]) * 10 + DigitValue(s[|s| - 1])
  }

  /** The decimal numeral of `n`, the integer part of what `toFixed` prints. */
  function Numeral(n: nat): (s: string)
    ensures IsNumeral(s)
    ensures n < 10 <==> |s| == 1
  {
    if n < 10 then [DigitChar(n)] else Numeral(n / 10) + [DigitChar(n % 10)]
  }

  lemma {:induction false} NumeralValueOfNumeral(n: nat)
    ensures NumeralValue(Numeral(n)) == n
  {
    if n >= 10 {
      var s := Numeral(n);
      assert s[..|s| - 1] == Numeral(n / 10);
      NumeralValueOfNumeral(n / 10);
    }
  }

  lemma {:induction false} NumeralValueAtLeastLead(s: string)
    requires |s| > 0 && AllDigits(s)
    ensures NumeralValue(s) >= DigitValue(s[0])
  {
    if |s| > 1 {
      var p := s[..|s| - 1];
      assert p[0] == s[0];
      NumeralValueAtLeastLead(p);
    }
  }

  /** Every numeral is the one `Numeral` prints for its value: the numeral of a number is unique. */
  lemma {:induction false} NumeralOfNumeralValue(s: string)
    requires IsNumeral(s)
    ensures Numeral(NumeralValue(s)) == s
  {
    if |s| == 1 {
      assert s == [s[0]];
      assert NumeralValue(s) == DigitValue(s[0]) by {
        assert s[..0] == [];
      }
    } else {
      var p := s[..|s| - 1];
      assert p[0] == s[0] && AllDigits(p);
      NumeralValueAtLeastLead(p);
      NumeralOfNumeralValue(p);
      var v := NumeralValue(s);
      assert v / 10 == NumeralValue(p) && v % 10 == DigitValue(s[|s| - 1]);
      assert s == p + [s[|s| - 1]];
    }
  }

  predicate EndsWith(s: string, suffix: string) {
    |suffix| <= |s| && s[|s| - |suffix|..] == suffix
  }

  /** `(h / 100).toFixed(2)`: the whole part, a point and exactly two fractional digits. */
  function FixedTwo(h: nat): (s: string)
    ensures |s| >= 4 && s[|s| - 3] == '.'
  {
    Numeral(h / 100) + "." + [DigitChar(h / 10 % 10), DigitChar(h % 10)]
  }

  /**
    The `toFixed(2)` text spells `h`: its whole part is a numeral for the
    whole units and its two fractional digits are the remaining hundredths.
   */
  lemma {:induction false} FixedTwoSpells(h: nat)
    ensures var s := FixedTwo(h);
      IsNumeral(s[..|s| - 3]) && NumeralValue(s[..|s| - 3]) == h / 100
      && IsDigit(s[|s| - 2]) && IsDigit(s[|s| - 1])
      && DigitValue(s[|s| - 2]) * 10 + DigitValue(s[|s| - 1]) == h % 100
  {
    NumeralValueOfNumeral(h / 100);
    SplitHundredths(h);
    var s := FixedTwo(h);
    assert s[..|s| - 3] == Numeral(h / 100);
  }

  /** `.replace(/\.00$/, "")`: a text ending in ".00" loses that ending, any other is kept. */
  function DropPointZeroZero(s: string): (r: string)
    ensures if EndsWith(s, ".00") then r + ".00" == s else r == s
  {
    if |s| >= 3 && s[|s| - 3..] == ".00" then s[..|s| - 3] else s
  }

  /**
    `.replace(/(\.\d)0$/, "$1")`: a text ending in a point, a digit and "0"
    loses the "0", any other is kept.
   */
  function DropDigitZero(s: string): (r: string)
    ensures if |s| >= 3 && s[|s| - 3] == '.' && IsDigit(s[|s| - 2]) && s[|s| - 1] == '0'
      then r + "0" == s && r[|r| - 2] == '.'
      else r == s
  {
    if |s| >= 3 && s[|s| - 3] == '.' && IsDigit(s[|s| - 2]) && s[|s| - 1] == '0' then s[..|s| - 1] else s
  }

  /**
    The two replacements, in the order `formatSize` chains them. They only
    ever cut off a tail of points and zeros: "0", ".00", or both one after
    the other when the text ends in ".0.00".
   */
  function Trim(s: string): (r: string)
    ensures r <= s
    ensures var cut := s[|r|..]; cut == "" || cut == "0" || cut == ".00" || cut == "0.00"
  {
    var once := DropPointZeroZero(s);
    assert s[|once|..] == "" || s[|once|..] == ".00";
    DropDigitZero(once)
  }

  /**
    The text `formatSize` shows for an amount of `h` hundredths: the
    `toFixed(2)` text with a tail of at most three characters cut off.
   */
  function TrimmedFixed(h: nat): (t: string)
    ensures t <= FixedTwo(h) && |FixedTwo(h)| - 3 <= |t|
  {
    Trim(FixedTwo(h))
  }

  /**
    The cut tail is exactly the final "0" or ".00" of the `toFixed(2)` text, or
    nothing: never both, since the integer part holds no point.
   */
  lemma TrimmedFixedCut(h: nat)
    ensures var f := FixedTwo(h); var cut := f[|TrimmedFixed(h)|..];
      cut == "" || cut == "0" || cut == ".00"
  {
  }

  /**
    The shape of a trimmed text: a numeral, optionally followed by a point and
    one or two fractional digits, the last of which is not a zero.
   */
  predicate IsTrimmedDecimal(t: string) {
    || IsNumeral(t)
    || (|t| >= 3 && t[|t| - 2] == '.' && IsNumeral(t[..|t| - 2])
        && IsDigit(t[|t| - 1]) && t[|t| - 1] != '0')
    || (|t| >= 4 && t[|t| - 3] == '.' && IsNumeral(t[..|t| - 3])
        && IsDigit(t[|t| - 2]) && IsDigit(t[|t| - 1]) && t[|t| - 1] != '0')
  }

  /** The amount, in hundredths, that a trimmed text denotes. */
  function HundredthsOf(t: string): nat
    requires IsTrimmedDecimal(t)
  {
    if IsNumeral(t) then NumeralValue(t) * 100
    else if t[|t| - 2] == '.' then NumeralValue(t[..|t| - 2]) * 100 + DigitValue(t[|t| - 1]) * 10
    else NumeralValue(t[..|t| - 3]) * 100 + DigitValue(t[|t| - 2]) * 10 + DigitValue(t[|t| - 1])
  }

  /** Trimming loses no value: the text is well formed and denotes exactly `h` hundredths. */
  lemma {:induction false} TrimmedFixedDenotes(h: nat)
    ensures IsTrimmedDecimal(TrimmedFixed(h))
    ensures HundredthsOf(TrimmedFixed(h)) == h
  {
    SplitHundredths(h);
    if h % 100 == 0 {
      WholeAmountDenotes(h);
    } else if h % 10 == 0 {
      OneFractionDigitDenotes(h);
    } else {
      TwoFractionDigitsDenote(h);
    }
  }

  lemma SplitHundredths(h: nat)
    ensures h == h / 100 * 100 + h / 10 % 10 * 10 + h % 10
    ensures h % 100 == h / 10 % 10 * 10 + h % 10
  {
    assert h / 10 == h / 100 * 10 + h / 10 % 10;
  }

  lemma WholeAmountDenotes(h: nat)
    requires h % 100 == 0
    ensures IsTrimmedDecimal(TrimmedFixed(h)) && HundredthsOf(TrimmedFixed(h)) == h
  {
    SplitHundredths(h);
    NumeralValueOfNumeral(h / 100);
    var n := Numeral(h / 100);
    var f := FixedTwo(h);
    assert f == n + ".00";
    assert f[|f| - 3..] == ".00" && f[..|f| - 3] == n;
    assert TrimmedFixed(h) == n;
  }

  lemma OneFractionDigitDenotes(h: nat)
    requires h % 10 == 0 && h % 100 != 0
    ensures IsTrimmedDecimal(TrimmedFixed(h)) && HundredthsOf(TrimmedFixed(h)) == h
  {
    SplitHundredths(h);
    NumeralValueOfNumeral(h / 100);
    var n := Numeral(h / 100);
    var f := FixedTwo(h);
    var t := n + ['.', DigitChar(h / 10 % 10)];
    assert f == t + ['0'];
    assert f[|f| - 3..] != ".00" by { assert f[|f| - 2] != '0'; }
    assert f[..|f| - 1] == t;
    assert TrimmedFixed(h) == t;
    assert t[..|t| - 2] == n;
    assert !IsNumeral(t) by { assert t[|t| - 2] == '.'; }
  }

  lemma TwoFractionDigitsDenote(h: nat)
    requires h % 10 != 0
    ensures IsTrimmedDecimal(TrimmedFixed(h)) && HundredthsOf(TrimmedFixed(h)) == h
  {
    SplitHundredths(h);
    NumeralValueOfNumeral(h / 100);
    var n := Numeral(h / 100);
    var f := FixedTwo(h);
    assert f == n + ['.', DigitChar(h / 10 % 10), DigitChar(h % 10)];
    assert f[|f| - 3..] != ".00" by { assert f[|f| - 1] != '0'; }
    assert TrimmedFixed(h) == f;
    assert f[..|f| - 3] == n;
    assert !IsNumeral(f) by { assert f[|f| - 3] == '.'; }
    assert f[|f| - 2] != '.';
  }

  /** Conversely, every trimmed text is the one shown for the amount it denotes. */
  lemma TrimmedFixedUnique(t: string)
    requires IsTrimmedDecimal(t)
    ensures TrimmedFixed(HundredthsOf(t)) == t
  {
    if IsNumeral(t) {
      WholeTextUnique(t);
    } else if t[|t| - 2] == '.' {
      OneDigitTextUnique(t);
    } else {
      TwoDigitTextUnique(t);
    }
  }

  lemma HundredthsDigits(whole: nat, tens: nat, units: nat)
    requires tens < 10 && units < 10
    ensures var h := whole * 100 + tens * 10 + units;
      h / 100 == whole && h / 10 % 10 == tens && h % 10 == units
  {
    var h := whole * 100 + tens * 10 + units;
    assert h / 10 == whole * 10 + tens;
  }

  lemma WholeTextUnique(t: string)
    requires IsNumeral(t)
    ensures IsTrimmedDecimal(t) && TrimmedFixed(HundredthsOf(t)) == t
  {
    var h := NumeralValue(t) * 100;
    NumeralOfNumeralValue(t);
    assert h / 100 == NumeralValue(t) && h / 10 % 10 == 0 && h % 10 == 0;
    var f := FixedTwo(h);
    assert f == t + ".00";
    assert f[|f| - 3..] == ".00" && f[..|f| - 3] == t;
    assert DropDigitZero(t) == t by { assert t[|t| - 1] != '.' || |t| < 3; }
  }

  lemma OneDigitTextUnique(t: string)
    requires |t| >= 3 && t[|t| - 2] == '.' && IsNumeral(t[..|t| - 2])
    requires IsDigit(t[|t| - 1]) && t[|t| - 1] != '0'
    ensures IsTrimmedDecimal(t) && TrimmedFixed(HundredthsOf(t)) == t
  {
    var p := t[..|t| - 2];
    var d := DigitValue(t[|t| - 1]);
    assert !IsNumeral(t);
    var h := HundredthsOf(t);
    assert h == NumeralValue(p) * 100 + d * 10 + 0;
    NumeralOfNumeralValue(p);
    HundredthsDigits(NumeralValue(p), d, 0);
    var f := FixedTwo(h);
    assert t == p + ['.', t[|t| - 1]];
    assert f == p + ['.', t[|t| - 1], '0'];
    assert f[|f| - 3..] != ".00" by { assert f[|f| - 2] != '0'; }
    assert f[..|f| - 1] == t;
  }

  lemma TwoDigitTextUnique(t: string)
    requires |t| >= 4 && t[|t| - 3] == '.' && IsNumeral(t[..|t| - 3])
    requires IsDigit(t[|t| - 2]) && IsDigit(t[|t| - 1]) && t[|t| - 1] != '0'
    ensures IsTrimmedDecimal(t) && TrimmedFixed(HundredthsOf(t)) == t
  {
    var p := t[..|t| - 3];
    var d1, d2 := DigitValue(t[|t| - 2]), DigitValue(t[|t| - 1]);
    assert !IsNumeral(t) && t[|t| - 2] != '.';
    var h := HundredthsOf(t);
    assert h == NumeralValue(p) * 100 + d1 * 10 + d2;
    NumeralOfNumeralValue(p);
    HundredthsDigits(NumeralValue(p), d1, d2);
    var f := FixedTwo(h);
    assert t == p + ['.', t[|t| - 2], t[|t| - 1]];
    assert f == t;
    assert f[|f| - 3..] != ".00" by { assert f[|f| - 1] != '0'; }
  }

  /**
    What the trims guarantee about the shown text: no space, at most two
    fractional digits, and it never ends in ".00" nor in a point, digit, "0".
   */
  lemma {:induction false} TrimmedFixedShape(h: nat)
    ensures ' ' !in TrimmedFixed(h)
    ensures forall i :: 0 <= i < |TrimmedFixed(h)| - 3 ==> TrimmedFixed(h)[i] != '.'
    ensures var t := TrimmedFixed(h); |t| > 0 && t[|t| - 1] != '.'
    ensures var t := TrimmedFixed(h); !(|t| >= 3 && t[|t| - 3] == '.' && t[|t| - 1] == '0')
  {
    TrimmedFixedDenotes(h);
    TrimmedDecimalShape(TrimmedFixed(h));
  }

  lemma TrimmedDecimalShape(t: string)
    requires IsTrimmedDecimal(t)
    ensures ' ' !in t && |t| > 0 && t[|t| - 1] != '.'
    ensures forall i :: 0 <= i < |t| - 3 ==> t[i] != '.'
    ensures !(|t| >= 3 && t[|t| - 3] == '.' && t[|t| - 1] == '0')
  {
    var k := if IsNumeral(t) then 0 else if t[|t| - 2] == '.' then 2 else 3;
    var p := t[..|t| - k];
    assert IsNumeral(p);
    assert forall i :: 0 <= i < |p| ==> t[i] == p[i] && IsDigit(t[i]);
  }
}
