/**
  `formatSize`: a byte count shown as a short human-readable size such as
  "1.5 MB", in binary units (1 KB = 1024 bytes) up to GB, rounded to
  hundredths with trailing zeros trimmed. Byte counts are integers and the
  rounding is done in exact integer arithmetic.
 */
module Format {
  import opened Decimal

  datatype Option<T> = None | Some(value: T)

  /** The three units `formatSize` knows; there is none above GB. */
  datatype Unit = KB | MB | GB {
    function Bytes(): nat {
      match this
      case KB => 1024
      case MB => 1024 * 1024
      case GB => 1024 * 1024 * 1024
    }

    function Label(): string {
      match this
      case KB => "KB"
      case MB => "MB"
      case GB => "GB"
    }
  }

  /**
    The threshold cascade, largest unit first with `>=`: the unit is the
    largest one that fits into `bytes`, and KB when none does.
   */
  function SelectUnit(bytes: int): (u: Unit)
    ensures u == KB || u.Bytes() <= bytes
    ensures forall v: Unit :: v.Bytes() <= bytes ==> v.Bytes() <= u.Bytes()
  {
    if bytes >= GB.Bytes() then GB
    else if bytes >= MB.Bytes() then MB
    else KB
  }

  /**
    `Math.round(bytes / size * 100)` in exact arithmetic: the whole number of
    hundredths of `u` nearest to `bytes`, a tie going up.
   */
  function Hundredths(bytes: nat, u: Unit): (h: nat)
    ensures 2 * h * u.Bytes() - u.Bytes() <= 200 * bytes < 2 * h * u.Bytes() + u.Bytes()
  {
    var size := u.Bytes();
    (bytes * 100 + size / 2) / size
  }

  /** `Math.round` on a mathematical real: the nearest integer, a tie rounded towards +infinity. */
  function RoundHalfUp(x: real): (k: int)
    ensures k as real - 0.5 <= x < k as real + 0.5
  {
    (x + 0.5).Floor
  }

  function FormatSize(bytes: int): (s: string)
    ensures bytes <= 0 ==> s == "0 KB"
  {
    if bytes <= 0 then "0 KB"
    else
      var u := SelectUnit(bytes);
      TrimmedFixed(Hundredths(bytes, u)) + " " + u.Label()
  }

  /** What a shown size stands for: an amount of hundredths of a unit. */
  datatype Reading = Reading(hundredths: nat, unit: Unit)

  /**
    The reading `formatSize` is meant to show for `bytes`: nothing for a
    non-positive input, otherwise the largest unit that fits and the nearest
    whole number of its hundredths.
   */
  function Measure(bytes: int): (r: Reading)
    ensures bytes <= 0 ==> r == Reading(0, KB)
    ensures bytes > 0 ==> r.unit == KB || r.unit.Bytes() <= bytes
    ensures bytes > 0 ==> forall v: Unit :: v.Bytes() <= bytes ==> v.Bytes() <= r.unit.Bytes()
    ensures bytes > 0 ==> var size := r.unit.Bytes();
      2 * r.hundredths * size - size <= 200 * bytes < 2 * r.hundredths * size + size
  {
    if bytes <= 0 then Reading(0, KB)
    else
      var u := SelectUnit(bytes);
      Reading(Hundredths(bytes, u), u)
  }

  function UnitOfLabel(l: string): (r: Option<Unit>)
    ensures r.Some? ==> r.value.Label() == l
    ensures forall u: Unit :: u.Label() == l ==> r == Some(u)
  {
    if l == "KB" then Some(KB)
    else if l == "MB" then Some(MB)
    else if l == "GB" then Some(GB)
    else None
  }

  /** Reads a shown size back: a trimmed decimal text, one space, a unit label. */
  function ParseSize(s: string): Option<Reading>
  {
    if |s| >= 4 && s[|s| - 3] == ' ' && IsTrimmedDecimal(s[..|s| - 3]) && UnitOfLabel(s[|s| - 2..]).Some? then
      Some(Reading(HundredthsOf(s[..|s| - 3]), UnitOfLabel(s[|s| - 2..]).value))
    else
      None
  }

  /**
    The rounding is `Math.round(value * 100)` for `value = bytes / size`: the
    integer hundredths count equals the real-valued rounding.
   */
  lemma HundredthsIsMathRound(bytes: nat, u: Unit)
    ensures Hundredths(bytes, u) == RoundHalfUp(bytes as real / u.Bytes() as real * 100.0)
  {
  }

  /** The text of a reading: the trimmed amount, one space, the unit label. */
  function Show(r: Reading): string
  {
    TrimmedFixed(r.hundredths) + " " + r.unit.Label()
  }

  lemma FormatSizeShowsMeasure(bytes: int)
    ensures FormatSize(bytes) == Show(Measure(bytes))
  {
    if bytes <= 0 {
      ZeroText();
    }
  }

  /** Every reading is read back from its text. */
  lemma {:induction false} ShowParses(r: Reading)
    ensures ParseSize(Show(r)) == Some(r)
  {
    TrimmedFixedDenotes(r.hundredths);
    ParseJoined(TrimmedFixed(r.hundredths), r.unit);
  }

  /** A trimmed text, a space and a label read back as the amount and the unit. */
  lemma ParseJoined(t: string, u: Unit)
    requires IsTrimmedDecimal(t)
    ensures ParseSize(t + " " + u.Label()) == Some(Reading(HundredthsOf(t), u))
  {
    var s := t + " " + u.Label();
    assert s[..|s| - 3] == t && s[|s| - 2..] == u.Label();
  }

  /** Every text that reads as a size is the text of its reading. */
  lemma {:induction false} ParsedShows(s: string)
    requires ParseSize(s).Some?
    ensures Show(ParseSize(s).value) == s
  {
    var text, name := s[..|s| - 3], s[|s| - 2..];
    var r := ParseSize(s).value;
    assert r.hundredths == HundredthsOf(text) && r.unit.Label() == name;
    TrimmedFixedUnique(text);
    assert Show(r) == text + " " + name;
    assert s == text + " " + name;
  }

  /**
    The shown text denotes exactly the reading it is meant to, and it is the
    only text that does: trimming loses nothing and adds no second spelling.
   */
  lemma {:induction false} FormatSizeDenotes(bytes: int, s: string)
    ensures s == FormatSize(bytes) <==> ParseSize(s) == Some(Measure(bytes))
  {
    FormatSizeShowsMeasure(bytes);
    ShowParses(Measure(bytes));
    if ParseSize(s) == Some(Measure(bytes)) {
      ParsedShows(s);
    }
  }

  /** The unit is GB exactly when `bytes` reaches 1024^3; larger inputs stay in GB. */
  lemma GigabytesExactly(bytes: int)
    ensures var s := FormatSize(bytes);
      |s| >= 2 && (s[|s| - 2..] == "GB" <==> bytes >= 1024 * 1024 * 1024)
  {
  }

  /** The unit is MB exactly from 1024^2 up to, not including, 1024^3. */
  lemma MegabytesExactly(bytes: int)
    ensures var s := FormatSize(bytes);
      |s| >= 2 && (s[|s| - 2..] == "MB" <==> 1024 * 1024 <= bytes < 1024 * 1024 * 1024)
  {
  }

  /** Every other input, non-positive ones and those under 1024 included, is shown in KB. */
  lemma KilobytesOtherwise(bytes: int)
    ensures var s := FormatSize(bytes);
      |s| >= 2 && (s[|s| - 2..] == "KB" <==> bytes < 1024 * 1024)
  {
  }

  /** The output is the numeric text, exactly one space, and the unit label. */
  lemma {:induction false} OneSpace(bytes: int)
    ensures var s := FormatSize(bytes);
      |s| >= 4 && forall i :: 0 <= i < |s| ==> (s[i] == ' ' <==> i == |s| - 3)
  {
    FormatSizeShowsMeasure(bytes);
    ShowHasOneSpace(Measure(bytes));
  }

  /** The text of every reading holds exactly one space, three characters from its end. */
  lemma {:induction false} ShowHasOneSpace(r: Reading)
    ensures var s := Show(r);
      |s| >= 4 && forall i :: 0 <= i < |s| ==> (s[i] == ' ' <==> i == |s| - 3)
  {
    TrimmedFixedShape(r.hundredths);
    SpaceBetween(TrimmedFixed(r.hundredths), r.unit.Label());
  }

  /** Joining a text and a label, neither holding a space, puts the only space between them. */
  lemma SpaceBetween(t: string, name: string)
    requires ' ' !in t && ' ' !in name && |t| > 0 && |name| == 2
    ensures var s := t + " " + name;
      |s| >= 4 && forall i :: 0 <= i < |s| ==> (s[i] == ' ' <==> i == |s| - 3)
  {
    var s := t + " " + name;
    assert forall i :: 0 <= i < |t| ==> s[i] == t[i];
    assert forall i :: |t| < i < |s| ==> s[i] == name[i - |t| - 1];
  }

  /** A positive input is shown as "0 KB" exactly when it is under 6 bytes. */
  lemma {:induction false} SmallInputsShowZero(bytes: int)
    requires bytes > 0
    ensures FormatSize(bytes) == "0 KB" <==> bytes <= 5
  {
    FormatSizeShowsMeasure(bytes);
    ShowInjective(Measure(bytes), Reading(0, KB));
    ZeroText();
    MeasuresZero(bytes);
  }

  lemma ZeroText()
    ensures Show(Reading(0, KB)) == "0 KB"
  {
    assert FixedTwo(0) == "0.00";
    assert TrimmedFixed(0) == "0";
  }

  /** A positive input rounds to no hundredths exactly when it is under 6 bytes. */
  lemma MeasuresZero(bytes: int)
    requires bytes > 0
    ensures Measure(bytes) == Reading(0, KB) <==> bytes <= 5
  {
    if bytes > 5 && SelectUnit(bytes) == KB {
      assert Hundredths(bytes, KB) > 0;
    }
  }

  /** Different readings have different texts. */
  lemma {:induction false} ShowInjective(r1: Reading, r2: Reading)
    ensures Show(r1) == Show(r2) <==> r1 == r2
  {
    ShowParses(r1);
    ShowParses(r2);
  }

  /** Rounding keeps order within one unit. */
  lemma HundredthsMonotone(a: nat, b: nat, u: Unit)
    requires a <= b
    ensures Hundredths(a, u) <= Hundredths(b, u)
  {
  }

  /** A whole number of units is shown with no rounding. */
  lemma HundredthsOfWhole(k: nat, u: Unit)
    ensures Hundredths(k * u.Bytes(), u) == 100 * k
  {
  }

  /**
    A larger input never shows a smaller amount: compared in bytes, the shown
    readings keep the order of the inputs, across unit changes too.
   */
  lemma {:induction false} FormatSizeMonotone(a: int, b: int)
    requires a <= b
    ensures Measure(a).unit.Bytes() <= Measure(b).unit.Bytes()
    ensures Measure(a).hundredths * Measure(a).unit.Bytes() <= Measure(b).hundredths * Measure(b).unit.Bytes()
  {
    var ra, rb := Measure(a), Measure(b);
    if a > 0 {
      if ra.unit == rb.unit {
        HundredthsMonotone(a, b, ra.unit);
      } else {
        AcrossUnits(a, b, ra.unit, rb.unit);
      }
    }
  }

  /** Below the threshold of a larger unit, the amount in bytes is at most the threshold's. */
  lemma AcrossUnits(a: nat, b: nat, small: Unit, large: Unit)
    requires small.Bytes() < large.Bytes() && a <= large.Bytes() <= b
    ensures Hundredths(a, small) * small.Bytes() <= Hundredths(b, large) * large.Bytes()
  {
    var S, L := small.Bytes(), large.Bytes();
    var k := L / S;
    assert L == k * S;
    HundredthsMonotone(a, L, small);
    HundredthsOfWhole(k, small);
    HundredthsMonotone(L, b, large);
    HundredthsOfWhole(1, large);
    var h, H := Hundredths(a, small), Hundredths(b, large);
    assert h <= 100 * k && H >= 100;
    assert h * S <= 100 * k * S;
    assert 100 * L <= H * L;
  }

  /**
    A positive input is shown as 1 to 1024 of its unit, except KB, which starts
    at 0, and GB, which has no upper end. Below GB the input is under 1024 of
    its unit, so 1024 is reached only by rounding up from within half a
    hundredth of the next unit.
   */
  lemma ShownAmountRange(bytes: int)
    requires bytes > 0
    ensures Measure(bytes).unit != KB ==> Measure(bytes).hundredths >= 100
    ensures Measure(bytes).unit != GB ==> Measure(bytes).hundredths <= 102400
    ensures Measure(bytes).unit != GB ==> bytes < 1024 * Measure(bytes).unit.Bytes()
    ensures Measure(bytes).unit != GB && Measure(bytes).hundredths == 102400 ==>
      200 * bytes >= 204799 * Measure(bytes).unit.Bytes()
  {
  }

  /** An input whose reading has the trimmed text `t` is shown as `t` and the label. */
  lemma {:induction false} ShownAs(bytes: int, r: Reading, t: string)
    requires Measure(bytes) == r && TrimmedFixed(r.hundredths) == t
    ensures FormatSize(bytes) == t + " " + r.unit.Label()
  {
    FormatSizeShowsMeasure(bytes);
  }

  lemma OneText()
    ensures TrimmedFixed(100) == "1"
  {
    assert FixedTwo(100) == "1.00";
  }

  lemma OneAndAHalfText()
    ensures TrimmedFixed(150) == "1.5"
  {
    assert FixedTwo(150) == "1.50";
  }

  lemma OneThousandTwentyFourText()
    ensures TrimmedFixed(102400) == "1024"
  {
    assert Numeral(1024) == "1024" by {
      assert Numeral(102) == "102" by {
        assert Numeral(10) == "10";
      }
    }
    assert FixedTwo(102400) == "1024.00";
  }

  lemma OneKilobyteMeasure()
    ensures Measure(1024) == Reading(100, KB)
  {
    assert Hundredths(1024, KB) == 100;
  }

  /** 1024 bytes are "1 KB". */
  lemma OneKilobyte()
    ensures FormatSize(1024) == "1 KB"
  {
    OneKilobyteMeasure();
    OneText();
    ShownAs(1024, Reading(100, KB), "1");
  }

  lemma OneAndAHalfKilobytesMeasure()
    ensures Measure(1536) == Reading(150, KB)
  {
    assert Hundredths(1536, KB) == 150;
  }

  /** 1536 bytes are "1.5 KB". */
  lemma OneAndAHalfKilobytes()
    ensures FormatSize(1536) == "1.5 KB"
  {
    OneAndAHalfKilobytesMeasure();
    OneAndAHalfText();
    ShownAs(1536, Reading(150, KB), "1.5");
  }

  lemma OneMegabyteMeasure()
    ensures Measure(1024 * 1024) == Reading(100, MB)
  {
    assert Hundredths(1024 * 1024, MB) == 100;
  }

  /** 1024^2 bytes are "1 MB". */
  lemma OneMegabyte()
    ensures FormatSize(1024 * 1024) == "1 MB"
  {
    OneMegabyteMeasure();
    OneText();
    ShownAs(1024 * 1024, Reading(100, MB), "1");
  }

  lemma OneAndAHalfMegabytesMeasure()
    ensures Measure(1024 * 1024 * 3 / 2) == Reading(150, MB)
  {
    assert Hundredths(1024 * 1024 * 3 / 2, MB) == 150;
  }

  /** 1.5 * 1024^2 bytes are "1.5 MB". */
  lemma OneAndAHalfMegabytes()
    ensures FormatSize(1024 * 1024 * 3 / 2) == "1.5 MB"
  {
    OneAndAHalfMegabytesMeasure();
    OneAndAHalfText();
    ShownAs(1024 * 1024 * 3 / 2, Reading(150, MB), "1.5");
  }

  lemma OneGigabyteMeasure()
    ensures Measure(1024 * 1024 * 1024) == Reading(100, GB)
  {
    assert Hundredths(1024 * 1024 * 1024, GB) == 100;
  }

  /** 1024^3 bytes are "1 GB". */
  lemma OneGigabyte()
    ensures FormatSize(1024 * 1024 * 1024) == "1 GB"
  {
    OneGigabyteMeasure();
    OneText();
    ShownAs(1024 * 1024 * 1024, Reading(100, GB), "1");
  }

  lemma JustUnderAGigabyteMeasure()
    ensures Measure(1024 * 1024 * 1024 - 1) == Reading(102400, MB)
  {
    assert Hundredths(1024 * 1024 * 1024 - 1, MB) == 102400;
  }

  /** One byte under 1024^3 stays in MB and rounds up to "1024 MB". */
  lemma JustUnderAGigabyte()
    ensures FormatSize(1024 * 1024 * 1024 - 1) == "1024 MB"
  {
    JustUnderAGigabyteMeasure();
    OneThousandTwentyFourText();
    ShownAs(1024 * 1024 * 1024 - 1, Reading(102400, MB), "1024");
  }

  lemma NoUnitAboveGigabyteMeasure()
    ensures Measure(1024 * 1024 * 1024 * 1024) == Reading(102400, GB)
  {
    assert Hundredths(1024 * 1024 * 1024 * 1024, GB) == 102400;
  }

  /** 1024^4 bytes, with no unit above GB, are "1024 GB". */
  lemma NoUnitAboveGigabyte()
    ensures FormatSize(1024 * 1024 * 1024 * 1024) == "1024 GB"
  {
    NoUnitAboveGigabyteMeasure();
    OneThousandTwentyFourText();
    ShownAs(1024 * 1024 * 1024 * 1024, Reading(102400, GB), "1024");
  }
}
