# formatSize in Dafny

A model of `formatSize` from `app/lib/format.ts`. It turns a byte count into a short
human-readable size such as `"1.5 MB"`, and this project proves properties of it.
The function works in four steps:

1. Non-positive input is shown as `"0 KB"`.
2. A threshold cascade, largest unit first with `>=`, picks GB (1024^3 bytes), then
   MB (1024^2), and otherwise KB (1024). There is no unit above GB.
3. The amount is rounded to hundredths of the unit with `Math.round`.
4. The amount is printed with `toFixed(2)` and trimmed twice: a final `.00` is
   dropped, and otherwise the `0` of a final point-digit-`0` is dropped. A space
   and the unit label are then appended.

Modules:

- `Decimal` (`decimal.dfy`) covers the `toFixed(2)` text of an amount counted in
  hundredths (`FixedTwo`) and the two `replace` calls (`DropPointZeroZero`,
  `DropDigitZero`, composed as `Trim`). It also has the partner reader of the
  trimmed text (`IsTrimmedDecimal`, `HundredthsOf`).
- `Format` (`format.dfy`) covers the unit datatype, the cascade (`SelectUnit`),
  exact rounding (`Hundredths`), `FormatSize` itself, and the reading it is meant
  to show (`Measure`). Its partner is `ParseSize`, which reads a shown size back
  into an amount of hundredths and a unit.

The byte count is an unbounded `int`, and the rounding is done exactly in
integers as `(bytes * 100 + size / 2) / size`. `HundredthsIsMathRound` proves that
this equals `Math.round(bytes / size * 100)` taken over the reals, where
`Math.round` is floor(x + 1/2): a tie goes up.

## Model

| member | source | states |
|---|---|---|
| Format.FormatSize | app/lib/format.ts:10-11 | any input `<= 0` gives exactly `"0 KB"`, with no error |
| Format.SelectUnit | app/lib/format.ts:20-29 | the chosen unit is the largest of KB, MB, GB whose size fits into the input, and KB when none does |
| Format.GigabytesExactly | app/lib/format.ts:20-22 | the output ends in `GB` exactly when the input is at least 1024^3, so a larger input stays in GB |
| Format.MegabytesExactly | app/lib/format.ts:23-25 | the output ends in `MB` exactly when 1024^2 <= input < 1024^3, so 1024^3 - 1 is MB |
| Format.KilobytesOtherwise | app/lib/format.ts:26-28 | the output ends in `KB` exactly when the input is below 1024^2, which includes inputs under 1024 and non-positive ones |
| Format.Hundredths | app/lib/format.ts:32 | the rounded amount h is the nearest whole number of hundredths: h - 1/2 <= 100 * bytes / size < h + 1/2, so a tie rounds up |
| Format.RoundHalfUp | app/lib/format.ts:32 | `Math.round` gives the integer k with k - 1/2 <= x < k + 1/2 |
| Format.HundredthsIsMathRound | app/lib/format.ts:32 | the exact integer rounding equals `Math.round(value * 100)` for the real `value = bytes / size` |
| Format.Measure | app/lib/format.ts:11-32 | the reading for a non-positive input is 0 KB; for a positive one the unit is the largest that fits (KB when none does) and the amount is the nearest whole number of its hundredths, a tie rounding up |
| Format.MeasuresZero | app/lib/format.ts:26-32 | a positive input rounds to 0 hundredths of KB exactly when it is 5 bytes or less |
| Decimal.Numeral | app/lib/format.ts:33 | the integer part `toFixed` prints is a digit string with no leading zero, a single digit exactly for values under 10 |
| Decimal.NumeralValueOfNumeral | app/lib/format.ts:33 | the integer part that `toFixed` prints reads back as the number it prints |
| Decimal.NumeralOfNumeralValue | app/lib/format.ts:33 | a digit string with no leading zero is the one printed for its value, so printed integer parts are unique |
| Decimal.FixedTwo | app/lib/format.ts:32-33 | `toFixed(2)` of an amount in hundredths is at least four characters, with the point three from the end |
| Decimal.FixedTwoSpells | app/lib/format.ts:32-33 | in that text the part before the point is a numeral for the whole units, and the two digits after it spell the remaining hundredths |
| Decimal.DropPointZeroZero | app/lib/format.ts:33 | `replace(/\.00$/, "")`: a text ending in `.00` loses exactly that ending, and any other text is unchanged |
| Decimal.DropDigitZero | app/lib/format.ts:33 | `replace(/(\.\d)0$/, "$1")`: a text ending in a point, a digit and `0` loses exactly the `0`, so it then ends in a point and a digit; any other text is unchanged |
| Decimal.Trim | app/lib/format.ts:33 | the two replacements chained in that order keep a prefix of the text, cutting off nothing, `0`, `.00` or `0.00` |
| Decimal.TrimmedFixed | app/lib/format.ts:32-33 | the shown amount is a prefix of its `toFixed(2)` text, at most three characters shorter |
| Decimal.TrimmedFixedCut | app/lib/format.ts:32-33 | what is cut from the `toFixed(2)` text is nothing, its final `0`, or its final `.00`; never both, because the integer part holds no point |
| Decimal.TrimmedFixedDenotes | app/lib/format.ts:31-33 | after `toFixed(2)` and both trims, the text is a numeral with an optional point and 1 or 2 fractional digits, the last of them not zero, and it denotes exactly the rounded hundredths |
| Decimal.TrimmedFixedUnique | app/lib/format.ts:31-33 | every text of that shape is the trimmed text of the amount it denotes, so the trims give one spelling per amount |
| Decimal.TrimmedFixedShape | app/lib/format.ts:31-33 | the trimmed text has no space and at most two fractional digits, and never ends in a point, in `.00`, or in a point, a digit and `0` |
| Format.ShowParses | app/lib/format.ts:35 | the text `amount unit` of every reading is read back as that reading |
| Format.ParsedShows | app/lib/format.ts:35 | every string that reads as a size is the text of its reading |
| Format.ShowInjective | app/lib/format.ts:33-35 | two readings give the same text if and only if they are the same reading |
| Format.FormatSizeDenotes | app/lib/format.ts:17-35 | a string is `formatSize(bytes)` if and only if it reads back as the unit chosen for `bytes` and the rounded amount |
| Format.OneSpace | app/lib/format.ts:35 | the output has exactly one space: it is the numeric text, one space, and a two-letter unit label |
| Format.ShowHasOneSpace | app/lib/format.ts:33-35 | the text of every reading, the trimmed amount, a space and a label, has its only space three characters from the end |
| Format.SmallInputsShowZero | app/lib/format.ts:26-33 | a positive input gives `"0 KB"` exactly when it is 5 bytes or less |
| Format.HundredthsMonotone | app/lib/format.ts:32 | within one unit, a larger input never rounds to fewer hundredths |
| Format.HundredthsOfWhole | app/lib/format.ts:32 | a whole number of units is rounded to exactly that number |
| Format.AcrossUnits | app/lib/format.ts:20-32 | an amount shown in a smaller unit at or below the next unit's threshold is, in bytes, at most any amount shown in that next unit |
| Format.FormatSizeMonotone | app/lib/format.ts:17-32 | for a <= b, the unit of a is no larger and the shown amount of a, converted to bytes, is at most that of b |
| Format.ShownAmountRange | app/lib/format.ts:17-32 | a positive input shows at least 1 of MB or GB and at most 1024 of KB or MB; below GB the input is under 1024 of its unit, so 1024 is shown only when the input is within half a hundredth of the next unit (200 * bytes >= 204799 * size) |
| Format.OneKilobyte | app/lib/format.ts:13-35 | 1024 gives `"1 KB"` |
| Format.OneAndAHalfKilobytes | app/lib/format.ts:13-35 | 1536 gives `"1.5 KB"` |
| Format.OneMegabyte | app/lib/format.ts:13-35 | 1024^2 gives `"1 MB"` |
| Format.OneAndAHalfMegabytes | app/lib/format.ts:13-35 | 1.5 * 1024^2 gives `"1.5 MB"` |
| Format.OneGigabyte | app/lib/format.ts:13-35 | 1024^3 gives `"1 GB"` |
| Format.JustUnderAGigabyte | app/lib/format.ts:20-35 | 1024^3 - 1 stays in MB and rounds up to `"1024 MB"` |
| Format.NoUnitAboveGigabyte | app/lib/format.ts:20-35 | 1024^4 gives `"1024 GB"`, because there is no larger unit |

## Left out

- The `!Number.isFinite(bytes)` half of the guard (app/lib/format.ts:11) is left out. NaN and ±Infinity have no counterpart in an integer model. The input is an `int` and only the `<= 0` test is kept.
- Non-integer byte counts are left out. `formatSize` accepts any JavaScript number, but the model takes whole bytes, which is what a byte count is.
- Floating-point arithmetic in `value * 100`, `/ 100` and `toFixed` is not modelled; the model rounds the exact quotient, a tie going up. For whole byte counts the two agree while 25 * bytes < 2^53 (about 3.6 * 10^14 bytes): the units are powers of two, so `bytes / size` is exact, and `value * 100` is then exact too, so a true tie rounds up in JavaScript as in the model. Above that size, rounding the product can move a value just under a tie onto the tie, and JavaScript then rounds up where the model rounds down.
- JavaScript switches `toFixed` to exponential notation for values of 10^21 and above. The model always prints positional digits, as for every realistic byte count.
- The regular-expression engine is not modelled. The two `replace` calls are modelled as explicit checks on the last three characters of the text. Both patterns are anchored at the end with `$` and have no `g` or `m` flag.
- The default export (app/lib/format.ts:38) is an alias with no behaviour of its own.
