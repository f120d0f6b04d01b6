# DMS codec of `transform.py`, in Dafny

`transform.py` converts one coordinate pair between two coordinate reference systems. Its own
logic is a degrees-minutes-seconds (DMS) codec with four parts:

- `dec2dms` splits a decimal angle into degree, minutes and seconds.
- `dms2dec` adds them back up.
- `splitdms` reads a `D°M'S''` text with a regular expression.
- `dms2string` writes that text.

This project models those four parts and proves what they do, including where they fail.

Every number they handle is a Python `Decimal`. It is modelled as `Decimals.Dec(coeff, places)`,
the value `coeff * 10^-places`. The exponent is kept because `str()` shows it: `dec2dms` returns
a degree and minutes with exponent 0 and seconds with exponent -4, and `Decimal("44.12")` keeps
two places. Arithmetic on the values is exact `real` arithmetic.

Modules:

- `Wrappers`: `Option`.
- `Decimals`: `Dec`, its text (`DecToString`, the `str()` of a Decimal), the `Decimal()`
  constructor on plain decimal text (`DecimalOf`), and `ROUND_HALF_EVEN` (`RoundHalfEven`).
- `DmsPattern`: the regular expression `([+-]?\d{1,2})[°*](\d{1,2})'(\d{1,2}([,.]\d+)?)('')?`
  under `re.match`. The recogniser `MatchDms` is proved equal to two independent descriptions:
  the language of the pattern (`WellFormed`, `Render`) and the priorities of a backtracking
  engine (`Greedy`).
- `Transform`: `DecimalToDms` (`dec2dms`), `DmsToDecimal` (`dms2dec`), `SplitDms`
  (`splitdms`), `DmsToString` (`dms2string`), and the round-trip lemmas.

Four behaviours of the code are easy to misread:

- A text with trailing characters after a match is accepted. `re.match` anchors only at the
  start, so the text does not have to match in full.
- `dms2dec` does not carry the degree's sign over to the minutes and seconds. A negative
  coordinate with a fraction therefore does not survive `dms2dec(*dec2dms(v))`: the result is
  about `2·trunc(v) − v`.
- `splitdms(dms2string(d, m, s))` gives back `(d, m, s)` only for an integer `d` with `|d| ≤ 99`,
  an integer `m` with `0 ≤ m ≤ 99`, and `0 ≤ s < 100` with `s` in plain (not scientific)
  notation. A degree of 100 or more is written in full and then rejected.
- Seconds round half-to-even, which is the default `Decimal` context.

## Model

| member | source | states |
|---|---|---|
| Decimals.RoundHalfEven | transform.py:19 | the result is an integer within 1/2 of the argument, and a tie goes to the even neighbour (`ROUND_HALF_EVEN`) |
| Decimals.DecimalOfInteger | transform.py:39-40 | `Decimal()` of an optional sign and digits is that signed integer with exponent 0 |
| Decimals.DecimalOfPointed | transform.py:41 | `Decimal()` of `digits.digits` has all the digits as coefficient and one place per digit after the point |
| Decimals.DecimalOfDecToString | transform.py:39-45 | `Decimal(str(d)) == d` for every Decimal without scientific notation: same coefficient, same exponent |
| Transform.IntegerPart | transform.py:16 | the quotient of `divmod(v, 1)` truncates toward zero: `0 ≤ v − n < 1` when `v ≥ 0`, `−1 < v − n ≤ 0` when `v < 0`, and `n` never has the opposite sign to `v` |
| Transform.RawSeconds | transform.py:17-19 | the seconds before rounding lie in `[0, 60)` |
| Transform.DecimalToDms | transform.py:14-20 | the degree is `v` truncated toward zero with exponent 0; minutes are whole, exponent 0, in 0..59; seconds have exponent −4, lie in 0..60, and are within 0.00005 of the unrounded seconds |
| Transform.SixtySecondsOnlyByRounding | transform.py:18-19 | seconds of exactly 60 arise only when raw seconds of at least 59.99995 round up |
| Transform.SixtySecondsExample | transform.py:14-20 | `dec2dms(0.016666666)` is `(0, 0, 60.0000)` |
| Transform.HalfEvenExample | transform.py:19 | raw seconds 0.00045 round to the even 0.0004 |
| Transform.ZeroExample | transform.py:14-20 | `dec2dms(0)` is `(0, 0, 0.0000)` |
| Transform.DecodedDecimalToDms | transform.py:14-23 | `dms2dec(*dec2dms(v))` equals `trunc(v) + abs(v − trunc(v))` within 1/72000000 degree, i.e. half a unit in the fourth decimal of the seconds |
| Transform.RoundTripNonNegative | transform.py:14-23 | for `v ≥ 0`, `dms2dec(*dec2dms(v))` is within 0.00005/3600 of `v` |
| Transform.RoundTripNegativeReflects | transform.py:14-23 | for `v < 0`, `dms2dec(*dec2dms(v))` is within 0.00005/3600 of `2·trunc(v) − v`, not of `v` |
| Transform.RoundTripNegativeOvershoots | transform.py:14-23 | for `v < 0`, the round trip exceeds `v` by at least `trunc(v) − v`, so a negative value with a fraction never comes back |
| Transform.NegativeExample | transform.py:14-23 | `dec2dms(−21.5)` is `(−21, 30, 0.0000)`, and `dms2dec` reads it as −20.5 |
| DmsPattern.MatchDms | transform.py:38 | a reported match is a match of the pattern on a prefix of the text, and the one backtracking prefers |
| DmsPattern.PrefixMatchIsFound | transform.py:38 | when any prefix of the text matches the pattern, `re.match` reports a match |
| DmsPattern.GreedyMatchIsFound | transform.py:38 | the prefix match that obeys backtracking's priorities is exactly the one reported |
| DmsPattern.WideDegreeNotMatched | transform.py:38 | three digits where the degree belongs leave no match |
| DmsPattern.MatchDmsAlike | transform.py:38 | texts that differ only in `°`/`*` and `,`/`.` match both or neither, with the same digits in every group |
| Transform.GroupValues | transform.py:39-41 | the group values have degree −99..99 and minutes 0..99, both with exponent 0, and seconds below 100 |
| Transform.ReplaceCommaGroup3 | transform.py:41 | `replace(',', '.')` on group 3 turns its separator into a point and changes nothing else |
| Transform.GroupsAreRead | transform.py:39-41 | `Decimal()` accepts each group text and yields the group's value |
| Transform.SplitDms | transform.py:37-42 | any result has degree −99..99 with exponent 0 and minutes 0..99 with exponent 0 (no check against 59), and seconds from 0 up to below 100 |
| Transform.SplitDmsReadsGreedyMatch | transform.py:37-42 | `splitdms` returns the values of groups 1-3 of the match backtracking prefers |
| Transform.SplitDmsSucceedsIffPrefixMatches | transform.py:38-42 | `splitdms` succeeds exactly when some prefix of the text matches the pattern |
| Transform.SimilarTextsSplitEqually | transform.py:38-41 | texts that differ only in their marks and separators give the same result |
| Transform.SeparatorsInterchangeable | transform.py:38-41 | a `,` and a `.` at the same position give the same result |
| Transform.MarksInterchangeable | transform.py:38 | a `°` and a `*` at the same position give the same result |
| Transform.SplitDmsOfDmsToString | transform.py:37-45 | `splitdms(dms2string(d, m, s)) == (d, m, s)`, exponents included, for an integer `d` with `abs(d) ≤ 99`, an integer `m` in 0..99 and non-negative `s` below 100 whose `str()` is plain notation |
| Transform.WideDegreeIsRejected | transform.py:38-45 | a degree of 100 or more is written in full by `dms2string`, and `splitdms` then fails |
| Transform.DecimalToDmsTextRoundTrip | transform.py:14-20 | for `−100 < v < 100`, the triple `dec2dms(v)` is written by `dms2string` and read back by `splitdms` unchanged |
| Transform.TrailingTextExample | transform.py:38-41 | in `21°0'123.4''` the seconds stop after two digits, the rest is ignored, and the result is `(21, 0, 12)` |
| Transform.FullTextExample | transform.py:37-42 | `21°0'44.12''` is read as `(21, 0, 44.12)` |
| Transform.WideDegreeExample | transform.py:38 | `121°0'1''` is rejected |

## Left out

- `CoordinateTransformer` (transform.py:5-12) is left out. It is a wrapper over the pyproj `CRS` and `Transformer` classes, and all the geodesy happens in that library.
- `init_argparse` and the `__main__` block (transform.py:25-35, 47-70) are left out. They cover argument parsing, detecting DMS input by catching pyproj's `TypeError`, the `:.10f` float output, and the ellipsoidal/`--dst-dms` print choice.
- `Decimal(value)` of a pyproj float is not modelled. `DecimalToDms` takes the exact real value the float denotes.
- The 28-digit precision of the default `Decimal` context is not modelled. `DmsToDecimal` divides exactly, where Python rounds `minutes/60` and `seconds/3600` to 28 significant digits.
- DecimalToDms: for `−1 < v < 0`, Python's degree is `Decimal('-0')`. `Dec` has no negative zero, so the model gives 0, which has the same value. `dms2string` would print that degree as `-0`, and the model prints `0`.
- SplitDms: a negative zero degree such as `-0` or `-00` (as in `-0°30'0''`) is `Decimal('-0')` in Python; the model gives `Dec(0, 0)`, which has the same value.
- DecimalToDms takes a `real`, which has no infinities or NaN. Python raises `InvalidOperation` at `divmod` (transform.py:16) when pyproj returns `inf` for a point it cannot transform.
- Scientific notation in `str(Decimal)` is not modelled. `DecToString` writes fixed-point text only, which is what `str()` gives for every triple `dec2dms` returns. `splitdms` can return seconds whose `str()` is scientific: `0.0000001` reads as `Decimal('1E-7')`. Such seconds are excluded from the round trip of `SplitDmsOfDmsToString`, because `dms2string` would write them as `1E-7`.
- `\d` is modelled as the ASCII digits `0`-`9`. Python's `\d` on `str` also matches other Unicode decimal digits.
- SplitDms: the `AttributeError` that `match.group` raises when there is no match is modelled as `None`.
