# ByteSize: a Dafny model of Go's `size` package

The Go package `size` defines `Size`, a signed 64-bit count of bytes, with:

- thirteen unit constants: the binary ones `Byte` … `Exbibyte` (powers of 1024) and the decimal ones `Kilobyte` … `Exabyte` (powers of 1000);
- the accessor `Bytes`, which returns the raw count;
- twelve conversion accessors (`Kibibytes` … `Exabytes`), each splitting the count into a whole and a remainder and returning `whole + part/C`;
- two renderers: `Size.String` (KB, MB, … EB) and `BinarySize.String` (KiB, MiB, … EiB).

This project models all of it in Dafny.

- `arith.dfy` (module `Arith`): powers, Go's `<<` on non-negative operands, and Go's truncating `/` and `%`.
- `digits.dfy` (module `Digits`): the two number forms the renderers print. These are plain decimal digits (`%.0f` of an integral value) and fixed point with two decimals (`%.2f`). Each comes with a parser that reads it back.
- `size.dfy` (module `ByteSize`): the `Size` type and the constants. It also holds the unit table indexed by `Mode` (`Decimal` for `Size`, `Binary` for `BinarySize`) and `Scale`, the unit switch `Select`, exact display rounding `RoundedCenti`, the renderer `Render`, and a parser `ParseRendered` that is the renderer's partner. The accessors are here too.
- `size_test.dfy` (module `SizeTest`): the rows of the `TestStrings` table as lemmas. Each lemma states the constant expression and both rendered texts.

Modelling choices:

- `Size` is the subset type `0 .. 2^63-1`.
- Go's `float64` arithmetic is replaced by exact arithmetic.
  - An accessor returns the exact `real` quotient `N / C`.
  - The two-decimal display is the count of hundredths nearest to `N / C`, with ties going to the even neighbour. That is the rounding Go's formatter applies to the value it is given.
- Go's `%.2f` rounds the `float64` it is given correctly, with ties to even; the model rounds the exact quotient the same way.

## Model

| member | source | states |
|---|---|---|
| Arith.ShiftLeft | size.go:18 | `x << k` equals x times 2^k, and stays positive for positive x |
| Arith.ShiftIsPowerOf1024 | size.go:18-24 | `1 << (10*k)` is exactly 1024^k |
| Arith.PowMul | size.go:18-24 | (b^a)^k = b^(a*k), which turns the shift into a power of 1024 |
| Arith.PowStrictlyIncreasing | size.go:17-34 | powers of a base above one strictly increase with the exponent, so the units are strictly ordered |
| Arith.TruncDivMod | size.go:84-85 | Go's `/` and `%`: quotient times divisor plus remainder is the dividend, and the remainder takes the sign of the dividend with magnitude below the divisor |
| Arith.TruncDivModOfNatural | size.go:84-85 | for a count N >= 0, Go's truncating split equals Euclidean division |
| ByteSize.BinaryConstantsArePowers | size.go:17-25 | Byte … Exbibyte are exactly 1024^0 … 1024^6 |
| ByteSize.BinaryConstantValues | size.go:17-25 | the binary constants as literals, from 1 up to Exbibyte = 2^60 = 1152921504606846976 |
| ByteSize.DecimalConstantsArePowers | size.go:27-34 | Kilobyte … Exabyte, each 1000 times the previous one starting from Byte, are exactly 1000^1 … 1000^6 |
| ByteSize.DecimalConstantValues | size.go:27-34 | the decimal constants as literals, from Kilobyte = 1000 up to Exabyte = 10^18 |
| ByteSize.UnitSize | size.go:17-34 | the constant for a unit in a mode is base^rank and lies in 1 .. 2^63-1 |
| ByteSize.UnitSizesOrdered | size.go:17-34 | within a mode the constants strictly increase with the unit, and all are representable as a Size |
| ByteSize.UnitChain | size.go:17-34 | the six units of each mode in strictly ascending order, the largest one at most MaxInt64 |
| ByteSize.Select | size.go:39-75 | the unit chosen is the largest whose constant is at most N: it falls back to bytes exactly when N is below one Kilobyte or one Kibibyte, and no larger unit fits |
| ByteSize.SelectIff | size.go:39-75 | a unit is chosen if and only if its constant is at most N and the next unit's constant exceeds N |
| ByteSize.SelectedQuotientRange | size.go:39-75 | N divided by the chosen unit is in [1, 1000) for KB … PB and in [1, 1024) for KiB … PiB; for EB/EiB it is at least 1 |
| ByteSize.SelectMonotone | size.go:39-75 | a larger count never selects a smaller unit, in both modes |
| ByteSize.RoundedCenti | size.go:59-73 | `%.2f` of N/C as hundredths: within half a hundredth of N/C, and even on an exact tie |
| ByteSize.RoundedCentiUnique | size.go:59-73 | those two conditions determine the printed hundredths uniquely |
| ByteSize.DisplayedRange | size.go:39-75 | a scaled display is at least 1.00, and below the largest unit it is at most the base (1000.00 or 1024.00) |
| ByteSize.Render | size.go:39-75 | every rendered text ends with the suffix of the chosen unit |
| ByteSize.SizeString | size.go:59-75 | `Size.String` ends in "B" and contains a decimal point exactly when N >= Kilobyte |
| ByteSize.BinarySizeString | size.go:39-55 | `BinarySize.String` ends in "B" and contains a decimal point exactly when N >= Kibibyte |
| ByteSize.RenderShape | size.go:39-75 | the fallback is the only text without a point, and it happens exactly below the mode's base; any other text has two digits between the point and the suffix |
| ByteSize.ScaleOfSuffixed | size.go:39-75 | the suffix after a number determines its unit: no unit suffix ends a plain digit string, and distinct suffixes never end the same text |
| ByteSize.ScaleOfRender | size.go:39-75 | the suffix of a rendered text names the unit the switch chose |
| ByteSize.RenderRoundTrip | size.go:39-75 | parsing a rendered text gives back the chosen unit and the printed amount: the exact byte count for the fallback, otherwise the rounded hundredths of N/C |
| ByteSize.Bytes | size.go:77-80 | `Bytes` returns the count unchanged |
| ByteSize.WholePlusPart | size.go:83-164 | `whole + part/C`, with the split taken by Go's truncating division, equals N/C exactly |
| ByteSize.SplitIsExact | size.go:84-86 | if whole*C + part = N then whole + part/C = N/C in exact arithmetic |
| ByteSize.Kibibytes | size.go:83-87 | equals N / Kibibyte exactly; the literal divisor `1<<10` is Kibibyte |
| ByteSize.Kilobytes | size.go:90-94 | equals N / Kilobyte exactly; the literal divisor `1e3` is Kilobyte |
| ByteSize.Mebibytes | size.go:97-101 | equals N / Mebibyte exactly; the literal divisor `1<<20` is Mebibyte |
| ByteSize.Megabytes | size.go:104-108 | equals N / Megabyte exactly; the literal divisor `1e6` is Megabyte |
| ByteSize.Gibibytes | size.go:111-115 | equals N / Gibibyte exactly; the literal divisor `1<<30` is Gibibyte |
| ByteSize.Gigabytes | size.go:118-122 | equals N / Gigabyte exactly; the literal divisor `1e9` is Gigabyte |
| ByteSize.Tebibytes | size.go:125-129 | equals N / Tebibyte exactly; the literal divisor `1<<40` is Tebibyte |
| ByteSize.Terabytes | size.go:132-136 | equals N / Terabyte exactly; the literal divisor `1e12` is Terabyte |
| ByteSize.Pebibytes | size.go:139-143 | equals N / Pebibyte exactly; the literal divisor `1<<50` is Pebibyte |
| ByteSize.Petabytes | size.go:146-150 | equals N / Petabyte exactly; the literal divisor `1e15` is Petabyte |
| ByteSize.Exbibytes | size.go:153-157 | equals N / Exbibyte exactly; the literal divisor `1<<60` is Exbibyte |
| ByteSize.Exabytes | size.go:160-164 | equals N / Exabyte exactly; the literal divisor `1e18` is Exabyte |
| ByteSize.InUnitIsQuotient | size.go:83-164 | each of the twelve accessors is the exact quotient by its own unit's constant |
| ByteSize.AccessorEdges | size.go:83-164 | every accessor gives 0 for no bytes and exactly 1 at its own unit, and it is monotone in the count |
| Digits.NatToDigits | size.go:54 | `%.0f` of an integral count: a non-empty string of digits with no leading zero |
| Digits.DigitsRoundTrip | size.go:54 | reading the printed digits back gives the count |
| Digits.FixedTwo | size.go:42 | `%.2f` text: integer digits, a point, then exactly two digits |
| Digits.FixedTwoRoundTrip | size.go:42 | reading the two-decimal text back gives the hundredths it was printed from |
| SizeTest.UnitSizeValues | size.go:17-34 | the unit table of both modes as literal byte counts |
| SizeTest.CaseZero | size_test.go:13 | 0 = 0*Byte renders "0B" in both modes |
| SizeTest.CaseOne | size_test.go:14-15 | 1 = 1*Byte renders "1B" in both modes |
| SizeTest.CaseHundred | size_test.go:16 | 100 renders "100B" in both modes |
| SizeTest.CaseKilobyte | size_test.go:17 | 1000 renders "1.00KB" but "1000B" in binary mode, because the fallback thresholds differ |
| SizeTest.CaseKibibyte | size_test.go:18 | 1024 renders "1.02KB" and "1.00KiB" |
| SizeTest.CaseMegabyte | size_test.go:19 | 1000000 renders "1.00MB" and "976.56KiB" |
| SizeTest.CaseMebibyte | size_test.go:20 | 1048576 renders "1.05MB" and "1.00MiB" |
| SizeTest.CaseGigabyte | size_test.go:21 | 10^9 renders "1.00GB" and "953.67MiB" |
| SizeTest.CaseGibibyte | size_test.go:22 | 2^30 renders "1.07GB" and "1.00GiB" |
| SizeTest.CaseTerabyte | size_test.go:23 | 10^12 renders "1.00TB" and "931.32GiB" |
| SizeTest.CaseTebibyte | size_test.go:24 | 2^40 renders "1.10TB" and "1.00TiB" |
| SizeTest.CasePetabyte | size_test.go:25 | 10^15 renders "1.00PB" and "909.49TiB" |
| SizeTest.CasePebibyte | size_test.go:26 | 2^50 renders "1.13PB" and "1.00PiB" |
| SizeTest.CaseExabyte | size_test.go:27 | 10^18 renders "1.00EB" and "888.18PiB" |
| SizeTest.CaseExbibyte | size_test.go:28 | 2^60 renders "1.15EB" and "1.00EiB" |
| SizeTest.CaseMaxInt64 | size_test.go:30 | 7*Exbibyte + (Exbibyte - Byte) is MaxInt64, which renders "9.22EB" and "8.00EiB" |
| SizeTest.QuarterPastExbibyte | size.go:153-157 | an example of the exact quotient N/C: 1.25 Exbibytes gives 1.25 Exbibytes and 1441151880758558.72 Kilobytes (Go's `float64` gives ...558.75 for the latter) |

## Left out

- `float64` behaviour is not modelled.
  - Accessors return exact reals. Go's `float64(whole) + float64(part)/C` can be off in the last bits.
  - The renderers format the exact quotient N/C. Go formats `float64(N)/float64(C)`, which is rounded before `%.2f` sees it.
  - In binary mode for counts below 2^53, that quotient is exact, so the two agree.
  - In decimal mode, an exact tie such as 1015 bytes (1.015 KB) can print one hundredth differently in Go. The float nearest to 1.015 lies below it.
  - None of the `TestStrings` rows lands on such a tie.
- ByteSize.RoundedCenti: rounds the exact quotient, ties to even, so it is weaker than a bit-exact model of Go's `%.2f` on `float64`, for the reason just given.
- Negative sizes are left out. Go's `int64` admits them: a negative count fails every `>=` case and falls through to the byte fallback (size.go:54, size.go:74), printing with a minus sign (for example "-5B"). They are left out because they are not meaningful byte counts. `Size` is restricted to 0 .. 2^63-1. `TruncDivMod` still models Go's truncating division for negative dividends.
- Overflow in a caller's arithmetic with the constants (for example `9 * Exbibyte`) is left out. The package does not check it. Expressions in the model are unbounded integers, and only the final count is required to fit `Size`.
- Two Go types become one. `Size` and `BinarySize` are the same `Size` rendered under a `Mode`. The `fmt.Stringer` interface plumbing is not modelled.
- The test loop of `TestStrings` (size_test.go:33-46) with `t.Errorf` is left out. Each table row is a lemma instead. The duplicated row for 1 byte (size_test.go:14-15) is one lemma.
