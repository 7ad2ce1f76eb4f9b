# Yen converter core in Dafny

A model of the three algorithms at the heart of `converter.py`, a small
currency converter for Japanese yen:

- `num_to_yen` writes an amount with the ten-thousands counted in 万, e.g.
  `32万9323円` (module `YenFormat`).
- `parse_yen` reads an amount written with the unit words `man` (10000),
  `sen` (1000) and `hyaku` (100), e.g. `32man9sen3hyaku23`, as a number
  (module `YenParser`).
- `get_rate` answers an exchange-rate request from a CSV file of rates
  dated by day, fetching and rewriting the file when today's rate for the
  pair is not there (module `RateCache`).

The Python string and number operations these rely on are modelled in
`Text` (`in`, `split`, `replace`) and `Decimal` (`int()`, the plain-decimal
part of `float()`, rendering a whole number). `Results` holds `Option` and
`Result`.

`parse_yen` is a method, `YenParser.ParseYen`. It runs the three marker
stages, reassigning the running total and the text left, and is proved
equal to the function `YenParser.Parse`. The lemmas are stated about
`Parse`. `get_rate` is a method of the class `RateCache.RateStore`. Its
field `records` is the file's CSV records, header first. Its scan loop
keeps the other pairs' records, returns early on a hit, and skips the
pair's stale records. It is proved to return and leave what the function
`RateCache.GetRateSpec` gives, and the lemmas are stated about that
function. `num_to_yen` is pure and is the function `YenFormat.NumToYen`.

The pair's older records are not kept. The loop's `continue`
(converter.py:74-75) skips them before they reach `rows`, so the
rewritten file no longer holds them. `RateCache.CacheMiss` and
`RateCache.StaleRecordExample` state this.

## Model

| member | source | states |
|---|---|---|
| Text.FindFirst | converter.py:35-36 | the index found is an occurrence of the pattern with none before it, and there is none exactly when the pattern is not `in` the string |
| Text.Split | converter.py:36 | `split` yields at least one piece; when there are two or more, the first two and the separator between them fit in the string |
| Text.SplitCount | converter.py:35-38 | the string splits into more than one piece exactly when the separator is `in` it, so `[1]` exists after the `in` test |
| Text.SplitJoin | converter.py:36 | joining the pieces with the separator gives back the string |
| Text.SplitPiecesFree | converter.py:36-38 | no piece contains the separator |
| Text.SplitAfter | converter.py:36-38 | when the separator cannot start inside `a`, `a + sep + b` splits into `a` followed by the pieces of `b` |
| Text.RemoveSpaces | converter.py:37 | `replace(" ", "")` leaves no space and never lengthens the text |
| Text.RemoveSpacesMembers | converter.py:37 | `replace(" ", "")` keeps every other character and adds none |
| Text.RemoveSpacesConcat | converter.py:53 | removing spaces from a concatenation removes them from each part |
| Text.ReplaceChar | converter.py:54 | `replace(",", ".")` keeps the length and changes exactly the commas, position by position |
| Text.ReplaceCharRemoveSpaces | converter.py:53-54 | replacing a non-space character by another non-space character gives the same text before or after the spaces are removed |
| Text.ReplaceCharTwice | converter.py:54 | `replace(",", ".")` applied twice gives what it gives once |
| Decimal.NatToDecimal | converter.py:21-22 | the rendering of a whole number is a non-empty digit string with no leading zero |
| Decimal.DecimalRoundTrip | converter.py:21-22 | reading a rendered number back in base ten gives the number |
| Decimal.ParseInt | converter.py:37 | `int()` succeeds exactly on an optional sign followed by one or more digits, and then gives their value, unchanged after `+` and negated after `-` |
| Decimal.ParseIntRoundTrip | converter.py:37 | `int()` reads back a rendered number, with or without a minus sign |
| Decimal.ParseDecimal | converter.py:56 | `float()` on an optional sign and a mantissa of digits with at most one `.`; its meaning is stated by ParseDecimalDigits, ParseDecimalFraction, ParseDecimalFails, ParseDecimalTwoPoints and ParseDecimalSign |
| Decimal.ParseDecimalDigits | converter.py:56 | `float()` fails on the empty string and reads a digit string as its whole-number value |
| Decimal.MantissaChars | converter.py:56 | an unsigned text the modelled plain-decimal `float()` accepts holds only digits and `.` |
| Decimal.ParseDecimalFails | converter.py:56 | the modelled plain-decimal `float()` refuses any text with a character that is neither a digit nor `.`, other than a leading sign |
| Decimal.ParseDecimalSign | converter.py:56 | a leading `-` negates the value and a leading `+` keeps it; either sign is accepted exactly when the unsigned text is |
| Decimal.ParseDecimalTwoPoints | converter.py:56 | `float()` refuses a number with a second decimal point |
| Decimal.ParseDecimalFraction | converter.py:56 | `float("<ip>.<fp>")` is the whole part plus the fraction the digits after the point stand for |
| YenFormat.ManPart | converter.py:18-21 | the 万 part holds 万 exactly when the amount reaches 10000, and then it is digits that read back as `num // 10000` followed by 万; below 10000 it is empty |
| YenFormat.NumToYen | converter.py:14-23 | `num_to_yen`: the 万 part, the remainder digits when asked for, then 円; its meaning is stated by NumToYenShape and NumToYenReadsBack |
| YenFormat.NumToYenShape | converter.py:18-23 | the text ends in 円, contains 万 exactly when the amount reaches 10000, and shows remainder digits exactly when `remainder` is set |
| YenFormat.NumToYenReadsBack | converter.py:18-23 | the text reads back as the ten-thousands it shows plus the remainder when shown, so `man*10000 + rem` with `rem = num % 10000` |
| YenFormat.NumToYenExact | converter.py:18-23 | for a non-negative amount with the remainder shown, the text stands for exactly that amount |
| YenParser.TakeUnit | converter.py:35-51 | one marker stage (any of the three): its meaning is stated by TakeUnitProgress, TakeUnitRepeated and WrittenStages |
| YenParser.Remainder | converter.py:53-56 | the text after the last marker with spaces removed and `,` read as `.`, the empty text counting as 0; its meaning is stated by CommaIsPoint, SpacesIgnored and the examples |
| YenParser.Parse | converter.py:26-58 | the value `parse_yen` returns or the conversion error it raises; its meaning is stated by ParseWritten and the lemmas below |
| YenParser.TakeStage | converter.py:35-39 | one marker stage as written (the `in` test, `split`, `int` of the first piece without spaces, the second piece kept) computes the stage function |
| YenParser.TakeUnitProgress | converter.py:35-51 | a stage leaves text without its marker; the text is unchanged and nothing added when the marker is absent, and strictly shorter when present |
| YenParser.ParseYen | converter.py:26-58 | the three stages in the order man, sen, hyaku, each on the text the previous one left, then the remainder, compute `Parse` including each conversion error |
| YenParser.ParseWritten | converter.py:35-56 | an amount written as counts before `man`, `sen`, `hyaku` and a tail is worth 10000, 1000 and 100 times the counts read without spaces, plus the tail's value, or fails with the tail's error |
| YenParser.SpacesIgnored | converter.py:37-56 | amounts differing only in the spaces inside their counts and tail parse to the same result |
| YenParser.TakeUnitRepeated | converter.py:36-38 | when the count before the first marker and the text between the first and second markers hold no marker's first letter, a stage keeps only that text: whatever follows the second marker is dropped |
| YenParser.RepeatedManDiscarded | converter.py:35-38 | a second `man` and everything after it do not change the result |
| YenParser.MarkerBeforeManFails | converter.py:35-39 | a `sen` or `hyaku` count written before the `man` count makes `int()` fail |
| YenParser.ManSenHyakuExample | converter.py:29 | `32man9sen3hyaku23` parses to 329323.0 |
| YenParser.ManOnlyExample | converter.py:31 | `32man9323` parses to 329323.0 |
| YenParser.EmptyRemainderExamples | converter.py:56 | an empty remainder counts as zero: `5man` gives 50000.0 and the empty string 0.0 |
| YenParser.DecimalCommaExample | converter.py:53-56 | the remainders `1234,56` and `1234.56` both read as 1234.56 |
| YenParser.CommaIsPoint | converter.py:53-56 | for every remainder text, reading each `,` as `.` leaves the remainder's value, and the amount, unchanged |
| YenParser.CommaNormalised | converter.py:53-54 | the text handed to `float()` is the same whether the remainder's commas were written as points or not |
| YenParser.RemainderFails | converter.py:53-56 | a remainder with a character other than a digit, space, `,`, `.` or sign is refused by the modelled plain-decimal `float()` |
| YenParser.TwoPointsExample | converter.py:53-56 | `5man1,2.3` is refused: its comma reads as a second point |
| YenParser.DecimalCommaParse | converter.py:53-56 | `1234,56` parses to 1234.56 |
| RateCache.Classify | converter.py:71-75 | a record is today's for the pair, a stale one for the pair, another pair's, or too short for a field the `and` reads, each exactly on its condition |
| RateCache.GetRateSpec | converter.py:60-94 | on every error the file is unchanged, and the header always stays first; its cases are stated by CacheHit, CacheMiss, CacheMissFetchFails and CacheBroken |
| RateCache.Scan | converter.py:70-77 | the loop over the records: a miss keeps no more records than it read, and a stop at a broken record names a record of the file too short for the fields read |
| RateCache.ScanHit | converter.py:70-73 | the scan answers a rate exactly when the first record it does not go past is the pair's record for today with that rate |
| RateCache.ScanMiss | converter.py:70-77 | the scan misses exactly when it goes past every record, and then keeps the other pairs' records in order |
| RateCache.ScanBroken | converter.py:70-73 | when a record is too short for a field the `and` reads and the scan goes past every record before it, the scan stops there (`IndexError`) |
| RateCache.CacheHit | converter.py:70-73 | on a hit the rate is that record's, whatever the service would answer, and the file is unchanged |
| RateCache.CacheMiss | converter.py:74-94 | on a miss the file becomes the header, the other pairs' records in order, and one new record for the pair dated today; the fetched rate is returned |
| RateCache.CacheMissFetchFails | converter.py:82-92 | on a miss whose fetch fails the request fails and the file is left as it was: nothing is written |
| RateCache.CacheBroken | converter.py:68-73 | a record too short for a field read, before any fresh record, fails the request with that record, whatever the service would answer, and leaves the file unchanged |
| RateCache.OnePairRecordAfterMiss | converter.py:74-77 | after a miss the pair's only record is the new one, last |
| RateCache.SameDayRepeatHits | converter.py:70-94 | a second request for the pair on the same day is answered from the rewritten file, with no fetch and no write |
| RateCache.RateStore.GetRate | converter.py:60-94 | the loop as written returns and leaves the file exactly as the specification function says |
| RateCache.FirstFetchExample | converter.py:86-92 | a file with only the header gains the fetched record |
| RateCache.StaleRecordExample | converter.py:71-77 | yesterday's record for the pair is dropped and other pairs stay in order |
| RateCache.HitAndBlankLineExamples | converter.py:70-73 | today's record answers without a fetch; a blank line before it is an `IndexError` |

## Left out

- File handling: opening, reading and writing `rates.csv`, the CSV quoting rules, and the missing-file error are not modelled. The file is its list of records.
- The network and JSON lookup are not modelled. The fetched rate is a parameter, and `None` stands for any failure there, including a missing key.
- The clock is not modelled. Today's date is a parameter, already formatted.
- RateCache.RateStore.GetRate: rates are opaque text. `float(row[2])` on a hit is not modelled, and the fetched rate is written as the text it is given.
- RateCache.Classify: the `row != ""` guard (converter.py:76) is always true for a CSV record, so it is not modelled.
- YenParser.ParseYen: the result is an exact real. Python returns an `int` when no remainder is added and otherwise a binary float that may round; neither is modelled. The float range's limits are those of the next line.
- YenParser.Parse: never fails for being too large, and returns the exact sum. Python raises OverflowError when `total + float(...)` converts an integer total past the float range (a man count above about 1.8e304, as in `1` followed by 305 zeros and `man1`), and `float()` of a remainder past that range gives `inf`.
- Decimal.ParseInt: only a sign and ASCII digits are accepted. Python's `int()` also takes underscores between digits, surrounding whitespace other than spaces, and non-ASCII digits. It also refuses more than 4300 digits (the default limit of Python 3.11 and later), which the model accepts.
- Decimal.ParseDecimalDigits: `float()` is modelled only for an optional sign and digits with at most one decimal point. Exponents, `inf`, `nan`, underscores, non-ASCII digits and surrounding whitespace, all of which Python's `float()` accepts, are not modelled.
- Decimal.MantissaChars: holds of the modelled plain-decimal `float()` only; Python's `float()` also accepts texts with other characters, such as `1e3`, `inf`, `nan`, `1_0` or surrounding tabs.
- Decimal.ParseDecimalFails: holds of the modelled plain-decimal `float()` only; Python's `float()` accepts `1e3`, `inf`, `nan`, `1_0` and surrounding tabs, which the model refuses.
- YenParser.RemainderFails: holds of the modelled plain-decimal `float()` only; for example `parse_yen("5man1e3")` returns 51000.0 in Python where the model fails.
- YenFormat.NumToYen: the amount is an integer and is rendered exactly. `:.0f` first converts it to a float, so from 2^53 ten-thousands up Python prints a rounded count, and past the float range it raises OverflowError; neither is modelled.
- The `__main__` block, `currency_string` and `currency_symbol_table` are not part of this model. They are command-line glue and display formatting.
