# OM parameter viewer: duration normaliser and limit check

The parameter viewer looks up an OM code in a sheet of consent parameters.
For each of four fields (Maximum Frequency, Maximum FI Data Range, Maximum
Consent Validity, Maximum Data Life) it checks that the value a user
enters stays within the maximum configured for that code. Both the
configured maxima and the user's values are free-form duration strings.
`convert_to_days` turns them into whole numbers of days:

- the string is trimmed and lower-cased;
- `na` gives 0, and `coterminous with loan tenure` gives ten years of 365
  days (3650);
- otherwise a string that *starts* with digits, optional whitespace and
  `days`, `months` or `years` gives n, 30·n or 365·n, and any text after
  the unit word is ignored;
- everything else gives 0.

The limit check visits the four fields in their fixed order and skips a
field whose input is the empty string. It converts the input and the
configured maximum (a missing cell reads as `'0'`). It reports the field
when the input's days exceed the maximum's days, with the message
`"<key> exceeded: <input> > <max>"`.

The project has three modules:

- `Wrappers` (`wrappers.dfy`): the `Option` type.
- `Duration` (`duration.dfy`): the normaliser as pure functions.
  - The regular expression `(\d+)\s*(days|months|years)` under `re.match`
    is an explicit scanner, `ScanDuration`.
  - `ScanDuration` finds a match exactly when the declarative pattern
    `MatchesAt` holds, and the match it finds is the only one.
- `LimitCheck` (`limit_check.dfy`): the checking loop, as the method
  `CheckLimits`.
  - `CheckLimits` is proved against the specification function `Report`.
  - `Report` is characterised by lemmas: which fields are reported, in
    what order, and with what messages.

Characters are ASCII:

- Whitespace is the set Python's `str.strip()` and `\s` accept among ASCII
  characters: space, `\t`, `\n`, `\r`, `\x0b`, `\x0c` and `\x1c`..`\x1f`.
- Digits are `0`..`9`.
- `lower()` maps only `A`..`Z`.

## Model

| member | source | states |
|---|---|---|
| Duration.IsSpace | app.py:13 | definition (no contract): the whitespace class of `strip()` and of `\s`, restricted to ASCII: space, `\t`, `\n`, `\r`, `\x0b`, `\x0c` and `\x1c`..`\x1f` |
| Duration.LowerChar | app.py:13 | lower-casing maps an upper-case letter to the lower-case letter at the same place in the alphabet, changes nothing else, and leaves no upper-case letter |
| Duration.Trim | app.py:13 | `strip()` leaves no whitespace at either end, is never longer than its input, and is empty exactly when the input is all whitespace |
| Duration.RunStart | app.py:13 | the trailing-whitespace scan of `strip()` stops at the start of the longest run of the class that ends at the given point |
| Duration.Lower | app.py:13 | `lower()` keeps the length and lower-cases each character in place |
| Duration.Normalize | app.py:13 | `strip().lower()` is no longer than its input, has no whitespace at either end and has no upper-case letter |
| Duration.TrimSplit | app.py:13 | every string is leading whitespace, then its `strip()`, then trailing whitespace |
| Duration.TrimPadded | app.py:13 | a string with no outer whitespace, padded with whitespace on both sides, strips back to itself |
| Duration.TrimKeepsCore | app.py:13 | after stripping, a core with no outer whitespace that follows leading whitespace stays at the front of the result |
| Duration.LowerAppend | app.py:13 | lower-casing a concatenation lower-cases each part |
| Duration.LowerKeepsSpacing | app.py:13 | lower-casing neither creates nor removes whitespace, at the ends or anywhere |
| Duration.TrimLowerCommute | app.py:13 | `s.strip().lower() == s.lower().strip()` |
| Duration.TrimOfTrimmed | app.py:13 | `strip()` leaves a string with no outer whitespace unchanged |
| Duration.LowerOfLowerCase | app.py:13 | `lower()` leaves a string with no upper-case letter unchanged |
| Duration.NormalizeIdempotent | app.py:13 | normalising twice gives the same as normalising once |
| Duration.ConvertOfNormalForm | app.py:12-13 | converting the normal form of an input gives the same days as converting the input |
| Duration.ConvertUpperCaseExample | app.py:13 | `"5 DAYS"` and `"5 days"` both give 5 |
| Duration.NormalizeIgnoresCase | app.py:13 | inputs that differ only in letter case have the same normal form |
| Duration.ConvertIgnoresCase | app.py:12-13 | inputs that differ only in letter case convert to the same number of days (`"5 DAYS"` and `"5 days"`) |
| Duration.NormalizePadded | app.py:13 | a word in any letter case surrounded by whitespace normalises to its lower-case form |
| Duration.RunEnd | app.py:17 | the scan stops at the end of the longest run of digits (or whitespace) from the given position |
| Duration.MatchesAt | app.py:17 | definition (no contract): the meaning of `re.match(r'(\d+)\s*(days\|months\|years)', t)` with group 1 = `t[..i]` and group 2 the word of u at j; `ScanDuration` is proved against it |
| Duration.UnitAt | app.py:17 | the alternation `(days\|months\|years)` yields unit u exactly when the text at that position starts with u's word |
| Duration.MatchIsGreedy | app.py:17 | every match of the pattern ends its digits at the end of the leading digit run, and its whitespace at the end of the whitespace run after it |
| Duration.ScanDuration | app.py:17-18 | the scanner returns match (i, j, u) exactly when the text starts with digits up to i, whitespace up to j and unit word u at j; the match is unique |
| Duration.PrefixParts | app.py:17 | a string that starts with `a + b + c` holds `a`, then `b`, then starts with `c`; this is the slicing behind a prefix match |
| Duration.ScanPrefix | app.py:17 | any text that starts with digits, whitespace and a unit word matches, whatever follows, and group 1 is those digits |
| Duration.Factor | app.py:10 | `unit_conversion`: every unit is at least one day |
| Duration.DigitsValue | app.py:19-20 | `int(number)` of a digit string of length k is a natural number below 10^k |
| Duration.DigitsValueLeadingZero | app.py:20 | a leading zero does not change `int(number)` (`int("007") == int("7")`) |
| Duration.DecimalString | app.py:20 | partner of `DigitsValue`: every natural number n has a non-empty digit string whose `int()` value is n |
| Duration.ConvertToDays | app.py:12-21 | `convert_to_days` is total and never negative |
| Duration.ConvertNa | app.py:14-16 | `na` in any letter case, with any surrounding whitespace, gives 0 |
| Duration.ConvertNaExample | app.py:13-16 | `"  Na "` gives 0 |
| Duration.ConvertCoterminous | app.py:14-16 | `coterminous with loan tenure` in any letter case, with any surrounding whitespace, gives 3650 = 10 × 365 |
| Duration.NormalizeRecognised | app.py:13 | the normal form of whitespace, digits, whitespace, a unit word in any case and anything else starts with the digits, the whitespace and the lower-case unit word |
| Duration.ConvertRecognised | app.py:17-20 | such an input gives n, 30·n or 365·n days, where n is the digits' value; the text after the unit word is ignored (`"5 daysXYZ"` gives 5) |
| Duration.ConvertTrailingTextExample | app.py:17-20 | `"5 days"` followed by any text (`"5 daysXYZ"`) gives 5 |
| Duration.ConvertLeadingZerosExample | app.py:19-20 | `"007 days"` gives 7 |
| Duration.ConvertSeparatorExample | app.py:17-20 | `"5\x1cmonths"` gives 150: any whitespace `\s` accepts may separate number and unit |
| Duration.ConvertDecimal | app.py:10-20 | `"<n> days"`, `"<n> months"` and `"<n> years"` give n, 30·n and 365·n |
| Duration.ScanDigitsOnly | app.py:17 | a string made only of digits never matches the pattern |
| Duration.ConvertBareDigits | app.py:17-21 | a bare number with no unit (`"0"`, `"365"`), padded or not, gives 0, and so does the empty or all-whitespace string |
| Duration.SingularDayNoMatch | app.py:17 | `"<n> day"` does not match the pattern |
| Duration.ConvertSingularDay | app.py:17-21 | the singular `"<n> day"` gives 0 |
| Duration.ConvertNoLeadingDigit | app.py:17-21 | an input whose normal form is not a special phrase and does not start with a digit (`"banana"`) gives 0 |
| Duration.ConvertNoMatch | app.py:17-21 | when the pattern has no match on the normal form and it is not a special phrase, the result is 0 (`"5 weeks"`, `"5.5 years"`, `"12 mo"`) |
| Duration.ConvertMatch | app.py:17-20 | for any match of the pattern on the normal form, the result is the value of group 1 times the factor of group 2's unit |
| LimitCheck.Fields | app.py:115-120 | definition (no contract): the four fields in the insertion order of `input_values`, which is the order the loop visits them |
| LimitCheck.Key | app.py:90-95 | definition (no contract): the dictionary key of each field, `"Maximum Frequency"`, `"Maximum FI Data Range"`, `"Maximum Consent Validity"` and `"Maximum Data Life"` |
| LimitCheck.MaxValues | app.py:90-95 | each configured maximum is the cell's string, and a missing (NaN) cell becomes `'0'` |
| LimitCheck.MissingLimitIsZero | app.py:91-94 | a missing maximum converts to 0 days, so a field is reported exactly when its non-blank input converts to a positive number of days |
| LimitCheck.Flagged | app.py:123-126 | definition (no contract): a field is reported when its input is not the empty string and `Exceeds` holds for the converted input and maximum; `FlaggedFields` and `ReportCharacterised` state what follows from it |
| LimitCheck.Exceeds | app.py:126 | the comparison with the zero-maximum clause holds exactly when the input's days are greater than the maximum's days: the clause changes nothing |
| LimitCheck.ZeroLimitForbidsPositive | app.py:126 | against a maximum of 0 days (`NA`, a missing cell, an unrecognised string), every non-blank input of positive days is reported |
| LimitCheck.FlaggedExample | app.py:124-126 | `"400 days"` (400 days) against a maximum of `"1 years"` (365 days) is reported |
| LimitCheck.DecimalFlagged | app.py:124-126 | for inputs and maxima written `"<n> <unit>"`, a field is reported exactly when n·factor of the input exceeds m·factor of the maximum |
| LimitCheck.Message | app.py:127 | definition (no contract): the message `"<key> exceeded: <input> > <max>"` with the raw strings |
| LimitCheck.Violations | app.py:122-127 | definition (no contract): the list the loop has built after visiting the given fields; `ViolationsStep`, `ViolationsAreMessages` and `ViolationsBound` state its properties |
| LimitCheck.Report | app.py:112-127 | definition (no contract): the list of results for the whole form; `ReportCharacterised` and `AllWithinLimits` characterise it |
| LimitCheck.FlaggedFields | app.py:122-127 | a field is reported exactly when it is visited, its input is non-blank and the input exceeds the maximum; reported fields keep the visiting order, and there are no more of them than fields visited |
| LimitCheck.ViolationsStep | app.py:122-127 | visiting one more field appends that field's message when it is flagged, and nothing otherwise |
| LimitCheck.ViolationsAreMessages | app.py:127 | the list of results holds exactly one message per reported field, in order, each `"<key> exceeded: <input> > <max>"` with the raw strings |
| LimitCheck.ViolationsBound | app.py:122-127 | there is at most one result per field visited |
| LimitCheck.ReportCharacterised | app.py:112-127 | the results of the whole form are exactly the reported fields' messages, in the order Frequency, FI Data Range, Consent Validity, Data Life; a field is reported iff its input is non-blank and converts to more days than its maximum |
| LimitCheck.AllWithinLimits | app.py:129-133 | the results are empty ("all parameters are within limits") exactly when every non-blank input converts to no more days than its maximum |
| LimitCheck.BlankNeverReported | app.py:123 | an empty input is skipped, and a whitespace-only input is checked but converts to 0 days, so neither is ever reported |
| LimitCheck.CheckLimits | app.py:112-127 | the loop builds exactly the specified list of results, with at most one entry per field |

## Left out

- The Streamlit page is not modelled: CSS, the OM-code selector, the display of the row, the form widgets, the submit button and the success and error banners.
  - `CheckLimits` is the body run after the form is submitted.
  - Its result list is what the page would display.
- Loading the Excel sheet with pandas, `unique()` on the codes and filtering the rows are I/O and library calls.
  - The selected row's four limit cells are a parameter of `MaxValues`.
  - Each cell is either a string or missing (`None` for NaN).
- `str(value)` of a cell that pandas reads as a number (e.g. `30` or `30.0`) is not modelled: cells are taken to be strings already.
- Unicode is not modelled: `strip()`, `\s`, `\d` and `lower()` are restricted to ASCII.
- ConvertToDays: does not model the limit on integer-string conversion of newer Python versions. `int()` raises an error on a run of more than 4300 digits, while the model gives the value of digit runs of any length.
- The `is not None` guards of the comparison are not modelled: `ConvertToDays` is total, so they always hold.
- The trailing text after the unit word is ignored, as `re.match` does. Matching the whole string instead would be a different rule, and it is not modelled.
- The consent-record store (creating and deleting records in a JSON file) is not part of this model: app.py does not contain it.
