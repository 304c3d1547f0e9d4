# check_cfg_params: the configuration rule validator

`utils/check_cfg_params.py` compares a configuration file that was actually
deployed with an expected configuration. Both have been parsed into
section → key → raw string value. In the expected file each value is a
directive:

- `MUST_EXIST`: the section and the key must be there. This and the next
  directive are compared after upper-casing.
- `SHOULD_NOT_BE_PRESENT`: the key must not be there.
- `RANGE[start,end]`: any value whose upper-cased text starts with `RANGE`.
  The actual value must be an integer between the two bounds, inclusive.
- anything else: a literal. The actual text must be equal to it.

`validate_config` walks every expected section and every key in it. It adds
one message per violation to a set, and it raises a flag from 0 to 1 when it
does. `read_range` turns a `RANGE` directive into its two bounds. It gives
`None` when the directive is malformed.

The project has five files:

- `wrappers.dfy`: the `Option` type.
- `pystr.dfy`: the Python string operations the validator uses:
  - `upper`, `startswith`, `replace(pat, "")`, `strip(chars)` and `split(sep)`;
  - `int` in base 10, and the decimal rendering of an integer.
- `check_cfg_params.dfy`: the validator itself:
  - `ReadRange`, the directive dispatch `Classify`/`Verdict`, and the messages
    `Diagnostic`/`Render`;
  - the report `Report`, the specification function;
  - the two nested loops of `validate_config`, as the methods `ValidateConfig`
    and `ValidateSection`, proved to compute that report and the flag.
- `properties.dfy`: what the report guarantees:
  - per directive, for the messages about each expected key;
  - for the report as a whole;
  - `read_range`'s round trip and failure cases.
- `scenarios.dfy`: small worked runs on one-key expectations.

Some models of the Python operations are simplified:

- `str.upper` maps the ASCII letters only.
- `int()` strips the ASCII whitespace CPython skips: space, tab, line feed,
  carriage return, vertical tab and form feed (U+0009 to U+000D and
  U+0020). The information separators U+001C to U+001F are never skipped,
  although `str.isspace()` holds for them. It then accepts an
  optional `+` or `-` and one or more ASCII digits.

A message is modelled as a `Diagnostic` value: one constructor per message
template of lines 30, 35, 41, 51, 54 and 61, carrying the values the message
shows. `Render` gives the exact text of the message.

## Model

| member | source | states |
|---|---|---|
| `CheckCfgParams.ValidateConfig` | utils/check_cfg_params.py:22-65 | the output set is exactly the report of every expected (section, key, value) triple, whatever order the sections are visited in; the flag is 1 if and only if the output is non-empty |
| `CheckCfgParams.ValidateSection` | utils/check_cfg_params.py:27-63 | the inner loop over one expected section adds exactly that section's diagnostics to the output, and keeps the flag equal to whether the output is non-empty |
| `CheckCfgParams.ReadRange` | utils/check_cfg_params.py:6-13 | a range is returned only when the token-free, bracket-stripped text has exactly one comma |
| `CheckCfgParams.Verdict` | utils/check_cfg_params.py:28-63 | one triple gives at most one diagnostic; it is about its own section and file, and about its own key unless it is the section message; the section message only when the section is absent; the kind of message is the one its directive checks |
| `CheckCfgParams.Classify` | utils/check_cfg_params.py:28-57 | a value is `MUST_EXIST` or `SHOULD_NOT_BE_PRESENT` exactly when its upper case is that word; it is a range check exactly when its upper case starts with `RANGE`, and then carries the bounds `read_range` gives; otherwise it is a literal holding the value unchanged |
| `CheckCfgParams.Report` | utils/check_cfg_params.py:22-65 | every reported diagnostic is about an expected section and names the file name of the path |
| `CheckCfgParams.Render` | utils/check_cfg_params.py:30-61 | every message starts with its category tag (`MUST`, `NOT_BE`, `COUNT`, `ERROR`, `MISSMATCH`) and a colon |
| `CheckCfgParams.TextNames` | utils/check_cfg_params.py:30-61 | the text after the tag names the section and the file; every message but the section message names the key; COUNT names the bounds; MISSMATCH names the actual and the expected text |
| `CheckCfgParams.RenderNames` | utils/check_cfg_params.py:30-61 | the rendered message names the same values: section, file, key, bounds, actual and expected text |
| `CheckCfgParams.RangeBody` | utils/check_cfg_params.py:8 | the text left once the tokens are removed and the brackets stripped is no longer than the directive, is made of its characters, and neither starts nor ends with a bracket |
| `CheckCfgParams.PairToString` | utils/check_cfg_params.py:51 | `f"{my_range}"` is a parenthesised text |
| `CheckCfgProperties.PairToStringReadsBack` | utils/check_cfg_params.py:51 | the bounds shown in a COUNT message read back: inside the parentheses there is one comma, and `int` reads the two sides as the lower and the upper bound |
| `CheckCfgParams.Messages` | utils/check_cfg_params.py:23-65 | the returned set of strings holds no message exactly when there is no diagnostic; `MessagesOfDiagnostics` adds that it is never larger than the set of diagnostics, and `ZeroToTenMessage` gives one whole output string for string |
| `CheckCfgParams.MessagesOfDiagnostics` | utils/check_cfg_params.py:23-65 | the set of message strings is empty exactly when the set of diagnostics is, and is no larger |
| `CheckCfgParams.FileName` | utils/check_cfg_params.py:25 | the file name is a slash-free suffix of the path, preceded by a slash when it is not the whole path |
| `CheckCfgProperties.FileNameOfPath` | utils/check_cfg_params.py:25 | for `dir/name` with a slash-free `name`, the file name is `name` |
| `CheckCfgProperties.ReadRangeWellFormed` | utils/check_cfg_params.py:6-10 | `RANGE[lo,hi]` or `range[lo,hi]`, written with any integers, reads back as `(lo, hi)` |
| `CheckCfgProperties.ReadRangeIff` | utils/check_cfg_params.py:8-13 | the result is `(lo, hi)` if and only if the remaining text is two comma-free parts around a comma that `int` reads as `lo` and `hi` |
| `CheckCfgProperties.ReadRangeTwoParts` | utils/check_cfg_params.py:8-13 | with exactly two comma-separated parts, a range results if and only if both parts are integers, and `None` otherwise |
| `CheckCfgProperties.MixedCaseTokenRejected` | utils/check_cfg_params.py:8-13 | a directive whose upper case starts with `RANGE` but whose first five characters are neither `RANGE` nor `range` (such as `Range[…]` or `rANGE[…]`) gives `None` |
| `CheckCfgProperties.FirstLetterKept` | utils/check_cfg_params.py:8 | for such a directive the token removal keeps its first letter in front |
| `CheckCfgProperties.MixedCaseExample` | utils/check_cfg_params.py:44-47 | `Range[1,5]`, or `Range` followed by any text, is dispatched as a range directive whose bounds are `None`, so only the integer check applies |
| `CheckCfgProperties.RangeBodyOf` | utils/check_cfg_params.py:8 | removing the tokens and stripping the brackets of `RANGE[lo,hi]` leaves the two numerals around a comma |
| `CheckCfgProperties.ReportContainsVerdict` | utils/check_cfg_params.py:26-63 | every triple's diagnostic is in the output |
| `CheckCfgProperties.ReportAttribution` | utils/check_cfg_params.py:26-63 | every diagnostic in the output comes from one expected triple of its section, and names the file |
| `CheckCfgProperties.KeyReportIsVerdict` | utils/check_cfg_params.py:26-63 | the messages about an expected key are exactly the one its own triple gives, if any |
| `CheckCfgProperties.VerdictSectionAbsent` | utils/check_cfg_params.py:28-63 | on an absent section only a `MUST_EXIST` triple gives a message, and that message is the section message |
| `CheckCfgProperties.MustExistSectionAbsent` | utils/check_cfg_params.py:28-32 | `MUST_EXIST` with the section absent: the section message is reported, and every message about that section is that one |
| `CheckCfgProperties.MustExistSectionPresent` | utils/check_cfg_params.py:28-36 | `MUST_EXIST` with the section present: the key message is reported if and only if the key is absent, and the section message is not reported |
| `CheckCfgProperties.ShouldNotBePresentIff` | utils/check_cfg_params.py:38-42 | `SHOULD_NOT_BE_PRESENT`: a NOT_BE message if and only if both the section and the key exist |
| `CheckCfgProperties.RangeChecked` | utils/check_cfg_params.py:44-55 | a `RANGE` directive on a present key gives one of three outcomes: an ERROR for a non-integer value, even when the directive is malformed; a COUNT exactly when the bounds exist and the value is outside them; nothing for an integer under a malformed directive |
| `CheckCfgProperties.AbsenceTolerated` | utils/check_cfg_params.py:44-46 | a range or literal directive on an absent section or key gives no message |
| `CheckCfgProperties.LiteralMismatchIff` | utils/check_cfg_params.py:57-62 | a literal directive: a MISSMATCH if and only if the key exists and its text differs exactly |
| `CheckCfgProperties.ReportEmptyIff` | utils/check_cfg_params.py:22-65 | the output is empty if and only if every expected triple passes |
| `CheckCfgProperties.LiteralsPassIff` | utils/check_cfg_params.py:57-65 | with literal directives only, a file passes if and only if every expected key it has carries exactly the expected text |
| `CheckCfgProperties.ReportDependsOnExpectedKeysOnly` | utils/check_cfg_params.py:26-27 | two actual configurations that look the same at every expected key give the same output |
| `CheckCfgProperties.ExtraSectionIgnored` | utils/check_cfg_params.py:26 | adding or replacing a section that is not expected leaves the output unchanged |
| `CheckCfgProperties.ExtraKeyIgnored` | utils/check_cfg_params.py:27 | adding or changing a key that is not expected leaves the output unchanged |
| `CheckCfgProperties.VerdictByView` | utils/check_cfg_params.py:28-63 | the verdict of a triple depends on the actual configuration only through what it sees there: no section, no key, or the key's text |
| `CheckCfgProperties.VerdictSeesView` | utils/check_cfg_params.py:28-63 | two actual configurations that look the same at one key give that key the same verdict |
| `CheckCfgProperties.SingleEntryReport` | utils/check_cfg_params.py:26-63 | an expectation of one key reports exactly that key's diagnostic |
| `PyStr.Upper` | utils/check_cfg_params.py:28 | upper-casing keeps the length and maps each character by itself |
| `PyStr.StartsWithIff` | utils/check_cfg_params.py:44 | `s.startswith(p)` holds exactly when `s` is `p` followed by some text |
| `PyStr.RemoveAll` | utils/check_cfg_params.py:8 | removing a token never lengthens the text nor adds characters |
| `PyStr.RemoveAllNoOccurrence` | utils/check_cfg_params.py:8 | a text in which the token occurs nowhere is left unchanged |
| `PyStr.RemoveAllAbsent` | utils/check_cfg_params.py:8 | a text without the token's first character is left unchanged |
| `PyStr.RemoveAllKeepsPrefix` | utils/check_cfg_params.py:8 | a prefix in which no occurrence of the token starts is kept as it is, and the removal goes on after it |
| `PyStr.RemoveAllLeftmost` | utils/check_cfg_params.py:8 | the leftmost occurrence is removed, the text before it is kept, and the scan goes on after it |
| `PyStr.RemoveAllSinglePass` | utils/check_cfg_params.py:8 | removal is one left-to-right pass and is not repeated: `RARANGENGE` gives `RANGE` |
| `PyStr.StripLeft` | utils/check_cfg_params.py:8 | `lstrip(chars)` keeps a suffix, everything it drops is in `chars`, and what it keeps does not start with one of them |
| `PyStr.StripRight` | utils/check_cfg_params.py:8 | `rstrip(chars)` keeps a prefix, everything it drops is in `chars`, and what it keeps does not end with one of them |
| `PyStr.Strip` | utils/check_cfg_params.py:8 | the stripped text neither starts nor ends with one of `chars` |
| `PyStr.StripSlice` | utils/check_cfg_params.py:8 | the stripped text is one contiguous slice, and every character cut off on either side is in `chars` |
| `PyStr.Split` | utils/check_cfg_params.py:9 | there is one part more than there are separators, and no part holds the separator |
| `PyStr.JoinSplit` | utils/check_cfg_params.py:9 | joining the parts with the separator gives the text back |
| `PyStr.StripEnclosed` | utils/check_cfg_params.py:8 | stripping the brackets around a text whose ends are not brackets leaves that text |
| `PyStr.NatToString` | utils/check_cfg_params.py:51 | the decimal rendering of a natural number is digits that denote it, and starts with `0` only for zero |
| `PyStr.IntToString` | utils/check_cfg_params.py:51 | the rendering of an integer is digits, with a leading minus sign exactly for negative numbers, and ends in a digit; it has no leading zero, and `0` alone is zero |
| `PyStr.ParseNumeral` | utils/check_cfg_params.py:49 | a stripped text is read as an integer exactly when it is an optional sign and one or more digits; a negative result has a minus sign |
| `PyStr.ParseInt` | utils/check_cfg_params.py:49 | `int(s)` succeeds exactly when `s`, stripped of whitespace, is a numeral; a negative result was written with a minus sign |
| `PyStr.ParseNumeralRoundTrip` | utils/check_cfg_params.py:49-51 | the numeral `str(n)` reads back as `n` |
| `PyStr.ParseIntRoundTrip` | utils/check_cfg_params.py:49 | `int(str(n)) == n` for every integer |
| `PyStr.ParseIntPadded` | utils/check_cfg_params.py:49 | `int` ignores whitespace around a number |
| `PyStr.ParseIntRejects` | utils/check_cfg_params.py:49 | text whose first character is neither whitespace, a sign nor a digit is rejected; for an all-ASCII text this is what Python does |
| `PyStr.SeparatorNotSkipped` | utils/check_cfg_params.py:49 | an information separator is not whitespace to `int`: `int("\x1c5")` fails |
| `CheckCfgScenarios.RangeDirectiveClassified` | utils/check_cfg_params.py:44-47 | `RANGE[lo,hi]` and `range[lo,hi]` are dispatched as range checks with bounds `(lo, hi)` |
| `CheckCfgScenarios.RangeScenario` | utils/check_cfg_params.py:44-52 | one integer key under `RANGE[lo,hi]` is reported, with a COUNT naming the bounds, exactly when it lies outside them |
| `CheckCfgScenarios.RangeNotIntegerScenario` | utils/check_cfg_params.py:48-55 | one non-integer key under a range directive gives exactly one ERROR |
| `CheckCfgScenarios.ZeroToTen` | utils/check_cfg_params.py:44-52 | under `RANGE[0,10]`, 5 passes and 11 is reported with the bounds `(0, 10)` |
| `CheckCfgScenarios.ZeroToTenRendered` | utils/check_cfg_params.py:51 | the COUNT diagnostic for `port` in `[server]` of `app.cfg` with bounds `(0, 10)` renders as `COUNT: Value of 'port' in [server] of app.cfg not in range (0, 10)` |
| `CheckCfgScenarios.ZeroToTenMessage` | utils/check_cfg_params.py:23-65 | `port=11` against `RANGE[0,10]` gives exactly that one message string |
| `CheckCfgScenarios.ZeroToTenNotInteger` | utils/check_cfg_params.py:48-55 | under `RANGE[0,10]`, `abc` gives the ERROR message |
| `CheckCfgScenarios.PortOutOfRange` | utils/check_cfg_params.py:44-52 | `port=70000` against `RANGE[1,65535]` reports the COUNT message |
| `CheckCfgScenarios.ForbiddenKeyScenario` | utils/check_cfg_params.py:38-42 | an expectation of one forbidden key reports one NOT_BE message when the key is there and nothing otherwise |
| `CheckCfgScenarios.RequiredSectionAbsent` | utils/check_cfg_params.py:28-32 | an expectation of one required key in an absent section reports just the section message |

## Left out

- `read_cfg_to_dict` (lines 16-19) is not modelled: it is file I/O and Python's `configparser`. The model takes the parsed maps as inputs, so key lower-casing and `DEFAULT` section inheritance are not modelled either.
- The command-line block (lines 67-102) is not modelled:
  - argument parsing, logging and the process exit code;
  - combining the flags of several files.
- The `print` in `read_range`'s exception handler (line 12) is left out. Only its `None` result is modelled.
- ValidateConfig: the loops visit sections and keys in an unspecified order, where Python uses dictionary insertion order. The output set is proved to be the same for every order.
- Messages are collected as `Diagnostic` values rather than as strings. Python's set merges equal strings. Two different diagnostic values could render to the same string only when a section, key or value contains quotes, brackets or the message words themselves. `MessagesOfDiagnostics` shows that the flag (empty or not) is unaffected.
- PyStr.Upper: maps ASCII letters only. Python's `str.upper` also maps other letters, for instance `ı` to `I` and `ß` to `SS`.
- PyStr.ParseInt: the simplified `int()` does not model `_` digit separators, non-ASCII digits or non-ASCII whitespace. Python accepts these, and the model rejects them. CPython never skips the separators U+001C to U+001F, in any text, and neither does the model.
- PyStr.ParseIntPadded: covers padding by the six ASCII whitespace characters only, not the Unicode whitespace Python also skips.
- PyStr.ParseInt: the model has no limit on the number of digits. CPython 3.11 and later raise `ValueError` on a decimal string of more than 4300 digits. For such a value line 49 gives the ERROR message, and `read_range` gives `None`; the model reads the number.
- The exception handler of `read_range` catches every exception. The replacements and the strip of line 8 cannot fail on a string. Line 9 fails when the split does not give exactly two parts, so that unpacking them into `start, end` fails, or when `int` rejects a part; `ReadRange` gives `None` in exactly these cases (`|parts| == 2` and `ParseInt`), apart from the two `ParseInt` lines above.
