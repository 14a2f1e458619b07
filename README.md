# Hemogram extraction engine, modelled in Dafny

This project models the extraction engine of the hemogram reader
(`hemogram_api/services/hemogram_processor.py`). The engine reads a
blood-test PDF as a list of positioned words per page and proceeds in five steps:

1. It groups the words of each page into lines by their top coordinate (`Y_TOLERANCE` = 5).
2. It normalises every line's text (lower case, accents folded, `:`, `(`, `)` removed).
3. It finds the longest alias of `PARAM_MAP` in the normalised line.
4. It reads the metric's value, in one of two ways:
   - inline after the name, through three regular expressions and the locale-aware `clean_and_convert_to_float`;
   - otherwise from one of the next three lines in ascending key order (`find_value_in_structured_layout`): a `resultado` line's
     first number, or else a word starting right of the line's last word's right edge minus 20.
5. It drops values above 10000, keeps the first reading of every metric,
   and builds the table of patient, date, metric, value and unit, ordered by
   the fixed metric order.

Modules, one per concern of the source file:

| file | module | models |
|---|---|---|
| `text.dfy` | `Text` | the Python string operations the engine uses (`lower`, `strip`, `replace`, `find`, `in`, `split(c)[0]`, `" ".join`, slicing), over Latin-1 |
| `sorting.dfy` | `Wrappers`, `StableSort` | `Option`, and the stable sort by a key that Python's `sorted` performs |
| `normalize.dfy` | `Normalizer` | `TEXT_NORMALIZATION_MAP` and `normalize_text` |
| `numbers.dfy` | `NumericParser` | `clean_and_convert_to_float`, including the subset of `float()` it relies on |
| `scanner.dfy` | `NumberScanner` | `extract_numbers_from_text`: the `resultado` pattern, the generic and the loose number patterns, written as scanners |
| `aliases.dfy` | `MetricLocator` | `PARAM_MAP` and `find_metric_in_line` |
| `lines.dfy` | `LineGrouper` | the word tuple and `group_words_into_lines` |
| `resolver.dfy` | `ValueResolver` | `find_value_in_structured_layout`, `process_line`, `parse_generic_metric` |
| `extraction.dfy` | `DocumentExtraction` | `extract_data_from_pdf` |
| `tabulation.dfy` | `ResultsTable` | `create_results_dataframe` and the part of `process_exam_pdf` that returns the table |

The model has two layers.
- Each operation is a pure function. Where the source works by loops and mutation, a method
  also reproduces it: `NormalizeText`, `CleanAndConvertToFloat`, `GroupWordsIntoLines`,
  `FindValueInStructuredLayout` with its early returns, `ExtractDataFromPdf` with `DedupByName`,
  `CreateResultsDataframe` and `ProcessExamPdf`. Each such method is proved equal to its function.
- Numbers are exact decimals (`real`).

Two parameters make the model generic.
- `ValueResolver.Readers` bundles the conversion, the number extraction and the `resultado` test.
  `ValueResolver.Source` is the instance the source uses.
- `DocumentExtraction.LineProcessor` stands for `process_line` during the scan.
  `DocumentExtraction.SourceProcessor` is the modelled `process_line`. The
  scan's guarantees hold for any processor that satisfies `Admissible`, and
  `SourceAdmissible` proves that `process_line` does.

Some behaviour of the source is modelled exactly as written:
- **The inline-text offset.** `process_line` finds the position of the name's first alias in the
  *normalised* line. It then cuts the *raw* line at that position plus the length of the
  *canonical name* (`TextAfterMetric`). When the first alias does not occur, that position is -1 and
  Python's negative slicing applies (`Text.SliceFrom`).
- **Trailing dots.** Only one trailing `.` is dropped before `float()`.
- **The multiplication sign.** The test for it sees `X` as well as `x`, but the split cuts only at a
  lower-case `x`.
- **The alias `tgp (alt)` can never match.** Its parentheses are removed by normalisation
  (`MetricLocator.ParenthesisedAliasUnreachable`).

## Model

| member | source | states |
|---|---|---|
| Text.Lower | hemogram_api/services/hemogram_processor.py:65 | `str.lower()` keeps the length and lower-cases character by character |
| Text.LowerCharIdempotent | hemogram_api/services/hemogram_processor.py:65 | lower-casing a character twice is lower-casing it once |
| Text.Strip | hemogram_api/services/hemogram_processor.py:68 | `str.strip()` is the slice of the input left after the leading whitespace, with no whitespace at either end |
| Text.StripNoEdges | hemogram_api/services/hemogram_processor.py:68 | a string without whitespace at its ends is its own strip |
| Text.Find | hemogram_api/services/hemogram_processor.py:198 | `str.find` gives -1 exactly when the pattern occurs nowhere, else the first index where it occurs |
| Text.ReplaceAppend | hemogram_api/services/hemogram_processor.py:67 | replacing a character distributes over concatenation |
| Text.ReplaceKeeps | hemogram_api/services/hemogram_processor.py:67 | `replace` keeps any character property that the other characters and the replacement have |
| Text.FirstIndex | hemogram_api/services/hemogram_processor.py:81 | the index of the first occurrence of an element, or the length when it is absent; used for `split(c)[0]`, `list.index` and the category codes |
| Text.JoinWithSpaceEnds | hemogram_api/services/hemogram_processor.py:174 | `" ".join` opens with the first part and closes with the last |
| Text.SliceFrom | hemogram_api/services/hemogram_processor.py:199 | `s[start:]` is a suffix of `s`; its length is `len(s) - start` clamped to the string for a start from the front, and `-start` clamped for one from the end |
| Text.BeforeFirst | hemogram_api/services/hemogram_processor.py:81 | `s.split(c)[0]` contains no `c` |
| StableSort.SortBy | hemogram_api/services/hemogram_processor.py:149 | `sorted` returns a permutation of its input |
| StableSort.SortBySorted | hemogram_api/services/hemogram_processor.py:149 | the result of `sorted` is ordered by the key |
| StableSort.SortByStable | hemogram_api/services/hemogram_processor.py:173 | `sorted` is stable: the elements of each key keep their order |
| StableSort.SortedFirstWhere | hemogram_api/services/hemogram_processor.py:149-153 | the first element of a stably sorted list that satisfies a test has the least key among those that satisfy it, and is the first of them with that key in the input |
| StableSort.FirstWhere | hemogram_api/services/hemogram_processor.py:151-154 | a scan for the first element that satisfies a test finds nothing exactly when no element satisfies it |
| Normalizer.TableKeys | hemogram_api/services/hemogram_processor.py:49-53 | every key of the normalisation map is `:`, `(`, `)` or a Latin-1 letter |
| Normalizer.TableReplacements | hemogram_api/services/hemogram_processor.py:49-53 | every replacement is empty or one plain letter |
| Normalizer.ReplaceStep | hemogram_api/services/hemogram_processor.py:66-67 | one pass of the loop applies one map entry throughout the text |
| Normalizer.SubstUpToAllFull | hemogram_api/services/hemogram_processor.py:66-67 | the passes over all entries, in order, amount to replacing each character by its map entry |
| Normalizer.NormalizeText | hemogram_api/services/hemogram_processor.py:64-68 | the source's loop computes the normal form |
| Normalizer.NormalizeShape | hemogram_api/services/hemogram_processor.py:64-68 | the normal form holds no map key, no capital letter, and no whitespace at either end |
| Normalizer.NormalizeIdempotent | hemogram_api/services/hemogram_processor.py:64-68 | normalising twice is normalising once |
| NumericParser.CleanAndConvertToFloat | hemogram_api/services/hemogram_processor.py:73-97 | the step-by-step rewriting and `float()` compute `CleanAndConvert` |
| NumericParser.DotDecimal | hemogram_api/services/hemogram_processor.py:93-95 | `ip.fp` reads as the decimal it spells, and a bare trailing dot is dropped |
| NumericParser.DecimalComma | hemogram_api/services/hemogram_processor.py:85-89 | a single comma with at most two digits after it is the decimal point |
| NumericParser.ThousandsCommas | hemogram_api/services/hemogram_processor.py:85-91 | otherwise every comma is a thousands separator and is removed |
| NumericParser.ThousandsDotsDecimalComma | hemogram_api/services/hemogram_processor.py:83-84 | with both separators present, dots are removed and the comma is the decimal point |
| NumericParser.TimesSuffixIgnored | hemogram_api/services/hemogram_processor.py:80-81 | `a + "x" + rest` reads as `a` whenever `a` has no lower-case `x`, spaces included: `10 x 10^3` reads as 10 |
| NumericParser.OnlyOneTrailingDot | hemogram_api/services/hemogram_processor.py:93-95 | `d..` reads as `d`, but `d...` does not parse |
| NumericParser.NoDigitNoNumber | hemogram_api/services/hemogram_processor.py:73-97 | a string without a digit never converts |
| NumericParser.DecimalValueIntegerPart | hemogram_api/services/hemogram_processor.py:95 | the digits before the point give the integer part of the value |
| NumberScanner.GenericMatchAt | hemogram_api/services/hemogram_processor.py:109 | the generic match at a position is the longest standalone number there (a number token with a non-word character or the text's edge on both sides); there is none exactly when no standalone number starts there |
| NumberScanner.LooseMatchAt | hemogram_api/services/hemogram_processor.py:113 | the loose match at a digit is the longest number token starting there |
| NumberScanner.MatchAtLongest | hemogram_api/services/hemogram_processor.py:109-113 | for either pattern, the match tried at a position is the longest match starting there, and there is none exactly when no match starts there |
| NumberScanner.SpansFrom | hemogram_api/services/hemogram_processor.py:109-114 | every span `re.findall` reports is a match, and the spans are in order without overlap |
| NumberScanner.SpansFromLeftmostLongest | hemogram_api/services/hemogram_processor.py:108-114 | `re.findall` is leftmost-longest: no match starts before each span, each span is the longest match at its start, and the scan resumes at its end; no match starts after the last span |
| NumberScanner.MatchStartsCovered | hemogram_api/services/hemogram_processor.py:109-114 | every position where a match starts lies inside some reported span |
| NumberScanner.GenericComplete | hemogram_api/services/hemogram_processor.py:109-110 | every standalone integer lies inside some generic match |
| NumberScanner.LooseComplete | hemogram_api/services/hemogram_processor.py:113-114 | every digit of the text lies inside some loose match |
| NumberScanner.ResultGroupAt | hemogram_api/services/hemogram_processor.py:101 | a captured group is a non-empty run of digits, dots and commas |
| NumberScanner.ResultGroupAtMeaning | hemogram_api/services/hemogram_processor.py:101-102 | the `resultado` pattern yields a group at a position exactly when it matches there; the group is the whole run of `[\d.,]`, followed by the end of the text or another character |
| NumberScanner.ResultSearchFrom | hemogram_api/services/hemogram_processor.py:101-102 | `re.search` finds the first position where the `resultado` pattern matches, or none when it matches nowhere |
| NumberScanner.MatchedStrings | hemogram_api/services/hemogram_processor.py:108-114 | every matched string is a number token |
| NumberScanner.TokenParses | hemogram_api/services/hemogram_processor.py:116 | every number token converts |
| NumberScanner.KeepParsedTokens | hemogram_api/services/hemogram_processor.py:116-117 | the filter keeps one value per match, in order |
| NumberScanner.ExtractNumbersSpec | hemogram_api/services/hemogram_processor.py:99-117 | the result is the shortcut's single value when it gives one, else one converted value per match |
| NumberScanner.PlainLineUsesGenericMatches | hemogram_api/services/hemogram_processor.py:112-117 | outside result lines the loose pattern is never used |
| NumberScanner.NoDigitNoNumbers | hemogram_api/services/hemogram_processor.py:99-117 | a text without a digit yields no number |
| MetricLocator.LookupFrom | hemogram_api/services/hemogram_processor.py:153 | a dict lookup succeeds exactly when the key is present |
| MetricLocator.LookupOfFirst | hemogram_api/services/hemogram_processor.py:153 | the lookup gives the value of the first entry with that key |
| MetricLocator.FindMetricNone | hemogram_api/services/hemogram_processor.py:144-154 | no metric is found exactly when no alias occurs in the line |
| MetricLocator.FindMetricLongest | hemogram_api/services/hemogram_processor.py:144-154 | the name found is that of an occurring alias of greatest length, the first such in dict order |
| MetricLocator.FoundNameIsMetric | hemogram_api/services/hemogram_processor.py:153 | a found name is a value of `PARAM_MAP` |
| MetricLocator.ChcmPreferred | hemogram_api/services/hemogram_processor.py:146-153 | a line naming `chcm`, and no alias longer than four characters, reads as CHCM rather than the HCM it contains |
| MetricLocator.ParenthesisedAliasUnreachable | hemogram_api/services/hemogram_processor.py:37 | the alias `tgp (alt)` never occurs in a normalised line |
| MetricLocator.EmptyLineNoMetric | hemogram_api/services/hemogram_processor.py:144-154 | an empty line names no metric |
| MetricLocator.LookupFromValue | hemogram_api/services/hemogram_processor.py:268 | a dict lookup that succeeds gives the value of the first entry with that key |
| LineGrouper.FindLineFrom | hemogram_api/services/hemogram_processor.py:134-138 | the first line whose key is within the tolerance, or none when no key is |
| LineGrouper.Group | hemogram_api/services/hemogram_processor.py:124-142 | every word lands in exactly one line, in input order; each line is keyed by its first word's `y0`; every word is within the tolerance of its key, and any two keys are at least the tolerance apart |
| LineGrouper.GroupWordsIntoLines | hemogram_api/services/hemogram_processor.py:124-142 | the source's nested loops compute `Group` |
| ValueResolver.SortedWordsAtSpec | hemogram_api/services/hemogram_processor.py:173 | the words of a key, x-sorted, are those of the line with that key |
| ValueResolver.IndexOf | hemogram_api/services/hemogram_processor.py:164-167 | `list.index` gives the first occurrence, or the `ValueError` exactly when the key is absent |
| ValueResolver.FirstParsedRightOfSpec | hemogram_api/services/hemogram_processor.py:181-187 | the word scan gives nothing exactly when no word is right of `metric_x_end - 20` and converts; otherwise it gives the value of the first such word |
| ValueResolver.FirstValueWord | hemogram_api/services/hemogram_processor.py:181-187 | the inner loop with its early return computes the word scan |
| ValueResolver.CandidateLine | hemogram_api/services/hemogram_processor.py:173-187 | one candidate line: the first number of a `resultado` line that has numbers, else the word scan |
| ValueResolver.WindowValueAt | hemogram_api/services/hemogram_processor.py:171-188 | a value found in the window comes from the first key in it that yields one |
| ValueResolver.ScanWindow | hemogram_api/services/hemogram_processor.py:171-188 | the source's loop over the window computes that first value |
| ValueResolver.LookaheadOver | hemogram_api/services/hemogram_processor.py:164-188 | the lookahead from the index of `current_y`, with the missing key read as no value |
| ValueResolver.FindValueInStructuredLayout | hemogram_api/services/hemogram_processor.py:156-188 | the source's function computes `StructuredValue` |
| ValueResolver.SortedKeysSpec | hemogram_api/services/hemogram_processor.py:163 | the sorted keys ascend and are exactly the keys of the page |
| ValueResolver.LookaheadNotAKey | hemogram_api/services/hemogram_processor.py:164-167 | a `current_y` that is not a key yields no value |
| ValueResolver.LookaheadWindow | hemogram_api/services/hemogram_processor.py:163-188 | a value found comes from one of the at most three keys after the first occurrence of `current_y`, and every key before it in the window yields nothing |
| ValueResolver.TextAfterMetric | hemogram_api/services/hemogram_processor.py:198-199 | the text searched for inline numbers is a suffix of the raw line |
| ValueResolver.LineNumbers | hemogram_api/services/hemogram_processor.py:200-209 | inline numbers are used as they are; without them the lookahead supplies at most one value, and none when the line has no words |
| ValueResolver.FirstAliasFrom | hemogram_api/services/hemogram_processor.py:198 | `next(...)` finds an alias exactly when some entry carries the name |
| ValueResolver.NamedLineWellFormed | hemogram_api/services/hemogram_processor.py:198-205 | a line that names a metric has a last word, and its name has a first alias, so neither `next` nor `line_words[-1]` fails |
| ValueResolver.ProcessLine | hemogram_api/services/hemogram_processor.py:190-220 | at most one metric: the name found on the line, not yet processed, with the first candidate number, which is at most 10000 |
| ValueResolver.ProcessLineEmpty | hemogram_api/services/hemogram_processor.py:194-218 | nothing is returned exactly when no metric is named, it is already processed, there is no candidate number, or the first one exceeds 10000 |
| ValueResolver.InlineNeedsNoLookahead | hemogram_api/services/hemogram_processor.py:201-209 | with inline numbers, the other lines of the page do not matter |
| ValueResolver.ParseGenericMetric | hemogram_api/services/hemogram_processor.py:119-122 | no metric exactly when there are no numbers, else one metric carrying the first number |
| DocumentExtraction.SourceAdmissible | hemogram_api/services/hemogram_processor.py:190-220 | `process_line` yields at most one metric, not yet processed, canonically named, at most 10000 |
| DocumentExtraction.ScanPagesConsistent | hemogram_api/services/hemogram_processor.py:227-238 | the scan keeps its invariant: the processed set is the set of result names, all canonical, no name twice, no value above 10000 |
| DocumentExtraction.SkippedLineChangesNothing | hemogram_api/services/hemogram_processor.py:235-238 | a line with no metric leaves the scan unchanged |
| DocumentExtraction.OutlierLeavesMetricOpen | hemogram_api/services/hemogram_processor.py:214-218 | an outlier reading leaves its metric unprocessed, so a later line may still supply it |
| DocumentExtraction.DedupSpec | hemogram_api/services/hemogram_processor.py:244-252 | the deduplication yields a subsequence with distinct names and the same set of names |
| DocumentExtraction.DedupKeepsFirst | hemogram_api/services/hemogram_processor.py:244-252 | the first result of every name is kept |
| DocumentExtraction.DedupDistinct | hemogram_api/services/hemogram_processor.py:244-252 | with distinct names, the deduplication changes nothing |
| DocumentExtraction.ExtractDataSpec | hemogram_api/services/hemogram_processor.py:222-252 | the extracted metrics have distinct canonical names and values of at most 10000, and the final deduplication removes nothing |
| DocumentExtraction.DedupByName | hemogram_api/services/hemogram_processor.py:245-252 | the source's loop with `seen_names` computes `Dedup` |
| DocumentExtraction.ScanDocumentPages | hemogram_api/services/hemogram_processor.py:227-238 | the loop over the pages computes `ScanPages` |
| DocumentExtraction.ScanPageLines | hemogram_api/services/hemogram_processor.py:231-238 | the loop over one page's keys computes the scan of those keys |
| DocumentExtraction.ExtractDataFromPdf | hemogram_api/services/hemogram_processor.py:222-252 | the source's function computes `ExtractData`, with `[]` for an unreadable document |
| ResultsTable.UnitOf | hemogram_api/services/hemogram_processor.py:268 | `unit_map.get(name, "N/A")` gives `N/A` exactly when the name has no entry, else the unit of its first entry |
| ResultsTable.TableSpec | hemogram_api/services/hemogram_processor.py:266-284 | one row per result, a permutation of the built rows, sorted by category; each row carries the patient, the date and its metric's unit |
| ResultsTable.TableStable | hemogram_api/services/hemogram_processor.py:283-284 | rows of the same category keep the order of the results |
| ResultsTable.CanonicalNamesTabulated | hemogram_api/services/hemogram_processor.py:258-281 | every canonical name of `PARAM_MAP` is a category of `metric_order` and has a unit in `unit_map` |
| ResultsTable.TableStrictlyOrdered | hemogram_api/services/hemogram_processor.py:283-284 | results with distinct categorised names give a table strictly ordered by category, so the sort meets no ties |
| ResultsTable.CreateResultsDataframe | hemogram_api/services/hemogram_processor.py:254-286 | the source's loop and sort compute `Table`, with an empty table for no results |
| ResultsTable.ExamTableSpec | hemogram_api/services/hemogram_processor.py:350-360 | a table is returned exactly when something is extracted; it is non-empty, has one row per metric and is strictly in display order |
| ResultsTable.ProcessExamPdf | hemogram_api/services/hemogram_processor.py:350-360 | the source's function computes `ExamTable` |

## Specification functions

These functions define what the source computes and carry no contract of
their own. The members named beside each state their properties in the
table above.

| function | source | properties stated by |
|---|---|---|
| Normalizer.Normalize | hemogram_api/services/hemogram_processor.py:64-68 | `NormalizeText`, `NormalizeShape`, `NormalizeIdempotent` |
| NumericParser.CleanAndConvert | hemogram_api/services/hemogram_processor.py:73-97 | `CleanAndConvertToFloat`, `DotDecimal`, `DecimalComma`, `ThousandsCommas`, `ThousandsDotsDecimalComma`, `TimesSuffixIgnored`, `OnlyOneTrailingDot`, `NoDigitNoNumber` |
| NumericParser.PyFloat | hemogram_api/services/hemogram_processor.py:95-97 | `DotDecimal`, `OnlyOneTrailingDot`, `DecimalValueIntegerPart`, `TokenParses` |
| NumberScanner.ExtractNumbers | hemogram_api/services/hemogram_processor.py:99-117 | `ExtractNumbersSpec`, `SpansFromLeftmostLongest`, `PlainLineUsesGenericMatches`, `NoDigitNoNumbers` |
| MetricLocator.FindMetricInLine | hemogram_api/services/hemogram_processor.py:144-154 | `FindMetricNone`, `FindMetricLongest`, `FoundNameIsMetric`, `ChcmPreferred` |
| ValueResolver.LineValue | hemogram_api/services/hemogram_processor.py:173-187 | `CandidateLine`, `FirstParsedRightOfSpec` |
| ValueResolver.Lookahead | hemogram_api/services/hemogram_processor.py:164-188 | `LookaheadOver`, `LookaheadNotAKey`, `LookaheadWindow` |
| ValueResolver.StructuredValue | hemogram_api/services/hemogram_processor.py:156-188 | `FindValueInStructuredLayout`, `LookaheadWindow` |
| DocumentExtraction.ScanLine | hemogram_api/services/hemogram_processor.py:232-238 | `ScanPagesConsistent`, `SkippedLineChangesNothing`, `OutlierLeavesMetricOpen` |
| DocumentExtraction.ScanPage | hemogram_api/services/hemogram_processor.py:229-238 | `ScanPageLines`, `ScanPagesConsistent` |
| DocumentExtraction.Dedup | hemogram_api/services/hemogram_processor.py:244-252 | `DedupByName`, `DedupSpec`, `DedupKeepsFirst`, `DedupDistinct` |
| DocumentExtraction.ExtractData | hemogram_api/services/hemogram_processor.py:222-252 | `ExtractDataFromPdf`, `ExtractDataSpec` |
| ResultsTable.Table | hemogram_api/services/hemogram_processor.py:254-286 | `CreateResultsDataframe`, `TableSpec`, `TableStable`, `TableStrictlyOrdered` |
| ResultsTable.ExamTable | hemogram_api/services/hemogram_processor.py:350-360 | `ProcessExamPdf`, `ExamTableSpec` |

## Left out

- Reading the PDF (`fitz.open`, `page.get_text("words")`) is not modelled. A document is given as the word tuples of each page, or as `Unreadable` when opening or reading it raises.
- Any exception in the scan ends in `[]`, and that is all the model keeps of the error handling.
- `display_results_summary` and the `print` calls are left out. They are console output only.
- `upload_to_supabase` and the environment reads of `process_exam_pdf` are left out: network and environment. `ProcessExamPdf` returns the table the source returns, whether or not an upload follows.
- `main.py` (the HTTP API around the engine) is not part of this model.
- `is_numeric_value` is never called and is not modelled.
- Floating point is not modelled: values are exact decimals, and `> 10000` compares them exactly.
- NumericParser.PyFloat: reads digits, an optional sign, at most one `.` and surrounding whitespace. Exponents, `inf`, `nan`, underscores and non-ASCII digits read as not a number.
- Text.LowerChar: Unicode case mapping, `\s`, `\w` and `isspace` are modelled within Latin-1 only.
- ResultsTable.Table: pandas' `sort_values` defaults to an unstable quicksort, but the model sorts stably. `TableStrictlyOrdered` shows that the extracted metrics never tie, so the order is the same.
- ResultsTable.Table: names outside `metric_order` become missing categories, and pandas puts them last. The model gives them a code past every category. Extracted names are always categories (`CanonicalNamesTabulated`).
- ResultsTable.CreateResultsDataframe: the empty result is an empty row list rather than a frame with named columns. The column names and the `Categorical` dtype are not modelled.
- The default arguments of `create_results_dataframe` are not modelled. Only `process_exam_pdf` calls it, and it always passes both values.
- `find_metric_in_line` takes a raw-line argument that it never reads; the model omits that argument.
- The word tuple holds block, line and word numbers, which the engine never reads; the model carries them but never consults them.
