# BMI checker — a Dafny model

This project models the patient BMI form of `script.js`, the browser script
behind a one-page BMI checker. The page has three input fields: patient
name, weight in kilograms and height in centimetres. On every input, change
or blur event the script does three things:

- it rewrites the two measurement fields into a canonical numeric form;
- it checks the three fields, showing an error text under each one that fails;
- it redraws a result panel with the BMI rounded to one decimal, its
  category (Underweight, Normal weight, Overweight, Obese) and a line of
  advice.

Three buttons use the validated values. One shares a six-line summary, one
copies "name | BMI" to the clipboard and one downloads a two-row CSV file.

The model is split by concern:

- `Wrappers`: the `Option` type.
- `JsString`: the JavaScript string operations the script relies on:
  - `trim` with the ECMAScript whitespace set;
  - `replace` with a string pattern, which replaces only the first occurrence;
  - `split` and `join`;
  - the character filter done by a global regular-expression replace.
- `NumberText`:
  - `sanitizeNumberInput` (`Sanitize`), with an independent description of its result (`Normalized`);
  - `parseFloat` on sanitised text, as exact decimal parsing into `real`;
  - `toFixed(1)` and `Number(x.toFixed(1))` for non-negative values.
- `Bmi`: the BMI formula over `real`, the rounding that is shown and classified, and the four-band table of `getCategory`.
- `Validation`:
  - the decisions of `validateInputs` as functions of the three field texts (`Check`, `ErrorsOf`);
  - `ValidateFields`, the step-by-step procedure with its running `ok` flag, proved to compute exactly those functions.
- `Export`: the three payloads (the CSV text, the share summary and the copy text) and the status messages. It also holds two reference readers used only to state round trips:
  - an RFC 4180 reader for quoted CSV fields (quoted fields, rules 5-7 of section 2, with line-feed row separators);
  - a reader for the copy text.
- `Presenter`: the page state as a class `BmiForm`:
  - input texts, error texts, the result panel and the status line;
  - the handlers as methods with `modifies this`: `validateInputs`, `updateBMI`, an edit event, `shareResult`, `copyNameAndBMI` and `exportCSV`;
  - the invariant `Consistent()`, which holds between events: the fields are sanitised, the errors are those of the fields, and the panel is drawn from the fields' validation result. Every handler keeps it, and an edit event restores it whatever the state was before.

The code decides differently from what its error texts say. The weight
message advertises "1–500 kg" and the height message "50–250 cm". The
conditions at script.js:54 and script.js:60 accept any weight in (0, 500]
and any height in (0, 250]. The model follows the conditions: `Validation.TenthsBelowOneAccepted` shows that "0.5" passes both
checks.

## Model

| member | source | states |
|---|---|---|
| JsString.Trim | script.js:22 | `trim` never lengthens its input, and neither end of its result is whitespace |
| JsString.TrimStartSpec | script.js:22 | The start of `trim` removes exactly the leading run of whitespace: the result is a suffix, every dropped character is whitespace, and the result does not begin with whitespace |
| JsString.TrimEndSpec | script.js:22 | The end of `trim` removes exactly the trailing run of whitespace: the result is a prefix, every dropped character is whitespace, and the result does not end with whitespace |
| JsString.TrimSlice | script.js:35 | `trim` keeps one contiguous slice of its input, and everything outside the slice is whitespace |
| JsString.TrimEmptyIff | script.js:35 | The trimmed text is empty exactly when every character is whitespace |
| JsString.TrimIdempotent | script.js:22 | Trimming twice is trimming once |
| JsString.TrimNoWhitespace | script.js:22 | A text with no whitespace is unchanged by `trim` |
| JsString.Filter | script.js:23 | The regular-expression delete never lengthens the text |
| JsString.FilterKeeps | script.js:23 | The regular-expression delete keeps only characters of the kept class and never lengthens the text |
| JsString.FilterConcat | script.js:23 | Filtering distributes over concatenation |
| JsString.FilterAll | script.js:23 | Filtering a text whose characters are all kept returns it unchanged |
| JsString.FilterNone | script.js:23 | Filtering a text with no kept character returns the empty text |
| JsString.DigitsTrim | script.js:22 | Trimming removes no digit |
| JsString.ReplaceFirst | script.js:22 | `replace(",", ".")` keeps the length of the text |
| JsString.ReplaceFirstSpec | script.js:22 | `replace(",", ".")` with a string pattern changes only the first comma and leaves every other character as it was |
| JsString.ReplaceFirstAbsent | script.js:22 | With no comma present, the replace changes nothing |
| JsString.ReplaceFirstPrefix | script.js:22 | The replace passes over a comma-free prefix and acts on the rest |
| JsString.Split | script.js:24 | `split` yields one more piece than there are separators |
| JsString.SplitSpec | script.js:24 | No piece of a `split` contains the separator, and joining the pieces with the separator gives the text back |
| JsString.JoinEnds | script.js:26 | `join` gives a text that starts with the first piece and ends with the last |
| JsString.SplitAfter | script.js:24 | The first piece of a split is everything before the first separator |
| JsString.JoinSplitEmpty | script.js:26 | `split` followed by `join("")` deletes every separator |
| JsString.CountZeroIff | script.js:25 | A character occurs zero times exactly when it is absent |
| JsString.FirstWhereAt | script.js:24-26 | The first index satisfying a test is the one before which nothing satisfies it |
| NumberText.Sanitize | script.js:20-29 | `sanitizeNumberInput` always gives the result described independently by `Normalized`. The input is trimmed and the first separator (comma or point) becomes the only point. Only the digits before it and the digits after it are kept, in order |
| NumberText.SanitizeIsNumeric | script.js:20-29 | The sanitiser's output holds only `0-9` and `.`, with at most one `.` |
| NumberText.SanitizeKeepsDigits | script.js:20-29 | The digit subsequence of the output equals that of the input: no digit is lost, added or reordered |
| NumberText.SanitizePointIff | script.js:22-27 | The output holds a point exactly when the trimmed input holds a comma or a point |
| NumberText.SanitizeFixesNumeric | script.js:20-29 | Text that is already digits with at most one point is left as it is |
| NumberText.SanitizeIdempotent | script.js:20-29 | Sanitising twice is sanitising once |
| NumberText.SanitizeDigitsComma | script.js:22-27 | After a run of digits, a comma becomes the point and only the digits of what follows remain |
| NumberText.CommaBecomesPoint | script.js:22 | "a,b" with digit runs a and b becomes "a.b", so "1,5" gives "1.5" |
| NumberText.LaterCommaDeleted | script.js:22-27 | Only the first comma becomes a point and a later one is deleted: "a,b,c" becomes "a.bc", so "1,2,3" gives "1.23" |
| NumberText.FoldAfterFirstPoint | script.js:24-27 | Folding keeps the first point and deletes every later one |
| NumberText.FoldWithoutPoint | script.js:24-27 | Without a point, folding changes nothing |
| NumberText.NumericShape | script.js:36-37 | Numeric text is a digit run, or two digit runs around its single point |
| NumberText.ParseNoneIff | script.js:36-37 | `parseFloat` of sanitised text is NaN (`None`) exactly when the text has no digit, as with "" and "." |
| NumberText.ParseDecimal | script.js:36-37 | `parseFloat` of sanitised text, read as whole digits, a point and fraction digits, is never negative |
| NumberText.ParseNatText | script.js:36-37 | The decimal text of a whole number parses back to that number |
| NumberText.ParseTenthsText | script.js:36-37 | The text "q.d" of a number of tenths parses back to that number over ten |
| NumberText.RoundTenth | script.js:120 | `Number(x.toFixed(1))` is non-negative and within half a tenth of x |
| NumberText.RoundTenthIdempotent | script.js:120 | Rounding to one decimal twice is rounding once |
| NumberText.RoundTenthMonotone | script.js:120 | Rounding to one decimal preserves order |
| NumberText.ToFixed1 | script.js:120-122 | `x.toFixed(1)` ends in a point and exactly one digit |
| NumberText.ParseToFixed1 | script.js:120-122 | The text `x.toFixed(1)` is numeric and parses back to the rounded value |
| NumberText.ToFixed1OfRounded | script.js:120-122 | Formatting the rounded BMI shows the same text as formatting the raw BMI |
| Bmi.BmiOf | script.js:118-119 | The BMI is weight over squared height in metres: multiplying back by the squared height gives the weight |
| Bmi.BmiPositive | script.js:118-119 | A positive weight and height give a positive BMI |
| Bmi.BmiGrowsWithWeight | script.js:118-119 | At a fixed height, more weight never gives a lower BMI |
| Bmi.RoundedBmi | script.js:120 | The shown, classified BMI is non-negative |
| Bmi.Classify | script.js:69-99 | `getCategory` returns the category whose half-open band holds the value |
| Bmi.ClassifyIsBand | script.js:69-99 | `getCategory` returns a category exactly when the value lies in that category's half-open band: < 18.5, [18.5, 25), [25, 30), >= 30. So the bands cover the reals and do not overlap |
| Bmi.ClassifyMonotone | script.js:69-99 | The band index never decreases as the BMI grows |
| Bmi.CutsGoToHigherBand | script.js:70-84 | 18.5, 25 and 30 each fall in the band above them |
| Bmi.LabelsDistinct | script.js:72-93 | Different categories carry different labels |
| Bmi.RoundingChangesCategoryOnlyBelowCut | script.js:120-124 | Classifying the rounded value differs from classifying the raw value only within 0.05 below a cut point |
| Bmi.RoundingCanRaiseCategory | script.js:120-124 | A raw BMI of 18.46 is Underweight, but it is shown and classified as 18.5, Normal weight |
| Bmi.Scenario70At170 | script.js:117-124 | 70 kg at 170 cm gives 24.2, Normal weight |
| Bmi.Scenario45At170 | script.js:117-124 | 45 kg at 170 cm gives 15.6, Underweight |
| Bmi.Scenario95At170 | script.js:117-124 | 95 kg at 170 cm gives 32.9, Obese |
| Validation.ParseField | script.js:32-37 | A measurement field yields no number exactly when no digit was typed in it, and never yields a negative number |
| Validation.Check | script.js:31-67 | A record is returned exactly when the trimmed name is non-empty and both measurements parse into range. The record holds the trimmed non-empty name and the parsed weight and height, with 0 < weight <= 500 and 0 < height <= 250 |
| Validation.ValidateFields | script.js:31-67 | The steps of `validateInputs`: it rewrites both measurement texts to their sanitised form, clears the messages, and runs the three checks with the running `ok` flag. It returns exactly `Check`'s record and `ErrorsOf`'s three messages |
| Validation.CheckIffNoErrors | script.js:46-66 | A record is returned exactly when no error message is set |
| Validation.ErrorsOf | script.js:39-64 | Each message is set exactly when its own field fails, whatever the other two fields hold, so a passing field never keeps a stale message |
| Validation.BlankNameRejected | script.js:35-52 | A name of whitespace only is rejected like an empty one |
| Validation.ParseFieldSanitized | script.js:32-37 | Parsing a field is unaffected by sanitising it first |
| Validation.CheckSanitized | script.js:32-37 | Validating the rewritten fields again decides the same and leaves them as they are |
| Validation.WholeWeightAcceptedIff | script.js:54 | A whole-number weight passes exactly when it is 1 to 500, so 500 passes and 0 fails |
| Validation.WholeHeightAcceptedIff | script.js:60 | A whole-number height passes exactly when it is 1 to 250, so 250 passes and 0 fails |
| Validation.NoDigitRejected | script.js:54-60 | A field without a digit, such as "" or ".", fails its check |
| Validation.TenthsBelowOneAccepted | script.js:54-61 | "0.1" to "0.9" pass both measurement checks, although the messages advertise 1–500 kg and 50–250 cm |
| Export.Escape | script.js:217 | Doubling the quotes lengthens a field by its number of quotes |
| Export.QuoteField | script.js:217-218 | A written field is as long as the field plus its number of quotes plus two, and starts and ends with a quote |
| Export.QuoteAll | script.js:214-219 | Every field of a row is quoted, one for one |
| Export.CsvLines | script.js:213-221 | One written line per row, each the row's quoted fields joined by commas |
| Export.ExportRows | script.js:208-211 | The export has two rows of five fields |
| Export.ReadQuotedEscape | script.js:217-218 | Unquoting under RFC 4180 recovers the field from its escaped body and closing quote |
| Export.ReadFieldQuoted | script.js:217-218 | A quoted field reads back as the original text, whatever it holds |
| Export.ReadFieldsLine | script.js:214-220 | A written row reads back as its fields |
| Export.ReadRowsCsv | script.js:213-222 | Reading the CSV text gives back exactly the rows written |
| Export.ExportCsvReadsBack | script.js:208-222 | The exported CSV reads back as the header row and the five values, whatever the values contain |
| Export.SplitJoin | script.js:222 | Lines joined by a line feed split back into the lines when none holds one |
| Export.CsvSplitsIntoRows | script.js:213-222 | When no field holds a line feed, the CSV text splits at line feeds into exactly its rows |
| Export.ExportCsv | script.js:208-222 | The exported file starts with the header line and ends with the patient's line |
| Export.DisclaimerOneLine | script.js:157 | The closing note of the summary is one line |
| Export.Summary | script.js:151-157 | The summary starts with the patient line and ends with the disclaimer |
| Export.SummaryHasSixLines | script.js:151-157 | The summary splits at line feeds into exactly its six lines when no value holds a line feed |
| Export.CopyText | script.js:183 | The copied text holds the name right after the leading label and ends with the BMI text |
| Export.ReadCopyTextBack | script.js:183 | The copied text gives back the name and the BMI text, whatever the name holds, when the BMI text is numeric |
| Export.ShareStatusesDistinct | script.js:159-171 | Each share outcome leaves its own status message |
| Export.CopyStatusesDistinct | script.js:185-194 | Each clipboard outcome leaves its own status message |
| Presenter.PanelFor | script.js:101-137 | The result box is shown, and the share, copy and export buttons are enabled, exactly when validation returned a record |
| Presenter.PlaceholderIffInvalid | script.js:104-122 | The BMI text is "--" exactly when validation failed |
| Presenter.ShownCategoryMatchesShownNumber | script.js:120-131 | The category on screen is the category of the number on screen, and that number is the raw BMI to within half a tenth |
| Presenter.SamplePage | script.js:246-249 | The sample values the page loads with (John Doe, 70, 170) form a valid record shown as 24.2, Normal weight |
| Presenter.CopiedTextReadsBack | script.js:180-183 | For a valid record, the copied text reads back as the record's name and the BMI on screen, which is the record's rounded BMI |
| Presenter.BmiForm.constructor | script.js:246-249 | The page as loaded holds the sample values, shows 24.2 and Normal weight, has an empty status and is consistent |
| Presenter.BmiForm.Validate | script.js:31-67 | Both measurement fields now hold the sanitised form of their old text and the name field is unchanged. Each error text is that of its own check, and the record returned is `Check` of the old texts. The panel and the status are unchanged |
| Presenter.BmiForm.UpdateBmi | script.js:101-138 | After validating, the panel is drawn from the result: "--" exactly when validation failed, and the box shown and the buttons enabled exactly when it succeeded. The status is cleared and the state is consistent, whatever it was before |
| Presenter.BmiForm.Edit | script.js:236-240 | An input event on one field puts the new text there and leaves the form consistent, with the edited field sanitised |
| Presenter.BmiForm.Share | script.js:140-172 | With invalid fields only the share guard message is set and no summary is built. Otherwise the summary holds the record and the panel's BMI and category, and the status reports the share outcome. The panel is untouched, so from a consistent state it is the panel drawn from the fields' validation result, and consistency is kept |
| Presenter.BmiForm.CopyNameAndBmi | script.js:174-195 | With invalid fields only the copy guard message is set and no text is built. Otherwise the text is the record's name and the BMI on screen, and the status reports the clipboard outcome. The panel is untouched, so from a consistent state it is the panel drawn from the fields' validation result, and consistency is kept |
| Presenter.BmiForm.ExportCsvFile | script.js:197-234 | With invalid fields only the export guard message is set and no CSV is built. Otherwise the CSV holds the header and the record's values with the panel's BMI and category, and the status says the file was downloaded. The panel is untouched, so from a consistent state it is the panel drawn from the fields' validation result, and consistency is kept |

## Left out

- The DOM lookups, the `error` class toggling on the inputs, event-listener registration and the `innerHTML` of the category pill (script.js:2-18, 42-44, 50-62, 125-130, 236-244) are not modelled. The page is a record of texts and flags. The pill is reduced to its trimmed text, the category label, which is what the share and export actions read.
- `Presenter.BmiForm.Edit` stands for the `input`, `change` and `blur` listeners together: the edited text lands in its field, then `updateBMI` runs. Browser event order is not modelled.
- `navigator.share` and `navigator.clipboard.writeText` (script.js:159-171, 185-194) are asynchronous platform calls. Their result is a parameter `Outcome` (done, unsupported, failed) that selects the status text. The share title "Patient BMI Result" is not modelled, and the payload the call would receive is returned instead.
- The Blob, object URL and anchor download of `exportCSV` (script.js:224-232) are file I/O. `Presenter.BmiForm.ExportCsvFile` returns the CSV text, and the file name "patient_bmi.csv" is not modelled.
- The two handlers are `async`. The model runs each handler to completion, with no other event in between.
- The `typeof raw !== "string"` branch of the sanitiser (script.js:21) is not modelled: every field value is a string in the model.
- `NumberText.ParseDecimal`: models `parseFloat` only on text the sanitiser produced (digits and at most one point), which is the only text the script passes to it. Signs, exponents, leading junk and "Infinity" are not modelled.
- `NumberText.RoundTenth`: rounds exact reals half up at the first decimal. The binary floating-point tie artefacts of `toFixed` (for example 1.005) are not modelled.
- `NumberText.ToFixed1`: formats exact reals in positional notation. JavaScript's `toFixed` switches to exponent notation (such as "1e+21") for values of 1e21 and above. The BMI can reach that value, because the height check has no positive lower bound: a weight of 500 with a height below about 7e-8 cm passes validation. The shown BMI text for such inputs is not modelled.
- `NumberText.ParseToFixed1`: holds for the positional text of the model, not for the page's exponent text of a BMI of 1e21 or more.
- `Presenter.ShownCategoryMatchesShownNumber`: for a BMI of 1e21 or more, the number on the page is exponent text, which the model's `parseFloat` of sanitised text does not cover.
- `Presenter.CopiedTextReadsBack`: for a BMI of 1e21 or more, the page copies exponent text, which the copy-text reader would not read back.
- `Presenter.PlaceholderIffInvalid`: is proved about the positional text. It holds on the page for a BMI of 1e21 or more as well, because the exponent text is not "--" either.
- `Bmi.BmiOf`: exact real division. Floating-point rounding of the quotient is not modelled.
- The status texts of the share and copy outcomes are modelled as constants. The only property proved about them is that different outcomes give different texts.

The CSV reader, the copy-text reader and `Normalized` are not part of the script. They are reference definitions, and the round trips above are stated against them.
