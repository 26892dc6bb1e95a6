# Maturity table calculator — a Dafny model

The calculator works out the payment at maturity of a principal-protected note for a list of scenario returns. It reads a comma-separated list of returns, drops the tokens that are not numbers, and compares each return with a threshold:

- **Protected** (method "Interest"): at or above the threshold, the note pays the principal plus one month of interest.
- **At risk** (method "Buffer"): below the threshold, the note pays the principal adjusted by the return plus the buffer, in percent. A negative payment is set to zero and produces a warning.

The page also counts the protected and at-risk rows and can export the table as CSV. A stand-alone reference script applies the same rule with fixed inputs to a fixed list of seventeen returns.

The model has one Dafny module for each part of the source:

- `Calculator`: table generation, settlement of one return, reading the returns text, and the summary counts (`src/SimpleCalculator.tsx`).
- `CodingSolution`: the reference script (`codingSolution.js`).
- `ExportCsv`: building the CSV text (`src/utils/exportCSV.ts`).
- `Text`: the JavaScript string built-ins the source relies on (`split`, `join`, `trim`, `includes`).
- `NumberParsing`: `parseFloat` on decimal text.
- `Rounding`: printing with four decimals and reading back, the rounding applied to stored payments.
- `Wrappers`: `Option`, which stands for `NaN` ("not a number").
- `Seqs`: a general fact about sequences that the proofs share.

Amounts are exact reals. `Round4` models `toFixed(4)` followed by `parseFloat`:

- It rounds the magnitude to the nearest ten-thousandth, taking the larger value on a tie, and puts the sign back.
- It leaves magnitudes of 10^21 or more unchanged.

A template literal's rendering of a number is a function parameter `show`.

Three behaviours of the code are worth stating on their own:

- **The floor at zero applies only to the at-risk branch** (`src/SimpleCalculator.tsx:49-52`). A protected row pays `principal * (1 + rate/1200)`. The form's input accepts a negative principal. With the default annual rate of 12.2 percent, or any rate above -1200 percent, that payment is then negative (`Calculator.NegativePrincipalPaysNegative`). Exactly the protected rows can pay a negative amount, and they do exactly when the principal and 1 + rate/1200 have opposite signs (`Calculator.NegativePaymentIff`). In particular every payment is non-negative for a non-negative principal and an annual rate of at least -1200 percent (`Calculator.PaymentsNonNegative`).
- **The return -10.01 settles to 999.9.** Its buffer payment is 1000 + 1000 × (-10.01 + 10) / 100, a hundredth of a percent of the principal below 1000 (`codingSolution.js:25-29`, `CodingSolution.JustBelowThreshold`).
- **The reference script uses the returns -110 and -110.1, which the page's default list does not contain.** Its comments state that payments stay non-negative down to -110, and the code agrees: -110 pays exactly 0 with no warning, and everything below it is floored (`CodingSolution.ScriptWarns`, `CodingSolution.FloorBoundary`).

## Model

| member | source | states |
|---|---|---|
| Calculator.Settle | src/SimpleCalculator.tsx:38-53 | The method is Interest exactly when the return is at or above the threshold, and the prediction is Protected exactly when the method is Interest. A protected payment is principal × (1 + annual rate / 1200), independent of the return. An at-risk payment is never negative: it is principal × (100 + return + buffer) / 100 when that is non-negative, and zero when the return is floored. |
| Calculator.ClosedForms | src/SimpleCalculator.tsx:24-45 | The interest payment `principal + principal*(rate/12)/100` equals principal × (1 + rate/1200). The buffer payment `principal + principal*(ret+buffer)/100` equals principal × (100 + ret + buffer) / 100. |
| Calculator.FlooredIff | src/SimpleCalculator.tsx:42-52 | When the floor and warning apply: for a positive principal, exactly when the return is below the threshold and return + buffer < -100. For a zero principal, never. For a negative principal, exactly when the return is below the threshold and return + buffer > -100. |
| Calculator.RowFor | src/SimpleCalculator.tsx:55-60 | A row keeps its return and the method and prediction of its settlement. The stored payment of a protected row is principal × (1 + annual rate / 1200), rounded to four decimals. The stored payment of an unfloored at-risk row is principal × (100 + return + buffer) / 100, rounded to four decimals. A floored row stores zero, and no at-risk row stores a negative amount. |
| Calculator.KeptPositions | src/SimpleCalculator.tsx:25-28 | Each kept number is the value its token reads as. The kept tokens appear at increasing positions, so order is kept. Every token that is not kept reads as `NaN`, so no number is lost and no gap is left. |
| Calculator.KeepNumbersAppend | src/SimpleCalculator.tsx:27-28 | Reading two concatenated token lists gives the two lists of numbers, concatenated. |
| Calculator.ParseReturnsJoin | src/SimpleCalculator.tsx:25-28 | For tokens without commas, reading their comma-joined text gives exactly the numbers those tokens read as. |
| Calculator.KeepNumbersAllRead | src/SimpleCalculator.tsx:28 | When every token reads as a number, the filter keeps all of them, in order. |
| Calculator.KeepNumbers | src/SimpleCalculator.tsx:28 | Dropping the tokens that read as `NaN` never gives more numbers than tokens. |
| Calculator.ParseReturns | src/SimpleCalculator.tsx:25-28 | Reading the returns text gives at most one return per comma-separated piece, so never more returns than commas plus one. |
| Calculator.ReadShownInt | src/SimpleCalculator.tsx:27 | The decimal text of an integer has no comma, and after trimming it reads back as that integer. |
| Calculator.ParseReturnsShown | src/SimpleCalculator.tsx:25-28 | Writing integer returns as comma-separated text and reading that text back gives the same returns. |
| Calculator.ReadPaddedInt | src/SimpleCalculator.tsx:27 | An integer's decimal text after any run of blanks is one token, and it reads as that integer. |
| Calculator.DropMiddle | src/SimpleCalculator.tsx:25-28 | Of three comma-free tokens joined with commas, where the middle one does not read as a number, the returns are exactly the first and last values, in order. |
| Calculator.MixedReturnsRead | src/SimpleCalculator.tsx:25-28 | The text "60, abc, 20" reads as the returns 60 and 20: the word is dropped, and the numbers keep their order. |
| Calculator.Tabulate | src/SimpleCalculator.tsx:33-61 | There is exactly one row per return, in the order of the returns. Row i is the row settled for return i. |
| Calculator.FlooredReturns | src/SimpleCalculator.tsx:49-50 | A return is among the floored returns exactly when it is one of the returns and its payment is floored. There are never more floored returns than returns. |
| Calculator.FlooredReturnsKept | src/SimpleCalculator.tsx:49-50 | The floored returns are what the returns filter keeps. So they follow scenario order, appear once per floored return, and none is missed (with `KeptPositions`). |
| Calculator.WarningText | src/SimpleCalculator.tsx:50 | The warning for a floored return opens with "Payment for ", followed by the rendered return, with 44 characters of fixed text in all. |
| Calculator.GenerateMaturityTable | src/SimpleCalculator.tsx:23-65 | The results are the table of the returns read from the text. The warnings are one message per floored return, in order. There are never more warnings than rows. There are no warnings exactly when no row's return is floored. |
| Calculator.SettleAll | src/SimpleCalculator.tsx:33-61 | The per-return loop builds exactly the table and the warnings for the returns it is given. |
| Calculator.SettleOne | src/SimpleCalculator.tsx:36-53 | One pass of the loop: the method and prediction follow the threshold test; a protected payment is principal × (1 + rate/1200); an at-risk payment is principal × (100 + return + buffer) / 100 unless floored, and then zero. It floors exactly when the return is below the threshold and, for a positive principal, return + buffer < -100; for a negative principal, return + buffer > -100; for a zero principal, never. |
| Calculator.TableStep | src/SimpleCalculator.tsx:33-61 | Each further return adds its own row at the end of the table. It adds a warning exactly when that return is floored. |
| Calculator.NoWarnings | src/SimpleCalculator.tsx:49-50 | There are no floored returns exactly when no row of the table has a floored return. |
| Calculator.SettleMonotone | src/SimpleCalculator.tsx:42-52 | Below the threshold, with a non-negative principal, a larger return never pays less. This holds both before and after rounding. |
| Calculator.PaymentsNonNegative | src/SimpleCalculator.tsx:38-52 | With a non-negative principal and an annual rate of at least -1200 percent, every row's payment is non-negative. |
| Calculator.NegativePaymentIff | src/SimpleCalculator.tsx:38-52 | A settlement is negative exactly when the return is at or above the threshold (a protected row) and the principal and 1 + rate/1200 have opposite signs, one positive and the other negative. A stored payment is negative only under the same condition. |
| Calculator.NegativePrincipalPaysNegative | src/SimpleCalculator.tsx:38-41 | With principal -1000 and the other default settings, return 0 is protected and pays -6061/6. Its stored payment is negative. |
| Calculator.CheckedTable | src/SimpleCalculator.tsx:23-65 | The table is refused exactly when the principal is negative; otherwise it is the page's table. When accepted and the annual rate is at least -1200 percent, every payment is non-negative. |
| Calculator.LabelsDistinct | src/SimpleCalculator.tsx:67-68 | "Protected" occurs in a prediction label exactly when the label is the protected one. "At Risk" occurs exactly when it is the at-risk one. |
| Calculator.MethodMatchesLabel | src/SimpleCalculator.tsx:40-47 | A row's method is Interest exactly when its prediction contains "Protected". |
| Calculator.ProtectedRowsAgree | src/SimpleCalculator.tsx:39 | Any two protected rows of a table have the same payment. |
| Calculator.ProtectedCount | src/SimpleCalculator.tsx:67 | The protected count is at most the number of rows, and it is zero exactly when no row is protected. |
| Calculator.AtRiskCount | src/SimpleCalculator.tsx:68 | The at-risk count is at most the number of rows, and it is zero exactly when no row is at risk. |
| Calculator.CountsPartition | src/SimpleCalculator.tsx:67-68 | The protected count plus the at-risk count is the number of rows. |
| Calculator.CountsOfTable | src/SimpleCalculator.tsx:67-68 | The protected count of a table is the number of returns at or above the threshold. The at-risk count is the remaining returns. |
| CodingSolution.ScriptPayment | codingSolution.js:20-34 | The script's payment is never negative. It is 6061/6 at or above -10. It is 10 × (return + 110) from -110 up to -10. It is 0 below -110. |
| CodingSolution.ScriptWarns | codingSolution.js:30-33 | The script warns for a return exactly when the return is below -110. |
| CodingSolution.ScriptUsesDefaults | codingSolution.js:9-13 | The script's fixed principal, rate, threshold and buffer are the page's default settings. |
| CodingSolution.ScriptAgreesWithCalculator | codingSolution.js:23-33 | For every return, the script's payment equals the page's settlement under the default settings. The script warns exactly when the page floors. |
| CodingSolution.RunScript | codingSolution.js:15-36 | The script prints one line per listed return, in list order, with no filtering. Each line shows the return and the payment the page would store for it. The number of warnings equals the number of floored returns. |
| CodingSolution.ScriptLoop | codingSolution.js:20-36 | The script's loop, for any list of returns, prints the page's stored payment for each return in order and warns once per floored return. |
| CodingSolution.ScriptPass | codingSolution.js:20-34 | One pass of the script's loop settles the script's payment. It warns exactly when the return is below -110. |
| CodingSolution.ScriptMatchesTable | codingSolution.js:20-36 | Return by return, the script's rounded payment is the page's stored payment under the default settings. The script prints one warning per return the page floors. |
| CodingSolution.ProtectedPrinted | codingSolution.js:24 | The protected payment 1010.1666… is printed as 1010.1667. |
| CodingSolution.JustBelowThreshold | codingSolution.js:25-29 | The return -10.01 pays 999.9, printed as 999.9. |
| CodingSolution.WholePrinted | codingSolution.js:25-35 | A whole-number return between -110 and the threshold prints exactly 10 × (return + 110). |
| CodingSolution.FloorBoundary | codingSolution.js:30-33 | -110 pays exactly 0 with no warning. -110.1 and -200 give raw payments of -1 and -900, which are floored with a warning. |
| CodingSolution.PrintedTable | codingSolution.js:15-35 | Return by return, the printed amounts are 1010.1667 seven times, then 999.9, 900, 800, 700, 500, 300, 100, 0, 0 and 0. |
| ExportCsv.Csv | src/utils/exportCSV.ts:2-5 | The exported text starts with the header line. |
| ExportCsv.LineCommaCount | src/utils/exportCSV.ts:4 | A result line has exactly three commas beyond those inside the two rendered numbers, because the method and prediction labels carry none. |
| ExportCsv.EmptyExport | src/utils/exportCSV.ts:2-5 | With no results, the export is exactly the header. |
| ExportCsv.LineFields | src/utils/exportCSV.ts:4 | A result's line splits on commas into exactly four fields: return, payment, method, prediction, in that order, unquoted. |
| ExportCsv.LineCommas | src/utils/exportCSV.ts:4 | Every result line has exactly three commas. |
| ExportCsv.LineSingle | src/utils/exportCSV.ts:4 | A result line contains no line break. |
| ExportCsv.ExportLines | src/utils/exportCSV.ts:2-5 | The export splits on newlines into the header followed by one line per result. So it has one line more than there are results. |
| ExportCsv.NoTrailingNewline | src/utils/exportCSV.ts:5 | The export is non-empty and does not end with a line break. |
| ExportCsv.LineRoundTrip | src/utils/exportCSV.ts:4 | A reader that recovers the row's two numbers from their rendering recovers the whole row from its line. |
| ExportCsv.LinesRoundTrip | src/utils/exportCSV.ts:4 | With a reader that recovers each exported number from its rendering, every result is recovered from the result lines, in order. |
| ExportCsv.ExportRoundTrip | src/utils/exportCSV.ts:2-5 | With a reader that recovers each exported number from its rendering, reading the export back gives exactly the exported results, in order. |
| Text.Split | src/SimpleCalculator.tsx:26 | `split(",")` always gives at least one part, and no part contains the separator. |
| Text.JoinSplit | src/SimpleCalculator.tsx:26 | Joining the parts of a split restores the text, so splitting loses no character. |
| Text.SplitJoin | src/utils/exportCSV.ts:5 | Splitting a join of separator-free parts gives the parts back. |
| Text.SplitCount | src/SimpleCalculator.tsx:26 | A split has one more part than there are separators in the text. |
| Text.JoinCount | src/utils/exportCSV.ts:5 | Joining parts that do not contain the separator puts exactly one separator between each pair of neighbours, and no other. |
| Text.Trim | src/SimpleCalculator.tsx:27 | `trim()` gives a slice with non-blank ends, and only whitespace is cut away on either side. |
| Text.TrimStartCut | src/SimpleCalculator.tsx:27 | Leading trimming removes a prefix, and that prefix is all whitespace. |
| Text.TrimEndCut | src/SimpleCalculator.tsx:27 | Trailing trimming removes a suffix, and that suffix is all whitespace. |
| Text.TrimPadded | src/SimpleCalculator.tsx:27 | Trimming whitespace-padded text with non-blank ends gives exactly that text. |
| Text.ContainsIffOccurs | src/SimpleCalculator.tsx:67-68 | `includes` holds exactly when the text occurs at some offset. |
| Text.Contains | src/SimpleCalculator.tsx:67-68 | `includes` finds the empty text everywhere, and never finds a text longer than the one searched. |
| NumberParsing.ParseFloatFailsIff | src/SimpleCalculator.tsx:27-28 | `parseFloat` gives `NaN` exactly when, after leading blanks and one sign, the text does not begin with a digit, or with a point followed by a digit. |
| NumberParsing.ParseFloatTrimmed | src/SimpleCalculator.tsx:27 | `parseFloat` skips exactly the leading whitespace that `trimStart` removes, then reads the number at the start of the rest. |
| NumberParsing.ParseFloat | src/SimpleCalculator.tsx:27 | Text made only of whitespace, the empty text included, reads as `NaN`. |
| NumberParsing.ParseNegated | src/SimpleCalculator.tsx:27 | A minus sign in front of an unsigned, unpadded token negates the number read, and leaves `NaN` as `NaN`. |
| NumberParsing.ParseShowInt | src/SimpleCalculator.tsx:27 | Reading the decimal text of an integer gives that integer. |
| Rounding.Round4 | src/SimpleCalculator.tsx:57 | The stored payment is within half a ten-thousandth of the computed one. It never has the opposite sign. It has at most four decimals whenever the magnitude is below 10^21. |
| Rounding.Round4Exact | src/SimpleCalculator.tsx:57 | An amount that already has four decimals is stored unchanged. |
| Rounding.Round4Idempotent | src/SimpleCalculator.tsx:57 | Rounding a stored payment again changes nothing. |
| Rounding.Round4Monotone | src/SimpleCalculator.tsx:57 | Rounding never reverses the order of two amounts. |

## Left out

- Rendering, form state and input handlers of the page: these are user interface.
- The Blob and download steps of the CSV export: browser input/output.
- The JSON, DOCX and PDF exporters: templating and browser input/output, with counts that repeat the page's summary.
- The script's console output: the text of the printed lines and of the warning. `RunScript` returns the printed values and the number of warnings instead.
- IEEE-754 double arithmetic: amounts are exact reals, so no rounding happens inside the payment formula. `Round4` rounds the exact value, while `toFixed` rounds the double nearest to it.
- The rendering of a number as text (template literals): it is the parameter `show`. The export assumes it produces no comma and no line break.
- ExportCsv.ExportRoundTrip: assumes a reader that recovers each exported number from its rendering. JavaScript renders every double so that it reads back as itself, but the model does not define that rendering.
- NumberParsing.ParseFloat: reads only the decimal grammar. `Infinity` and `-Infinity` read as `NaN` here, and values beyond the double range are not turned into infinities.
- Calculator.PaymentsNonNegative: assumes a non-negative principal and an annual rate of at least -1200 percent. These bounds are sufficient but not necessary. `Calculator.NegativePaymentIff` gives the exact condition.
- The page's default returns text (`src/SimpleCalculator.tsx:16-18`) is not read back as a whole: that is a computation over one fifteen-token literal, one token of which is a decimal. `ParseReturnsShown` covers comma-separated whole numbers, `MixedReturnsRead` a text with a word among the numbers, and `KeptPositions` any text.

## Findings

| source | as written | input that shows it | evidently intended | confidence | as-written member | corrected member |
|---|---|---|---|---|---|---|
| codingSolution.js:49 | The comment says a negative principal cannot be entered. The principal input at src/SimpleCalculator.tsx:80-85 sets no lower bound, and the floor at zero covers only the at-risk branch (src/SimpleCalculator.tsx:38-52). | Principal -1000 with the default settings: return 0 is protected and pays -1010.1667. | A negative principal is refused, so no payment is negative. | medium, not executed | Calculator.NegativePrincipalPaysNegative | Calculator.CheckedTable |
