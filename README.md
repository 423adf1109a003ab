# Master application fees: a verified model

This project models the core of `master-fees-app/app.py`, a small Streamlit page. The page:

- loads a catalog of master's programmes;
- converts each programme's free-text application fee into euros;
- re-sorts the table by one of six columns;
- lets the user tick programmes and adds up what they would pay: the fees, a GRE/TOEFL score-report surcharge beyond the fourth programme, and the total in euros and in Tunisian dinars.

The model is written in Dafny and follows the program's parts.

| file | module | what it models |
|---|---|---|
| `wrappers.dfy` | `Wrappers` | `Option` and `Result` |
| `text.dfy` | `Text` | The string primitives the program leans on: Python's `str.upper` on ASCII letters and `str.strip` with Python's whitespace set; character removal; substring search; `re.search(r"(\d+)")` (the first run of digits); reading a run of digits as a number. A table cell is `Option<string>`, where `None` is pandas' NaN, which `astype(str)` turns into `"nan"`. |
| `fees.dfy` | `Fees` | `convert_to_eur` and the fixed exchange rates. Rates are exact `real` values. |
| `deadlines.dfy` | `Deadlines` | The deadline sort key. The text is cleaned by removing parentheticals (line by line, greedy), stripping, upper-casing and zero-padding a one-digit day. It is then parsed the way `to_datetime(format="%d %b %Y", errors="coerce")` does and scored with the 2025/2026 year bands. |
| `percentages.dfy` | `Percentages` | The key of the two percentage columns. Only digits and dots are kept, an empty result becomes `0`, and the text is read with `float`, which fails on two dots or no digit. |
| `rankings.dfy` | `Rankings` | The Risk.net key: the first run of digits, or 9999 when there is none. |
| `rows.dfy` | `Rows` | A table row. Loading adds "Frais en EUR", "Sélectionner" = false and the 1-based "Rang HF". The row also receives the selection flags the editor writes back. |
| `sorting.dfy` | `Sorting` | `sort_dataframe`. The sort itself is an in-place insertion sort on an array of (key, row) entries. `SortRows` proves that the result is a permutation of the input and is ordered by the column's key. |
| `totals.dfy` | `Totals` | The totals block: base sum, surcharge, total and TND total. There is no block when nothing is selected. |
| `catalog.dfy` | `Table` | The class `Catalog`: the page's table as state. It covers loading, sorting by the chosen column, and writing back the selection. |

Three behaviours of the code shape the model:

- **Order among equal keys.** `sort_values` uses its default quicksort, which is not stable. So no sort here promises an order among rows with equal keys.
- **Percentage that does not parse.** Sorting by a percentage column whose text is not a number (`"1.2.3"`, `"."`) raises from `astype(float)` (app.py:128). `SortRows` returns `Failure(RateNotANumber)` in that case. `Catalog.Sort` leaves the table as it was and returns `false`.
- **Deadline order.** The deadline key is the composite score of app.py:106-111, with 2025 and 2026 collapsed to the first two year bands.

The date parser accepts only days a pandas nanosecond `Timestamp` can hold, 1677-09-22 to 2262-04-11. This matches pandas 2.x, where such dates become NaT under `errors="coerce"`.

## Model

| member | source | states |
|---|---|---|
| Fees.Rate | master-fees-app/app.py:12-14 | every rate is positive, and only the euro's is 1 |
| Fees.InEuros | master-fees-app/app.py:60-66 | a converted amount is never negative, and is 0 exactly when the amount is 0 |
| Fees.ConvertToEur | master-fees-app/app.py:37-38 | a missing fee (NaN) is worth 0; no fee converts to a negative amount |
| Fees.ConvertCleaned | master-fees-app/app.py:54-56 | a cleaned fee text without any digit is worth 0 |
| Fees.CleanFee | master-fees-app/app.py:41 | the cleaned fee holds no space and no narrow no-break space |
| Fees.DetectCurrency | master-fees-app/app.py:44-51 | pounds exactly when "GBP" or "£" occurs; euros exactly when none of "GBP", "£", "$" and "CHF" occurs |
| Fees.ConvertSplit | master-fees-app/app.py:41-66 | whenever the cleaned fee splits as digit-free text, a digit run and text not starting with a digit, the fee is worth that run's value times the rate of the currency detected in the cleaned text |
| Fees.StripKeeps | master-fees-app/app.py:41 | stripping keeps every non-whitespace character |
| Fees.CleanFeeKeeps | master-fees-app/app.py:41 | cleaning keeps exactly the characters of the fee that are not letters or whitespace (both directions) |
| Fees.CleanFeeDigits | master-fees-app/app.py:41 | the cleaned fee has a digit iff the raw fee has one |
| Fees.ConvertNoDigit | master-fees-app/app.py:54-56 | the digit search finds nothing iff the fee text has no digit, and then the fee is worth 0 |
| Fees.CurrencyPriority | master-fees-app/app.py:44-51 | "£" anywhere in the fee, or "GBP" in its cleaned text, means pounds; otherwise "$" in the fee means dollars; otherwise "CHF" in the cleaned text means francs; otherwise euros |
| Fees.CleanWrittenFee | master-fees-app/app.py:41 | cleaning a fee written "digits, spaces, marker" leaves just the digits and the marker |
| Fees.SpacesRemoved | master-fees-app/app.py:41 | removing spaces joins the digits to the marker |
| Fees.DetectAfterDigits | master-fees-app/app.py:44-51 | the digits in front of a marker do not change the detected currency |
| Fees.ConvertWrittenAmount | master-fees-app/app.py:26-66 | a fee written as digits, optional spaces and a marker is worth the digits' value at the marker's rate |
| Fees.ConvertWrittenFee | master-fees-app/app.py:26-66 | for every whole amount `n` and marker, the written fee converts to `n` at that marker's rate (a round trip through the decimal text) |
| Fees.ConvertDollarExample | master-fees-app/app.py:32 | "90$" is 77.4 euros |
| Fees.ConvertPoundExample | master-fees-app/app.py:32 | "80 GBP" is 92 euros |
| Fees.ConvertEuroExample | master-fees-app/app.py:66 | a bare amount is already in euros |
| Text.FirstDigitRun | master-fees-app/app.py:54 | the search finds nothing iff the text has no digit; otherwise it finds a non-empty run of digits |
| Text.FirstDigitRunSplit | master-fees-app/app.py:54 | in digit-free text, then a run of digits, then text not starting with a digit, the search finds exactly that run (leftmost, longest) |
| Text.ParseShowNat | master-fees-app/app.py:57 | reading the decimal text of a number gives the number back |
| Text.ContainsSkipDigits | master-fees-app/app.py:44-50 | leading digits never create or hide a marker that does not start with a digit (both directions) |
| Text.RemoveAllKeeps | master-fees-app/app.py:41 | `replace(c, "")` removes `c` and keeps every other character |
| Text.StripTrimmed | master-fees-app/app.py:41 | stripping a text that neither starts nor ends with whitespace leaves it as it is |
| Deadlines.LastClose | master-fees-app/app.py:96 | the greedy `.*` ends at the last `)` of the line |
| Deadlines.RemoveParenthetical | master-fees-app/app.py:96 | removing parentheticals never lengthens the text, and a text without `(` is left as it is |
| Deadlines.PadDay | master-fees-app/app.py:100 | a text starting with one digit and a space gets a "0" in front; any other text is left as it is |
| Deadlines.CleanDeadline | master-fees-app/app.py:93-100 | the cleaned deadline holds no lower-case letter |
| Deadlines.DeadlineDate | master-fees-app/app.py:103 | a deadline that parses is a valid calendar day within the Timestamp range |
| Deadlines.RemoveParentheticalGreedy | master-fees-app/app.py:96 | removing a parenthetical takes everything from the first `(` to the last `)` of the line |
| Deadlines.RemoveParentheticalNoClose | master-fees-app/app.py:96 | a text without `)` is left as it is |
| Deadlines.RemoveParentheticalPrefix | master-fees-app/app.py:96 | text before the first `(` is kept unchanged in front of the rest's cleaning |
| Deadlines.ParseDate | master-fees-app/app.py:103 | a parsed deadline is a real calendar day (leap years included) within the Timestamp range |
| Deadlines.ParseDateShape | master-fees-app/app.py:103 | "day month year" (1-2 digits, 3 letters, 4 digits) parses iff the letters name a month in any case and the day exists within the Timestamp range, and then gives that day |
| Deadlines.ParseDayShape | master-fees-app/app.py:103 | a day of one or two digits followed by a non-digit is read, and parsing goes on after it |
| Deadlines.ParseMonthShape | master-fees-app/app.py:103 | after whitespace, the next three characters, upper-cased, are looked up as the month |
| Deadlines.ParseMonthYearShape | master-fees-app/app.py:103 | after the day, " Mon yyyy" parses iff the letters name a month and the date is valid, and then gives that date |
| Deadlines.ParseYearShape | master-fees-app/app.py:103 | after whitespace, exactly four digits end the text and are the year |
| Deadlines.PadDayParse | master-fees-app/app.py:100 | zero-padding a one-digit day never changes the parsed date |
| Deadlines.SameDayParse | master-fees-app/app.py:103 | two day fields with the same value give the same parse |
| Deadlines.DeadlineScore | master-fees-app/app.py:106-108 | the score is +infinity exactly when the deadline does not parse (NaT) |
| Deadlines.YearBand | master-fees-app/app.py:110 | every band is a whole multiple of 10000; for years from 3 on, band 10000 is exactly 2025, band 20000 exactly 2026, and every other year lies above both |
| Deadlines.DateScore | master-fees-app/app.py:109-111 | the score of a valid date lies strictly inside its year's band, so month and day never reach the next band |
| Deadlines.ScoreOrder | master-fees-app/app.py:109-111 | on parsed dates, the score orders exactly as (year band, month, day) |
| Deadlines.ScoreInjective | master-fees-app/app.py:109-111 | two parsed dates with the same score are the same day |
| Deadlines.YearBands | master-fees-app/app.py:110 | 2025 deadlines score below every other year's, and 2026 below every year other than 2025 |
| Deadlines.ScoreCalendar | master-fees-app/app.py:109-111 | within one year, or among years other than 2025 and 2026, the score is calendar order |
| Deadlines.ParseWrittenUpper | master-fees-app/app.py:98-103 | every valid day written as "5 Mar 2025" and upper-cased parses back to itself |
| Deadlines.UpperWritten | master-fees-app/app.py:98 | upper-casing a written deadline changes only its month abbreviation |
| Deadlines.ParseWrittenParts | master-fees-app/app.py:103 | the upper-cased day, month and year of a valid date parse as that date |
| Deadlines.ScoreWrittenDeadline | master-fees-app/app.py:93-111 | a deadline written "d Mon yyyy" scores its date's score |
| Deadlines.ScoreAnnotatedDeadline | master-fees-app/app.py:96-111 | a deadline followed by a note such as " (estimée)" scores as the bare deadline |
| Deadlines.ScoreExample | master-fees-app/app.py:93-111 | "5 Mar 2025" scores 10305 |
| Percentages.CleanRate | master-fees-app/app.py:126 | the cleaned text holds only digits and dots |
| Percentages.RateKey | master-fees-app/app.py:123-128 | a percentage read from a cell is never negative, and a missing cell ("nan") reads as 0 |
| Percentages.DecimalValue | master-fees-app/app.py:128 | the value of digits with at most one dot is never negative |
| Percentages.ParseRate | master-fees-app/app.py:127-128 | empty text reads as 0; reading fails iff the text has two dots or more, or no digit; a value read is never negative |
| Percentages.RateWrittenWhole | master-fees-app/app.py:123-128 | a whole number surrounded by text without digits or dots (e.g. "68%") reads as that number |
| Percentages.RateWithoutNumber | master-fees-app/app.py:126-127 | a cell with no digit and no dot reads as 0 |
| Percentages.DecimalSplit | master-fees-app/app.py:128 | digits, one dot and digits read as the whole part plus the fraction over the matching power of ten |
| Percentages.RateDecimalExample | master-fees-app/app.py:123-128 | "12.5%" reads as 12.5 |
| Percentages.RateFailureExample | master-fees-app/app.py:128 | "1.2.3" does not read as a number |
| Rankings.RankKey | master-fees-app/app.py:135-138 | a cell without a digit gets rank 9999 |
| Rankings.RankWritten | master-fees-app/app.py:136 | a rank written inside other text is read back as written |
| Rankings.MissingRank | master-fees-app/app.py:136-138 | a missing cell gets rank 9999 |
| Rows.LoadRows | master-fees-app/app.py:69-72 | loading keeps every row of the file, in file order, and annotates row i with rank i + 1 |
| Rows.LoadRow | master-fees-app/app.py:69-72 | an annotated row keeps its cells, has its fee converted, its rank set, and is not ticked |
| Rows.WithSelection | master-fees-app/app.py:184 | each row takes the editor's flag at its position; nothing else changes |
| Sorting.SortRows | master-fees-app/app.py:77-139 | "Rang HF" returns the rows unchanged; a percentage column fails iff one of its cells does not read as a number; otherwise the result is a permutation of the rows, ordered by the column's key |
| Sorting.SortKey | master-fees-app/app.py:88-139 | a row's key is "last" exactly when the column is the deadline and the deadline does not parse (NaT) |
| Sorting.InsertionSort | master-fees-app/app.py:114 | after the sort, the entries are in key order and are a permutation of the entries before it |
| Sorting.Insert | master-fees-app/app.py:114 | one insertion step makes the prefix one entry longer sorted, permutes only that prefix, and leaves the entries after it in place |
| Sorting.UnkeyedPermutation | master-fees-app/app.py:114 | permuting keyed entries permutes their rows |
| Sorting.FeeOrder | master-fees-app/app.py:118-119 | sorted by fee means sorted by euro fee, largest first (both directions) |
| Sorting.RateOrder | master-fees-app/app.py:121-130 | sorted by a percentage column means largest percentage first (both directions) |
| Sorting.RiskOrder | master-fees-app/app.py:132-139 | sorted by Risk.net means smallest rank first (both directions) |
| Sorting.UnrankedLast | master-fees-app/app.py:138 | a row without a Risk.net rank comes after every ranked row below 9999 |
| Sorting.UnparsedDeadlinesLast | master-fees-app/app.py:107-114 | a deadline that does not parse comes after every deadline that does |
| Sorting.DeadlineOrder | master-fees-app/app.py:109-114 | parsed deadlines come in (year band, month, day) order: 2025 first, then 2026, then other years |
| Totals.Selected | master-fees-app/app.py:185 | the selection is no longer than the table and holds only ticked rows; it is the whole table when all are ticked and empty when none is |
| Totals.SelectedMembers | master-fees-app/app.py:185 | the selection holds exactly the ticked rows |
| Totals.RemoveAt | master-fees-app/app.py:185 | taking a row out of the table takes it out of the selection, if it was ticked |
| Totals.RemoveAtSum | master-fees-app/app.py:191 | taking a row out of the table takes its fee out of the base sum, if it was ticked |
| Totals.Surcharge | master-fees-app/app.py:194 | the surcharge is never negative, and is 0 exactly when at most four programmes are selected |
| Totals.SurchargeStep | master-fees-app/app.py:194 | each programme beyond the fourth adds 60 dollars, 51.6 euros |
| Totals.ComputeTotals | master-fees-app/app.py:190-196 | no totals iff nothing is ticked; otherwise the count of ticked rows, base = their euro sum, surcharge = the surcharge for that count, total = base + surcharge, dinars = total * 3.5, and no surcharge iff at most four are ticked |
| Totals.TotalsNonNegative | master-fees-app/app.py:190-196 | for loaded rows, the base is never negative, the total is at least the base and the dinar total is never negative |
| Totals.SumEur | master-fees-app/app.py:191 | a sum of non-negative fees is never negative |
| Totals.InTnd | master-fees-app/app.py:196 | the dinar amount has the sign of the euro amount and is 0 exactly when it is 0 |
| Totals.SumEurNonNegative | master-fees-app/app.py:191 | the base fee of converted rows is never negative |
| Totals.SelectionPermutation | master-fees-app/app.py:185-191 | reordering the table changes neither the selection (as a multiset) nor its sum |
| Totals.TotalsPermutation | master-fees-app/app.py:190-196 | the totals do not depend on the order of the table, so sorting never changes them |
| Totals.SelectOneMore | master-fees-app/app.py:190-195 | ticking one more programme adds its euro fee, plus 51.6 euros once four are already ticked |
| Totals.ThreeProgrammesExample | master-fees-app/app.py:190-196 | fees 10, 20 and 30: no surcharge, total 60 euros, 210 dinars |
| Totals.SixFreeProgrammesExample | master-fees-app/app.py:194-195 | six free programmes: total (6 - 4) * 60 * 0.86 = 103.2 euros |
| Table.Catalog.Load | master-fees-app/app.py:69-72 | the table is the loaded rows, and every euro fee is its row's conversion |
| Table.Catalog.Sort | master-fees-app/app.py:160 | the table is re-sorted as `SortRows` says, or left as it was on failure; the conversions still hold and the totals are unchanged |
| Table.Catalog.SetSelection | master-fees-app/app.py:184 | the table takes the editor's flags, and nothing else changes |
| Table.Catalog.Totals | master-fees-app/app.py:185-196 | no totals iff no row is ticked; otherwise the count and euro sum of the ticked rows, the surcharge for that count, total = base + surcharge, dinars = total * 3.5; for a consistent table the base and dinars are non-negative and the total is at least the base |

## Left out

- Reading `masters.csv` (app.py:21) is left out. The model takes the rows as given. Every cell is text or missing. A cell pandas reads as a number (e.g. `12.0`) is not modelled as such; the model reads its `str` text.
- The Streamlit page is left out: title, selector widget, compact-mode toggle, table editor, captions, Excel export and Altair chart. They display or export and compute nothing the totals depend on.
- The detection of the name and university columns (app.py:163-164) is left out. It only chooses what is displayed.
- Number formatting (`:,.2f`) is left out. It is display only.
- The numbers are exact. Fees, rates and totals are exact rationals, not binary floating point. Rounding in `float` products and sums is not modelled, and neither are `float()` of very long digit runs and `inf` for huge numbers.
- Only ASCII digits count, and upper-casing changes only `a`-`z`. Python's `\d`, `str.isdigit` and `str.upper` also act on other Unicode digits and letters (e.g. `ß` becomes `SS`).
- Month names are the English abbreviations; the `%b` locale is taken to be English.
- Rows with equal keys: the order `sort_values` gives them is not modelled, because it is not stable. The model proves only sortedness and permutation.
- Streamlit reruns the whole script on each interaction, reloading the file each time. The selection survives in the editor's widget state. `Catalog` models one table whose state carries across calls instead.
- Table.Catalog.Sort: sorts the table as it currently stands, not a freshly loaded copy. On the page, "Rang HF" always shows the file order because the file is re-read on every run (app.py:21, 69-72). In the model, `Sort(Fee)` followed by `Sort(RankHF)` keeps the fee order. Other columns give the same key order either way, though rows with equal keys may come out in a different order.
- Sorting.SortRows: when a percentage does not read as a number, the program stops with an exception. The model returns a failure and leaves the table as it was.
