# kraken2rfb in Dafny

kraken2rfb builds the monthly crypto-asset declaration that Brazil's tax
authority requires. It fetches one month of deposits, withdrawals and
trades from the Kraken exchange, turns them into declaration records, and
writes each record as a `|`-delimited, CRLF-terminated row. The
records are transfers to an exchange (code 0410), withdrawals from an
exchange (0510), purchases (0110) and sales (0120); amounts are converted to
Brazilian reais (BRL).

This project models that core in Dafny and proves properties of it. The
modules follow the program's files:

- `Calendar` (`calendar.dfy`) is the part of the date library the program
  relies on. It covers validated year/month/day construction, the day
  before and after a date, day numbers since 1970-01-01 and the day that
  holds a Unix second. The year range is that of the date library.
- `Encoding` (`encoding.dfy`) covers `src/report/encoding.rs`. Each field
  kind renders under its own rule: DDMMYYYY dates, decimals with a comma
  and a fixed number of places (ties round to even), text verbatim and
  empty fields as nothing. A row is its fields joined by `|` and ended by
  CRLF. The framing lemmas show when a row splits back into its fields.
- `Transactions` (`transactions.dfy`) covers `src/report/transactions.rs`.
  It holds the seven record variants, their (code, category) pairs and the
  ordered field list each variant writes.
- `Kraken` (`kraken.dfy`) covers the pure parts of `src/kraken.rs`:
  `is_fiat`, `get_timestamp`, the time-window filters and the stable sorts
  by time. The three HTTP answers are parameters.
- `Report` (`report.dfy`) covers `src/report/mod.rs`. `parse_trading_pair`
  runs its search over the fiat codes as a `while` loop, proved equal to a
  recursive definition. Each entry is classified into at most one record,
  or into the reason the program would panic. `ProcessKrakenData` runs the
  three classification loops and is proved equal to the `Classification`
  function.
- `Program` (`program.dfy`) covers `src/main.rs`. It has the argument check
  and the `i32`/`u32` parses, the month's first and last day, and the
  `brl_spent_in_purchases` loop. A whole run is composed from the pieces
  above.

The model follows these conventions:

- A decimal is a Dafny `real`.
- A panic is an `Err` carrying the reason (`Report.Abort`, `Program.Failure`).
- The exchange-rate service is a function parameter
  `Report.RateLookup = (Date, string) -> Option<(Date, real)>`.
  `None` stands for the service failing.

## Model

| member | source | states |
|---|---|---|
| Calendar.DaysInMonth | src/main.rs:43-51 | a month has 28 to 31 days, and 29 exactly for February of a leap year |
| Calendar.FromYmd | src/main.rs:42 | `from_ymd_opt` succeeds exactly for a real calendar day in the supported year range, and then yields that date |
| Calendar.Pred | src/main.rs:50 | the day before a valid date is a valid date |
| Calendar.PredSuccInverse | src/main.rs:50 | the day before and the day after are inverse to each other |
| Calendar.SuccCountsOneDay | src/main.rs:43-51 | the following day has the next day number, including across month and year ends |
| Calendar.MonthsFillYear | src/main.rs:43-51 | the twelve months add up to the length of the year |
| Calendar.FromDayNumber | src/report/mod.rs:41-43 | every day count since 1970-01-01 names a valid date with that day number |
| Calendar.FromTimestamp | src/report/mod.rs:41-43 | `from_timestamp(..).date_naive()` yields the in-range valid day whose midnight is at or before the second and less than a day before it; otherwise it is None |
| Calendar.DayInItsYear | src/main.rs:42-51 | a date's day number lies within its year's span |
| Calendar.DayInMonthSpan | src/main.rs:42-51 | a date lies between the first and last day of a month exactly when it is in that month |
| Calendar.EpochYearsNonNegative | src/kraken.rs:29-31 | January 1st of any year from 1970 on has a non-negative day number |
| Encoding.DigitsOf | src/report/encoding.rs:41 | the numeral of a natural number is a non-empty string of digits |
| Encoding.DigitsRoundTrip | src/report/encoding.rs:41 | a numeral reads back as the number it was made from |
| Encoding.ZeroPadValue | src/report/encoding.rs:41 | zero-padding a numeral to a width keeps its value |
| Encoding.PaddedNumeral | src/report/encoding.rs:41 | a number below 10^w padded to width w is exactly w digits that read back as the number |
| Encoding.PadInt | src/report/encoding.rs:41 | `{:0w}`: the digits of a non-negative number zero-padded to width w, or '-' and the digits of its magnitude padded to w - 1; `PaddedNumeral` and `PadIntNoDelimiter` give its meaning |
| Encoding.RoundHalfEven | src/report/encoding.rs:46 | `round_dp` rounds to the nearest integer at most half away, and a tie goes to the even neighbour |
| Encoding.Scaled | src/report/encoding.rs:46 | a decimal rounded to p places is the nearest count of 10^-p units, ties going to even |
| Encoding.RenderDecimal | src/report/encoding.rs:43-49 | the value rounded to p places (ties to even) written with a ',' before the last p digits and a '-' when negative; `RenderDecimalShape` and `RenderDecimalRoundTrip` give its meaning |
| Encoding.RenderDecimalShape | src/report/encoding.rs:43-49 | a rendered decimal has a ',' exactly when p > 0, followed by exactly p digits; before it, at least one digit after an optional leading '-'; no delimiter anywhere |
| Encoding.RenderDecimalRoundTrip | src/report/encoding.rs:43-49 | a rendered decimal reads back as the value rounded to p places, which is within half a unit of the value |
| Encoding.FieldFromText | src/report/encoding.rs:15-28 | text becomes an alphanumeric field exactly when it has no '\|'; otherwise it is the delimiter error |
| Encoding.RenderDate | src/report/encoding.rs:39-42 | day and month padded to two digits, then the year padded to four; `RenderDateFields` and `DateExample` give its meaning |
| Encoding.RenderDateFields | src/report/encoding.rs:39-42 | a date in years 0..9999 renders as eight digits that read back as day, month and year |
| Encoding.PadIntNoDelimiter | src/report/encoding.rs:41 | a padded integer never holds the delimiter |
| Encoding.Render | src/report/encoding.rs:36-60 | the `Display` of a field: a date as DDMMYYYY, a decimal at its places, text verbatim and Empty as nothing; `RenderedDelimiterComesFromText` gives where a delimiter can come from |
| Encoding.RenderedDelimiterComesFromText | src/report/encoding.rs:36-60 | only an alphanumeric field whose text holds '\|' renders with a '\|'; text renders verbatim and Empty as "" |
| Encoding.Rendered | src/report/encoding.rs:88 | each field of a row renders in place |
| Encoding.RegisterRow | src/report/encoding.rs:86-90 | every written row ends in CRLF |
| Encoding.Join | src/report/encoding.rs:88 | the parts separated by '\|', with none after the last; `SplitJoin`, `CountJoin` and `JoinSplicesPart` give its meaning |
| Encoding.SplitJoin | src/report/encoding.rs:88 | splitting delimiter-free parts joined by '\|' gives back the parts |
| Encoding.CountJoin | src/report/encoding.rs:88 | a joined line holds one delimiter fewer than it has parts; no trailing delimiter is written |
| Encoding.JoinSplicesPart | src/report/encoding.rs:88 | a part holding '\|' joins to the same text as its two halves given as separate parts |
| Encoding.RowFraming | src/report/encoding.rs:86-90 | when no text field holds '\|', the row without CRLF splits back into the rendered fields and has one '\|' fewer than fields |
| Encoding.DecimalExamples | src/report/encoding.rs:107-127 | 1234.5678 renders as "1234,57", "1234,568" and "1235" at 2, 3 and 0 places; 0.01 as "0,01"; 10000 as "10000,00" |
| Encoding.RoundsToTwoPlaces | src/report/encoding.rs:109 | 1234.5678 at two places is "1234,57" |
| Encoding.RoundsToThreePlaces | src/report/encoding.rs:110 | 1234.5678 at three places is "1234,568" |
| Encoding.RoundsToWholeNumber | src/report/encoding.rs:111 | 1234.5678 at no places is "1235" |
| Encoding.KeepsSmallFraction | src/report/encoding.rs:112 | 0.01 at two places is "0,01" |
| Encoding.PadsWholeNumber | src/report/encoding.rs:113 | 10000 at two places is "10000,00" |
| Encoding.DateExample | src/report/encoding.rs:100-105 | 2023-12-31 renders as "31122023" |
| Encoding.RowExamples | src/report/encoding.rs:143-224 | the rows of the writer's examples: text fields, an empty field, trailing empties and a date |
| Encoding.RowOfTexts | src/report/encoding.rs:144-161 | four text fields give "I550\|José Silva\|12345678912\|01238578455" and CRLF |
| Encoding.RowWithEmptyField | src/report/encoding.rs:163-179 | an empty field shows as two adjacent delimiters |
| Encoding.RowOfTrailingEmpties | src/report/encoding.rs:181-193 | three trailing empty fields give "I550\|\|\|" and CRLF |
| Encoding.RowWithDate | src/report/encoding.rs:216-224 | a date field in a row renders as DDMMYYYY |
| Transactions.RecordType | src/report/transactions.rs:159-169 | the (code, category) pair of each variant; `RecordCodeShape`, `CodeValue` and `RecordCodesOrdered` give its meaning |
| Transactions.RecordCodeShape | src/report/transactions.rs:159-169 | every record code is four digits opening with '0', and the category is the roman numeral of the code's second digit |
| Transactions.RecordCodesOrdered | src/report/transactions.rs:159-169 | codes increase with the variant order, so two variants never share a code |
| Transactions.CodeValue | src/report/transactions.rs:159-169 | the code of each variant reads as 0110, 0120, 0210, 0410, 0510, 0710 and 0720 in variant order |
| Transactions.FeeField | src/report/transactions.rs:49-54 | an absent fee is an empty field, and a present one is a two-place decimal |
| Transactions.TransactionFields | src/report/transactions.rs:172-287 | the field list each variant writes: code, the base fields, category-specific values and the counterpart fields; `RowPrefixAndWidth`, `TextFieldsOfRecord` and `RenderedFields` give its meaning |
| Transactions.WriteTransaction | src/report/transactions.rs:172-290 | a record writes one CRLF-terminated row |
| Transactions.RowPrefixAndWidth | src/report/transactions.rs:172-287 | every row opens with record code, date and category, and each variant has its fixed number of fields (10, 10, 11, 8, 9, 9, 9) |
| Transactions.TextFieldsOfRecord | src/report/transactions.rs:172-287 | every text field of a row is one of the record's texts or its code or category |
| Transactions.RenderedFields | src/report/transactions.rs:172-289 | the rendered fields of each variant are its declaration columns, in order: value and fee at 2 places, amounts at 10 places (12 for sales), empty fields for absent options |
| Transactions.RenderedTradeShape | src/report/transactions.rs:175-226 | the rendering of a purchase or sale row, for any contents |
| Transactions.RenderedSwapShape | src/report/transactions.rs:227-255 | the rendering of a swap row, for any contents |
| Transactions.RenderedTransferShape | src/report/transactions.rs:256-268 | the rendering of a transfer row, with empty fields for an absent wallet or exchange name |
| Transactions.RenderedVenueShape | src/report/transactions.rs:269-286 | the rendering of a row made of common fields and an exchange |
| Transactions.RowColumns | src/report/transactions.rs:172-290 | when the record's texts have no '\|', the written row splits back into exactly its columns and holds one delimiter fewer than its field count |
| Transactions.UncheckedSymbolBreaksFraming | src/report/transactions.rs:269-274 | a symbol holding '\|' is written unchecked and shifts every later column: the row splits into one piece more than it has fields |
| Kraken.UpperChar | src/kraken.rs:187 | upper-casing maps 'a'..'z' to 'A'..'Z' and leaves every other character alone |
| Kraken.Upper | src/kraken.rs:187 | upper-casing keeps the length and upper-cases each character in place |
| Kraken.UpperIdempotent | src/kraken.rs:187 | upper-casing twice is upper-casing once |
| Kraken.IsFiat | src/kraken.rs:173-188 | membership of the upper-cased ticker in the fixed set of 22 codes; `FiatCurrencyIsACode`, `IsFiatIgnoresCase` and `FiatExamples` give its meaning |
| Kraken.IsFiatIgnoresCase | src/kraken.rs:187 | `is_fiat` does not depend on letter case |
| Kraken.FiatCodesAreFiat | src/kraken.rs:174-186 | each of the eleven codes is fiat, bare and with the 'Z' prefix |
| Kraken.FiatCurrencyIsACode | src/kraken.rs:174-186 | nothing else is in the fiat set |
| Kraken.FiatExamples | src/kraken.rs:173-188 | USD, zeur, Brl and ZMXN are fiat; BTC, XBT, USDT, USDC and XXBT are not |
| Kraken.GetTimestamp | src/kraken.rs:29-31 | a date's timestamp is the Unix second of its midnight, cast to `u64` (wrapping for dates before 1970) |
| Kraken.EndTimestamp | src/kraken.rs:108 | the left-to-right `u64` sum with release-build wrap-around ends the window 86399 seconds after the final day's wrapped midnight timestamp |
| Kraken.EndSumOverflows | src/kraken.rs:108 | the intermediate `get_timestamp(final) + 86400` leaves the `u64` range exactly when the final day is 1969-12-31 |
| Kraken.WindowIsWholeDays | src/kraken.rs:107-108 | for dates from 1970 on, a second is in the window exactly when its day number is between those of the initial and final days |
| Kraken.WindowIsDateRange | src/kraken.rs:116-127 | an in-range second is in the window exactly when its calendar day is between the initial and final days |
| Kraken.InWindow | src/kraken.rs:116-127 | the filter keeps only entries whose time is within the bounds |
| Kraken.InWindowKeepsExactly | src/kraken.rs:116-161 | the filter keeps every in-window entry as often as it occurs and drops every other |
| Kraken.Insert | src/kraken.rs:166-168 | one insertion step adds exactly the new entry |
| Kraken.InsertSorted | src/kraken.rs:166-168 | inserting into a sorted list keeps it sorted |
| Kraken.SortByKey | src/kraken.rs:166-168 | sorting is a permutation of the entries |
| Kraken.SortByKeySorted | src/kraken.rs:166-168 | the sorted list is in ascending time order |
| Kraken.InsertKeepsTies | src/kraken.rs:166-168 | an insertion puts the entry in front of the entries with the same time |
| Kraken.SortByKeyStable | src/kraken.rs:166-168 | `sort_by_key` is stable: entries with the same time keep their input order |
| Kraken.FetchKrakenActivity | src/kraken.rs:99-171 | each of the three lists is sorted by time and holds exactly the answer's entries within [start, end] of the period |
| Report.Trunc | src/report/mod.rs:201 | truncation moves toward zero by less than one |
| Report.ToI64 | src/report/mod.rs:203 | the `as i64` cast lands in the 64-bit range, agrees with the input modulo 2^64 and is the identity inside the range |
| Report.IntPart | src/report/mod.rs:200-204 | truncation toward zero followed by the `as i64` cast; `IntPartOfTimestamp` gives its meaning |
| Report.IntPartOfTimestamp | src/report/mod.rs:200-204 | for times inside the `i64` range, `int_part` is the truncation toward zero |
| Report.TrimXZ | src/report/mod.rs:169 | the trimmed pair is a suffix, everything removed is 'X' or 'Z', and it does not start with either |
| Report.Find | src/report/mod.rs:176 | `find` gives the first position of the code, or None when it occurs nowhere |
| Report.PairSplit | src/report/mod.rs:167-197 | the trimmed pair split at the fiat split point or the default one, none where `split_at` would panic; the `PairSplit…` lemmas give its meaning |
| Report.ParseTradingPair | src/report/mod.rs:167-197 | the parse loop gives the split of the `PairSplit` definition |
| Report.FirstFiatSplit | src/report/mod.rs:172-182 | the search loop stops at the first listed code found past the start, giving the `FiatSplit` point, and gives none when there is no such code |
| Report.PairSplitConcat | src/report/mod.rs:185-195 | base and quote together are the trimmed pair |
| Report.FiatSplitIsFirstMatch | src/report/mod.rs:172-182 | the split point is where the first listed code found past the start occurs; with none, every code is absent or only at the start |
| Report.PairSplitPoint | src/report/mod.rs:167-197 | the quote starts at a fiat code found past the start, or, when there is none, the base is the first 4 characters for USDT/USDC pairs and the first 3 otherwise |
| Report.PairSplitFails | src/report/mod.rs:185-195 | the parse fails, as `split_at` would panic, exactly when no fiat split exists and the trimmed pair is shorter than 3 |
| Report.FiatSplitFits | src/report/mod.rs:176-185 | a fiat split point leaves room for the whole three-letter code after it, so `split_at` there never panics |
| Report.PairSplitBitcoinEuro | src/report/mod.rs:167-197 | "XXBTZEUR" splits into "BTZ" and "EUR" |
| Report.PairSplitStablecoin | src/report/mod.rs:189-192 | "USDTZUSD" splits into "USDT" and "ZUSD" |
| Report.PairSplitPeso | src/report/mod.rs:172 | "ETHMXN" falls back to a 3-character base, since MXN is not in the split list |
| Report.DepositRecord | src/report/mod.rs:32-58 | one deposit's outcome: nothing for fiat, an abort for a time with no date, else a transfer to an exchange; `DepositRecordMeaning` gives its meaning |
| Report.WithdrawalRecord | src/report/mod.rs:61-91 | one withdrawal's outcome: nothing for fiat, an abort for a time with no date, else a withdrawal from Kraken; `WithdrawalRecordMeaning` gives its meaning |
| Report.TradeRecord | src/report/mod.rs:94-161 | one trade's outcome: split the pair, date the integer part of its time, then classify it on that day; `TradeOutcomes` and `TradeRecordMeaning` give its meaning |
| Report.TradeOnDay | src/report/mod.rs:117-159 | the match on whether base and quote are fiat, for a dated trade; `DatedTradeEmits` gives its meaning |
| Report.ConvertedTrade | src/report/mod.rs:119-148 | a crypto/fiat trade at a found rate as a purchase or sale, or an abort for an unknown side; `ConvertedTradeMeaning` and `ConvertedTradeShape` give its meaning |
| Report.DepositRecordMeaning | src/report/mod.rs:32-58 | a fiat deposit is skipped; otherwise the deposit aborts exactly when its time has no date, and else it becomes a transfer with the asset, the amount, the fee and no wallet or exchange name, dated on the day holding the time |
| Report.WithdrawalRecordMeaning | src/report/mod.rs:61-91 | a fiat withdrawal is skipped; otherwise it aborts exactly when its time has no date, and else it becomes a withdrawal from Kraken with the asset, the amount and the unconverted fee, dated on the day holding the time |
| Report.TradeOutcomes | src/report/mod.rs:94-161 | a trade classifies only if its pair splits, its time has a date and its quote is fiat; a pair that does not split or a time with no date aborts with that reason; a dated fiat/fiat trade gives nothing; crypto/crypto and fiat/crypto trades abort with their own reasons; a crypto/fiat trade aborts on a zero price and on a missing rate, and with a rate it succeeds exactly for "buy" and "sell", aborting on any other side |
| Report.TradeRecordMeaning | src/report/mod.rs:94-148 | an emitted trade record is a crypto/fiat trade with a nonzero price and a rate for its day; it is a purchase for "buy" and a sale for "sell", at Kraken, with the base symbol, the net volume, the fee at the rate and a value that with the fee makes the gross cost at the rate |
| Report.DatedTradeEmits | src/report/mod.rs:106-160 | only a crypto/fiat trade with a nonzero price and a rate emits a record, the converted one |
| Report.ConvertedTradeMeaning | src/report/mod.rs:108-147 | a converted trade always emits a record with the converted-record properties |
| Report.ConvertedTradeShape | src/report/mod.rs:119-147 | only "buy" and "sell" convert, into a purchase or a sale from Kraken with the converted base fields |
| Report.NetOfFee | src/report/mod.rs:111 | the fee divided by the price is exactly what the net amount falls short of the volume |
| Report.GrossCost | src/report/mod.rs:110 | the value net of fee plus the fee, both at the rate, is the cost at the rate |
| Report.CollectAborts | src/report/mod.rs:24-164 | a pass succeeds exactly when every entry classifies, and otherwise stops with the error of a failing entry |
| Report.CollectEmits | src/report/mod.rs:24-164 | a successful pass emits the classified records in entry order |
| Report.CollectAbortSticks | src/report/mod.rs:24-164 | once a prefix of entries has aborted, the whole pass aborts with the same error |
| Report.EmitsAll | src/report/mod.rs:24-164 | a property every single record has holds for all records of a pass |
| Report.OneRecordPerCrypto | src/report/mod.rs:32-91 | a successful deposit or withdrawal pass emits exactly one record per non-fiat entry |
| Report.ProcessKrakenData | src/report/mod.rs:24-164 | the three classification loops give the `Classification` of the entries: the records, or the first abort |
| Report.DepositPass | src/report/mod.rs:32-58 | the deposit loop appends the deposit records, or stops with the first abort |
| Report.WithdrawalPass | src/report/mod.rs:61-91 | the withdrawal loop appends the withdrawal records, or stops with the first abort |
| Report.TradePass | src/report/mod.rs:94-161 | the trade loop appends the trade records, or stops with the first abort |
| Report.TradeStep | src/report/mod.rs:95-160 | one trade iteration gives that trade's record |
| Report.DatedTradeStep | src/report/mod.rs:106-160 | the branch on the fiat-ness of base and quote gives the trade's record for its day |
| Report.Classification | src/report/mod.rs:24-164 | the three passes in order, deposits, withdrawals, trades, stopping at the first abort; `ClassificationSucceeds`, `ClassificationLayout` and `ClassificationIsEmits` give its meaning |
| Report.ClassificationSucceeds | src/report/mod.rs:24-164 | processing completes exactly when every deposit, withdrawal and trade classifies |
| Report.ClassificationLayout | src/report/mod.rs:24-164 | the output is the transfers, then the withdrawals, then purchases and sales, with one transfer per crypto deposit and one withdrawal per crypto withdrawal |
| Report.ClassificationIsEmits | src/report/mod.rs:24-164 | a completed run is the deposit records, then the withdrawal records, then the trade records |
| Report.DepositsEmitTransfers | src/report/mod.rs:45-54 | deposits emit only transfers to an exchange |
| Report.WithdrawalsEmitWithdrawals | src/report/mod.rs:78-87 | withdrawals emit only withdrawals from an exchange |
| Report.TradesEmitPurchasesAndSales | src/report/mod.rs:119-147 | trades emit only purchases and sales |
| Program.Magnitude | src/main.rs:39-40 | a run of characters has a value exactly when it is a non-empty string of digits |
| Program.ParseI32 | src/main.rs:39 | a parsed year lies in the `i32` range |
| Program.ParseU32 | src/main.rs:40 | a parsed month lies in the `u32` range |
| Program.ParseNumeral | src/main.rs:39-40 | every `i32` parses back from its numeral, and every `u32` from its digits |
| Program.NegativeNumeral | src/main.rs:39 | a negative numeral parses as a year exactly when its value is inside the `i32` range |
| Program.NaturalNumeral | src/main.rs:39-40 | a numeral without sign parses as a year exactly up to the `i32` maximum, and as a month exactly up to the `u32` maximum |
| Program.ParseRejects | src/main.rs:39-40 | a month with a minus sign is refused, and a sign without digits is not a year |
| Program.ReportingPeriod | src/main.rs:42-51 | the period exists exactly for months 1..12 of a supported year (not December of the last one); it runs from the 1st to the month's last day, both valid and in range |
| Program.PeriodCoversMonth | src/main.rs:43-51 | the period's last day is followed by the first of the next month (of the next year after December), and the period has as many days as the month |
| Program.MonthWindow | src/main.rs:42-58 | for a month from 1970 on, the fetch window holds exactly the seconds whose day falls in that month |
| Program.PurchaseTotal | src/main.rs:65-73 | the sum over the records of each purchase's value plus its fee; `PurchaseTotalAppend`, `NoPurchaseNoTotal` and `PurchaseAddsGrossCost` give its meaning |
| Program.BrlSpentInPurchases | src/main.rs:65-73 | the accumulation loop gives the purchase total: each purchase's value plus its fee when present |
| Program.PurchaseTotalAppend | src/main.rs:65-73 | the total over two lists is the sum of their totals |
| Program.NoPurchaseNoTotal | src/main.rs:65-73 | records other than purchases add nothing |
| Program.PurchaseAddsGrossCost | src/main.rs:65-73 | an emitted purchase adds the trade's gross cost at the rate of its quote currency on its day |
| Program.RunTotalIsTradeTotal | src/main.rs:63-73 | the total of a run is the total of its trade records alone |
| Program.RunReport | src/main.rs:24-74 | missing arguments stop the run before any fetch; a bad year or month stops it; a month with no period stops it with the period's error; otherwise the run aborts exactly when the classification of the fetched month aborts, with that reason, and else returns that classification and its purchase total |

## Left out

- HTTP requests, request signing, the key file and the JSON answers are
  left out. The three answers are inputs, already parsed into
  `Kraken.LedgerEntry` and `Kraken.TradeEntry`. A malformed answer (a
  missing field, a number that does not parse) is therefore not modelled.
- `src/exchange_rate.rs` is not part of this model. It is the
  `Report.RateLookup` parameter, and a lookup failure is `None`.
- `generate_report`, the report file and the console output
  (`println!`/`eprintln!`) are not part of this model. Rows are modelled
  as the text `Transactions.WriteTransaction` produces.
- Decimals are exact rationals. rust_decimal's 28-digit precision, the
  rounding of its division and its overflow panics are not modelled.
- Encoding.RenderDecimal: a negative value that rounds to zero renders
  without a sign. rust_decimal's handling of the sign of zero is not
  modelled, and the amounts here are not negative.
- Kraken.Upper: upper-casing is ASCII only. `to_uppercase` on non-ASCII
  letters is not modelled.
- Strings are sequences of characters. Byte offsets in `find` and
  `split_at`, and the panic on a split inside a multi-byte character,
  are not modelled.
- Kraken.SortByKey: the in-place `sort_by_key` is modelled on values, as
  a stable insertion sort, so only its result is captured.
- Calendar: the date library is modelled by day counts since 1970. Its
  time-of-day part, time zones and leap seconds are left out.
- Encoding.RenderDateFields: it is stated only for years 0..9999.
  `{:04}` on other years gives a sign or more digits, which
  `Encoding.PadInt` models.
- Kraken.EndTimestamp: it follows release-build `u64` wrap-around. For a
  final day of 1969-12-31 (arguments `1969 12`) the intermediate
  `get_timestamp(final) + 86400` is exactly 2^64, which panics in a debug
  build; that panic is not modelled. `Kraken.EndSumOverflows` states
  exactly when it happens.
- The order of trades inside Kraken's answer object, before the sort, is
  the order of the input sequence.

Where the code and its comments differ, the model follows the code:

- A row has no delimiter after its last field. The writer's doc comment
  shows a trailing one; the tests and the code do not.
- Withdrawal fees stay in the asset's own units. Trade fees and values are
  converted to BRL.
- A crypto/crypto trade aborts, so no swap record is ever emitted.
- MXN is fiat for `is_fiat` but is missing from the pair-split list.
- `int_part` checks that the truncated value has scale 0, which always
  holds after truncation. The check cannot fail and is not modelled.
- A ledger time is cast from `u64` to `i64` before conversion to a date,
  so times of 2^63 and above wrap to negative seconds.
- Kraken asset prefixes are only trimmed at the front of the pair. So
  "XXBTZEUR" gives the base "BTZ" (`Report.PairSplitBitcoinEuro`).
