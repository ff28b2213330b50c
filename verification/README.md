# GIC banking core in Dafny

A model of the computational core of the `BankingSystem` class of the
AwesomeGIC console bank (`GICBankingSystem/Program.cs`):

- the two balance queries, `CalculateBalance` (every entry, type compared
  after upper-casing) and `CalculateBalanceToDate` (entries dated on or before
  a day, type compared exactly);
- the date check `IsValidDateFormat` (eight characters, `yyyyMMdd`, a day a
  .NET `DateTime` can hold, formatted back to the same text);
- the rule lookup `FindApplicableInterestRule` (latest rule dated on or before
  the day, ties going to the first such rule in list order as a stable
  descending sort gives);
- the rule-table update of `DefineInterestRules` (rate strictly between 0 and
  100, any rule of the same date replaced, the new rule appended);
- the interest engine `CalculateInterestWithAnnualization` (a day-by-day walk
  over a window that starts on 1 June and ends in June, each day earning
  `balance * rate / 100 * 1`, the sum divided by 365 and added to the last
  day's balance);
- the validation and ID part of `InputTransactions` (positive amount, no
  first withdrawal, no withdrawal beyond the full balance, account created on
  first use, type stored upper-cased, ID = `yyMMdd-NN` with a per-date
  counter).

Modules, one per file:

| file | module | contents |
|---|---|---|
| results.dfy | Results | `Option`, `Result` |
| digits.dfy | Digits | decimal digit strings: reading them, fixed-width and `D2` formatting |
| calendar.dfy | Calendar | `Date`, `DaysInMonth`, `NextDay` (`AddDays(1)`), `Format`, `ParseExact`, `IsValidDateFormat` |
| sums.dfy | Sums | front-to-back totals over a list, independent of order |
| ledger.dfy | Ledger | `Txn`, the two balance queries |
| rules.dfy | InterestRules | `Rule`, the rule lookup, the rule-table update |
| accrual.dfy | Accrual | the June window, the daily walk and its closed form |
| bank.dfy | Bank | `Account`, `InputTransaction`, transaction IDs |

Modelling choices:

- Dates are `Date(year, month, day)`; `Key` is the number `yyyyMMdd`, and
  `FormatValue` proves that it is the value of the date's text. The source
  keeps dates as strings and compares them with `==` (entry dates in
  `InputTransactions`, rule dates in `RemoveAll`) and with the string order
  (`OrderByDescending(x => x.Date)`). Every stored date has passed the date
  check, and `FormatInjective`/`FormatParse` show that one day has exactly one
  accepted text, so `==` on the texts is `==` on the days. `Calendar.FormatOrder`
  shows that the character-by-character order of two accepted texts is the
  `Key` order of their days, so the sort by text is the sort by day.
- Amounts and rates are `real`: sums are exact, with no `decimal` rounding.
- Errors the source reports with a console message and `return` are `Result`
  failures. So are the exceptions it would throw: a `DateTime` constructor
  rejecting the window, or a `null` rule being dereferenced when no rule
  covers the first day.
- `StartYear`/`EndYear` are fields that `PrintStatement` sets from the
  transactions. Here they are parameters of the engine, as in the source's
  own test.

Behaviour of the code worth knowing:

- The code's own message says a withdrawal must not take the balance below 0
  (Program.cs:181), but it compares the amount only with the full, undated
  balance of the account (Program.cs:178). So a withdrawal dated before the
  deposit that covers it is accepted, and the balance as of its own date is
  negative (`Bank.BackdatedWithdrawalAccepted`).
- The accrual window runs from 1 June of `StartYear` to day N of June of
  `EndYear`, where N is the length of the target month in `StartYear`
  (Program.cs:474-479). When `StartYear < EndYear` the window spans more than
  one June. A target month with 31 days makes `new DateTime(..., 6, 31)`
  throw (`Accrual.WindowFollowsTargetMonthLength`).

## Model

| member | source | states |
|---|---|---|
| Digits.FixedDigitsValue | GICBankingSystem/Program.cs:349 | Reading a fixed-width decimal field gives the number modulo 10^width. |
| Digits.DigitsValueFixed | GICBankingSystem/Program.cs:343-350 | Formatting the value of a digit string at its own width gives the string back, leading zeros included. |
| Digits.LexLessIsValueOrder | GICBankingSystem/Program.cs:517 | For digit strings of the same width, character-by-character order is the order of the numbers they denote. |
| Digits.PadDigitsValue | GICBankingSystem/Program.cs:200 | The `D2` text of a counter reads back as the counter. |
| Digits.PadDigitsInjective | GICBankingSystem/Program.cs:200 | Different counters never have the same `D2` text. |
| Digits.PadDigitsExamples | GICBankingSystem/Program.cs:200 | `D2` gives "01" for 1 and "02" for 2, and leaves 123 as "123" rather than cutting it. |
| Calendar.DaysInMonth | GICBankingSystem/Program.cs:474 | A month has 31 days exactly when it is January, March, May, July, August, October or December; February has 29 days exactly in a leap year and 28 otherwise; the other four months have 30. |
| Calendar.YearLength | GICBankingSystem/Program.cs:474 | The twelve month lengths add up to 365, or to 366 exactly in a leap year. |
| Calendar.KeyIsChronological | GICBankingSystem/Program.cs:525 | On real days, `Key` order is (year, month, day) order, and equal keys mean equal days. |
| Calendar.NextDay | GICBankingSystem/Program.cs:486 | `AddDays(1)` gives a real day that is strictly later, in the same year or on 1 January of the next. |
| Calendar.NextDayIsSuccessor | GICBankingSystem/Program.cs:486 | No day lies strictly between a day and `AddDays(1)` of it, so the walk skips nothing. |
| Calendar.Format | GICBankingSystem/Program.cs:349 | `ToString("yyyyMMdd")` gives eight digits. |
| Calendar.ParseExact | GICBankingSystem/Program.cs:343 | A successful `TryParseExact` reads eight digits and gives a day with a year from 1 to 9999. |
| Calendar.ParseFormat | GICBankingSystem/Program.cs:343-350 | Parsing the text of a day gives that day back. |
| Calendar.FormatParse | GICBankingSystem/Program.cs:343-353 | Formatting a parsed date gives the input text back, so the re-format comparison never rejects. |
| Calendar.FormatInjective | GICBankingSystem/Program.cs:197 | Two days never share a text, so `==` on date strings is `==` on days. |
| Calendar.IsValidDateFormatCorrect | GICBankingSystem/Program.cs:335-356 | The date check accepts a text exactly when some day a `DateTime` can hold formats to it. |
| Calendar.IsValidDateFormatIsParse | GICBankingSystem/Program.cs:335-356 | The check is equivalent to "`TryParseExact` succeeds". |
| Calendar.FormatOrder | GICBankingSystem/Program.cs:517 | One accepted date text sorts before another, character by character, exactly when its day is earlier. |
| Calendar.FormatValue | GICBankingSystem/Program.cs:517 | The text of a day read as a number is its `Key`. |
| Calendar.ParseDigits | GICBankingSystem/Program.cs:343 | On eight digits, parsing reads year, month and day digit by digit and fails exactly when they do not name a valid day. |
| Calendar.LeapDayAccepted | GICBankingSystem/Program.cs:335-356 | "20240229" is accepted. |
| Calendar.NonLeapDayRejected | GICBankingSystem/Program.cs:335-356 | "20230229" is refused. |
| Calendar.SampleDateText | GICBankingSystem/Program.cs:335-356 | "20230626" is accepted and parses to 26 June 2023. |
| Calendar.MalformedDatesRejected | GICBankingSystem/Program.cs:338-346 | Month 13, year 0, seven characters and non-digit characters are all refused. |
| Sums.SumAppend | GICBankingSystem/Program.cs:396-409 | The total of a concatenation is the sum of the totals. |
| Sums.SumPermutation | GICBankingSystem/Program.cs:396-409 | Lists with the same elements have the same total, in any order. |
| Sums.SumPointwise | GICBankingSystem/Program.cs:540-560 | Lists whose elements contribute equally have equal totals. |
| Sums.SumNonNegative | GICBankingSystem/Program.cs:540-560 | Contributions that are never negative give a total that is never negative. |
| Ledger.Upper | GICBankingSystem/Program.cs:399 | Upper-casing keeps the length. |
| Ledger.UpperIdempotent | GICBankingSystem/Program.cs:190 | Upper-casing a stored, already upper-cased type changes nothing. |
| Ledger.UpperOfLetter | GICBankingSystem/Program.cs:170 | A one-letter type upper-cases to "D" or "W" exactly when it is that letter in either case. |
| Ledger.CalculateBalanceAppend | GICBankingSystem/Program.cs:391-412 | Appending an entry adds its amount when its upper-cased type is "D", subtracts it for "W", and otherwise changes nothing. |
| Ledger.BalanceToDateAppend | GICBankingSystem/Program.cs:535-563 | Appending an entry moves the dated balance only when the entry's date is on or before the day (inclusive) and its type is exactly "D" or "W". |
| Ledger.CalculateBalanceOrderIndependent | GICBankingSystem/Program.cs:391-412 | The full balance does not depend on the order of the entries. |
| Ledger.BalanceToDateOrderIndependent | GICBankingSystem/Program.cs:535-563 | The dated balance does not depend on the order of the entries. |
| Ledger.BalanceToDateIgnoresLater | GICBankingSystem/Program.cs:548 | Entries dated after the day contribute nothing. |
| Ledger.BalanceAgreesAfterLastEntry | GICBankingSystem/Program.cs:535-563 | With every entry on or before the day and types stored upper-cased, the two queries agree. |
| Ledger.LowerCaseTypeOnlyCountsInFullBalance | GICBankingSystem/Program.cs:551 | A lower-case "d" counts in the full balance but not in the dated one. |
| Ledger.ScenarioBalances | GICBankingSystem.Test/GICBankingTest.cs:12-107 | The sample ledger has balance 250 as of 1 June 2023 and 130 in total. |
| InterestRules.ApplicableIndex | GICBankingSystem/Program.cs:514-533 | The scan finds nothing exactly when every rule starts after the day, and otherwise the first rule of the latest qualifying date. |
| InterestRules.FindApplicableInterestRule | GICBankingSystem/Program.cs:514-533 | The result is `null` exactly when every rule starts later; otherwise it is a rule of the list, dated on or before the day, and no qualifying rule is later. |
| InterestRules.ApplicableIndexUnique | GICBankingSystem/Program.cs:517 | Any index that is the first rule of the latest qualifying date is the one the lookup returns. |
| InterestRules.FindApplicableMonotone | GICBankingSystem/Program.cs:514-533 | On a later day a rule is still found, and it is dated no earlier. |
| InterestRules.RemoveDate | GICBankingSystem/Program.cs:275 | `RemoveAll` keeps exactly the rules of other dates. |
| InterestRules.RemoveDateAppend | GICBankingSystem/Program.cs:275 | Removal keeps the surviving rules in their order. |
| InterestRules.RemoveDateKeepsOthers | GICBankingSystem/Program.cs:275 | A table with no rule of that date is left unchanged. |
| InterestRules.DefineInterestRule | GICBankingSystem/Program.cs:242-276 | The update fails exactly on a refused date or a rate outside (0, 100); otherwise the table is the old one without that date's rules, followed by the new rule. |
| InterestRules.DefineAcceptsDay | GICBankingSystem/Program.cs:242-276 | Defining a rule for the yyyyMMdd text of any DateTime day, with a rate strictly between 0 and 100, succeeds and files the rule under that day. |
| InterestRules.DefineReplacesSameDate | GICBankingSystem/Program.cs:272-276 | A successful update for a day leaves the new rule as the only rule of that day, and every rule of another date is still there. |
| InterestRules.DefineKeepsDatesDistinct | GICBankingSystem/Program.cs:272-276 | A successful update keeps at most one rule per date. |
| InterestRules.RemoveDateKeepsDatesDistinct | GICBankingSystem/Program.cs:275 | Removal keeps dates distinct. |
| InterestRules.DefinedRuleInEffectOnItsDate | GICBankingSystem/Program.cs:272-276 | When every stored rule has a DateTime day, a newly defined rule is the rule in effect on its own date. |
| InterestRules.ScenarioRuleInEffect | GICBankingSystem.Test/GICBankingTest.cs:34-52 | For the sample rules, rule "2" is in effect on 1 June 2023. |
| Accrual.AccrualWindow | GICBankingSystem/Program.cs:474-479 | The window exists exactly when both years are in 1..9999 and the target month is a month without 31 days. It runs from 1 June of the start year to day N of June of the end year, N being the target month's length, and is non-empty exactly when the start year is not after the end year. |
| Accrual.AccruedSumStep | GICBankingSystem/Program.cs:486-503 | A non-empty window's sum is the first day's interest plus the sum from the next day on. |
| Accrual.InterestWithAnnualization | GICBankingSystem/Program.cs:471-512 | The engine fails exactly when the window cannot be built, or the window is non-empty and no rule covers 1 June of the start year. |
| Accrual.CalculateInterestWithAnnualization | GICBankingSystem/Program.cs:471-512 | The loop-based engine returns exactly the closed form: the summed daily interest over 365, added to the balance of the window's last day. |
| Accrual.Walk | GICBankingSystem/Program.cs:481-503 | The day-by-day loop fails exactly when the window is non-empty and no rule covers its first day. Otherwise it returns the window's summed interest and the last day's balance (0 for an empty window). |
| Accrual.MissingRuleOnFirstDay | GICBankingSystem/Program.cs:493-499 | The loop can only meet a missing rule on the window's first day. |
| Accrual.WalkFinished | GICBankingSystem/Program.cs:486-490 | When the loop exits it has summed the whole window, and it holds the last day's balance. |
| Accrual.AccruedSumSingleDay | GICBankingSystem/Program.cs:496-499 | A one-day window earns balance * rate / 100 for one day. |
| Accrual.AccruedSumSplit | GICBankingSystem/Program.cs:486-503 | Summing a window in two consecutive pieces gives the same total. |
| Accrual.ConstantRun | GICBankingSystem/Program.cs:486-503 | Days of one month that all earn `c` sum to their count times `c`. |
| Accrual.AccruedSumNonNegative | GICBankingSystem/Program.cs:486-503 | With positive rates and balances that are never negative, the window's sum is never negative. |
| Accrual.InterestNonNegative | GICBankingSystem/Program.cs:505-511 | Under the same conditions, the annualised interest and the returned balance are never negative. |
| Accrual.EmptyWindowAccruesNothing | GICBankingSystem/Program.cs:481-486 | When the start year is after the end year the loop never runs, and both results are 0. |
| Accrual.WindowFollowsTargetMonthLength | GICBankingSystem/Program.cs:474-479 | A February target month ends the June window on the 28th or, in a leap year, the 29th. June ends it on the 30th, and July cannot build it. |
| Accrual.ScenarioBalanceInJune | GICBankingSystem.Test/GICBankingTest.cs:68-74 | The sample ledger's balance is 250 up to 25 June 2023 and 130 from 26 June on. |
| Accrual.ScenarioDailyInterest | GICBankingSystem.Test/GICBankingTest.cs:61-74 | The sample earns 4.75 a day until 14 June, 5.5 until 25 June and 2.86 after that. |
| Accrual.ScenarioJuneAccrual | GICBankingSystem.Test/GICBankingTest.cs:55-87 | The sample's un-annualised June interest is 141.3. |
| Accrual.ScenarioJuneStatement | GICBankingSystem.Test/GICBankingTest.cs:55-87 | The sample June statement is 130 + 141.3/365, which lies in (130.38, 130.39] and so rounds up to 130.39. |
| Bank.FindAccount | GICBankingSystem/Program.cs:160 | `Find` returns the first account with the number, or none when there is no such account. |
| Bank.CountOnDateIsMultiplicity | GICBankingSystem/Program.cs:197 | The per-date count is the number of entries whose date is that date, taken as the multiplicity of the date among the entries' dates. |
| Bank.InputTransaction | GICBankingSystem/Program.cs:137-202 | Each outcome happens exactly under its condition, checked in the source's order: a bad date, then a non-positive amount, then a first withdrawal (full balance 0), then an overdraft (amount above the full balance). The input is accepted exactly when none of them applies. |
| Bank.InputEffect | GICBankingSystem/Program.cs:160-202 | A refused date or amount changes nothing. Otherwise the account exists afterwards, created empty when missing, and other accounts are untouched. An accepted input appends exactly one entry with the upper-cased type and returns its ID. |
| Bank.InputKeepsBalancesNonNegative | GICBankingSystem/Program.cs:170-183 | No input makes an account's full balance negative. |
| Bank.InputKeepsNumbersDistinct | GICBankingSystem/Program.cs:160-167 | Account numbers stay unique. |
| Bank.NewEntryKeepsIdsNumbered | GICBankingSystem/Program.cs:194-202 | The new entry's ID continues the per-date numbering. |
| Bank.InputKeepsLedgersWellKept | GICBankingSystem/Program.cs:186-202 | Every stored entry keeps an upper-case type and the ID `yyMMdd-NN`, NN counting the entries of its date up to and including it. |
| Bank.KeptLedgerBalancesAgree | GICBankingSystem/Program.cs:535-563 | On a ledger kept this way, the full balance equals the balance as of any day on or after its last entry. |
| Bank.CountOnDateGrows | GICBankingSystem/Program.cs:197 | The count up to a later entry of the same date is strictly larger. |
| Bank.IdSuffix | GICBankingSystem/Program.cs:200 | The counter is the part of the ID after the dash. |
| Bank.TransactionIdInjective | GICBankingSystem/Program.cs:200 | Two IDs of the same date are equal only for equal counters. |
| Bank.SameDayIdsDistinct | GICBankingSystem/Program.cs:196-202 | Two entries of one account on the same date never share an ID. |
| Bank.AcceptedIdCountsTheDay | GICBankingSystem/Program.cs:194-200 | An accepted input's counter is one more than the account's existing entries on that date. |
| Bank.FirstIdOfTheDay | GICBankingSystem/Program.cs:160-202 | The first deposit into an unknown account appends that account, holding only the new entry with ID `yyMMdd-01`. |
| Bank.SecondIdOfTheDay | GICBankingSystem/Program.cs:194-200 | A second entry on a date gets the counter 02. |
| Bank.SampleIds | GICBankingSystem/Program.cs:200 | On "20230626" the counters 1 and 2 give "230626-01" and "230626-02". |
| Bank.RefusedWithdrawalCreatesAccount | GICBankingSystem/Program.cs:160-175 | A withdrawal from an unknown account is refused, yet an empty account is left behind. |
| Bank.BackdatedWithdrawalAccepted | GICBankingSystem/Program.cs:170-183 | A withdrawal dated before the deposit covering it is accepted: the full balance stays non-negative, but the balance as of the withdrawal's date is negative. |

## Left out

- Console I/O: the menu loop, prompts, `Trim`, splitting on `|`, the
  part-count checks, and every printed message and table
  (`PrintAccountStatement`, `PrintInterestRules`, `PrintStatement`'s lines).
- `decimal.TryParse` of amounts and rates: both arrive already parsed, as
  `real`.
- `decimal` precision and rounding: arithmetic is exact. The test's
  `Math.Ceiling` is stated as the bounds in `Accrual.ScenarioJuneStatement`.
- How `PrintStatement` derives `StartYear` and `EndYear` from the
  transactions of the month: the engine takes both as parameters.
- Culture-dependent `ToUpper` and string comparison: `Upper` changes only the
  ASCII letters a-z, and the sort of rule dates is taken as the ordinal
  character order, which for digit strings is what the usual cultures give.
- The current culture's calendar: `TryParseExact(..., null, ...)` and
  `ToString("yyyyMMdd")` (Program.cs:343, 349, 522, 545) read and write dates
  in the current culture's calendar; `ParseExact` and `Format` assume the
  Gregorian calendar.
- `TryParseExact` failing inside `FindApplicableInterestRule` and
  `CalculateBalanceToDate` (it would yield `DateTime.MinValue`): stored dates
  always passed the date check, so they are modelled as parsed days.
- The `RuleId` is stored as given and never checked; it is carried along
  unchanged.
- Calendar.NextDay: stepping past 31 December 9999 (where `AddDays` throws) is
  not modelled, because `NextDay` works on any year and the walk never reaches
  the year-range edge without the window constructor failing first.
