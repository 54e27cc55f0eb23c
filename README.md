# Loan collection system: a verified model of its business logic

The loan collection system is a browser application in which an admin
uploads a spreadsheet of loans and deals them round-robin to collection
agents. Agents then log calls, edit remarks and record payments. This
project models the logic under the user interface in Dafny:

- **Date normaliser** (`utils/dateUtils.ts`). It turns a spreadsheet cell
  into a calendar day or into nothing. It tries, in order:
  - a serial number (1899-12-30 plus serial − 1 days);
  - `D-Mon-YY(YY)`;
  - `YYYY-MM-DD` and `YYYY/MM/DD`;
  - `M/D/YYYY`;
  - the host's own date parser, accepted only for years after 1900.

  Each pattern result must survive the JavaScript `Date` constructor, and
  that constructor maps the years 0 to 99 to 1900 onwards.
- **Loan import.** The importer normalises the header row and maps each
  header to a field through a table of synonyms. It fills a draft loan
  cell by cell, rejects rows without an account number or a positive
  amount, and derives the maturity date and the past-due date.
- **Round-robin distribution.** The existing unassigned Outstanding loans
  and the new loans form a pool. The pool is dealt to the non-admin agents
  in list order.
- **List updates and views.** These cover payments and the payment form's
  amount check, deleting agents and loans, remarks, communication logs,
  login and session restore, search, and per-agent performance figures.
- **Application state.** The class `App.LoanApp` holds agents, loans, the
  logged-in user, the login error and an upload awaiting confirmation. It
  has one method per handler.

Dates are held as `Calendar.CivilDate(year, month, day)` rather than as
`YYYY-MM-DD` text. `IsoDate.ToIso` renders them and `IsoDate.DecodeIso`
reads them back. Day numbers count from 0001-01-01 in the proleptic
Gregorian calendar, and time zones are taken to be UTC.

Several things become parameters:
- "today" is a day number;
- fresh ids (`uuidv4`) are strings;
- the host functions `String(number)`, `parseFloat`, `parseInt` and
  `new Date(string)` are fields of the `JsValues.Host` value.

Amounts are exact reals. Lower-casing is ASCII-only, and `trim`/`\s` use
the JavaScript white-space set.

With no collection agents, `distributeLoans`
(`components/AdminDashboard.tsx:205`) returns only the new loans, so the
existing list is dropped; `Distribution.NoAgentsKeepsOnlyNewLoans` states
this.

## Model

| member | source | states |
|---|---|---|
| Calendar.CivilFromDays | loan-collection-system/utils/dateUtils.ts:8-13 | every day number is the day number of exactly one valid calendar date |
| Calendar.CivilRoundTrip | loan-collection-system/utils/dateUtils.ts:11-13 | a valid date converted to its day number and back is the same date |
| Calendar.DaysFromCivilInjective | loan-collection-system/utils/dateUtils.ts:11-13 | two valid dates with the same day number are equal |
| Calendar.DayOfYearBounds | loan-collection-system/utils/dateUtils.ts:11-13 | a valid date's day number lies within its own year's range of day numbers |
| Calendar.YearsOrdered | loan-collection-system/utils/dateUtils.ts:11-13 | every day of a year comes before the first day of any later year |
| Calendar.MakeDayInRange | loan-collection-system/utils/dateUtils.ts:52 | a month index 0..11 and a day that exists in that month construct exactly that date |
| Calendar.ConstructedFieldsSurvive | loan-collection-system/utils/dateUtils.ts:52-53 | the constructed date has the year, month and day passed in iff the year is not 0..99, the month index is 0..11 and the day exists in that month |
| Calendar.ShortYearRemapped | loan-collection-system/utils/dateUtils.ts:52-53 | a year 0..99 never survives construction, because the constructor moves it to 1900 + year |
| Calendar.NextMonthStart | loan-collection-system/components/AdminDashboard.tsx:154-155 | the day after the last day of a month is the first of the next month |
| Calendar.MakeDayRollsOver | loan-collection-system/components/AdminDashboard.tsx:154-155 | a day past the end of the target month rolls over into the following month |
| Calendar.FirstOfMonth | loan-collection-system/utils/dateUtils.ts:52 | a month index outside 0..11 carries whole years: the first of the month has 12·year + month equal to 12·year + index + 1 |
| Calendar.TargetMonth | loan-collection-system/components/AdminDashboard.tsx:155 | adding k months gives the month whose 12·year + month index is k larger |
| Calendar.AddMonthsIsMakeDay | loan-collection-system/components/AdminDashboard.tsx:155 | `setMonth(getMonth() + k)` lands on the constructor's date for the shifted month and the same day |
| Calendar.AddMonthsKeepsDay | loan-collection-system/components/AdminDashboard.tsx:155 | when the day exists in the target month, adding months keeps the day |
| Calendar.AddMonthsRollsOver | loan-collection-system/components/AdminDashboard.tsx:155 | when it does not, the surplus days spill into the month after |
| Calendar.ConstructThenAddMonths | loan-collection-system/components/AdminDashboard.tsx:146-155 | constructing a valid start date and adding k months keeps the day in the target month, or spills the surplus into the next |
| IsoDate.IsoRoundTrip | loan-collection-system/utils/dateUtils.ts:13 | for years 0..9999 the `YYYY-MM-DD` text is ten characters with dashes at 4 and 7, has no white space, and decodes back to the same date |
| Text.TrimStart | loan-collection-system/utils/dateUtils.ts:33 | the result is a suffix of the input, what was removed is white space, and the result does not start with white space |
| Text.TrimEnd | loan-collection-system/utils/dateUtils.ts:33 | the result is a prefix of the input, what was removed is white space, and the result does not end with white space |
| Text.Trim | loan-collection-system/utils/dateUtils.ts:33 | the result neither starts nor ends with white space, and a string without white space is unchanged |
| Text.TrimBlank | loan-collection-system/utils/dateUtils.ts:33-34 | a string trims to nothing exactly when it is all white space |
| Text.StripWhitespace | loan-collection-system/components/AdminDashboard.tsx:103 | the result has no white space and a string without white space is unchanged |
| Text.StripAppend | loan-collection-system/components/AdminDashboard.tsx:103 | removing white space from a concatenation removes it from each part |
| Text.Lower | loan-collection-system/utils/dateUtils.ts:44 | each character is lower-cased in place, and the length is kept |
| Text.LowerKeepsBlank | loan-collection-system/components/AdminDashboard.tsx:285-286 | lower-casing keeps a blank string blank and a non-blank one non-blank |
| Text.ContainsMeansOccurs | loan-collection-system/components/AdminDashboard.tsx:288-290 | `includes` holds exactly when the term occurs at some index |
| Text.DigitsValue | loan-collection-system/utils/dateUtils.ts:43-45 | the value of w decimal digits is below 10^w |
| Text.FixedDigitsValue | loan-collection-system/utils/dateUtils.ts:13 | rendering a number zero-padded to w digits and parsing it back gives the number |
| DateUtils.SerialToDate | loan-collection-system/utils/dateUtils.ts:8-13 | a serial gives the valid date whose day number is that of 1899-12-30 plus floor(serial − 1) |
| DateUtils.SerialOne | loan-collection-system/utils/dateUtils.ts:8-13 | serial 1 is 1899-12-30 |
| DateUtils.SerialYears | loan-collection-system/utils/dateUtils.ts:25-28 | every serial in (0, 60000) gives a year between 1899 and 2064 |
| DateUtils.MonthIndex | loan-collection-system/utils/dateUtils.ts:36-44 | a three-letter abbreviation matches, ignoring case, iff its lower-case form is in the list; the index found is that entry's position |
| DateUtils.MatchDayMonYear | loan-collection-system/utils/dateUtils.ts:41 | a match is a well-formed `D-Mon-YY(YY)` text that renders back to the input |
| DateUtils.MatchDayMonYearComplete | loan-collection-system/utils/dateUtils.ts:41 | every well-formed `D-Mon-YY(YY)` text is matched, with the same parts |
| DateUtils.MatchIso | loan-collection-system/utils/dateUtils.ts:60 | a match is a well-formed `YYYY-MM-DD` or `YYYY/MM/DD` text that renders back to the input |
| DateUtils.MatchIsoComplete | loan-collection-system/utils/dateUtils.ts:60 | every well-formed year-first text is matched, with the same parts |
| DateUtils.MatchMdy | loan-collection-system/utils/dateUtils.ts:74 | a match is a well-formed `M/D/YYYY` text that renders back to the input |
| DateUtils.MatchMdyComplete | loan-collection-system/utils/dateUtils.ts:74 | every well-formed month-first text is matched, with the same parts |
| DateUtils.TwoDigitYear | loan-collection-system/utils/dateUtils.ts:47-49 | a two-digit year becomes a year in 1950..2049 with the same last two digits |
| DateUtils.CheckedDateIsConstruction | loan-collection-system/utils/dateUtils.ts:51-56 | constructing the date and comparing its year, month and day gives a date iff the year is not 0..99, the month index is 0..11 and the day exists in that month, and then exactly that date |
| DateUtils.PatternDate | loan-collection-system/utils/dateUtils.ts:40-85 | every date the three patterns produce is a valid date with a year in 100..9999 |
| DateUtils.FallbackDate | loan-collection-system/utils/dateUtils.ts:88-97 | the host's reading is accepted iff it exists and its year is after 1900, and the day is kept |
| DateUtils.ParseText | loan-collection-system/utils/dateUtils.ts:33-99 | a blank text gives nothing; every result is a valid date with a year of at least 100 |
| DateUtils.ParseDate | loan-collection-system/utils/dateUtils.ts:21-99 | a missing cell gives nothing; every result is a valid date with a year of at least 100 |
| DateUtils.BlankIsNull | loan-collection-system/utils/dateUtils.ts:33-34 | a string that is blank after trimming gives null |
| DateUtils.ParsedTextShape | loan-collection-system/utils/dateUtils.ts:13 | every result with a four-digit year is a `YYYY-MM-DD` text that decodes to the parsed date |
| DateUtils.PatternWins | loan-collection-system/utils/dateUtils.ts:40-97 | a pattern match is returned before the host fallback is consulted |
| DateUtils.IsoIsNotDayMonYear | loan-collection-system/utils/dateUtils.ts:41 | a `YYYY-MM-DD` text never matches the day-month-year pattern |
| DateUtils.NormalisedTextIsStable | loan-collection-system/utils/dateUtils.ts:60-69 | the normaliser's own output for years 100..9999 is read back as the same date, whatever the host does |
| DateUtils.DayMonYearHasNoWhitespace | loan-collection-system/utils/dateUtils.ts:41 | a `D-Mon-YY` text has no white space, so trimming leaves it whole |
| DateUtils.DayMonYearReading | loan-collection-system/utils/dateUtils.ts:41-57 | a `D-Mon-YY(YY)` text whose date survives construction is read as that day, month and (expanded) year |
| DateUtils.MdyHasNoWhitespace | loan-collection-system/utils/dateUtils.ts:74 | a month-first text has no white space |
| DateUtils.MdyIsNotDayMonYear | loan-collection-system/utils/dateUtils.ts:41 | a month-first text never matches the day-month-year pattern |
| DateUtils.MdyIsNotIso | loan-collection-system/utils/dateUtils.ts:60 | a month-first text never matches the year-first pattern |
| DateUtils.MonthFirstReading | loan-collection-system/utils/dateUtils.ts:74-85 | a slash or dash text with a four-digit trailing year is read as month/day/year |
| DateUtils.MonthFirstExample | loan-collection-system/utils/dateUtils.ts:74-82 | `01/02/2024` is 2 January 2024 |
| DateUtils.DayMonYearExample | loan-collection-system/utils/dateUtils.ts:41-54 | `15-jan-24` is 15 January 2024 (month ignoring case, year 24 read as 2024) |
| DateUtils.DayMonYearIsNotIso | loan-collection-system/utils/dateUtils.ts:60 | a day-month-year text never matches the year-first pattern |
| DateUtils.DayMonYearIsNotMdy | loan-collection-system/utils/dateUtils.ts:74 | a day-month-year text never matches the month-first pattern |
| DateUtils.MdyPattern | loan-collection-system/utils/dateUtils.ts:40-85 | for a month-first text the patterns give exactly the checked date of its parts |
| DateUtils.FallsToMdy | loan-collection-system/utils/dateUtils.ts:40-85 | when neither the day-month-year nor the year-first shape matches, the month-first branch decides |
| DateUtils.DayMonYearPattern | loan-collection-system/utils/dateUtils.ts:41-57 | for a day-month-year text the patterns give exactly the checked date of its parts |
| DateUtils.ImpossibleDayRejected | loan-collection-system/utils/dateUtils.ts:52-54 | the three pattern branches reject `30-Feb-24` |
| Types.Filter | loan-collection-system/components/AdminDashboard.tsx:268 | `filter` keeps exactly the elements that pass, and no more of them |
| Types.FilterMultiset | loan-collection-system/components/AdminDashboard.tsx:208-216 | a filter and its complement share out every element exactly once |
| Types.FilterAppend | loan-collection-system/components/AdminDashboard.tsx:208 | filtering a concatenation filters each part |
| Types.FilterSplitCount | loan-collection-system/types.ts:34 | two complementary filters' lengths add up to the length of the list |
| LoanImport.HeaderKey | loan-collection-system/components/AdminDashboard.tsx:103 | a header key has no white space and no upper-case letter |
| LoanImport.HeaderKeyOfWords | loan-collection-system/components/AdminDashboard.tsx:103 | two words joined by a space give the lower-cased concatenation of the words as key |
| LoanImport.AccountNumberHeader | loan-collection-system/components/AdminDashboard.tsx:103-120 | the header `Loan Account Number` has key `loanaccountnumber`, which the switch maps to the account number |
| LoanImport.HeaderKeyOfKey | loan-collection-system/components/AdminDashboard.tsx:103 | a lower-case key without white space is its own header key |
| LoanImport.HeaderKeyIgnoresCase | loan-collection-system/components/AdminDashboard.tsx:103 | headers that differ only in case have the same key |
| LoanImport.HeaderKeyIgnoresSpace | loan-collection-system/components/AdminDashboard.tsx:103 | headers that differ only in a space have the same key |
| LoanImport.LastColumn | loan-collection-system/components/AdminDashboard.tsx:115-135 | the column found fills the field and no later column does |
| LoanImport.DraftStep | loan-collection-system/components/AdminDashboard.tsx:115-135 | one more column sets its field to the converted cell when the cell is present and the header known, and otherwise leaves the field as it was |
| LoanImport.LastColumnWins | loan-collection-system/components/AdminDashboard.tsx:115-135 | a field is set iff some column with a present cell maps to it, and it holds the rightmost such cell's converted value |
| LoanImport.FillDraft | loan-collection-system/components/AdminDashboard.tsx:115-135 | the column-by-column loop builds the draft that the fold over the columns defines |
| LoanImport.TermMonths | loan-collection-system/components/AdminDashboard.tsx:147-152 | by lower-cased product name: `small enterprise` 4 months, `medium enterprise capital expenditure` and `lease financing` 30, `commercial product one` 18; 0 for any other name and without a product |
| LoanImport.TermIgnoresCase | loan-collection-system/components/AdminDashboard.tsx:148 | the term depends on the product name only up to case |
| LoanImport.UnknownProductNoMaturity | loan-collection-system/components/AdminDashboard.tsx:148-159 | a product outside the table gives no maturity date |
| LoanImport.CommercialProductOneTerm | loan-collection-system/components/AdminDashboard.tsx:151 | `COMMERCIAL Product One` has an 18-month term |
| LoanImport.MaturityDate | loan-collection-system/components/AdminDashboard.tsx:144-162 | a maturity date exists iff there is a start date and a known product, and it is valid |
| LoanImport.MaturityShiftsMonths | loan-collection-system/components/AdminDashboard.tsx:144-162 | the maturity date is the start shifted by the term, with the day kept or rolled into the next month |
| LoanImport.SmallEnterpriseMaturity | loan-collection-system/seedData.ts:42-46 | a Small Enterprise loan started 2024-01-15 matures 2024-05-15 |
| LoanImport.LeaseFinancingMaturity | loan-collection-system/seedData.ts:70-74 | a Lease Financing loan started 2022-06-01 matures 2024-12-01 |
| LoanImport.PastDue | loan-collection-system/components/AdminDashboard.tsx:164-173 | the past-due date is set, to the repayment date, iff there is a repayment date, the balance is positive and today is after it |
| LoanImport.DraftOfDatesParsed | loan-collection-system/components/AdminDashboard.tsx:124-130 | every date in a draft came from the date normaliser |
| LoanImport.BuildLoan | loan-collection-system/components/AdminDashboard.tsx:106-175 | a loan is built iff the account number is non-empty and the amount positive; every text, number and amount field of the loan is the one the draft holds; it has the defaults and the derived fields |
| LoanImport.RowLoan | loan-collection-system/components/AdminDashboard.tsx:106-175 | each accepted row gives a fresh import with its own id |
| LoanImport.ImportRow | loan-collection-system/components/AdminDashboard.tsx:106-175 | the row callback gives the loan the row defines |
| LoanImport.HeaderKeys | loan-collection-system/components/AdminDashboard.tsx:103 | one key per header cell, in order |
| LoanImport.Somes | loan-collection-system/components/AdminDashboard.tsx:175 | dropping the nulls keeps every present value and leaves nothing iff every row was rejected |
| LoanImport.SomesComplete | loan-collection-system/components/AdminDashboard.tsx:175 | every present value is kept, at a position whose slot is its row |
| LoanImport.SomesOrigin | loan-collection-system/components/AdminDashboard.tsx:175 | each kept loan is the loan its row produced |
| LoanImport.SomesInOrder | loan-collection-system/components/AdminDashboard.tsx:175 | the kept loans come from strictly increasing row positions, so input order is kept |
| LoanImport.SomesFresh | loan-collection-system/components/AdminDashboard.tsx:175 | every kept loan is a fresh import |
| LoanImport.RowLoans | loan-collection-system/components/AdminDashboard.tsx:106 | one result per data row |
| LoanImport.ParseLoans | loan-collection-system/components/AdminDashboard.tsx:106-181 | every parsed loan is a fresh import, every accepted row's loan is in the list, and the list is empty iff every row was rejected |
| LoanImport.ParseLoansKeepsAccepted | loan-collection-system/components/AdminDashboard.tsx:106-175 | every accepted row's loan is in the list at the position whose slot is that row |
| LoanImport.ParsedIdsDistinct | loan-collection-system/components/AdminDashboard.tsx:108 | with distinct fresh ids the imported loans have distinct ids drawn from them |
| Distribution.Roster | loan-collection-system/components/AdminDashboard.tsx:204 | the roster is exactly the non-admin agents, and no longer than the agent list |
| Distribution.SettledIsNotInPool | loan-collection-system/types.ts:34 | with two statuses a loan is either settled or in the pool |
| Distribution.ModStep | loan-collection-system/components/AdminDashboard.tsx:211 | advancing the index modulo n keeps it equal to the count modulo n |
| Distribution.DistributeLoans | loan-collection-system/components/AdminDashboard.tsx:203-221 | the loop with its running agent index returns the distribution defined by dealing `pool[i]` to `roster[i mod n]` |
| Distribution.NoAgentsKeepsOnlyNewLoans | loan-collection-system/components/AdminDashboard.tsx:205 | with no collection agents the result is exactly the new loans |
| Distribution.RoundRobin | loan-collection-system/components/AdminDashboard.tsx:207-213 | pool loan k follows the kept loans and goes to roster agent k mod n |
| Distribution.NextAgent | loan-collection-system/components/AdminDashboard.tsx:211 | consecutive pool loans go to consecutive agents, wrapping after the last |
| Distribution.UniqueFilterKeepsAll | loan-collection-system/components/AdminDashboard.tsx:216-218 | with distinct ids the extra filter drops no settled loan |
| Distribution.NoPoolLoanSharesId | loan-collection-system/components/AdminDashboard.tsx:218 | with distinct ids no pool loan shares a paid-off loan's id |
| Distribution.UnassignedAll | loan-collection-system/components/AdminDashboard.tsx:212 | clearing assignments is done loan by loan |
| Distribution.UnassignedAppend | loan-collection-system/components/AdminDashboard.tsx:220 | clearing assignments distributes over concatenation |
| Distribution.UnassignedSplit | loan-collection-system/components/AdminDashboard.tsx:208-216 | settled and pool loans together are the whole list, up to assignment |
| Distribution.OnlyAssignmentChanges | loan-collection-system/components/AdminDashboard.tsx:203-221 | with distinct ids, distribution only changes `assignedAgentId`: every loan appears once |
| Distribution.DealtLoansAssigned | loan-collection-system/components/AdminDashboard.tsx:209-213 | every dealt loan is assigned to a non-admin agent |
| Distribution.NothingToDeal | loan-collection-system/components/AdminDashboard.tsx:208-220 | with no new loans and nothing unassigned, the list is unchanged |
| Distribution.RedistributeIsNoOp | loan-collection-system/components/AdminDashboard.tsx:203-221 | distributing again with no new loans changes nothing |
| LoanLists.Search | loan-collection-system/components/AdminDashboard.tsx:284-292 | a blank term shows all loans; otherwise exactly those whose client, account number or phone contains the lower-cased term |
| LoanLists.SearchIdempotent | loan-collection-system/components/AdminDashboard.tsx:284-292 | searching the result again with the same term finds the same loans |
| LoanLists.SearchIgnoresCase | loan-collection-system/components/AdminDashboard.tsx:286 | the search gives the same loans for a term and its lower-case form |
| LoanLists.AgentLoans | loan-collection-system/components/AgentDashboard.tsx:38-48 | only the agent's own loans, no more of them than the loan list holds; all of them for a blank term, otherwise exactly the matching ones |
| LoanLists.RemoveAgent | loan-collection-system/components/AdminDashboard.tsx:251 | exactly the agents with another id remain |
| LoanLists.UnassignAgent | loan-collection-system/components/AdminDashboard.tsx:252-254 | no loan is left assigned to the agent, only `assignedAgentId` changes, and other agents' loans are unchanged |
| LoanLists.DeleteAgentLeavesNoOrphans | loan-collection-system/components/AdminDashboard.tsx:248-258 | if every assigned loan pointed at a listed agent, that still holds after the deletion |
| LoanLists.RemoveLoan | loan-collection-system/components/AdminDashboard.tsx:268 | exactly the loans with another id remain |
| LoanLists.RemoveLoanKeepsOthers | loan-collection-system/components/AdminDashboard.tsx:268 | the remaining loans and the removed ones together are the old list |
| LoanLists.UpdateRemark | loan-collection-system/App.tsx:147-153 | only the remark changes, and only on loans with that id; length and order are kept |
| LoanLists.LogAgentName | loan-collection-system/App.tsx:159-164 | the name is a matching agent's name or `Unknown Agent`, and `Unknown Agent` when no agent has the id |
| LoanLists.LogAgentNameIsFirst | loan-collection-system/App.tsx:159-164 | the name is that of the first agent with the id, or `Unknown Agent` when that agent's name is blank |
| LoanLists.AddCommunication | loan-collection-system/App.tsx:155-176 | the new entry, dated today, with the given id, type, notes, agent id and the agent's name, goes in front of the history of the loans with that id; nothing else changes |
| LoanLists.Stats | loan-collection-system/components/AdminDashboard.tsx:294-311 | a row carries the agent's id and name, the count of the loans assigned to that agent, how many of them are paid off and how many outstanding, their payment count, and the sums of their original amounts, collected payments and outstanding balances |
| LoanLists.AgentPerformance | loan-collection-system/components/AdminDashboard.tsx:294-313 | one row per collection agent, in roster order |
| LoanLists.PerformanceCountsAdd | loan-collection-system/components/AdminDashboard.tsx:305-310 | row i is for the i-th non-admin agent, counts exactly that agent's loans, and counts each of them once as paid off or outstanding |
| LoanPayments.PassDueAfterPayment | loan-collection-system/components/AgentDashboard.tsx:57-72 | cleared without a balance or repayment date, or before the due day; once due it is kept if set, else set to the repayment date |
| LoanPayments.PassDueAgreesWithImport | loan-collection-system/components/AgentDashboard.tsx:57-72 | for a loan as the importer leaves it, the payment rule agrees with the import rule |
| LoanPayments.ClampAtZero | loan-collection-system/components/AgentDashboard.tsx:54 | `Math.max(0, x)` is non-negative, at least x, and equals x or 0 |
| LoanPayments.ApplyPayment | loan-collection-system/components/AgentDashboard.tsx:53-80 | balance less the amount but not below 0, payment dated today appended, status Paid Off iff nothing is owed; all other fields unchanged |
| LoanPayments.BalanceNeverIncreases | loan-collection-system/components/AgentDashboard.tsx:54 | a non-negative payment never raises a non-negative balance |
| LoanPayments.PaymentConserves | loan-collection-system/components/AgentDashboard.tsx:54-55 | within the balance, the balance falls by the amount and balance plus payments is unchanged |
| LoanPayments.RecordPaymentIn | loan-collection-system/components/AgentDashboard.tsx:50-90 | loans with that id are paid and every other loan is unchanged; length and order are kept |
| LoanPayments.RecordPaymentPrefix | loan-collection-system/components/AgentDashboard.tsx:52 | the update works loan by loan |
| LoanPayments.RecordPaymentConserves | loan-collection-system/components/AgentDashboard.tsx:50-90 | within every balance, outstanding plus collected and the amounts lent are unchanged over the list |
| LoanPayments.RecordPaymentCons | loan-collection-system/components/AgentDashboard.tsx:52 | the update of a list is the update of its head followed by that of its tail |
| LoanPayments.PaymentCommutesWithFilter | loan-collection-system/components/AgentDashboard.tsx:52-80 | paying then selecting is selecting then paying, for any selection that ignores the paid fields |
| LoanPayments.PaymentKeepsAgentTotals | loan-collection-system/components/AdminDashboard.tsx:294-311 | an accepted payment keeps each agent's outstanding plus collected, amount lent and loan count |
| LoanPayments.CheckPayment | loan-collection-system/components/RecordPaymentModal.tsx:24-41 | no loan: nothing; NaN or ≤ 0: invalid; above the balance: refused; up to and including the balance: accepted with the loan's id and the amount |
| LoanPayments.AcceptedPaymentIsExact | loan-collection-system/components/RecordPaymentModal.tsx:31-35 | under the form's guard the clamp never triggers |
| LoanPayments.PaymentForm.Submit | loan-collection-system/components/RecordPaymentModal.tsx:24-41 | only an accepted amount makes the call (once, with id and amount), shows success and clears the field; refusals set their message |
| LoanPayments.PaymentForm.Type | loan-collection-system/components/RecordPaymentModal.tsx:55 | typing sets the amount text |
| LoanPayments.PaymentForm.constructor | loan-collection-system/components/RecordPaymentModal.tsx:16-21 | opening the form clears the amount and the message |
| App.NormaliseLoaded | loan-collection-system/App.tsx:76-79 | a loaded loan keeps every field, and its history becomes empty when it was not an array |
| App.NormaliseKeepsDates | loan-collection-system/App.tsx:76-79 | normalising keeps the loans' dates valid |
| App.LoadLoans | loan-collection-system/App.tsx:71-83 | nothing stored gives the seed loans; stored loans are normalised; unreadable storage gives the seed loans with empty histories |
| App.LoadAgents | loan-collection-system/App.tsx:62-69 | the stored agents, or else the seed agents |
| App.RestoreUser | loan-collection-system/App.tsx:85-97 | the stored user is restored iff some agent has both its id and its username |
| App.FindByUsername | loan-collection-system/App.tsx:134 | an agent is found iff some username matches ignoring case, and it matches |
| App.FindByUsernameIsFirst | loan-collection-system/App.tsx:134 | the agent found is the first match |
| App.LoginIgnoresCase | loan-collection-system/App.tsx:134 | a username and its lower-case form log in the same agent |
| App.UnassignKeepsDates | loan-collection-system/components/AdminDashboard.tsx:252-254 | the cascade keeps every loan date valid |
| App.RemarkKeepsDates | loan-collection-system/App.tsx:147-153 | a remark edit keeps every loan date valid |
| App.CommunicationKeepsDates | loan-collection-system/App.tsx:155-176 | logging keeps every loan date valid |
| App.DistributionKeepsDates | loan-collection-system/components/AdminDashboard.tsx:203-221 | distribution keeps every loan date valid |
| App.LoanApp.constructor | loan-collection-system/App.tsx:62-97 | start-up restores agents, loans and the session, and no upload is pending |
| App.LoanApp.Login | loan-collection-system/App.tsx:133-141 | success logs in the first case-insensitive match and clears the error; failure sets the error and keeps the user |
| App.LoanApp.Logout | loan-collection-system/App.tsx:143-145 | nobody is logged in and nothing else changes |
| App.LoanApp.UpdateLoanRemark | loan-collection-system/App.tsx:147-153 | the loans become the remark update and nothing else changes |
| App.LoanApp.AddCommunicationLog | loan-collection-system/App.tsx:155-176 | the loans become the log prepend and nothing else changes |
| App.LoanApp.RecordPayment | loan-collection-system/components/AgentDashboard.tsx:50-90 | the loans become the payment update and nothing else changes |
| App.LoanApp.AddAgent | loan-collection-system/components/AdminDashboard.tsx:242-246 | a non-admin agent with the fresh id is appended |
| App.LoanApp.DeleteAgent | loan-collection-system/components/AdminDashboard.tsx:248-258 | an empty id does nothing; otherwise the agent goes and its loans are unassigned |
| App.LoanApp.DeleteLoan | loan-collection-system/components/AdminDashboard.tsx:265-272 | an empty id does nothing; otherwise the loans with that id go |
| App.LoanApp.UploadRows | loan-collection-system/components/AdminDashboard.tsx:82-186 | refused without collection agents, then without a data row; otherwise the upload fails with no valid loans exactly when every row is rejected, and the parsed loans wait for confirmation exactly when some survive |
| App.LoanApp.ConfirmDistribution | loan-collection-system/components/AdminDashboard.tsx:224-239 | the loans become the distribution of the waiting upload, and the prompt closes |
| App.LoanApp.CancelDistribution | loan-collection-system/components/AdminDashboard.tsx:230-239 | the waiting loans are appended unassigned, and the prompt closes |

## Left out

- Reading and writing `localStorage`, `JSON.parse`/`JSON.stringify`, loading SheetJS, and `FileReader`/`XLSX.read`/`sheet_to_json`: I/O. The importer starts from rows of cells already read, and start-up from what each storage slot held.
- The upload guards for the library not being loaded and for no file being selected (`components/AdminDashboard.tsx:74-81`): they depend on I/O state.
- `uuidv4`: fresh ids are parameters. The model assumes they are distinct where that matters (`LoanImport.ParsedIdsDistinct`). The communication log draws one id per matching loan; `LoanLists.AddCommunication` uses one id for every loan with the given id.
- Time zones: every date is read as UTC. A local zone can shift a `toISOString` result by a day.
- The `Date` time-value range (±8.64e15 ms): a serial or fallback date beyond it is not modelled.
- Floating-point rounding, `Infinity` and `-0`: amounts are exact reals, and `parseFloat` returns a finite number or NaN.
- `toFixed`, the chart percentages and `maxOutstandingForChart`: display only.
- Case mapping outside ASCII: `toLowerCase` is modelled on ASCII letters only.
- The expanded-year form `+YYYYYY` that `toISOString` gives for years above 9999: `IsoDate.IsoRoundTrip` covers years 0..9999 only.
- `setTimeout` message clearing and closing of the forms, and keeping `selectedLoanForModal` in step with the list.
- The user-facing messages are reduced to enumerations (`App.LoginError`, `LoanPayments.PaymentMessage`, `App.UploadOutcome`). The dashboard's own messages are not modelled.
- The add-agent form's trim check (`components/AddAgentModal.tsx:24-36`). `App.LoanApp.AddAgent` takes the trimmed name and username as given.
- The upload branch that appends without distributing (`components/AdminDashboard.tsx:186-190`): it is unreachable, because the list parsed there is never empty.
- `undefined` and `null` in optional fields are both `None`.
- Stored loans are taken to hold valid dates (`App.LoanApp.constructor` requires it). A stored date that `new Date` cannot read would make the payment's past-due comparisons false; that case is not modelled.
- LoanLists.Search: the ensures states which loans are kept, not their order. The order is that of `Types.Filter`, which keeps input order by definition.
- LoanLists.RemoveAgent: the ensures states which agents remain, not their order. The order is that of `Types.Filter`.
- LoanLists.RemoveLoan: the ensures states which loans remain, not their order. The order is that of `Types.Filter`.
- LoanLists.AgentLoans: the ensures states which loans the agent sees and bounds their number by the loan list's length. It does not state their order or how often each appears. The order is that of `Types.Filter`, which keeps input order by definition.
- Distribution.Roster: the ensures states which agents are on the roster and bounds their number by the agent list's length. It does not state their order or how often each appears. `Distribution.RoundRobin` and `LoanLists.AgentPerformance` index the roster, so which agent gets which pool loan and which row comes where rest on that order, which is the order of `Types.Filter`.
- seedData.ts is constants: only two seed loans appear, as maturity examples.
