# Ledger bookkeeping in Dafny

This project models the bookkeeping core of the Ledger personal-finance
application (`DatabaseHandler.java` and the entry rules in `Main.java`) and proves
properties of that model.

The application keeps four tables; the model covers three of them:

- **transactions**: rows are only appended. A user's balance is the signed sum of that user's rows. A "Debit" adds its amount, a "Credit" subtracts it, and any other type adds nothing.
- **savings**: at most one profile per user, holding a skim percentage and a saved amount.
- **loans**: each row carries the amortised terms, the outstanding balance and an active/repaid status.
- **users**: not part of this model (see below).

The `Database.Store` class holds these tables as fields. Its methods are the
operations that INSERT into or UPDATE them: `saveTransaction`, `activateSavings`,
`processSavingsOnDebit`, `transferSavingsToBalance`, `applyLoan`, `repayLoan`, and
the scheduler's daily tick. `checkLoanReminders` is a method too, but it only
reads the loans table: its loop collects the reminders it would print.

The read-only aggregates are functions on the table contents: `getBalance`,
`getSavings`, `getLoanBalance` and `isBlocked`'s WHERE clause.

The calendar helpers follow `java.time.LocalDate` over the proleptic Gregorian
calendar. They cover the month-end tick, the delay until month end, and
`plusMonths` with its day clamping. The delay is `ChronoUnit.DAYS.between`, which
`LocalDate` computes as a difference of `toEpochDay` values. That formula is
modelled as written (`Calendar.EpochDay`), and `Calendar.EpochDayCountsDays` proves
that consecutive days are one epoch day apart, so `DaysBetween` counts days between
any two dates, not only within one month.

The front end is modelled as follows:

- the registration validators are read from their regular expressions, then characterised by character classes;
- `handleDebit`, `handleCredit` and `setupSavings` are methods over the store that take the values the menus read;
- `filterHistory` is modelled as the result its assembled query denotes.

Conventions:

- Money is `real`.
- A description's length is counted in UTF-16 code units, as `String.length()` counts it.
- The `timestamp` and `created_at` columns become two things: an insertion stamp from the store's `clock`, which gives their order, and a `Date`, which gives their calendar day.
- The current date is a parameter (`today`).

Modules: `Common`, `Text`, `Calendar`, `Ledger`, `Savings`, `Loans`,
`Database`, `Validators`, `Entries`, `History`.

## Model

| member | source | states |
|---|---|---|
| Ledger.Signed | src/main/java/org/example/DatabaseHandler.java:528-531 | a Debit row counts +amount, a Credit row −amount, any other type 0 |
| Ledger.Balance | src/main/java/org/example/DatabaseHandler.java:527-544 | `getBalance`: the sum of `Signed` over the user's rows, 0 for a user without rows |
| Ledger.BalanceIsDebitsMinusCredits | src/main/java/org/example/DatabaseHandler.java:527-544 | a user's balance equals the total of the user's Debits minus the total of the user's Credits |
| Ledger.BalanceAfterAppend | src/main/java/org/example/DatabaseHandler.java:171-179 | appending one row moves its owner's balance by +amount for a Debit and −amount for a Credit; every other user's balance is unchanged |
| Ledger.BalanceOfConcat | src/main/java/org/example/DatabaseHandler.java:527-544 | the balance of two batches of rows is the sum of their balances |
| Ledger.BalanceWithoutRows | src/main/java/org/example/DatabaseHandler.java:536-544 | a user with no rows has balance 0, whatever other users hold |
| Ledger.BalanceOfDistinctCredits | src/main/java/org/example/DatabaseHandler.java:527-544 | among Credit rows with pairwise distinct owners, a user's balance is minus that user's one amount |
| Savings.SavedAmount | src/main/java/org/example/DatabaseHandler.java:385-395 | `getSavings` returns the saved amount of the profile, and 0 when the user has none |
| Savings.Activated | src/main/java/org/example/DatabaseHandler.java:327-356 | upsert: the user gains a profile if missing; its percentage is set; its saved amount is the old one (0 for a new row); other profiles are unchanged |
| Savings.SkimAmount | src/main/java/org/example/DatabaseHandler.java:370 | the skim is amount × (percentage / 100); for a non-negative amount and a percentage from 0 to 100 it lies between 0 and the amount |
| Savings.Skimmed | src/main/java/org/example/DatabaseHandler.java:362-379 | with a profile, the saved amount rises by exactly amount × percentage / 100 and the percentage is kept; without one nothing changes |
| Savings.SkimsAccumulate | src/main/java/org/example/DatabaseHandler.java:370-374 | two skims add up to one skim on the summed amount |
| Savings.Savers | src/main/java/org/example/DatabaseHandler.java:278 | the sweep selects exactly the profiles with saved amount > 0 |
| Savings.SweptFor | src/main/java/org/example/DatabaseHandler.java:293-297 | swept users end at saved amount 0; other profiles are unchanged; no percentage changes |
| Savings.Swept | src/main/java/org/example/DatabaseHandler.java:277-300 | after the sweep every profile keeps its percentage and keys; a positive saved amount becomes 0, any other stays |
| Savings.SweepIsIdempotent | src/main/java/org/example/DatabaseHandler.java:277-300 | after a sweep nobody is selected, so sweeping again changes nothing |
| Savings.SweepResetsOnlySavers | src/main/java/org/example/DatabaseHandler.java:278-297 | profiles with saved amount ≤ 0 are untouched; selected ones end at 0; percentages never change |
| Savings.SweepLowersBalance | src/main/java/org/example/DatabaseHandler.java:285-290 | the sweep's Credit rows lower each saver's balance by the swept amount and move nobody else's |
| Savings.SecondSweepAppendsNothing | src/main/java/org/example/DatabaseHandler.java:277-300 | a sweep right after a sweep, with no skim between, appends no rows |
| Loans.NewLoan | src/main/java/org/example/DatabaseHandler.java:416-426 | the rate is stored as input / 100; the loan is active; outstanding = principal × (1 + rate); monthly × period = outstanding; when something is owed, the instalment is positive for a positive period and negative for a negative one |
| Loans.LatestRepayable | src/main/java/org/example/DatabaseHandler.java:444-453 | the selected loan is the user's last active loan with outstanding > 0; None exactly when no loan qualifies |
| Loans.LatestIsMostRecent | src/main/java/org/example/DatabaseHandler.java:444 | in a well-formed table the selected loan has the latest creation stamp among qualifying loans |
| Loans.Payment | src/main/java/org/example/DatabaseHandler.java:458 | `Math.min`: the payment is at most the outstanding balance and at most the instalment, and equals one of them |
| Loans.AfterRepayment | src/main/java/org/example/DatabaseHandler.java:458-478 | the payment is min(outstanding, monthly); outstanding never goes negative and strictly falls when the instalment is positive; status becomes repaid iff at most 0.01 remains; nothing else changes |
| Loans.RepaymentKeepsWellFormed | src/main/java/org/example/DatabaseHandler.java:472-478 | a repayment keeps the loans table's invariants |
| Loans.RepaymentProgress | src/main/java/org/example/DatabaseHandler.java:456-476 | while the loan stays active, k requests have paid k full instalments |
| Loans.RepaidWithinTerm | src/main/java/org/example/DatabaseHandler.java:456-476 | once n instalments cover the balance, n requests leave the loan repaid |
| Loans.ActiveBeforeTerm | src/main/java/org/example/DatabaseHandler.java:456-476 | fewer requests, leaving more than 0.01 owing, leave the loan active with exactly k instalments paid |
| Loans.RepaidIsTerminal | src/main/java/org/example/DatabaseHandler.java:444 | a repaid loan is never selected again, so the status never goes back |
| Loans.NegativePeriodGrowsDebt | src/main/java/org/example/DatabaseHandler.java:416-476 | as written, 1200 at 5% over −12 months gives an instalment of −105; one repayment raises the outstanding balance to 1365 and two to 1470, with the loan still active |
| Loans.ApprovedLoanShrinks | src/main/java/org/example/DatabaseHandler.java:421-476 | with a positive period, principal and balance, the first payment is positive and lowers the outstanding balance |
| Loans.WorkedExample | src/main/java/org/example/DatabaseHandler.java:416-476 | 1200 at 5% over 12 months gives 1260 owed in instalments of 105; the loan is active after 11 repayments and repaid after 12 |
| Loans.LoanBalance | src/main/java/org/example/DatabaseHandler.java:503-513 | `getLoanBalance` is never negative and is 0 exactly when the user has no active loan with outstanding > 0 |
| Loans.LoanBalanceUpdate | src/main/java/org/example/DatabaseHandler.java:504 | replacing one loan row changes the sum by the difference of the two rows' shares |
| Loans.RepaymentLowersLoanBalance | src/main/java/org/example/DatabaseHandler.java:472-478 | a repayment lowers the user's loan balance by the payment (and by any closing remainder); other users' totals do not move |
| Loans.IsBlocked | src/main/java/org/example/DatabaseHandler.java:515-525 | the user has a loan that is active, owes more than 0 and whose term has run out (an abstract condition on creation date and period) |
| Loans.BlockedUserOwes | src/main/java/org/example/DatabaseHandler.java:516 | a repaid loan, or one with nothing outstanding, never meets the blocking WHERE clause; a blocked user has a positive loan balance |
| Loans.RepaymentNeverBlocks | src/main/java/org/example/DatabaseHandler.java:516 | a repayment can lift a block but never impose one |
| Loans.DueDate | src/main/java/org/example/DatabaseHandler.java:197-201 | the due date is the creation date plus the period in months: a valid date whose month index is the creation month's plus the period, on a day no later than the creation day |
| Loans.RemindsOf | src/main/java/org/example/DatabaseHandler.java:187-203 | a reminder is due for an active loan of the user, whatever it owes, whose due date is not before today |
| Loans.Reminders | src/main/java/org/example/DatabaseHandler.java:196-207 | one reminder per selected loan, in table order, with its due date and outstanding balance |
| Loans.RemindersMatchLoans | src/main/java/org/example/DatabaseHandler.java:187-208 | one reminder per active loan of the user whose creation date plus its period in months is not before today, carrying that due date and the balance; the number of reminders equals the number of selected loans |
| Loans.RemindersCount | src/main/java/org/example/DatabaseHandler.java:196-208 | the reminder list has exactly as many entries as there are loan positions that qualify |
| Loans.NewLoanIsReminded | src/main/java/org/example/DatabaseHandler.java:200-203 | a loan taken out today is always reminded of |
| Calendar.LengthOfMonth | src/main/java/org/example/DatabaseHandler.java:268 | month lengths of the Gregorian calendar: 28 to 31 days, 29 in February exactly in leap years |
| Calendar.LeapDaysStep | src/main/java/org/example/DatabaseHandler.java:274 | the epoch-day leap count grows by one exactly across leap years, on both sides of year 0 |
| Calendar.EpochDayCountsDays | src/main/java/org/example/DatabaseHandler.java:274 | consecutive valid days are one epoch day apart, across month and year ends |
| Calendar.EpochStartsIn1970 | src/main/java/org/example/DatabaseHandler.java:274 | day 0 is 1970-01-01 and 2000-03-01 is day 11017 |
| Calendar.WithDayOfMonth | src/main/java/org/example/DatabaseHandler.java:273 | only the day changes |
| Calendar.IsLastDayOfMonth | src/main/java/org/example/DatabaseHandler.java:266-269 | today is the last day of its month exactly when its day equals the month's length |
| Calendar.DaysUntilMonthEnd | src/main/java/org/example/DatabaseHandler.java:271-275 | the delay is lengthOfMonth − dayOfMonth, never negative, and 0 exactly on the last day of the month |
| Calendar.PlusMonths | src/main/java/org/example/DatabaseHandler.java:201 | months move by the given count; the day is kept or clamped to the target month's length; valid dates stay valid |
| Calendar.PlusMonthsNotBefore | src/main/java/org/example/DatabaseHandler.java:201-203 | adding a non-negative number of months never yields an earlier date |
| Calendar.PlusMonthsCompose | src/main/java/org/example/DatabaseHandler.java:201 | for days up to the 28th, adding a then b months equals adding a + b |
| Calendar.PlusMonthsClampsToFebruary | src/main/java/org/example/DatabaseHandler.java:201 | 31 January 2024 plus one month is 29 February 2024; 31 March 2023 minus one month is 28 February 2023 |
| Database.Store.constructor | src/main/java/org/example/DatabaseHandler.java:56-91 | the tables start empty |
| Database.Store.SaveTransaction | src/main/java/org/example/DatabaseHandler.java:171-179 | appends exactly one row with the given fields and leaves existing rows, savings and loans untouched; balances move by that row's signed amount only |
| Database.Store.ActivateSavings | src/main/java/org/example/DatabaseHandler.java:327-356 | the profiles become `Activated` of the old profiles; no other table changes |
| Database.Store.ProcessSavingsOnDebit | src/main/java/org/example/DatabaseHandler.java:362-379 | the profiles become `Skimmed` of the old profiles; no other table changes |
| Database.Store.TransferSavingsToBalance | src/main/java/org/example/DatabaseHandler.java:277-301 | appends one Credit "Monthly savings transfer" of the saved amount per selected profile, each user once, dated today with consecutive stamps, after the untouched old rows; resets exactly those profiles to 0; each saver's balance drops by the swept amount |
| Database.Store.TransferOne | src/main/java/org/example/DatabaseHandler.java:286-297 | one pass of the sweep loop: one Credit of the user's saved amount, then that amount reset to 0 |
| Database.Store.ApplyLoan | src/main/java/org/example/DatabaseHandler.java:411-441 | a period below 1 is refused and changes nothing (corrected, see Findings); otherwise it appends the `NewLoan` row, then a Debit "Loan disbursement" of the principal (not the total), which raises the balance by the principal, and the table invariants hold |
| Database.Store.RepayLoan | src/main/java/org/example/DatabaseHandler.java:443-501 | with no qualifying loan nothing changes; otherwise one Credit "Loan repayment" of the payment and the selected loan's update happen together, other loans are unchanged; the balance falls by the payment and the loan balance by at least the payment (by the whole remainder when the loan closes) |
| Database.Store.CheckLoanReminders | src/main/java/org/example/DatabaseHandler.java:186-212 | the loop collects exactly `Reminders` of the table, and `hasReminder` is set iff some loan is reminded of |
| Database.Store.MonthlyTick | src/main/java/org/example/DatabaseHandler.java:259-263 | on the last day of the month the tick sweeps, and the new rows are dated today and carry consecutive stamps from the old clock, which advances by their number; on any other day nothing changes |
| Validators.OneOrMoreIff | src/main/java/org/example/Main.java:99 | `[class]+` matches exactly the non-empty strings over the class |
| Validators.IsValidName | src/main/java/org/example/Main.java:98-100 | the whole name matches `[a-zA-Z0-9]+` |
| Validators.NameRule | src/main/java/org/example/Main.java:98-100 | a name is valid iff it is non-empty and made only of ASCII letters and digits |
| Validators.IsValidPassword | src/main/java/org/example/Main.java:102-104 | the four lookaheads each find their class after a run of non-terminators, and the whole password is at least 8 characters of `.` |
| Validators.PasswordRule | src/main/java/org/example/Main.java:102-104 | a password is valid iff it has ≥ 8 characters, no line terminator, and at least one a-z, one A-Z, one digit and one character outside [A-Za-z0-9] |
| Validators.EightCharacterPassword | src/main/java/org/example/Main.java:103 | "aA1!aA1!" is accepted |
| Validators.LastIndexOf | src/main/java/org/example/Main.java:107 | the split point of the expression: the last position holding the character, or −1 when there is none |
| Validators.IsValidEmail | src/main/java/org/example/Main.java:106-109 | some choice of the '@' and the literal dot splits the address into the three parts of the expression |
| Validators.EmailRuleIff | src/main/java/org/example/Main.java:106-109 | an address matches iff the local part before its '@' is non-empty over [A-Za-z0-9+_.-], the part up to its last '.' is non-empty over [A-Za-z0-9.-], and at least two ASCII letters follow |
| Validators.EmailSplitIsUnique | src/main/java/org/example/Main.java:107 | in any match the '@' is the only one in the address and the literal dot is the last dot |
| Validators.EmailAccepted | src/main/java/org/example/Main.java:107 | "a.b@x.y.io" is accepted |
| Validators.EmailRefused | src/main/java/org/example/Main.java:107 | "a@b.c" is refused |
| Entries.CreditCheck | src/main/java/org/example/Main.java:218-241 | blocked first; then invalid iff amount ≤ 0, > 1,000,000 or description longer than 100; then insufficient iff amount > balance; recorded otherwise |
| Entries.DebitCheck | src/main/java/org/example/Main.java:254-272 | blocked first; recorded iff amount > 0 and description at most 100; never refused for balance |
| Entries.CreditBoundaries | src/main/java/org/example/Main.java:233-241 | amount = balance, amount = 1,000,000 and a 100-unit description are accepted; 1,000,000.01, 0 and a 101-unit description are not |
| Entries.DescriptionLength | src/main/java/org/example/Main.java:269 | more than 100 characters is refused; up to 100 Basic Multilingual Plane characters pass |
| Entries.HandleCredit | src/main/java/org/example/Main.java:215-249 | the outcome is `CreditCheck` on the blocking verdict and the opening balance; only on success does it append one Credit, advance the clock by one and skim savings on the same amount, and the balance falls by the amount and stays ≥ 0 |
| Entries.HandleDebit | src/main/java/org/example/Main.java:251-277 | the outcome is `DebitCheck`; only on success does it append one Debit and advance the clock by one; the Debit raises the balance by the amount; savings are untouched |
| Entries.SetupSavings | src/main/java/org/example/Main.java:279-299 | savings are activated iff the user confirms and 1 ≤ percentage ≤ 100; otherwise nothing changes |
| Text.Utf16Length | src/main/java/org/example/Main.java:233 | the Java length lies between the character count and twice it |
| Text.Utf16LengthOfBasicPlane | src/main/java/org/example/Main.java:233 | for text of the Basic Multilingual Plane the Java length is the character count |
| Text.Utf16LengthOfAppend | src/main/java/org/example/Main.java:233 | the Java length of a concatenation is the sum of the lengths |
| Text.Lower | src/main/java/org/example/Main.java:406 | SQL `LOWER` keeps the length and lower-cases exactly the ASCII capitals |
| Text.LowerIsIdempotent | src/main/java/org/example/Main.java:406 | lower-casing twice is lower-casing once, so a string equals its own lower-case form ignoring case |
| History.FilteredMembers | src/main/java/org/example/Main.java:385-420 | a row is listed iff it is the user's and passes every chosen filter: inclusive date range, case-insensitive type, inclusive amount range |
| History.Matches | src/main/java/org/example/Main.java:385-420 | the WHERE clause: the user's row, inside the date range if chosen, of the chosen type ignoring case, inside the amount range if chosen |
| History.Filtered | src/main/java/org/example/Main.java:385-420 | the matching rows in table order, never more than the table holds |
| History.FilteredKeepsOrder | src/main/java/org/example/Main.java:385-420 | without ORDER BY the rows keep table order, so their stamps strictly increase |
| History.FiltersNarrow | src/main/java/org/example/Main.java:389-420 | turning any filter off can only widen the result |
| History.UnfilteredIsWholeHistory | src/main/java/org/example/Main.java:385-387 | with every filter off the result is the user's whole history |
| History.UnfilteredBalance | src/main/java/org/example/Main.java:385-387 | the signed sum of the unfiltered history is the user's balance |
| History.TypeFilterIgnoresCase | src/main/java/org/example/Main.java:406 | "dEBIT" selects Debit rows and "Credit" does not |
| History.SortColumn | src/main/java/org/example/Main.java:426-433 | only the lower-cased fields "date" and "amount" add an ORDER BY; anything else adds none |
| History.Insert | src/main/java/org/example/Main.java:430-432 | insertion adds exactly the one row |
| History.InsertWithKey | src/main/java/org/example/Main.java:430-432 | in an ordered sequence, the inserted row goes after every row with its key, and the other rows of each key keep their order |
| History.InsertKeepsOrder | src/main/java/org/example/Main.java:430-432 | inserting into an ordered sequence keeps it ordered |
| History.TiesKeepTableOrder | src/main/java/org/example/Main.java:430-432 | two rows with equal keys come out in table order |
| History.SortIsStable | src/main/java/org/example/Main.java:430-432 | for every input and every key, the rows holding that key come out of ORDER BY in table order |
| History.SortBy | src/main/java/org/example/Main.java:430-432 | ORDER BY gives a permutation of the rows that is ordered by the column in the chosen direction |
| History.Query | src/main/java/org/example/Main.java:384-434 | the listing holds exactly the matching rows; it is ordered when the field is accepted, and in table order otherwise |
| History.DateOrderIsTableOrder | src/main/java/org/example/Main.java:429-430 | ordering by date ascending lists a chronological table in table order |
| History.SortedDistinctIsUnique | src/main/java/org/example/Main.java:429-430 | two orderings of the same rows by strictly increasing stamp are equal |

## Left out

- The `users` table, `userExists`, `insertUser`, `validateUser` and `getUserId` are not part of this model. They are lookups plus BCrypt hashing, which is a foreign library.
- JDBC and SQLite plumbing is not modelled: the connection, table creation, closing, and autocommit toggling. Each operation is one atomic step on the store.
- The scheduler thread is reduced to one daily tick (`Database.Store.MonthlyTick`) plus the delay arithmetic (`Calendar.DaysUntilMonthEnd`). Its start, its shutdown and the executor's timing are not modelled.
- Printing and export are not modelled: `showHistory`, `exportToCSV`, `exportVisualizationData` and all console output. The reminder lines and the filtered listing are returned as values instead.
- Menus and console input loops are left out. The values they read arrive as parameters. `Entries.SetupSavings` takes the answer to the Y/N prompt as a boolean.
- `depositInterestPredictor` is left out. It is display-only arithmetic.
- `double` rounding is not modelled. Money is exact `real` arithmetic.
- The current date and time are parameters (`today`). Timestamp order is an insertion counter. Seconds-level ties in the `timestamp` and `created_at` columns are not modelled: two rows inserted in the same second are ordered by insertion. In particular `Loans.LatestRepayable` picks the later of two loans created in the same second, where SQLite's `ORDER BY created_at DESC LIMIT 1` may return either.
- Time zones are not modelled. The `timestamp` and `created_at` defaults are `CURRENT_TIMESTAMP`, a UTC time, while `LocalDate.now()` gives the local date. Each operation takes its own `today` and each row its own `Date`, so the two can differ near midnight, but the model does not relate them.
- Calendar years are unbounded. `LocalDate`'s ±999,999,999 year range check is not modelled.
- Loans.IsBlocked: the check as written binds the integer user id to the email parameter and compares `created_at` with a quoted literal date modifier. Only the status and outstanding conjuncts are modelled. Whether a loan's term has run out is an abstract predicate parameter. The model does not claim the check ever returns true in practice.
- Database.Store.TransferSavingsToBalance: the sweep is one all-or-nothing step. `saveTransaction` swallows its own SQL errors, so the rollback path cannot undo a failed insert. That partial-failure interleaving is not modelled.
- Database.Store.ApplyLoan: refuses a period below 1, which the source does not (see Findings). In the source, a period of 0 divides by zero in floating point and stores an infinite or NaN instalment; such a row is not modelled. A negative period is modelled by `Loans.NewLoan` and `Loans.NegativePeriodGrowsDebt`.
- History.Query: the sort direction is an Asc/Desc value, not the raw order text that is upper-cased and appended to the SQL as typed. An empty answer leaves `ORDER BY timestamp ` with no direction, which SQLite runs as ascending, so it is Asc here. Other text either makes the query fail or rewrites it (`DESC, amount` adds a second sort key); neither is modelled.
- History.Query: SQLite may return rows with equal sort keys in any order. The model keeps them in table order for any input (`History.SortIsStable`).
- History.Query: a query without ORDER BY is taken to return rows in table order.
- Loans.Reminders: the reminder query has no ORDER BY either. Its rows are likewise taken in table order.
- History.Matches: the date filter compares calendar dates, not the typed `YYYY-MM-DD` strings. The two agree for well-formed input.
- History.SortColumn: lower-cases ASCII letters only. Java's `toLowerCase` is Unicode-aware, but no non-ASCII character lower-cases to a single letter of "date" or "amount".
- Input trimming is done by the caller: `trim()` on the typed field, type, confirmation and filter values is not modelled.
- Entries.HandleCredit: in the source, the balance-lowering entry is the one labelled "Credit", and the one that applies the savings skim. The monthly sweep also posts Credits, so sweeping lowers a saver's balance. The model keeps this behaviour as written (`Savings.SweepLowersBalance`).

## Findings

| source | as written | input that shows it | evidently intended | confidence | as-written member | corrected member |
|---|---|---|---|---|---|---|
| src/main/java/org/example/DatabaseHandler.java:418-422 | `applyLoan` accepts any repayment period. A negative one gives a negative instalment, `Math.min` picks it at :458, and each repayment posts a negative Credit and raises `outstanding_balance` at :472, so the loan never closes | principal 1200, rate 5, period −12: instalment −105, outstanding 1260 → 1365 → 1470 | a period below 1 is refused, so the instalment is positive and every repayment lowers the balance | high, not executed | Loans.NegativePeriodGrowsDebt | Database.Store.ApplyLoan |
