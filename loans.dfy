/** The `loans` table: amortised terms at application, the repayment rule with
    its selection and its active-to-repaid flip, the outstanding total, the
    blocking gate and the due-date reminders. */
module Loans {
  import opened Common
  import opened Calendar

  datatype Status = Active | Repaid

  /** One row of `loans`. `created` is the insertion stamp standing for the
      ordering of `created_at`; `createdDate` is that timestamp's calendar day.
      The reserved `next_payment_date` column is never written and is left out. */
  datatype Loan = Loan(
    email: string,
    principal: real,
    rate: real,
    period: int,
    outstanding: real,
    monthly: real,
    status: Status,
    created: nat,
    createdDate: Date)

  /** A repayment that leaves at most this much owing closes the loan. */
  const REPAID_THRESHOLD: real := 0.01

  /** The row `applyLoan` inserts: the rate is entered in percent and stored as a
      fraction, the outstanding balance starts at principal plus interest, and the
      monthly instalment spreads it evenly over the period. Any period but 0 gives
      a row; a negative one gives a negative instalment. */
  function NewLoan(email: string, principal: real, ratePercent: real, period: int, created: nat, date: Date): (l: Loan)
    requires period != 0
    ensures l.email == email && l.principal == principal && l.period == period
    ensures l.status == Active && l.created == created && l.createdDate == date
    ensures l.rate * 100.0 == ratePercent
    ensures l.outstanding == principal + principal * l.rate
    ensures l.monthly * (period as real) == l.outstanding
    ensures period > 0 && l.outstanding > 0.0 ==> l.monthly > 0.0
    ensures period < 0 && l.outstanding > 0.0 ==> l.monthly < 0.0
    ensures principal > 0.0 && ratePercent > -100.0 ==> l.outstanding > 0.0
  {
    var rate := ratePercent / 100.0;
    var total := principal * (1.0 + rate);
    assert principal > 0.0 && 1.0 + rate > 0.0 ==> total > 0.0;
    Loan(email, principal, rate, period, total, total / (period as real), Active, created, date)
  }

  /** Invariants of the table: creation stamps increase along it and lie below
      the next stamp; every period is positive and creation date valid; a loan
      still owing something has a positive instalment. */
  ghost predicate WellFormed(loans: seq<Loan>, clock: nat) {
    (forall i :: 0 <= i < |loans| ==> loans[i].created < clock)
    && (forall i, j :: 0 <= i < j < |loans| ==> loans[i].created < loans[j].created)
    && (forall i :: 0 <= i < |loans| ==>
          loans[i].period > 0 && Valid(loans[i].createdDate)
          && (loans[i].outstanding > 0.0 ==> loans[i].monthly > 0.0))
  }

  /** The conjuncts of the repayment query's WHERE clause (the `monthly_repayment
      IS NOT NULL` conjunct always holds here: every row gets an instalment). */
  predicate Repayable(l: Loan, email: string) {
    l.email == email && l.status == Active && l.outstanding > 0.0
  }

  /** `ORDER BY created_at DESC LIMIT 1`: the position of the last repayable loan
      of the user, or None. */
  function LatestRepayable(loans: seq<Loan>, email: string): (r: Option<nat>)
    ensures r.Some? ==> r.value < |loans| && Repayable(loans[r.value], email)
    ensures r.Some? ==> forall j :: r.value < j < |loans| ==> !Repayable(loans[j], email)
    ensures r.None? <==> forall j :: 0 <= j < |loans| ==> !Repayable(loans[j], email)
    decreases |loans|
  {
    if loans == [] then None
    else if Repayable(loans[|loans| - 1], email) then Some(|loans| - 1)
    else LatestRepayable(loans[..|loans| - 1], email)
  }

  /** In a well-formed table the selected loan is the most recently created of
      the user's repayable loans. */
  lemma LatestIsMostRecent(loans: seq<Loan>, clock: nat, email: string)
    requires WellFormed(loans, clock)
    requires LatestRepayable(loans, email).Some?
    ensures var i := LatestRepayable(loans, email).value;
            forall j :: 0 <= j < |loans| && Repayable(loans[j], email) ==> loans[j].created <= loans[i].created
  {
  }

  /** `Math.min(outstanding, monthly)`: a full instalment, or the remainder. */
  function Payment(l: Loan): (p: real)
    ensures p <= l.outstanding && p <= l.monthly
    ensures p == l.outstanding || p == l.monthly
  {
    Min(l.outstanding, l.monthly)
  }

  /** The loan row after one repayment: only the outstanding balance and the
      status change; the loan is repaid exactly when at most 0.01 is left. */
  function AfterRepayment(l: Loan): (r: Loan)
    ensures r == l.(outstanding := r.outstanding, status := r.status)
    ensures l.outstanding - r.outstanding == Payment(l)
    ensures l.outstanding > 0.0 ==> r.outstanding >= 0.0
    ensures l.outstanding > 0.0 && l.monthly > 0.0 ==> r.outstanding < l.outstanding
    ensures r.status == Repaid <==> r.outstanding <= REPAID_THRESHOLD
  {
    var remaining := l.outstanding - Payment(l);
    l.(outstanding := remaining, status := if remaining <= REPAID_THRESHOLD then Repaid else Active)
  }

  /** Repaying a loan that owes something keeps the table well formed. */
  lemma RepaymentKeepsWellFormed(loans: seq<Loan>, clock: nat, i: int)
    requires WellFormed(loans, clock) && 0 <= i < |loans| && loans[i].outstanding > 0.0
    ensures WellFormed(loans[i := AfterRepayment(loans[i])], clock)
  {
  }

  /** A loan as the repayment rule sees it after `n` repayment requests: a request
      finding the loan repaid or owing nothing changes nothing. */
  function Repeatedly(l: Loan, n: nat): Loan {
    if n == 0 then l
    else
      var p := Repeatedly(l, n - 1);
      if p.status == Active && p.outstanding > 0.0 then AfterRepayment(p) else p
  }

  /** While the loan stays active every request pays a full instalment. */
  lemma {:induction false} RepaymentProgress(l: Loan, k: nat)
    requires l.status == Active && l.outstanding > 0.0 && l.monthly > 0.0
    ensures Repeatedly(l, k).monthly == l.monthly
    ensures Repeatedly(l, k).status == Active ==>
              Repeatedly(l, k).outstanding == l.outstanding - (k as real) * l.monthly
              && Repeatedly(l, k).outstanding > 0.0
  {
    if k > 0 {
      RepaymentProgress(l, k - 1);
      InstalmentsStep(k, l.monthly);
    }
  }

  /** `k` instalments are `k - 1` instalments and one more. */
  lemma InstalmentsStep(k: nat, m: real)
    requires k > 0
    ensures (k as real) * m == ((k - 1) as real) * m + m
  {
  }

  /** `n` requests with `n` instalments covering the starting balance repay the loan. */
  lemma RepaidWithinTerm(l: Loan, n: nat)
    requires l.status == Active && l.outstanding > 0.0 && l.monthly > 0.0
    requires (n as real) * l.monthly >= l.outstanding
    ensures Repeatedly(l, n).status == Repaid
  {
    RepaymentProgress(l, n);
  }

  /** ... and fewer requests, whose instalments leave more than 0.01 owing, do not. */
  lemma ActiveBeforeTerm(l: Loan, k: nat)
    requires l.status == Active && l.outstanding > 0.0 && l.monthly > 0.0
    requires (k as real) * l.monthly < l.outstanding - REPAID_THRESHOLD
    ensures Repeatedly(l, k).status == Active
    ensures Repeatedly(l, k).outstanding == l.outstanding - (k as real) * l.monthly
  {
    InstalmentsAreProduct(k, l.monthly);
    ActiveWhileOwing(l, k);
  }

  /** `k` instalments of `m`, added up one at a time. */
  function Instalments(k: nat, m: real): real {
    if k == 0 then 0.0 else Instalments(k - 1, m) + m
  }

  lemma {:induction false} InstalmentsAreProduct(k: nat, m: real)
    ensures Instalments(k, m) == (k as real) * m
  {
    if k > 0 {
      InstalmentsAreProduct(k - 1, m);
      InstalmentsStep(k, m);
    }
  }

  /** The induction behind `ActiveBeforeTerm`, over the running sum of instalments. */
  lemma {:induction false} ActiveWhileOwing(l: Loan, k: nat)
    requires l.status == Active && l.outstanding > 0.0 && l.monthly > 0.0
    requires Instalments(k, l.monthly) < l.outstanding - REPAID_THRESHOLD
    ensures Repeatedly(l, k).status == Active
    ensures Repeatedly(l, k).outstanding == l.outstanding - Instalments(k, l.monthly)
    ensures Repeatedly(l, k).monthly == l.monthly
  {
    if k > 0 {
      ActiveWhileOwing(l, k - 1);
      FullInstalment(Repeatedly(l, k - 1), l.monthly);
    }
  }

  /** An instalment that leaves more than 0.01 owing is paid in full and keeps
      the loan active. */
  lemma FullInstalment(p: Loan, m: real)
    requires p.status == Active && p.monthly == m && m > 0.0
    requires p.outstanding - m > REPAID_THRESHOLD
    ensures AfterRepayment(p).status == Active
    ensures AfterRepayment(p).outstanding == p.outstanding - m
  {
  }

  /** Repaid is terminal: further requests leave the loan as it is. */
  lemma {:induction false} RepaidIsTerminal(l: Loan, k: nat, j: nat)
    requires Repeatedly(l, k).status == Repaid
    ensures Repeatedly(l, k + j) == Repeatedly(l, k)
  {
    if j > 0 {
      RepaidIsTerminal(l, k, j - 1);
    }
  }

  /** The worked example: 1200 at 5% over 12 months owes 1260 in instalments of
      105; one repayment leaves 1155 and the loan active; it is still active after
      eleven and repaid after twelve. */
  lemma WorkedExample(date: Date)
    ensures var l := NewLoan("user@example.com", 1200.0, 5.0, 12, 0, date);
            && l.outstanding == 1260.0 && l.monthly == 105.0
            && AfterRepayment(l).outstanding == 1155.0 && AfterRepayment(l).status == Active
            && Repeatedly(l, 11).status == Active
            && Repeatedly(l, 12).status == Repaid
  {
    var l := NewLoan("user@example.com", 1200.0, 5.0, 12, 0, date);
    ActiveBeforeTerm(l, 11);
    RepaidWithinTerm(l, 12);
  }

  /** What a loan adds to the user's outstanding total. */
  function Counted(l: Loan, email: string): real {
    if Repayable(l, email) then l.outstanding else 0.0
  }

  /** `getLoanBalance`: `COALESCE(SUM(outstanding_balance), 0)` over the user's
      active loans still owing something. */
  function LoanBalance(loans: seq<Loan>, email: string): (r: real)
    ensures r >= 0.0
    ensures r == 0.0 <==> forall j :: 0 <= j < |loans| ==> !Repayable(loans[j], email)
    decreases |loans|
  {
    if loans == [] then 0.0
    else LoanBalance(loans[..|loans| - 1], email) + Counted(loans[|loans| - 1], email)
  }

  /** A negative period, which `applyLoan` accepts, turns repayment around: the
      instalment is negative, `Math.min` picks it, and every request raises the
      outstanding balance while the loan stays active. */
  lemma NegativePeriodGrowsDebt(date: Date)
    ensures var l := NewLoan("user@example.com", 1200.0, 5.0, -12, 0, date);
            && l.outstanding == 1260.0 && l.monthly == -105.0
            && Payment(l) == -105.0
            && AfterRepayment(l).outstanding == 1365.0 && AfterRepayment(l).status == Active
            && Repeatedly(l, 2).outstanding == 1470.0
  {
    var l := NewLoan("user@example.com", 1200.0, 5.0, -12, 0, date);
    assert l.monthly == -105.0;
    assert Repeatedly(l, 1) == AfterRepayment(l);
  }

  /** A loan approved with a positive period and a positive balance shrinks at
      every repayment: the instalment is positive, so the payment is too. */
  lemma ApprovedLoanShrinks(email: string, principal: real, ratePercent: real, period: int, created: nat, date: Date)
    requires period > 0 && principal > 0.0 && ratePercent > -100.0
    ensures var l := NewLoan(email, principal, ratePercent, period, created, date);
            Payment(l) > 0.0 && AfterRepayment(l).outstanding < l.outstanding
  {
  }

  /** Replacing one row changes the total by the difference of the two rows' shares. */
  lemma {:induction false} LoanBalanceUpdate(loans: seq<Loan>, i: int, x: Loan, email: string)
    requires 0 <= i < |loans|
    ensures LoanBalance(loans[i := x], email) == LoanBalance(loans, email) - Counted(loans[i], email) + Counted(x, email)
    decreases |loans|
  {
    var n := |loans| - 1;
    var updated := loans[i := x];
    assert LoanBalance(updated, email) == LoanBalance(updated[..n], email) + Counted(updated[n], email);
    assert LoanBalance(loans, email) == LoanBalance(loans[..n], email) + Counted(loans[n], email);
    if i < n {
      assert updated[..n] == loans[..n][i := x];
      LoanBalanceUpdate(loans[..n], i, x, email);
      assert updated[n] == loans[n];
    } else {
      assert updated[..n] == loans[..n];
    }
  }

  /** A repayment lowers the user's outstanding total by the payment, or by the
      whole remainder when it closes the loan; other users' totals do not move. */
  lemma RepaymentLowersLoanBalance(loans: seq<Loan>, i: int, email: string)
    requires 0 <= i < |loans| && Repayable(loans[i], email) && loans[i].monthly > 0.0
    ensures var after := AfterRepayment(loans[i]);
            LoanBalance(loans[i := after], email)
              == LoanBalance(loans, email) - Payment(loans[i]) - (if after.status == Repaid then after.outstanding else 0.0)
    ensures forall other :: other != email ==>
              LoanBalance(loans[i := AfterRepayment(loans[i])], other) == LoanBalance(loans, other)
  {
    LoanBalanceUpdate(loans, i, AfterRepayment(loans[i]), email);
    forall other | other != email
      ensures LoanBalance(loans[i := AfterRepayment(loans[i])], other) == LoanBalance(loans, other)
    {
      LoanBalanceUpdate(loans, i, AfterRepayment(loans[i]), other);
    }
  }

  /** `isBlocked`: some loan of the user is active, still owes something and has
      run past its term. Whether the term has elapsed is left to `termElapsed`,
      applied to the creation date and the period in months. */
  predicate IsBlocked(loans: seq<Loan>, email: string, termElapsed: (Date, int) -> bool) {
    exists i :: 0 <= i < |loans| && Repayable(loans[i], email) && termElapsed(loans[i].createdDate, loans[i].period)
  }

  /** A blocked user owes something on loans; a user whose loans are all repaid
      or paid down to nothing is never blocked, whatever the dates. */
  lemma BlockedUserOwes(loans: seq<Loan>, email: string, termElapsed: (Date, int) -> bool)
    ensures IsBlocked(loans, email, termElapsed) ==> LoanBalance(loans, email) > 0.0
    ensures (forall j :: 0 <= j < |loans| && loans[j].email == email ==>
               loans[j].status == Repaid || loans[j].outstanding <= 0.0)
            ==> !IsBlocked(loans, email, termElapsed)
  {
  }

  /** Repaying can lift a block but never impose one. */
  lemma RepaymentNeverBlocks(loans: seq<Loan>, i: int, email: string, termElapsed: (Date, int) -> bool)
    requires 0 <= i < |loans| && loans[i].status == Active && loans[i].outstanding > 0.0
    ensures IsBlocked(loans[i := AfterRepayment(loans[i])], email, termElapsed) ==> IsBlocked(loans, email, termElapsed)
  {
    var after := loans[i := AfterRepayment(loans[i])];
    if IsBlocked(after, email, termElapsed) {
      var j :| 0 <= j < |after| && Repayable(after[j], email) && termElapsed(after[j].createdDate, after[j].period);
      assert Repayable(loans[j], email);
    }
  }

  /** One line of `checkLoanReminders`' output. */
  datatype Reminder = Reminder(dueDate: Date, balance: real)

  /** `createdDate.plusMonths(repayment_period)`. */
  function DueDate(l: Loan): (d: Date)
    ensures Valid(l.createdDate) ==> Valid(d)
    ensures Valid(l.createdDate) ==> MonthIndex(d) == MonthIndex(l.createdDate) + l.period
    ensures d.day <= l.createdDate.day
  {
    PlusMonths(l.createdDate, l.period)
  }

  /** The reminder rule: an active loan of the user (whatever it still owes)
      whose due date is not before today. */
  predicate RemindsOf(l: Loan, email: string, today: Date) {
    l.email == email && l.status == Active && !IsBefore(DueDate(l), today)
  }

  /** The reminders, in table order. */
  function Reminders(loans: seq<Loan>, email: string, today: Date): seq<Reminder>
    decreases |loans|
  {
    if loans == [] then []
    else
      var last := loans[|loans| - 1];
      Reminders(loans[..|loans| - 1], email, today)
        + (if RemindsOf(last, email, today) then [Reminder(DueDate(last), last.outstanding)] else [])
  }

  /** A reminder is produced exactly for each loan the rule selects, carrying its
      due date and its outstanding balance. */
  lemma {:induction false} RemindersMatchLoans(loans: seq<Loan>, email: string, today: Date)
    ensures |Reminders(loans, email, today)| <= |loans|
    ensures |Reminders(loans, email, today)| == |ReminderIndices(loans, email, today)|
    ensures forall r :: r in Reminders(loans, email, today) <==>
              exists i :: 0 <= i < |loans| && RemindsOf(loans[i], email, today)
                          && r == Reminder(DueDate(loans[i]), loans[i].outstanding)
    decreases |loans|
  {
    RemindersCount(loans, email, today);
    if loans != [] {
      var n := |loans| - 1;
      RemindersMatchLoans(loans[..n], email, today);
      forall r ensures r in Reminders(loans, email, today) <==>
                 exists i :: 0 <= i < |loans| && RemindsOf(loans[i], email, today)
                             && r == Reminder(DueDate(loans[i]), loans[i].outstanding)
      {
        if r in Reminders(loans, email, today) && r !in Reminders(loans[..n], email, today) {
          assert RemindsOf(loans[n], email, today) && r == Reminder(DueDate(loans[n]), loans[n].outstanding);
        }
        if exists i :: 0 <= i < |loans| && RemindsOf(loans[i], email, today)
                       && r == Reminder(DueDate(loans[i]), loans[i].outstanding) {
          var i :| 0 <= i < |loans| && RemindsOf(loans[i], email, today)
                   && r == Reminder(DueDate(loans[i]), loans[i].outstanding);
          if i < n {
            assert loans[..n][i] == loans[i];
          }
        }
      }
    }
  }

  /** The positions of the loans the reminder rule selects. */
  function ReminderIndices(loans: seq<Loan>, email: string, today: Date): set<int> {
    set i | 0 <= i < |loans| && RemindsOf(loans[i], email, today)
  }

  /** Each selected loan gives its own reminder: two equal loans give two lines. */
  lemma {:induction false} RemindersCount(loans: seq<Loan>, email: string, today: Date)
    ensures |Reminders(loans, email, today)| == |ReminderIndices(loans, email, today)|
    decreases |loans|
  {
    if loans != [] {
      var n := |loans| - 1;
      RemindersCount(loans[..n], email, today);
      IndicesStep(loans, email, today);
    }
  }

  /** The selected positions grow by the last one exactly when it is selected. */
  lemma IndicesStep(loans: seq<Loan>, email: string, today: Date)
    requires loans != []
    ensures var n := |loans| - 1;
            var before := ReminderIndices(loans[..n], email, today);
            n !in before
            && ReminderIndices(loans, email, today)
                 == before + (if RemindsOf(loans[n], email, today) then {n} else {})
  {
    var n := |loans| - 1;
    var before := ReminderIndices(loans[..n], email, today);
    var after := ReminderIndices(loans, email, today);
    var last: set<int> := if RemindsOf(loans[n], email, today) then {n} else {};
    forall i ensures i in after <==> i in before + last {
      if 0 <= i < n {
        assert loans[..n][i] == loans[i];
      }
    }
  }

  /** A loan taken out today is always reminded of: its due date lies ahead. */
  lemma NewLoanIsReminded(email: string, principal: real, ratePercent: real, period: int, created: nat, today: Date)
    requires period > 0 && Valid(today)
    ensures RemindsOf(NewLoan(email, principal, ratePercent, period, created, today), email, today)
  {
    PlusMonthsNotBefore(today, period);
  }
}
