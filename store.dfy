/** Three of the four tables of `DatabaseHandler` (transactions, savings and
    loans) held as one mutable store, and the operations that INSERT into and
    UPDATE them. The `users` table is not part of this model; `clock` hands out the insertion stamps that stand for the
    `timestamp` and `created_at` columns, and `today` is the date the caller reads
    from its clock. */
module Database {
  import opened Common
  import opened Calendar
  import opened Ledger
  import opened Savings
  import opened Loans

  const DISBURSEMENT_DESCRIPTION: string := "Loan disbursement"
  const REPAYMENT_DESCRIPTION: string := "Loan repayment"

  lemma AppendAssociates(a: seq<Transaction>, b: seq<Transaction>, x: Transaction)
    ensures a + b + [x] == a + (b + [x])
  {
  }

  /** What `repayLoan` did: nothing, for want of a loan to repay, or one payment. */
  datatype RepayOutcome = NoActiveLoan | Paid(amount: real)

  class Store {
    var transactions: seq<Transaction>
    var savings: Profiles
    var loans: seq<Loan>
    var clock: nat

    /** Stamps are handed out in increasing order and every loan row is well formed. */
    ghost predicate Valid()
      reads this
    {
      Chronological(transactions, clock) && WellFormed(loans, clock)
    }

    /** Freshly created, empty tables. */
    constructor ()
      ensures Valid()
      ensures transactions == [] && savings == map[] && loans == [] && clock == 0
    {
      transactions := [];
      savings := map[];
      loans := [];
      clock := 0;
    }

    /** `saveTransaction`: append one row with the given fields and the next stamp.
        The owner's balance moves by the row's signed amount; nobody else's moves. */
    method SaveTransaction(kind: string, amount: real, description: string, email: string, today: Date)
      requires Valid()
      modifies this
      ensures Valid()
      ensures transactions == old(transactions) + [Transaction(kind, amount, description, email, old(clock), today)]
      ensures clock == old(clock) + 1
      ensures savings == old(savings) && loans == old(loans)
      ensures forall e :: Balance(transactions, e)
                == old(Balance(transactions, e)) + Contribution(transactions[|transactions| - 1], e)
    {
      var row := Transaction(kind, amount, description, email, clock, today);
      ghost var before := transactions;
      transactions := transactions + [row];
      clock := clock + 1;
      forall e ensures Balance(transactions, e) == Balance(before, e) + Contribution(row, e) {
        BalanceAfterAppend(before, row, e);
      }
    }

    /** `activateSavings`: insert a profile or update its percentage. */
    method ActivateSavings(email: string, percentage: int)
      requires Valid()
      modifies this
      ensures Valid()
      ensures savings == Activated(old(savings), email, percentage)
      ensures transactions == old(transactions) && loans == old(loans) && clock == old(clock)
    {
      savings := Activated(savings, email, percentage);
    }

    /** `processSavingsOnDebit`: add the skim of `amount` to the user's saved amount. */
    method ProcessSavingsOnDebit(email: string, amount: real)
      requires Valid()
      modifies this
      ensures Valid()
      ensures savings == Skimmed(old(savings), email, amount)
      ensures transactions == old(transactions) && loans == old(loans) && clock == old(clock)
    {
      savings := Skimmed(savings, email, amount);
    }

    /** `transferSavingsToBalance`: for every profile selected by `saved_amount > 0`,
        append a Credit "Monthly savings transfer" of the saved amount and reset it
        to 0. The selection is read once, before the loop, as the result set is. */
    method TransferSavingsToBalance(today: Date)
      requires Valid()
      modifies this
      ensures Valid()
      ensures savings == Swept(old(savings))
      ensures |old(transactions)| <= |transactions|
      ensures transactions[..|old(transactions)|] == old(transactions)
      ensures SweepRows(transactions[|old(transactions)|..], old(savings))
      ensures clock == old(clock) + (|transactions| - |old(transactions)|)
      ensures forall i :: |old(transactions)| <= i < |transactions| ==>
                transactions[i].date == today && transactions[i].stamp == old(clock) + (i - |old(transactions)|)
      ensures loans == old(loans)
      ensures forall e :: Balance(transactions, e)
                == old(Balance(transactions, e)) - (if e in Savers(old(savings)) then old(savings)[e].saved else 0.0)
    {
      ghost var initial := savings;
      ghost var rows: seq<Transaction> := [];
      var pending := Savers(savings);
      ghost var done: set<string> := {};
      while pending != {}
        invariant Valid()
        invariant loans == old(loans)
        invariant pending !! done && pending + done == Savers(initial)
        invariant savings == SweptFor(initial, done)
        invariant transactions == old(transactions) + rows
        invariant TransferRows(rows, initial, done)
        invariant clock == old(clock) + |rows|
        invariant forall i :: 0 <= i < |rows| ==> rows[i].date == today && rows[i].stamp == old(clock) + i
        decreases pending
      {
        var email :| email in pending;
        ghost var row := Transaction(CREDIT, savings[email].saved, TRANSFER_DESCRIPTION, email, clock, today);
        TransferRowsStep(rows, initial, done, row);
        SweptForStep(initial, done, email);
        TransferOne(email, today);
        pending := pending - {email};
        done := done + {email};
        AppendAssociates(old(transactions), rows, row);
        rows := rows + [row];
      }
      assert transactions[|old(transactions)|..] == rows;
      SweepLowersBalances(old(transactions), rows, initial);
    }

    /** One row of the sweep: post the user's saved amount as a Credit and reset it. */
    method TransferOne(email: string, today: Date)
      requires Valid() && email in savings
      modifies this
      ensures Valid()
      ensures transactions == old(transactions)
                + [Transaction(CREDIT, old(savings)[email].saved, TRANSFER_DESCRIPTION, email, old(clock), today)]
      ensures savings == old(savings)[email := old(savings)[email].(saved := 0.0)]
      ensures loans == old(loans) && clock == old(clock) + 1
    {
      var amount := savings[email].saved;
      SaveTransaction(CREDIT, amount, TRANSFER_DESCRIPTION, email, today);
      savings := savings[email := savings[email].(saved := 0.0)];
    }

    /** `applyLoan`: insert an active loan with the amortised terms, then record the
        disbursement of the principal (not the total) as a Debit. A period below 1
        is refused and changes nothing; the source takes it (see `NegativePeriodGrowsDebt`). */
    method ApplyLoan(email: string, principal: real, ratePercent: real, period: int, today: Date)
      returns (approved: bool)
      requires Valid() && Calendar.Valid(today)
      modifies this
      ensures Valid()
      ensures approved <==> period > 0
      ensures !approved ==>
                loans == old(loans) && transactions == old(transactions)
                && savings == old(savings) && clock == old(clock)
      ensures approved ==>
                loans == old(loans) + [NewLoan(email, principal, ratePercent, period, old(clock), today)]
                && transactions == old(transactions)
                     + [Transaction(DEBIT, principal, DISBURSEMENT_DESCRIPTION, email, old(clock) + 1, today)]
                && savings == old(savings) && clock == old(clock) + 2
                && Balance(transactions, email) == old(Balance(transactions, email)) + principal
    {
      if period <= 0 {
        return false;
      }
      loans := loans + [NewLoan(email, principal, ratePercent, period, clock, today)];
      clock := clock + 1;
      SaveTransaction(DEBIT, principal, DISBURSEMENT_DESCRIPTION, email, today);
      approved := true;
    }

    /** `repayLoan`: pick the user's most recent active loan that still owes
        something; record a Credit "Loan repayment" of the capped payment and
        update that loan's outstanding balance and status in one step. */
    method RepayLoan(email: string, today: Date) returns (outcome: RepayOutcome)
      requires Valid()
      modifies this
      ensures Valid()
      ensures savings == old(savings)
      ensures LatestRepayable(old(loans), email).None? ==>
                outcome == NoActiveLoan && transactions == old(transactions)
                && loans == old(loans) && clock == old(clock)
      ensures LatestRepayable(old(loans), email).Some? ==>
                var i := LatestRepayable(old(loans), email).value;
                var l := old(loans)[i];
                outcome == Paid(Payment(l))
                && loans == old(loans)[i := AfterRepayment(l)]
                && transactions == old(transactions)
                     + [Transaction(CREDIT, Payment(l), REPAYMENT_DESCRIPTION, email, old(clock), today)]
                && clock == old(clock) + 1
      ensures outcome.Paid? ==>
                outcome.amount > 0.0
                && Balance(transactions, email) == old(Balance(transactions, email)) - outcome.amount
                && LoanBalance(loans, email) <= old(LoanBalance(loans, email)) - outcome.amount
    {
      var found := LatestRepayable(loans, email);
      if found.None? {
        return NoActiveLoan;
      }
      var i := found.value;
      var l := loans[i];
      var payment := Min(l.outstanding, l.monthly);
      RepaymentKeepsWellFormed(loans, clock, i);
      RepaymentLowersLoanBalance(loans, i, email);
      SaveTransaction(CREDIT, payment, REPAYMENT_DESCRIPTION, email, today);
      loans := loans[i := AfterRepayment(l)];
      outcome := Paid(payment);
    }

    /** `checkLoanReminders`: walk the user's active loans and collect a reminder
        for each whose due date is not before today. */
    method CheckLoanReminders(email: string, today: Date) returns (reminders: seq<Reminder>, hasReminder: bool)
      ensures reminders == Reminders(loans, email, today)
      ensures hasReminder <==> exists i :: 0 <= i < |loans| && RemindsOf(loans[i], email, today)
    {
      reminders := [];
      hasReminder := false;
      var i := 0;
      while i < |loans|
        invariant 0 <= i <= |loans|
        invariant reminders == Reminders(loans[..i], email, today)
        invariant hasReminder <==> exists j :: 0 <= j < i && RemindsOf(loans[j], email, today)
      {
        var l := loans[i];
        if l.email == email && l.status == Active {
          var due := PlusMonths(l.createdDate, l.period);
          if !IsBefore(due, today) {
            reminders := reminders + [Reminder(due, l.outstanding)];
            hasReminder := true;
          }
        }
        assert loans[..i + 1][..i] == loans[..i];
        i := i + 1;
      }
      assert loans[..i] == loans;
    }

    /** One daily run of the scheduler's task: sweep on the last day of the month,
        do nothing on any other day. */
    method MonthlyTick(today: Date)
      requires Valid()
      modifies this
      ensures Valid()
      ensures !IsLastDayOfMonth(today) ==>
                transactions == old(transactions) && savings == old(savings)
                && loans == old(loans) && clock == old(clock)
      ensures IsLastDayOfMonth(today) ==>
                savings == Swept(old(savings))
                && |old(transactions)| <= |transactions|
                && transactions[..|old(transactions)|] == old(transactions)
                && SweepRows(transactions[|old(transactions)|..], old(savings))
                && clock == old(clock) + (|transactions| - |old(transactions)|)
                && (forall i :: |old(transactions)| <= i < |transactions| ==>
                      transactions[i].date == today && transactions[i].stamp == old(clock) + (i - |old(transactions)|))
      ensures loans == old(loans)
    {
      if IsLastDayOfMonth(today) {
        TransferSavingsToBalance(today);
      }
    }
  }
}
