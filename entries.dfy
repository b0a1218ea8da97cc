/** The front-end entry rules of `Main`: recording a debit or a credit for the
    signed-in user, and switching savings on. The values the menus read from the
    console arrive here as parameters. */
module Entries {
  import opened Text
  import opened Calendar
  import opened Ledger
  import opened Savings
  import opened Loans
  import opened Database

  /** The largest amount a single credit may move. */
  const MAX_CREDIT: real := 1000000.0

  /** The longest description accepted, in `String.length()` units. */
  const MAX_DESCRIPTION: nat := 100

  /** How an entry ended: refused for an overdue loan, refused as invalid input,
      refused for want of balance, or recorded. */
  datatype EntryOutcome = Blocked | InvalidInput | InsufficientBalance | Recorded

  /** The checks `handleCredit` makes, in order, on the blocking verdict, the
      balance read at the start, the amount and the description. */
  function CreditCheck(blocked: bool, balance: real, amount: real, desc: string): (r: EntryOutcome)
    ensures r == Blocked <==> blocked
    ensures r == InvalidInput <==>
              !blocked && (amount <= 0.0 || amount > MAX_CREDIT || Utf16Length(desc) > MAX_DESCRIPTION)
    ensures r == InsufficientBalance <==>
              !blocked && 0.0 < amount <= MAX_CREDIT && Utf16Length(desc) <= MAX_DESCRIPTION && amount > balance
    ensures r == Recorded <==>
              !blocked && 0.0 < amount <= MAX_CREDIT && Utf16Length(desc) <= MAX_DESCRIPTION && amount <= balance
  {
    if blocked then Blocked
    else if amount <= 0.0 || amount > MAX_CREDIT || Utf16Length(desc) > MAX_DESCRIPTION then InvalidInput
    else if amount > balance then InsufficientBalance
    else Recorded
  }

  /** The checks `handleDebit` makes: no upper bound and no balance check. */
  function DebitCheck(blocked: bool, amount: real, desc: string): (r: EntryOutcome)
    ensures r != InsufficientBalance
    ensures r == Blocked <==> blocked
    ensures r == Recorded <==> !blocked && amount > 0.0 && Utf16Length(desc) <= MAX_DESCRIPTION
  {
    if blocked then Blocked
    else if amount <= 0.0 || Utf16Length(desc) > MAX_DESCRIPTION then InvalidInput
    else Recorded
  }

  /** The boundaries are inclusive: the whole balance, exactly 1,000,000 and a
      description of exactly 100 units are all accepted; a hair more is not. */
  lemma CreditBoundaries(balance: real, desc: string)
    requires Utf16Length(desc) == MAX_DESCRIPTION
    ensures 0.0 < balance <= MAX_CREDIT ==> CreditCheck(false, balance, balance, desc) == Recorded
    ensures balance >= MAX_CREDIT ==> CreditCheck(false, balance, MAX_CREDIT, desc) == Recorded
    ensures CreditCheck(false, balance, MAX_CREDIT + 0.01, desc) == InvalidInput
    ensures CreditCheck(false, balance, 0.0, desc) == InvalidInput
    ensures CreditCheck(false, balance, 1.0, desc + "x") == InvalidInput
  {
    Utf16LengthOfAppend(desc, "x");
  }

  /** A description longer than 100 characters is refused; one of at most 100
      characters from the Basic Multilingual Plane passes the length check. */
  lemma DescriptionLength(desc: string)
    ensures |desc| > MAX_DESCRIPTION ==> DebitCheck(false, 1.0, desc) == InvalidInput
    ensures InBasicPlane(desc) && |desc| <= MAX_DESCRIPTION ==> DebitCheck(false, 1.0, desc) == Recorded
  {
    if InBasicPlane(desc) {
      Utf16LengthOfBasicPlane(desc);
    }
  }

  /** `handleCredit`: refuse a blocked user, invalid input or an amount above the
      balance; otherwise record the Credit and skim savings on the same amount. */
  method HandleCredit(store: Store, email: string, amount: real, desc: string, today: Date,
                      termElapsed: (Date, int) -> bool)
    returns (outcome: EntryOutcome)
    requires store.Valid()
    modifies store
    ensures store.Valid()
    ensures outcome == CreditCheck(IsBlocked(old(store.loans), email, termElapsed),
                                   old(Balance(store.transactions, email)), amount, desc)
    ensures store.loans == old(store.loans)
    ensures outcome != Recorded ==>
              store.transactions == old(store.transactions) && store.savings == old(store.savings)
              && store.clock == old(store.clock)
    ensures outcome == Recorded ==>
              store.transactions == old(store.transactions)
                + [Transaction(CREDIT, amount, desc, email, old(store.clock), today)]
              && store.savings == Skimmed(old(store.savings), email, amount)
              && store.clock == old(store.clock) + 1
    ensures outcome == Recorded ==>
              Balance(store.transactions, email) == old(Balance(store.transactions, email)) - amount
              && Balance(store.transactions, email) >= 0.0
  {
    var balance := Balance(store.transactions, email);
    if IsBlocked(store.loans, email, termElapsed) {
      return Blocked;
    }
    if amount <= 0.0 || amount > MAX_CREDIT || Utf16Length(desc) > MAX_DESCRIPTION {
      return InvalidInput;
    }
    if amount > balance {
      return InsufficientBalance;
    }
    store.SaveTransaction(CREDIT, amount, desc, email, today);
    store.ProcessSavingsOnDebit(email, amount);
    outcome := Recorded;
  }

  /** `handleDebit`: refuse a blocked user or invalid input; otherwise record the
      Debit, which raises the balance. No skim is taken. */
  method HandleDebit(store: Store, email: string, amount: real, desc: string, today: Date,
                     termElapsed: (Date, int) -> bool)
    returns (outcome: EntryOutcome)
    requires store.Valid()
    modifies store
    ensures store.Valid()
    ensures outcome == DebitCheck(IsBlocked(old(store.loans), email, termElapsed), amount, desc)
    ensures store.loans == old(store.loans) && store.savings == old(store.savings)
    ensures outcome != Recorded ==>
              store.transactions == old(store.transactions) && store.clock == old(store.clock)
    ensures outcome == Recorded ==>
              store.transactions == old(store.transactions)
                + [Transaction(DEBIT, amount, desc, email, old(store.clock), today)]
              && store.clock == old(store.clock) + 1
              && Balance(store.transactions, email) == old(Balance(store.transactions, email)) + amount
  {
    if IsBlocked(store.loans, email, termElapsed) {
      return Blocked;
    }
    if amount <= 0.0 || Utf16Length(desc) > MAX_DESCRIPTION {
      return InvalidInput;
    }
    store.SaveTransaction(DEBIT, amount, desc, email, today);
    outcome := Recorded;
  }

  /** `setupSavings`: after the user confirms, a percentage from 1 to 100
      activates savings; anything else leaves the profiles alone. */
  method SetupSavings(store: Store, email: string, confirmed: bool, percentage: int) returns (activated: bool)
    requires store.Valid()
    modifies store
    ensures store.Valid()
    ensures activated <==> confirmed && 1 <= percentage <= 100
    ensures activated ==> store.savings == Activated(old(store.savings), email, percentage)
    ensures !activated ==> store.savings == old(store.savings)
    ensures store.transactions == old(store.transactions) && store.loans == old(store.loans)
    ensures store.clock == old(store.clock)
  {
    if !confirmed || percentage < 1 || percentage > 100 {
      return false;
    }
    store.ActivateSavings(email, percentage);
    activated := true;
  }
}
