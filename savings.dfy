/** The `savings` table: one profile per user (the email column is UNIQUE), the
    skim that tops it up and the monthly sweep that empties it into the ledger. */
module Savings {
  import opened Ledger

  /** One row of `savings`: the skim percentage and the amount not yet swept. */
  datatype SavingsProfile = SavingsProfile(percentage: int, saved: real)

  /** The table keyed by its UNIQUE email column: at most one profile per user. */
  type Profiles = map<string, SavingsProfile>

  const TRANSFER_DESCRIPTION: string := "Monthly savings transfer"

  /** `getSavings`: the saved amount, or 0 for a user without a profile. */
  function SavedAmount(profiles: Profiles, email: string): (r: real)
    ensures email !in profiles ==> r == 0.0
    ensures email in profiles ==> r == profiles[email].saved
  {
    if email in profiles then profiles[email].saved else 0.0
  }

  /** `activateSavings`: update the percentage of an existing profile, or insert
      one whose `saved_amount` takes its column default 0. */
  function Activated(profiles: Profiles, email: string, percentage: int): (r: Profiles)
    ensures r.Keys == profiles.Keys + {email}
    ensures r[email].percentage == percentage
    ensures r[email].saved == SavedAmount(profiles, email)
    ensures forall e :: e in profiles && e != email ==> r[e] == profiles[e]
  {
    profiles[email := SavingsProfile(percentage, SavedAmount(profiles, email))]
  }

  /** The skim on `amount` at `percentage` percent, as `amount * (percentage / 100.0)`. */
  function SkimAmount(amount: real, percentage: int): (r: real)
    ensures amount >= 0.0 && 0 <= percentage <= 100 ==> 0.0 <= r <= amount
  {
    SkimBound(amount, percentage);
    amount * (percentage as real / 100.0)
  }

  /** A skim at a percentage from 0 to 100 never exceeds the amount. */
  lemma SkimBound(amount: real, percentage: int)
    ensures amount >= 0.0 && 0 <= percentage <= 100 ==>
              0.0 <= amount * (percentage as real / 100.0) <= amount
  {
    if amount >= 0.0 && 0 <= percentage <= 100 {
      var f := percentage as real / 100.0;
      assert 0.0 <= f <= 1.0;
      assert amount * f <= amount * 1.0;
    }
  }

  /** `processSavingsOnDebit`: add the skim to the user's saved amount; a user
      without a profile is left as is. */
  function Skimmed(profiles: Profiles, email: string, amount: real): (r: Profiles)
    ensures r.Keys == profiles.Keys
    ensures email !in profiles ==> r == profiles
    ensures email in profiles ==>
              r[email].percentage == profiles[email].percentage
              && r[email].saved == profiles[email].saved + SkimAmount(amount, profiles[email].percentage)
    ensures forall e :: e in profiles && e != email ==> r[e] == profiles[e]
  {
    if email in profiles then
      var p := profiles[email];
      profiles[email := p.(saved := p.saved + SkimAmount(amount, p.percentage))]
    else profiles
  }

  /** Skims accumulate: two skims add up to one skim on the summed amount. */
  lemma SkimsAccumulate(profiles: Profiles, email: string, a: real, b: real)
    requires email in profiles
    ensures var p := profiles[email].percentage;
            SavedAmount(Skimmed(Skimmed(profiles, email, a), email, b), email)
              == SavedAmount(profiles, email) + SkimAmount(a + b, p)
  {
    var f := profiles[email].percentage as real / 100.0;
    assert (a + b) * f == a * f + b * f;
  }

  /** The users the sweep selects: `saved_amount > 0`. */
  function Savers(profiles: Profiles): (s: set<string>)
    ensures forall e :: e in s <==> e in profiles && profiles[e].saved > 0.0
  {
    set e | e in profiles && profiles[e].saved > 0.0
  }

  /** The table once the users in `done` have been swept: their saved amount is 0,
      everything else is as it was. */
  function SweptFor(profiles: Profiles, done: set<string>): (r: Profiles)
    ensures r.Keys == profiles.Keys
    ensures forall e :: e in profiles ==> r[e].percentage == profiles[e].percentage
    ensures forall e :: e in profiles && e !in done ==> r[e] == profiles[e]
    ensures forall e :: e in profiles && e in done ==> r[e].saved == 0.0
  {
    map e | e in profiles :: if e in done then profiles[e].(saved := 0.0) else profiles[e]
  }

  /** The table after `transferSavingsToBalance`. */
  function Swept(profiles: Profiles): (r: Profiles)
    ensures r.Keys == profiles.Keys
    ensures forall e :: e in profiles ==>
              r[e].percentage == profiles[e].percentage
              && r[e].saved == (if profiles[e].saved > 0.0 then 0.0 else profiles[e].saved)
  {
    SweptFor(profiles, Savers(profiles))
  }

  /** After a sweep nobody has savings left to sweep, so a second sweep changes nothing. */
  lemma SweepIsIdempotent(profiles: Profiles)
    ensures Savers(Swept(profiles)) == {}
    ensures Swept(Swept(profiles)) == Swept(profiles)
  {
    var once := Swept(profiles);
    assert Savers(once) == {} by {
      forall e | e in once ensures once[e].saved <= 0.0 {
      }
    }
    assert SweptFor(once, {}) == once;
  }

  /** Profiles the sweep does not select keep their (non-positive) saved amount;
      selected ones end at 0; no percentage changes. */
  lemma SweepResetsOnlySavers(profiles: Profiles, email: string)
    requires email in profiles
    ensures Swept(profiles)[email].percentage == profiles[email].percentage
    ensures profiles[email].saved <= 0.0 ==> Swept(profiles)[email] == profiles[email]
    ensures profiles[email].saved > 0.0 ==> SavedAmount(Swept(profiles), email) == 0.0
  {
  }

  /** The rows that sweeping the users in `users` appends to the ledger: one
      Credit "Monthly savings transfer" of the saved amount for each of them. */
  ghost predicate TransferRows(rows: seq<Transaction>, profiles: Profiles, users: set<string>) {
    (forall i :: 0 <= i < |rows| ==>
       rows[i].kind == CREDIT && rows[i].description == TRANSFER_DESCRIPTION
       && rows[i].email in users && rows[i].email in profiles
       && rows[i].amount == profiles[rows[i].email].saved)
    && (forall i, j :: 0 <= i < j < |rows| ==> rows[i].email != rows[j].email)
    && (forall e :: e in users ==> exists i :: 0 <= i < |rows| && rows[i].email == e)
  }

  /** The rows a whole sweep appends: one per user with `saved_amount > 0`. */
  ghost predicate SweepRows(rows: seq<Transaction>, profiles: Profiles) {
    TransferRows(rows, profiles, Savers(profiles))
  }

  /** Sweeping one more user zeroes that user's saved amount and nothing else. */
  lemma SweptForStep(profiles: Profiles, done: set<string>, email: string)
    requires email in profiles
    ensures var r := SweptFor(profiles, done);
            r[email := r[email].(saved := 0.0)] == SweptFor(profiles, done + {email})
  {
  }

  /** Posting the row of a user not yet swept extends the rows of a partial sweep. */
  lemma TransferRowsStep(rows: seq<Transaction>, profiles: Profiles, done: set<string>, row: Transaction)
    requires TransferRows(rows, profiles, done)
    requires row.email in profiles && row.email !in done
    requires row.kind == CREDIT && row.description == TRANSFER_DESCRIPTION
    requires row.amount == profiles[row.email].saved
    ensures TransferRows(rows + [row], profiles, done + {row.email})
  {
    var next := rows + [row];
    forall e | e in done + {row.email}
      ensures exists i :: 0 <= i < |next| && next[i].email == e
    {
      if e == row.email {
        assert next[|rows|].email == e;
      } else {
        var i :| 0 <= i < |rows| && rows[i].email == e;
        assert next[i].email == e;
      }
    }
  }

  /** The sweep posts each saver's amount as a Credit, which the balance query
      subtracts: the saver's balance drops by the swept amount and nobody else's moves. */
  lemma SweepLowersBalance(txs: seq<Transaction>, rows: seq<Transaction>, profiles: Profiles, email: string)
    requires SweepRows(rows, profiles)
    ensures Balance(txs + rows, email)
              == Balance(txs, email) - (if email in Savers(profiles) then profiles[email].saved else 0.0)
  {
    BalanceOfConcat(txs, rows, email);
    if email in Savers(profiles) {
      var k :| 0 <= k < |rows| && rows[k].email == email;
      BalanceOfDistinctCredits(rows, email, k);
    } else {
      BalanceWithoutRows(rows, email);
    }
  }

  /** The same for every user at once. */
  lemma SweepLowersBalances(txs: seq<Transaction>, rows: seq<Transaction>, profiles: Profiles)
    requires SweepRows(rows, profiles)
    ensures forall e :: Balance(txs + rows, e)
              == Balance(txs, e) - (if e in Savers(profiles) then profiles[e].saved else 0.0)
  {
    forall e ensures Balance(txs + rows, e)
              == Balance(txs, e) - (if e in Savers(profiles) then profiles[e].saved else 0.0)
    {
      SweepLowersBalance(txs, rows, profiles, e);
    }
  }

  /** A sweep appends rows only when someone has savings to sweep. */
  lemma SweepRowsNeedSavers(rows: seq<Transaction>, profiles: Profiles)
    requires SweepRows(rows, profiles)
    ensures rows == [] || rows[0].email in Savers(profiles)
  {
  }

  /** A sweep right after a sweep, with no skim between, appends nothing. */
  lemma SecondSweepAppendsNothing(profiles: Profiles, rows: seq<Transaction>)
    requires SweepRows(rows, Swept(profiles))
    ensures rows == []
  {
    SweepIsIdempotent(profiles);
    SweepRowsNeedSavers(rows, Swept(profiles));
  }
}
