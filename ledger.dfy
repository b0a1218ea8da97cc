/** The `transactions` table and the balance derived from it. Rows are only
    ever appended; a user's balance is the signed sum of that user's rows. */
module Ledger {
  import opened Calendar

  const DEBIT: string := "Debit"
  const CREDIT: string := "Credit"

  /** One row of `transactions`. The `type` column is free text; the code writes
      only "Debit" and "Credit". `stamp` is a monotone insertion counter standing
      for the `timestamp` column's ordering, `date` is that timestamp's calendar day. */
  datatype Transaction = Transaction(
    kind: string,
    amount: real,
    description: string,
    email: string,
    stamp: nat,
    date: Date)

  /** The CASE expression of the balance query: a Debit adds its amount, a Credit
      subtracts it, any other type adds nothing. */
  function Signed(t: Transaction): (v: real)
    ensures t.kind == DEBIT ==> v == t.amount
    ensures t.kind == CREDIT ==> v == -t.amount
    ensures t.kind != DEBIT && t.kind != CREDIT ==> v == 0.0
  {
    if t.kind == CREDIT then -t.amount
    else if t.kind == DEBIT then t.amount
    else 0.0
  }

  /** What row `t` adds to the balance of `email`. */
  function Contribution(t: Transaction, email: string): real {
    if t.email == email then Signed(t) else 0.0
  }

  /** `getBalance`: the signed sum over the user's rows; `SUM` over no rows is
      NULL, which `getDouble` reads as 0. */
  function Balance(txs: seq<Transaction>, email: string): real
    decreases |txs|
  {
    if txs == [] then 0.0
    else Balance(txs[..|txs| - 1], email) + Contribution(txs[|txs| - 1], email)
  }

  /** The total of the user's rows of one type. */
  function Total(txs: seq<Transaction>, email: string, kind: string): real
    decreases |txs|
  {
    if txs == [] then 0.0
    else
      var last := txs[|txs| - 1];
      Total(txs[..|txs| - 1], email, kind) + (if last.email == email && last.kind == kind then last.amount else 0.0)
  }

  /** Rows are chronological: stamps strictly increase along the table and lie
      below the next stamp to be handed out. */
  ghost predicate Chronological(txs: seq<Transaction>, clock: nat) {
    (forall i :: 0 <= i < |txs| ==> txs[i].stamp < clock)
    && (forall i, j :: 0 <= i < j < |txs| ==> txs[i].stamp < txs[j].stamp)
  }

  /** The balance is the user's debits minus the user's credits. */
  lemma {:induction false} BalanceIsDebitsMinusCredits(txs: seq<Transaction>, email: string)
    ensures Balance(txs, email) == Total(txs, email, DEBIT) - Total(txs, email, CREDIT)
    decreases |txs|
  {
    if txs != [] {
      BalanceIsDebitsMinusCredits(txs[..|txs| - 1], email);
    }
  }

  /** Appending one row moves its owner's balance by that row's signed amount
      and leaves every other user's balance alone. */
  lemma BalanceAfterAppend(txs: seq<Transaction>, t: Transaction, email: string)
    ensures Balance(txs + [t], email) == Balance(txs, email) + Contribution(t, email)
    ensures t.email == email && t.kind == DEBIT ==> Balance(txs + [t], email) == Balance(txs, email) + t.amount
    ensures t.email == email && t.kind == CREDIT ==> Balance(txs + [t], email) == Balance(txs, email) - t.amount
    ensures t.email != email ==> Balance(txs + [t], email) == Balance(txs, email)
  {
    assert (txs + [t])[..|txs|] == txs;
  }

  /** The balance of a concatenation is the sum of the balances. */
  lemma {:induction false} BalanceOfConcat(a: seq<Transaction>, b: seq<Transaction>, email: string)
    ensures Balance(a + b, email) == Balance(a, email) + Balance(b, email)
    decreases |b|
  {
    if b == [] {
      assert a + b == a;
    } else {
      var b' := b[..|b| - 1];
      assert (a + b)[..|a + b| - 1] == a + b';
      BalanceOfConcat(a, b', email);
    }
  }

  /** A user without rows has balance 0, whatever other users hold. */
  lemma {:induction false} BalanceWithoutRows(txs: seq<Transaction>, email: string)
    requires forall i :: 0 <= i < |txs| ==> txs[i].email != email
    ensures Balance(txs, email) == 0.0
    decreases |txs|
  {
    if txs != [] {
      BalanceWithoutRows(txs[..|txs| - 1], email);
    }
  }

  /** Among credit rows whose owners are pairwise distinct, a user's balance is
      minus the amount of that user's one row. */
  lemma {:induction false} BalanceOfDistinctCredits(rows: seq<Transaction>, email: string, k: int)
    requires forall i :: 0 <= i < |rows| ==> rows[i].kind == CREDIT
    requires forall i, j :: 0 <= i < j < |rows| ==> rows[i].email != rows[j].email
    requires 0 <= k < |rows| && rows[k].email == email
    ensures Balance(rows, email) == -rows[k].amount
    decreases |rows|
  {
    var prefix := rows[..|rows| - 1];
    if k == |rows| - 1 {
      BalanceWithoutRows(prefix, email);
    } else {
      BalanceOfDistinctCredits(prefix, email, k);
    }
  }
}
