/** `filterHistory`: the user's transactions narrowed by the optional date, type
    and amount filters, and optionally ordered by date or amount. The query the
    method assembles is read here as the result it denotes. */
module History {
  import opened Common
  import opened Text
  import opened Calendar
  import opened Ledger

  datatype Direction = Asc | Desc

  /** The columns the query may be ordered by. */
  datatype Column = ByTimestamp | ByAmount

  /** The answers to the four prompts: each filter is either off or carries its
      bounds; the sort request carries the field as typed and the direction. */
  datatype Filter = Filter(
    dates: Option<(Date, Date)>,
    kind: Option<string>,
    amounts: Option<(real, real)>,
    sort: Option<(string, Direction)>)

  /** Every prompt answered "N". */
  const NoFilters: Filter := Filter(None, None, None, None)

  /** `DATE(timestamp) BETWEEN start AND end`: inclusive at both ends. */
  predicate InDateRange(d: Date, start: Date, end: Date) {
    !IsBefore(d, start) && !IsBefore(end, d)
  }

  /** The WHERE clause: the user's rows, and each chosen filter on top. */
  predicate Matches(t: Transaction, email: string, f: Filter) {
    t.email == email
    && (f.dates.Some? ==> InDateRange(t.date, f.dates.value.0, f.dates.value.1))
    && (f.kind.Some? ==> EqualsIgnoringCase(t.kind, f.kind.value))
    && (f.amounts.Some? ==> f.amounts.value.0 <= t.amount <= f.amounts.value.1)
  }

  /** The matching rows in table order, as a query without ORDER BY returns them. */
  function Filtered(txs: seq<Transaction>, email: string, f: Filter): (r: seq<Transaction>)
    ensures |r| <= |txs|
    decreases |txs|
  {
    if txs == [] then []
    else
      var last := txs[|txs| - 1];
      Filtered(txs[..|txs| - 1], email, f) + (if Matches(last, email, f) then [last] else [])
  }

  /** A row is in the result exactly when it is in the table and passes every
      chosen filter. */
  lemma {:induction false} FilteredMembers(txs: seq<Transaction>, email: string, f: Filter)
    ensures forall t :: t in Filtered(txs, email, f) <==> t in txs && Matches(t, email, f)
    decreases |txs|
  {
    if txs != [] {
      var prefix := txs[..|txs| - 1];
      FilteredMembers(prefix, email, f);
      assert txs == prefix + [txs[|txs| - 1]];
    }
  }

  /** The result keeps the table's order: in a chronological table its stamps
      strictly increase. */
  lemma {:induction false} FilteredKeepsOrder(txs: seq<Transaction>, clock: nat, email: string, f: Filter)
    requires Chronological(txs, clock)
    ensures Chronological(Filtered(txs, email, f), clock)
    decreases |txs|
  {
    if txs != [] {
      var prefix := txs[..|txs| - 1];
      var last := txs[|txs| - 1];
      assert Chronological(prefix, last.stamp);
      FilteredKeepsOrder(prefix, last.stamp, email, f);
      FilteredMembers(prefix, email, f);
      var r := Filtered(prefix, email, f);
      forall i | 0 <= i < |r| ensures r[i].stamp < last.stamp {
        assert r[i] in r;
      }
    }
  }

  /** Turning a filter off can only widen the result. */
  lemma FiltersNarrow(txs: seq<Transaction>, email: string, f: Filter)
    ensures forall t :: t in Filtered(txs, email, f) ==> t in Filtered(txs, email, f.(dates := None))
    ensures forall t :: t in Filtered(txs, email, f) ==> t in Filtered(txs, email, f.(kind := None))
    ensures forall t :: t in Filtered(txs, email, f) ==> t in Filtered(txs, email, f.(amounts := None))
  {
    FilteredMembers(txs, email, f);
    FilteredMembers(txs, email, f.(dates := None));
    FilteredMembers(txs, email, f.(kind := None));
    FilteredMembers(txs, email, f.(amounts := None));
  }

  /** With every filter off the result is the user's whole history. */
  lemma UnfilteredIsWholeHistory(txs: seq<Transaction>, email: string)
    ensures forall t :: t in Filtered(txs, email, NoFilters) <==> t in txs && t.email == email
  {
    FilteredMembers(txs, email, NoFilters);
  }

  /** The signed sum of the unfiltered history is the user's balance. */
  lemma {:induction false} UnfilteredBalance(txs: seq<Transaction>, email: string)
    ensures Balance(Filtered(txs, email, NoFilters), email) == Balance(txs, email)
    decreases |txs|
  {
    if txs != [] {
      var prefix := txs[..|txs| - 1];
      var last := txs[|txs| - 1];
      UnfilteredBalance(prefix, email);
      var shown := Filtered(prefix, email, NoFilters);
      if last.email == email {
        assert Filtered(txs, email, NoFilters) == shown + [last];
        BalanceAfterAppend(shown, last, email);
      } else {
        assert Filtered(txs, email, NoFilters) == shown + [];
        assert shown + [] == shown;
      }
    }
  }

  /** The type filter ignores case: "dEBIT" selects the rows of type "Debit". */
  lemma TypeFilterIgnoresCase(t: Transaction, email: string)
    requires t.email == email && t.kind == DEBIT
    ensures Matches(t, email, NoFilters.(kind := Some("dEBIT")))
    ensures !Matches(t, email, NoFilters.(kind := Some("Credit")))
  {
    assert Lower("dEBIT") == "debit" == Lower(DEBIT);
    assert Lower("Credit")[0] == 'c' != Lower(DEBIT)[0];
  }

  /** The field typed at the sort prompt, lower-cased: only "date" (ordered by the
      timestamp) and "amount" add an ORDER BY; anything else adds none. */
  function SortColumn(field: string): (c: Option<Column>)
    ensures c == Some(ByTimestamp) <==> Lower(field) == "date"
    ensures c == Some(ByAmount) <==> Lower(field) == "amount"
    ensures c.None? <==> Lower(field) != "date" && Lower(field) != "amount"
  {
    var lowered := Lower(field);
    if lowered == "date" then Some(ByTimestamp)
    else if lowered == "amount" then Some(ByAmount)
    else None
  }

  function Key(t: Transaction, column: Column): real {
    match column
    case ByTimestamp => t.stamp as real
    case ByAmount => t.amount
  }

  /** `a` may come before `b` in the requested order. */
  predicate InOrder(a: Transaction, b: Transaction, column: Column, direction: Direction) {
    if direction == Asc then Key(a, column) <= Key(b, column) else Key(a, column) >= Key(b, column)
  }

  /** `a` must come before `b`: its key is strictly earlier in the requested order. */
  predicate StrictlyBefore(a: Transaction, b: Transaction, column: Column, direction: Direction) {
    if direction == Asc then Key(a, column) < Key(b, column) else Key(a, column) > Key(b, column)
  }

  predicate SortedBy(s: seq<Transaction>, column: Column, direction: Direction) {
    forall i, j :: 0 <= i < j < |s| ==> InOrder(s[i], s[j], column, direction)
  }

  /** Place `x` into an ordered sequence after every row that must precede it and
      after every row with an equal key, so that ties keep their order. */
  function Insert(x: Transaction, s: seq<Transaction>, column: Column, direction: Direction): (r: seq<Transaction>)
    ensures multiset(r) == multiset(s) + multiset{x}
    decreases |s|
  {
    if s == [] then [x]
    else if StrictlyBefore(x, s[0], column, direction) then [x] + s
    else
      assert s == [s[0]] + s[1..];
      [s[0]] + Insert(x, s[1..], column, direction)
  }

  /** Inserting into an ordered sequence keeps it ordered. */
  lemma {:induction false} InsertKeepsOrder(x: Transaction, s: seq<Transaction>, column: Column, direction: Direction)
    requires SortedBy(s, column, direction)
    ensures SortedBy(Insert(x, s, column, direction), column, direction)
    decreases |s|
  {
    if s != [] && !StrictlyBefore(x, s[0], column, direction) {
      var rest := Insert(x, s[1..], column, direction);
      assert SortedBy(s[1..], column, direction);
      InsertKeepsOrder(x, s[1..], column, direction);
      InsertedAfterHead(x, s, column, direction);
      ConsKeepsOrder(s[0], rest, column, direction);
    }
  }

  /** When `x` goes after the head, every row of the rest may follow the head. */
  lemma InsertedAfterHead(x: Transaction, s: seq<Transaction>, column: Column, direction: Direction)
    requires SortedBy(s, column, direction) && s != [] && !StrictlyBefore(x, s[0], column, direction)
    ensures forall y :: y in Insert(x, s[1..], column, direction) ==> InOrder(s[0], y, column, direction)
  {
    var rest := Insert(x, s[1..], column, direction);
    forall y | y in rest ensures InOrder(s[0], y, column, direction) {
      assert y in multiset(rest);
      if y != x {
        assert y in s[1..];
      }
    }
  }

  /** A head that may precede every row of an ordered sequence keeps it ordered. */
  lemma ConsKeepsOrder(head: Transaction, rest: seq<Transaction>, column: Column, direction: Direction)
    requires SortedBy(rest, column, direction)
    requires forall y :: y in rest ==> InOrder(head, y, column, direction)
    ensures SortedBy([head] + rest, column, direction)
  {
    var r := [head] + rest;
    forall i, j | 0 <= i < j < |r| ensures InOrder(r[i], r[j], column, direction) {
      assert r[j] == rest[j - 1] && r[j] in rest;
      if i > 0 {
        assert r[i] == rest[i - 1];
      }
    }
  }

  /** `ORDER BY column direction`: an ordered permutation of the rows. */
  function SortBy(rows: seq<Transaction>, column: Column, direction: Direction): (r: seq<Transaction>)
    ensures multiset(r) == multiset(rows)
    ensures SortedBy(r, column, direction)
    decreases |rows|
  {
    if rows == [] then []
    else
      assert rows == rows[..|rows| - 1] + [rows[|rows| - 1]];
      var sorted := SortBy(rows[..|rows| - 1], column, direction);
      InsertKeepsOrder(rows[|rows| - 1], sorted, column, direction);
      Insert(rows[|rows| - 1], sorted, column, direction)
  }

  /** Rows with equal keys keep their table order: the later row goes after the
      earlier one. */
  lemma TiesKeepTableOrder(a: Transaction, b: Transaction, column: Column, direction: Direction)
    requires Key(a, column) == Key(b, column)
    ensures SortBy([a, b], column, direction) == [a, b]
  {
    SortSingle(a, column, direction);
    assert [a, b][..1] == [a] && [a, b][1] == b;
    assert Insert(b, [a], column, direction) == [a] + Insert(b, [], column, direction);
  }

  lemma SortSingle(a: Transaction, column: Column, direction: Direction)
    ensures SortBy([a], column, direction) == [a]
  {
    assert [a][..0] == [];
  }

  /** The rows of `s` whose key is `k`, in the order of `s`. */
  function WithKey(s: seq<Transaction>, column: Column, k: real): seq<Transaction>
    decreases |s|
  {
    if s == [] then []
    else (if Key(s[0], column) == k then [s[0]] else []) + WithKey(s[1..], column, k)
  }

  lemma {:induction false} WithKeyAppend(a: seq<Transaction>, b: seq<Transaction>, column: Column, k: real)
    ensures WithKey(a + b, column, k) == WithKey(a, column, k) + WithKey(b, column, k)
    decreases |a|
  {
    if a == [] {
      assert a + b == b;
    } else {
      assert (a + b)[0] == a[0] && (a + b)[1..] == a[1..] + b;
      WithKeyAppend(a[1..], b, column, k);
    }
  }

  lemma {:induction false} WithoutKey(s: seq<Transaction>, column: Column, k: real)
    requires forall i :: 0 <= i < |s| ==> Key(s[i], column) != k
    ensures WithKey(s, column, k) == []
    decreases |s|
  {
    if s != [] {
      WithoutKey(s[1..], column, k);
    }
  }

  /** Inserting `x` puts it after every row of its own key. */
  lemma {:induction false} InsertWithKey(x: Transaction, s: seq<Transaction>, column: Column, direction: Direction, k: real)
    requires SortedBy(s, column, direction)
    ensures WithKey(Insert(x, s, column, direction), column, k)
              == WithKey(s, column, k) + (if Key(x, column) == k then [x] else [])
    decreases |s|
  {
    var tail := if Key(x, column) == k then [x] else [];
    if s == [] {
      assert Insert(x, s, column, direction) == [x];
      assert [x][1..] == [];
    } else if StrictlyBefore(x, s[0], column, direction) {
      var r := [x] + s;
      assert r[0] == x && r[1..] == s;
      if Key(x, column) == k {
        forall i | 0 <= i < |s| ensures Key(s[i], column) != k {
          if i > 0 {
            assert InOrder(s[0], s[i], column, direction);
          }
        }
        WithoutKey(s, column, k);
      }
    } else {
      var rest := Insert(x, s[1..], column, direction);
      var r := [s[0]] + rest;
      assert r[0] == s[0] && r[1..] == rest;
      assert SortedBy(s[1..], column, direction);
      InsertWithKey(x, s[1..], column, direction, k);
      var head := if Key(s[0], column) == k then [s[0]] else [];
      assert WithKey(r, column, k) == head + (WithKey(s[1..], column, k) + tail);
      assert head + (WithKey(s[1..], column, k) + tail) == (head + WithKey(s[1..], column, k)) + tail;
    }
  }

  /** `SortBy` is stable: for every key, the rows holding it come out in table order. */
  lemma {:induction false} SortIsStable(rows: seq<Transaction>, column: Column, direction: Direction, k: real)
    ensures WithKey(SortBy(rows, column, direction), column, k) == WithKey(rows, column, k)
    decreases |rows|
  {
    if rows != [] {
      var prefix := rows[..|rows| - 1];
      var last := rows[|rows| - 1];
      SortByLast(rows, column, direction);
      SortIsStable(prefix, column, direction, k);
      InsertWithKey(last, SortBy(prefix, column, direction), column, direction, k);
      WithKeyAppend(prefix, [last], column, k);
      WithKeySingle(last, column, k);
    }
  }

  lemma SortByLast(rows: seq<Transaction>, column: Column, direction: Direction)
    requires rows != []
    ensures rows == rows[..|rows| - 1] + [rows[|rows| - 1]]
    ensures SortBy(rows, column, direction)
              == Insert(rows[|rows| - 1], SortBy(rows[..|rows| - 1], column, direction), column, direction)
    ensures SortedBy(SortBy(rows[..|rows| - 1], column, direction), column, direction)
  {
  }

  lemma WithKeySingle(x: Transaction, column: Column, k: real)
    ensures WithKey([x], column, k) == if Key(x, column) == k then [x] else []
  {
    assert [x][1..] == [];
  }

  /** What `filterHistory` lists: the filtered rows, ordered when the sort field
      is one the query accepts. */
  function Query(txs: seq<Transaction>, email: string, f: Filter): (r: seq<Transaction>)
    ensures multiset(r) == multiset(Filtered(txs, email, f))
    ensures forall t :: t in r <==> t in txs && Matches(t, email, f)
    ensures f.sort.Some? && SortColumn(f.sort.value.0).Some? ==>
              SortedBy(r, SortColumn(f.sort.value.0).value, f.sort.value.1)
    ensures (f.sort.None? || SortColumn(f.sort.value.0).None?) ==> r == Filtered(txs, email, f)
  {
    FilteredMembers(txs, email, f);
    var rows := Filtered(txs, email, f);
    if f.sort.Some? && SortColumn(f.sort.value.0).Some? then
      var r := SortBy(rows, SortColumn(f.sort.value.0).value, f.sort.value.1);
      assert forall t :: t in r <==> t in rows by {
        forall t ensures t in r <==> t in rows {
          assert t in r <==> t in multiset(r);
          assert t in rows <==> t in multiset(rows);
        }
      }
      r
    else rows
  }

  /** Ordering by date in ascending order lists the rows of a chronological table
      in table order. */
  lemma {:induction false} DateOrderIsTableOrder(txs: seq<Transaction>, clock: nat, email: string, f: Filter)
    requires Chronological(txs, clock)
    requires f.sort == Some(("date", Asc))
    ensures Query(txs, email, f) == Filtered(txs, email, f)
  {
    var rows := Filtered(txs, email, f);
    FilteredKeepsOrder(txs, clock, email, f);
    assert Lower("date") == "date";
    SortedDistinctIsUnique(Query(txs, email, f), rows);
  }

  /** Two sequences with the same elements, both in strictly increasing stamp
      order, are equal. */
  lemma {:induction false} SortedDistinctIsUnique(a: seq<Transaction>, b: seq<Transaction>)
    requires multiset(a) == multiset(b)
    requires SortedBy(a, ByTimestamp, Asc)
    requires forall i, j :: 0 <= i < j < |b| ==> b[i].stamp < b[j].stamp
    ensures a == b
    decreases |a|
  {
    if a == [] {
      assert |multiset(b)| == 0;
    } else {
      assert |b| == |multiset(b)| == |multiset(a)| == |a|;
      var head := a[0];
      assert b[0] in multiset(a);
      FirstIsLeast(a, b[0]);
      assert head in multiset(b);
      var j := IndexOf(b, head);
      assert j == 0 by {
        if j > 0 {
          assert false;
        }
      }
      SplitFirst(a);
      SplitFirst(b);
      assert multiset(a[1..]) == multiset(a) - multiset{head};
      assert multiset(b[1..]) == multiset(b) - multiset{head};
      assert SortedBy(a[1..], ByTimestamp, Asc);
      SortedDistinctIsUnique(a[1..], b[1..]);
    }
  }

  /** In an ascending order by stamp the first row has the least stamp. */
  lemma FirstIsLeast(a: seq<Transaction>, x: Transaction)
    requires SortedBy(a, ByTimestamp, Asc) && x in a
    ensures a[0].stamp <= x.stamp
  {
    var k :| 0 <= k < |a| && a[k] == x;
    if k > 0 {
      assert InOrder(a[0], a[k], ByTimestamp, Asc);
    }
  }

  /** A position holding `x`. */
  lemma IndexOf(s: seq<Transaction>, x: Transaction) returns (k: int)
    requires x in s
    ensures 0 <= k < |s| && s[k] == x
  {
    k :| 0 <= k < |s| && s[k] == x;
  }

  lemma SplitFirst(s: seq<Transaction>)
    requires s != []
    ensures multiset(s) == multiset{s[0]} + multiset(s[1..])
  {
    assert s == [s[0]] + s[1..];
  }
}
