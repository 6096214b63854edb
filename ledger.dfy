/** The `Transaction` table (app.py `class Transaction`) and the read-only
    queries over it: the per-user and per-type filters, `ORDER BY date
    DESC`, SQL `SUM` with Python's `or 0`, the dashboard summary, and the
    row lookup and removal behind `delete_transaction`. */
module Ledger {
  import opened Wrappers
  import opened Text
  import RowIds

  /** One row of the transaction table. `transactionType` is free text: the
      handler stores whatever the form sent. `date` is the logical time of
      the insert (the column defaults to the current time). */
  datatype Transaction = Transaction(
    id: nat,
    userId: nat,
    amount: real,
    category: string,
    description: string,
    transactionType: string,
    date: nat)

  /** The dashboard's income, expense, balance and latest rows. */
  datatype Summary = Summary(balance: real, income: real, expense: real, recent: seq<Transaction>)

  const DEFAULT_CATEGORY := "No category"
  const ALL := "all"
  const INCOME := "income"
  const EXPENSE := "expense"
  const RECENT_LIMIT := 5

  /** The category `add_transaction` stores: the stripped input, or the
      default label when nothing but whitespace was entered. */
  function CategoryOrDefault(category: string): (r: string)
    ensures r != [] && Trimmed(r)
    ensures !AllSpace(category) ==> r == Strip(category)
    ensures AllSpace(category) ==> r == DEFAULT_CATEGORY
  {
    var c := Strip(category);
    if c == [] then
      DefaultCategoryTrimmed();
      DEFAULT_CATEGORY
    else
      c
  }

  /** The default label is not blank and has no surrounding whitespace. */
  lemma DefaultCategoryTrimmed()
    ensures DEFAULT_CATEGORY != [] && Trimmed(DEFAULT_CATEGORY)
  {
    assert DEFAULT_CATEGORY[0] == 'N' && DEFAULT_CATEGORY[|DEFAULT_CATEGORY| - 1] == 'y';
  }

  /** The id SQLite assigns to the next inserted transaction. */
  function NextTxId(txs: seq<Transaction>): (id: nat)
    ensures id > 0
    ensures forall i :: 0 <= i < |txs| ==> txs[i].id != id
  {
    var ids := seq(|txs|, i requires 0 <= i < |txs| => txs[i].id);
    var id := RowIds.NextId(ids);
    assert forall i :: 0 <= i < |txs| ==> txs[i].id == ids[i] < id;
    id
  }

  /** Dates strictly increase along the table: the order rows are inserted
      in, since every insert is stamped with a later time. */
  ghost predicate InsertionOrder(s: seq<Transaction>) {
    forall i, j :: 0 <= i < j < |s| ==> s[i].date < s[j].date
  }

  /** The table invariant: positive, distinct ids; rows stamped before
      `clock`, in the order they were inserted. */
  ghost predicate WellFormed(txs: seq<Transaction>, clock: nat) {
    && (forall i :: 0 <= i < |txs| ==> txs[i].id > 0 && txs[i].date < clock)
    && (forall i, j :: 0 <= i < j < |txs| ==> txs[i].id != txs[j].id)
    && InsertionOrder(txs)
  }

  /** Appending a row with a fresh id stamped with the current time keeps
      the table invariant. */
  lemma AppendKeepsWellFormed(txs: seq<Transaction>, clock: nat, t: Transaction)
    requires WellFormed(txs, clock)
    requires t.id > 0 && t.date == clock
    requires forall i :: 0 <= i < |txs| ==> txs[i].id != t.id
    ensures WellFormed(txs + [t], clock + 1)
  {
    var s := txs + [t];
    forall i, j | 0 <= i < j < |s|
      ensures s[i].id != s[j].id && s[i].date < s[j].date
    {
      assert s[i] == txs[i];
      if j < |txs| {
        assert s[j] == txs[j];
      }
    }
  }

  // ---------------------------------------------------------------------
  // Filters: `filter_by(user_id=...)` and `filter_by(transaction_type=...)`

  /** The rows owned by `userId`, in table order. */
  function OfUser(txs: seq<Transaction>, userId: nat): (r: seq<Transaction>)
    ensures forall t :: t in r <==> t in txs && t.userId == userId
    ensures multiset(r) <= multiset(txs)
  {
    if txs == [] then []
    else
      assert txs == [txs[0]] + txs[1..];
      (if txs[0].userId == userId then [txs[0]] else []) + OfUser(txs[1..], userId)
  }

  /** The rows of type `kind`, in table order. */
  function OfType(txs: seq<Transaction>, kind: string): (r: seq<Transaction>)
    ensures forall t :: t in r <==> t in txs && t.transactionType == kind
    ensures multiset(r) <= multiset(txs)
  {
    if txs == [] then []
    else
      assert txs == [txs[0]] + txs[1..];
      (if txs[0].transactionType == kind then [txs[0]] else []) + OfType(txs[1..], kind)
  }

  lemma {:induction false} OfUserAppend(a: seq<Transaction>, b: seq<Transaction>, userId: nat)
    ensures OfUser(a + b, userId) == OfUser(a, userId) + OfUser(b, userId)
  {
    if a == [] {
      assert a + b == b;
    } else {
      assert (a + b)[1..] == a[1..] + b;
      OfUserAppend(a[1..], b, userId);
    }
  }

  lemma {:induction false} OfTypeAppend(a: seq<Transaction>, b: seq<Transaction>, kind: string)
    ensures OfType(a + b, kind) == OfType(a, kind) + OfType(b, kind)
  {
    if a == [] {
      assert a + b == b;
    } else {
      assert (a + b)[1..] == a[1..] + b;
      OfTypeAppend(a[1..], b, kind);
    }
  }

  // ---------------------------------------------------------------------
  // `ORDER BY date DESC`

  /** Newest first: dates never increase along the sequence. */
  ghost predicate NewestFirst(s: seq<Transaction>) {
    forall i, j :: 0 <= i < j < |s| ==> s[i].date >= s[j].date
  }

  /** Inserts `t` into a newest-first sequence, before the first row that is
      no newer than it. */
  function InsertByDate(t: Transaction, s: seq<Transaction>): (r: seq<Transaction>)
    requires NewestFirst(s)
    ensures NewestFirst(r)
    ensures multiset(r) == multiset(s) + multiset{t}
  {
    if s == [] || t.date >= s[0].date then
      [t] + s
    else
      var rest := InsertByDate(t, s[1..]);
      HeadNoOlderThanRest(t, s, rest);
      assert s == [s[0]] + s[1..];
      [s[0]] + rest
  }

  /** When `t` goes behind the head of `s`, the head is no older than any
      row after it, `t` included. */
  lemma HeadNoOlderThanRest(t: Transaction, s: seq<Transaction>, rest: seq<Transaction>)
    requires NewestFirst(s) && s != [] && t.date < s[0].date
    requires NewestFirst(rest)
    requires multiset(rest) == multiset(s[1..]) + multiset{t}
    ensures NewestFirst([s[0]] + rest)
  {
    forall k | 0 <= k < |rest|
      ensures rest[k].date <= s[0].date
    {
      assert rest[k] in multiset(rest);
      if rest[k] != t {
        assert rest[k] in multiset(s[1..]);
        var m :| 0 <= m < |s[1..]| && s[1..][m] == rest[k];
        assert s[m + 1] == rest[k];
      }
    }
    var r := [s[0]] + rest;
    forall i, j | 0 <= i < j < |r|
      ensures r[i].date >= r[j].date
    {
      assert r[j] == rest[j - 1];
      if i > 0 {
        assert r[i] == rest[i - 1];
      }
    }
  }

  /** The rows of `s` rearranged newest first (an insertion sort). Rows with
      equal dates may come out in either order, as SQL leaves them. */
  function OrderByDateDesc(s: seq<Transaction>): (r: seq<Transaction>)
    ensures NewestFirst(r)
    ensures multiset(r) == multiset(s)
  {
    if s == [] then []
    else
      var rest := OrderByDateDesc(s[1..]);
      assert s == [s[0]] + s[1..];
      InsertByDate(s[0], rest)
  }

  function Reverse(s: seq<Transaction>): (r: seq<Transaction>)
    ensures |r| == |s|
    ensures forall k :: 0 <= k < |s| ==> r[k] == s[|s| - 1 - k]
  {
    if s == [] then [] else Reverse(s[1..]) + [s[0]]
  }

  /** A row older than every row of a newest-first sequence goes last. */
  lemma {:induction false} InsertOldest(t: Transaction, r: seq<Transaction>)
    requires NewestFirst(r)
    requires forall k :: 0 <= k < |r| ==> t.date < r[k].date
    ensures InsertByDate(t, r) == r + [t]
  {
    if r != [] {
      InsertOldest(t, r[1..]);
      assert r == [r[0]] + r[1..];
    }
  }

  /** In insertion order, the first row is older than every later one,
      taken in any order. */
  lemma FirstIsOldest(s: seq<Transaction>)
    requires InsertionOrder(s) && s != []
    ensures forall k :: 0 <= k < |Reverse(s[1..])| ==> s[0].date < Reverse(s[1..])[k].date
  {
    var r := Reverse(s[1..]);
    forall k | 0 <= k < |r|
      ensures s[0].date < r[k].date
    {
      assert r[k] == s[|s| - 1 - k];
    }
  }

  /** Sorting newest first a sequence kept in insertion order reverses it:
      the listing shows the latest insert first and the earliest last. */
  lemma {:induction false} NewestFirstReversesInsertionOrder(s: seq<Transaction>)
    requires InsertionOrder(s)
    ensures OrderByDateDesc(s) == Reverse(s)
  {
    if s != [] {
      var r := Reverse(s[1..]);
      assert OrderByDateDesc(s[1..]) == r by {
        NewestFirstReversesInsertionOrder(s[1..]);
      }
      assert InsertByDate(s[0], r) == r + [s[0]] by {
        FirstIsOldest(s);
        InsertOldest(s[0], r);
      }
    }
  }

  // ---------------------------------------------------------------------
  // The `transactions` page and the dashboard

  /** The query `transactions` builds: the user's rows, narrowed to one type
      unless the filter is `'all'`. */
  function Query(txs: seq<Transaction>, userId: nat, filter: string): seq<Transaction> {
    var q := OfUser(txs, userId);
    if filter != ALL then OfType(q, filter) else q
  }

  /** The rows the `transactions` page lists: exactly the user's rows of the
      requested type (any type for `'all'`), each once, newest first. */
  function Listing(txs: seq<Transaction>, userId: nat, filter: string): (r: seq<Transaction>)
    ensures NewestFirst(r)
    ensures forall t :: t in r <==> t in txs && t.userId == userId && (filter == ALL || t.transactionType == filter)
    ensures multiset(r) <= multiset(txs)
  {
    var q := Query(txs, userId, filter);
    assert forall t :: t in q <==> t in txs && t.userId == userId && (filter == ALL || t.transactionType == filter);
    var r := OrderByDateDesc(q);
    assert forall t :: t in r <==> t in multiset(q);
    r
  }

  /** A filtered listing never shows more than the unfiltered one: as a
      multiset of rows it is contained in the `'all'` listing. */
  lemma FilteredWithinAll(txs: seq<Transaction>, userId: nat, filter: string)
    ensures multiset(Listing(txs, userId, filter)) <= multiset(Listing(txs, userId, ALL))
  {
    var q := OfUser(txs, userId);
    assert multiset(Listing(txs, userId, ALL)) == multiset(q);
    assert multiset(Listing(txs, userId, filter)) == multiset(Query(txs, userId, filter));
  }

  /** The dashboard's `limit(5)` of the user's rows, newest first. */
  function Recent(txs: seq<Transaction>, userId: nat): (r: seq<Transaction>)
    ensures |r| <= RECENT_LIMIT
    ensures NewestFirst(r)
    ensures forall t :: t in r ==> t in txs && t.userId == userId
  {
    var all := Listing(txs, userId, ALL);
    all[..if |all| < RECENT_LIMIT then |all| else RECENT_LIMIT]
  }

  /** The dashboard shows the newest of the user's rows: any row of the user
      left out of it is no newer than the oldest shown, and then five are
      shown. */
  lemma RecentAreNewest(txs: seq<Transaction>, userId: nat, t: Transaction)
    requires t in txs && t.userId == userId
    requires t !in Recent(txs, userId)
    ensures |Recent(txs, userId)| == RECENT_LIMIT
    ensures t.date <= Recent(txs, userId)[RECENT_LIMIT - 1].date
  {
    var all := Listing(txs, userId, ALL);
    var k :| 0 <= k < |all| && all[k] == t;
    assert all[RECENT_LIMIT - 1] == Recent(txs, userId)[RECENT_LIMIT - 1];
  }

  /** The sum of the amounts, 0 for no rows. */
  function SumAmounts(s: seq<Transaction>): real {
    if s == [] then 0.0 else s[0].amount + SumAmounts(s[1..])
  }

  lemma {:induction false} SumAmountsAppend(a: seq<Transaction>, b: seq<Transaction>)
    ensures SumAmounts(a + b) == SumAmounts(a) + SumAmounts(b)
  {
    if a == [] {
      assert a + b == b;
    } else {
      assert (a + b)[1..] == a[1..] + b;
      SumAmountsAppend(a[1..], b);
    }
  }

  /** SQL `SUM`: NULL over no rows, the sum otherwise. NULL only ever
      stands for the empty sum, so replacing it by 0 (Python's `or 0`)
      gives the plain sum of the amounts, whatever the rows. */
  function SqlSum(s: seq<Transaction>): (r: Option<real>)
    ensures r.GetOr(0.0) == SumAmounts(s)
  {
    if s == [] then None else Some(SumAmounts(s))
  }

  /** `SUM(amount)` over the user's rows of one type, `or 0`. */
  function Total(txs: seq<Transaction>, userId: nat, kind: string): real {
    SqlSum(OfType(OfUser(txs, userId), kind)).GetOr(0.0)
  }

  /** `or 0` only replaces the NULL of an empty sum: the total is the plain
      sum of the user's amounts of that type, so it is 0 when there are
      none. */
  lemma TotalIsSum(txs: seq<Transaction>, userId: nat, kind: string)
    ensures Total(txs, userId, kind) == SumAmounts(OfType(OfUser(txs, userId), kind))
    ensures (forall t :: t in txs ==> t.userId != userId || t.transactionType != kind) ==> Total(txs, userId, kind) == 0.0
  {
    var q := OfType(OfUser(txs, userId), kind);
    if q != [] {
      assert q[0] in q;
    }
  }

  /** Totals distribute over a split of the table: each part contributes
      its own sum. */
  lemma TotalSplit(a: seq<Transaction>, b: seq<Transaction>, userId: nat, kind: string)
    ensures Total(a + b, userId, kind) == Total(a, userId, kind) + Total(b, userId, kind)
  {
    OfUserAppend(a, b, userId);
    OfTypeAppend(OfUser(a, userId), OfUser(b, userId), kind);
    SumAmountsAppend(OfType(OfUser(a, userId), kind), OfType(OfUser(b, userId), kind));
    TotalIsSum(a + b, userId, kind);
    TotalIsSum(a, userId, kind);
    TotalIsSum(b, userId, kind);
  }

  /** The contribution of one row to one user's total of one type. */
  function Share(t: Transaction, userId: nat, kind: string): real {
    if t.userId == userId && t.transactionType == kind then t.amount else 0.0
  }

  /** Adding a row raises the owner's total of its type by its amount and
      leaves every other total as it was. */
  lemma TotalAfterAppend(txs: seq<Transaction>, t: Transaction, userId: nat, kind: string)
    ensures Total(txs + [t], userId, kind) == Total(txs, userId, kind) + Share(t, userId, kind)
  {
    TotalSplit(txs, [t], userId, kind);
    assert OfUser([t], userId) == if t.userId == userId then [t] else [];
    assert OfType(OfUser([t], userId), kind) == if Share(t, userId, kind) == t.amount && t.userId == userId && t.transactionType == kind then [t] else [];
    TotalIsSum([t], userId, kind);
  }

  /** Removing a row lowers the owner's total of its type by its amount and
      leaves every other total as it was. */
  lemma TotalAfterRemove(txs: seq<Transaction>, i: nat, userId: nat, kind: string)
    requires i < |txs|
    ensures Total(txs[..i] + txs[i + 1..], userId, kind) == Total(txs, userId, kind) - Share(txs[i], userId, kind)
  {
    assert txs == txs[..i] + [txs[i]] + txs[i + 1..];
    TotalSplit(txs[..i] + [txs[i]], txs[i + 1..], userId, kind);
    TotalAfterAppend(txs[..i], txs[i], userId, kind);
    TotalSplit(txs[..i], txs[i + 1..], userId, kind);
  }

  /** Adding a row moves its owner's total of its type by its amount, and
      no other total: all users and types at once. */
  lemma TotalsAfterAppend(txs: seq<Transaction>, t: Transaction)
    ensures forall userId, kind :: Total(txs + [t], userId, kind) == Total(txs, userId, kind) + Share(t, userId, kind)
  {
    forall userId, kind
      ensures Total(txs + [t], userId, kind) == Total(txs, userId, kind) + Share(t, userId, kind)
    {
      TotalAfterAppend(txs, t, userId, kind);
    }
  }

  /** Removing a row moves its owner's total of its type by its amount,
      and no other total: all users and types at once. */
  lemma TotalsAfterRemove(txs: seq<Transaction>, i: nat)
    requires i < |txs|
    ensures forall userId, kind :: Total(RemoveAt(txs, i), userId, kind) == Total(txs, userId, kind) - Share(txs[i], userId, kind)
  {
    forall userId, kind
      ensures Total(RemoveAt(txs, i), userId, kind) == Total(txs, userId, kind) - Share(txs[i], userId, kind)
    {
      TotalAfterRemove(txs, i, userId, kind);
    }
  }

  /** What the dashboard shows for a user. */
  function Summarize(txs: seq<Transaction>, userId: nat): (s: Summary)
    ensures s.income == SumAmounts(OfType(OfUser(txs, userId), INCOME))
    ensures s.expense == SumAmounts(OfType(OfUser(txs, userId), EXPENSE))
    ensures s.balance == s.income - s.expense
    ensures |s.recent| <= RECENT_LIMIT && NewestFirst(s.recent)
    ensures forall t :: t in s.recent ==> t in txs && t.userId == userId
  {
    TotalIsSum(txs, userId, INCOME);
    TotalIsSum(txs, userId, EXPENSE);
    var income := Total(txs, userId, INCOME);
    var expense := Total(txs, userId, EXPENSE);
    Summary(income - expense, income, expense, Recent(txs, userId))
  }

  // ---------------------------------------------------------------------
  // `delete_transaction`

  /** `Transaction.query.get(id)`: the position of the row with that id, if
      any. */
  function FindById(txs: seq<Transaction>, id: nat): (r: Option<nat>)
    ensures r.Some? ==> r.value < |txs| && txs[r.value].id == id
    ensures r.None? <==> forall i :: 0 <= i < |txs| ==> txs[i].id != id
  {
    if txs == [] then None
    else if txs[0].id == id then Some(0)
    else match FindById(txs[1..], id)
      case None => None
      case Some(k) => Some(k + 1)
  }

  /** The table without the row at position `i`. */
  function RemoveAt(txs: seq<Transaction>, i: nat): (r: seq<Transaction>)
    requires i < |txs|
    ensures |r| == |txs| - 1
    ensures multiset(r) + multiset{txs[i]} == multiset(txs)
  {
    assert txs == txs[..i] + [txs[i]] + txs[i + 1..];
    txs[..i] + txs[i + 1..]
  }

  /** The table without the row at `i` holds the rows before it, then the
      rows after it, each moved up by one place. */
  lemma RemoveAtShifts(txs: seq<Transaction>, i: nat)
    requires i < |txs|
    ensures forall k :: 0 <= k < |RemoveAt(txs, i)| ==> RemoveAt(txs, i)[k] == if k < i then txs[k] else txs[k + 1]
  {
    var r := RemoveAt(txs, i);
    assert r == txs[..i] + txs[i + 1..];
    forall k | 0 <= k < |r|
      ensures r[k] == if k < i then txs[k] else txs[k + 1]
    {
      if k < i {
        assert r[k] == txs[..i][k];
      } else {
        assert r[k] == txs[i + 1..][k - i];
      }
    }
  }

  /** Removing a row keeps the table invariant. */
  lemma RemoveAtKeepsWellFormed(txs: seq<Transaction>, clock: nat, i: nat)
    requires WellFormed(txs, clock) && i < |txs|
    ensures WellFormed(RemoveAt(txs, i), clock)
  {
    var r := RemoveAt(txs, i);
    RemoveAtShifts(txs, i);
    forall a, b | 0 <= a < b < |r|
      ensures r[a].id != r[b].id && r[a].date < r[b].date
    {
      var a' := if a < i then a else a + 1;
      var b' := if b < i then b else b + 1;
      assert r[a] == txs[a'] && r[b] == txs[b'] && a' < b';
    }
  }

  /** Every row left after removing the one at `i` was in the table and has
      another id. */
  lemma RemoveAtDropsThatRow(txs: seq<Transaction>, clock: nat, i: nat)
    requires WellFormed(txs, clock) && i < |txs|
    ensures forall t :: t in RemoveAt(txs, i) ==> t in txs && t.id != txs[i].id
  {
    var r := RemoveAt(txs, i);
    RemoveAtShifts(txs, i);
    forall t | t in r
      ensures t in txs && t.id != txs[i].id
    {
      var k :| 0 <= k < |r| && r[k] == t;
      var k' := if k < i then k else k + 1;
      assert txs[k'] == t && k' != i;
    }
  }

  /** Every row with another id than the one at `i` survives its removal. */
  lemma RemoveAtKeepsOthers(txs: seq<Transaction>, i: nat)
    requires i < |txs|
    ensures forall t :: t in txs && t.id != txs[i].id ==> t in RemoveAt(txs, i)
  {
    var r := RemoveAt(txs, i);
    RemoveAtShifts(txs, i);
    forall t | t in txs && t.id != txs[i].id
      ensures t in r
    {
      var k :| 0 <= k < |txs| && txs[k] == t;
      if k < i {
        assert r[k] == t;
      } else {
        assert r[k - 1] == t;
      }
    }
  }

  /** In a well-formed table, removing the row at `i` removes exactly the row
      with its id: every other row stays, and the table stays well formed. */
  lemma RemoveAtExactlyThatRow(txs: seq<Transaction>, clock: nat, i: nat)
    requires WellFormed(txs, clock) && i < |txs|
    ensures forall t :: t in RemoveAt(txs, i) <==> t in txs && t.id != txs[i].id
    ensures WellFormed(RemoveAt(txs, i), clock)
  {
    RemoveAtDropsThatRow(txs, clock, i);
    RemoveAtKeepsOthers(txs, i);
    RemoveAtKeepsWellFormed(txs, clock, i);
  }

  /** A row older than every row of a sequence in insertion order can be put
      in front of it. */
  lemma ConsKeepsInsertionOrder(x: Transaction, rest: seq<Transaction>)
    requires InsertionOrder(rest)
    requires forall t :: t in rest ==> x.date < t.date
    ensures InsertionOrder([x] + rest)
  {
    var r := [x] + rest;
    forall i, j | 0 <= i < j < |r| ensures r[i].date < r[j].date {
      assert r[j] == rest[j - 1];
      if i > 0 {
        assert r[i] == rest[i - 1];
      }
    }
  }

  /** Picking out one user's rows keeps them in the order they were
      inserted. */
  lemma {:induction false} OfUserKeepsInsertionOrder(txs: seq<Transaction>, userId: nat)
    requires InsertionOrder(txs)
    ensures InsertionOrder(OfUser(txs, userId))
  {
    if txs != [] {
      var rest := OfUser(txs[1..], userId);
      OfUserKeepsInsertionOrder(txs[1..], userId);
      if txs[0].userId == userId {
        forall t | t in rest ensures txs[0].date < t.date {
          var k :| 0 <= k < |txs[1..]| && txs[1..][k] == t;
          assert txs[k + 1] == t;
        }
        ConsKeepsInsertionOrder(txs[0], rest);
        assert OfUser(txs, userId) == [txs[0]] + rest;
      } else {
        assert OfUser(txs, userId) == rest;
      }
    }
  }

  /** In a table kept in insertion order, the `'all'` listing shows the
      user's rows latest first: their table order, reversed. */
  lemma ListingOfOwnRows(txs: seq<Transaction>, userId: nat)
    requires InsertionOrder(txs)
    ensures Listing(txs, userId, ALL) == Reverse(OfUser(txs, userId))
  {
    OfUserKeepsInsertionOrder(txs, userId);
    NewestFirstReversesInsertionOrder(OfUser(txs, userId));
  }

  /** A user with no more rows than the limit sees all of them on the
      dashboard. */
  lemma RecentWhenFew(txs: seq<Transaction>, userId: nat)
    requires |OfUser(txs, userId)| <= RECENT_LIMIT
    ensures Recent(txs, userId) == Listing(txs, userId, ALL)
  {
    var q := Query(txs, userId, ALL);
    var all := Listing(txs, userId, ALL);
    assert |all| == |q| by {
      assert all == OrderByDateDesc(q);
      assert multiset(all) == multiset(q);
    }
    assert all[..|all|] == all;
  }

  /** In a table kept in insertion order, a user with no more rows than the
      limit sees all of them on the dashboard, latest first. */
  lemma RecentOfFewOwnRows(txs: seq<Transaction>, userId: nat)
    requires InsertionOrder(txs) && |OfUser(txs, userId)| <= RECENT_LIMIT
    ensures Recent(txs, userId) == Reverse(OfUser(txs, userId))
  {
    RecentWhenFew(txs, userId);
    ListingOfOwnRows(txs, userId);
  }

  /** The filter keeps a sequence of the user's own rows whole. */
  lemma {:induction false} OfUserAll(txs: seq<Transaction>, userId: nat)
    requires forall k :: 0 <= k < |txs| ==> txs[k].userId == userId
    ensures OfUser(txs, userId) == txs
  {
    if txs != [] {
      OfUserAll(txs[1..], userId);
      assert txs == [txs[0]] + txs[1..];
    }
  }
}
