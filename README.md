# Personal finance tracker — a Dafny model

`app.py` is a small Flask and SQLAlchemy web application. People register
with a username, an email and a password, log in by username or email, and
record income and expense transactions. A dashboard shows their income
total, expense total, balance and latest five transactions. A listing page
shows their transactions, optionally of one type, newest first. A
transaction can be deleted by its owner and by nobody else.

This project models the business rules under the routing and library calls
as one in-memory state machine, `Tracker.FinanceTracker`:

- `users` and `txs` are the two tables (`User`, `Transaction`), kept as
  sequences in insertion order.
- `session` is `Anonymous` or `Authenticated(userId, username)`, the two
  keys the login handler writes into the Flask session.
- `clock` is a logical clock. It stands for `datetime.utcnow` and moves
  forward by one on every insert, so every row carries a distinct time.

Every handler that changes state is a method that returns an `Outcome`.
The outcome stands for the flash message and redirect the handler sends.
The two read-only pages, `dashboard` and `transactions`, are functions of
the state. `login_required` is the `NeedLogin` outcome (or the
`RedirectToLogin` page) that every protected handler returns, with no state
change, when nobody is logged in.

The modules follow the source's structure:

| module | what it holds |
|---|---|
| `Wrappers` | `Option`, for SQL `NULL`, `get` lookups and failed parses |
| `RowIds` | the id SQLite assigns to an inserted row: one more than the largest id, 1 for an empty table (below the 64-bit bound) |
| `Text` | Python's `str.strip()` (Python's whitespace set) and `str.lower()` (ASCII letters) |
| `Credentials` | `set_password` / `check_password`, with bcrypt as an injective salted hash |
| `Registry` | the `User` table: cleaning of usernames and emails, uniqueness, the login lookup |
| `Ledger` | the `Transaction` table: filters, `ORDER BY date DESC`, `SUM ... or 0`, `limit(5)`, lookup and removal by id |
| `LedgerExamples` | worked dashboard examples, proved for any table of that shape |
| `TrackerState` | the session, and the invariant that ties the tables and the session together |
| `Tracker` | the handlers as methods and functions of the `FinanceTracker` class |

The invariant `FinanceTracker.Valid()` (`TrackerState.Consistent`) says:

- ids are positive and distinct in both tables;
- usernames are stripped, emails are stripped and lower-cased, and both are
  unique (the `unique=True` columns);
- every row is stamped before `clock`, and transaction dates strictly
  increase along the table;
- every transaction's `userId` names a registered user (the foreign key);
- a logged-in session names a registered user by id and username.

Every method requires and ensures it.

Three behaviours of the code shape the model:

- Amounts are summed as entered. An expense entered as −40 therefore lowers
  the expense total instead of raising it. `LedgerExamples.SummaryExampleTotals`
  uses positive expense amounts.
- A blank category is stored as `'No category'`.
- `transaction_type` is stored as sent, without a check that it is `income`
  or `expense`. A row of any other type counts toward neither total.

## Model

| member | source | states |
|---|---|---|
| RowIds.MaxId | app.py:38 | the largest id in the table, 0 for an empty table; every id is at most it, and it is one of the ids |
| RowIds.NextId | app.py:38 | the id SQLite gives a new row is positive, larger than every id in the table and so not already used |
| Text.StripLeft | app.py:84 | `lstrip()` removes a prefix made only of whitespace and stops at the first non-whitespace character |
| Text.StripRight | app.py:84 | `rstrip()` removes a suffix made only of whitespace and stops at the last non-whitespace character |
| Text.Strip | app.py:84 | `strip()` returns a string with no whitespace at either end, no longer than its input, and empty exactly when the input is all whitespace |
| Text.Lower | app.py:85 | `lower()` keeps the length and lower-cases each character on its own |
| Text.StripIgnoresPadding | app.py:84 | whitespace added on either side of a string does not change what `strip()` returns |
| Text.StripKeepsTrimmed | app.py:84 | a string with no whitespace at either end is returned unchanged by `strip()` |
| Text.StripIdempotent | app.py:106 | stripping an already stripped identifier changes nothing |
| Text.LowerKeepsTrimmed | app.py:85 | lower-casing a stripped string keeps it stripped, and lower-casing twice is the same as once |
| Text.LowerOfLowerCase | app.py:85 | a string with no upper-case ASCII letter is its own lower case |
| Credentials.HashPassword | app.py:46-48 | the stored hash records the salt it was made with |
| Credentials.CheckPassword | app.py:50-51 | defined as re-hashing the candidate with the stored salt and comparing with the stored hash, as `bcrypt.checkpw` does; `Credentials.CheckAcceptsOnlyOriginal` states that this accepts the hashed password and nothing else |
| Credentials.CheckAcceptsOnlyOriginal | app.py:50-51 | checking a candidate against a stored hash succeeds exactly when it is the password that was hashed, for any salt |
| Registry.CleanUsername | app.py:84 | the stored username has no whitespace at either end |
| Registry.CleanEmail | app.py:85 | the stored email has no whitespace at either end, no upper-case ASCII letter, and is no longer than the input |
| Registry.CleanUsernameIdempotent | app.py:84 | cleaning a stored username again gives the same username |
| Registry.CleanEmailIdempotent | app.py:85 | cleaning a stored email again gives the same email |
| Registry.CleanEmailHasNoUpper | app.py:85 | no character of a stored email is an upper-case ASCII letter |
| Registry.UsernameTaken | app.py:91 | defined as some stored user having exactly that username, the first `filter_by(username=...)` query; `Registry.InsertKeepsWellFormed` and `Tracker.FinanceTracker.Register` state that refusing taken names keeps usernames unique |
| Registry.EmailTaken | app.py:91 | defined as some stored user having exactly that email, the second `filter_by(email=...)` query; `Registry.InsertKeepsWellFormed` and `Tracker.FinanceTracker.Register` state that refusing taken emails keeps emails unique |
| Registry.NextUserId | app.py:38 | a new user's id is positive and belongs to no existing user |
| Registry.NewUser | app.py:94-95 | the inserted user has a fresh id, and its stored hash accepts the password given at registration |
| Registry.AppendKeepsWellFormed | app.py:37-42 | appending a user with a fresh id and a free, clean username and email keeps ids, usernames and emails unique |
| Registry.InsertKeepsWellFormed | app.py:91-97 | when the cleaned username and email are both free, the user `register` inserts keeps the table invariant |
| Registry.Matching | app.py:108 | the login query selects exactly the users whose username or email equals the identifier |
| Registry.MatchingNone | app.py:108 | when no user has the identifier as username or email, the login query selects no row |
| Registry.MatchingSingle | app.py:108 | when exactly one user has the identifier as username or email, the query selects that user alone |
| Registry.UsernameIdentifiesOwner | app.py:108 | logging in by a username selects only its owner, unless another user registered that string as their email |
| Registry.EmailIdentifiesOwner | app.py:108 | logging in by an email selects only its owner, unless another user chose that string as their username |
| Registry.MixedCaseNeverMatchesEmail | app.py:106-108 | an identifier with an upper-case ASCII letter can only match a username, since stored emails are lower-case and the identifier is not lower-cased |
| Registry.UsernameMayEqualEarlierEmail | app.py:91 | `register` accepts a username equal to an earlier user's email; afterwards that identifier selects two different users |
| Ledger.CategoryOrDefault | app.py:142 | the stored category is the stripped input, or 'No category' when the input is all whitespace; it is never empty and never has whitespace at either end |
| Ledger.NextTxId | app.py:55 | a new transaction's id is positive and belongs to no existing row |
| Ledger.AppendKeepsWellFormed | app.py:54-61 | appending a row with a fresh id stamped with the current time keeps ids distinct and dates increasing |
| Ledger.OfUser | app.py:157 | `filter_by(user_id=...)` keeps exactly the user's rows and adds none |
| Ledger.OfType | app.py:159 | `filter_by(transaction_type=...)` keeps exactly the rows of that type and adds none |
| Ledger.OfUserAppend | app.py:157 | the owner filter over two parts of a table is the filter over each part, joined |
| Ledger.OfTypeAppend | app.py:159 | the type filter over two parts of a table is the filter over each part, joined |
| Ledger.InsertByDate | app.py:160 | inserting a row into a newest-first sequence keeps it newest first and adds that one row |
| Ledger.OrderByDateDesc | app.py:160 | `order_by(date.desc())` returns the same rows, each as often, newest first |
| Ledger.NewestFirstReversesInsertionOrder | app.py:160 | when rows were inserted one after the other, ordering by date descending is exactly the reversed table |
| Ledger.Query | app.py:157-159 | defined as the owner filter followed, unless the type is 'all', by the type filter, both in table order; `Ledger.Listing` states that the rows it keeps are exactly the user's rows of that type |
| Ledger.Listing | app.py:155-160 | the listing holds exactly the user's rows of the requested type (of any type for 'all'), newest first, none twice |
| Ledger.FilteredWithinAll | app.py:158-160 | a listing of one type is contained, row for row, in the 'all' listing |
| Ledger.Recent | app.py:133 | the dashboard shows at most five rows, newest first, all of them the user's |
| Ledger.RecentAreNewest | app.py:133 | any of the user's rows left off the dashboard is no newer than the oldest shown, and then five are shown |
| Ledger.RecentWhenFew | app.py:133 | a user with at most five rows sees all of them on the dashboard |
| Ledger.ListingOfOwnRows | app.py:157-160 | in any table kept in insertion order, the 'all' listing is the user's rows in table order, reversed: latest first |
| Ledger.RecentOfFewOwnRows | app.py:133 | in any table kept in insertion order, a user with at most five rows sees all of them on the dashboard, in table order reversed: latest first |
| Ledger.SumAmountsAppend | app.py:130 | the sum over two parts of a table is the sum of the two sums |
| Ledger.SqlSum | app.py:130 | SQL `SUM` with its NULL replaced by 0 (`or 0`) is the plain sum of the amounts, for any rows: NULL only ever stands for the empty sum |
| Ledger.TotalIsSum | app.py:130-131 | `SUM(...) or 0` is the plain sum of the user's amounts of that type, and 0 when the user has none |
| Ledger.Total | app.py:130-131 | defined as `SUM(amount)` over the user's rows of that type, with `or 0` replacing the NULL of an empty sum; `Ledger.TotalIsSum`, `Ledger.TotalAfterAppend` and `Ledger.TotalAfterRemove` state its properties |
| Ledger.TotalSplit | app.py:130-131 | a user's total over two parts of a table is the sum of the totals over each part |
| Ledger.TotalAfterAppend | app.py:145-147 | adding a row raises its owner's total of its type by its amount and leaves every other total unchanged |
| Ledger.TotalAfterRemove | app.py:171-172 | removing a row lowers its owner's total of its type by its amount and leaves every other total unchanged |
| Ledger.TotalsAfterAppend | app.py:145-147 | after an insert, every user's total of every type equals the old total plus the new row's share: its amount for its owner and type, 0 otherwise |
| Ledger.TotalsAfterRemove | app.py:171-172 | after a delete, every user's total of every type equals the old total minus the deleted row's share |
| Ledger.Summarize | app.py:129-133 | income and expense are the sums of the user's income and expense amounts (0 when there are none), balance is income minus expense; at most five recent rows, newest first, all the user's own |
| Ledger.FindById | app.py:167 | `get(id)` finds the position of the row with that id, or reports that no row has it |
| Ledger.RemoveAt | app.py:171 | deleting a row leaves one row fewer: the same rows, each as often, except that row |
| Ledger.RemoveAtShifts | app.py:171 | after the delete, rows before the deleted one keep their place and later rows move up by one |
| Ledger.RemoveAtKeepsWellFormed | app.py:171 | deleting a row keeps ids distinct and dates increasing |
| Ledger.RemoveAtDropsThatRow | app.py:171 | every row left after the delete was in the table and has a different id from the deleted row |
| Ledger.RemoveAtKeepsOthers | app.py:171 | every row with a different id from the deleted row survives the delete |
| Ledger.RemoveAtExactlyThatRow | app.py:171-172 | in a well-formed table, the delete removes exactly the row with that id and keeps the table well formed |
| Ledger.OfUserAll | app.py:157 | the owner filter keeps a table of the user's own rows whole |
| Ledger.OfUserKeepsInsertionOrder | app.py:157 | the owner filter keeps the rows it selects in the order they were inserted |
| LedgerExamples.SummaryExampleTotals | app.py:130-132 | a user with income 100 and expenses 40 and 10 sees income 100, expense 50 and balance 50 |
| LedgerExamples.SummaryExampleRecent | app.py:133 | a user with three rows inserted one after the other sees all three on the dashboard, latest first |
| TrackerState.AppendKeepsConsistent | app.py:94-97 | inserting a user with a fresh id and a free, clean username and email keeps tables, foreign key and session consistent |
| TrackerState.KeepsReferences | app.py:56 | a transaction's owner stays registered after another user is added |
| TrackerState.LoginKeepsConsistent | app.py:110-111 | recording a registered user's id and username in the session keeps the state consistent |
| TrackerState.AddKeepsConsistent | app.py:145-147 | a row owned by the logged-in user, with a fresh id and the current time, keeps the state consistent |
| TrackerState.RemoveKeepsConsistent | app.py:171-172 | deleting any row keeps the state consistent |
| Tracker.FinanceTracker.constructor | app.py:177-179 | a new store has empty tables, nobody logged in, and satisfies the invariant |
| Tracker.FinanceTracker.Register | app.py:82-100 | a mismatched confirmation is refused; otherwise a taken username or email is refused; both leave the users unchanged; otherwise exactly the one cleaned user is appended and nothing else changes |
| Tracker.FinanceTracker.InsertUser | app.py:94-97 | a user with a fresh id and a free, clean username and email is appended, the clock moves on, and the invariant is kept |
| Tracker.FinanceTracker.Login | app.py:104-115 | success only for a user whose username or email equals the stripped identifier and whose password checks, and the session then names that user; a failure leaves the session unchanged and happens only when no user matches or some matching user's password does not check; no table changes |
| Tracker.FinanceTracker.LoginAs | app.py:107-115 | for a stripped identifier: success only for a user whose username or email equals it and whose password checks, and the session then names that user; a failure leaves the session unchanged and happens only when no user matches or some matching user's password does not check; exact when one user matches; no table changes |
| Tracker.FinanceTracker.Logout | app.py:118-123 | refused with the login redirect when nobody is logged in, and otherwise the session is emptied; no table changes |
| Tracker.FinanceTracker.Dashboard | app.py:126-134 | the login redirect exactly when nobody is logged in; otherwise income and expense are the sums of the user's income and expense amounts, the balance is their difference, and at most five of the user's rows are shown, newest first |
| Tracker.FinanceTracker.Transactions | app.py:153-161 | the login redirect exactly when nobody is logged in; otherwise exactly the user's rows of the requested type ('all' when absent), newest first, within the 'all' listing |
| Tracker.FinanceTracker.AddTransaction | app.py:137-150 | refused without a login or with an unparsable amount, with no change; otherwise exactly one row is appended, owned by the session user and carrying the cleaned fields, only that user's total of that type moves, by the amount, and existing rows are unchanged |
| Tracker.FinanceTracker.InsertTransaction | app.py:145-147 | a row of the logged-in user with a fresh id is appended, the clock moves on, only its owner's total of its type moves, and the invariant is kept |
| Tracker.FinanceTracker.DeleteTransaction | app.py:164-174 | refused without a login; not found for an unknown id; refused for another user's row; each of these leaves the table unchanged; there is no other refusal, so a logged-in user who owns the row always deletes it: exactly the row with that id is removed and its owner's total of its type drops by its amount |

## Left out

- Routing, templates, `flash` texts, `redirect` and `url_for`: each handler returns an `Outcome` instead. The GET branches and the `index` page only render a template and change nothing.
- SQLAlchemy, SQLite, commits and the database path setup: the tables are in-memory sequences. A commit that fails is not modelled; every insert and delete takes effect.
- bcrypt's internals, including its silent truncation of passwords to 72 bytes: the hash is an abstract injective salted value, and `bcrypt.gensalt()` is a parameter.
- Credentials.HashPassword: the digest is the password itself, so the model does not capture that a stored hash hides the password.
- Text.Lower: covers ASCII letters only; Python's `str.lower()` also lower-cases other scripts.
- The UTF-8 encoding of passwords and the column length limits (`String(80)`, `String(120)` and so on), which SQLite does not enforce.
- Floating point: amounts are exact reals, so totals and balances are exact sums; rounding, `NaN` and infinities that `float()` accepts are not modelled.
- Tracker.FinanceTracker.AddTransaction: takes the amount already parsed; `None` stands for a `float()` that raises. The model does not say which strings `float()` accepts.
- A missing form field: `request.form[...]` raises inside the handler and Flask answers 400, before any database write or session change, so the state is unchanged; the model's handlers take every field as given.
- Wall-clock time: a logical clock that moves on every insert, so two rows never share a date and ties in `ORDER BY date DESC` do not arise.
- Tracker.FinanceTracker.LoginAs (and so Login): the query has no ORDER BY, so which matching user `first()` returns is left open. The contract is exact when one user matches. When several match, a success names one whose password checks, and a failure means that some matching user's password does not check; which of them `first()` picks is not modelled.
- Concurrent requests, including a race between the ownership check and the delete: each call runs alone.
- Session signing, the secret key and cookie handling: the session is a field of the state.
- One session only: the server keeps one session per browser cookie, while the model holds a single `session`, the one of the browser making the request. Two browsers logged in at the same time can only be expressed as a sequence of logouts and logins.
- The 64-bit rowid bound: once the largest id reaches 2^63−1, SQLite picks a random unused id instead of one more than the largest. Ids are unbounded `nat`s here, so that case does not arise.
- Tracker.FinanceTracker.DeleteTransaction: a requested id above 2^63−1 (the route accepts any digits) makes the source's lookup raise `OverflowError`, a server error; the model answers `NotFound`. Both leave the state unchanged.
