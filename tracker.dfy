/** The request handlers of app.py as one in-memory state machine: the two
    tables, the session of the requesting browser, and the clock that
    stamps inserted rows. Each handler that changes state is a method
    returning the outcome that the handler signals with a flash message and
    a redirect; the two read-only pages are functions. */
module Tracker {
  import opened Wrappers
  import opened Text
  import opened Credentials
  import opened Registry
  import opened Ledger
  import opened TrackerState

  /** What a handler signals to the browser (flash category and redirect). */
  datatype Outcome =
    | Ok               // the request did what it asked
    | PasswordMismatch // 'Passwords mismatch.'
    | Taken            // 'Username/email taken.'
    | BadLogin         // 'Bad login.'
    | NeedLogin        // `login_required`: 'Log in first.' and a redirect to the login page
    | BadAmount        // `float(amount)` raised: the request fails, nothing is stored
    | NotFound         // `get_or_404`
    | NotYours         // 'Not yours to delete.'

  /** A protected page: either the redirect of `login_required`, or the
      page's content. */
  datatype Page<T> = RedirectToLogin | Shown(value: T)

  class FinanceTracker {
    var users: seq<User>
    var txs: seq<Transaction>
    var session: Session
    var clock: nat

    /** Both tables keep their invariants, every transaction belongs to a
        registered user (the `user_id` foreign key), and a logged-in session
        names a registered user by id and username. */
    ghost predicate Valid()
      reads this
    {
      Consistent(users, txs, session, clock)
    }

    /** Empty tables, nobody logged in. */
    constructor ()
      ensures Valid()
      ensures users == [] && txs == [] && session == Anonymous && clock == 0
    {
      users := [];
      txs := [];
      session := Anonymous;
      clock := 0;
    }

    /** `register`, POST: the password must equal its confirmation, the
        stripped username and the stripped, lower-cased email must both be
        free; then exactly one user is inserted. `salt` stands for
        `bcrypt.gensalt()`. */
    method Register(username: string, email: string, password: string, confirm: string, salt: nat) returns (o: Outcome)
      requires Valid()
      modifies this
      ensures Valid()
      ensures txs == old(txs) && session == old(session)
      ensures o == Ok || o == PasswordMismatch || o == Taken
      ensures o == PasswordMismatch <==> password != confirm
      ensures o == Taken <==> (password == confirm
        && (UsernameTaken(old(users), CleanUsername(username)) || EmailTaken(old(users), CleanEmail(email))))
      ensures o != Ok ==> users == old(users) && clock == old(clock)
      ensures o == Ok ==> (clock == old(clock) + 1
        && users == old(users) + [NewUser(old(users), username, email, password, salt, old(clock))])
    {
      if password != confirm {
        return PasswordMismatch;
      }
      var name := CleanUsername(username);
      var mail := CleanEmail(email);
      if UsernameTaken(users, name) || EmailTaken(users, mail) {
        return Taken;
      }
      InsertUser(NewUser(users, username, email, password, salt, clock));
      o := Ok;
    }

    /** `db.session.add(user)` and `commit()` for a user whose username and
        email are both free, stamped with the current time. */
    method InsertUser(u: User)
      requires Valid()
      requires u.id == NextUserId(users) && u.createdAt == clock
      requires Trimmed(u.username) && IsCleanEmail(u.email)
      requires !UsernameTaken(users, u.username) && !EmailTaken(users, u.email)
      modifies this
      ensures Valid()
      ensures users == old(users) + [u] && clock == old(clock) + 1
      ensures txs == old(txs) && session == old(session)
    {
      AppendKeepsConsistent(users, txs, session, clock, u);
      users := users + [u];
      clock := clock + 1;
    }

    /** `login`, POST: the identifier is stripped, then looked up. */
    method Login(identifier: string, password: string) returns (o: Outcome)
      requires Valid()
      modifies this
      ensures Valid()
      ensures users == old(users) && txs == old(txs) && clock == old(clock)
      ensures o == Ok || o == BadLogin
      ensures o == Ok ==> exists u :: (u in Matching(users, Strip(identifier))
        && CheckPassword(u.passwordHash, password) && session == Authenticated(u.id, u.username))
      ensures o == BadLogin ==> session == old(session)
      ensures o == BadLogin ==> (Matching(users, Strip(identifier)) == []
        || exists u :: u in Matching(users, Strip(identifier)) && !CheckPassword(u.passwordHash, password))
      ensures (forall u :: u in Matching(users, Strip(identifier)) ==> !CheckPassword(u.passwordHash, password)) ==> o == BadLogin
      ensures |Matching(users, Strip(identifier))| == 1 ==>
        (o == Ok <==> CheckPassword(Matching(users, Strip(identifier))[0].passwordHash, password))
    {
      o := LoginAs(Strip(identifier), password);
    }

    /** The rest of `login`, for a stripped identifier: the query selects
        the users whose username or email equals it and `first()` takes one
        of them (the query has no ORDER BY, so which one is left open); when
        its password checks, the session records its id and username. A
        failed attempt leaves the session as it was. */
    method LoginAs(identifier: string, password: string) returns (o: Outcome)
      requires Valid()
      modifies this
      ensures Valid()
      ensures users == old(users) && txs == old(txs) && clock == old(clock)
      ensures o == Ok || o == BadLogin
      ensures o == Ok ==> exists u :: (u in Matching(users, identifier)
        && CheckPassword(u.passwordHash, password) && session == Authenticated(u.id, u.username))
      ensures o == BadLogin ==> session == old(session)
      ensures o == BadLogin ==> (Matching(users, identifier) == []
        || exists u :: u in Matching(users, identifier) && !CheckPassword(u.passwordHash, password))
      ensures (forall u :: u in Matching(users, identifier) ==> !CheckPassword(u.passwordHash, password)) ==> o == BadLogin
      ensures |Matching(users, identifier)| == 1 ==>
        (o == Ok <==> CheckPassword(Matching(users, identifier)[0].passwordHash, password))
    {
      var candidates := Matching(users, identifier);
      if candidates == [] {
        return BadLogin;
      }
      var k :| 0 <= k < |candidates|;
      var u := candidates[k];
      assert |candidates| == 1 ==> u == candidates[0];
      if CheckPassword(u.passwordHash, password) {
        LoginKeepsConsistent(users, txs, session, clock, u);
        session := Authenticated(u.id, u.username);
        o := Ok;
      } else {
        o := BadLogin;
      }
    }

    /** `logout`: behind `login_required`; the session is emptied. */
    method Logout() returns (o: Outcome)
      requires Valid()
      modifies this
      ensures Valid()
      ensures users == old(users) && txs == old(txs) && clock == old(clock)
      ensures session == Anonymous
      ensures o == NeedLogin <==> old(session).Anonymous?
      ensures o == Ok <==> old(session).Authenticated?
    {
      if session.Anonymous? {
        return NeedLogin;
      }
      session := Anonymous;
      o := Ok;
    }

    /** `dashboard`: the logged-in user's income and expense totals (0 when
        there are none), the balance between them, and the user's latest
        rows, at most five, newest first. */
    function Dashboard(): (p: Page<Summary>)
      reads this
      ensures p.RedirectToLogin? <==> session.Anonymous?
      ensures p.Shown? ==>
        && p.value.income == SumAmounts(OfType(OfUser(txs, session.userId), INCOME))
        && p.value.expense == SumAmounts(OfType(OfUser(txs, session.userId), EXPENSE))
        && p.value.balance == p.value.income - p.value.expense
        && |p.value.recent| <= RECENT_LIMIT
        && NewestFirst(p.value.recent)
        && (forall t :: t in p.value.recent ==> t in txs && t.userId == session.userId)
    {
      if session.Anonymous? then RedirectToLogin
      else Shown(Summarize(txs, session.userId))
    }

    /** `transactions`: the logged-in user's rows of the requested type
        (the `type` argument, `'all'` when absent or when it says `'all'`),
        newest first. */
    function Transactions(filter: Option<string>): (p: Page<seq<Transaction>>)
      reads this
      ensures p.RedirectToLogin? <==> session.Anonymous?
      ensures p.Shown? ==> NewestFirst(p.value)
      ensures p.Shown? ==> forall t :: t in p.value <==>
        t in txs && t.userId == session.userId && (filter.GetOr(ALL) == ALL || t.transactionType == filter.GetOr(ALL))
      ensures p.Shown? ==> multiset(p.value) <= multiset(Listing(txs, session.userId, ALL))
    {
      if session.Anonymous? then RedirectToLogin
      else
        FilteredWithinAll(txs, session.userId, filter.GetOr(ALL));
        Shown(Listing(txs, session.userId, filter.GetOr(ALL)))
    }

    /** `add_transaction`, POST: one row owned by the logged-in user, with
        the parsed amount (`None` when `float()` rejects the input), the
        stripped category or 'No category', the stripped description and
        the type as sent. Only the owner's total of that type moves, by the
        amount. */
    method AddTransaction(amount: Option<real>, category: string, description: string, kind: string) returns (o: Outcome)
      requires Valid()
      modifies this
      ensures Valid()
      ensures users == old(users) && session == old(session)
      ensures o == NeedLogin <==> old(session).Anonymous?
      ensures o == BadAmount <==> old(session).Authenticated? && amount.None?
      ensures o == Ok <==> old(session).Authenticated? && amount.Some?
      ensures o != Ok ==> txs == old(txs) && clock == old(clock)
      ensures o == Ok ==> clock == old(clock) + 1 && txs == old(txs) + [Transaction(
        NextTxId(old(txs)), session.userId, amount.value,
        CategoryOrDefault(category), Strip(description), kind, old(clock))]
      ensures o == Ok ==> forall userId, k :: (Total(txs, userId, k) ==
        Total(old(txs), userId, k) + (if userId == session.userId && k == kind then amount.value else 0.0))
    {
      if session.Anonymous? {
        return NeedLogin;
      }
      if amount.None? {
        return BadAmount;
      }
      InsertTransaction(Transaction(NextTxId(txs), session.userId, amount.value,
        CategoryOrDefault(category), Strip(description), kind, clock));
      o := Ok;
    }

    /** `db.session.add(tx)` and `commit()` for a row of the logged-in user
        with a fresh id, stamped with the current time: the row's owner's
        total of its type moves by its amount, no other total moves. */
    method InsertTransaction(t: Transaction)
      requires Valid() && session.Authenticated?
      requires t.id == NextTxId(txs) && t.userId == session.userId && t.date == clock
      modifies this
      ensures Valid()
      ensures txs == old(txs) + [t] && clock == old(clock) + 1
      ensures users == old(users) && session == old(session)
      ensures forall userId, k :: Total(txs, userId, k) == Total(old(txs), userId, k) + Share(t, userId, k)
    {
      TotalsAfterAppend(txs, t);
      AddKeepsConsistent(users, txs, session, clock, t);
      txs := txs + [t];
      clock := clock + 1;
    }

    /** `delete_transaction`: 404 for an unknown id, a refusal for a row of
        another user, and otherwise that one row is removed, lowering its
        owner's total of its type by its amount. */
    method DeleteTransaction(id: nat) returns (o: Outcome)
      requires Valid()
      modifies this
      ensures Valid()
      ensures users == old(users) && session == old(session) && clock == old(clock)
      ensures o == NeedLogin <==> old(session).Anonymous?
      ensures o == NotFound <==> old(session).Authenticated? && FindById(old(txs), id).None?
      ensures o == NotYours <==> (old(session).Authenticated? && FindById(old(txs), id).Some?
        && old(txs)[FindById(old(txs), id).value].userId != session.userId)
      ensures o == Ok || o == NeedLogin || o == NotFound || o == NotYours
      ensures o != Ok ==> txs == old(txs)
      ensures o == Ok ==>
        var i := FindById(old(txs), id).value;
        && old(txs)[i].userId == session.userId
        && txs == RemoveAt(old(txs), i)
        && (forall t :: t in txs <==> t in old(txs) && t.id != id)
        && (forall userId, k :: Total(txs, userId, k) == Total(old(txs), userId, k) - Share(old(txs)[i], userId, k))
    {
      if session.Anonymous? {
        return NeedLogin;
      }
      var found := FindById(txs, id);
      if found.None? {
        return NotFound;
      }
      var i := found.value;
      if txs[i].userId != session.userId {
        return NotYours;
      }
      RemoveAtExactlyThatRow(txs, clock, i);
      RemoveKeepsConsistent(users, txs, session, clock, i);
      TotalsAfterRemove(txs, i);
      txs := RemoveAt(txs, i);
      o := Ok;
    }
  }
}
