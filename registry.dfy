/** The `User` table (app.py `class User`) and the rules `register` and
    `login` apply to it: normalisation of the submitted username and email,
    the uniqueness of both columns, and the lookup by username or email. */
module Registry {
  import opened Text
  import opened Credentials
  import RowIds

  /** One row of the user table. `createdAt` is the logical time of the
      insert (the column defaults to the current time). */
  datatype User = User(id: nat, username: string, email: string, passwordHash: PasswordHash, createdAt: nat)

  /** The username as `register` stores it: stripped. */
  function CleanUsername(s: string): (r: string)
    ensures Trimmed(r)
  {
    Strip(s)
  }

  /** An email in the form `register` stores: no surrounding whitespace
      and no upper-case ASCII letter. */
  predicate IsCleanEmail(e: string) {
    Trimmed(e) && Lower(e) == e
  }

  /** The email as `register` stores it: stripped, then lower-cased. */
  function CleanEmail(s: string): (r: string)
    ensures IsCleanEmail(r) && |r| <= |s|
  {
    LowerKeepsTrimmed(Strip(s));
    Lower(Strip(s))
  }

  /** Cleaning a clean username changes nothing: what is stored is
      already in the form a new submission is compared in. */
  lemma CleanUsernameIdempotent(s: string)
    ensures CleanUsername(CleanUsername(s)) == CleanUsername(s)
  {
    StripIdempotent(s);
  }

  /** Cleaning a clean email changes nothing. */
  lemma CleanEmailIdempotent(s: string)
    ensures CleanEmail(CleanEmail(s)) == CleanEmail(s)
  {
    var e := CleanEmail(s);
    StripKeepsTrimmed(e);
  }

  /** A clean email holds no upper-case ASCII letter. */
  lemma CleanEmailHasNoUpper(e: string, k: nat)
    requires IsCleanEmail(e) && k < |e|
    ensures !('A' <= e[k] <= 'Z')
  {
    assert Lower(e)[k] == LowerChar(e[k]);
  }

  predicate UsernameTaken(users: seq<User>, name: string) {
    exists i :: 0 <= i < |users| && users[i].username == name
  }

  predicate EmailTaken(users: seq<User>, email: string) {
    exists i :: 0 <= i < |users| && users[i].email == email
  }

  predicate HasUserId(users: seq<User>, id: nat) {
    exists i :: 0 <= i < |users| && users[i].id == id
  }

  /** Some row carries this id and this username: what a logged-in session
      records. */
  predicate HasUser(users: seq<User>, id: nat, username: string) {
    exists i :: 0 <= i < |users| && users[i].id == id && users[i].username == username
  }

  /** The id SQLite assigns to the next registered user. */
  function NextUserId(users: seq<User>): (id: nat)
    ensures id > 0
    ensures !HasUserId(users, id)
  {
    var ids := seq(|users|, i requires 0 <= i < |users| => users[i].id);
    var id := RowIds.NextId(ids);
    assert forall i :: 0 <= i < |users| ==> users[i].id == ids[i] < id;
    id
  }

  /** The table invariant: positive ids, clean usernames and emails, every
      row inserted before `clock`, and ids, usernames and emails each
      pairwise distinct (the `unique=True` columns). */
  ghost predicate WellFormed(users: seq<User>, clock: nat) {
    && (forall i :: 0 <= i < |users| ==>
          && users[i].id > 0
          && users[i].createdAt < clock
          && Trimmed(users[i].username)
          && IsCleanEmail(users[i].email))
    && (forall i, j :: 0 <= i < j < |users| ==>
          && users[i].id != users[j].id
          && users[i].username != users[j].username
          && users[i].email != users[j].email)
  }

  /** The row `register` inserts. */
  function NewUser(users: seq<User>, username: string, email: string, password: string, salt: nat, clock: nat): (u: User)
    ensures !HasUserId(users, u.id)
    ensures CheckPassword(u.passwordHash, password)
  {
    User(NextUserId(users), CleanUsername(username), CleanEmail(email), HashPassword(password, salt), clock)
  }

  /** Appending a row whose id, username and email are all new, in clean
      form, stamped at the current time, keeps the table invariant. */
  lemma AppendKeepsWellFormed(users: seq<User>, clock: nat, u: User)
    requires WellFormed(users, clock)
    requires u.id > 0 && !HasUserId(users, u.id) && u.createdAt == clock
    requires Trimmed(u.username) && IsCleanEmail(u.email)
    requires !UsernameTaken(users, u.username) && !EmailTaken(users, u.email)
    ensures WellFormed(users + [u], clock + 1)
  {
    var s := users + [u];
    forall i, j | 0 <= i < j < |s|
      ensures s[i].id != s[j].id && s[i].username != s[j].username && s[i].email != s[j].email
    {
      assert s[i] == users[i];
      if j < |users| {
        assert s[j] == users[j];
      } else {
        assert s[j] == u;
      }
    }
  }

  /** Inserting a user whose cleaned username and email are both free keeps
      the table invariant: the uniqueness check of `register` is enough. */
  lemma InsertKeepsWellFormed(users: seq<User>, clock: nat, username: string, email: string, password: string, salt: nat)
    requires WellFormed(users, clock)
    requires !UsernameTaken(users, CleanUsername(username))
    requires !EmailTaken(users, CleanEmail(email))
    ensures WellFormed(users + [NewUser(users, username, email, password, salt, clock)], clock + 1)
  {
    AppendKeepsWellFormed(users, clock, NewUser(users, username, email, password, salt, clock));
  }

  /** The user matches a login identifier by username or by email (the
      query's `username == identifier OR email == identifier`). */
  predicate Identifies(u: User, identifier: string) {
    u.username == identifier || u.email == identifier
  }

  /** The rows the login query selects, in table order. */
  function Matching(users: seq<User>, identifier: string): (r: seq<User>)
    ensures |r| <= |users|
    ensures forall u :: u in r <==> u in users && Identifies(u, identifier)
  {
    if users == [] then []
    else (if Identifies(users[0], identifier) then [users[0]] else []) + Matching(users[1..], identifier)
  }

  /** When no row identifies with the identifier, the query selects nothing. */
  lemma {:induction false} MatchingNone(users: seq<User>, identifier: string)
    requires forall j :: 0 <= j < |users| ==> !Identifies(users[j], identifier)
    ensures Matching(users, identifier) == []
  {
    if users != [] {
      MatchingNone(users[1..], identifier);
    }
  }

  /** When exactly one row identifies with the identifier, the query
      selects that row alone. */
  lemma {:induction false} MatchingSingle(users: seq<User>, identifier: string, i: nat)
    requires i < |users|
    requires forall j :: 0 <= j < |users| ==> (Identifies(users[j], identifier) <==> j == i)
    ensures Matching(users, identifier) == [users[i]]
  {
    if i == 0 {
      MatchingNone(users[1..], identifier);
    } else {
      MatchingSingle(users[1..], identifier, i - 1);
    }
  }

  /** Logging in by username reaches its owner alone, provided no other
      user registered that string as their email. */
  lemma UsernameIdentifiesOwner(users: seq<User>, clock: nat, i: nat)
    requires WellFormed(users, clock) && i < |users|
    requires forall j :: 0 <= j < |users| && users[j].email == users[i].username ==> j == i
    ensures Matching(users, users[i].username) == [users[i]]
  {
    forall j | 0 <= j < |users|
      ensures Identifies(users[j], users[i].username) <==> j == i
    {
    }
    MatchingSingle(users, users[i].username, i);
  }

  /** Logging in by email reaches its owner alone, provided no other user
      chose that string as their username. */
  lemma EmailIdentifiesOwner(users: seq<User>, clock: nat, i: nat)
    requires WellFormed(users, clock) && i < |users|
    requires forall j :: 0 <= j < |users| && users[j].username == users[i].email ==> j == i
    ensures Matching(users, users[i].email) == [users[i]]
  {
    forall j | 0 <= j < |users|
      ensures Identifies(users[j], users[i].email) <==> j == i
    {
    }
    MatchingSingle(users, users[i].email, i);
  }

  /** Emails are stored lower-cased and `login` does not lower-case the
      identifier, so an identifier holding an upper-case ASCII letter can
      only ever match a username. */
  lemma MixedCaseNeverMatchesEmail(users: seq<User>, clock: nat, identifier: string, k: nat)
    requires WellFormed(users, clock)
    requires k < |identifier| && 'A' <= identifier[k] <= 'Z'
    ensures forall u :: u in Matching(users, identifier) ==> u.username == identifier
  {
    forall u | u in Matching(users, identifier)
      ensures u.username == identifier
    {
      var j :| 0 <= j < |users| && users[j] == u;
      if u.email == identifier {
        CleanEmailHasNoUpper(u.email, k);
      }
    }
  }

  /** `register` compares a new username with usernames only and a new email
      with emails only, so it admits a user whose username is an earlier
      user's email; from then on that identifier selects two rows, and the
      login query's unordered `first()` decides whose password is checked. */
  lemma UsernameMayEqualEarlierEmail(users: seq<User>, clock: nat, i: nat, username: string, email: string, password: string, salt: nat)
    requires WellFormed(users, clock) && i < |users|
    requires users[i].email == CleanUsername(username)
    requires !UsernameTaken(users, CleanUsername(username))
    requires !EmailTaken(users, CleanEmail(email))
    ensures
      var u := NewUser(users, username, email, password, salt, clock);
      var after := users + [u];
      && WellFormed(after, clock + 1)
      && users[i] in Matching(after, CleanUsername(username))
      && u in Matching(after, CleanUsername(username))
      && u != users[i]
  {
    InsertKeepsWellFormed(users, clock, username, email, password, salt);
    var u := NewUser(users, username, email, password, salt, clock);
    var after := users + [u];
    assert after[i] == users[i] && after[|users|] == u;
    assert Identifies(users[i], CleanUsername(username)) && Identifies(u, CleanUsername(username));
    assert u.id != users[i].id;
  }
}
