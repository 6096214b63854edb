/** The state behind the request handlers of app.py (the two tables, the
    session and the clock that stamps inserted rows), the invariant it
    keeps, and the proofs that each kind of change keeps it. */
module TrackerState {
  import opened Text
  import opened Registry
  import opened Ledger

  /** The Flask session: empty, or holding `user_id` and `username`. */
  datatype Session = Anonymous | Authenticated(userId: nat, username: string)

  /** Both tables keep their invariants, every transaction belongs to a
      registered user (the `user_id` foreign key), and a logged-in session
      names a registered user by id and username. */
  ghost predicate Consistent(users: seq<User>, txs: seq<Transaction>, session: Session, clock: nat) {
    && Registry.WellFormed(users, clock)
    && Ledger.WellFormed(txs, clock)
    && (forall t :: t in txs ==> HasUserId(users, t.userId))
    && (session.Authenticated? ==> HasUser(users, session.userId, session.username))
  }

  /** Appending a user whose id, username and email are all new, stamped
      with the current time, keeps the state consistent. */
  lemma AppendKeepsConsistent(users: seq<User>, txs: seq<Transaction>, session: Session, clock: nat, u: User)
    requires Consistent(users, txs, session, clock)
    requires u.id == NextUserId(users) && u.createdAt == clock
    requires Trimmed(u.username) && IsCleanEmail(u.email)
    requires !UsernameTaken(users, u.username) && !EmailTaken(users, u.email)
    ensures Consistent(users + [u], txs, session, clock + 1)
  {
    Registry.AppendKeepsWellFormed(users, clock, u);
    KeepsReferences(users, u);
  }

  /** Appending a user keeps every id and (id, username) pair the old
      table held. */
  lemma KeepsReferences(users: seq<User>, u: User)
    ensures forall id :: HasUserId(users, id) ==> HasUserId(users + [u], id)
    ensures forall id, name :: HasUser(users, id, name) ==> HasUser(users + [u], id, name)
  {
    var after := users + [u];
    forall id | HasUserId(users, id)
      ensures HasUserId(after, id)
    {
      var i :| 0 <= i < |users| && users[i].id == id;
      assert after[i] == users[i];
    }
    forall id, name | HasUser(users, id, name)
      ensures HasUser(after, id, name)
    {
      var i :| 0 <= i < |users| && users[i].id == id && users[i].username == name;
      assert after[i] == users[i];
    }
  }

  /** Logging in as a registered user keeps the state consistent. */
  lemma LoginKeepsConsistent(users: seq<User>, txs: seq<Transaction>, session: Session, clock: nat, u: User)
    requires Consistent(users, txs, session, clock) && u in users
    ensures Consistent(users, txs, Authenticated(u.id, u.username), clock)
  {
    var i :| 0 <= i < |users| && users[i] == u;
  }

  /** Adding a transaction owned by the logged-in user keeps the state
      consistent. */
  lemma AddKeepsConsistent(users: seq<User>, txs: seq<Transaction>, session: Session, clock: nat, t: Transaction)
    requires Consistent(users, txs, session, clock) && session.Authenticated?
    requires t.id == NextTxId(txs) && t.userId == session.userId && t.date == clock
    ensures Consistent(users, txs + [t], session, clock + 1)
  {
    Ledger.AppendKeepsWellFormed(txs, clock, t);
    assert HasUserId(users, t.userId);
  }

  /** Removing a transaction keeps the state consistent. */
  lemma RemoveKeepsConsistent(users: seq<User>, txs: seq<Transaction>, session: Session, clock: nat, i: nat)
    requires Consistent(users, txs, session, clock) && i < |txs|
    ensures Consistent(users, RemoveAt(txs, i), session, clock)
  {
    RemoveAtExactlyThatRow(txs, clock, i);
  }
}
