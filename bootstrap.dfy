/**
 * `ensure_default_admin` (app/bootstrap.py): at start-up, make sure the
 * account named by DEFAULT_ADMIN_EMAIL exists and has the role "admin".
 * The environment, whether the `users` table exists yet, and whether the
 * database raised inside the transaction are parameters.
 */
module Bootstrap {
  import opened Text
  import opened Models

  /** `UPDATE users SET role = 'admin' WHERE id = :id`. */
  function Promote(users: seq<User>, id: nat): (r: seq<User>)
    ensures |r| == |users|
    ensures forall i | 0 <= i < |users| ::
              r[i] == (if users[i].id == id then users[i].(role := "admin") else users[i])
  {
    seq(|users|, i requires 0 <= i < |users| => if users[i].id == id then users[i].(role := "admin") else users[i])
  }

  /** Only the role changes, so every constraint on `users` and every reference to a user survives. */
  lemma PromoteInvariant(db: Db, id: nat)
    requires Invariant(db)
    ensures Invariant(db.(users := Promote(db.users, id)))
  {
    var users := Promote(db.users, id);
    assert forall i | 0 <= i < |users| :: users[i].id == db.users[i].id && users[i].email == db.users[i].email;
    assert Keys(db.users, UserIdOf) <= Keys(users, UserIdOf) by {
      forall k | k in Keys(db.users, UserIdOf) ensures k in Keys(users, UserIdOf) {
        var u :| u in db.users && UserIdOf(u) == k;
        var i :| 0 <= i < |db.users| && db.users[i] == u;
        assert users[i] in users;
      }
    }
    forall u | u in users ensures WellFormedUser(u, db.nextUserId) {
      var i :| 0 <= i < |users| && users[i] == u;
      assert db.users[i] in db.users;
    }
    assert UsersOk(users, db.nextUserId);
    DocumentsOkUsers(db.documents, db.nextDocId, db.users, users);
    AccessOkReferenced(db.access, db.documents, db.users, db.documents, users);
  }

  /**
   * `ensure_default_admin`. Without both variables it does nothing; nor when
   * the table is missing, nor when the database raises inside the
   * transaction, which then rolls back. An existing account keeps its
   * password and only has its role set to "admin"; otherwise a new admin
   * is inserted with the configured password.
   */
  function EnsureDefaultAdminStep(
    db: Db, envEmail: Option<string>, envPassword: Option<string>, tableExists: bool, fault: bool,
    salt: string, kdf: Kdf): (r: Db)
    // only `users` and its id sequence can change
    ensures r == db.(users := r.users, nextUserId := r.nextUserId)
    ensures NormalizeEmail(Or(envEmail, "")) == [] || Or(envPassword, "") == [] || !tableExists || fault ==> r == db
    // an existing account: same row, role "admin", nothing else touched
    ensures UserByEmail(db.users, NormalizeEmail(Or(envEmail, ""))).Some? ==>
              r.nextUserId == db.nextUserId && |r.users| == |db.users|
    // a new account: one row at the end with the next id, the address, role "admin" and the password set
    ensures r.nextUserId != db.nextUserId ==>
              && |r.users| == |db.users| + 1
              && r.users[..|db.users|] == db.users
              && var u := r.users[|db.users|];
              && u.id == db.nextUserId
              && u.email == NormalizeEmail(Or(envEmail, ""))
              && u.role == "admin"
              && CheckPassword(u, Or(envPassword, ""), kdf)
  {
    var email := NormalizeEmail(Or(envEmail, ""));
    var password := Or(envPassword, "");
    if email == [] || password == [] || !tableExists || fault then db
    else match UserByEmail(db.users, email)
      case Some(row) =>
        if row.role != "admin" then db.(users := Promote(db.users, row.id)) else db
      case None =>
        var admin := NewUser(db.nextUserId, email, "admin", password, salt, kdf);
        db.(users := db.users + [admin], nextUserId := db.nextUserId + 1)
  }

  lemma EnsureDefaultAdminInvariant(
    db: Db, envEmail: Option<string>, envPassword: Option<string>, tableExists: bool, fault: bool,
    salt: string, kdf: Kdf)
    requires Invariant(db)
    ensures Invariant(EnsureDefaultAdminStep(db, envEmail, envPassword, tableExists, fault, salt, kdf))
  {
    var email := NormalizeEmail(Or(envEmail, ""));
    var password := Or(envPassword, "");
    if email != [] && password != [] && tableExists && !fault {
      match UserByEmail(db.users, email)
      case Some(row) =>
        PromoteInvariant(db, row.id);
      case None =>
        InsertUserInvariant(db, NewUser(db.nextUserId, email, "admin", password, salt, kdf));
    }
  }

  /** Under unique addresses, looking an account's address up finds that account. */
  lemma UserByEmailFinds(users: seq<User>, u: User)
    requires UniqueKeys(users, EmailOf) && u in users
    ensures UserByEmail(users, u.email) == Some(u)
  {
    assert EmailOf(u) == u.email;
    FirstOfKey(users, EmailOf, u);
  }

  /**
   * When it runs, afterwards the address finds an admin account: the account
   * that was there, with the same id and password hash and the role "admin",
   * or else a new account that accepts the configured password.
   */
  lemma EnsureDefaultAdminEffect(
    db: Db, envEmail: Option<string>, envPassword: Option<string>, salt: string, kdf: Kdf)
    requires Invariant(db)
    requires NormalizeEmail(Or(envEmail, "")) != [] && Or(envPassword, "") != []
    ensures var r := EnsureDefaultAdminStep(db, envEmail, envPassword, true, false, salt, kdf);
            var email := NormalizeEmail(Or(envEmail, ""));
            var found := UserByEmail(r.users, email);
            && found.Some? && found.value.role == "admin"
            && match UserByEmail(db.users, email)
               case Some(row) => found.value == row.(role := "admin")
               case None => found.value.id == db.nextUserId && CheckPassword(found.value, Or(envPassword, ""), kdf)
  {
    var r := EnsureDefaultAdminStep(db, envEmail, envPassword, true, false, salt, kdf);
    var email := NormalizeEmail(Or(envEmail, ""));
    EnsureDefaultAdminInvariant(db, envEmail, envPassword, true, false, salt, kdf);
    match UserByEmail(db.users, email)
    case Some(row) =>
      var i :| 0 <= i < |db.users| && db.users[i] == row;
      assert r.users[i] == row.(role := "admin");
      UserByEmailFinds(r.users, r.users[i]);
    case None =>
      UserByEmailFinds(r.users, r.users[|db.users|]);
  }

  /** Every account with another address is still there, unchanged. */
  lemma EnsureDefaultAdminKeepsOthers(
    db: Db, envEmail: Option<string>, envPassword: Option<string>, tableExists: bool, fault: bool,
    salt: string, kdf: Kdf, other: User)
    requires Invariant(db)
    requires other in db.users && other.email != NormalizeEmail(Or(envEmail, ""))
    ensures other in EnsureDefaultAdminStep(db, envEmail, envPassword, tableExists, fault, salt, kdf).users
  {
    var r := EnsureDefaultAdminStep(db, envEmail, envPassword, tableExists, fault, salt, kdf);
    var email := NormalizeEmail(Or(envEmail, ""));
    var i :| 0 <= i < |db.users| && db.users[i] == other;
    if r.users != db.users && r.nextUserId == db.nextUserId {
      var row := UserByEmail(db.users, email).value;
      var j :| 0 <= j < |db.users| && db.users[j] == row;
      assert EmailOf(db.users[i]) != EmailOf(db.users[j]);
      assert r.users[i] == other;
    }
  }

  /** Running it a second time with the same configuration changes nothing. */
  lemma EnsureDefaultAdminIdempotent(
    db: Db, envEmail: Option<string>, envPassword: Option<string>, tableExists: bool, fault: bool,
    salt: string, kdf: Kdf)
    requires Invariant(db)
    ensures var once := EnsureDefaultAdminStep(db, envEmail, envPassword, tableExists, fault, salt, kdf);
            EnsureDefaultAdminStep(once, envEmail, envPassword, tableExists, fault, salt, kdf) == once
  {
    if NormalizeEmail(Or(envEmail, "")) != [] && Or(envPassword, "") != [] && tableExists && !fault {
      EnsureDefaultAdminEffect(db, envEmail, envPassword, salt, kdf);
    }
  }

  method EnsureDefaultAdmin(
    store: Store, envEmail: Option<string>, envPassword: Option<string>, tableExists: bool, fault: bool,
    salt: string, kdf: Kdf)
    requires store.Valid()
    modifies store
    ensures store.Valid()
    ensures store.Snapshot()
         == EnsureDefaultAdminStep(old(store.Snapshot()), envEmail, envPassword, tableExists, fault, salt, kdf)
  {
    ghost var before := store.Snapshot();
    var email := NormalizeEmail(Or(envEmail, ""));
    var password := Or(envPassword, "");
    if email != [] && password != [] && tableExists && !fault {
      var row := UserByEmail(store.users, email);
      if row.Some? {
        if row.value.role != "admin" {
          store.users := Promote(store.users, row.value.id);
        }
      } else {
        var admin := NewUser(store.nextUserId, email, "admin", password, salt, kdf);
        store.users := store.users + [admin];
        store.nextUserId := store.nextUserId + 1;
      }
    }
    assert store.Snapshot() == EnsureDefaultAdminStep(before, envEmail, envPassword, tableExists, fault, salt, kdf);
    EnsureDefaultAdminInvariant(before, envEmail, envPassword, tableExists, fault, salt, kdf);
  }
}
