/**
 * Properties of the portal that span more than one handler: an account made
 * by one request is the account a later login finds, and an access row made
 * or removed by an admin is what a later download consults.
 */
module Flows {
  import opened Text
  import opened Models
  import opened Web
  import opened Guards
  import opened AdminRoutes
  import opened UserRoutes
  import opened AuthRoutes
  import opened Bootstrap

  /** The public sign-up creates an account that logs straight into the admin dashboard. */
  lemma SignupThenLogin(db: Db, formEmail: Option<string>, formPassword: Option<string>, salt: string, kdf: Kdf)
    requires Invariant(db)
    requires NormalizeEmail(Or(formEmail, "")) != [] && Or(formPassword, "") != []
    requires UserByEmail(db.users, NormalizeEmail(Or(formEmail, ""))).None?
    ensures var after := AdminSignupSubmitStep(db, formEmail, formPassword, salt, kdf).db;
            var login := LoginSubmit(after, formEmail, formPassword, kdf);
            && login.token.Some?
            && CallerId(login.token.value) == Some(db.nextUserId)
            && AdminRequired(Verified(login.token.value)).None?
            && login.out == Redirect(AdminHome, None)
  {
    var after := AdminSignupSubmitStep(db, formEmail, formPassword, salt, kdf).db;
    AdminSignupSubmitInvariant(db, formEmail, formPassword, salt, kdf);
    UserByEmailFinds(after.users, after.users[|db.users|]);
  }

  /**
   * An account an admin adds logs into the user home with a token the user
   * guard lets through and the admin guard refuses with 403.
   */
  lemma AddUserThenLogin(
    db: Db, s: Session, formEmail: Option<string>, formPassword: Option<string>, formRole: Option<string>,
    salt: string, kdf: Kdf)
    requires Invariant(db)
    requires AddUserAccepted(db, s, formEmail, formPassword, formRole)
    ensures var after := AddUserSubmitStep(db, s, formEmail, formPassword, formRole, salt, kdf).db;
            var login := LoginSubmit(after, formEmail, formPassword, kdf);
            && login.token.Some?
            && CallerId(login.token.value) == Some(db.nextUserId)
            && UserGuard(Verified(login.token.value)).None?
            && AdminRequired(Verified(login.token.value)) == Some(Abort(403))
            && login.out == Redirect(UserHome, None)
  {
    var after := AddUserSubmitStep(db, s, formEmail, formPassword, formRole, salt, kdf).db;
    AddUserSubmitInvariant(db, s, formEmail, formPassword, formRole, salt, kdf);
    UserByEmailFinds(after.users, after.users[|db.users|]);
  }

  /**
   * After the start-up bootstrap, any login with the configured address that
   * succeeds is an admin login; when the account was created by the bootstrap,
   * the configured password logs in. (An account that existed keeps its own
   * password: the bootstrap promotes it but does not reset it.)
   */
  lemma BootstrapThenLogin(
    db: Db, envEmail: Option<string>, envPassword: Option<string>, salt: string, kdf: Kdf, password: Option<string>)
    requires Invariant(db)
    requires NormalizeEmail(Or(envEmail, "")) != [] && Or(envPassword, "") != []
    ensures var after := EnsureDefaultAdminStep(db, envEmail, envPassword, true, false, salt, kdf);
            var login := LoginSubmit(after, envEmail, password, kdf);
            && (login.token.Some? ==> AdminRequired(Verified(login.token.value)).None?)
            && (UserByEmail(db.users, NormalizeEmail(Or(envEmail, ""))).None? ==>
                  LoginSubmit(after, envEmail, envPassword, kdf).token.Some?)
  {
    EnsureDefaultAdminEffect(db, envEmail, envPassword, salt, kdf);
  }

  /**
   * A fresh grant with the read flag lets the named user download the
   * document, provided its file is in the upload folder.
   */
  lemma GrantThenDownload(
    db: Db, admin: Session, docId: nat, formUserId: Option<string>, caps: Caps, s: Session)
    requires GrantAccepted(db, admin, docId, formUserId)
    requires AccessFor(db.access, docId, FormUserId(formUserId)).None? && caps.canRead
    requires UserGuard(s).None? && CallerId(s.claims) == Some(FormUserId(formUserId))
    requires DocById(db.documents, docId).value.storedFilename in db.uploads
    ensures var after := GrantProjectAccessStep(db, admin, docId, formUserId, caps).db;
            var doc := DocById(db.documents, docId).value;
            DownloadStep(after, s, docId) == SendFile(doc.storedFilename, doc.originalFilename)
  {
    GrantLookup(db, admin, docId, formUserId, caps, docId, FormUserId(formUserId));
  }

  /** Once its row is revoked, the user is refused the document with 403, whether or not it exists. */
  lemma RevokeThenDownload(db: Db, admin: Session, docId: nat, formUserId: Option<string>, s: Session)
    requires Invariant(db)
    requires AdminRequired(admin).None? && IsDigits(Strip(Or(formUserId, "")))
    requires UserGuard(s).None? && CallerId(s.claims) == Some(FormUserId(formUserId))
    ensures var after := RevokeProjectAccessStep(db, admin, docId, formUserId).db;
            DownloadStep(after, s, docId) == Abort(403)
  {
    if AccessFor(db.access, docId, FormUserId(formUserId)).Some? {
      RevokeRemovesRow(db, admin, docId, formUserId, docId, FormUserId(formUserId));
    }
  }
}
