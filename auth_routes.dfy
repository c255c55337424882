/**
 * The auth blueprint (app/auth/routes.py): login, which issues the token the
 * guards read, and the public admin sign-up.
 */
module AuthRoutes {
  import opened Text
  import opened Models
  import opened Web
  import opened Guards

  /** `_redirect_by_role`: the admin dashboard exactly for the role "admin", the user home for any other role. */
  function RedirectByRole(role: string): (r: Outcome)
    ensures r.Redirect? && r.flash.None?
    ensures r.to == AdminHome <==> role == "admin"
    ensures r.to == UserHome <==> role != "admin"
  {
    Redirect(if role == "admin" then AdminHome else UserHome, None)
  }

  /** What `login_submit` answers, and the claims of the access cookie it sets, if any. */
  datatype Login = Login(out: Outcome, token: Option<Claims>)

  /** The claims `create_access_token` signs for a user: the id as a decimal string, the role and the e-mail. */
  function TokenFor(u: User): (c: Claims)
    ensures CallerId(c) == Some(u.id)
    ensures c.role == Some(u.role) && c.email == u.email
  {
    Claims(Decimal(u.id), Some(u.role), u.email)
  }

  /**
   * `login_submit`: the form e-mail is normalised and looked up; an unknown
   * address and a wrong password get the same flash and no token.
   */
  function LoginSubmit(db: Db, formEmail: Option<string>, formPassword: Option<string>, kdf: Kdf): (r: Login)
    // a token is issued exactly to the user the address names, when the password checks
    ensures r.token.Some? <==>
              && UserByEmail(db.users, NormalizeEmail(Or(formEmail, ""))).Some?
              && CheckPassword(UserByEmail(db.users, NormalizeEmail(Or(formEmail, ""))).value, Or(formPassword, ""), kdf)
    ensures r.token.Some? ==>
              var u := UserByEmail(db.users, NormalizeEmail(Or(formEmail, ""))).value;
              && r.token.value == TokenFor(u)
              && r.out == RedirectByRole(u.role)
    ensures r.token.None? ==> r.out == FlashTo(LoginPage, Error, InvalidCredentials)
  {
    var email := NormalizeEmail(Or(formEmail, ""));
    var password := Or(formPassword, "");
    match UserByEmail(db.users, email)
    case None => Login(FlashTo(LoginPage, Error, InvalidCredentials), None)
    case Some(user) =>
      if !CheckPassword(user, password, kdf) then Login(FlashTo(LoginPage, Error, InvalidCredentials), None)
      else Login(RedirectByRole(user.role), Some(TokenFor(user)))
  }

  /**
   * A token from login passes `admin_required` exactly when the user's role is
   * "admin", and its identity names the user who logged in.
   */
  lemma LoginTokenRole(db: Db, formEmail: Option<string>, formPassword: Option<string>, kdf: Kdf)
    requires LoginSubmit(db, formEmail, formPassword, kdf).token.Some?
    ensures var r := LoginSubmit(db, formEmail, formPassword, kdf);
            var u := UserByEmail(db.users, NormalizeEmail(Or(formEmail, ""))).value;
            && (AdminRequired(Verified(r.token.value)).None? <==> u.role == "admin")
            && (r.out.to == AdminHome <==> AdminRequired(Verified(r.token.value)).None?)
  {
  }

  /** Logging in leaves nothing to tell an unknown address from a wrong password. */
  lemma LoginFailureUniform(db: Db, formEmail: Option<string>, formPassword: Option<string>, kdf: Kdf)
    requires UserByEmail(db.users, NormalizeEmail(Or(formEmail, ""))).None?
             || !CheckPassword(UserByEmail(db.users, NormalizeEmail(Or(formEmail, ""))).value, Or(formPassword, ""), kdf)
    ensures LoginSubmit(db, formEmail, formPassword, kdf) == Login(FlashTo(LoginPage, Error, InvalidCredentials), None)
  {
  }

  // ---------------------------------------------------------------------------
  // admin_signup_submit

  /**
   * `admin_signup_submit`: no guard at all. A missing e-mail or password sends
   * the caller back to the form; an address already in use is sent to login;
   * otherwise an account with role "admin" is created.
   */
  function AdminSignupSubmitStep(
    db: Db, formEmail: Option<string>, formPassword: Option<string>, salt: string, kdf: Kdf): (r: Response)
    // only `users` and its id sequence can change
    ensures r.db == db.(users := r.db.users, nextUserId := r.db.nextUserId)
    ensures NormalizeEmail(Or(formEmail, "")) == [] || Or(formPassword, "") == [] ==>
              r == Response(FlashTo(AdminSignupPage, Error, CredentialsRequired), db)
    // an account is created exactly for a new address and a non-empty password
    ensures r.db != db <==>
              && NormalizeEmail(Or(formEmail, "")) != [] && Or(formPassword, "") != []
              && UserByEmail(db.users, NormalizeEmail(Or(formEmail, ""))).None?
    ensures r.db != db ==>
              && r.out == FlashTo(LoginPage, Success, AdminCreated)
              && |r.db.users| == |db.users| + 1
              && r.db.users[..|db.users|] == db.users
              && var u := r.db.users[|db.users|];
              && u.id == db.nextUserId
              && u.role == "admin"
              && u.email == NormalizeEmail(Or(formEmail, ""))
              && CheckPassword(u, Or(formPassword, ""), kdf)
  {
    var email := NormalizeEmail(Or(formEmail, ""));
    var password := Or(formPassword, "");
    if email == [] || password == [] then
      Response(FlashTo(AdminSignupPage, Error, CredentialsRequired), db)
    else if UserByEmail(db.users, email).Some? then
      Response(FlashTo(LoginPage, Error, UserExistsPleaseLogin), db)
    else
      var admin := NewUser(db.nextUserId, email, "admin", password, salt, kdf);
      Response(FlashTo(LoginPage, Success, AdminCreated),
               db.(users := db.users + [admin], nextUserId := db.nextUserId + 1))
  }

  lemma AdminSignupSubmitInvariant(db: Db, formEmail: Option<string>, formPassword: Option<string>, salt: string, kdf: Kdf)
    requires Invariant(db)
    ensures Invariant(AdminSignupSubmitStep(db, formEmail, formPassword, salt, kdf).db)
  {
    var email := NormalizeEmail(Or(formEmail, ""));
    var password := Or(formPassword, "");
    if email != [] && password != [] && UserByEmail(db.users, email).None? {
      InsertUserInvariant(db, NewUser(db.nextUserId, email, "admin", password, salt, kdf));
    }
  }

  method AdminSignupSubmit(
    store: Store, formEmail: Option<string>, formPassword: Option<string>, salt: string, kdf: Kdf)
    returns (out: Outcome)
    requires store.Valid()
    modifies store
    ensures store.Valid()
    ensures Response(out, store.Snapshot()) == AdminSignupSubmitStep(old(store.Snapshot()), formEmail, formPassword, salt, kdf)
  {
    ghost var before := store.Snapshot();
    var email := NormalizeEmail(Or(formEmail, ""));
    var password := Or(formPassword, "");
    if email == [] || password == [] {
      out := FlashTo(AdminSignupPage, Error, CredentialsRequired);
    } else if UserByEmail(store.users, email).Some? {
      out := FlashTo(LoginPage, Error, UserExistsPleaseLogin);
    } else {
      var admin := NewUser(store.nextUserId, email, "admin", password, salt, kdf);
      store.users := store.users + [admin];
      store.nextUserId := store.nextUserId + 1;
      out := FlashTo(LoginPage, Success, AdminCreated);
    }
    assert Response(out, store.Snapshot()) == AdminSignupSubmitStep(before, formEmail, formPassword, salt, kdf);
    AdminSignupSubmitInvariant(before, formEmail, formPassword, salt, kdf);
  }
}
