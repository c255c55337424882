/**
 * What a request handler receives from the session layer and what it hands
 * back: the verified token claims, and the response (a redirect carrying a
 * flash message, an abort, a rendered listing or a file download).
 */
module Web {
  import opened Text
  import opened Models

  /**
   * The claims of an access token as `get_jwt()` returns them: `sub` is the
   * identity (`str(user.id)` at login), `role` the optional role claim.
   */
  datatype Claims = Claims(sub: string, role: Option<string>, email: string)

  /**
   * The result of `verify_jwt_in_request()`: either the cookie carried a token
   * that verified (signature, expiry and, on a POST, the CSRF double-submit
   * value) and these are its claims, or the call raised.
   */
  datatype Session = NoSession | Verified(claims: Claims)

  /** The `tab` query argument of the admin pages. */
  datatype Tab = Projects | Users

  /** Redirect targets. */
  datatype Page =
    | AdminDashboard(tab: Tab)
    | AdminUploadPage(tab: Tab)
    | AdminHome
    | UserHome
    | LoginPage
    | AdminSignupPage

  datatype Category = Success | Info | Error

  /** Every message a handler flashes; `Text` gives its exact wording. */
  datatype Message =
    | TitleRequired | ChooseFile | DocumentUploaded | DocumentUpdated | DocumentDeleted
    | InvalidUser | AccessExists | AccessGranted | AccessNotFound | AccessRevoked
    | CredentialsRequired | UserExists | AdminCreationDisabled | UserCreated
    | DefaultAdminProtected | SelfDeletion | UserHasDocuments | UserDeleted
    | InvalidCredentials | UserExistsPleaseLogin | AdminCreated
    | ProjectUpdated | ProjectDeleted
  {
    function Text(): string {
      match this
      case TitleRequired => "Title is required"
      case ChooseFile => "Please choose a file"
      case DocumentUploaded => "Document uploaded!"
      case DocumentUpdated => "Document updated."
      case DocumentDeleted => "Document deleted."
      case InvalidUser => "Invalid user."
      case AccessExists => "Access already exists."
      case AccessGranted => "Access granted."
      case AccessNotFound => "Access not found."
      case AccessRevoked => "Access revoked."
      case CredentialsRequired => "Email and password required"
      case UserExists => "User already exists."
      case AdminCreationDisabled => "Admin creation is disabled."
      case UserCreated => "User created."
      case DefaultAdminProtected => "Default admin cannot be deleted."
      case SelfDeletion => "You cannot delete the account you're currently logged in with."
      case UserHasDocuments => "Cannot delete user: they have uploaded documents. Delete/reassign documents first."
      case UserDeleted => "User deleted."
      case InvalidCredentials => "Invalid email or password"
      case UserExistsPleaseLogin => "User already exists. Please login."
      case AdminCreated => "Admin account created. Please login."
      case ProjectUpdated => "Project updated."
      case ProjectDeleted => "Project deleted."
    }
  }

  datatype Flash = Flash(category: Category, message: Message)

  datatype Outcome =
    | Redirect(to: Page, flash: Option<Flash>)
      /** `abort(403)`, `get_or_404`, or an unhandled exception (500) */
    | Abort(status: nat)
      /** `verify_jwt_in_request()` raised: no valid token */
    | Unauthorized
      /** the user home page with its document listing */
    | Listing(documents: seq<Document>)
      /** `send_file` of an upload under its original name */
    | SendFile(storedFilename: string, downloadName: string)

  /** What a handler answers and the database after it. */
  datatype Response = Response(out: Outcome, db: Db)

  /** `flash(message, category)` followed by `redirect(...)`. */
  function FlashTo(to: Page, category: Category, message: Message): Outcome {
    Redirect(to, Some(Flash(category, message)))
  }

  /** `int(get_jwt_identity())`; `None` where `int` would raise. */
  function CallerId(claims: Claims): (r: Option<nat>)
    ensures r.Some? <==> IsDigits(claims.sub)
    ensures r.Some? ==> r.value == DigitsValue(claims.sub)
  {
    ParseNat(claims.sub)
  }
}
