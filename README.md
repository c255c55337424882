# rbac_app access-control core, in Dafny

rbac_app is a Flask document portal with role-based access control. The
admins upload documents, which the code also calls "projects". They manage
accounts, and they grant or revoke per-user access rows on documents. Each
row carries read, edit and delete flags. Plain users see, download, edit and
delete only the documents their rows allow. Identity is a JWT held in a
cookie. Its subject is the user id as a decimal string, and its `role` claim
is what every guard checks.

This project models the part of the system that decides who may do what:

- the database schema with its constraints and cascades (`Models`);
- the text normalisation the handlers apply to form fields (`Text`);
- the token claims and responses (`Web`);
- the two guard decorators (`Guards`);
- the admin handlers (`AdminRoutes`);
- the user handlers (`UserRoutes`);
- login and the public admin sign-up (`AuthRoutes`);
- the start-up creation of the default admin (`Bootstrap`);
- properties that span several handlers (`Flows`).

Every state-changing handler appears twice:

- A pure function `XxxStep(db, ...)`. It gives the response and the database
  afterwards, and its `ensures` state what the handler promises.
- A method `Xxx(store, ...)` on the mutable `Store` (the database session and
  the upload folder). It is proved to leave exactly the state the step
  function describes, and to keep `Store.Valid()`.

`Models.Invariant` is the schema as app/models.py declares it, plus the
row shapes the handlers keep:

- unique user ids and e-mails;
- unique document ids;
- `uploaded_by` references an existing user;
- the unique `(project_id, user_id)` constraint on access rows, with both of
  its foreign keys;
- well-formed rows: stripped, lower-case e-mails, and stripped titles and
  descriptions. These are not declared in app/models.py. The handlers
  normalise every value before they store it, and the model proves that
  every handler keeps them.

Every handler is proved to preserve it.

What the model shows about the code as written:

- Login issues a token exactly to the account the normalised address names,
  when its password checks. An unknown address and a wrong password get
  identical answers.
- `admin_required` passes exactly the literal role `"admin"`.
- The user pages pass exactly the literal role `"user"`, and no token passes
  both.
- `add_user_submit` can never create an admin.
- The public `/admin-signup` has no guard and creates admins for anyone.
  `AuthRoutes.AdminSignupSubmitStep` and `Flows.SignupThenLogin` state this.
- A user sees, downloads, edits and deletes only documents with a row whose
  read flag is set. Edit and delete also need their own flag.
  - A missing document and an ungranted one are refused alike, with 403.
  - An identity that is not an integer is a 500.
- The admin edit strips the submitted title without checking it. A title of
  spaces is stored as the empty string (`AdminRoutes.EditDocSubmitBlanksTitle`).
  The user edit keeps the old title in that case.
- The bootstrap promotes an existing account with the configured address but
  keeps that account's password. Only a newly created default admin gets the
  configured password.

## Model

| member | source | states |
|---|---|---|
| Text.Strip | app/admin/routes.py:49-50 | `str.strip()`: the result is the input with whitespace removed only from its two ends, and it has none left at either end; an already stripped input is returned unchanged |
| Text.StripEmpty | app/admin/routes.py:53 | a stripped field is empty exactly when the raw field was all whitespace, so `if not title` rejects exactly such titles |
| Text.Lower | app/admin/routes.py:190 | `str.lower()`: same length, each character mapped through the ASCII lower-case table |
| Text.NormalizeEmail | app/auth/routes.py:38 | `.strip().lower()`: each character is the lower-cased character of the stripped input at the same position, and the result is stripped and lower-case |
| Text.NormalizeEmailFixed | app/auth/routes.py:38 | an address is left unchanged by normalisation exactly when it is already stripped and lower-case |
| Text.NormalizeEmailIdempotent | app/auth/routes.py:38 | normalising twice equals normalising once, so stored addresses match the lookups of every handler |
| Text.Decimal | app/auth/routes.py:47 | `str(user.id)`: a digit string, without a leading zero, whose value is the id |
| Text.IsDigits | app/admin/routes.py:127 | `str.isdigit()`: a non-empty string of decimal digits |
| Text.ParseNat | app/user/routes.py:30 | `int(...)` on a digit string gives its decimal value; any other string is refused (only the subjects login signs are modelled) |
| Text.OrNone | app/admin/routes.py:91 | `text or None`: None exactly for the empty string, otherwise the text |
| Text.Or | app/auth/routes.py:38-39 | `field or default`: the field when present and non-empty, the default otherwise |
| Models.CheckPassword | app/models.py:30-31 | `check_password`: the digest stored in the row equals the digest of the password under the row's salt |
| Models.Invariant | app/models.py:5-50 | the unique keys, the `uq_project_user_access` constraint and the foreign keys of the three tables, plus the row shapes the handlers keep |
| Models.SetPassword | app/models.py:27-28 | `set_password` stores a salted hash under which `check_password` accepts the password, and changes nothing else |
| Models.NewUser | app/admin/routes.py:196-197 | a new account with the given id, address and role, whose password checks |
| Models.UserById | app/admin/routes.py:135 | `User.query.get`: the row with that id if there is one, and None exactly when no row has it |
| Models.UserByEmail | app/auth/routes.py:41 | `User.query.filter_by(email=...).first()`: a row with that address, and None exactly when none has it |
| Models.DocById | app/admin/routes.py:89 | `Document.query.get_or_404`: the row with that id, and None (404) exactly when none has it |
| Models.AccessFor | app/user/routes.py:31 | `ProjectAccess.query.filter_by(project_id, user_id).first()`: a row for that pair, and None exactly when none exists |
| Models.EmptyDbInvariant | app/models.py:5-50 | the empty database satisfies every constraint of the schema |
| Models.InsertUserInvariant | app/models.py:17-24 | inserting a well-formed user with the next id and an unused address keeps the primary key and unique e-mail constraints |
| Models.InsertDocumentInvariant | app/models.py:36-49 | inserting a well-formed document with the next id whose uploader exists keeps the schema |
| Models.InsertAccessInvariant | app/models.py:5-15 | inserting an access row for an existing document and user and a pair without a row keeps `uq_project_user_access` and both foreign keys |
| Models.Edited | app/models.py:49 | an edit keeps id, files, MIME type and uploader; `updated_at` becomes `now` when a column value changes and stays as it was otherwise |
| Models.ReplaceDocument | app/admin/routes.py:89-92 | writing an edited row back replaces the row with its id, position by position, and nothing else |
| Models.DocByIdReplace | app/admin/routes.py:89-92 | after the write-back, looking up the edited id finds the new row and every other id finds what it found before |
| Models.ReplaceDocumentInvariant | app/admin/routes.py:89-92 | writing back a well-formed edit of an existing row with the same uploader keeps the schema |
| Models.DeleteDocumentRow | app/models.py:50 | deleting a document removes exactly that document's row and, by the `access_list` cascade, exactly the access rows on it |
| Models.DeleteDocumentRowInvariant | app/models.py:5-15 | the document delete with its cascade keeps the schema |
| Models.DeleteUserRow | app/models.py:33 | deleting a user removes exactly that user and, by the `project_access` cascade, exactly their access rows |
| Models.DeleteUserRowInvariant | app/models.py:33 | the user delete with its cascade keeps the schema when the user uploaded nothing |
| Models.Store.constructor | app/models.py:5-50 | a fresh store is empty and valid |
| Web.CallerId | app/user/routes.py:30 | `int(get_jwt_identity())`: present exactly for a digit identity, and then its decimal value |
| Guards.LoginRequired | app/auth/guards.py:5-10 | the handler runs exactly when the token verifies, otherwise 401 |
| Guards.AdminRequired | app/auth/guards.py:12-20 | the handler runs exactly when the token verifies and its role claim is literally "admin": 401 without a token, 403 otherwise |
| AdminRoutes.StoredName | app/admin/routes.py:62 | the stored name is the hex, an underscore and the sanitised name, so it differs from the original name |
| AdminRoutes.UploadSubmitStep | app/admin/routes.py:46-78 | a non-admin gets the guard's 401 or 403 with nothing changed; a blank title and a missing file refuse with nothing saved. Otherwise the upload succeeds exactly when the caller's identity is an integer naming an existing user, and answers 500 when it does not. Success adds exactly one document row: the next id, stripped title, description or None, sanitised and stored names, the file's MIME type, `updated_at` set to the request time, the caller as uploader. The folder gains exactly the stored name and the id sequence advances by one. A 500 leaves the tables unchanged but the saved file in the folder |
| AdminRoutes.UploadSubmitInvariant | app/admin/routes.py:46-78 | an upload keeps the schema |
| AdminRoutes.UploadSubmit | app/admin/routes.py:46-78 | the handler on the store ends in the state the step describes, and keeps it valid |
| AdminRoutes.AdminEdited | app/admin/routes.py:90-91 | the title becomes the stripped form title, or the old title when that field is missing; the description becomes the stripped text or None; id, stored and original file names, MIME type and uploader are kept; `updated_at` becomes the request time exactly when the title or description changes |
| AdminRoutes.EditDocSubmitStep | app/admin/routes.py:86-94 | only `documents` changes and keeps its length; a non-admin is refused; a missing id is 404; a change reports "Document updated." |
| AdminRoutes.EditDocSubmitEffect | app/admin/routes.py:86-94 | an admin edit of an existing document leaves the edited row under its id and every other document unchanged |
| AdminRoutes.EditDocSubmitBlanksTitle | app/admin/routes.py:90 | a title of one space replaces the title with the empty string |
| AdminRoutes.EditDocSubmitInvariant | app/admin/routes.py:86-94 | an admin edit keeps the schema |
| AdminRoutes.EditDocSubmit | app/admin/routes.py:86-94 | the handler on the store ends in the state the step describes, and keeps it valid |
| AdminRoutes.DeleteDocStep | app/admin/routes.py:96-109 | users are untouched; a non-admin is refused; a missing id is 404; otherwise the document, exactly its access rows and its stored file are removed and nothing else |
| AdminRoutes.DeleteDocRemovesOne | app/admin/routes.py:106 | the delete removes exactly one document row, the one with that id |
| AdminRoutes.DeleteDocInvariant | app/admin/routes.py:96-109 | an admin delete keeps the schema |
| AdminRoutes.DeleteDoc | app/admin/routes.py:96-109 | the handler on the store ends in the state the step describes, removing the file only if it exists, and keeps the store valid |
| AdminRoutes.FormUserId | app/admin/routes.py:125-131 | the user id of the grant and revoke forms: the value `int()` gives for the stripped digit field |
| AdminRoutes.GrantProjectAccessStep | app/admin/routes.py:122-146 | grant changes only the access table and only by appending one row; a non-admin gets the guard's 401 or 403 with nothing changed; it changes nothing unless an admin names digits, an existing document and an existing user; non-digits flash "Invalid user."; a missing document or user is a 404 with nothing changed |
| AdminRoutes.GrantLookup | app/admin/routes.py:137-145 | an accepted grant leaves a row for the pair: the existing one, reported as already present, or a new one with the given flags; no other pair's row changes |
| AdminRoutes.GrantIdempotent | app/admin/routes.py:137-140 | granting twice leaves the same database as granting once |
| AdminRoutes.GrantInvariant | app/admin/routes.py:122-146 | a grant keeps the schema |
| AdminRoutes.GrantProjectAccess | app/admin/routes.py:122-146 | the handler on the store ends in the state the step describes, and keeps it valid |
| AdminRoutes.RevokeProjectAccessStep | app/admin/routes.py:149-168 | revoke only removes access rows; a non-admin gets the guard's 401 or 403 with nothing changed; non-digits flash "Invalid user."; a pair without a row is reported and nothing changes |
| AdminRoutes.RevokeRemovesRow | app/admin/routes.py:159-167 | a revoke that finds the row removes exactly that row, the pair has none afterwards, and every other pair's row is unchanged |
| AdminRoutes.RevokeTwice | app/admin/routes.py:159-162 | a second revoke of the same pair reports "Access not found." and changes nothing |
| AdminRoutes.GrantThenRevoke | app/admin/routes.py:122-168 | grant followed by revoke of a pair leaves no row for it |
| AdminRoutes.RevokeInvariant | app/admin/routes.py:149-168 | a revoke keeps the schema |
| AdminRoutes.RevokeProjectAccess | app/admin/routes.py:149-168 | the handler on the store ends in the state the step describes, and keeps it valid |
| AdminRoutes.AddUserSubmitStep | app/admin/routes.py:176-203 | a user is created exactly when an admin supplies an address and password, the address is new and the requested role is not "admin". The new row comes last: next id, normalised address, role "user", password set. Nothing else changes. A non-admin gets the guard's 401 or 403 with nothing changed |
| AdminRoutes.AddUserNeverAdmin | app/admin/routes.py:190-194 | every account after the request either existed before or has role "user" |
| AdminRoutes.AddUserSubmitInvariant | app/admin/routes.py:176-203 | adding a user keeps the schema |
| AdminRoutes.AddUserSubmit | app/admin/routes.py:176-203 | the handler on the store ends in the state the step describes, and keeps it valid |
| AdminRoutes.UploadCount | app/admin/routes.py:222 | the count of a user's uploads is zero exactly when no document names them as uploader |
| AdminRoutes.DeleteUserAllowed | app/admin/routes.py:213-225 | none of the three refusals applies: the user is not the configured default admin (compared lower-case), not the caller, and has uploaded nothing |
| AdminRoutes.DeleteUserStep | app/admin/routes.py:206-231 | the only possible change is the deletion of that user with their access rows. It happens exactly when an admin with an integer identity names an existing user who is not the configured default admin, not the caller and has no uploads. A non-admin gets the guard's 401 or 403, an identity that is not an integer a 500, and a missing user a 404, each with nothing changed |
| AdminRoutes.DeleteUserKeeps | app/admin/routes.py:213-220 | the configured default admin and the caller's own account survive every delete request |
| AdminRoutes.DeleteUserInvariant | app/admin/routes.py:206-231 | a user delete keeps the schema, the upload check guarding the `uploaded_by` foreign key |
| AdminRoutes.DeleteUser | app/admin/routes.py:206-231 | the handler on the store ends in the state the step describes, and keeps it valid |
| UserRoutes.UserGuard | app/user/routes.py:23-26 | the user handlers run exactly for a verified token whose role claim is literally "user": 401 without a token, 403 otherwise |
| UserRoutes.GuardsExclusive | app/user/routes.py:23-26 | no token passes both the user check and `admin_required` |
| UserRoutes.GetPermOr403 | app/user/routes.py:29-34 | a non-integer identity is a 500. The check passes exactly when the caller's row for the document has the read flag, and returns that row. Otherwise 403, whether or not the document exists |
| UserRoutes.ReadableIffJoined | app/user/routes.py:44-47 | under the unique-pair constraint, the first-row check agrees with the join filter of `home`: some row for the pair with the read flag |
| UserRoutes.PermittedDocumentExists | app/user/routes.py:101-106 | with the foreign keys, a caller who passes the check holds a row whose document exists, so the 404 after it cannot happen |
| UserRoutes.ConsNewest | app/user/routes.py:48 | putting a newest document in front of a newest-first list keeps it newest-first |
| UserRoutes.InsertNewest | app/user/routes.py:48 | inserting into a newest-first list keeps it newest-first and adds exactly that document |
| UserRoutes.SortNewestFirst | app/user/routes.py:48 | `order_by(updated_at.desc())`: newest first, and a permutation of the input |
| UserRoutes.ReadableDocs | app/user/routes.py:44-47 | the join holds exactly the documents for which the caller's row grants read |
| UserRoutes.HomeStep | app/user/routes.py:37-58 | the guard's refusal is passed on; a non-integer identity is a 500; otherwise the page is a listing |
| UserRoutes.HomeListsReadable | app/user/routes.py:37-58 | the listing is newest-first and a permutation of the readable documents; a document is listed exactly when it exists and the permission check passes for it |
| UserRoutes.DownloadStep | app/user/routes.py:61-78 | the file is sent, under its original name, exactly when the caller is a user, the check passes, the document exists and its stored file exists. A failed permission check answers its own 500 or 403, and a permitted caller gets 404 for a missing row or a missing stored file |
| UserRoutes.DownloadHidesUngranted | app/user/routes.py:64-67 | without read access the answer is 403 (or 500) and does not depend on the documents or the upload folder |
| UserRoutes.ListedDocumentDownloads | app/user/routes.py:37-78 | every listed document whose file exists downloads |
| UserRoutes.UserEdited | app/user/routes.py:108-113 | a non-blank stripped title replaces the old one, a blank one keeps it; the description becomes the stripped text or None; id, stored and original file names, MIME type and uploader are kept; `updated_at` becomes the request time exactly when the title or description changes |
| UserRoutes.UserEditedKeepsTitle | app/user/routes.py:111-112 | the user edit never empties a non-empty title |
| UserRoutes.EditDocSubmitStep | app/user/routes.py:97-117 | only `documents` changes and keeps its length. A change needs a row with read and edit and reports "Project updated.". A failed permission check answers its own 500 or 403, and a row without edit is 403, with nothing changed |
| UserRoutes.EditDocSubmitEffect | app/user/routes.py:97-117 | a permitted edit leaves the edited row under its id with its title non-empty if it was, and every other document unchanged |
| UserRoutes.EditDocSubmitInvariant | app/user/routes.py:97-117 | a user edit keeps the schema |
| UserRoutes.EditDocSubmit | app/user/routes.py:97-117 | the handler on the store ends in the state the step describes, and keeps it valid |
| UserRoutes.DeleteDocStep | app/user/routes.py:123-144 | a change needs a row with read and delete, and removes exactly the document, its access rows and its stored file. A failed permission check answers its own 500 or 403, and a row without delete is 403, with nothing changed |
| UserRoutes.DeleteDocRemoves | app/user/routes.py:132-141 | after a permitted delete the document is gone and no user has a row for it |
| UserRoutes.DeleteDocInvariant | app/user/routes.py:123-144 | a user delete keeps the schema |
| UserRoutes.DeleteDoc | app/user/routes.py:123-144 | the handler on the store ends in the state the step describes, and keeps it valid |
| AuthRoutes.RedirectByRole | app/auth/routes.py:24-25 | the admin dashboard exactly for the role "admin", the user home for every other role |
| AuthRoutes.TokenFor | app/auth/routes.py:46-49 | the identity claim parses back to the user's id; the role and e-mail claims are the user's |
| AuthRoutes.LoginSubmit | app/auth/routes.py:36-52 | a token is issued exactly when the normalised address names an account whose password checks. It is the token for that account, with its id, role and e-mail as claims, and the redirect follows the role. Otherwise "Invalid email or password" |
| AuthRoutes.LoginTokenRole | app/auth/routes.py:46-51 | a login token passes `admin_required` exactly when the account is an admin, which is exactly when login redirects to the dashboard |
| AuthRoutes.LoginFailureUniform | app/auth/routes.py:41-44 | an unknown address and a wrong password get the identical response and no token |
| AuthRoutes.AdminSignupSubmitStep | app/auth/routes.py:59-78 | no guard. An account is created exactly for a new address and a non-empty password: one admin row at the end with the normalised address and the password set. An empty field or a known address changes nothing |
| AuthRoutes.AdminSignupSubmitInvariant | app/auth/routes.py:59-78 | the sign-up keeps the schema |
| AuthRoutes.AdminSignupSubmit | app/auth/routes.py:59-78 | the handler on the store ends in the state the step describes, and keeps it valid |
| Bootstrap.Promote | app/bootstrap.py:38-42 | `UPDATE users SET role = 'admin' WHERE id = :id`: the rows with that id get role "admin", all others are unchanged |
| Bootstrap.PromoteInvariant | app/bootstrap.py:38-42 | promoting keeps the schema, since ids and addresses are untouched |
| Bootstrap.EnsureDefaultAdminStep | app/bootstrap.py:8-92 | only users and their id sequence change. Nothing changes without both variables, without the table, or on an exception (rollback). An existing address inserts no row and keeps the sequence. A new account comes last with the next id, the address, role "admin" and the configured password |
| Bootstrap.EnsureDefaultAdminInvariant | app/bootstrap.py:8-92 | the bootstrap keeps the schema |
| Bootstrap.UserByEmailFinds | app/bootstrap.py:31-34 | under unique addresses, the lookup by an account's address finds that account |
| Bootstrap.EnsureDefaultAdminEffect | app/bootstrap.py:36-71 | afterwards the address finds an admin. It is the existing account with only its role changed, or a new account with the next id that accepts the configured password |
| Bootstrap.EnsureDefaultAdminKeepsOthers | app/bootstrap.py:31-71 | every account with another address is still there, unchanged |
| Bootstrap.EnsureDefaultAdminIdempotent | app/bootstrap.py:8-92 | running the bootstrap again with the same configuration changes nothing |
| Bootstrap.EnsureDefaultAdmin | app/bootstrap.py:8-92 | the start-up routine on the store ends in the state the step describes, and keeps it valid |
| Flows.SignupThenLogin | app/auth/routes.py:36-78 | anyone can sign up a new address and then log in with a token that passes `admin_required` |
| Flows.AddUserThenLogin | app/admin/routes.py:176-203 | an account added by an admin logs into the user home with a token the user check accepts and `admin_required` refuses with 403 |
| Flows.BootstrapThenLogin | app/bootstrap.py:36-71 | after the bootstrap, every successful login with the configured address is an admin login; a newly created default admin logs in with the configured password |
| Flows.GrantThenDownload | app/admin/routes.py:122-146 | a fresh grant with the read flag lets the named user download the document when its file exists |
| Flows.RevokeThenDownload | app/admin/routes.py:149-168 | after a revoke the user is refused that document with 403, whether or not it exists |

## Left out

- Rendering is not modelled. That covers the templates, the admin dashboard (`dashboard`), the GET form pages (`upload_page`, both `edit_doc_page`, `add_user_page`, `admin_signup_page`, `login_page`) and `root`. The `perm_map` handed to the user home template is also left out. These pages read state but do not change it.
- `admin_download` is not modelled. It is `get_or_404` followed by sending the file, with the admin guard.
- `logout`, `current_user_role` and `get_csrf_from_jwt_cookie` are not modelled: they only clear the cookie or read a claim.
- Token verification is not modelled. Signature, expiry and the CSRF double-submit check are all folded into `Web.Session`: a request either carries verified claims or is refused. Every refusal is modelled as `Unauthorized`, although flask_jwt_extended answers some of them with other statuses, such as 422 for a malformed token.
- Foreign code enters as parameters:
  - the werkzeug password hash (`Kdf`) and its salt;
  - `uuid4().hex`;
  - `secure_filename`;
  - the environment variables;
  - the clock (`now`).
- The upload folder is the set `Db.uploads` of stored names. File contents, disk errors and the path join are not modelled.
- Text handling is partly ASCII only. `str.strip` uses Python's full `isspace` set. `str.lower` and `str.isdigit` use their ASCII meanings, so Unicode case folding and Unicode digits are not modelled.
- Text.ParseNat models `int(...)` on digit strings only. Python's `int` also accepts surrounding whitespace, a sign and underscores between digits, so an identity such as `" 7"` or `"+7"` would be parsed by the source but refused (500) by the model, and `"-1"` would reach a lookup and be refused with 403. Only a token that login signed can reach the handlers, and login signs `str(user.id)`, which is always a plain digit string (`AuthRoutes.TokenFor`).
- Column widths are not modelled: `title` String(200), `email` String(255), the file names String(500), `role` String(30), `mime_type` String(200). On PostgreSQL a longer value makes the commit raise, giving 500. For an upload, the saved file then stays on disk. The model accepts such values as if they were of any length.
- Timestamps are abstract. `created_at` and `uploaded_at` are left out, and `updated_at` is an integer set to `now` when a column value changes.
- Ties in `order_by(updated_at.desc())` are not modelled. The database's order among equal timestamps is unspecified, and the model fixes one order.
- Stored-name collisions are not modelled. The stored name is taken as fresh, and a collision of two uuids is ignored.
- The `can_create_projects` column the bootstrap sets when present is not part of this model.
- Bootstrap errors are not told apart. Any database error inside the bootstrap's transaction is one `fault` flag, which rolls back every table change. The table check is a `tableExists` flag.
- EnsureDefaultAdminStep leaves the id sequence unchanged on a fault. PostgreSQL does not roll back a sequence value that a failed INSERT has taken, so the next user may get a later id. This is not modelled here, although `UploadSubmitStep` models it for the failed document insert. Ids stay fresh either way.
- AdminRoutes.GrantProjectAccessStep takes the new row's read, edit and delete flags as a parameter. The handler sets none of them, and app/models.py declares no such columns or defaults.
- UserRoutes.GetPermOr403 follows `.first()` on the pair. That `home`'s join gives the same answer relies on the unique-pair constraint, as UserRoutes.ReadableIffJoined states.
- Concurrency between requests is not modelled. Each handler is one atomic transaction on the store.
