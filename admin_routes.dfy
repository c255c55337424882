/**
 * The admin blueprint (app/admin/routes.py): upload, edit and delete of
 * documents, grant and revoke of per-document access, and creation and
 * deletion of users. Every handler sits behind `admin_required`.
 *
 * Each handler is a function `...Step` from the database before the request
 * to the response and the database after it, and a method that performs the
 * request step by step on a `Store`, proved to end where the function says.
 */
module AdminRoutes {
  import opened Text
  import opened Models
  import opened Web
  import opened Guards

  const ProjectsTab := AdminDashboard(Projects)
  const UsersTab := AdminDashboard(Users)

  /** The file part of the upload form: the client's file name and the MIME type it sent. */
  datatype FilePart = FilePart(filename: string, mimetype: Option<string>)

  /**
   * The name an upload is stored under: the random hex of a fresh uuid, an
   * underscore, then the sanitised original name. It always carries the
   * original name as its suffix and is never the original name alone.
   */
  function StoredName(hex: string, orig: string): (r: string)
    ensures |r| == |hex| + 1 + |orig|
    ensures r[..|hex|] == hex && r[|hex|] == '_' && r[|hex| + 1..] == orig
    ensures r != orig
  {
    hex + "_" + orig
  }

  // ---------------------------------------------------------------------------
  // upload_submit

  /**
   * `upload_submit`. `hex` stands for `uuid.uuid4().hex`, `secureFilename`
   * for werkzeug's `secure_filename` and `now` for the clock. The file is
   * saved before the uploader id is read and before the row is committed, so
   * a failure at either point answers 500 and leaves the saved file behind.
   */
  function UploadSubmitStep(
    db: Db, s: Session, formTitle: Option<string>, formDescription: Option<string>,
    file: Option<FilePart>, hex: string, secureFilename: string -> string, now: int): (r: Response)
    // an upload touches neither users nor grants
    ensures r.db.users == db.users && r.db.access == db.access && r.db.nextUserId == db.nextUserId
    // the guard answers 401 or 403 with nothing changed
    ensures AdminRequired(s).Some? ==> r == Response(AdminRequired(s).value, db)
    // a blank title and a missing file refuse before anything is saved
    ensures AdminRequired(s).Some? || Strip(Or(formTitle, "")) == [] || file.None? || file.value.filename == []
            ==> r.db == db && r.out != FlashTo(ProjectsTab, Success, DocumentUploaded)
    // an admin with a title and a named file succeeds exactly when the caller's
    // identity is an integer naming an existing user, and gets a 500 otherwise
    ensures AdminRequired(s).None? && Strip(Or(formTitle, "")) != [] && file.Some? && file.value.filename != [] ==>
              if CallerId(s.claims).Some? && UserById(db.users, CallerId(s.claims).value).Some?
              then r.out == FlashTo(ProjectsTab, Success, DocumentUploaded)
              else r.out == Abort(500)
    // a document is added exactly when the upload reports success
    ensures r.db.documents != db.documents <==> r.out == FlashTo(ProjectsTab, Success, DocumentUploaded)
    // and then it is one row at the end, with the stripped title, the sanitised
    // name, the stored name "<hex>_<sanitised name>" and the caller as uploader
    ensures r.db.documents != db.documents ==>
              && file.Some? && s.Verified?
              && |r.db.documents| == |db.documents| + 1
              && r.db.documents[..|db.documents|] == db.documents
              && var d := r.db.documents[|db.documents|];
              && d.id == db.nextDocId
              && d.title == Strip(Or(formTitle, "")) && d.title != []
              && d.description == OrNone(Strip(Or(formDescription, "")))
              && d.originalFilename == secureFilename(file.value.filename)
              && d.storedFilename == StoredName(hex, d.originalFilename)
              && d.mimeType == file.value.mimetype
              && d.updatedAt == now
              && r.db.uploads == db.uploads + {d.storedFilename}
              && r.db.nextDocId == db.nextDocId + 1
              && CallerId(s.claims) == Some(d.uploadedBy)
              && UserById(db.users, d.uploadedBy).Some?
    // a 500 keeps the tables but not the upload folder: the saved file stays
    ensures r.out == Abort(500) ==>
              && file.Some?
              && r.db.documents == db.documents
              && r.db.uploads == db.uploads + {StoredName(hex, secureFilename(file.value.filename))}
  {
    if AdminRequired(s).Some? then Response(AdminRequired(s).value, db)
    else
      var title := Strip(Or(formTitle, ""));
      var description := Strip(Or(formDescription, ""));
      if title == [] then
        Response(FlashTo(AdminUploadPage(Projects), Error, TitleRequired), db)
      else if file.None? || file.value.filename == [] then
        Response(FlashTo(AdminUploadPage(Projects), Error, ChooseFile), db)
      else
        var orig := secureFilename(file.value.filename);
        var stored := StoredName(hex, orig);
        var saved := db.(uploads := db.uploads + {stored});
        match CallerId(s.claims)
        case None => Response(Abort(500), saved)
        case Some(uploader) =>
          if UserById(db.users, uploader).None? then
            // the foreign key on uploaded_by fails at commit; the id is spent
            Response(Abort(500), saved.(nextDocId := db.nextDocId + 1))
          else
            var doc := Document(db.nextDocId, title, OrNone(description), stored, orig,
                                file.value.mimetype, uploader, now);
            Response(FlashTo(ProjectsTab, Success, DocumentUploaded),
                     saved.(documents := db.documents + [doc], nextDocId := db.nextDocId + 1))
  }

  lemma UploadSubmitInvariant(
    db: Db, s: Session, formTitle: Option<string>, formDescription: Option<string>,
    file: Option<FilePart>, hex: string, secureFilename: string -> string, now: int)
    requires Invariant(db)
    ensures Invariant(UploadSubmitStep(db, s, formTitle, formDescription, file, hex, secureFilename, now).db)
  {
    var r := UploadSubmitStep(db, s, formTitle, formDescription, file, hex, secureFilename, now);
    if r.db != db && AdminRequired(s).None? {
      var title := Strip(Or(formTitle, ""));
      var description := Strip(Or(formDescription, ""));
      var orig := secureFilename(file.value.filename);
      var stored := StoredName(hex, orig);
      var uploader := CallerId(s.claims);
      if uploader.Some? {
        if UserById(db.users, uploader.value).None? {
          SkipDocIdInvariant(db);
        } else {
          var doc := Document(db.nextDocId, title, OrNone(description), stored, orig,
                              file.value.mimetype, uploader.value, now);
          InsertDocumentInvariant(db, doc);
        }
      }
    }
  }

  method UploadSubmit(
    store: Store, s: Session, formTitle: Option<string>, formDescription: Option<string>,
    file: Option<FilePart>, hex: string, secureFilename: string -> string, now: int)
    returns (out: Outcome)
    requires store.Valid()
    modifies store
    ensures store.Valid()
    ensures Response(out, store.Snapshot())
         == UploadSubmitStep(old(store.Snapshot()), s, formTitle, formDescription, file, hex, secureFilename, now)
  {
    ghost var before := store.Snapshot();
    var refused := AdminRequired(s);
    if refused.Some? {
      out := refused.value;
    } else {
      var title := Strip(Or(formTitle, ""));
      var description := Strip(Or(formDescription, ""));
      if title == [] {
        out := FlashTo(AdminUploadPage(Projects), Error, TitleRequired);
      } else if file.None? || file.value.filename == [] {
        out := FlashTo(AdminUploadPage(Projects), Error, ChooseFile);
      } else {
        var orig := secureFilename(file.value.filename);
        var stored := StoredName(hex, orig);
        store.uploads := store.uploads + {stored};
        var uploader := CallerId(s.claims);
        if uploader.None? {
          out := Abort(500);
        } else {
          var id := store.nextDocId;
          store.nextDocId := store.nextDocId + 1;
          if UserById(store.users, uploader.value).None? {
            out := Abort(500);
          } else {
            var doc := Document(id, title, OrNone(description), stored, orig, file.value.mimetype, uploader.value, now);
            store.documents := store.documents + [doc];
            out := FlashTo(ProjectsTab, Success, DocumentUploaded);
          }
        }
      }
    }
    assert Response(out, store.Snapshot()) == UploadSubmitStep(before, s, formTitle, formDescription, file, hex, secureFilename, now);
    UploadSubmitInvariant(before, s, formTitle, formDescription, file, hex, secureFilename, now);
  }

  // ---------------------------------------------------------------------------
  // edit_doc_submit

  /** The row the admin edit writes: the title falls back to the old one, the description to None. */
  function AdminEdited(doc: Document, formTitle: Option<string>, formDescription: Option<string>, now: int)
    : (d: Document)
    ensures d.id == doc.id && d.uploadedBy == doc.uploadedBy && d.storedFilename == doc.storedFilename
    ensures d.originalFilename == doc.originalFilename && d.mimeType == doc.mimeType
    ensures d.title == Strip(Or(formTitle, doc.title))
    ensures d.description == OrNone(Strip(Or(formDescription, "")))
    // `updated_at` moves to the request time exactly when a column value changes
    ensures d.updatedAt == doc.updatedAt || d.updatedAt == now
    ensures d.title != doc.title || d.description != doc.description ==> d.updatedAt == now
  {
    Edited(doc, Strip(Or(formTitle, doc.title)), OrNone(Strip(Or(formDescription, ""))), now)
  }

  /**
   * `edit_doc_submit` of the admin blueprint: the title becomes the stripped
   * form title, or the stripped old title when the field is missing or empty;
   * the description always becomes the stripped form text, or None when that
   * is empty.
   */
  function EditDocSubmitStep(
    db: Db, s: Session, docId: nat, formTitle: Option<string>, formDescription: Option<string>, now: int)
    : (r: Response)
    // only `documents` can change, and it keeps its length
    ensures r.db == db.(documents := r.db.documents) && |r.db.documents| == |db.documents|
    ensures AdminRequired(s).Some? ==> r == Response(AdminRequired(s).value, db)
    ensures AdminRequired(s).None? && DocById(db.documents, docId).None? ==> r == Response(Abort(404), db)
    ensures r.db != db ==> r.out == FlashTo(ProjectsTab, Success, DocumentUpdated)
  {
    if AdminRequired(s).Some? then Response(AdminRequired(s).value, db)
    else match DocById(db.documents, docId)
      case None => Response(Abort(404), db)
      case Some(doc) =>
        var d := AdminEdited(doc, formTitle, formDescription, now);
        Response(FlashTo(ProjectsTab, Success, DocumentUpdated),
                 db.(documents := ReplaceDocument(db.documents, d)))
  }

  /**
   * A successful admin edit: looking the document up afterwards finds the
   * edited row, and every other document is found as it was.
   */
  lemma EditDocSubmitEffect(
    db: Db, s: Session, docId: nat, formTitle: Option<string>, formDescription: Option<string>, now: int, k: nat)
    requires AdminRequired(s).None? && DocById(db.documents, docId).Some?
    ensures var r := EditDocSubmitStep(db, s, docId, formTitle, formDescription, now);
            var doc := DocById(db.documents, docId).value;
            && r.out == FlashTo(ProjectsTab, Success, DocumentUpdated)
            && DocById(r.db.documents, docId) == Some(AdminEdited(doc, formTitle, formDescription, now))
            && (k != docId ==> DocById(r.db.documents, k) == DocById(db.documents, k))
  {
    var doc := DocById(db.documents, docId).value;
    var d := AdminEdited(doc, formTitle, formDescription, now);
    DocByIdReplace(db.documents, d, docId);
    DocByIdReplace(db.documents, d, k);
  }

  /**
   * As written, a title field holding only whitespace is neither missing nor
   * empty, so the handler stores its stripped form: the empty title that the
   * upload handler refuses.
   */
  lemma EditDocSubmitBlanksTitle(db: Db, s: Session, docId: nat, formDescription: Option<string>, now: int)
    requires AdminRequired(s).None? && DocById(db.documents, docId).Some?
    ensures var r := EditDocSubmitStep(db, s, docId, Some(" "), formDescription, now);
            DocById(r.db.documents, docId).Some? && DocById(r.db.documents, docId).value.title == []
  {
    EditDocSubmitEffect(db, s, docId, Some(" "), formDescription, now, docId);
    assert IsSpace(" "[0]);
  }

  lemma EditDocSubmitInvariant(
    db: Db, s: Session, docId: nat, formTitle: Option<string>, formDescription: Option<string>, now: int)
    requires Invariant(db)
    ensures Invariant(EditDocSubmitStep(db, s, docId, formTitle, formDescription, now).db)
  {
    if AdminRequired(s).None? && DocById(db.documents, docId).Some? {
      var doc := DocById(db.documents, docId).value;
      var d := AdminEdited(doc, formTitle, formDescription, now);
      assert doc in db.documents;
      ReplaceDocumentInvariant(db, d);
    }
  }

  method EditDocSubmit(
    store: Store, s: Session, docId: nat, formTitle: Option<string>, formDescription: Option<string>, now: int)
    returns (out: Outcome)
    requires store.Valid()
    modifies store
    ensures store.Valid()
    ensures Response(out, store.Snapshot())
         == EditDocSubmitStep(old(store.Snapshot()), s, docId, formTitle, formDescription, now)
  {
    ghost var before := store.Snapshot();
    var refused := AdminRequired(s);
    if refused.Some? {
      out := refused.value;
    } else {
      var found := DocById(store.documents, docId);
      if found.None? {
        out := Abort(404);
      } else {
        var doc := found.value;
        var title := Strip(Or(formTitle, doc.title));
        var description := OrNone(Strip(Or(formDescription, "")));
        var edited := Edited(doc, title, description, now);
        store.documents := ReplaceDocument(store.documents, edited);
        out := FlashTo(ProjectsTab, Success, DocumentUpdated);
      }
    }
    assert Response(out, store.Snapshot()) == EditDocSubmitStep(before, s, docId, formTitle, formDescription, now);
    EditDocSubmitInvariant(before, s, docId, formTitle, formDescription, now);
  }

  // ---------------------------------------------------------------------------
  // delete_doc

  /** `delete_doc` of the admin blueprint: the stored file, the row and, by cascade, the document's grants. */
  function DeleteDocStep(db: Db, s: Session, docId: nat): (r: Response)
    ensures r.db.users == db.users && r.db.nextUserId == db.nextUserId && r.db.nextDocId == db.nextDocId
    ensures AdminRequired(s).Some? ==> r == Response(AdminRequired(s).value, db)
    ensures AdminRequired(s).None? && DocById(db.documents, docId).None? ==> r == Response(Abort(404), db)
    ensures AdminRequired(s).None? && DocById(db.documents, docId).Some? ==>
              && r.out == FlashTo(ProjectsTab, Success, DocumentDeleted)
              && (forall d | d in r.db.documents :: d in db.documents && d.id != docId)
              && (forall d | d in db.documents && d.id != docId :: d in r.db.documents)
              && (forall a | a in r.db.access :: a in db.access && a.projectId != docId)
              && (forall a | a in db.access && a.projectId != docId :: a in r.db.access)
              && r.db.uploads == db.uploads - {DocById(db.documents, docId).value.storedFilename}
  {
    if AdminRequired(s).Some? then Response(AdminRequired(s).value, db)
    else match DocById(db.documents, docId)
      case None => Response(Abort(404), db)
      case Some(doc) =>
        Response(FlashTo(ProjectsTab, Success, DocumentDeleted),
                 DeleteDocumentRow(db, docId).(uploads := db.uploads - {doc.storedFilename}))
  }

  /** Under the primary key, the admin delete removes exactly one document row. */
  lemma DeleteDocRemovesOne(db: Db, s: Session, docId: nat)
    requires Invariant(db)
    requires AdminRequired(s).None? && DocById(db.documents, docId).Some?
    ensures multiset(DeleteDocStep(db, s, docId).db.documents)
         == multiset(db.documents) - multiset{DocById(db.documents, docId).value}
  {
    var doc := DocById(db.documents, docId).value;
    assert DocIdOf(doc) == docId;
    WhereDropsOne(db.documents, DocIdOf, doc);
  }

  lemma DeleteDocInvariant(db: Db, s: Session, docId: nat)
    requires Invariant(db)
    ensures Invariant(DeleteDocStep(db, s, docId).db)
  {
    if AdminRequired(s).None? && DocById(db.documents, docId).Some? {
      DeleteDocumentRowInvariant(db, docId);
    }
  }

  method DeleteDoc(store: Store, s: Session, docId: nat) returns (out: Outcome)
    requires store.Valid()
    modifies store
    ensures store.Valid()
    ensures Response(out, store.Snapshot()) == DeleteDocStep(old(store.Snapshot()), s, docId)
  {
    ghost var before := store.Snapshot();
    var refused := AdminRequired(s);
    if refused.Some? {
      out := refused.value;
    } else {
      var found := DocById(store.documents, docId);
      if found.None? {
        out := Abort(404);
      } else {
        var doc := found.value;
        var after := DeleteDocumentRow(store.Snapshot(), docId);
        if doc.storedFilename in store.uploads {
          store.uploads := store.uploads - {doc.storedFilename};
        }
        assert store.uploads == before.uploads - {doc.storedFilename};
        store.documents := after.documents;
        store.access := after.access;
        out := FlashTo(ProjectsTab, Success, DocumentDeleted);
      }
    }
    assert Response(out, store.Snapshot()) == DeleteDocStep(before, s, docId);
    DeleteDocInvariant(before, s, docId);
  }

  // ---------------------------------------------------------------------------
  // grant_project_access / revoke_project_access

  /** The user id of the grant and revoke forms, once it is known to be digits. */
  function FormUserId(formUserId: Option<string>): (r: nat)
    requires IsDigits(Strip(Or(formUserId, "")))
    ensures ParseNat(Strip(Or(formUserId, ""))) == Some(r)
  {
    DigitsValue(Strip(Or(formUserId, "")))
  }

  /** The requests on which the grant handler inserts or finds a row: an admin, a digit id, an existing document and user. */
  predicate GrantAccepted(db: Db, s: Session, docId: nat, formUserId: Option<string>) {
    && AdminRequired(s).None?
    && IsDigits(Strip(Or(formUserId, "")))
    && DocById(db.documents, docId).Some?
    && UserById(db.users, FormUserId(formUserId)).Some?
  }

  /**
   * `grant_project_access`. The form names the user; the capability flags the
   * new row carries are a parameter, since the handler sets none.
   */
  function GrantProjectAccessStep(db: Db, s: Session, docId: nat, formUserId: Option<string>, caps: Caps)
    : (r: Response)
    // grant only ever touches the access table, and only by appending
    ensures r.db == db.(access := r.db.access)
    ensures r.db.access == db.access || (|r.db.access| == |db.access| + 1 && r.db.access[..|db.access|] == db.access)
    ensures !GrantAccepted(db, s, docId, formUserId) ==> r.db == db
    ensures AdminRequired(s).Some? ==> r == Response(AdminRequired(s).value, db)
    ensures AdminRequired(s).None? && !IsDigits(Strip(Or(formUserId, ""))) ==>
              r.out == FlashTo(ProjectsTab, Error, InvalidUser)
    // a document or user that does not exist is a 404, with nothing changed
    ensures AdminRequired(s).None? && IsDigits(Strip(Or(formUserId, "")))
            && (DocById(db.documents, docId).None? || UserById(db.users, FormUserId(formUserId)).None?) ==>
              r == Response(Abort(404), db)
  {
    if AdminRequired(s).Some? then Response(AdminRequired(s).value, db)
    else
      var raw := Strip(Or(formUserId, ""));
      if !IsDigits(raw) then Response(FlashTo(ProjectsTab, Error, InvalidUser), db)
      else
        var userId := FormUserId(formUserId);
        if DocById(db.documents, docId).None? || UserById(db.users, userId).None? then
          Response(Abort(404), db)
        else if AccessFor(db.access, docId, userId).Some? then
          Response(FlashTo(ProjectsTab, Info, AccessExists), db)
        else
          Response(FlashTo(ProjectsTab, Success, AccessGranted),
                   db.(access := db.access + [Access(docId, userId, caps)]))
  }

  /**
   * The effect of an accepted grant on the lookup the user handlers make: the
   * pair has a row afterwards; a new row carries the given flags, an existing
   * one is kept as it was; and no other pair's row changes.
   */
  lemma GrantLookup(db: Db, s: Session, docId: nat, formUserId: Option<string>, caps: Caps, d: nat, u: nat)
    requires GrantAccepted(db, s, docId, formUserId)
    ensures var userId := FormUserId(formUserId);
            var before := AccessFor(db.access, docId, userId);
            var r := GrantProjectAccessStep(db, s, docId, formUserId, caps);
            && r.out == (if before.Some? then FlashTo(ProjectsTab, Info, AccessExists)
                         else FlashTo(ProjectsTab, Success, AccessGranted))
            && AccessFor(r.db.access, docId, userId) == (if before.Some? then before else Some(Access(docId, userId, caps)))
            && ((d, u) != (docId, userId) ==> AccessFor(r.db.access, d, u) == AccessFor(db.access, d, u))
  {
    var userId := FormUserId(formUserId);
    if AccessFor(db.access, docId, userId).None? {
      var row := Access(docId, userId, caps);
      FirstAppend(db.access, row, KeyIs(PairOf, (docId, userId)));
      FirstAppend(db.access, row, KeyIs(PairOf, (d, u)));
      assert PairOf(row) == (docId, userId);
    }
  }

  /** Granting twice is granting once: the second request finds the row and changes nothing. */
  lemma GrantIdempotent(db: Db, s: Session, docId: nat, formUserId: Option<string>, caps: Caps)
    ensures var once := GrantProjectAccessStep(db, s, docId, formUserId, caps).db;
            GrantProjectAccessStep(once, s, docId, formUserId, caps).db == once
  {
    if GrantAccepted(db, s, docId, formUserId) {
      GrantLookup(db, s, docId, formUserId, caps, docId, FormUserId(formUserId));
    }
  }

  lemma GrantInvariant(db: Db, s: Session, docId: nat, formUserId: Option<string>, caps: Caps)
    requires Invariant(db)
    ensures Invariant(GrantProjectAccessStep(db, s, docId, formUserId, caps).db)
  {
    if GrantAccepted(db, s, docId, formUserId) {
      var userId := FormUserId(formUserId);
      if AccessFor(db.access, docId, userId).None? {
        InsertAccessInvariant(db, Access(docId, userId, caps));
      }
    }
  }

  method GrantProjectAccess(store: Store, s: Session, docId: nat, formUserId: Option<string>, caps: Caps)
    returns (out: Outcome)
    requires store.Valid()
    modifies store
    ensures store.Valid()
    ensures Response(out, store.Snapshot()) == GrantProjectAccessStep(old(store.Snapshot()), s, docId, formUserId, caps)
  {
    ghost var before := store.Snapshot();
    var refused := AdminRequired(s);
    if refused.Some? {
      out := refused.value;
    } else {
      var raw := Strip(Or(formUserId, ""));
      if !IsDigits(raw) {
        out := FlashTo(ProjectsTab, Error, InvalidUser);
      } else {
        var userId := FormUserId(formUserId);
        if DocById(store.documents, docId).None? || UserById(store.users, userId).None? {
          out := Abort(404);
        } else if AccessFor(store.access, docId, userId).Some? {
          out := FlashTo(ProjectsTab, Info, AccessExists);
        } else {
          store.access := store.access + [Access(docId, userId, caps)];
          out := FlashTo(ProjectsTab, Success, AccessGranted);
        }
      }
    }
    assert Response(out, store.Snapshot()) == GrantProjectAccessStep(before, s, docId, formUserId, caps);
    GrantInvariant(before, s, docId, formUserId, caps);
  }

  /** `revoke_project_access`; unlike grant it does not look the document or the user up. */
  function RevokeProjectAccessStep(db: Db, s: Session, docId: nat, formUserId: Option<string>): (r: Response)
    // revoke only ever removes access rows
    ensures r.db == db.(access := r.db.access)
    ensures forall a | a in r.db.access :: a in db.access
    ensures AdminRequired(s).Some? ==> r == Response(AdminRequired(s).value, db)
    ensures AdminRequired(s).None? && !IsDigits(Strip(Or(formUserId, ""))) ==>
              r == Response(FlashTo(ProjectsTab, Error, InvalidUser), db)
    // a pair without a row is reported, and nothing changes
    ensures AdminRequired(s).None? && IsDigits(Strip(Or(formUserId, "")))
            && AccessFor(db.access, docId, FormUserId(formUserId)).None? ==>
              r == Response(FlashTo(ProjectsTab, Error, AccessNotFound), db)
  {
    if AdminRequired(s).Some? then Response(AdminRequired(s).value, db)
    else
      var raw := Strip(Or(formUserId, ""));
      if !IsDigits(raw) then Response(FlashTo(ProjectsTab, Error, InvalidUser), db)
      else
        var userId := FormUserId(formUserId);
        if AccessFor(db.access, docId, userId).None? then
          Response(FlashTo(ProjectsTab, Error, AccessNotFound), db)
        else
          Response(FlashTo(ProjectsTab, Success, AccessRevoked),
                   db.(access := Where(db.access, KeyIsNot(PairOf, (docId, userId)))))
  }

  /**
   * Under the unique pair constraint, a revoke that finds the row removes
   * exactly that row: the pair has no row afterwards, the table lost just that
   * element, and every other pair's row is as before.
   */
  lemma RevokeRemovesRow(db: Db, s: Session, docId: nat, formUserId: Option<string>, d: nat, u: nat)
    requires Invariant(db)
    requires AdminRequired(s).None? && IsDigits(Strip(Or(formUserId, "")))
    requires AccessFor(db.access, docId, FormUserId(formUserId)).Some?
    ensures var userId := FormUserId(formUserId);
            var r := RevokeProjectAccessStep(db, s, docId, formUserId);
            && r.out == FlashTo(ProjectsTab, Success, AccessRevoked)
            && AccessFor(r.db.access, docId, userId).None?
            && multiset(r.db.access) == multiset(db.access) - multiset{AccessFor(db.access, docId, userId).value}
            && ((d, u) != (docId, userId) ==> AccessFor(r.db.access, d, u) == AccessFor(db.access, d, u))
  {
    var userId := FormUserId(formUserId);
    var row := AccessFor(db.access, docId, userId).value;
    assert PairOf(row) == (docId, userId);
    WhereDropsOne(db.access, PairOf, row);
    if (d, u) != (docId, userId) {
      FirstWhere(db.access, KeyIs(PairOf, (d, u)), KeyIsNot(PairOf, (docId, userId)));
    }
  }

  /** A second revoke of the same pair finds nothing and reports it. */
  lemma RevokeTwice(db: Db, s: Session, docId: nat, formUserId: Option<string>)
    requires Invariant(db)
    ensures var once := RevokeProjectAccessStep(db, s, docId, formUserId).db;
            AdminRequired(s).None? && IsDigits(Strip(Or(formUserId, ""))) ==>
              RevokeProjectAccessStep(once, s, docId, formUserId) == Response(FlashTo(ProjectsTab, Error, AccessNotFound), once)
  {
    if AdminRequired(s).None? && IsDigits(Strip(Or(formUserId, "")))
       && AccessFor(db.access, docId, FormUserId(formUserId)).Some? {
      RevokeRemovesRow(db, s, docId, formUserId, docId, FormUserId(formUserId));
    }
  }

  /** Granting and then revoking the same pair leaves no row for it, whatever was there before. */
  lemma GrantThenRevoke(db: Db, s: Session, docId: nat, formUserId: Option<string>, caps: Caps)
    requires Invariant(db)
    requires AdminRequired(s).None? && IsDigits(Strip(Or(formUserId, "")))
    ensures var granted := GrantProjectAccessStep(db, s, docId, formUserId, caps).db;
            AccessFor(RevokeProjectAccessStep(granted, s, docId, formUserId).db.access, docId, FormUserId(formUserId)).None?
  {
    var granted := GrantProjectAccessStep(db, s, docId, formUserId, caps).db;
    GrantInvariant(db, s, docId, formUserId, caps);
    if AccessFor(granted.access, docId, FormUserId(formUserId)).Some? {
      RevokeRemovesRow(granted, s, docId, formUserId, docId, FormUserId(formUserId));
    }
  }

  lemma RevokeInvariant(db: Db, s: Session, docId: nat, formUserId: Option<string>)
    requires Invariant(db)
    ensures Invariant(RevokeProjectAccessStep(db, s, docId, formUserId).db)
  {
    if AdminRequired(s).None? && IsDigits(Strip(Or(formUserId, ""))) {
      AccessOkWhere(db.access, db.documents, db.users, KeyIsNot(PairOf, (docId, FormUserId(formUserId))));
    }
  }

  method RevokeProjectAccess(store: Store, s: Session, docId: nat, formUserId: Option<string>)
    returns (out: Outcome)
    requires store.Valid()
    modifies store
    ensures store.Valid()
    ensures Response(out, store.Snapshot()) == RevokeProjectAccessStep(old(store.Snapshot()), s, docId, formUserId)
  {
    ghost var before := store.Snapshot();
    var refused := AdminRequired(s);
    if refused.Some? {
      out := refused.value;
    } else {
      var raw := Strip(Or(formUserId, ""));
      if !IsDigits(raw) {
        out := FlashTo(ProjectsTab, Error, InvalidUser);
      } else {
        var userId := FormUserId(formUserId);
        var row := AccessFor(store.access, docId, userId);
        if row.None? {
          out := FlashTo(ProjectsTab, Error, AccessNotFound);
        } else {
          store.access := Where(store.access, KeyIsNot(PairOf, (docId, userId)));
          out := FlashTo(ProjectsTab, Success, AccessRevoked);
        }
      }
    }
    assert Response(out, store.Snapshot()) == RevokeProjectAccessStep(before, s, docId, formUserId);
    RevokeInvariant(before, s, docId, formUserId);
  }

  // ---------------------------------------------------------------------------
  // add_user_submit / delete_user

  /** The conditions under which `add_user_submit` creates a user. */
  predicate AddUserAccepted(db: Db, s: Session, formEmail: Option<string>, formPassword: Option<string>, formRole: Option<string>) {
    && AdminRequired(s).None?
    && NormalizeEmail(Or(formEmail, "")) != []
    && Or(formPassword, "") != []
    && UserByEmail(db.users, NormalizeEmail(Or(formEmail, ""))).None?
    && Lower(Strip(Or(formRole, "user"))) != "admin"
  }

  /**
   * `add_user_submit`: the e-mail is normalised; a missing e-mail or password,
   * an address already in use and a requested role of "admin" are refused in
   * that order; otherwise one user is added, always with role "user".
   */
  function AddUserSubmitStep(
    db: Db, s: Session, formEmail: Option<string>, formPassword: Option<string>, formRole: Option<string>,
    salt: string, kdf: Kdf): (r: Response)
    // only `users` and its id sequence can change
    ensures r.db == db.(users := r.db.users, nextUserId := r.db.nextUserId)
    // a user is created exactly when every check passes
    ensures r.db != db <==> AddUserAccepted(db, s, formEmail, formPassword, formRole)
    ensures r.db != db <==> r.out == FlashTo(UsersTab, Success, UserCreated)
    ensures AdminRequired(s).Some? ==> r == Response(AdminRequired(s).value, db)
    // and it is one row at the end: role "user", the normalised address, the password set
    ensures r.db != db ==>
              && |r.db.users| == |db.users| + 1
              && r.db.users[..|db.users|] == db.users
              && var u := r.db.users[|db.users|];
              && u.id == db.nextUserId
              && u.role == "user"
              && u.email == NormalizeEmail(Or(formEmail, ""))
              && CheckPassword(u, Or(formPassword, ""), kdf)
  {
    if AdminRequired(s).Some? then Response(AdminRequired(s).value, db)
    else
      var email := NormalizeEmail(Or(formEmail, ""));
      var password := Or(formPassword, "");
      if email == [] || password == [] then
        Response(FlashTo(UsersTab, Error, CredentialsRequired), db)
      else if UserByEmail(db.users, email).Some? then
        Response(FlashTo(UsersTab, Error, UserExists), db)
      else if Lower(Strip(Or(formRole, "user"))) == "admin" then
        Response(FlashTo(UsersTab, Error, AdminCreationDisabled), db)
      else
        var user := NewUser(db.nextUserId, email, "user", password, salt, kdf);
        Response(FlashTo(UsersTab, Success, UserCreated),
                 db.(users := db.users + [user], nextUserId := db.nextUserId + 1))
  }

  /** No request to `add_user_submit` ever yields an account with any role but "user". */
  lemma AddUserNeverAdmin(
    db: Db, s: Session, formEmail: Option<string>, formPassword: Option<string>, formRole: Option<string>,
    salt: string, kdf: Kdf)
    ensures forall u | u in AddUserSubmitStep(db, s, formEmail, formPassword, formRole, salt, kdf).db.users ::
              u in db.users || u.role == "user"
  {
    var r := AddUserSubmitStep(db, s, formEmail, formPassword, formRole, salt, kdf);
    if r.db != db {
      assert r.db.users == db.users + [r.db.users[|db.users|]];
    }
  }

  lemma AddUserSubmitInvariant(
    db: Db, s: Session, formEmail: Option<string>, formPassword: Option<string>, formRole: Option<string>,
    salt: string, kdf: Kdf)
    requires Invariant(db)
    ensures Invariant(AddUserSubmitStep(db, s, formEmail, formPassword, formRole, salt, kdf).db)
  {
    if AddUserAccepted(db, s, formEmail, formPassword, formRole) {
      var email := NormalizeEmail(Or(formEmail, ""));
      InsertUserInvariant(db, NewUser(db.nextUserId, email, "user", Or(formPassword, ""), salt, kdf));
    }
  }

  method AddUserSubmit(
    store: Store, s: Session, formEmail: Option<string>, formPassword: Option<string>, formRole: Option<string>,
    salt: string, kdf: Kdf)
    returns (out: Outcome)
    requires store.Valid()
    modifies store
    ensures store.Valid()
    ensures Response(out, store.Snapshot())
         == AddUserSubmitStep(old(store.Snapshot()), s, formEmail, formPassword, formRole, salt, kdf)
  {
    ghost var before := store.Snapshot();
    var refused := AdminRequired(s);
    if refused.Some? {
      out := refused.value;
    } else {
      var email := NormalizeEmail(Or(formEmail, ""));
      var password := Or(formPassword, "");
      if email == [] || password == [] {
        out := FlashTo(UsersTab, Error, CredentialsRequired);
      } else if UserByEmail(store.users, email).Some? {
        out := FlashTo(UsersTab, Error, UserExists);
      } else {
        var requestedRole := Lower(Strip(Or(formRole, "user")));
        if requestedRole == "admin" {
          out := FlashTo(UsersTab, Error, AdminCreationDisabled);
        } else {
          var user := NewUser(store.nextUserId, email, "user", password, salt, kdf);
          store.users := store.users + [user];
          store.nextUserId := store.nextUserId + 1;
          out := FlashTo(UsersTab, Success, UserCreated);
        }
      }
    }
    assert Response(out, store.Snapshot()) == AddUserSubmitStep(before, s, formEmail, formPassword, formRole, salt, kdf);
    AddUserSubmitInvariant(before, s, formEmail, formPassword, formRole, salt, kdf);
  }

  /** `Document.query.filter_by(uploaded_by=userId).count()` */
  function UploadCount(documents: seq<Document>, userId: nat): (n: nat)
    ensures n == 0 <==> forall d | d in documents :: d.uploadedBy != userId
  {
    var uploaded := Where(documents, (d: Document) => d.uploadedBy == userId);
    assert uploaded != [] ==> uploaded[0] in uploaded;
    |uploaded|
  }

  /**
   * The three refusals of `delete_user`, in the order it checks them: the
   * configured default admin (matched case-insensitively), the caller's own
   * account, and a user who uploaded documents. `defaultAdminEmail` is the
   * environment variable DEFAULT_ADMIN_EMAIL.
   */
  predicate DeleteUserAllowed(db: Db, s: Session, user: User, defaultAdminEmail: Option<string>)
    requires s.Verified?
  {
    var fixedAdminEmail := NormalizeEmail(Or(defaultAdminEmail, ""));
    && !(fixedAdminEmail != [] && Lower(user.email) == fixedAdminEmail)
    && CallerId(s.claims) != Some(user.id)
    && UploadCount(db.documents, user.id) == 0
  }

  /** `delete_user`: the user and, by cascade, their grants, unless one of the three refusals applies. */
  function DeleteUserStep(db: Db, s: Session, userId: nat, defaultAdminEmail: Option<string>): (r: Response)
    // the only change it can make is the deletion of that user with their grants
    ensures r.db == db || r.db == DeleteUserRow(db, userId)
    ensures r.db != db <==> r.out == FlashTo(UsersTab, Success, UserDeleted)
    // the guard's 401 or 403, a 500 for an identity that is not an integer, a 404 for a missing user
    ensures AdminRequired(s).Some? ==> r == Response(AdminRequired(s).value, db)
    ensures AdminRequired(s).None? && CallerId(s.claims).None? ==> r == Response(Abort(500), db)
    ensures AdminRequired(s).None? && CallerId(s.claims).Some? && UserById(db.users, userId).None? ==>
              r == Response(Abort(404), db)
    // and it makes it exactly when the caller is an admin, the user exists and no refusal applies
    ensures r.out == FlashTo(UsersTab, Success, UserDeleted) <==>
              && AdminRequired(s).None? && CallerId(s.claims).Some?
              && UserById(db.users, userId).Some?
              && DeleteUserAllowed(db, s, UserById(db.users, userId).value, defaultAdminEmail)
  {
    if AdminRequired(s).Some? then Response(AdminRequired(s).value, db)
    else match CallerId(s.claims)
      case None => Response(Abort(500), db)
      case Some(currentAdminId) =>
        match UserById(db.users, userId)
        case None => Response(Abort(404), db)
        case Some(user) =>
          var fixedAdminEmail := NormalizeEmail(Or(defaultAdminEmail, ""));
          if fixedAdminEmail != [] && Lower(user.email) == fixedAdminEmail then
            Response(FlashTo(UsersTab, Error, DefaultAdminProtected), db)
          else if user.id == currentAdminId then
            Response(FlashTo(UsersTab, Error, SelfDeletion), db)
          else if UploadCount(db.documents, user.id) > 0 then
            Response(FlashTo(UsersTab, Error, UserHasDocuments), db)
          else
            var r := DeleteUserRow(db, user.id);
            assert user in db.users && user !in r.users;
            Response(FlashTo(UsersTab, Success, UserDeleted), r)
  }

  /** The configured default admin and the caller's own account survive every delete request. */
  lemma DeleteUserKeeps(db: Db, s: Session, userId: nat, defaultAdminEmail: Option<string>, kept: User)
    requires UniqueKeys(db.users, UserIdOf) && kept in db.users
    requires || (NormalizeEmail(Or(defaultAdminEmail, "")) != [] && Lower(kept.email) == NormalizeEmail(Or(defaultAdminEmail, "")))
             || (s.Verified? && CallerId(s.claims) == Some(kept.id))
    ensures kept in DeleteUserStep(db, s, userId, defaultAdminEmail).db.users
  {
    var r := DeleteUserStep(db, s, userId, defaultAdminEmail);
    if r.db != db && kept.id == userId {
      FirstOfKey(db.users, UserIdOf, kept);
    }
  }

  lemma DeleteUserInvariant(db: Db, s: Session, userId: nat, defaultAdminEmail: Option<string>)
    requires Invariant(db)
    ensures Invariant(DeleteUserStep(db, s, userId, defaultAdminEmail).db)
  {
    var r := DeleteUserStep(db, s, userId, defaultAdminEmail);
    if r.db != db {
      var user := UserById(db.users, userId).value;
      assert UserIdOf(user) == userId;
      DeleteUserRowInvariant(db, userId);
    }
  }

  method DeleteUser(store: Store, s: Session, userId: nat, defaultAdminEmail: Option<string>)
    returns (out: Outcome)
    requires store.Valid()
    modifies store
    ensures store.Valid()
    ensures Response(out, store.Snapshot()) == DeleteUserStep(old(store.Snapshot()), s, userId, defaultAdminEmail)
  {
    ghost var before := store.Snapshot();
    var refused := AdminRequired(s);
    if refused.Some? {
      out := refused.value;
    } else {
      var currentAdminId := CallerId(s.claims);
      var found := UserById(store.users, userId);
      if currentAdminId.None? {
        out := Abort(500);
      } else if found.None? {
        out := Abort(404);
      } else {
        var user := found.value;
        var fixedAdminEmail := NormalizeEmail(Or(defaultAdminEmail, ""));
        if fixedAdminEmail != [] && Lower(user.email) == fixedAdminEmail {
          out := FlashTo(UsersTab, Error, DefaultAdminProtected);
        } else if user.id == currentAdminId.value {
          out := FlashTo(UsersTab, Error, SelfDeletion);
        } else {
          var docsCount := UploadCount(store.documents, user.id);
          if docsCount > 0 {
            out := FlashTo(UsersTab, Error, UserHasDocuments);
          } else {
            var after := DeleteUserRow(store.Snapshot(), user.id);
            store.users := after.users;
            store.access := after.access;
            out := FlashTo(UsersTab, Success, UserDeleted);
          }
        }
      }
    }
    assert Response(out, store.Snapshot()) == DeleteUserStep(before, s, userId, defaultAdminEmail);
    DeleteUserInvariant(before, s, userId, defaultAdminEmail);
  }
}
