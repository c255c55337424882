/**
 * The user blueprint (app/user/routes.py): the home listing, download, and
 * the metadata edit and delete a per-document grant allows. Every handler
 * runs behind `login_required`, then demands the role claim "user", then looks
 * up the caller's access row for the document.
 */
module UserRoutes {
  import opened Text
  import opened Models
  import opened Web
  import opened Guards

  /**
   * `login_required` followed by `_require_user_role`: the handler body runs
   * exactly when the token verifies and its role claim is the literal "user".
   */
  function UserGuard(s: Session): (r: Option<Outcome>)
    ensures r.None? <==> s.Verified? && s.claims.role == Some("user")
    ensures r.Some? ==> r.value == (if s.Verified? then Abort(403) else Unauthorized)
  {
    match LoginRequired(s)
    case Some(refused) => Some(refused)
    case None => if s.claims.role != Some("user") then Some(Abort(403)) else None
  }

  /** No session gets through both the admin guard and the user guard. */
  lemma GuardsExclusive(s: Session)
    ensures UserGuard(s).None? ==> AdminRequired(s).Some?
    ensures AdminRequired(s).None? ==> UserGuard(s).Some?
  {
  }

  /** What `_get_perm_or_403` gives: the caller's access row, or the response it aborts with. */
  datatype Gate = Pass(perm: Access) | Refuse(out: Outcome)

  /**
   * `_get_perm_or_403`: the identity must parse as an integer (otherwise the
   * unhandled `ValueError` is a 500), and the caller must hold a row for the
   * document whose read flag is set (otherwise 403). A missing document and a
   * document the caller may not read are refused alike.
   */
  function GetPermOr403(access: seq<Access>, claims: Claims, docId: nat): (r: Gate)
    ensures CallerId(claims).None? ==> r == Refuse(Abort(500))
    ensures r.Pass? <==> CallerId(claims).Some? && Readable(access, CallerId(claims).value, docId)
    ensures r.Pass? ==> && r.perm in access && r.perm.projectId == docId
                        && CallerId(claims) == Some(r.perm.userId) && r.perm.caps.canRead
    ensures r.Refuse? && CallerId(claims).Some? ==> r.out == Abort(403)
  {
    match CallerId(claims)
    case None => Refuse(Abort(500))
    case Some(userId) =>
      match AccessFor(access, docId, userId)
      case None => Refuse(Abort(403))
      case Some(perm) => if !perm.caps.canRead then Refuse(Abort(403)) else Pass(perm)
  }

  /** The caller's row for the document, as the lookup finds it, grants read. */
  predicate Readable(access: seq<Access>, userId: nat, docId: nat) {
    AccessFor(access, docId, userId).Some? && AccessFor(access, docId, userId).value.caps.canRead
  }

  /**
   * The home query joins documents to the caller's access rows that have the
   * read flag: a document is listed when some row for it grants read. Under
   * the unique (document, user) constraint that is the row the permission
   * check looks up, so the listing and the check agree.
   */
  lemma ReadableIffJoined(access: seq<Access>, userId: nat, docId: nat)
    requires UniqueKeys(access, PairOf)
    ensures Readable(access, userId, docId)
        <==> exists a | a in access :: a.projectId == docId && a.userId == userId && a.caps.canRead
  {
    if a :| a in access && a.projectId == docId && a.userId == userId && a.caps.canRead {
      assert PairOf(a) == (docId, userId);
      FirstOfKey(access, PairOf, a);
      assert forall x :: PairOf(x) == (x.projectId, x.userId);
    }
  }

  /**
   * The access row's foreign key: once the permission check passes, the
   * document exists, so the `get_or_404` that follows it never answers 404
   * on a consistent database.
   */
  lemma PermittedDocumentExists(db: Db, claims: Claims, docId: nat)
    requires Invariant(db) && GetPermOr403(db.access, claims, docId).Pass?
    ensures DocById(db.documents, docId).Some?
  {
    var perm := GetPermOr403(db.access, claims, docId).perm;
    assert perm.projectId in Keys(db.documents, DocIdOf);
  }

  // ---------------------------------------------------------------------------
  // home

  /** Ordered by `updated_at`, newest first. */
  predicate NewestFirst(docs: seq<Document>) {
    forall i, j | 0 <= i < j < |docs| :: docs[i].updatedAt >= docs[j].updatedAt
  }

  /** A row no older than the head of a newest-first listing can go in front of it. */
  lemma ConsNewest(x: Document, docs: seq<Document>)
    requires NewestFirst(docs)
    requires forall y | y in docs :: x.updatedAt >= y.updatedAt
    ensures NewestFirst([x] + docs)
  {
    forall i, j | 0 <= i < j < |[x] + docs|
      ensures ([x] + docs)[i].updatedAt >= ([x] + docs)[j].updatedAt
    {
      if i == 0 {
        assert ([x] + docs)[j] == docs[j - 1];
      } else {
        assert ([x] + docs)[i] == docs[i - 1] && ([x] + docs)[j] == docs[j - 1];
      }
    }
  }

  /** Places `d` before the first row that is not newer than it. */
  function InsertNewest(d: Document, docs: seq<Document>): (r: seq<Document>)
    requires NewestFirst(docs)
    ensures NewestFirst(r)
    ensures multiset(r) == multiset(docs) + multiset{d}
    ensures forall x | x in r :: x == d || x in docs
  {
    if docs == [] || d.updatedAt >= docs[0].updatedAt then
      assert forall y | y in docs :: d.updatedAt >= y.updatedAt by {
        forall y | y in docs ensures d.updatedAt >= y.updatedAt {
          var j :| 0 <= j < |docs| && docs[j] == y;
          assert j == 0 || docs[0].updatedAt >= docs[j].updatedAt;
        }
      }
      ConsNewest(d, docs);
      [d] + docs
    else
      var rest := InsertNewest(d, docs[1..]);
      assert docs == [docs[0]] + docs[1..];
      assert forall y | y in rest :: docs[0].updatedAt >= y.updatedAt by {
        forall y | y in rest ensures docs[0].updatedAt >= y.updatedAt {
          if y != d {
            var j :| 0 <= j < |docs[1..]| && docs[1..][j] == y;
            assert docs[j + 1] == y;
          }
        }
      }
      ConsNewest(docs[0], rest);
      [docs[0]] + rest
  }

  /** `order_by(Document.updated_at.desc())`: the same rows, newest first. */
  function SortNewestFirst(docs: seq<Document>): (r: seq<Document>)
    ensures NewestFirst(r)
    ensures multiset(r) == multiset(docs)
  {
    if docs == [] then []
    else
      assert docs == [docs[0]] + docs[1..];
      InsertNewest(docs[0], SortNewestFirst(docs[1..]))
  }

  /** The documents the caller may read, in table order. */
  function ReadableDocs(db: Db, userId: nat): (r: seq<Document>)
    ensures forall d | d in r :: d in db.documents && Readable(db.access, userId, d.id)
    ensures forall d | d in db.documents && Readable(db.access, userId, d.id) :: d in r
  {
    Where(db.documents, (d: Document) => Readable(db.access, userId, d.id))
  }

  /**
   * `home`: the documents the caller holds a read grant for, newest first.
   * The per-document permission map handed to the template only decides
   * which buttons are drawn.
   */
  function HomeStep(db: Db, s: Session): (out: Outcome)
    ensures UserGuard(s).Some? ==> out == UserGuard(s).value
    ensures UserGuard(s).None? && CallerId(s.claims).None? ==> out == Abort(500)
    ensures out.Listing? <==> UserGuard(s).None? && CallerId(s.claims).Some?
  {
    if UserGuard(s).Some? then UserGuard(s).value
    else match CallerId(s.claims)
      case None => Abort(500)
      case Some(userId) => Listing(SortNewestFirst(ReadableDocs(db, userId)))
  }

  /**
   * The listing holds each readable document exactly as often as the table
   * does, nothing else, newest first; and it is exactly the set of documents
   * whose download passes the permission check.
   */
  lemma HomeListsReadable(db: Db, s: Session, d: Document)
    requires UserGuard(s).None? && CallerId(s.claims).Some?
    ensures var out := HomeStep(db, s);
            && NewestFirst(out.documents)
            && multiset(out.documents) == multiset(ReadableDocs(db, CallerId(s.claims).value))
            && (d in out.documents <==> d in db.documents && GetPermOr403(db.access, s.claims, d.id).Pass?)
  {
    var docs := ReadableDocs(db, CallerId(s.claims).value);
    var out := HomeStep(db, s);
    assert d in out.documents <==> d in multiset(docs);
  }

  // ---------------------------------------------------------------------------
  // download

  /**
   * `download`: the permission check comes first, then the document lookup
   * (404), then the stored file must exist in the upload folder (404); the
   * file is sent as an attachment under its original name.
   */
  function DownloadStep(db: Db, s: Session, docId: nat): (out: Outcome)
    ensures UserGuard(s).Some? ==> out == UserGuard(s).value
    ensures out.SendFile? <==>
              && UserGuard(s).None? && GetPermOr403(db.access, s.claims, docId).Pass?
              && DocById(db.documents, docId).Some?
              && DocById(db.documents, docId).value.storedFilename in db.uploads
    ensures out.SendFile? ==>
              var doc := DocById(db.documents, docId).value;
              out == SendFile(doc.storedFilename, doc.originalFilename)
    // a failed permission check answers its own 500 or 403
    ensures UserGuard(s).None? && GetPermOr403(db.access, s.claims, docId).Refuse? ==>
              out == GetPermOr403(db.access, s.claims, docId).out
    // a permitted caller gets 404 for a missing row or a missing stored file
    ensures UserGuard(s).None? && GetPermOr403(db.access, s.claims, docId).Pass?
            && (DocById(db.documents, docId).None? || DocById(db.documents, docId).value.storedFilename !in db.uploads) ==>
              out == Abort(404)
  {
    if UserGuard(s).Some? then UserGuard(s).value
    else match GetPermOr403(db.access, s.claims, docId)
      case Refuse(refused) => refused
      case Pass(_) =>
        match DocById(db.documents, docId)
        case None => Abort(404)
        case Some(doc) =>
          if doc.storedFilename !in db.uploads then Abort(404)
          else SendFile(doc.storedFilename, doc.originalFilename)
  }

  /**
   * Without a read grant the answer does not depend on the documents or the
   * upload folder at all: a caller cannot tell a document it may not read
   * from one that does not exist.
   */
  lemma DownloadHidesUngranted(db: Db, s: Session, docId: nat, documents: seq<Document>, uploads: set<string>)
    requires UserGuard(s).None? && GetPermOr403(db.access, s.claims, docId).Refuse?
    ensures DownloadStep(db, s, docId) == DownloadStep(db.(documents := documents, uploads := uploads), s, docId)
    ensures DownloadStep(db, s, docId) == Abort(403) || DownloadStep(db, s, docId) == Abort(500)
  {
  }

  /** A listed document whose file is in the upload folder downloads under its original name. */
  lemma ListedDocumentDownloads(db: Db, s: Session, d: Document)
    requires Invariant(db)
    requires UserGuard(s).None? && CallerId(s.claims).Some?
    requires d in HomeStep(db, s).documents && d.storedFilename in db.uploads
    ensures DownloadStep(db, s, d.id) == SendFile(d.storedFilename, d.originalFilename)
  {
    HomeListsReadable(db, s, d);
    assert DocIdOf(d) == d.id;
    FirstOfKey(db.documents, DocIdOf, d);
  }

  // ---------------------------------------------------------------------------
  // edit_doc_submit

  /**
   * The row the user edit writes: a non-blank title replaces the old one and a
   * blank or missing one keeps it; the description always becomes the
   * stripped form text, or None when that is empty.
   */
  function UserEdited(doc: Document, formTitle: Option<string>, formDescription: Option<string>, now: int)
    : (d: Document)
    ensures d.id == doc.id && d.uploadedBy == doc.uploadedBy && d.storedFilename == doc.storedFilename
    ensures Strip(Or(formTitle, "")) != [] ==> d.title == Strip(Or(formTitle, ""))
    ensures d.originalFilename == doc.originalFilename && d.mimeType == doc.mimeType
    ensures Strip(Or(formTitle, "")) == [] ==> d.title == doc.title
    ensures d.description == OrNone(Strip(Or(formDescription, "")))
    // `updated_at` moves to the request time exactly when a column value changes
    ensures d.updatedAt == doc.updatedAt || d.updatedAt == now
    ensures d.title != doc.title || d.description != doc.description ==> d.updatedAt == now
  {
    var title := Strip(Or(formTitle, ""));
    Edited(doc, if title != [] then title else doc.title, OrNone(Strip(Or(formDescription, ""))), now)
  }

  /** The user edit never leaves a blank title where there was none. */
  lemma UserEditedKeepsTitle(doc: Document, formTitle: Option<string>, formDescription: Option<string>, now: int)
    requires doc.title != []
    ensures UserEdited(doc, formTitle, formDescription, now).title != []
  {
  }

  /**
   * `edit_doc_submit` of the user blueprint: it needs the read grant (through
   * the permission check) and the edit flag, then the document.
   */
  function EditDocSubmitStep(
    db: Db, s: Session, docId: nat, formTitle: Option<string>, formDescription: Option<string>, now: int)
    : (r: Response)
    // only `documents` can change, and it keeps its length
    ensures r.db == db.(documents := r.db.documents) && |r.db.documents| == |db.documents|
    ensures UserGuard(s).Some? ==> r == Response(UserGuard(s).value, db)
    // a failed permission check answers its own 500 or 403, with nothing changed
    ensures UserGuard(s).None? && GetPermOr403(db.access, s.claims, docId).Refuse? ==>
              r == Response(GetPermOr403(db.access, s.claims, docId).out, db)
    // a change needs a row granting both read and edit
    ensures r.db != db ==>
              && UserGuard(s).None?
              && GetPermOr403(db.access, s.claims, docId).Pass?
              && GetPermOr403(db.access, s.claims, docId).perm.caps.canEdit
              && r.out == FlashTo(UserHome, Success, ProjectUpdated)
    ensures UserGuard(s).None? && GetPermOr403(db.access, s.claims, docId).Pass?
            && !GetPermOr403(db.access, s.claims, docId).perm.caps.canEdit
            ==> r == Response(Abort(403), db)
  {
    if UserGuard(s).Some? then Response(UserGuard(s).value, db)
    else match GetPermOr403(db.access, s.claims, docId)
      case Refuse(refused) => Response(refused, db)
      case Pass(perm) =>
        if !perm.caps.canEdit then Response(Abort(403), db)
        else match DocById(db.documents, docId)
          case None => Response(Abort(404), db)
          case Some(doc) =>
            var d := UserEdited(doc, formTitle, formDescription, now);
            Response(FlashTo(UserHome, Success, ProjectUpdated),
                     db.(documents := ReplaceDocument(db.documents, d)))
  }

  /**
   * A permitted user edit: the document is found edited afterwards, with its
   * title never blanked, and every other document is found as it was.
   */
  lemma EditDocSubmitEffect(
    db: Db, s: Session, docId: nat, formTitle: Option<string>, formDescription: Option<string>, now: int, k: nat)
    requires UserGuard(s).None? && GetPermOr403(db.access, s.claims, docId).Pass?
    requires GetPermOr403(db.access, s.claims, docId).perm.caps.canEdit && DocById(db.documents, docId).Some?
    ensures var r := EditDocSubmitStep(db, s, docId, formTitle, formDescription, now);
            var doc := DocById(db.documents, docId).value;
            && r.out == FlashTo(UserHome, Success, ProjectUpdated)
            && DocById(r.db.documents, docId) == Some(UserEdited(doc, formTitle, formDescription, now))
            && (doc.title != [] ==> DocById(r.db.documents, docId).value.title != [])
            && (k != docId ==> DocById(r.db.documents, k) == DocById(db.documents, k))
  {
    var doc := DocById(db.documents, docId).value;
    var d := UserEdited(doc, formTitle, formDescription, now);
    DocByIdReplace(db.documents, d, docId);
    DocByIdReplace(db.documents, d, k);
  }

  lemma EditDocSubmitInvariant(
    db: Db, s: Session, docId: nat, formTitle: Option<string>, formDescription: Option<string>, now: int)
    requires Invariant(db)
    ensures Invariant(EditDocSubmitStep(db, s, docId, formTitle, formDescription, now).db)
  {
    var r := EditDocSubmitStep(db, s, docId, formTitle, formDescription, now);
    if r.db != db {
      var doc := DocById(db.documents, docId).value;
      var d := UserEdited(doc, formTitle, formDescription, now);
      ReplaceDocumentInvariant(db, d);
    }
  }

  method EditDocSubmit(
    store: Store, s: Session, docId: nat, formTitle: Option<string>, formDescription: Option<string>, now: int)
    returns (out: Outcome)
    requires store.Valid()
    modifies store
    ensures store.Valid()
    ensures Response(out, store.Snapshot())
         == EditDocSubmitStep(old(store.Snapshot()), s, docId, formTitle, formDescription, now)
  {
    ghost var before := store.Snapshot();
    var refused := UserGuard(s);
    if refused.Some? {
      out := refused.value;
    } else {
      var gate := GetPermOr403(store.access, s.claims, docId);
      if gate.Refuse? {
        out := gate.out;
      } else if !gate.perm.caps.canEdit {
        out := Abort(403);
      } else {
        // `get_or_404` finds the row: the grant's foreign key guarantees it
        PermittedDocumentExists(before, s.claims, docId);
        var doc := DocById(store.documents, docId).value;
        var title := Strip(Or(formTitle, ""));
        var description := Strip(Or(formDescription, ""));
        var newTitle := doc.title;
        if title != [] {
          newTitle := title;
        }
        var edited := Edited(doc, newTitle, OrNone(description), now);
        assert edited == UserEdited(doc, formTitle, formDescription, now);
        store.documents := ReplaceDocument(store.documents, edited);
        out := FlashTo(UserHome, Success, ProjectUpdated);
      }
    }
    assert Response(out, store.Snapshot()) == EditDocSubmitStep(before, s, docId, formTitle, formDescription, now);
    EditDocSubmitInvariant(before, s, docId, formTitle, formDescription, now);
  }

  // ---------------------------------------------------------------------------
  // delete_doc

  /**
   * `delete_doc` of the user blueprint: it needs the read grant and the
   * delete flag, then the document; the stored file goes if it is there, then
   * the row and, by cascade, every grant on the document.
   */
  function DeleteDocStep(db: Db, s: Session, docId: nat): (r: Response)
    ensures r.db.users == db.users && r.db.nextUserId == db.nextUserId && r.db.nextDocId == db.nextDocId
    ensures UserGuard(s).Some? ==> r == Response(UserGuard(s).value, db)
    // a failed permission check answers its own 500 or 403, with nothing changed
    ensures UserGuard(s).None? && GetPermOr403(db.access, s.claims, docId).Refuse? ==>
              r == Response(GetPermOr403(db.access, s.claims, docId).out, db)
    ensures UserGuard(s).None? && GetPermOr403(db.access, s.claims, docId).Pass?
            && !GetPermOr403(db.access, s.claims, docId).perm.caps.canDelete
            ==> r == Response(Abort(403), db)
    // a change needs a row granting both read and delete, and removes the document with its grants
    ensures r.db != db ==>
              && UserGuard(s).None?
              && GetPermOr403(db.access, s.claims, docId).Pass?
              && GetPermOr403(db.access, s.claims, docId).perm.caps.canDelete
              && DocById(db.documents, docId).Some?
              && r.out == FlashTo(UserHome, Success, ProjectDeleted)
              && (forall d | d in r.db.documents :: d in db.documents && d.id != docId)
              && (forall d | d in db.documents && d.id != docId :: d in r.db.documents)
              && (forall a | a in r.db.access :: a in db.access && a.projectId != docId)
              && (forall a | a in db.access && a.projectId != docId :: a in r.db.access)
              && r.db.uploads == db.uploads - {DocById(db.documents, docId).value.storedFilename}
  {
    if UserGuard(s).Some? then Response(UserGuard(s).value, db)
    else match GetPermOr403(db.access, s.claims, docId)
      case Refuse(refused) => Response(refused, db)
      case Pass(perm) =>
        if !perm.caps.canDelete then Response(Abort(403), db)
        else match DocById(db.documents, docId)
          case None => Response(Abort(404), db)
          case Some(doc) =>
            Response(FlashTo(UserHome, Success, ProjectDeleted),
                     DeleteDocumentRow(db, docId).(uploads := db.uploads - {doc.storedFilename}))
  }

  /** A permitted delete always takes the document away: it is no longer found, and no grant on it remains. */
  lemma DeleteDocRemoves(db: Db, s: Session, docId: nat)
    requires UserGuard(s).None? && GetPermOr403(db.access, s.claims, docId).Pass?
    requires GetPermOr403(db.access, s.claims, docId).perm.caps.canDelete && DocById(db.documents, docId).Some?
    ensures var r := DeleteDocStep(db, s, docId);
            && r.out == FlashTo(UserHome, Success, ProjectDeleted)
            && DocById(r.db.documents, docId).None?
            && (forall userId :: AccessFor(r.db.access, docId, userId).None?)
  {
  }

  lemma DeleteDocInvariant(db: Db, s: Session, docId: nat)
    requires Invariant(db)
    ensures Invariant(DeleteDocStep(db, s, docId).db)
  {
    var r := DeleteDocStep(db, s, docId);
    if r.db != db {
      DeleteDocumentRowInvariant(db, docId);
    }
  }

  method DeleteDoc(store: Store, s: Session, docId: nat) returns (out: Outcome)
    requires store.Valid()
    modifies store
    ensures store.Valid()
    ensures Response(out, store.Snapshot()) == DeleteDocStep(old(store.Snapshot()), s, docId)
  {
    ghost var before := store.Snapshot();
    var refused := UserGuard(s);
    if refused.Some? {
      out := refused.value;
    } else {
      var gate := GetPermOr403(store.access, s.claims, docId);
      if gate.Refuse? {
        out := gate.out;
      } else if !gate.perm.caps.canDelete {
        out := Abort(403);
      } else {
        // `get_or_404` finds the row: the grant's foreign key guarantees it
        PermittedDocumentExists(before, s.claims, docId);
        var doc := DocById(store.documents, docId).value;
        var deleted := DeleteDocumentRow(store.Snapshot(), docId);
        if doc.storedFilename in store.uploads {
          store.uploads := store.uploads - {doc.storedFilename};
        }
        assert store.uploads == before.uploads - {doc.storedFilename};
        store.documents := deleted.documents;
        store.access := deleted.access;
        out := FlashTo(UserHome, Success, ProjectDeleted);
      }
    }
    assert Response(out, store.Snapshot()) == DeleteDocStep(before, s, docId);
    DeleteDocInvariant(before, s, docId);
  }
}
