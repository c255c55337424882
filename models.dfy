/**
 * The three tables of the portal (`users`, `documents`, `project_access`),
 * their rows, the constraints the schema declares on them, the cascades that
 * go with a row deletion, and the password helpers of the `User` model.
 *
 * A table is a sequence of rows in insertion order; a query such as
 * `X.query.filter_by(...).first()` is `First` over it, and a `DELETE` is
 * `Where` keeping the rows that survive.
 */
module Models {
  import opened Text

  // ---------------------------------------------------------------------------
  // Rows

  /** What `generate_password_hash` stores: a random salt and a digest. */
  datatype PasswordHash = PasswordHash(salt: string, digest: string)

  /**
   * The one-way function behind werkzeug's password hashing, from a salt and a
   * password to a digest. It is foreign code, so every operation that hashes or
   * verifies a password receives it as a parameter.
   */
  type Kdf = (string, string) -> string

  /** A row of `users`; `role` is free text, "admin" or "user" in practice. */
  datatype User = User(id: nat, email: string, passwordHash: PasswordHash, role: string)

  /** A row of `documents`; `updatedAt` is an abstract ordering key for the timestamp. */
  datatype Document = Document(
    id: nat,
    title: string,
    description: Option<string>,
    storedFilename: string,
    originalFilename: string,
    mimeType: Option<string>,
    uploadedBy: nat,
    updatedAt: int)

  /** The three capability flags the handlers read from an access row. */
  datatype Caps = Caps(canRead: bool, canEdit: bool, canDelete: bool)

  /** A row of `project_access`: one user's capabilities on one document. */
  datatype Access = Access(projectId: nat, userId: nat, caps: Caps)

  function UserIdOf(u: User): nat { u.id }
  function EmailOf(u: User): string { u.email }
  function DocIdOf(d: Document): nat { d.id }
  function PairOf(a: Access): (nat, nat) { (a.projectId, a.userId) }

  // ---------------------------------------------------------------------------
  // Password helpers of the User model

  function HashPassword(password: string, salt: string, kdf: Kdf): PasswordHash {
    PasswordHash(salt, kdf(salt, password))
  }

  /** `User.check_password`: the stored digest matches the digest of `password`. */
  predicate CheckPassword(u: User, password: string, kdf: Kdf) {
    kdf(u.passwordHash.salt, password) == u.passwordHash.digest
  }

  /** `User.set_password`: the row with a freshly salted hash of `password` and nothing else changed. */
  function SetPassword(u: User, password: string, salt: string, kdf: Kdf): (u': User)
    ensures CheckPassword(u', password, kdf)
    ensures u'.id == u.id && u'.email == u.email && u'.role == u.role
    ensures u'.passwordHash.salt == salt
  {
    u.(passwordHash := HashPassword(password, salt, kdf))
  }

  /**
   * A row as `User(email=..., role=...)` followed by `set_password(password)`
   * builds it before it is added to the session.
   */
  function NewUser(id: nat, email: string, role: string, password: string, salt: string, kdf: Kdf): (u: User)
    ensures u.id == id && u.email == email && u.role == role
    ensures CheckPassword(u, password, kdf)
  {
    SetPassword(User(id, email, PasswordHash([], []), role), password, salt, kdf)
  }

  // ---------------------------------------------------------------------------
  // Queries over a table

  /** The predicate `key(row) == k`, as `filter_by(column=k)` applies it. */
  function KeyIs<T, K(==)>(key: T -> K, k: K): T -> bool {
    x => key(x) == k
  }

  /** The predicate `key(row) != k`: the rows a `DELETE ... WHERE column = k` keeps. */
  function KeyIsNot<T, K(==)>(key: T -> K, k: K): T -> bool {
    x => key(x) != k
  }

  /** The update that writes the row `v` over the matched row. */
  function Const<T>(v: T): T -> T {
    _ => v
  }

  /** `query.filter(p).first()`: the first row satisfying `p`, in table order. */
  function First<T>(rows: seq<T>, p: T -> bool): (r: Option<T>)
    ensures r.Some? ==> r.value in rows && p(r.value)
    ensures r.None? <==> forall x | x in rows :: !p(x)
  {
    if rows == [] then None
    else if p(rows[0]) then Some(rows[0])
    else First(rows[1..], p)
  }

  /** The rows satisfying `p`, in table order: a filtered query, or what a `DELETE` of the others leaves. */
  function Where<T>(rows: seq<T>, p: T -> bool): (r: seq<T>)
    ensures forall x | x in r :: x in rows && p(x)
    ensures forall x | x in rows && p(x) :: x in r
    ensures |r| <= |rows|
  {
    if rows == [] then []
    else (if p(rows[0]) then [rows[0]] else []) + Where(rows[1..], p)
  }

  /** `UPDATE ... SET ... WHERE p`: every row satisfying `p` replaced by `f` of it. */
  function Update<T>(rows: seq<T>, p: T -> bool, f: T -> T): (r: seq<T>)
    ensures |r| == |rows|
    ensures forall i | 0 <= i < |rows| :: r[i] == (if p(rows[i]) then f(rows[i]) else rows[i])
  {
    seq(|rows|, i requires 0 <= i < |rows| => if p(rows[i]) then f(rows[i]) else rows[i])
  }

  /** The values of column `key` in the table. */
  function Keys<T(==), K>(rows: seq<T>, key: T -> K): set<K> {
    set x | x in rows :: key(x)
  }

  /** A unique constraint: no two rows share a value of `key`. */
  ghost predicate UniqueKeys<T, K>(rows: seq<T>, key: T -> K) {
    forall i, j | 0 <= i < j < |rows| :: key(rows[i]) != key(rows[j])
  }

  /** `User.query.get(id)`: the user row with that primary key, if any. */
  function UserById(users: seq<User>, id: nat): (r: Option<User>)
    ensures r.Some? ==> r.value in users && r.value.id == id
    ensures r.None? <==> forall u | u in users :: u.id != id
  {
    assert forall u :: UserIdOf(u) == u.id;
    First(users, KeyIs(UserIdOf, id))
  }

  /** `User.query.filter_by(email=email).first()` */
  function UserByEmail(users: seq<User>, email: string): (r: Option<User>)
    ensures r.Some? ==> r.value in users && r.value.email == email
    ensures r.None? <==> forall u | u in users :: u.email != email
  {
    assert forall u :: EmailOf(u) == u.email;
    First(users, KeyIs(EmailOf, email))
  }

  /** `Document.query.get(id)`: the document row with that primary key, if any. */
  function DocById(documents: seq<Document>, id: nat): (r: Option<Document>)
    ensures r.Some? ==> r.value in documents && r.value.id == id
    ensures r.None? <==> forall d | d in documents :: d.id != id
  {
    assert forall d :: DocIdOf(d) == d.id;
    First(documents, KeyIs(DocIdOf, id))
  }

  /** `ProjectAccess.query.filter_by(project_id=docId, user_id=userId).first()` */
  function AccessFor(access: seq<Access>, docId: nat, userId: nat): (r: Option<Access>)
    ensures r.Some? ==> r.value in access && r.value.projectId == docId && r.value.userId == userId
    ensures r.None? <==> forall a | a in access :: a.projectId != docId || a.userId != userId
  {
    assert forall a :: PairOf(a) == (a.projectId, a.userId);
    First(access, KeyIs(PairOf, (docId, userId)))
  }

  // ---------------------------------------------------------------------------
  // Facts about the queries

  /** Under a unique constraint, looking a row up by its key finds that row. */
  lemma {:induction false} FirstOfKey<T, K>(rows: seq<T>, key: T -> K, x: T)
    requires UniqueKeys(rows, key) && x in rows
    ensures First(rows, KeyIs(key, key(x))) == Some(x)
  {
    if rows[0] != x {
      var j :| 0 <= j < |rows| && rows[j] == x;
      assert key(rows[0]) != key(rows[j]);
      assert rows[1..][j - 1] == x;
      FirstOfKey(rows[1..], key, x);
    }
  }

  /** Appending a row changes a lookup only when nothing earlier matched. */
  lemma {:induction false} FirstAppend<T>(rows: seq<T>, x: T, p: T -> bool)
    ensures First(rows + [x], p) == (if First(rows, p).Some? then First(rows, p) else if p(x) then Some(x) else None)
  {
    if rows == [] {
      assert [x][1..] == [];
    } else {
      assert (rows + [x])[1..] == rows[1..] + [x];
      FirstAppend(rows[1..], x, p);
    }
  }

  /** Removing only rows that `p` rejects leaves the first row satisfying `p` in place. */
  lemma {:induction false} FirstWhere<T>(rows: seq<T>, p: T -> bool, keep: T -> bool)
    requires forall x | x in rows && p(x) :: keep(x)
    ensures First(Where(rows, keep), p) == First(rows, p)
  {
    if rows != [] {
      var rest := Where(rows[1..], keep);
      FirstWhere(rows[1..], p, keep);
      if keep(rows[0]) {
        var w := [rows[0]] + rest;
        assert Where(rows, keep) == w;
        assert w[0] == rows[0] && w[1..] == rest;
      } else {
        assert Where(rows, keep) == rest;
      }
    }
  }

  /** Removing rows keeps a unique constraint. */
  lemma {:induction false} WhereUnique<T, K>(rows: seq<T>, p: T -> bool, key: T -> K)
    requires UniqueKeys(rows, key)
    ensures UniqueKeys(Where(rows, p), key)
  {
    if rows != [] {
      WhereUnique(rows[1..], p, key);
      var rest := Where(rows[1..], p);
      if p(rows[0]) {
        forall y | y in rest ensures key(y) != key(rows[0]) {
          var j :| 0 <= j < |rows[1..]| && rows[1..][j] == y;
          assert rows[j + 1] == y;
        }
        assert Where(rows, p) == [rows[0]] + rest;
      }
    }
  }

  /** Appending a row whose key is new keeps a unique constraint. */
  lemma AppendUnique<T, K>(rows: seq<T>, x: T, key: T -> K)
    requires UniqueKeys(rows, key) && key(x) !in Keys(rows, key)
    ensures UniqueKeys(rows + [x], key)
    ensures Keys(rows + [x], key) == Keys(rows, key) + {key(x)}
  {
    var r := rows + [x];
    forall i, j | 0 <= i < j < |r| ensures key(r[i]) != key(r[j]) {
      if j == |rows| {
        assert r[i] in rows;
      }
    }
  }

  /** An update that keeps each row's key keeps the column's values and its unique constraint. */
  lemma UpdateKeys<T, K>(rows: seq<T>, p: T -> bool, f: T -> T, key: T -> K)
    requires forall x | p(x) :: key(f(x)) == key(x)
    ensures Keys(Update(rows, p, f), key) == Keys(rows, key)
    ensures UniqueKeys(rows, key) ==> UniqueKeys(Update(rows, p, f), key)
  {
    var r := Update(rows, p, f);
    forall k | k in Keys(rows, key) ensures k in Keys(r, key) {
      var x :| x in rows && key(x) == k;
      var i :| 0 <= i < |rows| && rows[i] == x;
      assert key(r[i]) == k;
    }
    forall k | k in Keys(r, key) ensures k in Keys(rows, key) {
      var y :| y in r && key(y) == k;
      var i :| 0 <= i < |r| && r[i] == y;
      assert key(rows[i]) == k;
    }
  }

  /** A table in which every row satisfies `p` is left whole by `Where(_, p)`. */
  lemma {:induction false} WhereAll<T>(rows: seq<T>, p: T -> bool)
    requires forall x | x in rows :: p(x)
    ensures Where(rows, p) == rows
  {
    if rows != [] {
      WhereAll(rows[1..], p);
      assert [rows[0]] + rows[1..] == rows;
    }
  }

  /** Under a unique constraint, deleting by the key of a row deletes that row and no other. */
  lemma {:induction false} WhereDropsOne<T, K>(rows: seq<T>, key: T -> K, x: T)
    requires UniqueKeys(rows, key) && x in rows
    ensures multiset(Where(rows, KeyIsNot(key, key(x)))) == multiset(rows) - multiset{x}
  {
    var p := KeyIsNot(key, key(x));
    var tail := rows[1..];
    var rest := Where(tail, p);
    assert rows == [rows[0]] + tail;
    UniqueTail(rows, key);
    if rows[0] == x {
      forall y | y in tail ensures p(y) {
        var j :| 0 <= j < |tail| && tail[j] == y;
        assert key(rows[0]) != key(rows[j + 1]);
      }
      WhereAll(tail, p);
      assert Where(rows, p) == rest;
    } else {
      assert x in tail;
      WhereDropsOne(tail, key, x);
      var j :| 0 <= j < |rows| && rows[j] == x;
      assert key(rows[0]) != key(rows[j]);
      assert Where(rows, p) == [rows[0]] + rest;
    }
  }

  /** A unique constraint holds of every suffix of the table. */
  lemma UniqueTail<T, K>(rows: seq<T>, key: T -> K)
    requires UniqueKeys(rows, key) && rows != []
    ensures UniqueKeys(rows[1..], key)
  {
    var tail := rows[1..];
    forall i, j | 0 <= i < j < |tail| ensures key(tail[i]) != key(tail[j]) {
      assert tail[i] == rows[i + 1] && tail[j] == rows[j + 1];
    }
  }

  /** Writing `v` over the rows with key `k` makes a lookup of `k` find `v`, and leaves other lookups alone. */
  lemma {:induction false} FirstUpdate<T, K>(rows: seq<T>, key: T -> K, k: K, v: T, k': K)
    requires key(v) == k
    ensures First(Update(rows, KeyIs(key, k), Const(v)), KeyIs(key, k'))
         == if k' != k then First(rows, KeyIs(key, k'))
            else if First(rows, KeyIs(key, k)).Some? then Some(v) else None
  {
    if rows != [] {
      var r := Update(rows, KeyIs(key, k), Const(v));
      assert r[1..] == Update(rows[1..], KeyIs(key, k), Const(v));
      FirstUpdate(rows[1..], key, k, v, k');
    }
  }

  // ---------------------------------------------------------------------------
  // The database

  /**
   * The three tables, the next values of the two id sequences, and the names
   * of the files in the upload folder.
   */
  datatype Db = Db(
    users: seq<User>,
    documents: seq<Document>,
    access: seq<Access>,
    nextUserId: nat,
    nextDocId: nat,
    uploads: set<string>)

  /** The database before any request: empty tables, sequences at 1, no uploads. */
  const EmptyDb := Db([], [], [], 1, 1, {})

  /** A user row as every insert path builds it: a positive id below the sequence, a non-empty normalised e-mail. */
  predicate WellFormedUser(u: User, nextUserId: nat) {
    1 <= u.id < nextUserId && u.email != [] && IsStripped(u.email) && IsLower(u.email)
  }

  /**
   * A document row as the upload and both edit handlers leave it: the title is
   * stripped, and a description is either absent or a non-empty stripped text.
   */
  predicate WellFormedDoc(d: Document, nextDocId: nat) {
    && 1 <= d.id < nextDocId
    && IsStripped(d.title)
    && (d.description.Some? ==> d.description.value != [] && IsStripped(d.description.value))
  }

  /** Primary key, unique e-mail and well-formed rows of `users`. */
  ghost predicate UsersOk(users: seq<User>, nextUserId: nat) {
    && nextUserId >= 1
    && UniqueKeys(users, UserIdOf)
    && UniqueKeys(users, EmailOf)
    && (forall u | u in users :: WellFormedUser(u, nextUserId))
  }

  /** Primary key of `documents`, and `uploaded_by` references an existing user. */
  ghost predicate DocumentsOk(documents: seq<Document>, nextDocId: nat, users: seq<User>) {
    && nextDocId >= 1
    && UniqueKeys(documents, DocIdOf)
    && (forall d | d in documents :: WellFormedDoc(d, nextDocId) && d.uploadedBy in Keys(users, UserIdOf))
  }

  /** The `uq_project_user_access` constraint and both foreign keys of `project_access`. */
  ghost predicate AccessOk(access: seq<Access>, documents: seq<Document>, users: seq<User>) {
    && UniqueKeys(access, PairOf)
    && (forall a | a in access :: a.projectId in Keys(documents, DocIdOf) && a.userId in Keys(users, UserIdOf))
  }

  /** What the schema declares and every handler preserves. */
  ghost predicate Invariant(db: Db) {
    && UsersOk(db.users, db.nextUserId)
    && DocumentsOk(db.documents, db.nextDocId, db.users)
    && AccessOk(db.access, db.documents, db.users)
  }

  lemma EmptyDbInvariant()
    ensures Invariant(EmptyDb)
  {
  }

  // ---------------------------------------------------------------------------
  // Foreign keys under a change of the referenced table

  /** `uploaded_by` stays valid when `users` keeps every id it had. */
  lemma DocumentsOkUsers(documents: seq<Document>, nextDocId: nat, users: seq<User>, users': seq<User>)
    requires DocumentsOk(documents, nextDocId, users)
    requires Keys(users, UserIdOf) <= Keys(users', UserIdOf)
    ensures DocumentsOk(documents, nextDocId, users')
  {
  }

  /** Both keys of `project_access` stay valid when `documents` and `users` keep every id they had. */
  lemma AccessOkReferenced(
    access: seq<Access>, documents: seq<Document>, users: seq<User>, documents': seq<Document>, users': seq<User>)
    requires AccessOk(access, documents, users)
    requires Keys(documents, DocIdOf) <= Keys(documents', DocIdOf)
    requires Keys(users, UserIdOf) <= Keys(users', UserIdOf)
    ensures AccessOk(access, documents', users')
  {
  }

  // ---------------------------------------------------------------------------
  // Row insertions

  /** A failed insert still consumes a value of the `documents` id sequence, and that keeps every constraint. */
  lemma SkipDocIdInvariant(db: Db)
    requires Invariant(db)
    ensures Invariant(db.(nextDocId := db.nextDocId + 1))
  {
    assert forall d | d in db.documents :: WellFormedDoc(d, db.nextDocId + 1);
  }

  /** `INSERT INTO users`: a row with the next id and an e-mail not yet taken keeps every constraint. */
  lemma InsertUserInvariant(db: Db, user: User)
    requires Invariant(db)
    requires user.id == db.nextUserId && WellFormedUser(user, db.nextUserId + 1)
    requires UserByEmail(db.users, user.email).None?
    ensures Invariant(db.(users := db.users + [user], nextUserId := db.nextUserId + 1))
  {
    var users := db.users + [user];
    assert user.id !in Keys(db.users, UserIdOf);
    assert user.email !in Keys(db.users, EmailOf);
    AppendUnique(db.users, user, UserIdOf);
    AppendUnique(db.users, user, EmailOf);
    assert UsersOk(users, db.nextUserId + 1);
    DocumentsOkUsers(db.documents, db.nextDocId, db.users, users);
    AccessOkReferenced(db.access, db.documents, db.users, db.documents, users);
  }

  /** `INSERT INTO documents`: a row with the next id whose uploader exists keeps every constraint. */
  lemma InsertDocumentInvariant(db: Db, doc: Document)
    requires Invariant(db)
    requires doc.id == db.nextDocId && WellFormedDoc(doc, db.nextDocId + 1)
    requires UserById(db.users, doc.uploadedBy).Some?
    ensures Invariant(db.(documents := db.documents + [doc], nextDocId := db.nextDocId + 1))
  {
    DocumentsOkInsert(db.documents, db.nextDocId, db.users, doc);
    AccessOkReferenced(db.access, db.documents, db.users, db.documents + [doc], db.users);
  }

  lemma DocumentsOkInsert(documents: seq<Document>, nextDocId: nat, users: seq<User>, doc: Document)
    requires DocumentsOk(documents, nextDocId, users)
    requires doc.id == nextDocId && WellFormedDoc(doc, nextDocId + 1)
    requires UserById(users, doc.uploadedBy).Some?
    ensures DocumentsOk(documents + [doc], nextDocId + 1, users)
    ensures Keys(documents + [doc], DocIdOf) == Keys(documents, DocIdOf) + {doc.id}
  {
    assert doc.id !in Keys(documents, DocIdOf);
    AppendUnique(documents, doc, DocIdOf);
    var u := UserById(users, doc.uploadedBy).value;
    assert u in users && UserIdOf(u) == doc.uploadedBy;
  }

  /** `INSERT INTO project_access`: a new pair naming an existing document and user keeps every constraint. */
  lemma InsertAccessInvariant(db: Db, a: Access)
    requires Invariant(db)
    requires DocById(db.documents, a.projectId).Some? && UserById(db.users, a.userId).Some?
    requires AccessFor(db.access, a.projectId, a.userId).None?
    ensures Invariant(db.(access := db.access + [a]))
  {
    AccessOkInsert(db.access, db.documents, db.users, a);
  }

  lemma AccessOkInsert(access: seq<Access>, documents: seq<Document>, users: seq<User>, a: Access)
    requires AccessOk(access, documents, users)
    requires DocById(documents, a.projectId).Some? && UserById(users, a.userId).Some?
    requires AccessFor(access, a.projectId, a.userId).None?
    ensures AccessOk(access + [a], documents, users)
  {
    assert PairOf(a) !in Keys(access, PairOf);
    AppendUnique(access, a, PairOf);
    var d := DocById(documents, a.projectId).value;
    var u := UserById(users, a.userId).value;
    assert d in documents && u in users;
  }

  // ---------------------------------------------------------------------------
  // Row updates

  /**
   * A document row after its title and description are assigned. The
   * `onupdate` timestamp moves to `now` only when a value actually changed,
   * since only then does the commit flush an UPDATE.
   */
  function Edited(doc: Document, title: string, description: Option<string>, now: int): (d: Document)
    ensures d.title == title && d.description == description
    ensures d.id == doc.id && d.storedFilename == doc.storedFilename && d.originalFilename == doc.originalFilename
    ensures d.mimeType == doc.mimeType && d.uploadedBy == doc.uploadedBy
    ensures d.updatedAt == doc.updatedAt || d.updatedAt == now
    ensures title != doc.title || description != doc.description ==> d.updatedAt == now
    ensures title == doc.title && description == doc.description ==> d == doc
  {
    if title == doc.title && description == doc.description then doc
    else doc.(title := title, description := description, updatedAt := now)
  }

  /** `UPDATE documents SET ... WHERE id = d.id`: the row with that id becomes `d`, every other row stays. */
  function ReplaceDocument(documents: seq<Document>, d: Document): (r: seq<Document>)
    ensures |r| == |documents|
    ensures forall i | 0 <= i < |documents| :: r[i] == (if documents[i].id == d.id then d else documents[i])
  {
    assert forall x :: DocIdOf(x) == x.id;
    Update(documents, KeyIs(DocIdOf, d.id), Const(d))
  }

  /** After the replace, looking up `d`'s id finds `d` (if the row was there), and every other lookup is unchanged. */
  lemma DocByIdReplace(documents: seq<Document>, d: Document, k: nat)
    ensures DocById(ReplaceDocument(documents, d), k)
         == if k != d.id then DocById(documents, k)
            else if DocById(documents, d.id).Some? then Some(d) else None
  {
    assert DocIdOf(d) == d.id;
    FirstUpdate(documents, DocIdOf, d.id, d, k);
  }

  /** Writing over one document row, keeping its id and its uploader, keeps the constraints of `documents`. */
  lemma DocumentsOkReplace(documents: seq<Document>, nextDocId: nat, users: seq<User>, d: Document)
    requires DocumentsOk(documents, nextDocId, users)
    requires DocById(documents, d.id).Some? && WellFormedDoc(d, nextDocId)
    requires d.uploadedBy == DocById(documents, d.id).value.uploadedBy
    ensures DocumentsOk(ReplaceDocument(documents, d), nextDocId, users)
    ensures Keys(ReplaceDocument(documents, d), DocIdOf) == Keys(documents, DocIdOf)
  {
    var r := ReplaceDocument(documents, d);
    UpdateKeys(documents, KeyIs(DocIdOf, d.id), Const(d), DocIdOf);
    var old_ := DocById(documents, d.id).value;
    forall x | x in r ensures WellFormedDoc(x, nextDocId) && x.uploadedBy in Keys(users, UserIdOf) {
      var i :| 0 <= i < |r| && r[i] == x;
      if documents[i].id == d.id {
        assert x == d && old_ in documents;
      } else {
        assert x == documents[i];
      }
    }
  }

  /** `UPDATE documents` of one row as both edit handlers perform it keeps every constraint. */
  lemma ReplaceDocumentInvariant(db: Db, d: Document)
    requires Invariant(db)
    requires DocById(db.documents, d.id).Some? && WellFormedDoc(d, db.nextDocId)
    requires d.uploadedBy == DocById(db.documents, d.id).value.uploadedBy
    ensures Invariant(db.(documents := ReplaceDocument(db.documents, d)))
  {
    var documents := ReplaceDocument(db.documents, d);
    DocumentsOkReplace(db.documents, db.nextDocId, db.users, d);
    AccessOkReferenced(db.access, db.documents, db.users, documents, db.users);
  }

  /** Deleting access rows keeps the constraints of `project_access`. */
  lemma AccessOkWhere(access: seq<Access>, documents: seq<Document>, users: seq<User>, p: Access -> bool)
    requires AccessOk(access, documents, users)
    ensures AccessOk(Where(access, p), documents, users)
  {
    WhereUnique(access, p, PairOf);
  }

  // ---------------------------------------------------------------------------
  // Row deletions and their cascades

  /**
   * `db.session.delete(doc)`: the document row goes, and with it, through the
   * `access_list` relationship's `delete-orphan` cascade and the
   * `ON DELETE CASCADE` foreign key, every access row naming the document.
   */
  function DeleteDocumentRow(db: Db, docId: nat): (r: Db)
    ensures r.users == db.users && r.nextUserId == db.nextUserId && r.nextDocId == db.nextDocId
    ensures r.uploads == db.uploads
    ensures forall d :: d in r.documents <==> d in db.documents && d.id != docId
    ensures forall a :: a in r.access <==> a in db.access && a.projectId != docId
  {
    assert forall d :: DocIdOf(d) == d.id;
    db.(documents := Where(db.documents, KeyIsNot(DocIdOf, docId)),
        access := Where(db.access, (a: Access) => a.projectId != docId))
  }

  lemma DeleteDocumentRowInvariant(db: Db, docId: nat)
    requires Invariant(db)
    ensures Invariant(DeleteDocumentRow(db, docId))
  {
    var r := DeleteDocumentRow(db, docId);
    WhereUnique(db.documents, KeyIsNot(DocIdOf, docId), DocIdOf);
    WhereUnique(db.access, (a: Access) => a.projectId != docId, PairOf);
    assert DocumentsOk(r.documents, r.nextDocId, r.users);
    forall a | a in r.access ensures a.projectId in Keys(r.documents, DocIdOf) {
      var d :| d in db.documents && d.id == a.projectId;
      assert d in r.documents;
    }
    assert AccessOk(r.access, r.documents, r.users);
  }

  /**
   * `db.session.delete(user)`: the user row goes, and with it, through the
   * `project_access` relationship's cascade, every access row naming the user.
   * Documents are untouched: `uploaded_by` has no cascade.
   */
  function DeleteUserRow(db: Db, userId: nat): (r: Db)
    ensures r.documents == db.documents && r.nextUserId == db.nextUserId && r.nextDocId == db.nextDocId
    ensures r.uploads == db.uploads
    ensures forall u :: u in r.users <==> u in db.users && u.id != userId
    ensures forall a :: a in r.access <==> a in db.access && a.userId != userId
  {
    assert forall u :: UserIdOf(u) == u.id;
    db.(users := Where(db.users, KeyIsNot(UserIdOf, userId)),
        access := Where(db.access, (a: Access) => a.userId != userId))
  }

  /** Deleting a user who uploaded nothing keeps every constraint, the `uploaded_by` key included. */
  lemma DeleteUserRowInvariant(db: Db, userId: nat)
    requires Invariant(db)
    requires forall d | d in db.documents :: d.uploadedBy != userId
    ensures Invariant(DeleteUserRow(db, userId))
  {
    var r := DeleteUserRow(db, userId);
    WhereUnique(db.users, KeyIsNot(UserIdOf, userId), UserIdOf);
    WhereUnique(db.users, KeyIsNot(UserIdOf, userId), EmailOf);
    WhereUnique(db.access, (a: Access) => a.userId != userId, PairOf);
    assert UsersOk(r.users, r.nextUserId);
    forall d | d in r.documents ensures d.uploadedBy in Keys(r.users, UserIdOf) {
      var u :| u in db.users && u.id == d.uploadedBy;
      assert u in r.users;
    }
    assert DocumentsOk(r.documents, r.nextDocId, r.users);
    forall a | a in r.access ensures a.userId in Keys(r.users, UserIdOf) {
      var u :| u in db.users && u.id == a.userId;
      assert u in r.users;
    }
    assert AccessOk(r.access, r.documents, r.users);
  }

  // ---------------------------------------------------------------------------
  // The database as the handlers see it: one object whose tables they update in place

  class Store {
    var users: seq<User>
    var documents: seq<Document>
    var access: seq<Access>
    var nextUserId: nat
    var nextDocId: nat
    var uploads: set<string>

    /** The current contents as a value. */
    function Snapshot(): Db
      reads this
    {
      Db(users, documents, access, nextUserId, nextDocId, uploads)
    }

    ghost predicate Valid()
      reads this
    {
      Invariant(Snapshot())
    }

    constructor ()
      ensures Valid() && Snapshot() == EmptyDb
    {
      users, documents, access := [], [], [];
      nextUserId, nextDocId := 1, 1;
      uploads := {};
    }
  }
}
