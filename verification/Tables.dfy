/** The tenant's tables and the stores' objects, as values.

    A table is a map from primary key to row. `locs` is keyed by the pair its
    UNIQUE (blob_id, store_id) constraint makes a key; the other UNIQUE
    constraints are guards of the statements that could break them. Ids come
    from one counter, `next`, which stands for "a fresh uuid". */
module Tables {

  datatype Option<+T> = None | Some(value: T)

  type Byte = b: int | 0 <= b < 256
  type Bytes = seq<Byte>
  type Id = nat
  type StoreId = nat

  /** A file_blobs row; `ready` is state = 'ready' (otherwise 'pending'). */
  datatype Blob = Blob(objectKey: string, createdBy: string, ready: bool)

  /** A files row; `ready` is status = 'ready' (otherwise 'uploading'). */
  datatype File = File(folder: Option<Id>, blobId: Id, name: string, storagePath: string, ready: bool)

  datatype LocState = Available | Pending

  /** A blob_locations row without its key columns. */
  datatype Location = Location(path: string, state: LocState)

  datatype DB = DB(blobs: map<Id, Blob>, files: map<Id, File>, locs: map<(Id, StoreId), Location>, next: Id)

  /** The objects of every store: a provider is a map from path to bytes. */
  type Disk = map<(StoreId, string), Bytes>

  datatype StoreRow = StoreRow(id: StoreId, active: bool, writable: bool)

  /** The fixed part of a workspace: its stores in read_priority order, the
      primary named by workspace_storage_settings (if that row exists), and
      the storage mode. */
  datatype Config = Config(stores: seq<StoreRow>, setting: Option<StoreId>, replicate: bool)

  predicate WriteTarget(s: StoreRow) { s.active && s.writable }

  predicate ValidConfig(cfg: Config) {
    forall i, j :: 0 <= i < j < |cfg.stores| ==> cfg.stores[i].id != cfg.stores[j].id
  }

  /** The rows left when the blobs in `gone` are deleted with their dependents. */
  function Drop(db: DB, gone: set<Id>): DB {
    db.(blobs := map b | b in db.blobs && b !in gone :: db.blobs[b],
        files := map f | f in db.files && db.files[f].blobId !in gone :: db.files[f],
        locs := map l | l in db.locs && l.0 !in gone :: db.locs[l])
  }

  function BlobsAt(db: DB, key: string): set<Id> {
    set b | b in db.blobs && db.blobs[b].objectKey == key
  }

  /** What DeleteBlobEverywhere leaves. */
  function DropKey(db: DB, key: string): DB {
    Drop(db, BlobsAt(db, key))
  }

  /** The ready files findFileByKey can return for a key. */
  function ReadyAt(db: DB, key: string): set<Id> {
    set f | f in db.files && db.files[f].storagePath == key && db.files[f].ready
  }

  /** What CreatePendingFileUpload leaves: blob row db.next and file row db.next + 1. */
  function CreatePending(db: DB, user: string, folder: Option<Id>, name: string, key: string): DB {
    InsertPending(DropKey(db, key), user, folder, name, key)
  }

  function InsertPending(db: DB, user: string, folder: Option<Id>, name: string, key: string): DB {
    db.(blobs := db.blobs[db.next := Blob(key, user, false)],
        files := db.files[db.next + 1 := File(folder, db.next, name, key, false)],
        next := db.next + 2)
  }

  /** The partial UNIQUE index on (folder_id, name) of ready files refuses file f. */
  predicate NameTaken(db: DB, f: Id)
    requires f in db.files
  {
    exists g :: g in db.files && g != f && db.files[g].ready
                && db.files[g].folder == db.files[f].folder && db.files[g].name == db.files[f].name
  }

  /** UNIQUE (store_id, storage_path) refuses a location of blob b at (s, path). */
  predicate PathTaken(db: DB, b: Id, s: StoreId, path: string) {
    exists l :: l in db.locs && l.0 != b && l.1 == s && db.locs[l].path == path
  }

  /** Insert a location, ON CONFLICT (blob_id, store_id) DO NOTHING; None is a
      UNIQUE (store_id, storage_path) violation. */
  function InsertLoc(db: DB, b: Id, s: StoreId, loc: Location): Option<DB> {
    if (b, s) in db.locs then Some(db)
    else if PathTaken(db, b, s, loc.path) then None
    else Some(db.(locs := db.locs[(b, s) := loc]))
  }

  /** The two UPDATEs of MarkFileUploadReady: either may match no row. */
  function FlipReady(db: DB, f: Id, b: Id, path: string): DB {
    db.(files := if f in db.files then db.files[f := db.files[f].(ready := true, storagePath := path)] else db.files,
        blobs := if b in db.blobs then db.blobs[b := db.blobs[b].(ready := true)] else db.blobs)
  }

  /** What MarkFileUploadReady leaves, or None when a constraint fails it. */
  function MarkReady(db: DB, f: Id, b: Id, s: StoreId, path: string): Option<DB> {
    if f in db.files && NameTaken(db, f) then None
    else InsertLoc(FlipReady(db, f, b, path), b, s, Location(path, Available))
  }

  lemma DropTwice(db: DB, a: set<Id>, b: set<Id>)
    ensures Drop(Drop(db, a), b) == Drop(db, a + b)
  {
    var x, y := Drop(Drop(db, a), b), Drop(db, a + b);
    assert x.blobs == y.blobs && x.files == y.files && x.locs == y.locs;
  }

  lemma SubsetSize<T>(a: set<T>, b: set<T>)
    requires a <= b
    ensures |a| <= |b|
  {
    if a != {} {
      var x :| x in a;
      SubsetSize(a - {x}, b - {x});
    }
  }

  // ------------------------------------------------------------ the invariant

  ghost predicate KeysUnique(db: DB) {
    forall a, b :: a in db.blobs && b in db.blobs && db.blobs[a].objectKey == db.blobs[b].objectKey ==> a == b
  }

  /** A blob's only file has the blob's key and state. */
  ghost predicate FilesMatchBlobs(db: DB) {
    && (forall f :: f in db.files ==>
          && db.files[f].blobId in db.blobs
          && db.files[f].storagePath == db.blobs[db.files[f].blobId].objectKey
          && db.files[f].ready == db.blobs[db.files[f].blobId].ready)
    && (forall f, g :: f in db.files && g in db.files && db.files[f].blobId == db.files[g].blobId ==> f == g)
  }

  ghost predicate HasFile(db: DB, b: Id) { exists f :: f in db.files && db.files[f].blobId == b }

  ghost predicate BlobsHaveFiles(db: DB) { forall b :: b in db.blobs ==> HasFile(db, b) }

  ghost predicate HasCopy(db: DB, b: Id) { exists s :: (b, s) in db.locs && db.locs[(b, s)].state == Available }

  ghost predicate ReadyHaveCopies(db: DB) { forall b :: b in db.blobs && db.blobs[b].ready ==> HasCopy(db, b) }

  ghost predicate ReadyNamesUnique(db: DB) {
    forall f, g ::
      (f in db.files && g in db.files && db.files[f].ready && db.files[g].ready
       && db.files[f].folder == db.files[g].folder && db.files[f].name == db.files[g].name) ==> f == g
  }

  ghost predicate PathsUnique(db: DB) {
    forall a, b, s :: (a, s) in db.locs && (b, s) in db.locs && db.locs[(a, s)].path == db.locs[(b, s)].path ==> a == b
  }

  /** A live blob's copies sit at its own key. */
  ghost predicate LocsAtKey(db: DB) {
    forall l :: l in db.locs && l.0 in db.blobs ==> db.locs[l].path == db.blobs[l.0].objectKey
  }

  ghost predicate RowIdsBelowNext(db: DB) {
    (forall b :: b in db.blobs ==> b < db.next) && (forall f :: f in db.files ==> f < db.next)
  }

  ghost predicate LocIdsBelowNext(db: DB) { forall l :: l in db.locs ==> l.0 < db.next }

  ghost predicate RowInv(db: DB) {
    KeysUnique(db) && FilesMatchBlobs(db) && ReadyNamesUnique(db) && RowIdsBelowNext(db)
  }

  ghost predicate LocInv(db: DB) {
    ReadyHaveCopies(db) && PathsUnique(db) && LocsAtKey(db) && LocIdsBelowNext(db)
  }

  /** What every interleaving of the upload and delete steps keeps. */
  ghost predicate Inv(db: DB) { RowInv(db) && BlobsHaveFiles(db) && LocInv(db) }

  const EMPTY_DB := DB(map[], map[], map[], 0)

  // ------------------------------------------------------ the statements keep it

  lemma DropKeepsRows(db: DB, gone: set<Id>)
    requires RowInv(db)
    ensures RowInv(Drop(db, gone))
  {
  }

  lemma DropKeepsFiles(db: DB, gone: set<Id>)
    requires BlobsHaveFiles(db)
    ensures BlobsHaveFiles(Drop(db, gone))
  {
    var d := Drop(db, gone);
    forall b | b in d.blobs ensures HasFile(d, b) {
      assert HasFile(db, b);
      var f :| f in db.files && db.files[f].blobId == b;
      assert f in d.files;
    }
  }

  lemma DropKeepsLocs(db: DB, gone: set<Id>)
    requires LocInv(db)
    ensures LocInv(Drop(db, gone))
  {
    var d := Drop(db, gone);
    forall b | b in d.blobs && d.blobs[b].ready ensures HasCopy(d, b) {
      assert HasCopy(db, b);
      var s :| (b, s) in db.locs && db.locs[(b, s)].state == Available;
      assert (b, s) in d.locs;
    }
  }

  lemma InsertPendingKeepsRows(d: DB, user: string, folder: Option<Id>, name: string, key: string)
    requires RowInv(d) && BlobsAt(d, key) == {}
    ensures RowInv(InsertPending(d, user, folder, name, key))
  {
    forall b | b in d.blobs ensures d.blobs[b].objectKey != key { assert b !in BlobsAt(d, key); }
  }

  lemma InsertPendingKeepsFiles(d: DB, user: string, folder: Option<Id>, name: string, key: string)
    requires BlobsHaveFiles(d) && RowIdsBelowNext(d)
    ensures BlobsHaveFiles(InsertPending(d, user, folder, name, key))
  {
    var e := InsertPending(d, user, folder, name, key);
    forall b | b in e.blobs ensures HasFile(e, b) {
      if b == d.next {
        assert e.files[d.next + 1].blobId == b;
      } else {
        assert HasFile(d, b);
        var f :| f in d.files && d.files[f].blobId == b;
        assert f in e.files && e.files[f] == d.files[f];
      }
    }
  }

  lemma InsertPendingKeepsLocs(d: DB, user: string, folder: Option<Id>, name: string, key: string)
    requires LocInv(d)
    ensures LocInv(InsertPending(d, user, folder, name, key))
  {
    var e := InsertPending(d, user, folder, name, key);
    forall b | b in e.blobs && e.blobs[b].ready ensures HasCopy(e, b) {
      assert HasCopy(d, b);
    }
  }

  lemma CreatePendingKeepsInv(db: DB, user: string, folder: Option<Id>, name: string, key: string)
    requires Inv(db)
    ensures Inv(CreatePending(db, user, folder, name, key))
  {
    var d := DropKey(db, key);
    DropKeepsRows(db, BlobsAt(db, key));
    DropKeepsFiles(db, BlobsAt(db, key));
    DropKeepsLocs(db, BlobsAt(db, key));
    assert BlobsAt(d, key) == {};
    InsertPendingKeepsRows(d, user, folder, name, key);
    InsertPendingKeepsFiles(d, user, folder, name, key);
    InsertPendingKeepsLocs(d, user, folder, name, key);
  }

  lemma InsertLocKeepsInv(db: DB, b: Id, s: StoreId, loc: Location)
    requires Inv(db) && b < db.next
    requires b in db.blobs ==> loc.path == db.blobs[b].objectKey
    ensures InsertLoc(db, b, s, loc).Some? ==> Inv(InsertLoc(db, b, s, loc).value)
  {
    InsertLocKeepsRows(db, b, s, loc);
    InsertLocKeepsLocs(db, b, s, loc);
  }

  lemma InsertLocKeepsLocs(db: DB, b: Id, s: StoreId, loc: Location)
    requires PathsUnique(db) && LocsAtKey(db) && LocIdsBelowNext(db) && b < db.next
    requires b in db.blobs ==> loc.path == db.blobs[b].objectKey
    requires forall c :: c in db.blobs && db.blobs[c].ready ==>
             HasCopy(db, c) || (c == b && loc.state == Available && (b, s) !in db.locs)
    ensures InsertLoc(db, b, s, loc).Some? ==> LocInv(InsertLoc(db, b, s, loc).value)
  {
    var r := InsertLoc(db, b, s, loc);
    if r.Some? {
      var d := r.value;
      forall c | c in d.blobs && d.blobs[c].ready ensures HasCopy(d, c) {
        if HasCopy(db, c) {
          var t :| (c, t) in db.locs && db.locs[(c, t)].state == Available;
          assert (c, t) in d.locs && d.locs[(c, t)] == db.locs[(c, t)];
        } else {
          assert (c, s) in d.locs && d.locs[(c, s)] == loc;
        }
      }
    }
  }

  /** The rows MarkFileUploadReady is called with: either both still exist, as
      one pair at `path`, or an overlapping request has removed both. */
  ghost predicate PairOrGone(db: DB, f: Id, b: Id, path: string) {
    && b < db.next && (f in db.files <==> b in db.blobs)
    && (f in db.files ==> db.files[f].blobId == b && db.blobs[b].objectKey == path)
  }

  lemma FlipReadyKeepsRows(db: DB, f: Id, b: Id, path: string)
    requires RowInv(db) && PairOrGone(db, f, b, path)
    requires f in db.files ==> !NameTaken(db, f)
    ensures RowInv(FlipReady(db, f, b, path))
  {
  }

  lemma FlipReadyKeepsFiles(db: DB, f: Id, b: Id, path: string)
    requires BlobsHaveFiles(db)
    ensures BlobsHaveFiles(FlipReady(db, f, b, path))
  {
    var d := FlipReady(db, f, b, path);
    forall c | c in d.blobs ensures HasFile(d, c) {
      assert HasFile(db, c);
      var g :| g in db.files && db.files[g].blobId == c;
      assert g in d.files && d.files[g].blobId == c;
    }
  }

  lemma MarkReadyKeepsInv(db: DB, f: Id, b: Id, s: StoreId, path: string)
    requires Inv(db) && PairOrGone(db, f, b, path)
    requires (b, s) in db.locs ==> db.locs[(b, s)].state == Available
    ensures MarkReady(db, f, b, s, path).Some? ==> Inv(MarkReady(db, f, b, s, path).value)
  {
    if f in db.files && NameTaken(db, f) { return; }
    var d := FlipReady(db, f, b, path);
    FlipReadyKeepsRows(db, f, b, path);
    FlipReadyKeepsFiles(db, f, b, path);
    forall c | c in d.blobs && d.blobs[c].ready && c != b ensures HasCopy(d, c) { assert HasCopy(db, c); }
    if (b, s) in d.locs {
      assert HasCopy(d, b);
    } else {
      InsertLocKeepsLocs(d, b, s, Location(path, Available));
      InsertLocKeepsRows(d, b, s, Location(path, Available));
    }
  }

  /** Marking a freshly reserved pair ready. */
  lemma MarkFresh(d: DB, user: string, folder: Option<Id>, name: string, key: string, s: StoreId, path: string)
    requires LocIdsBelowNext(d)
    ensures var r := MarkReady(InsertPending(d, user, folder, name, key), d.next + 1, d.next, s, path);
            r.Some? ==> r.value == DB(d.blobs[d.next := Blob(key, user, true)],
                                      d.files[d.next + 1 := File(folder, d.next, name, path, true)],
                                      d.locs[(d.next, s) := Location(path, Available)], d.next + 2)
  {
    var d1 := InsertPending(d, user, folder, name, key);
    assert (d.next, s) !in d.locs;
    assert FlipReady(d1, d.next + 1, d.next, path).files
        == d.files[d.next + 1 := File(folder, d.next, name, path, true)];
    assert FlipReady(d1, d.next + 1, d.next, path).blobs == d.blobs[d.next := Blob(key, user, true)];
  }

  lemma InsertLocKeepsRows(db: DB, b: Id, s: StoreId, loc: Location)
    requires RowInv(db) && BlobsHaveFiles(db)
    ensures InsertLoc(db, b, s, loc).Some? ==> RowInv(InsertLoc(db, b, s, loc).value)
    ensures InsertLoc(db, b, s, loc).Some? ==> BlobsHaveFiles(InsertLoc(db, b, s, loc).value)
  {
    var r := InsertLoc(db, b, s, loc);
    if r.Some? {
      forall c | c in r.value.blobs ensures HasFile(r.value, c) { assert HasFile(db, c); }
    }
  }
}
