/** What a successful put leaves behind, told row by row and object by object
    (server/internal/handler/s3gateway.go, server/internal/store/file_records.go). */
module Landing {
  import opened Tables
  import opened Replication
  import opened Records

  /** The put's file f is ready in its folder under its name, its blob b is ready
      at its key and available on store s, and the object there is its bytes. */
  ghost predicate Landed(w: World, put: Put, b: Id, f: Id, s: StoreId) {
    && b in w.db.blobs && w.db.blobs[b] == Blob(put.key, put.user, true)
    && f in w.db.files && w.db.files[f] == File(put.folder, b, put.name, put.key, true)
    && (b, s) in w.db.locs && w.db.locs[(b, s)] == Location(put.key, Available)
    && (s, put.key) in w.disk && w.disk[(s, put.key)] == put.data
  }

  /** Nothing of the key is left but blob b and file f, and everything of every
      other key is as it was. */
  ghost predicate OthersKept(w0: World, w: World, key: string, b: Id, f: Id) {
    && (forall c: Id :: c != b ==>
          && (c in w.db.blobs <==> c in w0.db.blobs && w0.db.blobs[c].objectKey != key)
          && (c in w.db.blobs ==> w.db.blobs[c] == w0.db.blobs[c]))
    && (forall g: Id :: g != f ==>
          && (g in w.db.files <==> g in w0.db.files && w0.db.files[g].storagePath != key)
          && (g in w.db.files ==> w.db.files[g] == w0.db.files[g]))
    && (forall l: (Id, StoreId) :: l.0 != b ==>
          && (l in w.db.locs <==> l in w0.db.locs && !(l.0 in w0.db.blobs && w0.db.blobs[l.0].objectKey == key))
          && (l in w.db.locs ==> w.db.locs[l] == w0.db.locs[l]))
    && (forall t: StoreId, path :: path != key ==> Lookup(w.disk, t, path) == Lookup(w0.disk, t, path))
  }

  /** No location of another blob holds the key's path on store t. */
  ghost predicate PathFree(db: DB, t: StoreId, key: string) {
    forall l :: l in db.locs && l.1 == t && db.locs[l].path == key ==> l.0 in db.blobs && db.blobs[l.0].objectKey == key
  }

  /** In replicate mode every other active write store that works and whose path
      is free has an available copy; in cumulative mode b has no other. */
  ghost predicate FannedOut(cfg: Config, w0: World, w: World, put: Put, b: Id, s: StoreId, faults: Faults) {
    if cfg.replicate then
      forall t: StoreId :: WantsCopy(cfg, s, t) && t !in faults && PathFree(w0.db, t, put.key) ==>
        && (b, t) in w.db.locs && w.db.locs[(b, t)] == Location(put.key, Available)
        && (t, put.key) in w.disk && w.disk[(t, put.key)] == put.data
    else forall t: StoreId :: (b, t) in w.db.locs ==> t == s
  }

  /** All a successful put does: its key is there with its bytes and nothing
      else has changed. */
  ghost predicate PutDone(cfg: Config, w0: World, w: World, put: Put, s: StoreId, faults: Faults) {
    && Landed(w, put, w0.db.next, w0.db.next + 1, s)
    && OthersKept(w0, w, put.key, w0.db.next, w0.db.next + 1)
    && FannedOut(cfg, w0, w, put, w0.db.next, s, faults)
  }

  /** Ids not handed out yet are in no row: a fresh uuid is fresh. */
  ghost predicate IdsFresh(db: DB) { RowIdsBelowNext(db) && LocIdsBelowNext(db) }

  /** The put's flight once phase 2 has stored its bytes. */
  function Stored(db: DB, put: Put, s: StoreId): Flight { Flight(put.key, db.next + 1, db.next, s, put.data, true) }

  function Reserved(db: DB, put: Put): DB { CreatePending(db, put.user, put.folder, put.name, put.key) }

  /** Dropping the ready file first changes nothing about what a put reserves. */
  lemma DropBeforeReserve(db: DB, put: Put)
    requires FilesMatchBlobs(db)
    ensures Reserved(Drop(db, ReadyBlobsAt(db, put.key)), put) == Reserved(db, put)
  {
    DropKeyAfter(db, put.key, ReadyBlobsAt(db, put.key));
  }

  lemma DropKeyAfter(db: DB, key: string, gone: set<Id>)
    requires FilesMatchBlobs(db) && gone == ReadyBlobsAt(db, key)
    ensures DropKey(Drop(db, gone), key) == DropKey(db, key)
  {
    assert gone <= BlobsAt(db, key);
    DropTwice(db, gone, BlobsAt(db, key));
    assert BlobsAt(Drop(db, gone), key) == BlobsAt(db, key) - gone;
    DropTwice(db, gone, BlobsAt(db, key) - gone);
    assert gone + BlobsAt(db, key) == BlobsAt(db, key) && gone + (BlobsAt(db, key) - gone) == BlobsAt(db, key);
  }

  /** The rows once phase 3 has marked them ready. */
  function Marked(db: DB, put: Put, s: StoreId): DB {
    var d := DropKey(db, put.key);
    DB(d.blobs[db.next := Blob(put.key, put.user, true)],
       d.files[db.next + 1 := File(put.folder, db.next, put.name, put.key, true)],
       d.locs[(db.next, s) := Location(put.key, Available)], db.next + 2)
  }

  lemma MarkIs(db: DB, put: Put, s: StoreId)
    requires LocIdsBelowNext(db)
    ensures var r := MarkReady(Reserved(db, put), db.next + 1, db.next, s, put.key);
            r.Some? ==> r.value == Marked(db, put, s)
  {
    MarkFresh(DropKey(db, put.key), put.user, put.folder, put.name, put.key, s, put.key);
  }

  lemma MarkedLands(w: World, disk: Disk, put: Put, s: StoreId)
    requires FilesMatchBlobs(w.db) && IdsFresh(w.db)
    requires forall t: StoreId, path :: path != put.key ==> Lookup(disk, t, path) == Lookup(w.disk, t, path)
    requires (s, put.key) in disk && disk[(s, put.key)] == put.data
    ensures var w1 := World(Marked(w.db, put, s), disk);
            Landed(w1, put, w.db.next, w.db.next + 1, s) && OthersKept(w, w1, put.key, w.db.next, w.db.next + 1)
  {
  }

  /** The fan-out of phase 3 from the store the put went to. */
  lemma FanOutLands(cfg: Config, w0: World, w1: World, put: Put, b: Id, f: Id, s: StoreId, faults: Faults)
    requires ValidConfig(cfg) && PutsGoTo(cfg, s) && w1.db == Marked(w0.db, put, s) && b == w0.db.next && f == b + 1
             && LocIdsBelowNext(w0.db)
    requires Landed(w1, put, b, f, s) && OthersKept(w0, w1, put.key, b, f)
    ensures var w2 := SyncFile(cfg, w1, f, None, faults).0;
            Landed(w2, put, b, f, s) && OthersKept(w0, w2, put.key, b, f)
    ensures cfg.replicate ==> FannedOut(cfg, w0, SyncFile(cfg, w1, f, None, faults).0, put, b, s, faults)
  {
    SyncFileServes(cfg, w1, f, None, faults, s, put.key);
    var w2 := SyncFile(cfg, w1, f, None, faults).0;
    CopiesKeepLanded(cfg, w0, w1, w2, put, b, f, s);
    OnlyOneCopy(w0.db, put, s);
    CopiesArrive(cfg, w0, w1, w2, put, b, s, faults);
  }

  lemma CopiesArrive(cfg: Config, w0: World, w1: World, w2: World, put: Put, b: Id, s: StoreId, faults: Faults)
    requires w1.db == Marked(w0.db, put, s) && b == w0.db.next && forall t: StoreId :: (b, t) in w1.db.locs ==> t == s
    requires WantedAreServed(cfg, w1, w2, b, put.key, s, put.key, faults)
    requires OnlyWantedCopies(cfg, w1, w2, b, put.key, s)
    requires (s, put.key) in w1.disk && w1.disk[(s, put.key)] == put.data
    ensures cfg.replicate ==> FannedOut(cfg, w0, w2, put, b, s, faults)
  {
    forall t: StoreId | WantsCopy(cfg, s, t) && t !in faults && PathFree(w0.db, t, put.key)
      ensures (b, t) in w2.db.locs && w2.db.locs[(b, t)] == Location(put.key, Available)
      ensures (t, put.key) in w2.disk && w2.disk[(t, put.key)] == put.data
    {
      FreePathIsServed(w0.db, w1.db, put, b, s, t);
      CopyArrives(cfg, w1, w2, put, b, s, t, faults);
    }
  }

  lemma FreePathIsServed(db: DB, d: DB, put: Put, b: Id, s: StoreId, t: StoreId)
    requires d == Marked(db, put, s) && b == db.next && PathFree(db, t, put.key)
    ensures !PathTaken(d, b, t, put.key)
  {
    forall l | l in d.locs && l.0 != b && l.1 == t ensures d.locs[l].path != put.key {
      assert l in db.locs && l.0 !in BlobsAt(db, put.key);
    }
  }

  lemma CopyArrives(cfg: Config, w1: World, w2: World, put: Put, b: Id, s: StoreId, t: StoreId, faults: Faults)
    requires WantedAreServed(cfg, w1, w2, b, put.key, s, put.key, faults)
    requires OnlyWantedCopies(cfg, w1, w2, b, put.key, s)
    requires WantsCopy(cfg, s, t) && t !in faults && CanServe(w1, b, put.key, s, put.key, t, faults)
    requires (b, t) !in w1.db.locs && (s, put.key) in w1.disk && w1.disk[(s, put.key)] == put.data
    ensures (b, t) in w2.db.locs && w2.db.locs[(b, t)] == Location(put.key, Available)
    ensures (t, put.key) in w2.disk && w2.disk[(t, put.key)] == put.data
  {
    assert Lookup(w2.disk, t, put.key) == LeftAt(w1, put.key, s, put.key, t, faults);
  }

  lemma CopiesKeepLanded(cfg: Config, w0: World, w1: World, w2: World, put: Put, b: Id, f: Id, s: StoreId)
    requires OnlyWantedCopies(cfg, w1, w2, b, put.key, s)
    requires Landed(w1, put, b, f, s) && OthersKept(w0, w1, put.key, b, f)
    ensures Landed(w2, put, b, f, s) && OthersKept(w0, w2, put.key, b, f)
  {
    assert Lookup(w2.disk, s, put.key) == Lookup(w1.disk, s, put.key);
  }

  /** Phases 2 and 3 of a put that goes through, from the rows phase 1 reserved. */
  lemma FinishLands(cfg: Config, w: World, disk: Disk, put: Put, s: StoreId, faults: Faults)
    requires ValidConfig(cfg) && (cfg.replicate ==> PutsGoTo(cfg, s))
    requires FilesMatchBlobs(w.db) && IdsFresh(w.db)
    requires forall t: StoreId, path :: path != put.key ==> Lookup(disk, t, path) == Lookup(w.disk, t, path)
    ensures var stored := World(Reserved(w.db, put), Write(disk, s, put.key, Some(put.data)));
            var r := FinishRows(cfg, stored, Stored(w.db, put, s), faults);
            r.Some? ==> PutDone(cfg, w, r.value, put, s, faults)
  {
    var w1 := World(Marked(w.db, put, s), Write(disk, s, put.key, Some(put.data)));
    MarkIs(w.db, put, s);
    MarkedLands(w, w1.disk, put, s);
    MarkedFansOut(cfg, w, w1, put, s, faults);
  }

  lemma MarkedFansOut(cfg: Config, w: World, w1: World, put: Put, s: StoreId, faults: Faults)
    requires ValidConfig(cfg) && (cfg.replicate ==> PutsGoTo(cfg, s)) && LocIdsBelowNext(w.db)
    requires w1.db == Marked(w.db, put, s)
    requires Landed(w1, put, w.db.next, w.db.next + 1, s) && OthersKept(w, w1, put.key, w.db.next, w.db.next + 1)
    ensures var w2 := if cfg.replicate then SyncFile(cfg, w1, w.db.next + 1, None, faults).0 else w1;
            PutDone(cfg, w, w2, put, s, faults)
  {
    OnlyOneCopy(w.db, put, s);
    if cfg.replicate { FanOutLands(cfg, w, w1, put, w.db.next, w.db.next + 1, s, faults); }
  }

  lemma OnlyOneCopy(db: DB, put: Put, s: StoreId)
    requires LocIdsBelowNext(db)
    ensures forall t: StoreId :: (db.next, t) in Marked(db, put, s).locs ==> t == s
  {
    assert forall l :: l in DropKey(db, put.key).locs ==> l.0 != db.next;
  }
}
