/** The gateway's object operations as their handlers run them, each tied to
    the map of Refinement. */
module Gateway {
  import opened Tables
  import opened Replication
  import opened Records
  import opened Refinement
  import opened KeyPlacement
  import opened Loss
  import opened Landing
  import opened UploadKeys
  import F = Folders

  /** How a put's phases go: whether the old object's removal works, whether
      phase 1 commits, whether the upload fails and what it then leaves, which
      replicas fail, whether phase 3 commits. */
  datatype Fate = Fate(deletes: bool, begins: bool, uploadFails: bool, left: Option<Bytes>, faults: Faults,
                       commits: bool)

  /** Phases 2 and 3 of the put holding token 0, if phase 1 reserved it. */
  function Complete(cfg: Config, s1: Sys, fate: Fate): Sys {
    if 0 !in s1.flights then s1
    else if fate.uploadFails then Next(cfg, s1, StoreFails(0, fate.left))
    else Next(cfg, Next(cfg, s1, StoreObject(0)), Finish(0, fate.faults, fate.commits))
  }

  predicate Completes(cfg: Config, s1: Sys, fate: Fate) {
    0 in s1.flights && !fate.uploadFails && Accepts(cfg, s1, StoreObject(0))
    && Succeeds(cfg, Next(cfg, s1, StoreObject(0)), 0, fate.faults, fate.commits)
  }

  /** A whole put that starts with `begin` and nothing else in flight. */
  function Attempt(cfg: Config, w: World, begin: Step, fate: Fate): Sys {
    Complete(cfg, Next(cfg, Sys(w, map[]), begin), fate)
  }

  /** The whole put reports success. */
  predicate AttemptSucceeds(cfg: Config, w: World, begin: Step, fate: Fate) {
    Completes(cfg, Next(cfg, Sys(w, map[]), begin), fate)
  }

  /** Phases 2 and 3, shared by s3PutObject and uploadOneAttempt. */
  method UploadAndFinish(ws: Workspace, fl: Flight, fate: Fate) returns (ok: bool)
    requires !fl.stored
    modifies ws
    ensures var s1 := Sys(old(World(ws.db, ws.disk)), map[0 := fl]);
            World(ws.db, ws.disk) == Complete(ws.cfg, s1, fate).w && (ok <==> Completes(ws.cfg, s1, fate))
    ensures !ok ==> ws.db == old(ws.db)
    ensures fate.uploadFails ==> !ok && ws.disk == Write(old(ws.disk), fl.store, fl.key, fate.left)
    ensures !fate.commits ==> !ok
  {
    if fate.uploadFails {
      ws.disk := Write(ws.disk, fl.store, fl.key, fate.left);
      return false;
    }
    ws.disk := Write(ws.disk, fl.store, fl.key, Some(fl.data));
    var saved := ws.db;
    var marked := MarkFileUploadReady(ws, fl.file, fl.blob, fl.store, fl.key);
    if !marked {
      ws.db := saved;
      return false;
    }
    if ws.cfg.replicate {
      var _ := SyncFileToStores(ws, fl.file, None, fate.faults);
    }
    if !fate.commits { ws.db := saved; }
    ok := fate.commits;
  }

  /** findFileByKey and, if it finds a file, DeleteFileEverywhere. */
  method DropExisting(ws: Workspace, key: string) returns (had: bool)
    requires FilesMatchBlobs(ws.db) && KeysUnique(ws.db)
    modifies ws`db
    ensures had <==> ReadyAt(old(ws.db), key) != {}
    ensures ws.db == Drop(old(ws.db), ReadyBlobsAt(old(ws.db), key)) && KeysUnique(ws.db)
  {
    var existing := FindFileByKey(ws, key);
    ghost var gone := ReadyBlobsAt(ws.db, key);
    if existing.None? {
      assert gone == {} && Drop(ws.db, gone) == ws.db;
      return false;
    }
    assert gone == {ws.db.files[existing.value].blobId};
    had := DeleteFileEverywhere(ws, existing.value);
  }

  /** What a put of the key stores, and where: the folder is the end of the
      key's folder chain. */
  ghost function PutOf(folders: F.State, user: string, key: string, data: Bytes): Put {
    Put(key, user, F.ChainState(folders, F.Directories(key)).1, FileName(key), data)
  }

  /** Phase 1 of s3PutObject; new folders are rolled back with everything else. */
  method S3PutBegin(ws: Workspace, fs: F.FolderStore, user: string, key: string, data: Bytes, deletes: bool,
                    commits: bool)
    returns (r: Option<Flight>)
    requires FilesMatchBlobs(ws.db) && KeysUnique(ws.db) && F.Sound(fs.View())
    modifies ws, fs
    ensures var begin := GatewayBegin(0, PutOf(old(fs.View()), user, key, data), deletes, commits);
            var s1 := Next(ws.cfg, Sys(old(World(ws.db, ws.disk)), map[]), begin);
            && World(ws.db, ws.disk) == s1.w
            && s1.flights == (if r.Some? then map[0 := r.value] else map[])
    ensures fs.View() == if r.Some? then F.ChainState(old(fs.View()), F.Directories(key)).0 else old(fs.View())
    ensures r.Some? ==> !r.value.stored
  {
    if key == "" { return None; }
    var folders, next := fs.folders, fs.next;
    F.ChainEnters(fs.View(), F.Directories(key));
    var folder := F.ResolveOrCreateFolderChain(fs, key);
    r := ReserveUpload(ws, Put(key, user, folder, FileName(key), data), deletes, commits);
    if r.None? { fs.folders, fs.next := folders, next; }
  }

  /** The rest of phase 1, once the folder is known. */
  method ReserveUpload(ws: Workspace, put: Put, deletes: bool, commits: bool) returns (r: Option<Flight>)
    requires FilesMatchBlobs(ws.db) && KeysUnique(ws.db) && put.key != ""
    modifies ws
    ensures var s1 := Next(ws.cfg, Sys(old(World(ws.db, ws.disk)), map[]), GatewayBegin(0, put, deletes, commits));
            && World(ws.db, ws.disk) == s1.w
            && s1.flights == (if r.Some? then map[0 := r.value] else map[])
    ensures r.Some? ==> !r.value.stored
  {
    var saved := ws.db;
    var had := DropExisting(ws, put.key);
    var blob, file := CreatePendingFileUpload(ws, put.user, put.folder, put.name, put.key);
    var primary := Primary(ws.cfg);
    if primary.None? {
      ws.db := saved;
      return None;
    }
    if had && deletes { ws.disk := Write(ws.disk, primary.value, put.key, None); }
    if !commits {
      ws.db := saved;
      return None;
    }
    r := Some(Flight(put.key, file, blob, primary.value, put.data, false));
  }

  /** A put that reports success did what a put does, on the store it was begun for. */
  lemma PutLands(cfg: Config, w: World, begin: Step, put: Put, s: StoreId, fate: Fate)
    requires ValidConfig(cfg) && FilesMatchBlobs(w.db) && IdsFresh(w.db)
    requires begin == UploadBegin(0, put, s)
             || (Primary(cfg) == Some(s) && exists deletes, commits :: begin == GatewayBegin(0, put, deletes, commits))
    requires AttemptSucceeds(cfg, w, begin, fate)
    ensures PutDone(cfg, w, Attempt(cfg, w, begin, fate).w, put, s, fate.faults)
  {
    PrimaryIs(cfg, s);
    var s1 := Next(cfg, Sys(w, map[]), begin);
    var disk := if begin.GatewayBegin? then GatewayDisk(w, put.key, s, begin.deletes) else w.disk;
    BegunIs(cfg, w, begin, put, s, s1, disk);
    CompleteLands(cfg, w, disk, s1, put, s, fate);
  }

  lemma BegunIs(cfg: Config, w: World, begin: Step, put: Put, s: StoreId, s1: Sys, disk: Disk)
    requires FilesMatchBlobs(w.db) && s1 == Next(cfg, Sys(w, map[]), begin) && 0 in s1.flights
    requires if begin.GatewayBegin? then begin.token == 0 && begin.put == put && Primary(cfg) == Some(s)
             else begin == UploadBegin(0, put, s)
    requires disk == if begin.GatewayBegin? then GatewayDisk(w, put.key, s, begin.deletes) else w.disk
    ensures s1 == Sys(World(Reserved(w.db, put), disk), map[0 := Stored(w.db, put, s).(stored := false)])
    ensures begin.UploadBegin? && cfg.replicate ==> Primary(cfg) == Some(s)
  {
    DropBeforeReserve(w.db, put);
  }

  lemma CompleteLands(cfg: Config, w: World, disk: Disk, s1: Sys, put: Put, s: StoreId, fate: Fate)
    requires ValidConfig(cfg) && (cfg.replicate ==> PutsGoTo(cfg, s)) && FilesMatchBlobs(w.db) && IdsFresh(w.db)
    requires forall t: StoreId, path :: path != put.key ==> Lookup(disk, t, path) == Lookup(w.disk, t, path)
    requires s1 == Sys(World(Reserved(w.db, put), disk), map[0 := Stored(w.db, put, s).(stored := false)])
    requires Completes(cfg, s1, fate)
    ensures PutDone(cfg, w, Complete(cfg, s1, fate).w, put, s, fate.faults)
  {
    FinishLands(cfg, w, disk, put, s, fate.faults);
    FlightStores(cfg, s1, Next(cfg, s1, StoreObject(0)), put, s, Stored(w.db, put, s));
  }

  lemma FlightStores(cfg: Config, s1: Sys, s2: Sys, put: Put, s: StoreId, fl: Flight)
    requires s2 == Next(cfg, s1, StoreObject(0)) && s1.flights == map[0 := fl.(stored := false)]
    requires fl.stored && fl.store == s && fl.key == put.key && fl.data == put.data
    ensures s2 == Sys(World(s1.w.db, Write(s1.w.disk, s, put.key, Some(put.data))), map[0 := fl])
  {
  }

  /** What success means outright: the key's folders exist, and the put is done
      under them on the store the configuration sends it to. With no such store
      the put fails and changes nothing. */
  method S3PutObject(ws: Workspace, fs: F.FolderStore, user: string, key: string, data: Bytes, fate: Fate)
    returns (ok: bool)
    requires FilesMatchBlobs(ws.db) && KeysUnique(ws.db) && F.Sound(fs.View())
    requires ValidConfig(ws.cfg) && IdsFresh(ws.db)
    modifies ws, fs
    ensures ok ==> exists s, folder ::
              && PutsGoTo(ws.cfg, s) && F.PathTo(fs.folders, folder, F.Directories(key))
              && PutDone(ws.cfg, old(World(ws.db, ws.disk)), World(ws.db, ws.disk),
                         Put(key, user, folder, FileName(key), data), s, fate.faults)
    ensures (forall s: StoreId :: !PutsGoTo(ws.cfg, s)) ==>
              !ok && ws.db == old(ws.db) && ws.disk == old(ws.disk) && fs.View() == old(fs.View())
    ensures var begin := GatewayBegin(0, PutOf(old(fs.View()), user, key, data), fate.deletes, fate.begins);
            && World(ws.db, ws.disk) == Attempt(ws.cfg, old(World(ws.db, ws.disk)), begin, fate).w
            && (ok <==> AttemptSucceeds(ws.cfg, old(World(ws.db, ws.disk)), begin, fate))
            && fs.View() == if Accepts(ws.cfg, Sys(old(World(ws.db, ws.disk)), map[]), begin) && fate.begins
                            then F.ChainState(old(fs.View()), F.Directories(key)).0 else old(fs.View())
  {
    ghost var w0, put := World(ws.db, ws.disk), PutOf(fs.View(), user, key, data);
    F.ChainEnters(fs.View(), F.Directories(key));
    forall s: StoreId ensures Primary(ws.cfg) == Some(s) <==> PutsGoTo(ws.cfg, s) { PrimaryIs(ws.cfg, s); }
    var begun := S3PutBegin(ws, fs, user, key, data, fate.deletes, fate.begins);
    if begun.None? { return false; }
    ok := UploadAndFinish(ws, begun.value, fate);
    if ok { PutLands(ws.cfg, w0, GatewayBegin(0, put, fate.deletes, fate.begins), put, Primary(ws.cfg).value, fate); }
  }

  /** The store is the one the router chose; the key comes from the folder's path. */
  method UploadOneAttempt(ws: Workspace, t: F.Table, user: string, folder: Option<Id>, name: string, data: Bytes,
                          store: StoreId, fate: Fate) returns (ok: bool)
    requires KeysUnique(ws.db) && store in StoreIds(ws.cfg.stores)
             && (ws.cfg.replicate ==> Primary(ws.cfg) == Some(store))
    requires ValidConfig(ws.cfg) && FilesMatchBlobs(ws.db) && IdsFresh(ws.db)
    modifies ws
    ensures ok ==> PutDone(ws.cfg, old(World(ws.db, ws.disk)), World(ws.db, ws.disk),
                           Put(UploadKey(t, folder, name), user, folder, name, data), store, fate.faults)
    ensures var begin := UploadBegin(0, Put(UploadKey(t, folder, name), user, folder, name, data), store);
            && (!fate.begins ==> !ok && ws.db == old(ws.db) && ws.disk == old(ws.disk))
            && (fate.begins ==> World(ws.db, ws.disk) == Attempt(ws.cfg, old(World(ws.db, ws.disk)), begin, fate).w)
            && (fate.begins ==> (ok <==> AttemptSucceeds(ws.cfg, old(World(ws.db, ws.disk)), begin, fate)))
  {
    var objectKey := ObjectKey(t, folder, name);
    var saved := ws.db;
    var blob, file := CreatePendingFileUpload(ws, user, folder, name, objectKey);
    if !fate.begins {
      ws.db := saved;
      return false;
    }
    ok := FinishUpload(ws, old(World(ws.db, ws.disk)), Put(objectKey, user, folder, name, data), file, blob, store,
                       fate);
  }

  /** Phase 1 of an upload, as UploadAndFinish takes it over. */
  lemma UploadReserves(cfg: Config, w0: World, put: Put, store: StoreId, fl: Flight, fate: Fate)
    requires ValidConfig(cfg) && FilesMatchBlobs(w0.db) && IdsFresh(w0.db)
    requires Accepts(cfg, Sys(w0, map[]), UploadBegin(0, put, store))
    requires fl == Flight(put.key, w0.db.next + 1, w0.db.next, store, put.data, false)
    ensures var s1 := Sys(World(Reserved(w0.db, put), w0.disk), map[0 := fl]);
            && Attempt(cfg, w0, UploadBegin(0, put, store), fate) == Complete(cfg, s1, fate)
            && (AttemptSucceeds(cfg, w0, UploadBegin(0, put, store), fate) <==> Completes(cfg, s1, fate))
            && (Completes(cfg, s1, fate) ==> PutDone(cfg, w0, Complete(cfg, s1, fate).w, put, store, fate.faults))
  {
    var s1 := Sys(World(Reserved(w0.db, put), w0.disk), map[0 := fl]);
    BegunIs(cfg, w0, UploadBegin(0, put, store), put, store, Next(cfg, Sys(w0, map[]), UploadBegin(0, put, store)),
            w0.disk);
    if Completes(cfg, s1, fate) { PutLands(cfg, w0, UploadBegin(0, put, store), put, store, fate); }
  }

  /** The rest of uploadOneAttempt, once phase 1 has committed. */
  method FinishUpload(ws: Workspace, ghost w0: World, put: Put, file: Id, blob: Id, store: StoreId, fate: Fate)
    returns (ok: bool)
    requires ValidConfig(ws.cfg) && FilesMatchBlobs(w0.db) && IdsFresh(w0.db)
    requires Accepts(ws.cfg, Sys(w0, map[]), UploadBegin(0, put, store))
    requires blob == w0.db.next && file == blob + 1 && World(ws.db, ws.disk) == World(Reserved(w0.db, put), w0.disk)
    modifies ws
    ensures World(ws.db, ws.disk) == Attempt(ws.cfg, w0, UploadBegin(0, put, store), fate).w
    ensures ok <==> AttemptSucceeds(ws.cfg, w0, UploadBegin(0, put, store), fate)
    ensures ok ==> PutDone(ws.cfg, w0, World(ws.db, ws.disk), put, store, fate.faults)
  {
    UploadReserves(ws.cfg, w0, put, store, Flight(put.key, file, blob, store, put.data, false), fate);
    ok := UploadAndFinish(ws, Flight(put.key, file, blob, store, put.data, false), fate);
  }

  /** Blob b is that of a ready file at the key. */
  ghost predicate HasReadyAt(db: DB, b: Id, key: string) {
    exists f :: f in db.files && db.files[f].blobId == b && db.files[f].ready && db.files[f].storagePath == key
  }

  /** The ready file at the key goes, with its blob and locations; every other
      row stays, and so does every object, the deleted one's own included. */
  method S3DeleteObject(ws: Workspace, key: string)
    requires FilesMatchBlobs(ws.db) && KeysUnique(ws.db)
    modifies ws
    ensures ws.disk == old(ws.disk)
    ensures forall f :: f in ws.db.files <==>
              f in old(ws.db).files && !(old(ws.db).files[f].ready && old(ws.db).files[f].storagePath == key)
    ensures forall b :: b in ws.db.blobs <==>
              b in old(ws.db).blobs && !HasReadyAt(old(ws.db), b, key)
    ensures forall l :: l in ws.db.locs <==> l in old(ws.db).locs && !HasReadyAt(old(ws.db), l.0, key)
    ensures && (forall f :: f in ws.db.files ==> ws.db.files[f] == old(ws.db).files[f])
            && (forall b :: b in ws.db.blobs ==> ws.db.blobs[b] == old(ws.db).blobs[b])
            && (forall l :: l in ws.db.locs ==> ws.db.locs[l] == old(ws.db).locs[l])
    ensures World(ws.db, ws.disk) == Next(ws.cfg, Sys(old(World(ws.db, ws.disk)), map[]), Delete(key)).w
  {
    forall b ensures b in ReadyBlobsAt(ws.db, key) <==> HasReadyAt(ws.db, b, key) {
      if HasReadyAt(ws.db, b, key) {
        var f :| f in ws.db.files && ws.db.files[f].blobId == b && ws.db.files[f].ready
            && ws.db.files[f].storagePath == key;
        assert f in ReadyAt(ws.db, key);
      }
    }
    var _ := DropExisting(ws, key);
  }

  datatype Answer = Object(data: Bytes) | NoSuchKey | InternalError

  /** f is a ready file at the key, and s a store its blob is read from: one
      where it is available, or, if no existing store has it, where puts go. */
  ghost predicate ServesFrom(cfg: Config, db: DB, key: string, f: Id, s: StoreId) {
    && f in db.files && db.files[f].ready && db.files[f].storagePath == key
    && if exists t: StoreId :: AvailableOn(cfg, db, db.files[f].blobId, t)
       then AvailableOn(cfg, db, db.files[f].blobId, s) else PutsGoTo(cfg, s)
  }

  ghost predicate AvailableOn(cfg: Config, db: DB, b: Id, s: StoreId) {
    (b, s) in db.locs && db.locs[(b, s)].state == Available && IsStore(cfg, s)
  }

  lemma MayReadIs(cfg: Config, db: DB, key: string, f: Id, s: StoreId)
    requires f in ReadyAt(db, key)
    ensures MayRead(cfg, db, db.files[f].blobId, s) <==> ServesFrom(cfg, db, key, f, s)
    ensures Located(cfg, db, db.files[f].blobId) <==> exists t: StoreId :: AvailableOn(cfg, db, db.files[f].blobId, t)
  {
    forall t: StoreId ensures t in StoreIds(cfg.stores) <==> IsStore(cfg, t) { IsStoreIff(cfg, t); }
    PrimaryIs(cfg, s);
    if t :| (db.files[f].blobId, t) in db.locs && db.locs[(db.files[f].blobId, t)].state == Available
            && t in StoreIds(cfg.stores) {
      assert AvailableOn(cfg, db, db.files[f].blobId, t);
    }
  }

  /** The bytes at the file's own key on a store that may be read; an error
      only when its blob is located nowhere and there is no primary. */
  method S3GetObject(ws: Workspace, key: string) returns (r: Answer)
    ensures match r
            case Object(data) =>
              exists f, s :: ServesFrom(ws.cfg, ws.db, key, f, s) && Lookup(ws.disk, s, key) == Some(data)
            case NoSuchKey =>
              || (forall f :: f in ws.db.files && ws.db.files[f].ready ==> ws.db.files[f].storagePath != key)
              || exists f, s :: ServesFrom(ws.cfg, ws.db, key, f, s) && Lookup(ws.disk, s, key) == None
            case InternalError =>
              exists f :: f in ReadyAt(ws.db, key) && forall s: StoreId :: !ServesFrom(ws.cfg, ws.db, key, f, s)
    ensures r != InternalError ==> GetMay(ws.cfg, World(ws.db, ws.disk), key, if r.Object? then Some(r.data) else None)
    ensures r == InternalError ==>
              Primary(ws.cfg).None?
              && exists f :: f in ReadyAt(ws.db, key) && !Located(ws.cfg, ws.db, ws.db.files[f].blobId)
  {
    var f := FindFileByKey(ws, key);
    if f.None? {
      assert forall g :: g in ws.db.files && ws.db.files[g].ready && ws.db.files[g].storagePath == key ==>
          g in ReadyAt(ws.db, key);
      return NoSuchKey;
    }
    forall s: StoreId
      ensures MayRead(ws.cfg, ws.db, ws.db.files[f.value].blobId, s) <==> ServesFrom(ws.cfg, ws.db, key, f.value, s)
    {
      MayReadIs(ws.cfg, ws.db, key, f.value, s);
    }
    var source := ResolveReadStore(ws, ws.db.files[f.value].blobId, ws.db.files[f.value].storagePath);
    if source.None? { return InternalError; }
    var body := Lookup(ws.disk, source.value.0, ws.db.files[f.value].storagePath);
    r := if body.None? then NoSuchKey else Object(body.value);
  }

  // ------------------------------------------------------------- when a put works

  lemma BegunCompletesIff(cfg: Config, w: World, t: F.Table, sp: Spec, put: Put, fate: Fate)
    requires ValidConfig(cfg) && Mirrors(cfg, Sys(w, map[]), sp)
    requires F.SiblingsUnique(t) && FiledByKey(t, w.db) && PutByKey(t, put)
    requires put.key != "" && Primary(cfg).Some? && fate.begins && !fate.uploadFails && fate.commits
    ensures AttemptSucceeds(cfg, w, GatewayBegin(0, put, fate.deletes, true), fate) <==> !AddressHeld(w.db, put.key)
  {
    PutSucceedsIffByKey(cfg, t, Sys(w, map[]), sp, 0, put, fate.deletes, fate.faults);
  }

  /** The handler reports success exactly when there is a key and a primary,
      both transactions commit, the upload works and no other ready key has the
      key's address. */
  lemma S3PutObjectSucceedsIff(cfg: Config, w: World, folders: F.State, sp: Spec, user: string, key: string,
                               data: Bytes, fate: Fate)
    requires ValidConfig(cfg) && Mirrors(cfg, Sys(w, map[]), sp)
    requires F.Sound(folders) && FiledByKey(folders.t, w.db)
    ensures var begin := GatewayBegin(0, PutOf(folders, user, key, data), fate.deletes, fate.begins);
            && (AttemptSucceeds(cfg, w, begin, fate) <==>
                  && key != "" && Primary(cfg).Some? && fate.begins && !fate.uploadFails && fate.commits
                  && !AddressHeld(w.db, key))
  {
    var put := PutOf(folders, user, key, data);
    ChainStaysFiled(folders, w.db, key);
    if key != "" && Primary(cfg).Some? && fate.begins && !fate.uploadFails && fate.commits {
      BegunCompletesIff(cfg, w, F.ChainState(folders, F.Directories(key)).0.t, sp, put, fate);
    }
  }

  /** A whole put leaves files filed by their keys. */
  lemma AttemptStaysFiled(cfg: Config, w: World, t: F.Table, begin: Step, fate: Fate)
    requires SysInv(Sys(w, map[])) && FiledByKey(t, w.db) && StepByKey(t, begin)
    ensures FiledByKey(t, Attempt(cfg, w, begin, fate).w.db)
  {
    var s1 := Next(cfg, Sys(w, map[]), begin);
    StepStaysFiled(cfg, t, Sys(w, map[]), begin);
    StepKeepsInv(cfg, Sys(w, map[]), begin);
    if 0 in s1.flights && fate.uploadFails {
      StepStaysFiled(cfg, t, s1, StoreFails(0, fate.left));
    } else if 0 in s1.flights {
      StepStaysFiled(cfg, t, s1, StoreObject(0));
      StepKeepsInv(cfg, s1, StoreObject(0));
      StepStaysFiled(cfg, t, Next(cfg, s1, StoreObject(0)), Finish(0, fate.faults, fate.commits));
    }
  }

  /** The put's phase 1 removed the old object from the primary, which held it,
      and then did not commit. */
  predicate Loses(cfg: Config, w: World, begin: Step) {
    && begin.GatewayBegin? && Accepts(cfg, Sys(w, map[]), begin) && begin.deletes && !begin.commits
    && PrimaryHolds(cfg, w.db, begin.put.key)
  }

  /** The map after phases 2 and 3, where `lost` says that phase 1 lost the
      old object. */
  function EndSpec(cfg: Config, s1: Sys, sp: Spec, put: Put, lost: bool, fate: Fate): Spec {
    if Completes(cfg, s1, fate) then With(sp, put.key, put.data)
    else if 0 in s1.flights then Without(sp, put.key)
    else if lost then sp.(frail := sp.frail + {put.key})
    else sp
  }

  /** The map after a whole put. */
  function AttemptSpec(cfg: Config, w: World, sp: Spec, begin: Step, put: Put, fate: Fate): Spec {
    EndSpec(cfg, Next(cfg, Sys(w, map[]), begin), sp, put, Loses(cfg, w, begin), fate)
  }

  /** A successful put sets exactly its key. A failed one removes it if phase 1
      committed, and else leaves it, frail exactly if phase 1 lost the old
      object. Every other key is untouched. */
  lemma PutActsOnItsKey(cfg: Config, w: World, sp: Spec, begin: Step, put: Put, fate: Fate)
    requires ValidConfig(cfg) && Exact(cfg, Sys(w, map[]), sp)
    requires (begin.GatewayBegin? || begin.UploadBegin?) && begin.token == 0 && begin.put == put
    ensures Exact(cfg, Attempt(cfg, w, begin, fate), AttemptSpec(cfg, w, sp, begin, put, fate))
    ensures Attempt(cfg, w, begin, fate).flights == map[]
  {
    var sp1 := BeginIsExact(cfg, w, sp, begin, put, Next(cfg, Sys(w, map[]), begin), Loses(cfg, w, begin));
    EndIsExact(cfg, Next(cfg, Sys(w, map[]), begin), sp, sp1, put, Loses(cfg, w, begin), fate);
  }

  /** A failed put leaves its key unchanged or absent exactly when it did not
      lose a copy that was still there. */
  lemma FailedPutKeepsOrRemovesIff(cfg: Config, w: World, sp: Spec, begin: Step, put: Put, fate: Fate)
    requires !AttemptSucceeds(cfg, w, begin, fate) && (begin.GatewayBegin? || begin.UploadBegin?) && begin.put == put
    ensures var sp2 := AttemptSpec(cfg, w, sp, begin, put, fate);
            (sp2 == sp || sp2 == Without(sp, put.key)) <==> !(Loses(cfg, w, begin) && put.key !in sp.frail)
  {
    LosersHoldNothing(cfg, w, begin);
    FailedEnd(cfg, Next(cfg, Sys(w, map[]), begin), sp, put, Loses(cfg, w, begin), fate);
  }

  lemma LosersHoldNothing(cfg: Config, w: World, begin: Step)
    ensures Loses(cfg, w, begin) ==> Next(cfg, Sys(w, map[]), begin).flights == map[]
  {
  }

  lemma FailedEnd(cfg: Config, s1: Sys, sp: Spec, put: Put, lost: bool, fate: Fate)
    requires !Completes(cfg, s1, fate) && (lost ==> s1.flights == map[])
    ensures var sp2 := EndSpec(cfg, s1, sp, put, lost, fate);
            (sp2 == sp || sp2 == Without(sp, put.key)) <==> !(lost && put.key !in sp.frail)
  {
    var sp2 := EndSpec(cfg, s1, sp, put, lost, fate);
    if lost {
      assert put.key in sp2.frail && put.key !in Without(sp, put.key).frail;
      if put.key in sp.frail { assert sp.frail + {put.key} == sp.frail; }
    }
  }

  /** What a put's first phase leaves of the map, and what it holds in flight. */
  ghost predicate Begun(s1: Sys, sp: Spec, sp1: Spec, put: Put, lost: bool) {
    if 0 in s1.flights then
      && s1.flights == map[0 := s1.flights[0]] && !s1.flights[0].stored
      && s1.flights[0].key == put.key && s1.flights[0].data == put.data && sp1 == Without(sp, put.key)
    else s1.flights == map[] && sp1 == if lost then sp.(frail := sp.frail + {put.key}) else sp
  }

  lemma BeginIsExact(cfg: Config, w: World, sp: Spec, begin: Step, put: Put, s1: Sys, lost: bool) returns (sp1: Spec)
    requires ValidConfig(cfg) && Exact(cfg, Sys(w, map[]), sp)
    requires s1 == Next(cfg, Sys(w, map[]), begin) && lost == Loses(cfg, w, begin)
    requires (begin.GatewayBegin? || begin.UploadBegin?) && begin.token == 0 && begin.put == put
    ensures Exact(cfg, s1, sp1) && Begun(s1, sp, sp1, put, lost)
  {
    sp1 := SpecNext(cfg, sp, Sys(w, map[]), begin);
    StepIsExact(cfg, Sys(w, map[]), sp, begin);
    BeginSpec(cfg, w, sp, begin, put);
  }

  lemma BeginSpec(cfg: Config, w: World, sp: Spec, begin: Step, put: Put)
    requires (begin.GatewayBegin? || begin.UploadBegin?) && begin.token == 0 && begin.put == put
    ensures Begun(Next(cfg, Sys(w, map[]), begin), sp, SpecNext(cfg, sp, Sys(w, map[]), begin), put,
                  Loses(cfg, w, begin))
  {
  }

  lemma EndIsExact(cfg: Config, s1: Sys, sp: Spec, sp1: Spec, put: Put, lost: bool, fate: Fate)
    requires ValidConfig(cfg) && Exact(cfg, s1, sp1) && Begun(s1, sp, sp1, put, lost)
    ensures Exact(cfg, Complete(cfg, s1, fate), EndSpec(cfg, s1, sp, put, lost, fate))
    ensures Complete(cfg, s1, fate).flights == map[]
  {
    if 0 in s1.flights {
      var sp2 := CompleteIsExact(cfg, s1, sp1, fate);
      EndIsSpec(cfg, s1, sp, sp1, sp2, put, lost, fate);
    } else {
      NothingEnds(cfg, s1, sp, sp1, put, lost, fate);
    }
  }

  lemma NothingEnds(cfg: Config, s1: Sys, sp: Spec, sp1: Spec, put: Put, lost: bool, fate: Fate)
    requires Begun(s1, sp, sp1, put, lost) && 0 !in s1.flights
    ensures Complete(cfg, s1, fate) == s1 && EndSpec(cfg, s1, sp, put, lost, fate) == sp1 && s1.flights == map[]
  {
  }

  lemma EndIsSpec(cfg: Config, s1: Sys, sp: Spec, sp1: Spec, sp2: Spec, put: Put, lost: bool, fate: Fate)
    requires Begun(s1, sp, sp1, put, lost) && 0 in s1.flights
    requires sp2 == if Completes(cfg, s1, fate) then With(sp1, s1.flights[0].key, s1.flights[0].data) else sp1
    ensures sp2 == EndSpec(cfg, s1, sp, put, lost, fate)
  {
    WithAfterWithout(sp, put.key, put.data);
  }

  lemma WithAfterWithout(sp: Spec, key: string, data: Bytes)
    ensures With(Without(sp, key), key, data) == With(sp, key, data)
  {
  }

  lemma CompleteIsExact(cfg: Config, s1: Sys, sp1: Spec, fate: Fate) returns (sp2: Spec)
    requires ValidConfig(cfg) && Exact(cfg, s1, sp1)
    requires s1.flights.Keys == {0} && !s1.flights[0].stored
    ensures Exact(cfg, Complete(cfg, s1, fate), sp2) && Complete(cfg, s1, fate).flights == map[]
    ensures sp2 == if Completes(cfg, s1, fate) then With(sp1, s1.flights[0].key, s1.flights[0].data) else sp1
  {
    sp2 := sp1;
    if fate.uploadFails {
      StepIsExact(cfg, s1, sp1, StoreFails(0, fate.left));
    } else {
      var s2 := Next(cfg, s1, StoreObject(0));
      StoredSpec(cfg, s1, s2, sp1, fate);
      StepIsExact(cfg, s1, sp1, StoreObject(0));
      StepIsExact(cfg, s2, sp1, Finish(0, fate.faults, fate.commits));
      sp2 := SpecNext(cfg, sp1, s2, Finish(0, fate.faults, fate.commits));
    }
  }

  lemma StoredSpec(cfg: Config, s1: Sys, s2: Sys, sp1: Spec, fate: Fate)
    requires s1.flights.Keys == {0} && !s1.flights[0].stored && s2 == Next(cfg, s1, StoreObject(0))
    ensures s2.flights == map[0 := s1.flights[0].(stored := true)] && SpecNext(cfg, sp1, s1, StoreObject(0)) == sp1
    ensures Next(cfg, s2, Finish(0, fate.faults, fate.commits)).flights == map[]
    ensures SpecNext(cfg, sp1, s2, Finish(0, fate.faults, fate.commits))
         == if Succeeds(cfg, s2, 0, fate.faults, fate.commits) then With(sp1, s1.flights[0].key, s1.flights[0].data)
            else sp1
  {
  }
}
