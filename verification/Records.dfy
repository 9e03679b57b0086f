/** The life of a file record: the three-phase uploads of the S3 gateway and of
    the batch upload handler, deletes and reads
    (server/internal/store/file_records.go, server/internal/handler/s3gateway.go,
    server/internal/handler/upload.go). */
module Records {
  import opened Tables
  import opened Replication

  // ---------------------------------------------------------- the transactions

  method DeleteBlobEverywhere(ws: Workspace, objectKey: string)
    requires KeysUnique(ws.db)
    modifies ws`db
    ensures ws.db == DropKey(old(ws.db), objectKey)
  {
    var found := BlobsAt(ws.db, objectKey);
    if found == {} {
      assert ws.db == DropKey(ws.db, objectKey);
      return;
    }
    var b :| b in found;
    assert found == {b};
    ws.db := ws.db.(files := map f | f in ws.db.files && ws.db.files[f].blobId != b :: ws.db.files[f]);
    ws.db := ws.db.(locs := map l | l in ws.db.locs && l.0 != b :: ws.db.locs[l]);
    ws.db := ws.db.(blobs := ws.db.blobs - {b});
    assert ws.db.blobs == DropKey(old(ws.db), objectKey).blobs;
    assert ws.db.files == DropKey(old(ws.db), objectKey).files;
    assert ws.db.locs == DropKey(old(ws.db), objectKey).locs;
  }

  method CreatePendingFileUpload(ws: Workspace, user: string, folder: Option<Id>, name: string, objectKey: string)
    returns (blob: Id, file: Id)
    requires KeysUnique(ws.db)
    modifies ws`db
    ensures ws.db == CreatePending(old(ws.db), user, folder, name, objectKey)
    ensures blob == old(ws.db).next && file == old(ws.db).next + 1
  {
    DeleteBlobEverywhere(ws, objectKey);
    blob := ws.db.next;
    assert BlobsAt(ws.db, objectKey) == {};  // so UNIQUE (object_key) lets the insert through
    ws.db := ws.db.(blobs := ws.db.blobs[blob := Blob(objectKey, user, false)], next := blob + 1);
    file := ws.db.next;
    ws.db := ws.db.(files := ws.db.files[file := File(folder, blob, name, objectKey, false)], next := file + 1);
  }

  /** On false the caller rolls the transaction back. */
  method MarkFileUploadReady(ws: Workspace, file: Id, blob: Id, store: StoreId, path: string) returns (ok: bool)
    modifies ws`db
    ensures ok <==> MarkReady(old(ws.db), file, blob, store, path).Some?
    ensures ok ==> ws.db == MarkReady(old(ws.db), file, blob, store, path).value
  {
    if file in ws.db.files {
      if NameTaken(ws.db, file) { return false; }
      ws.db := ws.db.(files := ws.db.files[file := ws.db.files[file].(ready := true, storagePath := path)]);
    }
    if blob in ws.db.blobs {
      ws.db := ws.db.(blobs := ws.db.blobs[blob := ws.db.blobs[blob].(ready := true)]);
    }
    var inserted := InsertLoc(ws.db, blob, store, Location(path, Available));
    if inserted.None? { return false; }
    ws.db := inserted.value;
    ok := true;
  }

  /** A live file's blob goes with it: the same rows as dropping the blob. */
  method DeleteFileEverywhere(ws: Workspace, file: Id) returns (ok: bool)
    requires FilesMatchBlobs(ws.db)
    modifies ws`db
    ensures ok <==> file in old(ws.db).files
    ensures ok ==> ws.db == Drop(old(ws.db), {old(ws.db).files[file].blobId})
    ensures !ok ==> ws.db == old(ws.db)
  {
    if file !in ws.db.files { return false; }
    var b := ws.db.files[file].blobId;
    ws.db := ws.db.(files := ws.db.files - {file});
    ws.db := ws.db.(locs := map l | l in ws.db.locs && l.0 != b :: ws.db.locs[l]);
    ws.db := ws.db.(blobs := ws.db.blobs - {b});
    ok := true;
    assert ws.db.files == Drop(old(ws.db), {b}).files;
    assert ws.db.locs == Drop(old(ws.db), {b}).locs;
    assert ws.db.blobs == Drop(old(ws.db), {b}).blobs;
  }

  method FindFileByKey(ws: Workspace, key: string) returns (r: Option<Id>)
    ensures r.None? ==> ReadyAt(ws.db, key) == {}
    ensures r.Some? ==> r.value in ReadyAt(ws.db, key)
  {
    var found := ReadyAt(ws.db, key);
    if found == {} { return None; }
    var f :| f in found;
    r := Some(f);
  }

  /** Some available location of the blob is on an existing store. */
  ghost predicate Located(cfg: Config, db: DB, b: Id) {
    exists t :: (b, t) in db.locs && db.locs[(b, t)].state == Available && t in StoreIds(cfg.stores)
  }

  /** The stores ResolveReadStore may pick for a blob: any of its available
      locations whose store exists, else the primary. */
  ghost predicate MayRead(cfg: Config, db: DB, b: Id, s: StoreId) {
    if Located(cfg, db, b)
    then (b, s) in db.locs && db.locs[(b, s)].state == Available && s in StoreIds(cfg.stores)
    else Primary(cfg) == Some(s)
  }

  method ResolveReadStore(ws: Workspace, b: Id, fallbackPath: string) returns (r: Option<(StoreId, string)>)
    ensures r.Some? ==> MayRead(ws.cfg, ws.db, b, r.value.0)
    ensures r.Some? ==> r.value.1 == if (b, r.value.0) in ws.db.locs && ws.db.locs[(b, r.value.0)].state == Available
                                       && r.value.0 in StoreIds(ws.cfg.stores)
                                     then ws.db.locs[(b, r.value.0)].path else fallbackPath
    ensures r.None? <==> Primary(ws.cfg).None? && !Located(ws.cfg, ws.db, b)
  {
    var locs := set l | l in ws.db.locs && l.0 == b && ws.db.locs[l].state == Available;
    ghost var all := locs;
    while locs != {}
      invariant locs <= all
      invariant forall l :: l in all && l !in locs ==> l.1 !in StoreIds(ws.cfg.stores)
      decreases |locs|
    {
      var l :| l in locs;
      if l.1 in StoreIds(ws.cfg.stores) {
        assert (b, l.1) == l;
        return Some((l.1, ws.db.locs[l].path));
      }
      locs := locs - {l};
    }
    assert forall t :: (b, t) in ws.db.locs && ws.db.locs[(b, t)].state == Available ==> (b, t) in all;
    match Primary(ws.cfg)
    case None => return None;
    case Some(s) => return Some((s, fallbackPath));
  }

  // --------------------------------------------------------- the state machine

  type Token = nat

  /** A put between its first and last phase. */
  datatype Flight = Flight(key: string, file: Id, blob: Id, store: StoreId, data: Bytes, stored: bool)

  datatype Sys = Sys(w: World, flights: map<Token, Flight>)

  /** What a put is asked to store, and where its file row goes. */
  datatype Put = Put(key: string, user: string, folder: Option<Id>, name: string, data: Bytes)

  datatype Step =
    | GatewayBegin(token: Token, put: Put, deletes: bool, commits: bool)  // s3PutObject, phase 1
    | UploadBegin(token: Token, put: Put, store: StoreId)             // uploadOneAttempt, phase 1
    | StoreObject(token: Token)                                       // phase 2 succeeds
    | StoreFails(token: Token, left: Option<Bytes>)                   // phase 2 fails, leaving this at the key
    | Finish(token: Token, faults: Faults, commits: bool)             // phase 3
    | Abandon(token: Token)                                           // the request dies between phases
    | Delete(key: string)                                             // s3DeleteObject

  const EMPTY_SYS := Sys(World(EMPTY_DB, map[]), map[])

  /** The gateway's phase 1: the ready file found at the key is dropped first,
      and its old object is removed from the primary, if that delete works. */
  function GatewayDisk(w: World, key: string, primary: StoreId, deletes: bool): Disk {
    if ReadyAt(w.db, key) == {} || !deletes then w.disk else Write(w.disk, primary, key, None)
  }

  /** Phase 3 up to its commit. */
  function FinishRows(cfg: Config, w: World, fl: Flight, faults: Faults): Option<World> {
    match MarkReady(w.db, fl.file, fl.blob, fl.store, fl.key)
    case None => None
    case Some(db) =>
      if cfg.replicate then Some(SyncFile(cfg, World(db, w.disk), fl.file, None, faults).0) else Some(World(db, w.disk))
  }

  /** The committed end of a phase 1: the key's rows dropped, a fresh pair reserved. */
  function Reserve(s: Sys, t: Token, put: Put, store: StoreId): Sys {
    Sys(s.w.(db := CreatePending(s.w.db, put.user, put.folder, put.name, put.key)),
        s.flights[t := Flight(put.key, s.w.db.next + 1, s.w.db.next, store, put.data, false)])
  }

  /** The blobs of the ready files at a key. */
  function ReadyBlobsAt(db: DB, key: string): set<Id> { set f | f in ReadyAt(db, key) :: db.files[f].blobId }

  /** A step whose token is not in the right phase, whose key is empty, or
      whose store cannot be resolved is refused and changes nothing. */
  predicate Accepts(cfg: Config, s: Sys, step: Step) {
    match step
    case GatewayBegin(t, put, _, _) => t !in s.flights && put.key != "" && Primary(cfg).Some?
    case UploadBegin(t, put, store) =>
      t !in s.flights && store in StoreIds(cfg.stores) && (cfg.replicate ==> Primary(cfg) == Some(store))
    case StoreObject(t) => t in s.flights && !s.flights[t].stored
    case StoreFails(t, _) => t in s.flights && !s.flights[t].stored
    case Finish(t, _, _) => t in s.flights && s.flights[t].stored
    case Abandon(t) => t in s.flights
    case Delete(_) => true
  }

  function Next(cfg: Config, s: Sys, step: Step): Sys {
    if !Accepts(cfg, s, step) then s
    else match step
      case GatewayBegin(t, put, deletes, commits) =>
        var p := Primary(cfg).value;
        var disk := GatewayDisk(s.w, put.key, p, deletes);
        if commits then Reserve(s.(w := World(Drop(s.w.db, ReadyBlobsAt(s.w.db, put.key)), disk)), t, put, p)
        else s.(w := World(s.w.db, disk))
      case UploadBegin(t, put, store) => Reserve(s, t, put, store)
      case StoreObject(t) =>
        var fl := s.flights[t];
        Sys(s.w.(disk := Write(s.w.disk, fl.store, fl.key, Some(fl.data))), s.flights[t := fl.(stored := true)])
      case StoreFails(t, left) =>
        var fl := s.flights[t];
        Sys(s.w.(disk := Write(s.w.disk, fl.store, fl.key, left)), s.flights - {t})
      case Finish(t, faults, commits) =>
        (match FinishRows(cfg, s.w, s.flights[t], faults)
         case None => s.(flights := s.flights - {t})
         case Some(w) => Sys(World(if commits then w.db else s.w.db, w.disk), s.flights - {t}))
      case Abandon(t) => s.(flights := s.flights - {t})
      case Delete(key) => s.(w := s.w.(db := Drop(s.w.db, ReadyBlobsAt(s.w.db, key))))
  }

  function Run(cfg: Config, s: Sys, steps: seq<Step>): Sys
    decreases |steps|
  {
    if steps == [] then s else Next(cfg, Run(cfg, s, steps[..|steps| - 1]), steps[|steps| - 1])
  }

  // -------------------------------------- what every interleaving of phases keeps

  ghost predicate AllAvailable(db: DB) { forall l :: l in db.locs ==> db.locs[l].state == Available }

  ghost predicate FlightsFit(s: Sys) {
    forall t :: t in s.flights ==> PairOrGone(s.w.db, s.flights[t].file, s.flights[t].blob, s.flights[t].key)
                                   && s.flights[t].file < s.w.db.next
  }

  ghost predicate SysInv(s: Sys) { Inv(s.w.db) && AllAvailable(s.w.db) && FlightsFit(s) }

  /** The rows after dropping blobs keep every flight's pair whole or wholly gone. */
  lemma DropFits(s: Sys, gone: set<Id>)
    requires SysInv(s)
    ensures SysInv(s.(w := s.w.(db := Drop(s.w.db, gone))))
  {
    DropKeepsRows(s.w.db, gone);
    DropKeepsFiles(s.w.db, gone);
    DropKeepsLocs(s.w.db, gone);
  }

  lemma ReserveFits(s: Sys, t: Token, put: Put, store: StoreId)
    requires SysInv(s)
    ensures SysInv(Reserve(s, t, put, store))
  {
    CreatePendingKeepsInv(s.w.db, put.user, put.folder, put.name, put.key);
    ReserveKeepsFlights(s, t, put, store);
  }

  lemma ReserveKeepsFlights(s: Sys, t: Token, put: Put, store: StoreId)
    requires AllAvailable(s.w.db) && FlightsFit(s) && RowIdsBelowNext(s.w.db)
    ensures AllAvailable(Reserve(s, t, put, store).w.db) && FlightsFit(Reserve(s, t, put, store))
  {
  }

  lemma FinishFits(cfg: Config, s: Sys, t: Token, faults: Faults)
    requires SysInv(s) && t in s.flights
    ensures FinishRows(cfg, s.w, s.flights[t], faults).Some? ==>
      SysInv(Sys(FinishRows(cfg, s.w, s.flights[t], faults).value, s.flights - {t}))
  {
    var fl := s.flights[t];
    var marked := MarkReady(s.w.db, fl.file, fl.blob, fl.store, fl.key);
    if marked.None? { return; }
    MarkReadyKeepsInv(s.w.db, fl.file, fl.blob, fl.store, fl.key);
    MarkFits(s, t);
    if cfg.replicate {
      SyncFits(cfg, World(marked.value, s.w.disk), fl.file, faults, s.flights - {t});
    }
  }

  lemma MarkFits(s: Sys, t: Token)
    requires SysInv(s) && t in s.flights
    ensures var fl := s.flights[t];
            var marked := MarkReady(s.w.db, fl.file, fl.blob, fl.store, fl.key);
            marked.Some? ==> AllAvailable(marked.value)
                             && FlightsFit(Sys(World(marked.value, s.w.disk), s.flights - {t}))
  {
  }

  lemma SyncFits(cfg: Config, w: World, f: Id, faults: Faults, flights: map<Token, Flight>)
    requires SysInv(Sys(w, flights))
    ensures SysInv(Sys(SyncFile(cfg, w, f, None, faults).0, flights))
  {
    SyncFileKeepsInv(cfg, w, f, None, faults);
    SyncAddsOnlyCopies(cfg, w, f, faults);
  }

  /** A sync touches no row but locations, and adds only available ones. */
  lemma SyncAddsOnlyCopies(cfg: Config, w: World, f: Id, faults: Faults)
    requires FilesMatchBlobs(w.db)
    ensures var w1 := SyncFile(cfg, w, f, None, faults).0;
            w1.db == w.db.(locs := w1.db.locs) && (AllAvailable(w.db) ==> AllAvailable(w1.db))
  {
    if f in w.db.files && w.db.files[f].ready && Source(cfg, w.db, f, None).Some? {
      var b := w.db.files[f].blobId;
      var (src, srcPath) := Source(cfg, w.db, f, None).value;
      SyncTouchesOnlyCopies(w, b, w.db.blobs[b].objectKey, src, srcPath, Targets(cfg.stores, src), faults);
    }
  }

  lemma GatewayBeginKeepsInv(cfg: Config, s: Sys, t: Token, put: Put, deletes: bool, commits: bool)
    requires SysInv(s)
    ensures SysInv(Next(cfg, s, GatewayBegin(t, put, deletes, commits)))
  {
    if Accepts(cfg, s, GatewayBegin(t, put, deletes, commits)) && commits {
      var p := Primary(cfg).value;
      DropFits(s, ReadyBlobsAt(s.w.db, put.key));
      var dropped := World(Drop(s.w.db, ReadyBlobsAt(s.w.db, put.key)), GatewayDisk(s.w, put.key, p, deletes));
      ReserveFits(s.(w := dropped), t, put, p);
    }
  }

  lemma UploadBeginKeepsInv(cfg: Config, s: Sys, t: Token, put: Put, store: StoreId)
    requires SysInv(s)
    ensures SysInv(Next(cfg, s, UploadBegin(t, put, store)))
  {
    ReserveFits(s, t, put, store);
  }

  lemma FinishKeepsInv(cfg: Config, s: Sys, t: Token, faults: Faults, commits: bool)
    requires SysInv(s)
    ensures SysInv(Next(cfg, s, Finish(t, faults, commits)))
  {
    if t in s.flights { FinishFits(cfg, s, t, faults); }
  }

  /** No step of any put or delete, in any phase order, breaks the tables. */
  lemma StepKeepsInv(cfg: Config, s: Sys, step: Step)
    requires SysInv(s)
    ensures SysInv(Next(cfg, s, step))
  {
    match step
    case GatewayBegin(t, put, deletes, commits) => GatewayBeginKeepsInv(cfg, s, t, put, deletes, commits);
    case UploadBegin(t, put, store) => UploadBeginKeepsInv(cfg, s, t, put, store);
    case Finish(t, faults, commits) => FinishKeepsInv(cfg, s, t, faults, commits);
    case Delete(key) => DropFits(s, ReadyBlobsAt(s.w.db, key));
    case _ =>
  }

  /** What the tables promise after any run of interleaved phases. */
  ghost predicate Sound(db: DB) {
    && (forall a, b :: a in db.blobs && b in db.blobs && db.blobs[a].objectKey == db.blobs[b].objectKey ==> a == b)
    && (forall b :: b in db.blobs ==> exists f :: f in db.files && db.files[f].blobId == b)
    && (forall f, g :: f in db.files && g in db.files && db.files[f].blobId == db.files[g].blobId ==> f == g)
    && (forall f :: f in db.files ==> db.files[f].blobId in db.blobs)
    && (forall f :: f in db.files && db.files[f].ready ==>
        db.blobs[db.files[f].blobId].ready && HasCopy(db, db.files[f].blobId))
    && (forall key, f, g :: f in ReadyAt(db, key) && g in ReadyAt(db, key) ==> f == g)
  }

  /** Under every interleaving of upload phases and deletes: object keys stay
      unique, blobs and files stay one-to-one, a ready file has a ready blob
      with an available location, and one ready file at most answers to a key. */
  lemma {:induction false} EveryRunIsSound(cfg: Config, steps: seq<Step>)
    ensures SysInv(Run(cfg, EMPTY_SYS, steps)) && Sound(Run(cfg, EMPTY_SYS, steps).w.db)
    decreases |steps|
  {
    if steps != [] {
      EveryRunIsSound(cfg, steps[..|steps| - 1]);
      StepKeepsInv(cfg, Run(cfg, EMPTY_SYS, steps[..|steps| - 1]), steps[|steps| - 1]);
    }
    InvIsSound(Run(cfg, EMPTY_SYS, steps).w.db);
  }

  lemma InvIsSound(db: DB)
    requires Inv(db)
    ensures Sound(db)
  {
    forall b | b in db.blobs ensures exists f :: f in db.files && db.files[f].blobId == b { assert HasFile(db, b); }
    OneReadyPerKey(db);
  }

  lemma OneReadyPerKey(db: DB)
    requires KeysUnique(db) && FilesMatchBlobs(db)
    ensures forall key, f, g :: f in ReadyAt(db, key) && g in ReadyAt(db, key) ==> f == g
  {
    forall key, f, g | f in ReadyAt(db, key) && g in ReadyAt(db, key) ensures f == g {
      assert db.files[f].blobId == db.files[g].blobId;
    }
  }
}
