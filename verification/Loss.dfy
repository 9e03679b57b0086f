/** Exactly when a get can miss a key the gateway's map holds: phase 1 of a put
    removes the old object from the primary before its transaction commits
    (server/internal/handler/s3gateway.go). */
module Loss {
  import opened Tables
  import opened Replication
  import opened Records
  import opened Refinement

  /** Ready blob b at the key is located on the primary, where its object is gone. */
  ghost predicate LostCopy(cfg: Config, w: World, key: string, b: Id) {
    && Primary(cfg).Some? && b in w.db.blobs && w.db.blobs[b].ready && w.db.blobs[b].objectKey == key
    && (b, Primary(cfg).value) in w.db.locs && Lookup(w.disk, Primary(cfg).value, key) == None
  }

  /** Every frail key really has lost its copy on the primary. */
  ghost predicate FrailAreLost(cfg: Config, w: World, sp: Spec) {
    forall key :: key in sp.frail ==> exists b :: LostCopy(cfg, w, key, b)
  }

  // ----------------------------------------------------------- what a client may see

  lemma GetMayHere(cfg: Config, w: World, key: string, b: Id, st: StoreId)
    requires BlobsHaveFiles(w.db) && FilesMatchBlobs(w.db) && AllAvailable(w.db) && st in StoreIds(cfg.stores)
    requires b in w.db.blobs && w.db.blobs[b].ready && w.db.blobs[b].objectKey == key && (b, st) in w.db.locs
    ensures GetMay(cfg, w, key, Lookup(w.disk, st, key))
  {
    assert HasFile(w.db, b);
    var f :| f in w.db.files && w.db.files[f].blobId == b;
    assert f in ReadyAt(w.db, key);
    assert Located(cfg, w.db, b);
    assert MayRead(cfg, w.db, w.db.files[f].blobId, st);
  }

  lemma GetMayFromLocation(cfg: Config, w: World, key: string, b: Id, st: StoreId)
    requires BlobsHaveFiles(w.db) && FilesMatchBlobs(w.db) && AllAvailable(w.db) && NoOrphans(cfg, w.db)
    requires b in w.db.blobs && w.db.blobs[b].ready && w.db.blobs[b].objectKey == key && (b, st) in w.db.locs
    ensures GetMay(cfg, w, key, Lookup(w.disk, st, key))
  {
    assert (b, st).1 in StoreIds(cfg.stores);
    GetMayHere(cfg, w, key, b, st);
  }

  /** A get can miss a key of the map exactly when the key is frail. */
  lemma MissIffFrail(cfg: Config, s: Sys, sp: Spec, key: string)
    requires Exact(cfg, s, sp) && key in sp.objects
    ensures GetMay(cfg, s.w, key, None) <==> key in sp.frail
  {
    if GetMay(cfg, s.w, key, None) { GetReadsTheMap(cfg, s, sp, key, None); }
    if key in sp.frail { LostIsMissed(cfg, s.w, sp, key); }
  }

  lemma LostIsMissed(cfg: Config, w: World, sp: Spec, key: string)
    requires BlobsHaveFiles(w.db) && FilesMatchBlobs(w.db) && AllAvailable(w.db) && NoOrphans(cfg, w.db)
    requires FrailAreLost(cfg, w, sp) && key in sp.frail
    ensures GetMay(cfg, w, key, None)
  {
    var b :| LostCopy(cfg, w, key, b);
    GetMayFromLocation(cfg, w, key, b, Primary(cfg).value);
  }

  /** A frail key can still be read exactly when a store other than the primary
      holds a copy. */
  lemma FrailServedIff(cfg: Config, s: Sys, sp: Spec, key: string)
    requires Exact(cfg, s, sp) && key in sp.frail && key in sp.objects
    ensures GetMay(cfg, s.w, key, Some(sp.objects[key]))
            <==> exists b, st :: (b, st) in s.w.db.locs && s.w.db.blobs[b].objectKey == key
                                 && Primary(cfg) != Some(st) && Lookup(s.w.disk, st, key).Some?
  {
    if b, st :| && (b, st) in s.w.db.locs && s.w.db.blobs[b].objectKey == key
                && Primary(cfg) != Some(st) && Lookup(s.w.disk, st, key).Some? {
      assert (b, st).0 in s.w.db.blobs && CopyHolds(s.w.disk, (b, st).1, key, sp);
      GetMayFromLocation(cfg, s.w, key, b, st);
    }
    if GetMay(cfg, s.w, key, Some(sp.objects[key])) {
      var b :| LostCopy(cfg, s.w, key, b);
      var st := ServedElsewhere(cfg, s.w, key, b, sp.objects[key]);
    }
  }

  lemma ServedElsewhere(cfg: Config, w: World, key: string, b: Id, data: Bytes) returns (st: StoreId)
    requires KeysUnique(w.db) && FilesMatchBlobs(w.db) && AllAvailable(w.db) && NoOrphans(cfg, w.db)
    requires LostCopy(cfg, w, key, b) && GetMay(cfg, w, key, Some(data))
    ensures (b, st) in w.db.locs && Primary(cfg) != Some(st) && Lookup(w.disk, st, key) == Some(data)
  {
    var f: Id;
    f, st :| f in ReadyAt(w.db, key) && MayRead(cfg, w.db, w.db.files[f].blobId, st)
        && Some(data) == Lookup(w.disk, st, key);
    assert w.db.files[f].blobId == b;
    assert (b, Primary(cfg).value).1 in StoreIds(cfg.stores);
    assert Located(cfg, w.db, b);
  }

  // --------------------------------------------------------------- one failed phase 1

  /** After a phase 1 that removed the old object but failed to commit, a get
      can miss the key exactly when its blob had a location on the primary. */
  lemma FailedBeginMissesIff(cfg: Config, s: Sys, sp: Spec, t: Token, put: Put, b: Id)
    requires ValidConfig(cfg) && Mirrors(cfg, s, sp) && Accepts(cfg, s, GatewayBegin(t, put, true, false))
    requires put.key in sp.objects && put.key !in sp.frail
    requires b in s.w.db.blobs && s.w.db.blobs[b].ready && s.w.db.blobs[b].objectKey == put.key
    ensures GetMay(cfg, Next(cfg, s, GatewayBegin(t, put, true, false)).w, put.key, None)
            <==> (b, Primary(cfg).value) in s.w.db.locs
  {
    var step := GatewayBegin(t, put, true, false);
    forall u | u in s.flights ensures s.flights[u].key != put.key { PendingKeyAbsent(cfg, s, sp, u); }
    StepMirrors(cfg, s, sp, step);
    var s1 := Next(cfg, s, step);
    BlobHasReadyFile(s.w.db, b);
    assert PrimaryHolds(cfg, s.w.db, put.key) <==> (b, Primary(cfg).value) in s.w.db.locs;
    if (b, Primary(cfg).value) in s.w.db.locs {
      assert LostCopy(cfg, s1.w, put.key, b);
      GetMayFromLocation(cfg, s1.w, put.key, b, Primary(cfg).value);
    } else if GetMay(cfg, s1.w, put.key, None) {
      GetReadsTheMap(cfg, s1, sp, put.key, None);
    }
  }

  lemma BlobHasReadyFile(db: DB, b: Id)
    requires BlobsHaveFiles(db) && FilesMatchBlobs(db) && b in db.blobs && db.blobs[b].ready
    ensures ReadyAt(db, db.blobs[b].objectKey) != {}
  {
    assert HasFile(db, b);
    var f :| f in db.files && db.files[f].blobId == b;
    assert f in ReadyAt(db, db.blobs[b].objectKey);
  }

  // ------------------------------------------------------------------ step by step

  /** A lost copy stays lost while its rows stay and nothing is stored at its key. */
  lemma LostStays(cfg: Config, w: World, w2: World, key: string, b: Id)
    requires LostCopy(cfg, w, key, b)
    requires b in w2.db.blobs && w2.db.blobs[b] == w.db.blobs[b] && (b, Primary(cfg).value) in w2.db.locs
    requires Lookup(w2.disk, Primary(cfg).value, key) == None
    ensures exists c :: LostCopy(cfg, w2, key, c)
  {
    assert LostCopy(cfg, w2, key, b);
  }

  /** The frail keys other than `own` stay lost when the rows of other keys stay
      and nothing is stored there. */
  lemma OthersStayLost(cfg: Config, w: World, w2: World, sp: Spec, own: string)
    requires FrailAreLost(cfg, w, sp)
    requires forall b :: b in w.db.blobs && w.db.blobs[b].ready && w.db.blobs[b].objectKey != own ==>
               b in w2.db.blobs && w2.db.blobs[b] == w.db.blobs[b]
    requires forall l :: l in w.db.locs && l.0 in w.db.blobs && w.db.blobs[l.0].objectKey != own ==> l in w2.db.locs
    requires forall st, k :: k != own && Lookup(w.disk, st, k) == None ==> Lookup(w2.disk, st, k) == None
    ensures FrailAreLost(cfg, w2, Without(sp, own))
  {
    forall key | key in Without(sp, own).frail ensures exists c :: LostCopy(cfg, w2, key, c) {
      var b :| LostCopy(cfg, w, key, b);
      assert (b, Primary(cfg).value).0 == b;
      LostStays(cfg, w, w2, key, b);
    }
  }

  lemma BeginKeepsLost(cfg: Config, s: Sys, sp: Spec, t: Token, put: Put, deletes: bool, commits: bool)
    requires FilesMatchBlobs(s.w.db) && BlobsHaveFiles(s.w.db) && RowIdsBelowNext(s.w.db)
    requires FrailAreLost(cfg, s.w, sp) && Accepts(cfg, s, GatewayBegin(t, put, deletes, commits))
    ensures var step := GatewayBegin(t, put, deletes, commits);
            FrailAreLost(cfg, Next(cfg, s, step).w, SpecNext(cfg, sp, s, step))
  {
    var p := Primary(cfg).value;
    var disk := GatewayDisk(s.w, put.key, p, deletes);
    if commits {
      ReadyBlobsAreTheKeys(s.w.db, put.key);
      var dropped := World(Drop(s.w.db, ReadyBlobsAt(s.w.db, put.key)), disk);
      OthersStayLost(cfg, s.w, dropped, sp, put.key);
      UploadKeepsLost(cfg, dropped, Without(sp, put.key), put);
      assert Without(Without(sp, put.key), put.key) == Without(sp, put.key);
    } else {
      RemovalKeepsLost(cfg, s.w, sp, p, put.key, disk);
      if deletes && PrimaryHolds(cfg, s.w.db, put.key) { RemovalLoses(cfg, s.w, put.key, disk); }
    }
  }

  lemma RemovalKeepsLost(cfg: Config, w: World, sp: Spec, p: StoreId, key: string, disk: Disk)
    requires FrailAreLost(cfg, w, sp) && (disk == w.disk || disk == Write(w.disk, p, key, None))
    ensures FrailAreLost(cfg, World(w.db, disk), sp)
  {
    forall k | k in sp.frail ensures exists c :: LostCopy(cfg, World(w.db, disk), k, c) {
      var b :| LostCopy(cfg, w, k, b);
      LostStays(cfg, w, World(w.db, disk), k, b);
    }
  }

  lemma RemovalLoses(cfg: Config, w: World, key: string, disk: Disk)
    requires FilesMatchBlobs(w.db) && BlobsHaveFiles(w.db) && PrimaryHolds(cfg, w.db, key)
    requires disk == GatewayDisk(w, key, Primary(cfg).value, true)
    ensures exists b :: LostCopy(cfg, World(w.db, disk), key, b)
  {
    var b :| b in w.db.blobs && w.db.blobs[b].ready && w.db.blobs[b].objectKey == key
        && (b, Primary(cfg).value) in w.db.locs;
    BlobHasReadyFile(w.db, b);
    assert LostCopy(cfg, World(w.db, disk), key, b);
  }

  lemma UploadKeepsLost(cfg: Config, w: World, sp: Spec, put: Put)
    requires RowIdsBelowNext(w.db) && FrailAreLost(cfg, w, sp)
    ensures FrailAreLost(cfg, w.(db := CreatePending(w.db, put.user, put.folder, put.name, put.key)),
                         Without(sp, put.key))
  {
    OthersStayLost(cfg, w, w.(db := CreatePending(w.db, put.user, put.folder, put.name, put.key)), sp, put.key);
  }

  /** Storing at the key of a put in flight. */
  lemma StoringKeepsLost(cfg: Config, s: Sys, sp: Spec, t: Token, left: Option<Bytes>)
    requires FrailAreLost(cfg, s.w, sp) && t in s.flights && s.flights[t].key !in sp.frail
    ensures FrailAreLost(cfg, s.w.(disk := Write(s.w.disk, s.flights[t].store, s.flights[t].key, left)), sp)
  {
    OthersStayLost(cfg, s.w, s.w.(disk := Write(s.w.disk, s.flights[t].store, s.flights[t].key, left)), sp,
                   s.flights[t].key);
    assert Without(sp, s.flights[t].key).frail == sp.frail;
  }

  lemma FinishKeepsLost(cfg: Config, s: Sys, sp: Spec, t: Token, faults: Faults, commits: bool)
    requires ValidConfig(cfg) && SysInv(s) && FrailAreLost(cfg, s.w, sp) && Accepts(cfg, s, Finish(t, faults, commits))
    requires s.flights[t].key !in sp.frail
    ensures var step := Finish(t, faults, commits);
            FrailAreLost(cfg, Next(cfg, s, step).w, SpecNext(cfg, sp, s, step))
  {
    var r := FinishRows(cfg, s.w, s.flights[t], faults);
    if r.Some? {
      FinishWritesItsKey(cfg, s, t, faults);
      FinishKeepsLocs(cfg, s, t, faults);
      FinishKeepsOtherBlobs(cfg, s, t, faults);
      FinishedKeepsLost(cfg, s, sp, t, r.value);
    }
  }

  lemma FinishedKeepsLost(cfg: Config, s: Sys, sp: Spec, t: Token, w: World)
    requires FlightsFit(s) && FrailAreLost(cfg, s.w, sp) && t in s.flights && s.flights[t].key !in sp.frail
    requires forall st, k :: k != s.flights[t].key ==> Lookup(w.disk, st, k) == Lookup(s.w.disk, st, k)
    requires forall b :: b in s.w.db.blobs && b != s.flights[t].blob ==>
             b in w.db.blobs && w.db.blobs[b] == s.w.db.blobs[b]
    requires forall l :: l in s.w.db.locs ==> l in w.db.locs
    ensures FrailAreLost(cfg, w, sp) && FrailAreLost(cfg, World(s.w.db, w.disk), sp)
    ensures FrailAreLost(cfg, w, With(sp, s.flights[t].key, s.flights[t].data))
  {
    OthersStayLost(cfg, s.w, w, sp, s.flights[t].key);
    OthersStayLost(cfg, s.w, World(s.w.db, w.disk), sp, s.flights[t].key);
    assert Without(sp, s.flights[t].key).frail == sp.frail;
  }

  lemma FinishKeepsOtherBlobs(cfg: Config, s: Sys, t: Token, faults: Faults)
    requires SysInv(s) && t in s.flights
    ensures var r := FinishRows(cfg, s.w, s.flights[t], faults);
            r.Some? ==> forall b :: b in s.w.db.blobs && b != s.flights[t].blob ==>
                          b in r.value.db.blobs && r.value.db.blobs[b] == s.w.db.blobs[b]
  {
    var fl := s.flights[t];
    var marked := MarkReady(s.w.db, fl.file, fl.blob, fl.store, fl.key);
    if marked.Some? && cfg.replicate {
      MarkReadyKeepsInv(s.w.db, fl.file, fl.blob, fl.store, fl.key);
      SyncAddsOnlyCopies(cfg, World(marked.value, s.w.disk), fl.file, faults);
    }
  }

  lemma DeleteKeepsLost(cfg: Config, s: Sys, sp: Spec, key: string)
    requires FilesMatchBlobs(s.w.db) && BlobsHaveFiles(s.w.db) && FrailAreLost(cfg, s.w, sp)
    ensures FrailAreLost(cfg, Next(cfg, s, Delete(key)).w, Without(sp, key))
  {
    ReadyBlobsAreTheKeys(s.w.db, key);
    OthersStayLost(cfg, s.w, Next(cfg, s, Delete(key)).w, sp, key);
  }

  lemma StepKeepsLost(cfg: Config, s: Sys, sp: Spec, step: Step)
    requires ValidConfig(cfg) && Exact(cfg, s, sp)
    ensures FrailAreLost(cfg, Next(cfg, s, step).w, SpecNext(cfg, sp, s, step))
  {
    if !Accepts(cfg, s, step) { return; }
    forall t | t in s.flights ensures s.flights[t].key !in sp.objects { PendingKeyAbsent(cfg, s, sp, t); }
    match step
    case GatewayBegin(t, put, deletes, commits) => BeginKeepsLost(cfg, s, sp, t, put, deletes, commits);
    case UploadBegin(t, put, store) => UploadKeepsLost(cfg, s.w, sp, put);
    case StoreObject(t) => StoringKeepsLost(cfg, s, sp, t, Some(s.flights[t].data));
    case StoreFails(t, left) => StoringKeepsLost(cfg, s, sp, t, left);
    case Finish(t, faults, commits) => FinishKeepsLost(cfg, s, sp, t, faults, commits);
    case Abandon(t) =>
    case Delete(key) => DeleteKeepsLost(cfg, s, sp, key);
  }

  /** Tables and stores are the map, and `frail` says exactly what is lost. */
  ghost predicate Exact(cfg: Config, s: Sys, sp: Spec) { Mirrors(cfg, s, sp) && FrailAreLost(cfg, s.w, sp) }

  lemma StepIsExact(cfg: Config, s: Sys, sp: Spec, step: Step)
    requires ValidConfig(cfg) && Exact(cfg, s, sp) && Serial(s, step)
    ensures Exact(cfg, Next(cfg, s, step), SpecNext(cfg, sp, s, step))
  {
    StepMirrors(cfg, s, sp, step);
    StepKeepsLost(cfg, s, sp, step);
  }

  lemma {:induction false} SerialRunsAreExact(cfg: Config, steps: seq<Step>)
    requires ValidConfig(cfg) && SerialRun(cfg, EMPTY_SYS, steps)
    ensures Exact(cfg, Run(cfg, EMPTY_SYS, steps), SpecRun(cfg, steps))
    decreases |steps|
  {
    if steps != [] {
      var init := steps[..|steps| - 1];
      SerialRunsAreExact(cfg, init);
      StepIsExact(cfg, Run(cfg, EMPTY_SYS, init), SpecRun(cfg, init), steps[|steps| - 1]);
    }
  }

  /** What a get answers after any serial run: the map's bytes and no others,
      and no such key exactly for keys the map lacks or whose copy on the
      primary was lost. */
  lemma SerialGets(cfg: Config, steps: seq<Step>, key: string, r: Option<Bytes>)
    requires ValidConfig(cfg) && SerialRun(cfg, EMPTY_SYS, steps)
    ensures var w, sp := Run(cfg, EMPTY_SYS, steps).w, SpecRun(cfg, steps);
            && (r.Some? && GetMay(cfg, w, key, r) ==> key in sp.objects && r.value == sp.objects[key])
            && (GetMay(cfg, w, key, None) <==> key !in sp.objects || key in sp.frail)
            && (key in sp.objects && key !in sp.frail ==> GetMay(cfg, w, key, Some(sp.objects[key])))
            && (key in sp.frail ==> exists b :: LostCopy(cfg, w, key, b))
  {
    SerialRunsAreExact(cfg, steps);
    ExactGets(cfg, Run(cfg, EMPTY_SYS, steps), SpecRun(cfg, steps), key, r);
  }

  /** What a get answers when only lost keys are frail. */
  lemma ExactGets(cfg: Config, s: Sys, sp: Spec, key: string, r: Option<Bytes>)
    requires Exact(cfg, s, sp)
    ensures r.Some? && GetMay(cfg, s.w, key, r) ==> key in sp.objects && r.value == sp.objects[key]
    ensures GetMay(cfg, s.w, key, None) <==> key !in sp.objects || key in sp.frail
    ensures key in sp.objects && key !in sp.frail ==> GetMay(cfg, s.w, key, Some(sp.objects[key]))
    ensures key in sp.frail ==> exists b :: LostCopy(cfg, s.w, key, b)
  {
    if GetMay(cfg, s.w, key, r) { GetReadsTheMap(cfg, s, sp, key, r); }
    if key in sp.objects { MissIffFrail(cfg, s, sp, key); } else { AbsentIsMissed(cfg, s, sp, key); }
    if key in sp.objects && key !in sp.frail { WholeIsServed(cfg, s, sp, key); }
  }

  lemma WholeIsServed(cfg: Config, s: Sys, sp: Spec, key: string)
    requires Mirrors(cfg, s, sp) && key in sp.objects && key !in sp.frail
    ensures GetMay(cfg, s.w, key, Some(sp.objects[key]))
  {
    var b :| b in s.w.db.blobs && s.w.db.blobs[b].ready && s.w.db.blobs[b].objectKey == key;
    assert HasCopy(s.w.db, b);
    var st :| (b, st) in s.w.db.locs && s.w.db.locs[(b, st)].state == Available;
    assert CopyHolds(s.w.disk, (b, st).1, s.w.db.blobs[(b, st).0].objectKey, sp);
    GetMayFromLocation(cfg, s.w, key, b, st);
  }

  lemma AbsentIsMissed(cfg: Config, s: Sys, sp: Spec, key: string)
    requires FilesMatchBlobs(s.w.db) && KeysMatch(s.w.db, sp) && key !in sp.objects
    ensures GetMay(cfg, s.w, key, None)
  {
    assert forall f :: f in s.w.db.files && s.w.db.files[f].ready ==> s.w.db.blobs[s.w.db.files[f].blobId].ready;
    assert ReadyAt(s.w.db, key) == {};
  }

  // ------------------------------------------------------------------ cumulative mode

  /** No blob is located on two stores. */
  ghost predicate SingleCopies(db: DB) { forall l, m :: l in db.locs && m in db.locs && l.0 == m.0 ==> l == m }

  lemma MarkKeepsSingle(db: DB, fl: Flight)
    requires SingleCopies(db) && forall l :: l in db.locs ==> l.0 != fl.blob
    ensures var r := MarkReady(db, fl.file, fl.blob, fl.store, fl.key); r.Some? ==> SingleCopies(r.value)
  {
  }

  lemma StepKeepsSingle(cfg: Config, s: Sys, step: Step)
    requires !cfg.replicate && FlightsUnmarked(s) && SingleCopies(s.w.db)
    ensures SingleCopies(Next(cfg, s, step).w.db)
  {
    if step.Finish? && Accepts(cfg, s, step) { MarkKeepsSingle(s.w.db, s.flights[step.token]); }
  }

  lemma {:induction false} CumulativeRunsAreSingle(cfg: Config, steps: seq<Step>)
    requires !cfg.replicate
    ensures SingleCopies(Run(cfg, EMPTY_SYS, steps).w.db)
    decreases |steps|
  {
    if steps != [] {
      var init := steps[..|steps| - 1];
      CumulativeRunsAreSingle(cfg, init);
      RunsAreUnmarked(cfg, init);
      StepKeepsSingle(cfg, Run(cfg, EMPTY_SYS, init), steps[|steps| - 1]);
    }
  }

  /** In cumulative mode a frail key is gone: after every serial run that leaves
      it frail, that is until a later put or delete, a get can only miss it. */
  lemma FrailIsGoneInCumulativeMode(cfg: Config, steps: seq<Step>, key: string, r: Option<Bytes>)
    requires ValidConfig(cfg) && SerialRun(cfg, EMPTY_SYS, steps) && !cfg.replicate
    requires key in SpecRun(cfg, steps).frail
    ensures GetMay(cfg, Run(cfg, EMPTY_SYS, steps).w, key, r) <==> r == None
  {
    var s, sp := Run(cfg, EMPTY_SYS, steps), SpecRun(cfg, steps);
    SerialRunsAreExact(cfg, steps);
    CumulativeRunsAreSingle(cfg, steps);
    MissIffFrail(cfg, s, sp, key);
    if r.Some? && GetMay(cfg, s.w, key, r) {
      GetReadsTheMap(cfg, s, sp, key, r);
      NotServedElsewhere(cfg, s, sp, key);
    }
  }

  lemma NotServedElsewhere(cfg: Config, s: Sys, sp: Spec, key: string)
    requires Exact(cfg, s, sp) && SingleCopies(s.w.db) && key in sp.frail && key in sp.objects
    ensures !GetMay(cfg, s.w, key, Some(sp.objects[key]))
  {
    FrailServedIff(cfg, s, sp, key);
    var lost :| LostCopy(cfg, s.w, key, lost);
    forall b, st | (b, st) in s.w.db.locs && s.w.db.blobs[b].objectKey == key ensures Primary(cfg) == Some(st) {
      var l, m := (b, st), (lost, Primary(cfg).value);
      assert l.0 == m.0;
    }
  }

  // ----------------------------------------------------------------- it does happen

  /** A put that succeeds, then another on its key whose phase 1 does not commit. */
  function PutThenFailedBegin(p: Put, q: Put): seq<Step> {
    [GatewayBegin(0, p, true, true), StoreObject(0), Finish(0, map[], true), GatewayBegin(1, q, true, false)]
  }

  lemma SyncKeepsLocs(cfg: Config, w: World, f: Id, faults: Faults)
    requires FilesMatchBlobs(w.db)
    ensures forall l :: l in w.db.locs ==> l in SyncFile(cfg, w, f, None, faults).0.db.locs
  {
    if f in w.db.files && w.db.files[f].ready && Source(cfg, w.db, f, None).Some? {
      var b := w.db.files[f].blobId;
      var (src, path) := Source(cfg, w.db, f, None).value;
      SyncTouchesOnlyCopies(w, b, w.db.blobs[b].objectKey, src, path, Targets(cfg.stores, src), faults);
    }
  }

  /** A finished put's blob is ready, at its key, and located on its store. */
  lemma FinishLocates(cfg: Config, s: Sys, t: Token, faults: Faults)
    requires SysInv(s) && t in s.flights && s.flights[t].blob in s.w.db.blobs
    ensures var fl := s.flights[t]; var r := FinishRows(cfg, s.w, fl, faults);
            r.Some? ==> && fl.blob in r.value.db.blobs && r.value.db.blobs[fl.blob].ready
                        && r.value.db.blobs[fl.blob].objectKey == fl.key && (fl.blob, fl.store) in r.value.db.locs
  {
    var fl := s.flights[t];
    var marked := MarkReady(s.w.db, fl.file, fl.blob, fl.store, fl.key);
    if marked.Some? && cfg.replicate {
      MarkReadyKeepsInv(s.w.db, fl.file, fl.blob, fl.store, fl.key);
      SyncAddsOnlyCopies(cfg, World(marked.value, s.w.disk), fl.file, faults);
      SyncKeepsLocs(cfg, World(marked.value, s.w.disk), fl.file, faults);
    }
  }

  /** The first put of a fresh workspace goes through and is on the primary. */
  lemma FirstPut(cfg: Config, p: Put, s1: Sys, s2: Sys, s3: Sys)
    requires ValidConfig(cfg) && Primary(cfg).Some? && p.key != ""
    requires s1 == Next(cfg, EMPTY_SYS, GatewayBegin(0, p, true, true)) && s2 == Next(cfg, s1, StoreObject(0))
    requires s3 == Next(cfg, s2, Finish(0, map[], true))
    ensures 0 in s2.flights && Succeeds(cfg, s2, 0, map[], true)
    ensures s2.flights[0].key == p.key && s2.flights[0].data == p.data && Accepts(cfg, s2, Finish(0, map[], true))
    ensures s3.flights == map[] && PrimaryHolds(cfg, s3.w.db, p.key)
  {
    assert Mirrors(cfg, EMPTY_SYS, EMPTY_SPEC);
    PutSucceedsIff(cfg, EMPTY_SYS, EMPTY_SPEC, 0, p, true, map[]);
    FirstStored(cfg, p, s1, s2);
    FinishLocates(cfg, s2, 0, map[]);
    FinishHolds(cfg, s2, 0);
  }

  lemma FirstStored(cfg: Config, p: Put, s1: Sys, s2: Sys)
    requires Primary(cfg).Some? && p.key != ""
    requires s1 == Next(cfg, EMPTY_SYS, GatewayBegin(0, p, true, true)) && s2 == Next(cfg, s1, StoreObject(0))
    ensures SysInv(s2) && s2.flights == map[0 := Flight(p.key, 1, 0, Primary(cfg).value, p.data, true)]
            && 0 in s2.w.db.blobs
  {
    FirstBegin(cfg, p);
    StepKeepsInv(cfg, EMPTY_SYS, GatewayBegin(0, p, true, true));
    StepKeepsInv(cfg, s1, StoreObject(0));
  }

  lemma FinishHolds(cfg: Config, s: Sys, t: Token)
    requires t in s.flights && s.flights[t].stored && Primary(cfg) == Some(s.flights[t].store)
    requires var fl := s.flights[t]; var r := FinishRows(cfg, s.w, fl, map[]);
             r.Some? && fl.blob in r.value.db.blobs && r.value.db.blobs[fl.blob].ready
             && r.value.db.blobs[fl.blob].objectKey == fl.key && (fl.blob, fl.store) in r.value.db.locs
    ensures var s3 := Next(cfg, s, Finish(t, map[], true));
            s3.flights == s.flights - {t} && PrimaryHolds(cfg, s3.w.db, s.flights[t].key)
  {
  }

  /** In a fresh workspace, the failed second put on a key leaves the map with
      the first put's bytes and a get that can answer no such key. */
  lemma FailedPutLosesObject(cfg: Config, p: Put, q: Put)
    requires ValidConfig(cfg) && Primary(cfg).Some? && p.key == q.key != ""
    ensures var steps := PutThenFailedBegin(p, q);
            && SerialRun(cfg, EMPTY_SYS, steps) && SpecRun(cfg, steps) == Spec(map[p.key := p.data], {p.key})
            && GetMay(cfg, Run(cfg, EMPTY_SYS, steps).w, p.key, None)
  {
    var steps := PutThenFailedBegin(p, q);
    var s1 := Next(cfg, EMPTY_SYS, steps[0]);
    var s2 := Next(cfg, s1, steps[1]);
    var s3 := Next(cfg, s2, steps[2]);
    FirstPut(cfg, p, s1, s2, s3);
    RunOfFour(cfg, steps, s1, s2, s3);
    FirstPutSpec(cfg, p, s1, s2);
    assert SpecRun(cfg, steps).objects == map[p.key := p.data] && SpecRun(cfg, steps).frail == {p.key};
    SerialGets(cfg, steps, p.key, None);
  }

  lemma FirstPutSpec(cfg: Config, p: Put, s1: Sys, s2: Sys)
    requires Accepts(cfg, EMPTY_SYS, GatewayBegin(0, p, true, true)) && 0 in s2.flights
             && Succeeds(cfg, s2, 0, map[], true)
    requires s2.flights[0].key == p.key && s2.flights[0].data == p.data && Accepts(cfg, s2, Finish(0, map[], true))
    ensures SpecNext(cfg, EMPTY_SPEC, EMPTY_SYS, GatewayBegin(0, p, true, true)) == EMPTY_SPEC
    ensures SpecNext(cfg, EMPTY_SPEC, s1, StoreObject(0)) == EMPTY_SPEC
    ensures SpecNext(cfg, EMPTY_SPEC, s2, Finish(0, map[], true)) == Spec(map[p.key := p.data], {})
  {
  }

  /** A run of four steps, and its map, unrolled. */
  lemma RunOfFour(cfg: Config, steps: seq<Step>, s1: Sys, s2: Sys, s3: Sys)
    requires |steps| == 4 && s1 == Next(cfg, EMPTY_SYS, steps[0]) && s2 == Next(cfg, s1, steps[1])
             && s3 == Next(cfg, s2, steps[2])
    ensures Run(cfg, EMPTY_SYS, steps) == Next(cfg, s3, steps[3])
    ensures SerialRun(cfg, EMPTY_SYS, steps)
            <==> Serial(EMPTY_SYS, steps[0]) && Serial(s1, steps[1]) && Serial(s2, steps[2]) && Serial(s3, steps[3])
    ensures var sp1 := SpecNext(cfg, EMPTY_SPEC, EMPTY_SYS, steps[0]);
            var sp2 := SpecNext(cfg, sp1, s1, steps[1]);
            var sp3 := SpecNext(cfg, sp2, s2, steps[2]);
            SpecRun(cfg, steps) == SpecNext(cfg, sp3, s3, steps[3])
  {
    var a, b, c := steps[..3], steps[..2], steps[..1];
    assert a[..2] == b && b[..1] == c && c[..0] == [];
    assert Run(cfg, EMPTY_SYS, c) == s1 && SpecRun(cfg, c) == SpecNext(cfg, EMPTY_SPEC, EMPTY_SYS, steps[0]);
    assert SerialRun(cfg, EMPTY_SYS, c) <==> Serial(EMPTY_SYS, steps[0]);
    assert Run(cfg, EMPTY_SYS, b) == s2 && Run(cfg, EMPTY_SYS, a) == s3;
    assert SerialRun(cfg, EMPTY_SYS, b) <==> SerialRun(cfg, EMPTY_SYS, c) && Serial(s1, steps[1]);
    assert SerialRun(cfg, EMPTY_SYS, a) <==> SerialRun(cfg, EMPTY_SYS, b) && Serial(s2, steps[2]);
    assert SpecRun(cfg, b) == SpecNext(cfg, SpecRun(cfg, c), s1, steps[1]);
    assert SpecRun(cfg, a) == SpecNext(cfg, SpecRun(cfg, b), s2, steps[2]);
  }
}
