/** What aborting and completing multipart uploads does to the gateway's map
    and to each other (server/internal/handler/s3multipart.go): both find "the
    reserved file" by key and user only. */
module MultipartMap {
  import opened Tables
  import opened Replication
  import opened Records
  import opened Refinement
  import opened Loss
  import opened Multipart

  /** No object of the map, and no put in flight, is at one of these paths. */
  ghost predicate NotKeys(s: Sys, sp: Spec, paths: seq<string>) {
    forall x :: x in paths ==> x !in sp.objects && forall t :: t in s.flights ==> s.flights[t].key != x
  }

  lemma {:induction false} RemoveAllMirrors(cfg: Config, s: Sys, sp: Spec, p: StoreId, paths: seq<string>,
                                            stuck: set<string>)
    requires Mirrors(cfg, s, sp)
    requires NotKeys(s, sp, paths)
    ensures Mirrors(cfg, s.(w := s.w.(disk := RemoveAll(s.w.disk, p, paths, stuck))), sp)
    decreases |paths|
  {
    if paths == [] {
      assert s.(w := s.w.(disk := s.w.disk)) == s;
    } else {
      var init, last := paths[..|paths| - 1], paths[|paths| - 1];
      assert last in paths && forall x :: x in init ==> x in paths;
      RemoveAllMirrors(cfg, s, sp, p, init, stuck);
      var s1 := s.(w := s.w.(disk := RemoveAll(s.w.disk, p, init, stuck)));
      if last !in stuck { WriteRefines(cfg, s1, sp, last, Write(s1.w.disk, p, last, None)); }
    }
  }

  /** The puts in flight whose blob is not among these. */
  function Live(flights: map<Token, Flight>, gone: set<Id>): map<Token, Flight> {
    map t | t in flights && flights[t].blob !in gone :: flights[t]
  }

  // -------------------------------------------------------------------------- abort

  /** A ready blob at the key was created by the user. */
  predicate OwnReady(db: DB, key: string, user: string) {
    exists b :: b in db.blobs && db.blobs[b].ready && db.blobs[b].objectKey == key && db.blobs[b].createdBy == user
  }

  /** The map after aborting an upload of `user` with a request for `key`. */
  function AbortSpec(db: DB, sp: Spec, key: string, user: string): Spec {
    if OwnReady(db, key, user) then Without(sp, key) else sp
  }

  lemma LiveRefines(cfg: Config, s: Sys, sp: Spec, gone: set<Id>)
    requires Refines(cfg, s, sp)
    ensures Refines(cfg, s.(flights := Live(s.flights, gone)), sp)
  {
  }

  /** Dropping blobs that are not ready does not show. */
  lemma DropPendingRefines(cfg: Config, s: Sys, sp: Spec, gone: set<Id>)
    requires Refines(cfg, s, sp)
    requires forall b :: b in gone && b in s.w.db.blobs ==> !s.w.db.blobs[b].ready
    requires forall t :: t in s.flights ==> s.flights[t].blob !in gone
    ensures Refines(cfg, s.(w := s.w.(db := Drop(s.w.db, gone))), sp)
  {
    var d := Drop(s.w.db, gone);
    forall k | k in sp.objects ensures exists b :: b in d.blobs && d.blobs[b].ready && d.blobs[b].objectKey == k {
      var b :| b in s.w.db.blobs && s.w.db.blobs[b].ready && s.w.db.blobs[b].objectKey == k;
      assert b in d.blobs && d.blobs[b] == s.w.db.blobs[b];
    }
  }

  /** The blobs the lookup can find are those at the key by the user. */
  lemma ReservedAre(db: DB, key: string, user: string)
    requires BlobsHaveFiles(db)
    ensures forall b :: b in ReservedBlobs(db, key, user)
                        <==> b in db.blobs && db.blobs[b].objectKey == key && db.blobs[b].createdBy == user
  {
    forall b | b in db.blobs && db.blobs[b].objectKey == key && db.blobs[b].createdBy == user
      ensures b in ReservedBlobs(db, key, user)
    {
      assert HasFile(db, b);
    }
  }

  lemma DropReservedRefines(cfg: Config, s: Sys, sp: Spec, key: string, user: string, gone: set<Id>)
    requires Refines(cfg, s, sp) && KeysUnique(s.w.db) && BlobsHaveFiles(s.w.db)
    requires gone == ReservedBlobs(s.w.db, key, user) && forall t :: t in s.flights ==> s.flights[t].blob !in gone
    ensures Refines(cfg, s.(w := s.w.(db := Drop(s.w.db, gone))), AbortSpec(s.w.db, sp, key, user))
  {
    ReservedAre(s.w.db, key, user);
    if OwnReady(s.w.db, key, user) {
      DropRefines(cfg, s, sp, key, gone);
    } else {
      DropPendingRefines(cfg, s, sp, gone);
    }
  }

  /** Aborting an upload changes the gateway's map exactly when a ready blob at
      the requested key was created by the upload's user, and then removes that
      key. The puts whose rows it removed are overtaken; the others go on. */
  lemma AbortOnTheMap(cfg: Config, s: Sys, sp: Spec, p: StoreId, key: string, user: string, paths: seq<string>,
                      stuck: set<string>)
    requires Mirrors(cfg, s, sp) && NotKeys(s, sp, paths)
    ensures var gone := ReservedBlobs(s.w.db, key, user);
            var w := World(Drop(s.w.db, gone), RemoveAll(s.w.disk, p, paths, stuck));
            && SysInv(s.(w := w)) && Mirrors(cfg, Sys(w, Live(s.flights, gone)), AbortSpec(s.w.db, sp, key, user))
    ensures AbortSpec(s.w.db, sp, key, user) == sp <==> !OwnReady(s.w.db, key, user)
  {
    var gone := ReservedBlobs(s.w.db, key, user);
    var s1 := s.(flights := Live(s.flights, gone));
    LiveRefines(cfg, s, sp, gone);
    DropReservedRefines(cfg, s1, sp, key, user, gone);
    DropFits(s, gone);
    var s2 := s1.(w := s1.w.(db := Drop(s.w.db, gone)));
    RemoveAllMirrors(cfg, s2, AbortSpec(s.w.db, sp, key, user), p, paths, stuck);
    if OwnReady(s.w.db, key, user) { assert key in sp.objects; }
  }

  /** Another upload keeps its reservation through an abort exactly unless it
      is for the requested key by the same user. */
  lemma AbortKeepsReservationIff(db: DB, key: string, user: string, key2: string, user2: string)
    ensures HasReservation(Drop(db, ReservedBlobs(db, key, user)), key2, user2)
            <==> HasReservation(db, key2, user2) && !(key2 == key && user2 == user)
  {
    var d := Drop(db, ReservedBlobs(db, key, user));
    if HasReservation(db, key2, user2) && !(key2 == key && user2 == user) {
      var f, b :| Reserved(db, key2, user2, f, b);
      assert Reserved(d, key2, user2, f, b);
    }
    if HasReservation(d, key2, user2) {
      var f, b :| Reserved(d, key2, user2, f, b);
      assert Reserved(db, key2, user2, f, b);
    }
  }

  /** So of two uploads by one user on one key, aborting either leaves the other
      without a reservation: completing it can then only fail. */
  lemma AbortTakesSharedReservation(db: DB, a: Put, b: Put)
    requires a.key == b.key && a.user == b.user
    ensures var d := CreatePending(CreatePending(db, a.user, a.folder, a.name, a.key), b.user, b.folder, b.name, b.key);
            && HasReservation(d, b.key, b.user)
            && !HasReservation(Drop(d, ReservedBlobs(d, a.key, a.user)), b.key, b.user)
  {
    var c := CreatePending(db, a.user, a.folder, a.name, a.key);
    var d := CreatePending(c, b.user, b.folder, b.name, b.key);
    assert Reserved(d, b.key, b.user, c.next + 1, c.next);
    AbortKeepsReservationIff(d, a.key, a.user, b.key, b.user);
  }

  lemma FinishKeepsOwner(cfg: Config, s: Sys, t: Token, faults: Faults)
    requires SysInv(s) && t in s.flights && s.flights[t].blob in s.w.db.blobs
    ensures var fl := s.flights[t]; var r := FinishRows(cfg, s.w, fl, faults);
            r.Some? ==> fl.blob in r.value.db.blobs
                        && r.value.db.blobs[fl.blob].createdBy == s.w.db.blobs[fl.blob].createdBy
  {
    var fl := s.flights[t];
    var marked := MarkReady(s.w.db, fl.file, fl.blob, fl.store, fl.key);
    MarkKeepsMatch(s.w.db, fl);
    MarkKeepsOwner(s.w.db, fl);
    if marked.Some? && cfg.replicate { SyncAddsOnlyCopies(cfg, World(marked.value, s.w.disk), fl.file, faults); }
  }

  lemma MarkKeepsOwner(db: DB, fl: Flight)
    requires fl.blob in db.blobs
    ensures var r := MarkReady(db, fl.file, fl.blob, fl.store, fl.key);
            r.Some? ==> fl.blob in r.value.blobs && r.value.blobs[fl.blob].createdBy == db.blobs[fl.blob].createdBy
  {
  }

  /** A finished put has left a ready blob of its user at its key. */
  lemma FinishedIsOwn(cfg: Config, s: Sys, t: Token, faults: Faults, user: string)
    requires SysInv(s) && Accepts(cfg, s, Finish(t, faults, true)) && Succeeds(cfg, s, t, faults, true)
    requires s.flights[t].blob in s.w.db.blobs && s.w.db.blobs[s.flights[t].blob].createdBy == user
    ensures OwnReady(Next(cfg, s, Finish(t, faults, true)).w.db, s.flights[t].key, user)
  {
    FinishLocates(cfg, s, t, faults);
    FinishKeepsOwner(cfg, s, t, faults);
  }

  lemma StoredIsOwn(cfg: Config, s: Sys, t: Token, put: Put, deletes: bool)
    requires SysInv(s) && Accepts(cfg, s, GatewayBegin(t, put, deletes, true))
    ensures var s2 := Next(cfg, Next(cfg, s, GatewayBegin(t, put, deletes, true)), StoreObject(t));
            && SysInv(s2) && t in s2.flights && s2.flights[t].key == put.key && s2.flights[t].blob in s2.w.db.blobs
            && s2.w.db.blobs[s2.flights[t].blob].createdBy == put.user
  {
    StepKeepsInv(cfg, s, GatewayBegin(t, put, deletes, true));
    StepKeepsInv(cfg, Next(cfg, s, GatewayBegin(t, put, deletes, true)), StoreObject(t));
  }

  /** And a put that went through is undone by aborting any upload of its user
      with a request for its key. */
  lemma AbortUndoesPut(cfg: Config, s: Sys, sp: Spec, t: Token, put: Put, deletes: bool, faults: Faults)
    requires ValidConfig(cfg) && SysInv(s) && Refines(cfg, s, sp) && !NameHeldElsewhere(s.w.db, put)
    requires Accepts(cfg, s, GatewayBegin(t, put, deletes, true)) && Serial(s, GatewayBegin(t, put, deletes, true))
    ensures var s2 := Next(cfg, Next(cfg, s, GatewayBegin(t, put, deletes, true)), StoreObject(t));
            && Accepts(cfg, s2, Finish(t, faults, true)) && Succeeds(cfg, s2, t, faults, true)
            && var db := Next(cfg, s2, Finish(t, faults, true)).w.db;
               OwnReady(db, put.key, put.user) && ReadyAt(Drop(db, ReservedBlobs(db, put.key, put.user)), put.key) == {}
  {
    var s1 := Next(cfg, s, GatewayBegin(t, put, deletes, true));
    var s2 := Next(cfg, s1, StoreObject(t));
    PutSucceedsIff(cfg, s, sp, t, put, deletes, faults);
    StoredIsOwn(cfg, s, t, put, deletes);
    FinishedIsOwn(cfg, s2, t, faults, put.user);
    StepKeepsInv(cfg, s2, Finish(t, faults, true));
    OwnGoes(Next(cfg, s2, Finish(t, faults, true)).w.db, put.key, put.user);
  }

  lemma OwnGoes(db: DB, key: string, user: string)
    requires KeysUnique(db) && FilesMatchBlobs(db) && BlobsHaveFiles(db) && OwnReady(db, key, user)
    ensures ReadyAt(Drop(db, ReservedBlobs(db, key, user)), key) == {}
  {
    ReservedAre(db, key, user);
    var b :| b in db.blobs && db.blobs[b].ready && db.blobs[b].objectKey == key && db.blobs[b].createdBy == user;
    assert b in ReservedBlobs(db, key, user);
  }

  // --------------------------------------------------------------------- completion

  /** Completing an upload keeps every upload's reservation, its own included. */
  lemma CompletionKeepsReservations(cfg: Config, w: World, fl: Flight, faults: Faults, key: string, user: string)
    requires FilesMatchBlobs(w.db) && fl.blob in w.db.blobs
    requires Reserved(w.db, fl.key, w.db.blobs[fl.blob].createdBy, fl.file, fl.blob)
    ensures var r := FinishRows(cfg, w, fl, faults);
            r.Some? ==> (HasReservation(r.value.db, key, user) <==> HasReservation(w.db, key, user))
  {
    var r := FinishRows(cfg, w, fl, faults);
    if r.Some? {
      var d := MarkReady(w.db, fl.file, fl.blob, fl.store, fl.key).value;
      MarkKeepsReservations(w.db, fl, key, user, d);
      if cfg.replicate { SyncAddsOnlyCopies(cfg, World(d, w.disk), fl.file, faults); }
      SameRowsReserve(d, r.value.db, key, user);
    }
  }

  lemma SameRowsReserve(db: DB, d: DB, key: string, user: string)
    requires d.files == db.files && d.blobs == db.blobs
    ensures HasReservation(d, key, user) <==> HasReservation(db, key, user)
  {
    forall f, b ensures Reserved(d, key, user, f, b) <==> Reserved(db, key, user, f, b) {}
  }

  lemma MarkKeepsReservations(db: DB, fl: Flight, key: string, user: string, d: DB)
    requires FilesMatchBlobs(db) && fl.blob in db.blobs
    requires Reserved(db, fl.key, db.blobs[fl.blob].createdBy, fl.file, fl.blob)
    requires MarkReady(db, fl.file, fl.blob, fl.store, fl.key) == Some(d)
    ensures FilesMatchBlobs(d) && (HasReservation(d, key, user) <==> HasReservation(db, key, user))
  {
    forall f, b ensures Reserved(d, key, user, f, b) <==> Reserved(db, key, user, f, b) {}
  }

  /** A put in flight that has stored nothing yet may still choose its bytes. */
  lemma ChooseData(cfg: Config, s: Sys, sp: Spec, t: Token, data: Bytes)
    requires Mirrors(cfg, s, sp) && t in s.flights && !s.flights[t].stored
    ensures Mirrors(cfg, s.(flights := s.flights[t := s.flights[t].(data := data)]), sp)
  {
    ChosenFits(s, t, data);
    ChosenLives(cfg, s, t, data);
  }

  lemma ChosenFits(s: Sys, t: Token, data: Bytes)
    requires FlightsFit(s) && t in s.flights
    ensures FlightsFit(s.(flights := s.flights[t := s.flights[t].(data := data)]))
  {
  }

  lemma ChosenLives(cfg: Config, s: Sys, t: Token, data: Bytes)
    requires FlightsLive(cfg, s) && t in s.flights && !s.flights[t].stored
    ensures FlightsLive(cfg, s.(flights := s.flights[t := s.flights[t].(data := data)]))
  {
  }

  lemma FinishMirrors(cfg: Config, s: Sys, sp: Spec, t: Token, faults: Faults, w: World)
    requires ValidConfig(cfg) && Mirrors(cfg, s, sp) && t in s.flights && s.flights[t].stored
    requires FinishRows(cfg, s.w, s.flights[t], faults) == Some(w)
    ensures Mirrors(cfg, Sys(w, s.flights - {t}), With(sp, s.flights[t].key, s.flights[t].data))
  {
    StepMirrors(cfg, s, sp, Finish(t, faults, true));
  }

  lemma StoreMirrors(cfg: Config, s1: Sys, sp: Spec, t: Token, s2: Sys)
    requires ValidConfig(cfg) && Mirrors(cfg, s1, sp) && t in s1.flights && !s1.flights[t].stored
    requires s2 == Next(cfg, s1, StoreObject(t))
    ensures Mirrors(cfg, s2, sp)
  {
    StepMirrors(cfg, s1, sp, StoreObject(t));
  }

  /** The state after the final upload, seen as phase 2 of the reserved put. */
  function FinalUpload(s: Sys, t: Token, data: Bytes): Sys
    requires t in s.flights
  {
    var fl := s.flights[t].(data := data, stored := true);
    Sys(World(s.w.db, Write(s.w.disk, fl.store, fl.key, Some(data))), s.flights[t := fl])
  }

  lemma FinalUploadMirrors(cfg: Config, s: Sys, s1: Sys, sp: Spec, t: Token, data: Bytes)
    requires ValidConfig(cfg) && Mirrors(cfg, s, sp) && t in s.flights && !s.flights[t].stored
    requires s1 == s.(flights := s.flights[t := s.flights[t].(data := data)])
    ensures Mirrors(cfg, FinalUpload(s, t, data), sp)
  {
    ChooseData(cfg, s, sp, t, data);
    StoreMirrors(cfg, s1, sp, t, Next(cfg, s1, StoreObject(t)));
    FinalUploadIsStore(cfg, s, s1, t, data);
  }

  lemma FinalUploadIsStore(cfg: Config, s: Sys, s1: Sys, t: Token, data: Bytes)
    requires t in s.flights && !s.flights[t].stored
    requires s1 == s.(flights := s.flights[t := s.flights[t].(data := data)])
    ensures FinalUpload(s, t, data) == Next(cfg, s1, StoreObject(t))
  {
    assert FinalUpload(s, t, data).flights == Next(cfg, s1, StoreObject(t)).flights;
  }

  lemma FinalStepsMirror(cfg: Config, s2: Sys, s3: Sys, sp: Spec, t: Token, paths: seq<string>, stuck: set<string>,
                         faults: Faults, w: World)
    requires ValidConfig(cfg) && Mirrors(cfg, s2, sp) && t in s2.flights && s2.flights[t].stored
    requires NotKeys(s2, sp, paths)
    requires s3 == s2.(w := s2.w.(disk := RemoveAll(s2.w.disk, s2.flights[t].store, paths, stuck)))
    requires FinishRows(cfg, s3.w, s2.flights[t], faults) == Some(w)
    ensures Mirrors(cfg, Sys(w, s2.flights - {t}), With(sp, s2.flights[t].key, s2.flights[t].data))
  {
    RemoveAllMirrors(cfg, s2, sp, s2.flights[t].store, paths, stuck);
    FinishMirrors(cfg, s3, sp, t, faults, w);
  }

  lemma CompletionSteps(cfg: Config, s: Sys, s2: Sys, sp: Spec, t: Token, paths: seq<string>, stuck: set<string>,
                        fl: Flight, faults: Faults, w: World)
    requires ValidConfig(cfg) && Mirrors(cfg, s, sp) && t in s.flights && !s.flights[t].stored
    requires fl == s.flights[t].(data := fl.data, stored := true) && s2 == FinalUpload(s, t, fl.data)
    requires NotKeys(s, sp, paths)
    requires FinishRows(cfg, World(s.w.db, RemoveAll(s2.w.disk, fl.store, paths, stuck)), fl, faults) == Some(w)
    ensures Mirrors(cfg, Sys(w, s.flights - {t}), With(sp, fl.key, fl.data))
  {
    FinalUploadMirrors(cfg, s, s.(flights := s.flights[t := s.flights[t].(data := fl.data)]), sp, t, fl.data);
    FlightsAfterFinal(s, s2, t, fl);
    FinalStepsMirror(cfg, s2, s2.(w := s2.w.(disk := RemoveAll(s2.w.disk, fl.store, paths, stuck))), sp, t, paths,
                     stuck, faults, w);
  }

  lemma FlightsAfterFinal(s: Sys, s2: Sys, t: Token, fl: Flight)
    requires t in s.flights && s2.flights == s.flights[t := fl]
    ensures s2.flights[t] == fl && s2.flights - {t} == s.flights - {t}
  {
  }

  /** A pending reservation nobody has in flight is as good as a put in flight. */
  lemma PendingIsFlight(cfg: Config, s: Sys, sp: Spec, t: Token, fl: Flight)
    requires Mirrors(cfg, s, sp) && t !in s.flights && !fl.stored && Primary(cfg) == Some(fl.store)
    requires fl.file in s.w.db.files && s.w.db.files[fl.file].blobId == fl.blob
    requires s.w.db.blobs[fl.blob].objectKey == fl.key && !s.w.db.blobs[fl.blob].ready
    ensures Mirrors(cfg, s.(flights := Live(s.flights, {fl.blob})[t := fl]), sp)
  {
    PendingIsLive(cfg, s, t, fl);
  }

  lemma PendingIsLive(cfg: Config, s: Sys, t: Token, fl: Flight)
    requires FlightsLive(cfg, s) && FlightsFit(s) && KeysUnique(s.w.db) && RowIdsBelowNext(s.w.db)
    requires t !in s.flights && !fl.stored && Primary(cfg) == Some(fl.store)
    requires fl.file in s.w.db.files && s.w.db.files[fl.file].blobId == fl.blob && fl.blob in s.w.db.blobs
    requires s.w.db.blobs[fl.blob].objectKey == fl.key && !s.w.db.blobs[fl.blob].ready
    ensures var s1 := s.(flights := Live(s.flights, {fl.blob})[t := fl]); FlightsLive(cfg, s1) && FlightsFit(s1)
  {
    var live := Live(s.flights, {fl.blob});
    forall u | u in live ensures live[u].key != fl.key { assert live[u].blob in s.w.db.blobs; }
  }

  lemma TokenBound(tokens: set<Token>) returns (n: nat)
    ensures forall t :: t in tokens ==> t < n
  {
    if tokens == {} { return 0; }
    var t :| t in tokens;
    var m := TokenBound(tokens - {t});
    n := if t < m then m else t + 1;
    assert forall u :: u in tokens ==> u == t || u in tokens - {t};
  }

  lemma CompletedLookup(disk: Disk, p: StoreId, key: string, data: Bytes, paths: seq<string>, stuck: set<string>,
                        st: StoreId, k: string)
    requires key !in paths && k !in paths
    ensures Lookup(CompletedDisk(disk, p, key, data, paths, stuck), st, k)
         == if st == p && k == key then Some(data) else Lookup(disk, st, k)
  {
    RemoveAllRemoves(Write(disk, p, key, Some(data)), p, paths, stuck, st, k);
  }

  /** The request completes blob b, found at the key, with these bytes. */
  ghost predicate Completing(cfg: Config, s: Sys, sp: Spec, fl: Flight, paths: seq<string>, stuck: set<string>,
                             faults: Faults, w: World) {
    && NotKeys(s, sp, paths) && fl.key !in paths && fl.stored && Primary(cfg) == Some(fl.store)
    && fl.file in s.w.db.files && s.w.db.files[fl.file].blobId == fl.blob
    && fl.blob in s.w.db.blobs && s.w.db.blobs[fl.blob].objectKey == fl.key
    && FinishRows(cfg, World(s.w.db, CompletedDisk(s.w.disk, fl.store, fl.key, fl.data, paths, stuck)), fl, faults)
       == Some(w)
  }

  /** No store but the one written holds other bytes of the blob. */
  ghost predicate CopiesAgree(w: World, fl: Flight) {
    forall l :: l in w.db.locs && l.0 == fl.blob && l.1 != fl.store ==> Lookup(w.disk, l.1, fl.key) == Some(fl.data)
  }

  lemma PendingCompletion(cfg: Config, s: Sys, sp: Spec, fl: Flight, paths: seq<string>, stuck: set<string>,
                          faults: Faults, w: World)
    requires ValidConfig(cfg) && Mirrors(cfg, s, sp) && Completing(cfg, s, sp, fl, paths, stuck, faults, w)
    requires !s.w.db.blobs[fl.blob].ready
    ensures CopiesAgree(s.w, fl) && Mirrors(cfg, Sys(w, Live(s.flights, {fl.blob})), With(sp, fl.key, fl.data))
  {
    var t, s1 := AsFlight(cfg, s, sp, fl, paths);
    PendingSteps(cfg, s1, sp, t, fl, paths, stuck, faults, w);
    NothingPendingIsLocated(cfg, s.w.db, fl.blob);
  }

  lemma AsFlight(cfg: Config, s: Sys, sp: Spec, fl: Flight, paths: seq<string>) returns (t: Token, s1: Sys)
    requires Mirrors(cfg, s, sp) && NotKeys(s, sp, paths) && fl.key !in paths && Primary(cfg) == Some(fl.store)
    requires fl.file in s.w.db.files && s.w.db.files[fl.file].blobId == fl.blob
    requires s.w.db.blobs[fl.blob].objectKey == fl.key && !s.w.db.blobs[fl.blob].ready
    ensures Mirrors(cfg, s1, sp) && NotKeys(s1, sp, paths) && s1.w == s.w && t in s1.flights
    ensures s1.flights[t] == fl.(stored := false) && s1.flights - {t} == Live(s.flights, {fl.blob})
  {
    t := TokenBound(s.flights.Keys);
    assert t !in s.flights.Keys;
    s1 := s.(flights := Live(s.flights, {fl.blob})[t := fl.(stored := false)]);
    PendingIsFlight(cfg, s, sp, t, fl.(stored := false));
    StillNotKeys(s, sp, paths, t, fl.(stored := false));
  }

  lemma PendingSteps(cfg: Config, s1: Sys, sp: Spec, t: Token, fl: Flight, paths: seq<string>, stuck: set<string>,
                     faults: Faults, w: World)
    requires ValidConfig(cfg) && Mirrors(cfg, s1, sp) && NotKeys(s1, sp, paths)
    requires t in s1.flights && s1.flights[t] == fl.(stored := false) && fl.stored
    requires FinishRows(cfg, World(s1.w.db, CompletedDisk(s1.w.disk, fl.store, fl.key, fl.data, paths, stuck)), fl,
                        faults) == Some(w)
    ensures Mirrors(cfg, Sys(w, s1.flights - {t}), With(sp, fl.key, fl.data))
  {
    CompletionSteps(cfg, s1, FinalUpload(s1, t, fl.data), sp, t, paths, stuck, fl, faults, w);
  }

  lemma StillNotKeys(s: Sys, sp: Spec, paths: seq<string>, t: Token, fl: Flight)
    requires NotKeys(s, sp, paths) && fl.key !in paths
    ensures NotKeys(s.(flights := Live(s.flights, {fl.blob})[t := fl]), sp, paths)
  {
  }

  lemma NothingPendingIsLocated(cfg: Config, db: DB, b: Id)
    requires NoOrphans(cfg, db) && b in db.blobs && !db.blobs[b].ready
    ensures forall l :: l in db.locs ==> l.0 != b
  {
  }

  /** Marking a ready pair ready again at most adds a location on the store. */
  lemma MarkAgain(db: DB, f: Id, b: Id, p: StoreId, key: string)
    requires FilesMatchBlobs(db) && f in db.files && db.files[f].blobId == b && db.blobs[b].ready
             && db.blobs[b].objectKey == key
    ensures var r := MarkReady(db, f, b, p, key);
            r.Some? ==>
              r.value == db.(locs := if (b, p) in db.locs then db.locs else db.locs[(b, p) := Location(key, Available)])
  {
    assert db.files[f].(ready := true, storagePath := key) == db.files[f];
    assert db.files[f := db.files[f]] == db.files && db.blobs[b := db.blobs[b]] == db.blobs;
  }

  /** A key a client can see, or a put in flight writes. */
  ghost predicate InUse(s: Sys, sp: Spec, k: string) {
    k in sp.objects || exists t :: t in s.flights && s.flights[t].key == k
  }

  /** The objects in use are as before but for the one overwritten. */
  ghost predicate OverwritesOne(s: Sys, sp: Spec, fl: Flight, disk: Disk) {
    && Lookup(disk, fl.store, fl.key) == Some(fl.data)
    && forall st: StoreId, k: string :: InUse(s, sp, k) && (st != fl.store || k != fl.key) ==>
       Lookup(disk, st, k) == Lookup(s.w.disk, st, k)
  }

  lemma OverwriteKeepsCopies(cfg: Config, s: Sys, sp: Spec, fl: Flight, w1: World)
    requires KeysUnique(s.w.db) && CopiesHold(s.w, sp) && CopiesAgree(s.w, fl) && OverwritesOne(s, sp, fl, w1.disk)
    requires fl.blob in s.w.db.blobs && s.w.db.blobs[fl.blob].objectKey == fl.key && w1.db.blobs == s.w.db.blobs
    requires forall l :: l in w1.db.locs <==> l in s.w.db.locs || l == (fl.blob, fl.store)
    ensures CopiesHold(w1, With(sp, fl.key, fl.data))
  {
    var sp2 := With(sp, fl.key, fl.data);
    forall l | l in w1.db.locs && l.0 in w1.db.blobs
      ensures w1.db.blobs[l.0].objectKey in sp2.objects && CopyHolds(w1.disk, l.1, w1.db.blobs[l.0].objectKey, sp2)
    {
      var k := s.w.db.blobs[l.0].objectKey;
      if l != (fl.blob, fl.store) {
        assert k in sp.objects && CopyHolds(s.w.disk, l.1, k, sp);
        assert k == fl.key ==> l.0 == fl.blob;
        assert InUse(s, sp, k) && (l.1 != fl.store || k != fl.key);
        assert Lookup(w1.disk, l.1, k) == Lookup(s.w.disk, l.1, k);
      }
    }
  }

  lemma OverwriteKeepsFlights(cfg: Config, s: Sys, sp: Spec, fl: Flight, w1: World)
    requires FlightsLive(cfg, s) && OverwritesOne(s, sp, fl, w1.disk) && w1.db.blobs == s.w.db.blobs
    requires forall t :: t in s.flights ==> s.flights[t].key != fl.key
    ensures FlightsLive(cfg, s.(w := w1))
  {
    forall t | t in s.flights && s.flights[t].stored
      ensures Lookup(w1.disk, s.flights[t].store, s.flights[t].key) == Some(s.flights[t].data)
    {
      assert InUse(s, sp, s.flights[t].key);
    }
  }

  /** Overwriting a ready object on one store, when all other copies agree. */
  lemma OverwriteRefines(cfg: Config, s: Sys, sp: Spec, fl: Flight, w1: World)
    requires Mirrors(cfg, s, sp) && CopiesAgree(s.w, fl) && fl.store in StoreIds(cfg.stores)
             && OverwritesOne(s, sp, fl, w1.disk)
    requires fl.blob in s.w.db.blobs && s.w.db.blobs[fl.blob].ready && s.w.db.blobs[fl.blob].objectKey == fl.key
    requires w1.db == s.w.db.(locs := w1.db.locs)
    requires forall l :: l in w1.db.locs <==> l in s.w.db.locs || l == (fl.blob, fl.store)
    ensures Refines(cfg, s.(w := w1), With(sp, fl.key, fl.data))
  {
    forall t | t in s.flights ensures s.flights[t].key != fl.key { PendingKeyAbsent(cfg, s, sp, t); }
    OverwriteKeepsCopies(cfg, s, sp, fl, w1);
    OverwriteKeepsFlights(cfg, s, sp, fl, w1);
    OverwriteKeepsKeys(s.w.db, sp, fl, w1.db);
  }

  lemma OverwriteKeepsKeys(db: DB, sp: Spec, fl: Flight, d: DB)
    requires KeysMatch(db, sp) && d.blobs == db.blobs
    requires fl.blob in db.blobs && db.blobs[fl.blob].ready && db.blobs[fl.blob].objectKey == fl.key
    ensures KeysMatch(d, With(sp, fl.key, fl.data))
  {
  }

  /** What the fan-out adds keeps every other object and location. */
  lemma FanOutKeeps(cfg: Config, w1: World, f: Id, faults: Faults)
    requires FilesMatchBlobs(w1.db) && f in w1.db.files
    ensures var w2 := SyncFile(cfg, w1, f, None, faults).0;
            && w2.db == w1.db.(locs := w2.db.locs)
            && (forall l :: l in w1.db.locs ==> l in w2.db.locs)
            && (forall l :: l in w1.db.locs && l.0 == w1.db.files[f].blobId ==>
                  Lookup(w2.disk, l.1, w1.db.blobs[l.0].objectKey) == Lookup(w1.disk, l.1, w1.db.blobs[l.0].objectKey))
  {
    if w1.db.files[f].ready && Source(cfg, w1.db, f, None).Some? {
      var b := w1.db.files[f].blobId;
      var (src, path) := Source(cfg, w1.db, f, None).value;
      SyncTouchesOnlyCopies(w1, b, w1.db.blobs[b].objectKey, src, path, Targets(cfg.stores, src), faults);
      var w2 := SyncFile(cfg, w1, f, None, faults).0;
      forall l | l in w1.db.locs && l.0 == b
        ensures Lookup(w2.disk, l.1, w1.db.blobs[b].objectKey) == Lookup(w1.disk, l.1, w1.db.blobs[b].objectKey)
      {
        var place := (l.1, w1.db.blobs[b].objectKey);
        assert (b, place.0) == l;
        assert (place in w1.disk || place in w2.disk) ==>
               place in w1.disk && place in w2.disk && w2.disk[place] == w1.disk[place];
      }
    }
  }

  /** The world once the rows are marked and, in replicate mode, fanned out. */
  function FannedOut(cfg: Config, w1: World, fl: Flight, faults: Faults): World {
    if cfg.replicate then SyncFile(cfg, w1, fl.file, None, faults).0 else w1
  }

  lemma ReadyCompletion(cfg: Config, s: Sys, sp: Spec, fl: Flight, faults: Faults, w1: World)
    requires ValidConfig(cfg) && Mirrors(cfg, s, sp) && CopiesAgree(s.w, fl) && Primary(cfg) == Some(fl.store)
    requires fl.file in s.w.db.files && s.w.db.files[fl.file].blobId == fl.blob
    requires s.w.db.blobs[fl.blob].ready && s.w.db.blobs[fl.blob].objectKey == fl.key
    requires MarkReady(s.w.db, fl.file, fl.blob, fl.store, fl.key) == Some(w1.db)
    requires OverwritesOne(s, sp, fl, w1.disk)
    ensures Refines(cfg, s.(w := FannedOut(cfg, w1, fl, faults)), With(sp, fl.key, fl.data))
  {
    MarkAgainLocates(s.w.db, fl, w1.db);
    assert fl.store in StoreIds(cfg.stores);
    OverwriteRefines(cfg, s, sp, fl, w1);
    if cfg.replicate { OverwrittenSyncs(cfg, s, sp, fl, w1, faults); }
  }

  lemma MarkAgainLocates(db: DB, fl: Flight, d: DB)
    requires FilesMatchBlobs(db) && fl.file in db.files && db.files[fl.file].blobId == fl.blob
    requires db.blobs[fl.blob].ready && db.blobs[fl.blob].objectKey == fl.key
    requires MarkReady(db, fl.file, fl.blob, fl.store, fl.key) == Some(d)
    ensures d == db.(locs := d.locs) && forall l :: l in d.locs <==> l in db.locs || l == (fl.blob, fl.store)
  {
    MarkAgain(db, fl.file, fl.blob, fl.store, fl.key);
  }

  lemma CompletionOverwrites(s: Sys, sp: Spec, fl: Flight, paths: seq<string>, stuck: set<string>)
    requires NotKeys(s, sp, paths) && fl.key !in paths
    ensures OverwritesOne(s, sp, fl, CompletedDisk(s.w.disk, fl.store, fl.key, fl.data, paths, stuck))
  {
    var disk := CompletedDisk(s.w.disk, fl.store, fl.key, fl.data, paths, stuck);
    CompletedLookup(s.w.disk, fl.store, fl.key, fl.data, paths, stuck, fl.store, fl.key);
    forall st: StoreId, k: string | InUse(s, sp, k) && (st != fl.store || k != fl.key)
      ensures Lookup(disk, st, k) == Lookup(s.w.disk, st, k)
    {
      CompletedLookup(s.w.disk, fl.store, fl.key, fl.data, paths, stuck, st, k);
    }
  }

  lemma OverwrittenSyncs(cfg: Config, s: Sys, sp: Spec, fl: Flight, w1: World, faults: Faults)
    requires ValidConfig(cfg) && Mirrors(cfg, s, sp) && Primary(cfg) == Some(fl.store)
    requires Refines(cfg, s.(w := w1), With(sp, fl.key, fl.data)) && w1.db == s.w.db.(locs := w1.db.locs)
    requires fl.file in s.w.db.files && s.w.db.files[fl.file].blobId == fl.blob
    requires s.w.db.blobs[fl.blob].ready && s.w.db.blobs[fl.blob].objectKey == fl.key
    requires Lookup(w1.disk, fl.store, fl.key) == Some(fl.data)
    ensures Refines(cfg, s.(w := SyncFile(cfg, w1, fl.file, None, faults).0), With(sp, fl.key, fl.data))
  {
    forall t | t in s.flights ensures s.flights[t].key != fl.key { PendingKeyAbsent(cfg, s, sp, t); }
    SyncRefines(cfg, s.(w := w1), With(sp, fl.key, fl.data), fl.file, faults);
  }

  /** A copy that differs is still there afterwards. */
  lemma OldCopyStays(cfg: Config, s: Sys, sp: Spec, fl: Flight, paths: seq<string>, stuck: set<string>, faults: Faults,
                     w: World, st: StoreId)
    requires Mirrors(cfg, s, sp) && Completing(cfg, s, sp, fl, paths, stuck, faults, w)
    requires s.w.db.blobs[fl.blob].ready && (fl.blob, st) in s.w.db.locs && st != fl.store
    ensures (fl.blob, st) in w.db.locs && w.db == s.w.db.(locs := w.db.locs)
    ensures Lookup(w.disk, st, fl.key) == Lookup(s.w.disk, st, fl.key)
  {
    var w1 := World(MarkReady(s.w.db, fl.file, fl.blob, fl.store, fl.key).value,
                    CompletedDisk(s.w.disk, fl.store, fl.key, fl.data, paths, stuck));
    MarkAgain(s.w.db, fl.file, fl.blob, fl.store, fl.key);
    CompletedLookup(s.w.disk, fl.store, fl.key, fl.data, paths, stuck, st, fl.key);
    if cfg.replicate { FanOutKeeps(cfg, w1, fl.file, faults); }
  }

  lemma CompletionKeepsInv(cfg: Config, s: Sys, sp: Spec, fl: Flight, paths: seq<string>, stuck: set<string>,
                           faults: Faults, w: World)
    requires Mirrors(cfg, s, sp) && Completing(cfg, s, sp, fl, paths, stuck, faults, w)
    ensures SysInv(s.(w := w))
  {
    var marked := MarkReady(s.w.db, fl.file, fl.blob, fl.store, fl.key);
    MarkReadyKeepsInv(s.w.db, fl.file, fl.blob, fl.store, fl.key);
    MarkKeepsFits(s, fl, marked.value, CompletedDisk(s.w.disk, fl.store, fl.key, fl.data, paths, stuck));
    if cfg.replicate {
      SyncFits(cfg, World(marked.value, CompletedDisk(s.w.disk, fl.store, fl.key, fl.data, paths, stuck)), fl.file,
               faults, s.flights);
    }
  }

  lemma MarkKeepsFits(s: Sys, fl: Flight, d: DB, disk: Disk)
    requires SysInv(s) && MarkReady(s.w.db, fl.file, fl.blob, fl.store, fl.key) == Some(d)
    requires fl.file in s.w.db.files && s.w.db.files[fl.file].blobId == fl.blob
             && s.w.db.blobs[fl.blob].objectKey == fl.key
    ensures AllAvailable(d) && FlightsFit(s.(w := World(d, disk)))
  {
    assert FlightsFit(s.(w := World(d, disk))) by { MarkKeepsPairs(s.w.db, fl, d); }
  }

  lemma MarkKeepsPairs(db: DB, fl: Flight, d: DB)
    requires MarkReady(db, fl.file, fl.blob, fl.store, fl.key) == Some(d)
    requires fl.file in db.files && db.files[fl.file].blobId == fl.blob && fl.blob in db.blobs
    ensures d.next == db.next
    ensures forall f, b, path {:trigger PairOrGone(d, f, b, path)} :: PairOrGone(db, f, b, path) ==>
            PairOrGone(d, f, b, path)
  {
  }

  /** A completed upload sets its key in the gateway's map to the assembled
      bytes exactly when no other store holds different bytes of the blob it
      found. That is so whenever the blob was still reserved, whether or not the
      reservation was this upload's own; the puts it overtakes are on that key. */
  lemma CompletionPublishesIff(cfg: Config, s: Sys, sp: Spec, fl: Flight, paths: seq<string>, stuck: set<string>,
                               faults: Faults, w: World)
    requires ValidConfig(cfg) && Mirrors(cfg, s, sp) && Completing(cfg, s, sp, fl, paths, stuck, faults, w)
    ensures Mirrors(cfg, Sys(w, Live(s.flights, {fl.blob})), With(sp, fl.key, fl.data)) <==> CopiesAgree(s.w, fl)
    ensures !s.w.db.blobs[fl.blob].ready ==> CopiesAgree(s.w, fl)
  {
    if !s.w.db.blobs[fl.blob].ready {
      PendingCompletion(cfg, s, sp, fl, paths, stuck, faults, w);
    } else {
      NoFlightOfReady(cfg, s, fl.blob);
      CompletionKeepsInv(cfg, s, sp, fl, paths, stuck, faults, w);
      if CopiesAgree(s.w, fl) {
        var w1 := MarkedWorld(cfg, s, sp, fl, paths, stuck, faults, w);
        CompletionOverwrites(s, sp, fl, paths, stuck);
        ReadyCompletion(cfg, s, sp, fl, faults, w1);
      }
      if Refines(cfg, s.(w := w), With(sp, fl.key, fl.data)) {
        RefinedCopiesAgree(cfg, s, sp, fl, paths, stuck, faults, w);
      }
    }
  }

  lemma MarkedWorld(cfg: Config, s: Sys, sp: Spec, fl: Flight, paths: seq<string>, stuck: set<string>, faults: Faults,
                    w: World)
    returns (w1: World)
    requires Completing(cfg, s, sp, fl, paths, stuck, faults, w)
    ensures MarkReady(s.w.db, fl.file, fl.blob, fl.store, fl.key) == Some(w1.db) && w == FannedOut(cfg, w1, fl, faults)
    ensures w1.disk == CompletedDisk(s.w.disk, fl.store, fl.key, fl.data, paths, stuck)
  {
    w1 := World(MarkReady(s.w.db, fl.file, fl.blob, fl.store, fl.key).value,
                CompletedDisk(s.w.disk, fl.store, fl.key, fl.data, paths, stuck));
  }

  lemma NoFlightOfReady(cfg: Config, s: Sys, b: Id)
    requires FlightsLive(cfg, s) && b in s.w.db.blobs && s.w.db.blobs[b].ready
    ensures Live(s.flights, {b}) == s.flights
  {
  }

  lemma RefinedCopiesAgree(cfg: Config, s: Sys, sp: Spec, fl: Flight, paths: seq<string>, stuck: set<string>,
                           faults: Faults, w: World)
    requires Mirrors(cfg, s, sp) && Completing(cfg, s, sp, fl, paths, stuck, faults, w)
    requires s.w.db.blobs[fl.blob].ready && CopiesHold(w, With(sp, fl.key, fl.data))
    ensures CopiesAgree(s.w, fl)
  {
    forall l | l in s.w.db.locs && l.0 == fl.blob && l.1 != fl.store
      ensures Lookup(s.w.disk, l.1, fl.key) == Some(fl.data)
    {
      assert l == (fl.blob, l.1);
      OldCopyStays(cfg, s, sp, fl, paths, stuck, faults, w, l.1);
      assert CopyHolds(w.disk, l.1, fl.key, With(sp, fl.key, fl.data));
    }
  }

  /** When it is not so, a get can go on answering with the old bytes. */
  lemma CompletionLeavesOldCopy(cfg: Config, s: Sys, sp: Spec, fl: Flight, paths: seq<string>, stuck: set<string>,
                                faults: Faults, w: World, st: StoreId, bytes: Bytes)
    requires Mirrors(cfg, s, sp) && Completing(cfg, s, sp, fl, paths, stuck, faults, w)
    requires s.w.db.blobs[fl.blob].ready && (fl.blob, st) in s.w.db.locs && st != fl.store
    requires Lookup(s.w.disk, st, fl.key) == Some(bytes)
    ensures GetMay(cfg, w, fl.key, Some(bytes))
  {
    CompletionKeepsInv(cfg, s, sp, fl, paths, stuck, faults, w);
    OldCopyStays(cfg, s, sp, fl, paths, stuck, faults, w, st);
    assert (fl.blob, st).1 in StoreIds(cfg.stores);
    GetMayHere(cfg, w, fl.key, fl.blob, st);
  }
}
