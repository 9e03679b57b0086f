/** Puts that do not overlap on one key make tables and stores together one
    map from key to bytes; puts that do overlap can block a key for good. */
module Refinement {
  import opened Tables
  import opened Replication
  import opened Records

  /** The map the gateway promises. A key in `frail` has lost its copy on the
      primary to a phase 1 whose commit then failed: reading it may also miss. */
  datatype Spec = Spec(objects: map<string, Bytes>, frail: set<string>)

  const EMPTY_SPEC := Spec(map[], {})

  function Without(sp: Spec, key: string): Spec { Spec(sp.objects - {key}, sp.frail - {key}) }

  function With(sp: Spec, key: string, data: Bytes): Spec { Spec(sp.objects[key := data], sp.frail - {key}) }

  /** Phase 3 goes through and commits. */
  predicate Succeeds(cfg: Config, s: Sys, t: Token, faults: Faults, commits: bool)
    requires t in s.flights
  {
    commits && FinishRows(cfg, s.w, s.flights[t], faults).Some?
  }

  /** The ready blob at the key has a location on the primary. */
  predicate PrimaryHolds(cfg: Config, db: DB, key: string) {
    && Primary(cfg).Some?
    && exists b ::
       b in db.blobs && db.blobs[b].ready && db.blobs[b].objectKey == key && (b, Primary(cfg).value) in db.locs
  }

  /** A put removes its key in phase 1 and sets it in phase 3; one that fails
      between leaves the key absent, and one whose phase 1 fails leaves it
      unchanged, but frail if the old object was already removed. */
  function SpecNext(cfg: Config, sp: Spec, s: Sys, step: Step): Spec {
    if !Accepts(cfg, s, step) then sp
    else match step
      case GatewayBegin(_, put, deletes, commits) =>
        if commits then Without(sp, put.key)
        else if deletes && PrimaryHolds(cfg, s.w.db, put.key) then sp.(frail := sp.frail + {put.key})
        else sp
      case UploadBegin(_, put, _) => Without(sp, put.key)
      case Finish(t, faults, commits) =>
        if Succeeds(cfg, s, t, faults, commits) then With(sp, s.flights[t].key, s.flights[t].data) else sp
      case Delete(key) => Without(sp, key)
      case _ => sp
  }

  /** No put begins on a key while another put on that key is in flight. */
  predicate Serial(s: Sys, step: Step) {
    match step
    case GatewayBegin(_, put, _, _) => forall t :: t in s.flights ==> s.flights[t].key != put.key
    case UploadBegin(_, put, _) => forall t :: t in s.flights ==> s.flights[t].key != put.key
    case _ => true
  }

  predicate SerialRun(cfg: Config, s: Sys, steps: seq<Step>)
    decreases |steps|
  {
    steps == [] ||
    (SerialRun(cfg, s, steps[..|steps| - 1]) && Serial(Run(cfg, s, steps[..|steps| - 1]), steps[|steps| - 1]))
  }

  function SpecRun(cfg: Config, steps: seq<Step>): Spec
    decreases |steps|
  {
    if steps == [] then EMPTY_SPEC
    else
      var init := steps[..|steps| - 1];
      SpecNext(cfg, SpecRun(cfg, init), Run(cfg, EMPTY_SYS, init), steps[|steps| - 1])
  }

  // -------------------------------------------------------- the refinement relation

  /** Only ready blobs have locations, all on stores of the workspace. */
  ghost predicate NoOrphans(cfg: Config, db: DB) {
    forall l :: l in db.locs ==> l.0 in db.blobs && db.blobs[l.0].ready && l.1 in StoreIds(cfg.stores)
  }

  /** A put in flight is alone on its key, its rows are alive and pending, and
      what it has stored is still there. */
  ghost predicate FlightsLive(cfg: Config, s: Sys) {
    && (forall t :: t in s.flights ==>
          && s.flights[t].blob in s.w.db.blobs && !s.w.db.blobs[s.flights[t].blob].ready
          && s.flights[t].store in StoreIds(cfg.stores) && (cfg.replicate ==> Primary(cfg) == Some(s.flights[t].store))
          && (s.flights[t].stored ==>
              Lookup(s.w.disk, s.flights[t].store, s.flights[t].key) == Some(s.flights[t].data)))
    && (forall t, u :: t in s.flights && u in s.flights && s.flights[t].key == s.flights[u].key ==> t == u)
  }

  ghost predicate CopyHolds(disk: Disk, s: StoreId, key: string, sp: Spec)
    requires key in sp.objects
  {
    if (s, key) in disk then disk[(s, key)] == sp.objects[key] else key in sp.frail
  }

  /** Every location's object is the key's bytes (or, on a frail key, missing). */
  ghost predicate CopiesHold(w: World, sp: Spec) {
    forall l :: l in w.db.locs && l.0 in w.db.blobs ==>
      w.db.blobs[l.0].objectKey in sp.objects && CopyHolds(w.disk, l.1, w.db.blobs[l.0].objectKey, sp)
  }

  /** The map has exactly the keys of ready blobs. */
  ghost predicate KeysMatch(db: DB, sp: Spec) {
    && (forall b :: b in db.blobs && db.blobs[b].ready ==> db.blobs[b].objectKey in sp.objects)
    && (forall key :: key in sp.objects ==>
        exists b :: b in db.blobs && db.blobs[b].ready && db.blobs[b].objectKey == key)
    && sp.frail <= sp.objects.Keys
  }

  ghost predicate Refines(cfg: Config, s: Sys, sp: Spec) {
    NoOrphans(cfg, s.w.db) && FlightsLive(cfg, s) && CopiesHold(s.w, sp) && KeysMatch(s.w.db, sp)
  }

  // ----------------------------------------------------------------- step by step

  lemma DropRefines(cfg: Config, s: Sys, sp: Spec, key: string, gone: set<Id>)
    requires Refines(cfg, s, sp)
    requires forall b :: b in s.w.db.blobs && s.w.db.blobs[b].ready ==>
             (b in gone <==> s.w.db.blobs[b].objectKey == key)
    requires forall t :: t in s.flights ==> s.flights[t].blob !in gone
    ensures Refines(cfg, s.(w := s.w.(db := Drop(s.w.db, gone))), Without(sp, key))
  {
    DropKeysMatch(s.w.db, sp, key, gone);
    forall l | l in s.w.db.locs && l.0 !in gone ensures s.w.db.blobs[l.0].objectKey != key {
      assert s.w.db.blobs[l.0].ready;
    }
  }

  lemma DropKeysMatch(db: DB, sp: Spec, key: string, gone: set<Id>)
    requires KeysMatch(db, sp)
    requires forall b :: b in db.blobs && db.blobs[b].ready ==> (b in gone <==> db.blobs[b].objectKey == key)
    ensures KeysMatch(Drop(db, gone), Without(sp, key))
  {
    var d, sp2 := Drop(db, gone), Without(sp, key);
    forall k | k in sp2.objects ensures exists b :: b in d.blobs && d.blobs[b].ready && d.blobs[b].objectKey == k {
      var b :| b in db.blobs && db.blobs[b].ready && db.blobs[b].objectKey == k;
      assert b in d.blobs && d.blobs[b] == db.blobs[b];
    }
  }

  /** Objects written at a key the map does not hold, with no put stored there,
      are invisible. */
  lemma WriteRefines(cfg: Config, s: Sys, sp: Spec, key: string, disk: Disk)
    requires Refines(cfg, s, sp) && key !in sp.objects
    requires forall t :: t in s.flights && s.flights[t].stored ==> s.flights[t].key != key
    requires forall st, k :: k != key ==> Lookup(disk, st, k) == Lookup(s.w.disk, st, k)
    ensures Refines(cfg, s.(w := World(s.w.db, disk)), sp)
  {
    forall l | l in s.w.db.locs && l.0 in s.w.db.blobs
      ensures CopyHolds(disk, l.1, s.w.db.blobs[l.0].objectKey, sp)
    {
      assert CopyHolds(s.w.disk, l.1, s.w.db.blobs[l.0].objectKey, sp);
      assert Lookup(disk, l.1, s.w.db.blobs[l.0].objectKey) == Lookup(s.w.disk, l.1, s.w.db.blobs[l.0].objectKey);
    }
  }

  lemma InsertRefines(cfg: Config, s: Sys, sp: Spec, t: Token, put: Put, store: StoreId)
    requires Refines(cfg, s, sp) && RowIdsBelowNext(s.w.db) && LocIdsBelowNext(s.w.db)
    requires forall u :: u in s.flights ==> s.flights[u].key != put.key
    requires store in StoreIds(cfg.stores) && (cfg.replicate ==> Primary(cfg) == Some(store))
    ensures Refines(cfg, Sys(s.w.(db := InsertPending(s.w.db, put.user, put.folder, put.name, put.key)),
                             s.flights[t := Flight(put.key, s.w.db.next + 1, s.w.db.next, store, put.data, false)]), sp)
  {
    InsertKeysMatch(s.w.db, sp, put);
    InsertCopiesHold(s.w, sp, put);
    InsertFlightsLive(cfg, s, t, put, store);
  }

  lemma InsertKeysMatch(db: DB, sp: Spec, put: Put)
    requires KeysMatch(db, sp) && RowIdsBelowNext(db)
    ensures KeysMatch(InsertPending(db, put.user, put.folder, put.name, put.key), sp)
  {
    var d := InsertPending(db, put.user, put.folder, put.name, put.key);
    forall k | k in sp.objects ensures exists b :: b in d.blobs && d.blobs[b].ready && d.blobs[b].objectKey == k {
      var b :| b in db.blobs && db.blobs[b].ready && db.blobs[b].objectKey == k;
      assert b in d.blobs && d.blobs[b] == db.blobs[b];
    }
  }

  lemma InsertCopiesHold(w: World, sp: Spec, put: Put)
    requires CopiesHold(w, sp) && LocIdsBelowNext(w.db)
    ensures CopiesHold(w.(db := InsertPending(w.db, put.user, put.folder, put.name, put.key)), sp)
  {
  }

  lemma InsertFlightsLive(cfg: Config, s: Sys, t: Token, put: Put, store: StoreId)
    requires FlightsLive(cfg, s) && RowIdsBelowNext(s.w.db)
    requires forall u :: u in s.flights ==> s.flights[u].key != put.key
    requires store in StoreIds(cfg.stores) && (cfg.replicate ==> Primary(cfg) == Some(store))
    ensures FlightsLive(cfg, Sys(s.w.(db := InsertPending(s.w.db, put.user, put.folder, put.name, put.key)),
                                 s.flights[t := Flight(put.key, s.w.db.next + 1, s.w.db.next, store, put.data, false)]))
  {
  }

  lemma ReserveRefines(cfg: Config, s: Sys, sp: Spec, t: Token, put: Put, store: StoreId)
    requires Refines(cfg, s, sp) && KeysUnique(s.w.db) && FlightsFit(s)
    requires RowIdsBelowNext(s.w.db) && LocIdsBelowNext(s.w.db)
    requires forall u :: u in s.flights ==> s.flights[u].key != put.key
    requires store in StoreIds(cfg.stores) && (cfg.replicate ==> Primary(cfg) == Some(store))
    ensures Refines(cfg, Reserve(s, t, put, store), Without(sp, put.key))
  {
    DropRefines(cfg, s, sp, put.key, BlobsAt(s.w.db, put.key));
    InsertRefines(cfg, s.(w := s.w.(db := DropKey(s.w.db, put.key))), Without(sp, put.key), t, put, store);
  }

  /** With no overlapping put, only a ready file of the same folder and name
      can stop phase 3. */
  lemma MarkSucceedsIff(cfg: Config, s: Sys, t: Token)
    requires NoOrphans(cfg, s.w.db) && FlightsLive(cfg, s) && KeysUnique(s.w.db) && LocsAtKey(s.w.db) && FlightsFit(s)
    requires t in s.flights
    ensures var fl := s.flights[t];
            MarkReady(s.w.db, fl.file, fl.blob, fl.store, fl.key).Some? <==> !NameTaken(s.w.db, fl.file)
  {
    var fl := s.flights[t];
    assert !PathTaken(FlipReady(s.w.db, fl.file, fl.blob, fl.key), fl.blob, fl.store, fl.key);
  }

  lemma MarkRefines(cfg: Config, s: Sys, sp: Spec, t: Token)
    requires Refines(cfg, s, sp) && KeysUnique(s.w.db) && FlightsFit(s)
    requires t in s.flights && s.flights[t].stored
    ensures var fl := s.flights[t];
            var marked := MarkReady(s.w.db, fl.file, fl.blob, fl.store, fl.key);
            marked.Some? ==>
                Refines(cfg, Sys(World(marked.value, s.w.disk), s.flights - {t}), With(sp, fl.key, fl.data))
  {
    var fl := s.flights[t];
    var marked := MarkReady(s.w.db, fl.file, fl.blob, fl.store, fl.key);
    if marked.Some? {
      MarkKeysMatch(s.w.db, marked.value, sp, fl);
      MarkCopiesHold(cfg, s, sp, t, marked.value);
      MarkFlightsLive(cfg, s, t, marked.value);
      MarkKeepsOrphansOut(cfg, s, t, marked.value);
    }
  }

  lemma MarkKeepsOrphansOut(cfg: Config, s: Sys, t: Token, d: DB)
    requires NoOrphans(cfg, s.w.db) && FlightsLive(cfg, s) && t in s.flights
    requires MarkReady(s.w.db, s.flights[t].file, s.flights[t].blob, s.flights[t].store, s.flights[t].key) == Some(d)
    ensures NoOrphans(cfg, d)
  {
    var fl := s.flights[t];
    forall l | l in d.locs ensures l.0 in d.blobs && d.blobs[l.0].ready && l.1 in StoreIds(cfg.stores) {
      if l != (fl.blob, fl.store) { assert l in s.w.db.locs; }
    }
  }

  lemma MarkFlightsLive(cfg: Config, s: Sys, t: Token, d: DB)
    requires FlightsLive(cfg, s) && FlightsFit(s) && t in s.flights
    requires d.blobs == s.w.db.blobs[s.flights[t].blob := s.w.db.blobs[s.flights[t].blob].(ready := true)]
    ensures FlightsLive(cfg, Sys(World(d, s.w.disk), s.flights - {t}))
  {
    forall u | u in s.flights && u != t ensures s.flights[u].blob != s.flights[t].blob {
      assert s.flights[u].key != s.flights[t].key;
    }
  }

  lemma MarkKeysMatch(db: DB, d: DB, sp: Spec, fl: Flight)
    requires KeysMatch(db, sp) && fl.blob in db.blobs && db.blobs[fl.blob].objectKey == fl.key
    requires d.blobs == db.blobs[fl.blob := db.blobs[fl.blob].(ready := true)]
    ensures KeysMatch(d, With(sp, fl.key, fl.data))
  {
    forall k | k in With(sp, fl.key, fl.data).objects
      ensures exists b :: b in d.blobs && d.blobs[b].ready && d.blobs[b].objectKey == k
    {
      if k == fl.key {
        assert d.blobs[fl.blob].ready;
      } else {
        var b :| b in db.blobs && db.blobs[b].ready && db.blobs[b].objectKey == k;
        assert b in d.blobs && d.blobs[b].ready && d.blobs[b].objectKey == k;
      }
    }
  }

  lemma MarkCopiesHold(cfg: Config, s: Sys, sp: Spec, t: Token, d: DB)
    requires NoOrphans(cfg, s.w.db) && CopiesHold(s.w, sp) && FlightsLive(cfg, s)
    requires KeysUnique(s.w.db) && FlightsFit(s) && t in s.flights && s.flights[t].stored
    requires MarkReady(s.w.db, s.flights[t].file, s.flights[t].blob, s.flights[t].store, s.flights[t].key) == Some(d)
    ensures CopiesHold(World(d, s.w.disk), With(sp, s.flights[t].key, s.flights[t].data))
  {
    var fl, db, w := s.flights[t], s.w.db, World(d, s.w.disk);
    forall l | l in d.locs && l.0 in d.blobs
      ensures d.blobs[l.0].objectKey in With(sp, fl.key, fl.data).objects
      ensures CopyHolds(w.disk, l.1, d.blobs[l.0].objectKey, With(sp, fl.key, fl.data))
    {
      if l != (fl.blob, fl.store) {
        assert l in db.locs && l.0 in db.blobs && l.0 != fl.blob;
        assert db.blobs[l.0].objectKey != fl.key;
        assert CopyHolds(w.disk, l.1, db.blobs[l.0].objectKey, sp);
      }
    }
  }

  /** Replicating a ready file copies the map's own bytes. */
  lemma SyncRefines(cfg: Config, s: Sys, sp: Spec, f: Id, faults: Faults)
    requires ValidConfig(cfg) && Refines(cfg, s, sp) && FilesMatchBlobs(s.w.db) && KeysUnique(s.w.db)
    requires f in s.w.db.files && s.w.db.files[f].ready && Primary(cfg).Some?
    requires forall t :: t in s.flights ==> s.flights[t].key != s.w.db.files[f].storagePath
    requires CopyHolds(s.w.disk, Primary(cfg).value, s.w.db.files[f].storagePath, sp)
    ensures Refines(cfg, s.(w := SyncFile(cfg, s.w, f, None, faults).0), sp)
  {
    SyncFileMakesCopies(cfg, s.w, f, faults);
    CopiesRefine(cfg, s, sp, s.w.db.files[f].blobId, Primary(cfg).value, Targets(cfg.stores, Primary(cfg).value),
                 SyncFile(cfg, s.w, f, None, faults).0);
  }

  lemma CopiesRefine(cfg: Config, s: Sys, sp: Spec, b: Id, src: StoreId, ts: seq<StoreId>, w1: World)
    requires Refines(cfg, s, sp) && KeysUnique(s.w.db) && b in s.w.db.blobs && s.w.db.blobs[b].ready
    requires forall t :: t in ts ==> t in StoreIds(cfg.stores)
    requires forall t :: t in s.flights ==> s.flights[t].key != s.w.db.blobs[b].objectKey
    requires CopyHolds(s.w.disk, src, s.w.db.blobs[b].objectKey, sp)
    requires OnlyCopies(s.w, w1, b, s.w.db.blobs[b].objectKey, ts)
    requires forall t :: t in ts && (b, t) in w1.db.locs && (b, t) !in s.w.db.locs ==>
               (src, s.w.db.blobs[b].objectKey) in s.w.disk && (t, s.w.db.blobs[b].objectKey) in w1.disk
               && w1.disk[(t, s.w.db.blobs[b].objectKey)] == s.w.disk[(src, s.w.db.blobs[b].objectKey)]
    ensures Refines(cfg, s.(w := w1), sp)
  {
    var db, key := s.w.db, s.w.db.blobs[b].objectKey;
    forall l | l in w1.db.locs && l.0 in db.blobs
      ensures db.blobs[l.0].objectKey in sp.objects && CopyHolds(w1.disk, l.1, db.blobs[l.0].objectKey, sp)
    {
      if l in db.locs {
        var k := db.blobs[l.0].objectKey;
        assert CopyHolds(s.w.disk, l.1, k, sp);
        assert k == key ==> l == (b, l.1);
        assert !((l.1, k).0 in ts && (l.1, k).1 == key && (b, l.1) !in db.locs);
      } else {
        assert l == (b, l.1);
      }
    }
    forall t | t in s.flights && s.flights[t].stored
      ensures Lookup(w1.disk, s.flights[t].store, s.flights[t].key) == Some(s.flights[t].data)
    {
      var p := (s.flights[t].store, s.flights[t].key);
      assert !(p.0 in ts && p.1 == key && (b, p.0) !in db.locs);
      assert p in s.w.disk;
    }
  }

  lemma LandingRefines(cfg: Config, s: Sys, sp: Spec, t: Token)
    requires Refines(cfg, s, sp)
    ensures Refines(cfg, s.(flights := s.flights - {t}), sp)
  {
  }

  /** Phase 3 goes through: the key now maps to the put's bytes. */
  lemma CommittedFinishRefines(cfg: Config, s: Sys, sp: Spec, t: Token, faults: Faults)
    requires ValidConfig(cfg) && Inv(s.w.db) && AllAvailable(s.w.db) && FlightsFit(s) && Refines(cfg, s, sp)
    requires t in s.flights && s.flights[t].stored
    ensures var r := FinishRows(cfg, s.w, s.flights[t], faults);
            r.Some? ==> Refines(cfg, Sys(r.value, s.flights - {t}), With(sp, s.flights[t].key, s.flights[t].data))
  {
    var fl := s.flights[t];
    var marked := MarkReady(s.w.db, fl.file, fl.blob, fl.store, fl.key);
    MarkRefines(cfg, s, sp, t);
    if marked.Some? && cfg.replicate {
      MarkReadyKeepsInv(s.w.db, fl.file, fl.blob, fl.store, fl.key);
      SyncRefines(cfg, Sys(World(marked.value, s.w.disk), s.flights - {t}), With(sp, fl.key, fl.data), fl.file, faults);
    }
  }

  /** What phase 3 does to the stores happens at the put's own key. */
  lemma FinishWritesItsKey(cfg: Config, s: Sys, t: Token, faults: Faults)
    requires ValidConfig(cfg) && FlightsFit(s) && t in s.flights
    ensures var r := FinishRows(cfg, s.w, s.flights[t], faults);
            r.Some? ==> forall st, k :: k != s.flights[t].key ==> Lookup(r.value.disk, st, k) == Lookup(s.w.disk, st, k)
  {
    var fl := s.flights[t];
    var marked := MarkReady(s.w.db, fl.file, fl.blob, fl.store, fl.key);
    if marked.Some? && cfg.replicate && fl.file in marked.value.files && Primary(cfg).Some? {
      SyncFileMakesCopies(cfg, World(marked.value, s.w.disk), fl.file, faults);
      var r := FinishRows(cfg, s.w, fl, faults).value;
      forall st, k | k != fl.key ensures Lookup(r.disk, st, k) == Lookup(s.w.disk, st, k) {
        assert (st, k).1 != fl.key;
      }
    }
  }

  lemma FinishRefines(cfg: Config, s: Sys, sp: Spec, t: Token, faults: Faults, commits: bool)
    requires ValidConfig(cfg) && SysInv(s) && Refines(cfg, s, sp)
    requires Accepts(cfg, s, Finish(t, faults, commits))
    ensures Refines(cfg, Next(cfg, s, Finish(t, faults, commits)), SpecNext(cfg, sp, s, Finish(t, faults, commits)))
  {
    var r := FinishRows(cfg, s.w, s.flights[t], faults);
    LandingRefines(cfg, s, sp, t);
    if r.Some? && commits {
      CommittedFinishRefines(cfg, s, sp, t, faults);
    } else if r.Some? {
      FinishWritesItsKey(cfg, s, t, faults);
      PendingKeyAbsent(cfg, s, sp, t);
      WriteRefines(cfg, s.(flights := s.flights - {t}), sp, s.flights[t].key, r.value.disk);
    }
  }

  /** While a put is in flight its key is absent from the map. */
  lemma PendingKeyAbsent(cfg: Config, s: Sys, sp: Spec, t: Token)
    requires KeysUnique(s.w.db) && FlightsFit(s) && FlightsLive(cfg, s) && KeysMatch(s.w.db, sp) && t in s.flights
    ensures s.flights[t].key !in sp.objects
  {
  }

  /** Phase 2, whatever it leaves at the key. */
  lemma StoreRefines(cfg: Config, s: Sys, sp: Spec, t: Token, left: Option<Bytes>)
    requires KeysUnique(s.w.db) && FlightsFit(s) && Refines(cfg, s, sp) && t in s.flights && !s.flights[t].stored
    ensures var fl := s.flights[t];
            Refines(cfg, s.(w := World(s.w.db, Write(s.w.disk, fl.store, fl.key, left))), sp)
  {
    PendingKeyAbsent(cfg, s, sp, t);
    WriteRefines(cfg, s, sp, s.flights[t].key, Write(s.w.disk, s.flights[t].store, s.flights[t].key, left));
  }

  lemma StoredFlightLive(cfg: Config, s: Sys, sp: Spec, t: Token)
    requires Refines(cfg, s, sp) && t in s.flights
    requires Lookup(s.w.disk, s.flights[t].store, s.flights[t].key) == Some(s.flights[t].data)
    ensures Refines(cfg, s.(flights := s.flights[t := s.flights[t].(stored := true)]), sp)
  {
  }

  lemma StoreObjectRefines(cfg: Config, s: Sys, sp: Spec, t: Token)
    requires SysInv(s) && Refines(cfg, s, sp) && t in s.flights && !s.flights[t].stored
    ensures Refines(cfg, Next(cfg, s, StoreObject(t)), sp)
  {
    var fl := s.flights[t];
    StoreRefines(cfg, s, sp, t, Some(fl.data));
    StoredFlightLive(cfg, s.(w := World(s.w.db, Write(s.w.disk, fl.store, fl.key, Some(fl.data)))), sp, t);
  }

  lemma StoreFailsRefines(cfg: Config, s: Sys, sp: Spec, t: Token, left: Option<Bytes>)
    requires SysInv(s) && Refines(cfg, s, sp) && t in s.flights && !s.flights[t].stored
    ensures Refines(cfg, Next(cfg, s, StoreFails(t, left)), sp)
  {
    var fl := s.flights[t];
    StoreRefines(cfg, s, sp, t, left);
    LandingRefines(cfg, s.(w := World(s.w.db, Write(s.w.disk, fl.store, fl.key, left))), sp, t);
  }

  /** The gateway's drop of the ready file it found, and of its old object. */
  lemma GatewayDropRefines(cfg: Config, s: Sys, sp: Spec, key: string, disk: Disk)
    requires FilesMatchBlobs(s.w.db) && BlobsHaveFiles(s.w.db) && Refines(cfg, s, sp)
    requires forall t :: t in s.flights ==> s.flights[t].key != key
    requires forall st, k :: k != key ==> Lookup(disk, st, k) == Lookup(s.w.disk, st, k)
    ensures Refines(cfg, s.(w := World(Drop(s.w.db, ReadyBlobsAt(s.w.db, key)), disk)), Without(sp, key))
  {
    ReadyBlobsAreTheKeys(s.w.db, key);
    DropRefines(cfg, s, sp, key, ReadyBlobsAt(s.w.db, key));
    WriteRefines(cfg, s.(w := s.w.(db := Drop(s.w.db, ReadyBlobsAt(s.w.db, key)))), Without(sp, key), key, disk);
  }

  /** What ReserveRefines asks of the tables. */
  ghost predicate Reservable(s: Sys) {
    KeysUnique(s.w.db) && FlightsFit(s) && RowIdsBelowNext(s.w.db) && LocIdsBelowNext(s.w.db)
  }

  lemma DropStaysReservable(s: Sys, gone: set<Id>, disk: Disk)
    requires Reservable(s)
    ensures Reservable(s.(w := World(Drop(s.w.db, gone), disk)))
  {
  }

  lemma GatewayReserveRefines(cfg: Config, s: Sys, sp: Spec, t: Token, put: Put, p: StoreId, disk: Disk)
    requires Reservable(s) && FilesMatchBlobs(s.w.db) && BlobsHaveFiles(s.w.db)
    requires Refines(cfg, s, sp) && Primary(cfg) == Some(p) && p in StoreIds(cfg.stores)
    requires forall u :: u in s.flights ==> s.flights[u].key != put.key
    requires forall st, k :: k != put.key ==> Lookup(disk, st, k) == Lookup(s.w.disk, st, k)
    ensures Refines(cfg, Reserve(s.(w := World(Drop(s.w.db, ReadyBlobsAt(s.w.db, put.key)), disk)), t, put, p),
                    Without(sp, put.key))
  {
    var dropped := s.(w := World(Drop(s.w.db, ReadyBlobsAt(s.w.db, put.key)), disk));
    GatewayDropRefines(cfg, s, sp, put.key, disk);
    DropStaysReservable(s, ReadyBlobsAt(s.w.db, put.key), disk);
    assert Without(Without(sp, put.key), put.key) == Without(sp, put.key);
    ReserveRefines(cfg, dropped, Without(sp, put.key), t, put, p);
  }

  lemma GatewayBeginRefines(cfg: Config, s: Sys, sp: Spec, t: Token, put: Put, deletes: bool, commits: bool)
    requires SysInv(s) && Refines(cfg, s, sp) && Serial(s, GatewayBegin(t, put, deletes, commits))
    requires Accepts(cfg, s, GatewayBegin(t, put, deletes, commits))
    ensures Refines(cfg, Next(cfg, s, GatewayBegin(t, put, deletes, commits)),
                    SpecNext(cfg, sp, s, GatewayBegin(t, put, deletes, commits)))
  {
    var p := Primary(cfg).value;
    if commits {
      GatewayReserveRefines(cfg, s, sp, t, put, p, GatewayDisk(s.w, put.key, p, deletes));
    } else if ReadyAt(s.w.db, put.key) == {} {
      NothingToLose(cfg, s.w.db, put.key);
    } else if deletes {
      LosingCopyRefines(cfg, s, sp, put.key, p);
    }
  }

  /** The blobs of the ready files at a key are the ready blobs at that key. */
  lemma ReadyBlobsAreTheKeys(db: DB, key: string)
    requires FilesMatchBlobs(db) && BlobsHaveFiles(db)
    ensures forall b :: b in db.blobs && db.blobs[b].ready ==>
            (b in ReadyBlobsAt(db, key) <==> db.blobs[b].objectKey == key)
    ensures forall b :: b in ReadyBlobsAt(db, key) ==> b in db.blobs && db.blobs[b].ready
  {
    forall b | b in db.blobs && db.blobs[b].ready && db.blobs[b].objectKey == key ensures b in ReadyBlobsAt(db, key) {
      assert HasFile(db, b);
      var f :| f in db.files && db.files[f].blobId == b;
      assert f in ReadyAt(db, key);
    }
  }

  /** A phase 1 that removed the primary's object but did not commit. */
  lemma LosingCopyRefines(cfg: Config, s: Sys, sp: Spec, key: string, p: StoreId)
    requires Refines(cfg, s, sp) && Primary(cfg) == Some(p)
    requires forall t :: t in s.flights ==> s.flights[t].key != key
    ensures Refines(cfg, s.(w := s.w.(disk := Write(s.w.disk, p, key, None))),
                    if PrimaryHolds(cfg, s.w.db, key) then sp.(frail := sp.frail + {key}) else sp)
    ensures !PrimaryHolds(cfg, s.w.db, key) || key in sp.objects
  {
    var disk := Write(s.w.disk, p, key, None);
    var sp2 := if PrimaryHolds(cfg, s.w.db, key) then sp.(frail := sp.frail + {key}) else sp;
    forall l | l in s.w.db.locs && l.0 in s.w.db.blobs ensures CopyHolds(disk, l.1, s.w.db.blobs[l.0].objectKey, sp2) {
      assert CopyHolds(s.w.disk, l.1, s.w.db.blobs[l.0].objectKey, sp);
      assert l.1 == p && s.w.db.blobs[l.0].objectKey == key ==> (l.0, p) == l;
    }
  }

  /** With no ready file at a key the primary holds nothing of it. */
  lemma NothingToLose(cfg: Config, db: DB, key: string)
    requires FilesMatchBlobs(db) && BlobsHaveFiles(db) && ReadyAt(db, key) == {}
    ensures !PrimaryHolds(cfg, db, key)
  {
    ReadyBlobsAreTheKeys(db, key);
    assert ReadyBlobsAt(db, key) == {};
  }

  lemma StepRefines(cfg: Config, s: Sys, sp: Spec, step: Step)
    requires ValidConfig(cfg) && SysInv(s) && Refines(cfg, s, sp) && Serial(s, step)
    ensures Refines(cfg, Next(cfg, s, step), SpecNext(cfg, sp, s, step))
  {
    if !Accepts(cfg, s, step) { return; }
    match step
    case GatewayBegin(t, put, deletes, commits) => GatewayBeginRefines(cfg, s, sp, t, put, deletes, commits);
    case UploadBegin(t, put, store) => ReserveRefines(cfg, s, sp, t, put, store);
    case StoreObject(t) => StoreObjectRefines(cfg, s, sp, t);
    case StoreFails(t, left) => StoreFailsRefines(cfg, s, sp, t, left);
    case Finish(t, faults, commits) => FinishRefines(cfg, s, sp, t, faults, commits);
    case Abandon(t) => LandingRefines(cfg, s, sp, t);
    case Delete(key) =>
      ReadyBlobsAreTheKeys(s.w.db, key);
      DropRefines(cfg, s, sp, key, ReadyBlobsAt(s.w.db, key));
  }

  ghost predicate Mirrors(cfg: Config, s: Sys, sp: Spec) { SysInv(s) && Refines(cfg, s, sp) }

  lemma StepMirrors(cfg: Config, s: Sys, sp: Spec, step: Step)
    requires ValidConfig(cfg) && Mirrors(cfg, s, sp) && Serial(s, step)
    ensures Mirrors(cfg, Next(cfg, s, step), SpecNext(cfg, sp, s, step))
  {
    StepKeepsInv(cfg, s, step);
    StepRefines(cfg, s, sp, step);
  }

  /** Every run whose puts are serialised per key, with any put failing in any
      phase, keeps tables and stores together equal to the map of SpecRun. */
  lemma {:induction false} SerialRunsRefineTheMap(cfg: Config, steps: seq<Step>)
    requires ValidConfig(cfg) && SerialRun(cfg, EMPTY_SYS, steps)
    ensures Mirrors(cfg, Run(cfg, EMPTY_SYS, steps), SpecRun(cfg, steps))
    decreases |steps|
  {
    if steps != [] {
      var init := steps[..|steps| - 1];
      SerialRunsRefineTheMap(cfg, init);
      StepMirrors(cfg, Run(cfg, EMPTY_SYS, init), SpecRun(cfg, init), steps[|steps| - 1]);
    }
  }

  // --------------------------------------------------------------- what clients see

  /** What s3GetObject may answer for a key; None is NoSuchKey. */
  ghost predicate GetMay(cfg: Config, w: World, key: string, r: Option<Bytes>) {
    if ReadyAt(w.db, key) == {} then r == None
    else exists f: Id, st: StoreId ::
        f in ReadyAt(w.db, key) && MayRead(cfg, w.db, w.db.files[f].blobId, st) && r == Lookup(w.disk, st, key)
  }

  /** A get answers with the map's bytes, whichever location it picks; only a
      frail key may also be missed. */
  lemma GetReadsTheMap(cfg: Config, s: Sys, sp: Spec, key: string, r: Option<Bytes>)
    requires Inv(s.w.db) && Refines(cfg, s, sp) && GetMay(cfg, s.w, key, r)
    ensures key !in sp.objects ==> r == None
    ensures key in sp.objects ==> r == Some(sp.objects[key]) || (key in sp.frail && r == None)
  {
    var db := s.w.db;
    ReadyBlobsAreTheKeys(db, key);
    if ReadyAt(db, key) == {} {
      assert ReadyBlobsAt(db, key) == {};
    } else {
      var f: Id, st: StoreId :|
          f in ReadyAt(db, key) && MayRead(cfg, db, db.files[f].blobId, st) && r == Lookup(s.w.disk, st, key);
      var b := db.files[f].blobId;
      assert HasCopy(db, b);
      var t :| (b, t) in db.locs && db.locs[(b, t)].state == Available;
      assert (b, t).1 in StoreIds(cfg.stores);
      assert (b, st) in db.locs;
      assert CopyHolds(s.w.disk, (b, st).1, db.blobs[(b, st).0].objectKey, sp);
    }
  }

  /** Another key's ready file already has this folder and name. */
  ghost predicate NameHeldElsewhere(db: DB, put: Put) {
    exists g :: g in db.files && db.files[g].ready && db.files[g].storagePath != put.key
                && db.files[g].folder == put.folder && db.files[g].name == put.name
  }

  /** A put on a free key goes through exactly when no other key's ready file
      holds its folder and name; so no failed upload ever blocks a later one. */
  lemma PutSucceedsIff(cfg: Config, s: Sys, sp: Spec, t: Token, put: Put, deletes: bool, faults: Faults)
    requires ValidConfig(cfg) && SysInv(s) && Refines(cfg, s, sp)
    requires Accepts(cfg, s, GatewayBegin(t, put, deletes, true)) && Serial(s, GatewayBegin(t, put, deletes, true))
    ensures var s1 := Next(cfg, s, GatewayBegin(t, put, deletes, true));
            var s2 := Next(cfg, s1, StoreObject(t));
            Accepts(cfg, s2, Finish(t, faults, true))
            && (Succeeds(cfg, s2, t, faults, true) <==> !NameHeldElsewhere(s.w.db, put))
  {
    var s1 := Next(cfg, s, GatewayBegin(t, put, deletes, true));
    BegunIsLive(cfg, s, sp, GatewayBegin(t, put, deletes, true));
    BegunRows(cfg, s, t, put, deletes);
    NameTakenIffHeldElsewhere(s.w.db, put);
    BegunSucceedsIff(cfg, s1, t, faults);
  }

  lemma BegunIsLive(cfg: Config, s: Sys, sp: Spec, begin: Step)
    requires ValidConfig(cfg) && SysInv(s) && Refines(cfg, s, sp) && Serial(s, begin)
    ensures var s1 := Next(cfg, s, begin);
            && NoOrphans(cfg, s1.w.db) && FlightsLive(cfg, s1)
            && KeysUnique(s1.w.db) && LocsAtKey(s1.w.db) && FlightsFit(s1)
  {
    StepKeepsInv(cfg, s, begin);
    StepRefines(cfg, s, sp, begin);
  }

  lemma BegunRows(cfg: Config, s: Sys, t: Token, put: Put, deletes: bool)
    requires Accepts(cfg, s, GatewayBegin(t, put, deletes, true))
    ensures var s1 := Next(cfg, s, GatewayBegin(t, put, deletes, true));
            && s1.w.db ==
               CreatePending(Drop(s.w.db, ReadyBlobsAt(s.w.db, put.key)), put.user, put.folder, put.name, put.key)
            && t in s1.flights && s1.flights[t].file == s.w.db.next + 1 && !s1.flights[t].stored
  {
  }

  /** A put that has begun and not overlapped goes through exactly when its
      name is free. */
  lemma BegunSucceedsIff(cfg: Config, s1: Sys, t: Token, faults: Faults)
    requires NoOrphans(cfg, s1.w.db) && FlightsLive(cfg, s1) && KeysUnique(s1.w.db) && LocsAtKey(s1.w.db)
             && FlightsFit(s1)
    requires t in s1.flights && !s1.flights[t].stored
    ensures var s2 := Next(cfg, s1, StoreObject(t));
            Accepts(cfg, s2, Finish(t, faults, true))
            && (Succeeds(cfg, s2, t, faults, true) <==> !NameTaken(s1.w.db, s1.flights[t].file))
  {
    MarkSucceedsIff(cfg, s1, t);
  }

  /** Besides the reserved row, exactly the files of other keys are left. */
  lemma FilesLeft(db: DB, put: Put, g: Id)
    requires FilesMatchBlobs(db) && RowIdsBelowNext(db) && g != db.next + 1
    ensures var d := CreatePending(Drop(db, ReadyBlobsAt(db, put.key)), put.user, put.folder, put.name, put.key);
            && (g in d.files <==> g in db.files && db.files[g].storagePath != put.key)
            && (g in d.files ==> d.files[g] == db.files[g])
  {
  }

  lemma NameTakenIffHeldElsewhere(db: DB, put: Put)
    requires FilesMatchBlobs(db) && RowIdsBelowNext(db)
    ensures var d := CreatePending(Drop(db, ReadyBlobsAt(db, put.key)), put.user, put.folder, put.name, put.key);
            NameTaken(d, db.next + 1) <==> NameHeldElsewhere(db, put)
  {
    var d := CreatePending(Drop(db, ReadyBlobsAt(db, put.key)), put.user, put.folder, put.name, put.key);
    var f := db.next + 1;
    if NameHeldElsewhere(db, put) {
      var g :| g in db.files && db.files[g].ready && db.files[g].storagePath != put.key
               && db.files[g].folder == put.folder && db.files[g].name == put.name;
      FilesLeft(db, put, g);
      assert g in d.files;
    }
    if NameTaken(d, f) {
      var g :| g in d.files && g != f && d.files[g].ready && d.files[g].folder == put.folder
          && d.files[g].name == put.name;
      FilesLeft(db, put, g);
      assert g in db.files;
    }
  }

  // -------------------------------------------------- overlapping puts on one key

  /** A location of a blob that no longer exists holds (st, key). */
  ghost predicate Blocked(s: Sys, st: StoreId, key: string, orphan: Id) {
    && (orphan, st) in s.w.db.locs && s.w.db.locs[(orphan, st)].path == key
    && orphan !in s.w.db.blobs && orphan < s.w.db.next
  }

  /** A put in flight has its own pending blob, which has no location yet. */
  ghost predicate FlightsUnmarked(s: Sys) {
    && (forall t, l :: t in s.flights && l in s.w.db.locs ==> l.0 != s.flights[t].blob)
    && (forall t :: t in s.flights && s.flights[t].blob in s.w.db.blobs ==> !s.w.db.blobs[s.flights[t].blob].ready)
    && (forall t, u :: t in s.flights && u in s.flights && s.flights[t].blob == s.flights[u].blob ==> t == u)
  }

  lemma ReserveUnmarked(s: Sys, t: Token, put: Put, store: StoreId)
    requires FlightsUnmarked(s) && FlightsFit(s) && LocIdsBelowNext(s.w.db)
    ensures FlightsUnmarked(Reserve(s, t, put, store))
  {
  }

  lemma FinishUnmarked(cfg: Config, s: Sys, t: Token, faults: Faults)
    requires FlightsUnmarked(s) && FlightsFit(s) && FilesMatchBlobs(s.w.db) && t in s.flights
    ensures var r := FinishRows(cfg, s.w, s.flights[t], faults);
            r.Some? ==> FlightsUnmarked(Sys(r.value, s.flights - {t}))
  {
    var fl := s.flights[t];
    var marked := MarkReady(s.w.db, fl.file, fl.blob, fl.store, fl.key);
    if marked.None? { return; }
    var db := marked.value;
    assert FlightsUnmarked(Sys(World(db, s.w.disk), s.flights - {t}));
    if cfg.replicate && fl.file in db.files && Source(cfg, db, fl.file, None).Some? {
      var src := Source(cfg, db, fl.file, None).value;
      SyncTouchesOnlyCopies(World(db, s.w.disk), fl.blob, fl.key, src.0, src.1, Targets(cfg.stores, src.0), faults);
    }
  }

  lemma StepKeepsUnmarked(cfg: Config, s: Sys, step: Step)
    requires SysInv(s) && FlightsUnmarked(s)
    ensures FlightsUnmarked(Next(cfg, s, step))
  {
    if !Accepts(cfg, s, step) { return; }
    match step
    case GatewayBegin(t, put, deletes, commits) =>
      DropFits(s, ReadyBlobsAt(s.w.db, put.key));
      var p := Primary(cfg).value;
      var dropped := World(Drop(s.w.db, ReadyBlobsAt(s.w.db, put.key)), GatewayDisk(s.w, put.key, p, deletes));
      ReserveUnmarked(s.(w := dropped), t, put, p);
    case UploadBegin(t, put, store) => ReserveUnmarked(s, t, put, store);
    case Finish(t, faults, commits) => FinishUnmarked(cfg, s, t, faults);
    case _ =>
  }

  lemma MarkKeepsLocs(db: DB, f: Id, b: Id, st: StoreId, path: string)
    ensures var r := MarkReady(db, f, b, st, path);
            r.Some? ==> r.value.next == db.next && r.value.blobs.Keys == db.blobs.Keys
                        && forall l :: l in db.locs ==> l in r.value.locs && r.value.locs[l] == db.locs[l]
  {
  }

  lemma MarkKeepsMatch(db: DB, fl: Flight)
    requires FilesMatchBlobs(db) && PairOrGone(db, fl.file, fl.blob, fl.key)
    ensures var r := MarkReady(db, fl.file, fl.blob, fl.store, fl.key); r.Some? ==> FilesMatchBlobs(r.value)
  {
  }

  /** Phase 3 never removes a location. */
  lemma FinishKeepsLocs(cfg: Config, s: Sys, t: Token, faults: Faults)
    requires t in s.flights && FilesMatchBlobs(s.w.db) && FlightsFit(s)
    ensures var r := FinishRows(cfg, s.w, s.flights[t], faults);
            r.Some? ==> r.value.db.next == s.w.db.next && r.value.db.blobs.Keys == s.w.db.blobs.Keys
                        && forall l :: l in s.w.db.locs ==> l in r.value.db.locs && r.value.db.locs[l] == s.w.db.locs[l]
  {
    var fl := s.flights[t];
    var marked := MarkReady(s.w.db, fl.file, fl.blob, fl.store, fl.key);
    MarkKeepsLocs(s.w.db, fl.file, fl.blob, fl.store, fl.key);
    MarkKeepsMatch(s.w.db, fl);
    if marked.Some? && cfg.replicate {
      SyncAddsOnlyCopies(cfg, World(marked.value, s.w.disk), fl.file, faults);
      SyncLocatesLiveBlobs(cfg, World(marked.value, s.w.disk), fl.file, faults, (fl.blob, fl.store));
    }
  }

  lemma StepKeepsBlock(cfg: Config, s: Sys, step: Step, st: StoreId, key: string, orphan: Id)
    requires SysInv(s) && Blocked(s, st, key, orphan)
    ensures Blocked(Next(cfg, s, step), st, key, orphan)
  {
    if Accepts(cfg, s, step) && step.Finish? { FinishKeepsLocs(cfg, s, step.token, step.faults); }
  }

  /** Once blocked, blocked in every later state of every run. */
  lemma {:induction false} BlockedForever(cfg: Config, s: Sys, steps: seq<Step>, st: StoreId, key: string, orphan: Id)
    requires SysInv(s) && FlightsUnmarked(s) && Blocked(s, st, key, orphan)
    ensures var e := Run(cfg, s, steps); SysInv(e) && FlightsUnmarked(e) && Blocked(e, st, key, orphan)
    decreases |steps|
  {
    if steps != [] {
      var init := steps[..|steps| - 1];
      BlockedForever(cfg, s, init, st, key, orphan);
      StepKeepsInv(cfg, Run(cfg, s, init), steps[|steps| - 1]);
      StepKeepsUnmarked(cfg, Run(cfg, s, init), steps[|steps| - 1]);
      StepKeepsBlock(cfg, Run(cfg, s, init), steps[|steps| - 1], st, key, orphan);
    }
  }

  /** Phase 3 of a put fails exactly when another ready file holds its name or
      another blob's location holds its store and key. */
  lemma FinishFailsIff(cfg: Config, s: Sys, t: Token, faults: Faults)
    requires FlightsUnmarked(s) && t in s.flights
    ensures var fl := s.flights[t];
            FinishRows(cfg, s.w, fl, faults).None?
            <==> (fl.file in s.w.db.files && NameTaken(s.w.db, fl.file)) || PathTaken(s.w.db, fl.blob, fl.store, fl.key)
  {
    var fl := s.flights[t];
    var l := (fl.blob, fl.store);
    if l in s.w.db.locs { assert false; }
  }

  lemma BlockedPutsFail(cfg: Config, s: Sys, t: Token, faults: Faults, orphan: Id)
    requires FlightsUnmarked(s) && t in s.flights && Blocked(s, s.flights[t].store, s.flights[t].key, orphan)
    ensures FinishRows(cfg, s.w, s.flights[t], faults).None?
  {
    FinishFailsIff(cfg, s, t, faults);
    assert (orphan, s.flights[t].store).0 != s.flights[t].blob;
    assert PathTaken(s.w.db, s.flights[t].blob, s.flights[t].store, s.flights[t].key);
  }

  /** A put overtaken by another request on its key (its rows are gone) that
      still finishes blocks the key on its store. */
  lemma OvertakenFinishBlocks(cfg: Config, s: Sys, t: Token, faults: Faults)
    requires SysInv(s) && FlightsUnmarked(s) && Accepts(cfg, s, Finish(t, faults, true))
    requires s.flights[t].blob !in s.w.db.blobs
    requires !PathTaken(s.w.db, s.flights[t].blob, s.flights[t].store, s.flights[t].key)
    ensures Blocked(Next(cfg, s, Finish(t, faults, true)), s.flights[t].store, s.flights[t].key, s.flights[t].blob)
  {
    FinishFailsIff(cfg, s, t, faults);
    var fl := s.flights[t];
    assert !cfg.replicate
           || SyncFile(cfg, World(MarkReady(s.w.db, fl.file, fl.blob, fl.store, fl.key).value, s.w.disk), fl.file,
                       None, faults).0.db
                             == MarkReady(s.w.db, fl.file, fl.blob, fl.store, fl.key).value;
  }

  /** A committed phase 3 of a put whose rows another request has removed, at a
      store and key nothing else holds. */
  ghost predicate Overtakes(cfg: Config, s: Sys, step: Step, st: StoreId, key: string, orphan: Id) {
    && step.Finish? && step.commits && Accepts(cfg, s, step)
    && s.flights[step.token].store == st && s.flights[step.token].key == key && s.flights[step.token].blob == orphan
    && orphan !in s.w.db.blobs && !PathTaken(s.w.db, orphan, st, key)
  }

  lemma SyncLocatesLiveBlobs(cfg: Config, w: World, f: Id, faults: Faults, l: (Id, StoreId))
    requires FilesMatchBlobs(w.db)
    ensures var d := SyncFile(cfg, w, f, None, faults).0.db; l in d.locs && l !in w.db.locs ==> l.0 in w.db.blobs
    ensures forall k :: k in w.db.locs ==>
              (k in SyncFile(cfg, w, f, None, faults).0.db.locs
               && SyncFile(cfg, w, f, None, faults).0.db.locs[k] == w.db.locs[k])
  {
    if f in w.db.files && w.db.files[f].ready && Source(cfg, w.db, f, None).Some? {
      var b := w.db.files[f].blobId;
      var (src, srcPath) := Source(cfg, w.db, f, None).value;
      SyncTouchesOnlyCopies(w, b, w.db.blobs[b].objectKey, src, srcPath, Targets(cfg.stores, src), faults);
    }
  }

  /** Phase 3 locates one blob that may not exist: its own. */
  lemma FinishLocatesItsOwn(cfg: Config, s: Sys, t: Token, faults: Faults, l: (Id, StoreId))
    requires FilesMatchBlobs(s.w.db) && FlightsFit(s) && FlightsUnmarked(s) && t in s.flights
    ensures var fl, r := s.flights[t], FinishRows(cfg, s.w, s.flights[t], faults);
            r.Some? && l in r.value.db.locs && l !in s.w.db.locs && l.0 !in s.w.db.blobs ==>
              l == (fl.blob, fl.store) && r.value.db.locs[l].path == fl.key
  {
    var fl := s.flights[t];
    var marked := MarkReady(s.w.db, fl.file, fl.blob, fl.store, fl.key);
    if marked.Some? && cfg.replicate { SyncLocatesLiveBlobs(cfg, World(marked.value, s.w.disk), fl.file, faults, l); }
  }

  lemma FinishBlocksOnlyOvertaken(cfg: Config, s: Sys, step: Step, st: StoreId, key: string, orphan: Id)
    requires SysInv(s) && FlightsUnmarked(s) && step.Finish? && Accepts(cfg, s, step)
    requires Blocked(Next(cfg, s, step), st, key, orphan) && !Blocked(s, st, key, orphan)
    ensures Overtakes(cfg, s, step, st, key, orphan)
  {
    FinishKeepsLocs(cfg, s, step.token, step.faults);
    FinishLocatesItsOwn(cfg, s, step.token, step.faults, (orphan, st));
    FinishFailsIff(cfg, s, step.token, step.faults);
  }

  /** One step blocks a key only so: an overtaken put finishes. */
  lemma BlockArisesIff(cfg: Config, s: Sys, step: Step, st: StoreId, key: string, orphan: Id)
    requires SysInv(s) && FlightsUnmarked(s)
    ensures Blocked(Next(cfg, s, step), st, key, orphan)
            <==> Blocked(s, st, key, orphan) || Overtakes(cfg, s, step, st, key, orphan)
  {
    if Blocked(s, st, key, orphan) {
      StepKeepsBlock(cfg, s, step, st, key, orphan);
    } else if Overtakes(cfg, s, step, st, key, orphan) {
      OvertakenFinishBlocks(cfg, s, step.token, step.faults);
    } else if step.Finish? && Blocked(Next(cfg, s, step), st, key, orphan) && Accepts(cfg, s, step) {
      FinishBlocksOnlyOvertaken(cfg, s, step, st, key, orphan);
    }
  }

  /** At some moment of the run a put on (st, key) was overtaken and still finished. */
  ghost predicate OvertakenIn(cfg: Config, steps: seq<Step>, st: StoreId, key: string, orphan: Id) {
    exists n: nat :: n < |steps| && Overtakes(cfg, Run(cfg, EMPTY_SYS, steps[..n]), steps[n], st, key, orphan)
  }

  lemma OvertakenInStep(cfg: Config, steps: seq<Step>, st: StoreId, key: string, orphan: Id)
    requires steps != []
    ensures var init := steps[..|steps| - 1];
            OvertakenIn(cfg, steps, st, key, orphan)
            <==> OvertakenIn(cfg, init, st, key, orphan)
                 || Overtakes(cfg, Run(cfg, EMPTY_SYS, init), steps[|steps| - 1], st, key, orphan)
  {
    var init := steps[..|steps| - 1];
    forall n: nat | n < |init|
      ensures Overtakes(cfg, Run(cfg, EMPTY_SYS, init[..n]), init[n], st, key, orphan)
         <==> Overtakes(cfg, Run(cfg, EMPTY_SYS, steps[..n]), steps[n], st, key, orphan)
    {
      assert init[..n] == steps[..n];
    }
  }

  lemma {:induction false} RunsAreUnmarked(cfg: Config, steps: seq<Step>)
    ensures SysInv(Run(cfg, EMPTY_SYS, steps)) && FlightsUnmarked(Run(cfg, EMPTY_SYS, steps))
    decreases |steps|
  {
    if steps != [] {
      var init := steps[..|steps| - 1];
      RunsAreUnmarked(cfg, init);
      StepKeepsInv(cfg, Run(cfg, EMPTY_SYS, init), steps[|steps| - 1]);
      StepKeepsUnmarked(cfg, Run(cfg, EMPTY_SYS, init), steps[|steps| - 1]);
    }
  }

  /** Over every run: a location of a blob that is gone holds (st, key) exactly
      when some put on it was overtaken and still finished. */
  lemma {:induction false} BlockedIffOvertaken(cfg: Config, steps: seq<Step>, st: StoreId, key: string, orphan: Id)
    ensures Blocked(Run(cfg, EMPTY_SYS, steps), st, key, orphan) <==> OvertakenIn(cfg, steps, st, key, orphan)
    decreases |steps|
  {
    if steps != [] {
      var init := steps[..|steps| - 1];
      BlockedIffOvertaken(cfg, init, st, key, orphan);
      RunsAreUnmarked(cfg, init);
      BlockArisesIff(cfg, Run(cfg, EMPTY_SYS, init), steps[|steps| - 1], st, key, orphan);
      OvertakenInStep(cfg, steps, st, key, orphan);
    }
  }

  /** Two overlapping puts on one key, the first overtaken by the second. */
  function Overlap(p: Put, q: Put): seq<Step> {
    [GatewayBegin(0, p, true, true), GatewayBegin(1, q, true, true), StoreObject(0), StoreObject(1),
     Finish(0, map[], true)]
  }

  lemma RunStep(cfg: Config, s: Sys, steps: seq<Step>, step: Step)
    ensures Run(cfg, s, steps + [step]) == Next(cfg, Run(cfg, s, steps), step)
  {
    assert (steps + [step])[..|steps|] == steps;
  }

  /** In a fresh workspace, any two such puts leave the key blocked on the
      primary: the second fails, and so does every later put on the key. */
  lemma OverlapBlocksForever(cfg: Config, p: Put, q: Put, later: seq<Step>, t: Token, faults: Faults)
    requires Primary(cfg).Some? && p.key == q.key != ""
    ensures var s := Run(cfg, EMPTY_SYS, Overlap(p, q));
            && Accepts(cfg, s, Finish(1, faults, true)) && FinishRows(cfg, s.w, s.flights[1], faults).None?
            && var e := Run(cfg, s, later);
               (t in e.flights && e.flights[t].key == p.key && e.flights[t].store == Primary(cfg).value) ==>
                 FinishRows(cfg, e.w, e.flights[t], faults).None?
  {
    var s := OverlapBlocks(cfg, p, q);
    BlockedPutsFail(cfg, s, 1, faults, 0);
    BlockedForever(cfg, s, later, Primary(cfg).value, p.key, 0);
    var e := Run(cfg, s, later);
    if t in e.flights && e.flights[t].key == p.key && e.flights[t].store == Primary(cfg).value {
      BlockedPutsFail(cfg, e, t, faults, 0);
    }
  }

  lemma OverlapBlocks(cfg: Config, p: Put, q: Put) returns (s: Sys)
    requires Primary(cfg).Some? && p.key == q.key != ""
    ensures s == Run(cfg, EMPTY_SYS, Overlap(p, q)) && SysInv(s) && FlightsUnmarked(s)
    ensures Blocked(s, Primary(cfg).value, p.key, 0)
    ensures s.flights == map[1 := Flight(q.key, 3, 2, Primary(cfg).value, q.data, true)]
  {
    var steps := Overlap(p, q);
    s := Run(cfg, EMPTY_SYS, steps);
    var s4 := Run(cfg, EMPTY_SYS, steps[..4]);
    assert steps == steps[..4] + [Finish(0, map[], true)];
    RunStep(cfg, EMPTY_SYS, steps[..4], Finish(0, map[], true));
    OverlapBeforeFinish(cfg, p, q);
    EveryRunIsSound(cfg, steps[..4]);
    StepKeepsInv(cfg, s4, Finish(0, map[], true));
    OvertakenFinish(cfg, p, q, s4);
  }

  lemma OvertakenFinish(cfg: Config, p: Put, q: Put, s4: Sys)
    requires SysInv(s4) && Overtaken(cfg, p, q, s4) && p.key == q.key
    ensures var s := Next(cfg, s4, Finish(0, map[], true));
            && FlightsUnmarked(s) && Blocked(s, Primary(cfg).value, p.key, 0)
            && s.flights == map[1 := Flight(q.key, 3, 2, Primary(cfg).value, q.data, true)]
  {
    OvertakenIsUnmarked(cfg, p, q, s4);
    OvertakenFinishBlocks(cfg, s4, 0, map[]);
    StepKeepsUnmarked(cfg, s4, Finish(0, map[], true));
  }

  lemma OvertakenIsUnmarked(cfg: Config, p: Put, q: Put, s4: Sys)
    requires Overtaken(cfg, p, q, s4)
    ensures FlightsUnmarked(s4)
  {
  }

  lemma FirstBegin(cfg: Config, p: Put)
    requires Primary(cfg).Some? && p.key != ""
    ensures var s1 := Next(cfg, EMPTY_SYS, GatewayBegin(0, p, true, true));
            && s1.w.db == InsertPending(EMPTY_DB, p.user, p.folder, p.name, p.key)
            && s1.flights == map[0 := Flight(p.key, 1, 0, Primary(cfg).value, p.data, false)]
  {
    assert Drop(EMPTY_DB, ReadyBlobsAt(EMPTY_DB, p.key)) == EMPTY_DB == DropKey(EMPTY_DB, p.key);
  }

  lemma SecondBegin(cfg: Config, s1: Sys, p: Put, q: Put)
    requires Primary(cfg).Some? && p.key == q.key != ""
    requires s1.w.db == InsertPending(EMPTY_DB, p.user, p.folder, p.name, p.key)
    requires s1.flights == map[0 := Flight(p.key, 1, 0, Primary(cfg).value, p.data, false)]
    ensures var s2 := Next(cfg, s1, GatewayBegin(1, q, true, true));
            && s2.w.db.locs == map[] && s2.w.db.blobs == map[2 := Blob(q.key, q.user, false)]
            && s2.flights == s1.flights[1 := Flight(q.key, 3, 2, Primary(cfg).value, q.data, false)]
  {
    assert ReadyBlobsAt(s1.w.db, q.key) == {};
    assert BlobsAt(Drop(s1.w.db, {}), q.key) == {0};
  }

  lemma BothStored(cfg: Config, s2: Sys, a: Flight, b: Flight)
    requires s2.flights == map[0 := a, 1 := b] && !a.stored && !b.stored
    ensures var s4 := Next(cfg, Next(cfg, s2, StoreObject(0)), StoreObject(1));
            s4.w.db == s2.w.db && s4.flights == map[0 := a.(stored := true), 1 := b.(stored := true)]
  {
  }

  lemma RunFour(cfg: Config, s: Sys, o: seq<Step>)
    requires |o| >= 4
    ensures Run(cfg, s, o[..4]) == Next(cfg, Next(cfg, Next(cfg, Next(cfg, s, o[0]), o[1]), o[2]), o[3])
  {
    assert o[..0] == [];
    assert o[..1] == o[..0] + [o[0]] && o[..2] == o[..1] + [o[1]] && o[..3] == o[..2] + [o[2]]
           && o[..4] == o[..3] + [o[3]];
    RunStep(cfg, s, o[..0], o[0]);
    RunStep(cfg, s, o[..1], o[1]);
    RunStep(cfg, s, o[..2], o[2]);
    RunStep(cfg, s, o[..3], o[3]);
  }

  ghost predicate Overtaken(cfg: Config, p: Put, q: Put, s: Sys) {
    && s.w.db.locs == map[] && s.w.db.blobs == map[2 := Blob(q.key, q.user, false)]
    && Primary(cfg).Some?
    && s.flights == map[0 := Flight(p.key, 1, 0, Primary(cfg).value, p.data, true),
                        1 := Flight(q.key, 3, 2, Primary(cfg).value, q.data, true)]
  }

  lemma OverlapBeforeFinish(cfg: Config, p: Put, q: Put)
    requires Primary(cfg).Some? && p.key == q.key != ""
    ensures Overtaken(cfg, p, q, Run(cfg, EMPTY_SYS, Overlap(p, q)[..4]))
  {
    var st := Primary(cfg).value;
    FirstBegin(cfg, p);
    var s1 := Next(cfg, EMPTY_SYS, GatewayBegin(0, p, true, true));
    SecondBegin(cfg, s1, p, q);
    var s2 := Next(cfg, s1, GatewayBegin(1, q, true, true));
    BothStored(cfg, s2, Flight(p.key, 1, 0, st, p.data, false), Flight(q.key, 3, 2, st, q.data, false));
    RunFour(cfg, EMPTY_SYS, Overlap(p, q));
  }
}
