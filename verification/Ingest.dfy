/** Pulling a store's objects into the workspace
    (server/internal/store/ingest.go). */
module Ingest {
  import opened Strings
  import opened Tables
  import opened Replication
  import opened Records
  import opened Landing
  import N = Naming

  datatype Object = Object(path: string, name: string)

  /** One ingest: the store, the primary it copies to, the store's root prefix,
      its tombstoned paths, and who triggered it. */
  datatype Job = Job(cfg: Config, store: StoreId, primary: StoreId, prefix: string, tombstones: set<string>,
                     user: string)

  function Display(job: Job, path: string): string { N.DisplayPathFromKey(path, job.prefix) }

  predicate Contains(s: string, sub: string) { N.HasPrefix(s, sub) || (s != "" && Contains(s[1..], sub)) }

  /** Not a probe object, below the prefix, not tombstoned. */
  predicate Eligible(job: Job, path: string) {
    !Contains(path, ".locker-store-test-") && Display(job, path) != "" && path !in job.tombstones
  }

  ghost predicate HoldsAt(s: string, sub: string, i: int) { 0 <= i <= |s| - |sub| && s[i..i + |sub|] == sub }

  lemma {:induction false} ContainsIff(s: string, sub: string)
    ensures Contains(s, sub) <==> exists i :: HoldsAt(s, sub, i)
  {
    if N.HasPrefix(s, sub) {
      assert HoldsAt(s, sub, 0);
    } else if s != "" {
      ContainsIff(s[1..], sub);
      if i :| HoldsAt(s[1..], sub, i) {
        assert s[i + 1..i + 1 + |sub|] == s[1..][i..i + |sub|] && HoldsAt(s, sub, i + 1);
      }
      if i :| HoldsAt(s, sub, i) {
        assert i > 0 && s[1..][i - 1..i - 1 + |sub|] == s[i..i + |sub|];
        assert HoldsAt(s[1..], sub, i - 1);
      }
    }
  }

  ghost predicate NotOnlySlashes(rest: string) { exists k :: 0 <= k < |rest| && rest[k] != '/' }

  /** The path lies below the root prefix, with something left of it there. */
  ghost predicate Below(prefix: string, path: string) {
    if prefix == "" then NotOnlySlashes(path)
    else exists rest :: path == prefix + "/" + rest && NotOnlySlashes(rest)
  }

  /** The path may be ingested: no tombstone names it, it is no probe's, and it
      is below the store's root prefix. */
  ghost predicate MayIngest(job: Job, path: string) {
    path !in job.tombstones && (forall i :: !HoldsAt(path, ".locker-store-test-", i)) && Below(job.prefix, path)
  }

  lemma TrimLeavesIff(rest: string)
    ensures TrimOuter(rest, '/') != "" <==> NotOnlySlashes(rest)
  {
    var i, j := TrimOuterIs(rest, '/');
    if k :| 0 <= k < |rest| && rest[k] != '/' { assert i <= k < j; }
  }

  lemma HeadOf(head: string, rest: string)
    ensures N.HasPrefix(head + rest, head)
  {
    assert (head + rest)[..|head|] == head;
  }

  lemma BelowIff(prefix: string, path: string)
    ensures N.DisplayPathFromKey(path, prefix) != "" <==> Below(prefix, path)
  {
    if prefix == "" {
      TrimLeavesIff(path);
    } else if N.HasPrefix(path, prefix + "/") {
      var rest := path[|prefix| + 1..];
      assert path == prefix + "/" + rest;
      N.DisplayPathIs(prefix, rest);
      TrimLeavesIff(rest);
      assert forall r :: path == prefix + "/" + r ==> r == rest;
    } else {
      N.DisplayPathIs(prefix, "");
      forall r ensures N.HasPrefix(prefix + "/" + r, prefix + "/") { HeadOf(prefix + "/", r); }
    }
  }

  lemma EligibleIff(job: Job, path: string)
    ensures Eligible(job, path) <==> MayIngest(job, path)
  {
    ContainsIff(path, ".locker-store-test-");
    BelowIff(job.prefix, path);
  }

  /** A location on the store names the path. */
  predicate Tracked(db: DB, s: StoreId, path: string) {
    exists l :: l in db.locs && l.1 == s && db.locs[l].path == path
  }

  function NameOf(job: Job, o: Object): string { if o.name != "" then o.name else Base(Display(job, o.path)) }

  lemma {:induction false} AfterLastSlashIs(s: string)
    ensures var t := AfterLastSlash(s);
            '/' !in t && exists pre :: s == pre + t && (pre == "" || EndsInSlash(pre))
    decreases |s|
  {
    if s == "" || EndsInSlash(s) {
      assert s == s + "";
    } else {
      AfterLastSlashIs(s[..|s| - 1]);
      var pre :| s[..|s| - 1] == pre + AfterLastSlash(s[..|s| - 1]) && (pre == "" || EndsInSlash(pre));
      assert s == pre + AfterLastSlash(s);
    }
  }

  /** An object without a name of its own is named by the last element of its
      display path. */
  lemma NameOfIs(job: Job, o: Object)
    requires Display(job, o.path) != ""
    ensures o.name != "" ==> NameOf(job, o) == o.name
    ensures o.name == "" ==>
              && '/' !in NameOf(job, o)
              && exists pre :: Display(job, o.path) == pre + NameOf(job, o) && (pre == "" || EndsInSlash(pre))
  {
    var d := Display(job, o.path);
    TrimmedEnds(o.path, '/');
    if N.HasPrefix(o.path, job.prefix + "/") { TrimmedEnds(o.path[|job.prefix| + 1..], '/'); }
    assert !EndsInSlash(d) && StripTrailing(d) == d;
    AfterLastSlashIs(d);
  }

  /** The world once one object's rows are recorded under a deduplicated
      name; None is an error, on which the caller rolls back. */
  function Record(job: Job, w: World, o: Object, name: string, uploadFails: bool): Option<World> {
    var display := Display(job, o.path);
    var d1 := CreatePending(w.db, job.user, None, name, display);
    var blob, file := w.db.next, w.db.next + 1;
    var same := job.store == job.primary;
    var data := Lookup(w.disk, job.store, o.path);
    if !same && (data.None? || uploadFails) then None
    else
      match MarkReady(d1, file, blob, job.primary, if same then o.path else display)
      case None => None
      case Some(d2) =>
        match InsertLoc(d2, blob, job.store, Location(o.path, if job.cfg.replicate then Available else Pending))
        case None => None
        case Some(d3) => Some(World(d3, if same then w.disk else Write(w.disk, job.primary, display, data)))
  }

  /** The world after the fan-out, whose errors are ignored. */
  function FanOut(job: Job, w: World, f: Id, faults: Faults): World {
    if job.cfg.replicate then SyncFile(job.cfg, w, f, Some(job.store), faults).0 else w
  }

  function IngestOne(job: Job, w: World, o: Object, name: string, uploadFails: bool, faults: Faults): Option<World> {
    match Record(job, w, o, name, uploadFails)
    case None => None
    case Some(w1) => Some(FanOut(job, w1, w.db.next + 1, faults))
  }

  /** What the loop carries: tables and objects, root names in use, the count. */
  datatype Cursor = Cursor(w: World, names: set<string>, count: nat)

  predicate Skips(job: Job, db: DB, o: Object) { !Eligible(job, o.path) || Tracked(db, job.store, o.path) }

  /** One pass of the loop takes c to c2. */
  ghost predicate Pass(job: Job, o: Object, fails: bool, faults: Faults, c: Cursor, c2: Cursor) {
    if Skips(job, c.w.db, o) then c2 == c
    else exists name :: Ingested(job, o, fails, faults, c, c2, name)
  }

  ghost predicate Ingested(job: Job, o: Object, fails: bool, faults: Faults, c: Cursor, c2: Cursor, name: string) {
    && N.Deduped(NameOf(job, o), c.names, name)
    && IngestOne(job, c.w, o, name, fails, faults) == Some(c2.w)
    && c2.names == c.names + {name} && c2.count == c.count + 1
  }

  ghost predicate PassAt(job: Job, objs: seq<Object>, fails: Object -> bool, faults: Object -> Faults, cs: seq<Cursor>,
                         i: nat)
    requires i < |objs| && |cs| == |objs| + 1
  {
    Pass(job, objs[i], fails(objs[i]), faults(objs[i]), cs[i], cs[i + 1])
  }

  /** A run without error: cursors before, between and after the objects. */
  ghost predicate Runs(job: Job, objs: seq<Object>, fails: Object -> bool, faults: Object -> Faults, cs: seq<Cursor>) {
    |cs| == |objs| + 1 && forall i: nat :: i < |objs| ==> PassAt(job, objs, fails, faults, cs, i)
  }

  function RootNames(db: DB): set<string> {
    set f | f in db.files && db.files[f].folder == None && db.files[f].ready :: db.files[f].name
  }

  /** `objs` is the store's listing under its prefix. On an error the caller
      rolls the tables back. */
  method IngestFromStore(ws: Workspace, job: Job, objs: seq<Object>, fails: Object -> bool, faults: Object -> Faults)
    returns (ok: bool, ingested: nat, ghost cs: seq<Cursor>)
    requires job.cfg == ws.cfg && Primary(ws.cfg) == Some(job.primary) && KeysUnique(ws.db) && LocIdsBelowNext(ws.db)
    modifies ws
    ensures ok ==> Runs(job, objs, fails, faults, cs)
                   && cs[0] == Cursor(old(World(ws.db, ws.disk)), RootNames(old(ws.db)), 0)
                   && World(ws.db, ws.disk) == cs[|objs|].w && ingested == cs[|objs|].count
    ensures ok ==> forall n :: n in cs[0].names <==>
              exists f :: f in old(ws.db).files && old(ws.db).files[f].folder == None && old(ws.db).files[f].ready
                          && old(ws.db).files[f].name == n
    ensures ok ==> forall l :: l in ws.db.locs && l.1 == job.store ==>
              (l in old(ws.db).locs && ws.db.locs[l] == old(ws.db).locs[l])
              || (MayIngest(job, ws.db.locs[l].path)
                  && exists i :: 0 <= i < |objs| && objs[i].path == ws.db.locs[l].path)
    ensures AllTracked(job, old(ws.db), objs) ==>
            ok && ingested == 0 && World(ws.db, ws.disk) == old(World(ws.db, ws.disk))
  {
    var existing := new N.NameSet(RootNames(ws.db));
    ingested := 0;
    cs := [Cursor(World(ws.db, ws.disk), existing.names, 0)];
    for i := 0 to |objs|
      invariant |cs| == i + 1 && cs[i] == Cursor(World(ws.db, ws.disk), existing.names, ingested)
      invariant cs[0] == Cursor(old(World(ws.db, ws.disk)), RootNames(old(ws.db)), 0)
      invariant AllTracked(job, old(ws.db), objs) ==>
                ingested == 0 && World(ws.db, ws.disk) == old(World(ws.db, ws.disk))
      invariant fresh(existing) && KeysUnique(ws.db) && LocIdsBelowNext(ws.db)
      invariant forall j :: 0 <= j < i ==> Pass(job, objs[j], fails(objs[j]), faults(objs[j]), cs[j], cs[j + 1])
    {
      var obj := objs[i];
      ghost var c := cs[i];
      if Skips(job, ws.db, obj) {
        cs := cs + [c];
        continue;
      }
      var name := existing.DedupName(NameOf(job, obj));
      ok := IngestObject(ws, job, obj, name, fails(obj), faults(obj));
      if !ok { return; }
      IngestKeepsKeys(job, c.w, obj, name, fails(obj), faults(obj));
      ingested := ingested + 1;
      ghost var c2 := Cursor(World(ws.db, ws.disk), existing.names, ingested);
      assert Ingested(job, obj, fails(obj), faults(obj), c, c2, name);
      cs := cs + [c2];
    }
    ok := true;
    assert forall i: nat :: i < |objs| ==> PassAt(job, objs, fails, faults, cs, i);
    OnlyIngestedLocated(job, objs, fails, faults, cs);
  }

  /** The body of the loop for an object that is not skipped. */
  method IngestObject(ws: Workspace, job: Job, obj: Object, name: string, uploadFails: bool, faults: Faults)
    returns (ok: bool)
    requires job.cfg == ws.cfg && KeysUnique(ws.db)
    modifies ws
    ensures ok <==> IngestOne(job, old(World(ws.db, ws.disk)), obj, name, uploadFails, faults).Some?
    ensures ok ==>
            IngestOne(job, old(World(ws.db, ws.disk)), obj, name, uploadFails, faults) == Some(World(ws.db, ws.disk))
  {
    var display := Display(job, obj.path);
    var blob, file := CreatePendingFileUpload(ws, job.user, None, name, display);
    var primaryPath := display;
    if job.store != job.primary {
      var data := Lookup(ws.disk, job.store, obj.path);
      if data.None? || uploadFails { return false; }
      ws.disk := Write(ws.disk, job.primary, display, data);
    } else {
      primaryPath := obj.path;
    }
    ok := MarkFileUploadReady(ws, file, blob, job.primary, primaryPath);
    if !ok { return; }
    var inserted := InsertLoc(ws.db, blob, job.store,
                              Location(obj.path, if ws.cfg.replicate then Available else Pending));
    if inserted.None? { return false; }
    ws.db := inserted.value;
    if ws.cfg.replicate {
      var _ := SyncFileToStores(ws, file, Some(job.store), faults);
    }
  }

  // ---------------------------------------------------------- what one object does

  /** From db to db2: the rows at the object's display path dropped, and a
      ready pair added at the root, located at the object's path on the ingest
      store (a copy to read from only on the primary or in replicate mode). */
  ghost predicate Added(job: Job, db: DB, db2: DB, o: Object, name: string) {
    var d := DropKey(db, Display(job, o.path));
    && db2.next == db.next + 2 && LocIdsBelowNext(db2)
    && db2.blobs == d.blobs[db.next := Blob(Display(job, o.path), job.user, true)]
    && db2.files.Keys == d.files.Keys + {db.next + 1}
    && db2.files[db.next + 1]
       == File(None, db.next, name, if job.store == job.primary then o.path else Display(job, o.path), true)
    && (forall f :: f in d.files && f != db.next + 1 ==> db2.files[f] == d.files[f])
    && (forall l :: l in d.locs ==> l in db2.locs && db2.locs[l] == d.locs[l])
    && (forall l :: l in db2.locs && l.1 == job.store ==> l in d.locs || l == (db.next, job.store))
    && (db.next, job.store) in db2.locs
    && db2.locs[(db.next, job.store)]
       == Location(o.path, if job.store == job.primary || job.cfg.replicate then Available else Pending)
  }

  /** The tables once an object is recorded. */
  function RecordedRows(job: Job, db: DB, o: Object, name: string): DB {
    var d, same := DropKey(db, Display(job, o.path)), job.store == job.primary;
    var path := if same then o.path else Display(job, o.path);
    var locs := d.locs[(db.next, job.primary) := Location(path, Available)];
    DB(d.blobs[db.next := Blob(Display(job, o.path), job.user, true)],
       d.files[db.next + 1 := File(None, db.next, name, path, true)],
       if same then locs
       else locs[(db.next, job.store) := Location(o.path, if job.cfg.replicate then Available else Pending)],
       db.next + 2)
  }

  lemma RecordIs(job: Job, w: World, o: Object, name: string, uploadFails: bool)
    requires LocIdsBelowNext(w.db) && Record(job, w, o, name, uploadFails).Some?
    ensures Record(job, w, o, name, uploadFails).value.db == RecordedRows(job, w.db, o, name)
  {
    var d := DropKey(w.db, Display(job, o.path));
    MarkFresh(d, job.user, None, name, Display(job, o.path), job.primary,
              if job.store == job.primary then o.path else Display(job, o.path));
    assert (w.db.next, job.store) !in d.locs;
  }

  lemma RecordedIsAdded(job: Job, db: DB, o: Object, name: string)
    requires LocIdsBelowNext(db)
    ensures Added(job, db, RecordedRows(job, db, o, name), o, name)
  {
    var d := DropKey(db, Display(job, o.path));
    assert forall l :: l in d.locs ==> l in db.locs && l.0 != db.next;
  }

  /** The fan-out adds copies of the file's blob on other stores. */
  lemma FanOutAdds(job: Job, w: World, f: Id, faults: Faults)
    requires f in w.db.files && w.db.files[f].blobId in w.db.blobs
    ensures var w2, b := FanOut(job, w, f, faults), w.db.files[f].blobId;
            && w2.db == w.db.(locs := w2.db.locs)
            && (forall l :: l in w.db.locs ==> l in w2.db.locs && w2.db.locs[l] == w.db.locs[l])
            && (forall l :: l in w2.db.locs && l !in w.db.locs ==> l.0 == b && l.1 != job.store)
            && (forall p :: (p in w.disk || p in w2.disk) && (p.0 == job.store || (b, p.0) in w.db.locs) ==>
                  p in w.disk && p in w2.disk && w2.disk[p] == w.disk[p])
  {
    if job.cfg.replicate && w.db.files[f].ready && Source(job.cfg, w.db, f, Some(job.store)).Some? {
      var b := w.db.files[f].blobId;
      var (src, path) := Source(job.cfg, w.db, f, Some(job.store)).value;
      SyncTouchesOnlyCopies(w, b, w.db.blobs[b].objectKey, src, path, Targets(job.cfg.stores, src), faults);
    }
  }

  lemma AddedStays(job: Job, db: DB, db1: DB, db2: DB, o: Object, name: string)
    requires Added(job, db, db1, o, name) && LocIdsBelowNext(db2)
    requires db2 == db1.(locs := db2.locs)
    requires forall l :: l in db1.locs ==> l in db2.locs && db2.locs[l] == db1.locs[l]
    requires forall l :: l in db2.locs && l !in db1.locs ==> l.1 != job.store
    ensures Added(job, db, db2, o, name)
  {
  }

  lemma FanOutKeepsAdded(job: Job, db: DB, w1: World, o: Object, name: string, faults: Faults)
    requires Added(job, db, w1.db, o, name)
    ensures Added(job, db, FanOut(job, w1, db.next + 1, faults).db, o, name)
  {
    FanOutAdds(job, w1, db.next + 1, faults);
    AddedStays(job, db, w1.db, FanOut(job, w1, db.next + 1, faults).db, o, name);
  }

  lemma RecordedIsFannedOut(job: Job, db: DB, w1: World, o: Object, name: string, faults: Faults)
    requires LocIdsBelowNext(db) && w1.db == RecordedRows(job, db, o, name)
    ensures Added(job, db, FanOut(job, w1, db.next + 1, faults).db, o, name)
  {
    RecordedIsAdded(job, db, o, name);
    FanOutKeepsAdded(job, db, w1, o, name, faults);
  }

  lemma IngestAdds(job: Job, w: World, o: Object, name: string, uploadFails: bool, faults: Faults)
    requires LocIdsBelowNext(w.db) && IngestOne(job, w, o, name, uploadFails, faults).Some?
    ensures Added(job, w.db, IngestOne(job, w, o, name, uploadFails, faults).value.db, o, name)
  {
    var w1 := IngestedIs(job, w, o, name, uploadFails, faults);
    RecordedIsFannedOut(job, w.db, w1, o, name, faults);
  }

  lemma IngestedIs(job: Job, w: World, o: Object, name: string, uploadFails: bool, faults: Faults) returns (w1: World)
    requires LocIdsBelowNext(w.db) && IngestOne(job, w, o, name, uploadFails, faults).Some?
    ensures w1.db == RecordedRows(job, w.db, o, name)
    ensures IngestOne(job, w, o, name, uploadFails, faults) == Some(FanOut(job, w1, w.db.next + 1, faults))
  {
    w1 := Record(job, w, o, name, uploadFails).value;
    RecordIs(job, w, o, name, uploadFails);
  }

  lemma IngestKeepsKeys(job: Job, w: World, o: Object, name: string, uploadFails: bool, faults: Faults)
    requires IngestOne(job, w, o, name, uploadFails, faults).Some? && KeysUnique(w.db) && LocIdsBelowNext(w.db)
    ensures KeysUnique(IngestOne(job, w, o, name, uploadFails, faults).value.db)
    ensures LocIdsBelowNext(IngestOne(job, w, o, name, uploadFails, faults).value.db)
  {
    IngestAdds(job, w, o, name, uploadFails, faults);
  }

  /** The ingest store keeps every object, and the primary's copy holds the
      bytes of the source object. */
  lemma IngestCopiesBytes(job: Job, w: World, o: Object, name: string, uploadFails: bool, faults: Faults)
    requires IngestOne(job, w, o, name, uploadFails, faults).Some? && LocIdsBelowNext(w.db)
    ensures var w2 := IngestOne(job, w, o, name, uploadFails, faults).value;
            && (forall path :: Lookup(w2.disk, job.store, path) == Lookup(w.disk, job.store, path))
            && (job.store != job.primary ==>
                  && Lookup(w.disk, job.store, o.path).Some?
                  && Lookup(w2.disk, job.primary, Display(job, o.path)) == Lookup(w.disk, job.store, o.path)
                  && (w.db.next, job.primary) in w2.db.locs
                  && w2.db.locs[(w.db.next, job.primary)] == Location(Display(job, o.path), Available))
  {
    RecordIs(job, w, o, name, uploadFails);
    RecordDisk(job, w, o, name, uploadFails);
    CopiesStay(job, w, Record(job, w, o, name, uploadFails).value, o, name, faults);
  }

  lemma RecordDisk(job: Job, w: World, o: Object, name: string, uploadFails: bool)
    requires Record(job, w, o, name, uploadFails).Some?
    ensures var data := Lookup(w.disk, job.store, o.path);
            && (job.store != job.primary ==> data.Some?)
            && Record(job, w, o, name, uploadFails).value.disk
               == if job.store == job.primary then w.disk else Write(w.disk, job.primary, Display(job, o.path), data)
  {
  }

  lemma CopiesStay(job: Job, w: World, w1: World, o: Object, name: string, faults: Faults)
    requires w1.db == RecordedRows(job, w.db, o, name)
    requires job.store != job.primary ==> Lookup(w.disk, job.store, o.path).Some?
    requires w1.disk == if job.store == job.primary then w.disk
                        else Write(w.disk, job.primary, Display(job, o.path), Lookup(w.disk, job.store, o.path))
    ensures var w2 := FanOut(job, w1, w.db.next + 1, faults);
            && (forall path :: Lookup(w2.disk, job.store, path) == Lookup(w.disk, job.store, path))
            && (job.store != job.primary ==>
                  && Lookup(w2.disk, job.primary, Display(job, o.path)) == Lookup(w.disk, job.store, o.path)
                  && (w.db.next, job.primary) in w2.db.locs
                  && w2.db.locs[(w.db.next, job.primary)] == Location(Display(job, o.path), Available))
  {
    FanOutAdds(job, w1, w.db.next + 1, faults);
  }

  // ------------------------------------------------------------- running it again

  /** The ingest store's locations at eligible paths came from ingest: each is
      of a live blob named by the path's display path. */
  ghost predicate FromIngest(job: Job, db: DB) {
    forall l :: l in db.locs && l.1 == job.store && Eligible(job, db.locs[l].path) ==>
      l.0 in db.blobs && db.blobs[l.0].objectKey == Display(job, db.locs[l].path)
  }

  ghost predicate Fit(job: Job, db: DB) { FromIngest(job, db) && KeysUnique(db) && LocIdsBelowNext(db) }

  /** No two eligible objects share a display path. */
  ghost predicate DisplaysDistinct(job: Job, objs: seq<Object>) {
    forall i, j :: 0 <= i < j < |objs| && Eligible(job, objs[i].path) && Eligible(job, objs[j].path) ==>
      Display(job, objs[i].path) != Display(job, objs[j].path)
  }

  /** Ingesting o kept what was fit fit, tracks o, and untracks no object with
      another display path. */
  ghost predicate Tracks(job: Job, o: Object, db: DB, db2: DB) {
    && Fit(job, db2) && Tracked(db2, job.store, o.path)
    && forall p :: Eligible(job, p) && Tracked(db, job.store, p) && Display(job, p) != Display(job, o.path) ==>
         Tracked(db2, job.store, p)
  }

  lemma AddedTracks(job: Job, o: Object, name: string, db: DB, db2: DB)
    requires Fit(job, db) && Added(job, db, db2, o, name)
    ensures Tracks(job, o, db, db2)
  {
    assert (db.next, job.store) in db2.locs;
    forall p | Eligible(job, p) && Tracked(db, job.store, p) && Display(job, p) != Display(job, o.path)
      ensures Tracked(db2, job.store, p)
    {
      var l :| l in db.locs && l.1 == job.store && db.locs[l].path == p;
      assert l in DropKey(db, Display(job, o.path)).locs;
    }
  }

  /** Two tracked eligible paths with one display path are one path. */
  lemma OneTrackedPerDisplay(job: Job, db: DB, p: string, q: string)
    requires Fit(job, db) && Eligible(job, p) && Eligible(job, q)
    requires Tracked(db, job.store, p) && Tracked(db, job.store, q)
    ensures Display(job, p) == Display(job, q) ==> p == q
  {
    var k :| k in db.locs && k.1 == job.store && db.locs[k].path == p;
    var l :| l in db.locs && l.1 == job.store && db.locs[l].path == q;
    assert Display(job, p) == Display(job, q) ==> k.0 == l.0;
  }

  /** What a pass of the loop does to the tables. */
  ghost predicate Moved(job: Job, o: Object, c: Cursor, c2: Cursor) {
    && LocIdsBelowNext(c2.w.db)
    && (if Skips(job, c.w.db, o) then c2 == c
        else && c2.count == c.count + 1
             && (Fit(job, c.w.db) ==> Tracks(job, o, c.w.db, c2.w.db))
             && (RootsNamed(c.w.db, c.names) ==> RootsNamed(c2.w.db, c2.names)))
  }

  lemma PassMoves(job: Job, o: Object, fails: bool, faults: Faults, c: Cursor, c2: Cursor)
    requires LocIdsBelowNext(c.w.db) && Pass(job, o, fails, faults, c, c2)
    ensures Moved(job, o, c, c2)
  {
    if !Skips(job, c.w.db, o) {
      var name :| Ingested(job, o, fails, faults, c, c2, name);
      IngestAdds(job, c.w, o, name, fails, faults);
      N.DedupedIsUnique(NameOf(job, o), c.names, name, name);
      AddedMoves(job, o, name, c, c2);
    }
  }

  lemma AddedMoves(job: Job, o: Object, name: string, c: Cursor, c2: Cursor)
    requires Added(job, c.w.db, c2.w.db, o, name) && name !in c.names
    requires c2.names == c.names + {name} && c2.count == c.count + 1 && !Skips(job, c.w.db, o)
    ensures Moved(job, o, c, c2)
  {
    if Fit(job, c.w.db) { AddedTracks(job, o, name, c.w.db, c2.w.db); }
    if RootsNamed(c.w.db, c.names) {
      AddedIsOneRoot(job, o, name, c.w.db, c2.w.db);
      NewRootIsDistinct(c.w.db, c2.w.db, name, c.names);
    }
  }

  ghost predicate MovedAt(job: Job, objs: seq<Object>, cs: seq<Cursor>, i: nat)
    requires i < |objs| && |cs| == |objs| + 1
  {
    Moved(job, objs[i], cs[i], cs[i + 1])
  }

  ghost predicate Moves(job: Job, objs: seq<Object>, cs: seq<Cursor>) {
    |cs| == |objs| + 1 && forall i: nat :: i < |objs| ==> MovedAt(job, objs, cs, i)
  }

  lemma MoveAt(job: Job, objs: seq<Object>, fails: Object -> bool, faults: Object -> Faults, cs: seq<Cursor>, i: nat)
    requires Runs(job, objs, fails, faults, cs) && i < |objs| && LocIdsBelowNext(cs[i].w.db)
    ensures MovedAt(job, objs, cs, i)
  {
    assert PassAt(job, objs, fails, faults, cs, i);
    PassMoves(job, objs[i], fails(objs[i]), faults(objs[i]), cs[i], cs[i + 1]);
  }

  lemma {:induction false} LocIdsStay(job: Job, objs: seq<Object>, cs: seq<Cursor>, n: nat)
    requires |cs| == |objs| + 1 && n <= |objs| && LocIdsBelowNext(cs[0].w.db)
    requires forall i: nat {:trigger MovedAt(job, objs, cs, i)} ::
               i < |objs| && LocIdsBelowNext(cs[i].w.db) ==> MovedAt(job, objs, cs, i)
    ensures LocIdsBelowNext(cs[n].w.db)
  {
    if n > 0 {
      LocIdsStay(job, objs, cs, n - 1);
      assert MovedAt(job, objs, cs, n - 1);
    }
  }

  lemma RunsMove(job: Job, objs: seq<Object>, fails: Object -> bool, faults: Object -> Faults, cs: seq<Cursor>)
    requires Runs(job, objs, fails, faults, cs) && LocIdsBelowNext(cs[0].w.db)
    ensures Moves(job, objs, cs) && LocIdsBelowNext(cs[|objs|].w.db)
  {
    forall i: nat | i < |objs| && LocIdsBelowNext(cs[i].w.db) ensures MovedAt(job, objs, cs, i) {
      MoveAt(job, objs, fails, faults, cs, i);
    }
    forall i: nat | i <= |objs| ensures LocIdsBelowNext(cs[i].w.db) { LocIdsStay(job, objs, cs, i); }
  }

  ghost predicate AllTracked(job: Job, db: DB, objs: seq<Object>) {
    forall i :: 0 <= i < |objs| && Eligible(job, objs[i].path) ==> Tracked(db, job.store, objs[i].path)
  }

  lemma MoveTracks(job: Job, o: Object, c: Cursor, c2: Cursor, done: seq<Object>)
    requires Fit(job, c.w.db) && Moved(job, o, c, c2) && AllTracked(job, c.w.db, done)
    requires forall i :: (0 <= i < |done| && Eligible(job, done[i].path) && Eligible(job, o.path)) ==>
               Display(job, done[i].path) != Display(job, o.path)
    ensures AllTracked(job, c2.w.db, done + [o])
  {
  }

  lemma {:induction false} RunKeepsFit(job: Job, objs: seq<Object>, cs: seq<Cursor>, n: nat)
    requires Moves(job, objs, cs) && Fit(job, cs[0].w.db) && n <= |objs|
    ensures Fit(job, cs[n].w.db)
  {
    if n > 0 {
      RunKeepsFit(job, objs, cs, n - 1);
      assert MovedAt(job, objs, cs, n - 1);
    }
  }

  lemma {:induction false} RunTracks(job: Job, objs: seq<Object>, cs: seq<Cursor>, n: nat)
    requires Moves(job, objs, cs) && Fit(job, cs[0].w.db) && DisplaysDistinct(job, objs) && n <= |objs|
    ensures AllTracked(job, cs[n].w.db, objs[..n])
  {
    if n > 0 {
      RunTracks(job, objs, cs, n - 1);
      RunKeepsFit(job, objs, cs, n - 1);
      assert MovedAt(job, objs, cs, n - 1);
      MoveTracks(job, objs[n - 1], cs[n - 1], cs[n], objs[..n - 1]);
      assert objs[..n] == objs[..n - 1] + [objs[n - 1]];
    }
  }

  /** A run counts nothing exactly when every object is skipped, and then it
      changes nothing. */
  lemma {:induction false} RunCounts(job: Job, objs: seq<Object>, cs: seq<Cursor>, n: nat)
    requires Moves(job, objs, cs) && n <= |objs|
    ensures cs[n].count >= cs[0].count
    ensures cs[n].count == cs[0].count ==> cs[n] == cs[0]
    ensures cs[n].count == cs[0].count <==> AllTracked(job, cs[0].w.db, objs[..n])
  {
    if n > 0 {
      RunCounts(job, objs, cs, n - 1);
      assert MovedAt(job, objs, cs, n - 1);
      assert objs[..n][n - 1] == objs[n - 1];
      assert forall i :: 0 <= i < n - 1 ==> objs[..n - 1][i] == objs[..n][i];
    }
  }

  /** Ingesting an unchanged store a second time ingests nothing, and changes
      nothing, exactly when no two eligible objects share a display path. This
      holds in both storage modes, whether or not the store is the primary,
      and whatever uploads and copies fail. */
  lemma IngestAgain(job: Job, objs: seq<Object>, fails: Object -> bool, faults: Object -> Faults, cs: seq<Cursor>,
                    fails2: Object -> bool, faults2: Object -> Faults, cs2: seq<Cursor>)
    requires Runs(job, objs, fails, faults, cs) && Runs(job, objs, fails2, faults2, cs2)
    requires Fit(job, cs[0].w.db) && forall i, j :: 0 <= i < j < |objs| ==> objs[i].path != objs[j].path
    requires cs2[0].w == cs[|objs|].w && cs2[0].count == 0
    ensures cs2[|objs|].count == 0 <==> DisplaysDistinct(job, objs)
    ensures cs2[|objs|].count == 0 ==> cs2[|objs|].w == cs[|objs|].w
  {
    RunsMove(job, objs, fails, faults, cs);
    RunsMove(job, objs, fails2, faults2, cs2);
    MovesAgain(job, objs, cs, cs2);
  }

  lemma MovesAgain(job: Job, objs: seq<Object>, cs: seq<Cursor>, cs2: seq<Cursor>)
    requires Moves(job, objs, cs) && Moves(job, objs, cs2)
    requires Fit(job, cs[0].w.db) && forall i, j :: 0 <= i < j < |objs| ==> objs[i].path != objs[j].path
    requires cs2[0].w == cs[|objs|].w && cs2[0].count == 0
    ensures cs2[|objs|].count == 0 <==> DisplaysDistinct(job, objs)
    ensures cs2[|objs|].count == 0 ==> cs2[|objs|].w == cs[|objs|].w
  {
    var db := cs[|objs|].w.db;
    if DisplaysDistinct(job, objs) { RunTracks(job, objs, cs, |objs|); }
    RunKeepsFit(job, objs, cs, |objs|);
    RunCounts(job, objs, cs2, |objs|);
    assert objs[..|objs|] == objs;
    if AllTracked(job, db, objs) {
      forall i, j | 0 <= i < j < |objs| && Eligible(job, objs[i].path) && Eligible(job, objs[j].path)
        ensures Display(job, objs[i].path) != Display(job, objs[j].path)
      {
        OneTrackedPerDisplay(job, db, objs[i].path, objs[j].path);
      }
    }
  }

  // ------------------------------------------------------- what gets a location

  /** Every location of db2 on the ingest store is one of db, or at a path of
      these objects that may be ingested. */
  ghost predicate LocatedFrom(job: Job, db: DB, db2: DB, objs: seq<Object>) {
    forall l :: l in db2.locs && l.1 == job.store ==>
      (l in db.locs && db2.locs[l] == db.locs[l])
      || (MayIngest(job, db2.locs[l].path) && exists i :: 0 <= i < |objs| && objs[i].path == db2.locs[l].path)
  }

  lemma PassLocates(job: Job, o: Object, fails: bool, faults: Faults, c: Cursor, c2: Cursor)
    requires LocIdsBelowNext(c.w.db) && Pass(job, o, fails, faults, c, c2)
    ensures LocatedFrom(job, c.w.db, c2.w.db, [o])
  {
    if !Skips(job, c.w.db, o) {
      var name :| Ingested(job, o, fails, faults, c, c2, name);
      IngestAdds(job, c.w, o, name, fails, faults);
      EligibleIff(job, o.path);
      assert [o][0].path == o.path;
    }
  }

  lemma LocatedFurther(job: Job, db: DB, db1: DB, db2: DB, done: seq<Object>, o: Object)
    requires LocatedFrom(job, db, db1, done) && LocatedFrom(job, db1, db2, [o])
    ensures LocatedFrom(job, db, db2, done + [o])
  {
    forall l | l in db2.locs && l.1 == job.store
      ensures (l in db.locs && db2.locs[l] == db.locs[l])
              || (MayIngest(job, db2.locs[l].path)
                  && exists i :: 0 <= i < |done + [o]| && (done + [o])[i].path == db2.locs[l].path)
    {
      if l in db1.locs && db2.locs[l] == db1.locs[l] && !(l in db.locs && db1.locs[l] == db.locs[l]) {
        var i :| 0 <= i < |done| && done[i].path == db1.locs[l].path;
        assert (done + [o])[i] == done[i];
      } else if !(l in db1.locs && db2.locs[l] == db1.locs[l]) {
        assert (done + [o])[|done|].path == db2.locs[l].path;
      }
    }
  }

  lemma {:induction false} RunLocates(job: Job, objs: seq<Object>, fails: Object -> bool, faults: Object -> Faults,
                                      cs: seq<Cursor>, n: nat)
    requires Runs(job, objs, fails, faults, cs) && n <= |objs|
    requires forall i: nat :: i <= |objs| ==> LocIdsBelowNext(cs[i].w.db)
    ensures LocatedFrom(job, cs[0].w.db, cs[n].w.db, objs[..n])
  {
    if n > 0 {
      RunLocates(job, objs, fails, faults, cs, n - 1);
      assert PassAt(job, objs, fails, faults, cs, n - 1);
      PassLocates(job, objs[n - 1], fails(objs[n - 1]), faults(objs[n - 1]), cs[n - 1], cs[n]);
      LocatedFurther(job, cs[0].w.db, cs[n - 1].w.db, cs[n].w.db, objs[..n - 1], objs[n - 1]);
      assert objs[..n] == objs[..n - 1] + [objs[n - 1]];
    }
  }

  /** A run gives a location on the ingest store to no path but those of the
      objects that may be ingested: to none that is tombstoned, to no probe, and
      to none outside the prefix. */
  lemma OnlyIngestedLocated(job: Job, objs: seq<Object>, fails: Object -> bool, faults: Object -> Faults,
                            cs: seq<Cursor>)
    requires Runs(job, objs, fails, faults, cs) && LocIdsBelowNext(cs[0].w.db)
    ensures LocatedFrom(job, cs[0].w.db, cs[|objs|].w.db, objs)
  {
    RunsMove(job, objs, fails, faults, cs);
    forall i: nat | i <= |objs| ensures LocIdsBelowNext(cs[i].w.db) {
      forall j: nat | j < |objs| && LocIdsBelowNext(cs[j].w.db) ensures MovedAt(job, objs, cs, j) {}
      LocIdsStay(job, objs, cs, i);
    }
    RunLocates(job, objs, fails, faults, cs, |objs|);
    assert objs[..|objs|] == objs;
  }

  /** In replicate mode an ingested object is copied to every other active write
      store that works and whose path is free. */
  lemma IngestFansOut(job: Job, w: World, o: Object, name: string, uploadFails: bool, faults: Faults, t: StoreId)
    requires ValidConfig(job.cfg) && job.cfg.replicate && IsStore(job.cfg, job.store) && LocIdsBelowNext(w.db)
    requires IngestOne(job, w, o, name, uploadFails, faults).Some? && (job.store, o.path) in w.disk
    requires WantsCopy(job.cfg, job.store, t) && t !in faults && PathFree(w.db, t, Display(job, o.path))
    ensures var w2 := IngestOne(job, w, o, name, uploadFails, faults).value;
            && (w.db.next, t) in w2.db.locs
            && Lookup(w2.disk, t, Display(job, o.path)) == Lookup(w.disk, job.store, o.path)
  {
    var w1 := IngestedWorld(job, w, o, name, uploadFails, faults);
    RecordedFansOut(job, w, w1, o, name, faults, t);
  }

  lemma IngestedWorld(job: Job, w: World, o: Object, name: string, uploadFails: bool, faults: Faults)
    returns (w1: World)
    requires LocIdsBelowNext(w.db) && IngestOne(job, w, o, name, uploadFails, faults).Some?
    ensures w1.db == RecordedRows(job, w.db, o, name)
    ensures w1.disk == if job.store == job.primary then w.disk
                       else Write(w.disk, job.primary, Display(job, o.path), Lookup(w.disk, job.store, o.path))
    ensures IngestOne(job, w, o, name, uploadFails, faults) == Some(FanOut(job, w1, w.db.next + 1, faults))
  {
    w1 := Record(job, w, o, name, uploadFails).value;
    RecordIs(job, w, o, name, uploadFails);
    RecordDisk(job, w, o, name, uploadFails);
  }

  lemma RecordedFansOut(job: Job, w: World, w1: World, o: Object, name: string, faults: Faults, t: StoreId)
    requires ValidConfig(job.cfg) && job.cfg.replicate && IsStore(job.cfg, job.store) && LocIdsBelowNext(w.db)
    requires (job.store, o.path) in w.disk && w1.db == RecordedRows(job, w.db, o, name)
    requires w1.disk == if job.store == job.primary then w.disk
                        else Write(w.disk, job.primary, Display(job, o.path), Lookup(w.disk, job.store, o.path))
    requires WantsCopy(job.cfg, job.store, t) && t !in faults && PathFree(w.db, t, Display(job, o.path))
    ensures var w2 := FanOut(job, w1, w.db.next + 1, faults);
            && (w.db.next, t) in w2.db.locs
            && Lookup(w2.disk, t, Display(job, o.path)) == Lookup(w.disk, job.store, o.path)
  {
    var b, f, key := w.db.next, w.db.next + 1, Display(job, o.path);
    RecordedReadsFrom(job, w1.db, w.db, o, name);
    SyncFileServes(job.cfg, w1, f, Some(job.store), faults, job.store, o.path);
    PathStaysFree(job, w.db, o, name, t);
    CopyIsSource(job, w1, FanOut(job, w1, f, faults), b, key, o.path, faults, t);
  }

  lemma RecordedReadsFrom(job: Job, d: DB, db: DB, o: Object, name: string)
    requires d == RecordedRows(job, db, o, name) && IsStore(job.cfg, job.store)
    ensures var f := db.next + 1;
            && f in d.files && d.files[f].ready && d.files[f].blobId == db.next && db.next in d.blobs
            && d.blobs[db.next].objectKey == Display(job, o.path)
            && ReadsFrom(job.cfg, d, f, Some(job.store), job.store, o.path)
  {
  }

  lemma CopyIsSource(job: Job, w1: World, w2: World, b: Id, key: string, path: string, faults: Faults, t: StoreId)
    requires WantedAreServed(job.cfg, w1, w2, b, key, job.store, path, faults)
    requires OnlyWantedCopies(job.cfg, w1, w2, b, key, job.store)
    requires WantsCopy(job.cfg, job.store, t) && t !in faults && !PathTaken(w1.db, b, t, key)
    requires (job.store, path) in w1.disk
    requires (b, t) in w1.db.locs ==> Lookup(w1.disk, t, key) == Lookup(w1.disk, job.store, path)
    ensures (b, t) in w2.db.locs && Lookup(w2.disk, t, key) == Lookup(w1.disk, job.store, path)
  {
    assert CanServe(w1, b, key, job.store, path, t, faults);
    if (b, t) in w1.db.locs {
      assert Lookup(w2.disk, t, key) == Lookup(w1.disk, t, key);
    } else {
      assert Lookup(w2.disk, t, key) == LeftAt(w1, key, job.store, path, t, faults);
    }
  }

  lemma PathStaysFree(job: Job, db: DB, o: Object, name: string, t: StoreId)
    requires PathFree(db, t, Display(job, o.path)) && LocIdsBelowNext(db)
    ensures !PathTaken(RecordedRows(job, db, o, name), db.next, t, Display(job, o.path))
    ensures (db.next, t) in RecordedRows(job, db, o, name).locs ==> t == job.primary || t == job.store
  {
    var d, key := DropKey(db, Display(job, o.path)), Display(job, o.path);
    var locs := RecordedRows(job, db, o, name).locs;
    forall l | l in locs && l.0 != db.next && l.1 == t ensures locs[l].path != key {
      assert l in d.locs && l in db.locs && l.0 !in BlobsAt(db, key);
    }
    assert forall l :: l in d.locs ==> l.0 != db.next;
  }

  // ------------------------------------------------------------------- root names

  predicate ReadyRoot(db: DB, f: Id) { f in db.files && db.files[f].folder == None && db.files[f].ready }

  /** The names in use cover the ready root files, whose names differ. */
  ghost predicate RootsNamed(db: DB, names: set<string>) {
    && RootNames(db) <= names
    && (forall f, g :: ReadyRoot(db, f) && ReadyRoot(db, g) && db.files[f].name == db.files[g].name ==> f == g)
  }

  /** Ingesting an object that is not skipped fails exactly when its bytes
      cannot be copied or another blob sits at the primary's path: the root
      name it was given is never taken. */
  lemma IngestFailsIff(job: Job, c: Cursor, o: Object, name: string, uploadFails: bool, faults: Faults)
    requires !Skips(job, c.w.db, o) && RootNames(c.w.db) <= c.names && N.Deduped(NameOf(job, o), c.names, name)
    requires LocIdsBelowNext(c.w.db)
    ensures IngestOne(job, c.w, o, name, uploadFails, faults).Some? <==>
              job.store == job.primary
              || ((job.store, o.path) in c.w.disk && !uploadFails
                  && !PathTaken(DropKey(c.w.db, Display(job, o.path)), c.w.db.next, job.primary, Display(job, o.path)))
  {
    N.DedupedIsUnique(NameOf(job, o), c.names, name, name);
    var display := Display(job, o.path);
    NameIsFree(job, c, display, name);
    RecordFailsIff(job, c.w, o, name, uploadFails);
  }

  lemma RecordFailsIff(job: Job, w: World, o: Object, name: string, uploadFails: bool)
    requires LocIdsBelowNext(w.db) && !Tracked(w.db, job.store, o.path)
    requires !NameTaken(CreatePending(w.db, job.user, None, name, Display(job, o.path)), w.db.next + 1)
    ensures Record(job, w, o, name, uploadFails).Some? <==>
              job.store == job.primary
              || ((job.store, o.path) in w.disk && !uploadFails
                  && !PathTaken(DropKey(w.db, Display(job, o.path)), w.db.next, job.primary, Display(job, o.path)))
  {
    var same := job.store == job.primary;
    var display := Display(job, o.path);
    var d := DropKey(w.db, display);
    var d1 := CreatePending(w.db, job.user, None, name, display);
    var path := if same then o.path else display;
    var d2 := FlipReady(d1, w.db.next + 1, w.db.next, path);
    assert d2.locs == d.locs && d1.locs == d.locs;
    assert (w.db.next, job.primary) !in d.locs && (w.db.next, job.store) !in d.locs;
    assert same ==> !PathTaken(d2, w.db.next, job.primary, path);
    assert PathTaken(d2, w.db.next, job.primary, path) == PathTaken(d, w.db.next, job.primary, path);
    var d3 := MarkReady(d1, w.db.next + 1, w.db.next, job.primary, path);
    assert d3.Some? ==> !PathTaken(d3.value, w.db.next, job.store, o.path);
  }

  lemma NameIsFree(job: Job, c: Cursor, display: string, name: string)
    requires RootNames(c.w.db) <= c.names && name !in c.names
    ensures !NameTaken(CreatePending(c.w.db, job.user, None, name, display), c.w.db.next + 1)
  {
    var d1 := CreatePending(c.w.db, job.user, None, name, display);
    forall g | g in d1.files && g != c.w.db.next + 1 && d1.files[g].ready && d1.files[g].folder == None
      ensures d1.files[g].name != name
    {
      assert g in c.w.db.files && c.w.db.files[g] == d1.files[g];
      assert c.w.db.files[g].name in RootNames(c.w.db);
    }
  }

  /** Of the ready root files only one is new, and it is called name. */
  ghost predicate OneNewRoot(db: DB, db2: DB, name: string) {
    && (forall f :: ReadyRoot(db2, f) && f != db.next + 1 ==> ReadyRoot(db, f) && db.files[f] == db2.files[f])
    && (ReadyRoot(db2, db.next + 1) ==> db2.files[db.next + 1].name == name)
  }

  lemma AddedIsOneRoot(job: Job, o: Object, name: string, db: DB, db2: DB)
    requires Added(job, db, db2, o, name)
    ensures OneNewRoot(db, db2, name)
  {
    var d := DropKey(db, Display(job, o.path));
    forall f | ReadyRoot(db2, f) && f != db.next + 1 ensures ReadyRoot(db, f) && db.files[f] == db2.files[f] {
      assert f in d.files;
    }
  }

  /** Ready root names stay pairwise distinct from object to object. */
  lemma NewRootIsDistinct(db: DB, db2: DB, name: string, names: set<string>)
    requires RootsNamed(db, names) && OneNewRoot(db, db2, name) && name !in names
    ensures RootsNamed(db2, names + {name})
  {
    forall f | ReadyRoot(db, f) ensures db.files[f].name in names { assert db.files[f].name in RootNames(db); }
  }

  /** After any run that starts from distinct ready root names, as
      IngestFromStore does, they are distinct still. */
  lemma RootNamesStayDistinct(job: Job, objs: seq<Object>, fails: Object -> bool, faults: Object -> Faults,
                              cs: seq<Cursor>)
    requires Runs(job, objs, fails, faults, cs) && RootsNamed(cs[0].w.db, cs[0].names) && LocIdsBelowNext(cs[0].w.db)
    ensures RootsNamed(cs[|objs|].w.db, cs[|objs|].names)
  {
    RunsMove(job, objs, fails, faults, cs);
    MovesKeepRoots(job, objs, cs, |objs|);
  }

  lemma {:induction false} MovesKeepRoots(job: Job, objs: seq<Object>, cs: seq<Cursor>, n: nat)
    requires Moves(job, objs, cs) && n <= |objs| && RootsNamed(cs[0].w.db, cs[0].names)
    ensures RootsNamed(cs[n].w.db, cs[n].names)
  {
    if n > 0 {
      MovesKeepRoots(job, objs, cs, n - 1);
      assert MovedAt(job, objs, cs, n - 1);
    }
  }
}
