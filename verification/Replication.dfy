/** Copying one file's blob to every active write store, and the workspace-wide
    run that does so for every ready file (server/internal/store/sync.go). */
module Replication {
  import opened Tables

  /** One tenant's database and the objects on its stores. A method that runs
      in a transaction restores `db` when it rolls back; `disk` is never
      rolled back. */
  class Workspace {
    const cfg: Config
    var db: DB
    var disk: Disk

    constructor (cfg: Config)
      ensures this.cfg == cfg && db == EMPTY_DB && disk == map[]
    {
      this.cfg := cfg;
      db, disk := EMPTY_DB, map[];
    }
  }

  /** Tables plus objects, as a value. */
  datatype World = World(db: DB, disk: Disk)

  /** The stores whose Upload fails, with what the failed attempt leaves at the path. */
  type Faults = map<StoreId, Option<Bytes>>

  function Lookup(disk: Disk, s: StoreId, path: string): Option<Bytes> {
    if (s, path) in disk then Some(disk[(s, path)]) else None
  }

  function Write(disk: Disk, s: StoreId, path: string, data: Option<Bytes>): Disk {
    match data
    case Some(d) => disk[(s, path) := d]
    case None => disk - {(s, path)}
  }

  function StoreIds(stores: seq<StoreRow>): set<StoreId> { set s | s in stores :: s.id }

  /** ResolvePrimaryStore: the configured store, else the first active write store. */
  function Primary(cfg: Config): (r: Option<StoreId>)
    ensures r.Some? ==> r.value in StoreIds(cfg.stores)
  {
    match cfg.setting
    case Some(id) => if id in StoreIds(cfg.stores) then Some(id) else None
    case None => FirstTarget(cfg.stores)
  }

  function FirstTarget(stores: seq<StoreRow>): (r: Option<StoreId>)
    ensures r.Some? ==> r.value in StoreIds(stores)
  {
    if stores == [] then None
    else if WriteTarget(stores[0]) then Some(stores[0].id)
    else FirstTarget(stores[1..])
  }

  ghost predicate IsStore(cfg: Config, s: StoreId) { exists i :: 0 <= i < |cfg.stores| && cfg.stores[i].id == s }

  ghost predicate FirstWriteStore(stores: seq<StoreRow>, i: int) {
    && 0 <= i < |stores| && stores[i].active && stores[i].writable
    && forall j :: 0 <= j < i ==> !(stores[j].active && stores[j].writable)
  }

  /** Where puts go, by the columns: the store of the setting row if there is
      such a row and a store of that id, the first active and writable store if
      there is no setting row, and nowhere otherwise. */
  ghost predicate PutsGoTo(cfg: Config, s: StoreId) {
    match cfg.setting
    case Some(id) => s == id && IsStore(cfg, id)
    case None => exists i :: FirstWriteStore(cfg.stores, i) && cfg.stores[i].id == s
  }

  lemma IsStoreIff(cfg: Config, id: StoreId)
    ensures id in StoreIds(cfg.stores) <==> IsStore(cfg, id)
  {
    if id in StoreIds(cfg.stores) {
      var row :| row in cfg.stores && row.id == id;
      var i :| 0 <= i < |cfg.stores| && cfg.stores[i] == row;
      assert cfg.stores[i].id == id;
    }
  }

  lemma PrimaryIs(cfg: Config, s: StoreId)
    ensures Primary(cfg) == Some(s) <==> PutsGoTo(cfg, s)
  {
    FirstTargetIs(cfg.stores);
    if cfg.setting.Some? { IsStoreIff(cfg, cfg.setting.value); }
    if cfg.setting.None? && FirstTarget(cfg.stores).Some? {
      var i :| FirstWriteStore(cfg.stores, i) && FirstTarget(cfg.stores) == Some(cfg.stores[i].id);
      assert forall j :: FirstWriteStore(cfg.stores, j) ==> j == i;
    }
  }

  lemma {:induction false} FirstTargetIs(stores: seq<StoreRow>)
    ensures if FirstTarget(stores).Some?
            then exists i :: FirstWriteStore(stores, i) && FirstTarget(stores) == Some(stores[i].id)
            else forall i :: 0 <= i < |stores| ==> !(stores[i].active && stores[i].writable)
  {
    if stores != [] && !(stores[0].active && stores[0].writable) {
      var rest := stores[1..];
      FirstTargetIs(rest);
      if FirstTarget(rest).Some? {
        var i :| FirstWriteStore(rest, i) && FirstTarget(rest) == Some(rest[i].id);
        assert FirstWriteStore(stores, i + 1);
      } else {
        forall i | 0 <= i < |stores| ensures !(stores[i].active && stores[i].writable) {
          if i > 0 { assert stores[i] == rest[i - 1]; }
        }
      }
    } else if stores != [] {
      assert FirstWriteStore(stores, 0);
    }
  }

  /** The active write stores other than the source, in order. */
  function Targets(stores: seq<StoreRow>, source: StoreId): (r: seq<StoreId>)
    ensures source !in r
    ensures forall s :: s in r <==>
            s != source && exists row :: row in stores && row.active && row.writable && row.id == s
  {
    if stores == [] then []
    else if WriteTarget(stores[0]) && stores[0].id != source then [stores[0].id] + Targets(stores[1..], source)
    else Targets(stores[1..], source)
  }

  ghost predicate Distinct<T>(xs: seq<T>) { forall i, j :: 0 <= i < j < |xs| ==> xs[i] != xs[j] }

  lemma TargetsDistinct(stores: seq<StoreRow>, source: StoreId)
    requires forall i, j :: 0 <= i < j < |stores| ==> stores[i].id != stores[j].id
    ensures Distinct(Targets(stores, source))
  {
    if stores != [] {
      TargetsDistinct(stores[1..], source);
      assert stores[0].id !in Targets(stores[1..], source);
    }
  }

  // ----------------------------------------------------------- one file, one target

  /** The pass of the loop over target stores for target t: the new world, and
      whether it recorded no error. */
  function SyncOne(w: World, b: Id, key: string, src: StoreId, srcPath: string, t: StoreId, faults: Faults)
    : (World, bool)
  {
    if (b, t) in w.db.locs then (w, true)
    else match Lookup(w.disk, src, srcPath)
      case None => (w, false)
      case Some(data) =>
        if t in faults then (w.(disk := Write(w.disk, t, key, faults[t])), false)
        else
          var disk := Write(w.disk, t, key, Some(data));
          match InsertLoc(w.db, b, t, Location(key, Available))
          case None => (World(w.db, disk), false)
          case Some(db) => (World(db, disk), true)
  }

  function SyncAll(w: World, b: Id, key: string, src: StoreId, srcPath: string, targets: seq<StoreId>,
                   faults: Faults): (World, bool)
    decreases |targets|
  {
    if targets == [] then (w, true)
    else
      var (w1, ok1) := SyncOne(w, b, key, src, srcPath, targets[0], faults);
      var (w2, ok2) := SyncAll(w1, b, key, src, srcPath, targets[1..], faults);
      (w2, ok1 && ok2)
  }

  lemma SyncAllAppend(w: World, b: Id, key: string, src: StoreId, srcPath: string, ts: seq<StoreId>, t: StoreId,
                      faults: Faults)
    ensures SyncAll(w, b, key, src, srcPath, ts + [t], faults)
         == var (w1, ok1) := SyncAll(w, b, key, src, srcPath, ts, faults);
            var (w2, ok2) := SyncOne(w1, b, key, src, srcPath, t, faults);
            (w2, ok1 && ok2)
    decreases |ts|
  {
    if ts == [] {
      assert [] + [t] == [t];
    } else {
      assert (ts + [t])[0] == ts[0] && (ts + [t])[1..] == ts[1..] + [t];
      SyncAllAppend(SyncOne(w, b, key, src, srcPath, ts[0], faults).0, b, key, src, srcPath, ts[1..], t, faults);
    }
  }

  /** w1 differs from w only by copies of blob b: new locations (b, t) at key,
      and objects at (t, key), for targets t that had no location of b. */
  ghost predicate OnlyCopies(w: World, w1: World, b: Id, key: string, ts: seq<StoreId>) {
    && w1.db == w.db.(locs := w1.db.locs)
    && (forall l :: l in w.db.locs ==> l in w1.db.locs && w1.db.locs[l] == w.db.locs[l])
    && (forall l :: l in w1.db.locs && l !in w.db.locs ==>
          l.0 == b && l.1 in ts && w1.db.locs[l] == Location(key, Available))
    && (forall p :: (p in w.disk || p in w1.disk) && !(p.0 in ts && p.1 == key && (b, p.0) !in w.db.locs) ==>
          p in w.disk && p in w1.disk && w1.disk[p] == w.disk[p])
  }

  /** Earlier locations and every other object are untouched. */
  lemma {:induction false} SyncTouchesOnlyCopies(w: World, b: Id, key: string, src: StoreId, srcPath: string,
                                                 ts: seq<StoreId>, faults: Faults)
    ensures OnlyCopies(w, SyncAll(w, b, key, src, srcPath, ts, faults).0, b, key, ts)
    decreases |ts|
  {
    if ts != [] {
      var w1 := SyncOne(w, b, key, src, srcPath, ts[0], faults).0;
      assert OnlyCopies(w, w1, b, key, [ts[0]]);
      SyncTouchesOnlyCopies(w1, b, key, src, srcPath, ts[1..], faults);
      assert forall t :: t in ts <==> t == ts[0] || t in ts[1..];
    }
  }

  /** Target t can be served: it has a copy already, or the source object is
      there, its upload works, and no other blob's location holds the path. */
  ghost predicate CanServe(w: World, b: Id, key: string, src: StoreId, srcPath: string, t: StoreId, faults: Faults) {
    (b, t) in w.db.locs
    || ((src, srcPath) in w.disk && t !in faults && !PathTaken(w.db, b, t, key))
  }

  /** Serving one target changes nothing about any other. */
  lemma ServeOthers(w: World, b: Id, key: string, src: StoreId, srcPath: string, t: StoreId, u: StoreId, faults: Faults)
    requires t != u && t != src
    ensures var w1 := SyncOne(w, b, key, src, srcPath, t, faults).0;
            && (CanServe(w, b, key, src, srcPath, u, faults) <==> CanServe(w1, b, key, src, srcPath, u, faults))
            && ((b, u) in w1.db.locs <==> (b, u) in w.db.locs)
            && Lookup(w1.disk, u, key) == Lookup(w.disk, u, key)
            && Lookup(w1.disk, src, srcPath) == Lookup(w.disk, src, srcPath)
  {
    var w1 := SyncOne(w, b, key, src, srcPath, t, faults).0;
    assert PathTaken(w.db, b, u, key) <==> PathTaken(w1.db, b, u, key) by {
      if PathTaken(w.db, b, u, key) {
        var l :| l in w.db.locs && l.0 != b && l.1 == u && w.db.locs[l].path == key;
        assert l in w1.db.locs;
      }
    }
  }

  /** A nil result means exactly that every target could be served; then every
      target holds a location, and every copy made holds the source's bytes. */
  lemma {:induction false} SyncSucceedsIffServable(w: World, b: Id, key: string, src: StoreId, srcPath: string,
                                                   ts: seq<StoreId>, faults: Faults)
    requires Distinct(ts) && src !in ts
    ensures var (w1, ok) := SyncAll(w, b, key, src, srcPath, ts, faults);
            && (ok <==> forall t :: t in ts ==> CanServe(w, b, key, src, srcPath, t, faults))
            && (ok ==> forall t :: t in ts ==> (b, t) in w1.db.locs)
            && (forall t :: t in ts && (b, t) in w1.db.locs && (b, t) !in w.db.locs ==>
                  (src, srcPath) in w.disk && (t, key) in w1.disk && w1.disk[(t, key)] == w.disk[(src, srcPath)])
    decreases |ts|
  {
    if ts != [] {
      var t, rest := ts[0], ts[1..];
      var (w1, ok1) := SyncOne(w, b, key, src, srcPath, t, faults);
      var (w2, ok2) := SyncAll(w1, b, key, src, srcPath, rest, faults);
      SyncSucceedsIffServable(w1, b, key, src, srcPath, rest, faults);
      SyncTouchesOnlyCopies(w1, b, key, src, srcPath, rest, faults);
      assert t !in rest;
      forall u | u in rest
        ensures CanServe(w, b, key, src, srcPath, u, faults) <==> CanServe(w1, b, key, src, srcPath, u, faults)
        ensures (b, u) in w1.db.locs <==> (b, u) in w.db.locs
      {
        ServeOthers(w, b, key, src, srcPath, t, u, faults);
      }
      assert Lookup(w1.disk, src, srcPath) == Lookup(w.disk, src, srcPath);
      assert forall u :: u in ts <==> u == t || u in rest;
      assert (b, t) in w2.db.locs <==> (b, t) in w1.db.locs;
      assert Lookup(w2.disk, t, key) == Lookup(w1.disk, t, key);
    }
  }

  /** What a sync leaves at the key on a target that had no location: the
      source's bytes, or what the failing upload left, or what was there. */
  function LeftAt(w: World, key: string, src: StoreId, srcPath: string, t: StoreId, faults: Faults): Option<Bytes> {
    if (src, srcPath) !in w.disk then Lookup(w.disk, t, key)
    else if t in faults then faults[t]
    else Some(w.disk[(src, srcPath)])
  }

  /** Target by target: the ones with a location afterwards are exactly those
      that could be served, and the object is what the upload left. */
  lemma {:induction false} SyncServes(w: World, b: Id, key: string, src: StoreId, srcPath: string, ts: seq<StoreId>,
                                      faults: Faults, t: StoreId)
    requires Distinct(ts) && src !in ts && t in ts
    ensures var w1 := SyncAll(w, b, key, src, srcPath, ts, faults).0;
            && ((b, t) in w1.db.locs <==> CanServe(w, b, key, src, srcPath, t, faults))
            && ((b, t) !in w.db.locs ==> Lookup(w1.disk, t, key) == LeftAt(w, key, src, srcPath, t, faults))
    decreases |ts|
  {
    var w1 := SyncOne(w, b, key, src, srcPath, ts[0], faults).0;
    if t == ts[0] {
      SyncTouchesOnlyCopies(w1, b, key, src, srcPath, ts[1..], faults);
      StaysAt(w1, SyncAll(w1, b, key, src, srcPath, ts[1..], faults).0, b, key, ts[1..], t);
    } else {
      ServeOthers(w, b, key, src, srcPath, ts[0], t, faults);
      SyncServes(w1, b, key, src, srcPath, ts[1..], faults, t);
    }
  }

  lemma StaysAt(w: World, w1: World, b: Id, key: string, ts: seq<StoreId>, t: StoreId)
    requires OnlyCopies(w, w1, b, key, ts) && t !in ts
    ensures ((b, t) in w1.db.locs <==> (b, t) in w.db.locs) && Lookup(w1.disk, t, key) == Lookup(w.disk, t, key)
  {
    assert !((t, key).0 in ts);
  }

  /** Once every target holds a location, a sync uploads nothing and records
      nothing, whichever stores fail. */
  lemma {:induction false} SyncIsIdempotent(w: World, b: Id, key: string, src: StoreId, srcPath: string,
                                            ts: seq<StoreId>, faults: Faults)
    requires forall t :: t in ts ==> (b, t) in w.db.locs
    ensures SyncAll(w, b, key, src, srcPath, ts, faults) == (w, true)
    decreases |ts|
  {
    if ts != [] {
      assert ts[0] in ts;
      SyncIsIdempotent(w, b, key, src, srcPath, ts[1..], faults);
    }
  }

  lemma SyncOneKeepsInv(w: World, b: Id, key: string, src: StoreId, srcPath: string, t: StoreId, faults: Faults)
    requires Inv(w.db) && b in w.db.blobs && w.db.blobs[b].objectKey == key
    ensures var w1 := SyncOne(w, b, key, src, srcPath, t, faults).0; Inv(w1.db) && w1.db.blobs == w.db.blobs
  {
    InsertLocKeepsInv(w.db, b, t, Location(key, Available));
    SyncOneRows(w, b, key, src, srcPath, t, faults);
  }

  /** The tables are left alone, or gain one available location. */
  lemma SyncOneRows(w: World, b: Id, key: string, src: StoreId, srcPath: string, t: StoreId, faults: Faults)
    ensures var w1, r := SyncOne(w, b, key, src, srcPath, t, faults).0, InsertLoc(w.db, b, t, Location(key, Available));
            (w1.db == w.db || (r.Some? && w1.db == r.value)) && w1.db.blobs == w.db.blobs
  {
  }

  lemma {:induction false} SyncKeepsInv(w: World, b: Id, key: string, src: StoreId, srcPath: string, ts: seq<StoreId>,
                                        faults: Faults)
    requires Inv(w.db) && b in w.db.blobs && w.db.blobs[b].objectKey == key
    ensures Inv(SyncAll(w, b, key, src, srcPath, ts, faults).0.db)
    decreases |ts|
  {
    if ts != [] {
      SyncOneKeepsInv(w, b, key, src, srcPath, ts[0], faults);
      SyncKeepsInv(SyncOne(w, b, key, src, srcPath, ts[0], faults).0, b, key, src, srcPath, ts[1..], faults);
    }
  }

  // ------------------------------------------------------------------ whole file

  /** The source store of a sync and the path of the blob there, or None when
      the call fails before it looks at any target. */
  function Source(cfg: Config, db: DB, f: Id, source: Option<StoreId>): Option<(StoreId, string)>
    requires f in db.files
  {
    match source
    case Some(s) =>
      if (db.files[f].blobId, s) in db.locs && s in StoreIds(cfg.stores)
      then Some((s, db.locs[(db.files[f].blobId, s)].path)) else None
    case None =>
      match Primary(cfg)
      case Some(s) => Some((s, db.files[f].storagePath))
      case None => None
  }

  /** SyncFileToStores: the new world, and whether it returned nil. */
  function SyncFile(cfg: Config, w: World, f: Id, source: Option<StoreId>, faults: Faults): (World, bool) {
    if f !in w.db.files then (w, false)
    else if !w.db.files[f].ready then (w, true)
    else
      var b := w.db.files[f].blobId;
      if b !in w.db.blobs then (w, false)
      else match Source(cfg, w.db, f, source)
        case None => (w, false)
        case Some(src) =>
          SyncAll(w, b, w.db.blobs[b].objectKey, src.0, src.1, Targets(cfg.stores, src.0), faults)
  }

  /** Every active write store but the source holds a location of f's blob. */
  ghost predicate Replicated(cfg: Config, db: DB, f: Id, source: Option<StoreId>)
    requires f in db.files
  {
    && Source(cfg, db, f, source).Some?
    && forall t :: t in Targets(cfg.stores, Source(cfg, db, f, source).value.0) ==> (db.files[f].blobId, t) in db.locs
  }

  method SyncFileToStores(ws: Workspace, f: Id, source: Option<StoreId>, faults: Faults) returns (ok: bool)
    modifies ws
    ensures (World(ws.db, ws.disk), ok) == SyncFile(ws.cfg, old(World(ws.db, ws.disk)), f, source, faults)
  {
    if f !in ws.db.files { return false; }
    if !ws.db.files[f].ready { return true; }
    var b := ws.db.files[f].blobId;
    if b !in ws.db.blobs { return false; }
    var key := ws.db.blobs[b].objectKey;
    var resolved := Source(ws.cfg, ws.db, f, source);
    if resolved.None? { return false; }
    var (src, srcPath) := resolved.value;
    var targets := Targets(ws.cfg.stores, src);
    ok := true;
    ghost var w0 := World(ws.db, ws.disk);
    for i := 0 to |targets|
      invariant (World(ws.db, ws.disk), ok) == SyncAll(w0, b, key, src, srcPath, targets[..i], faults)
    {
      var target := targets[i];
      SyncAllAppend(w0, b, key, src, srcPath, targets[..i], target, faults);
      assert targets[..i + 1] == targets[..i] + [target];
      if (b, target) in ws.db.locs { continue; }  // already replicated
      var data := Lookup(ws.disk, src, srcPath);
      if data.None? { ok := false; continue; }
      if target in faults {
        ws.disk := Write(ws.disk, target, key, faults[target]);
        ok := false;
        continue;
      }
      ws.disk := Write(ws.disk, target, key, data);
      var inserted := InsertLoc(ws.db, b, target, Location(key, Available));
      if inserted.None? { ok := false; continue; }
      ws.db := inserted.value;
    }
    assert targets[..|targets|] == targets;
  }

  /** What a nil SyncFileToStores means for a ready file: every active write
      store but the source has a location, earlier locations are unchanged,
      and calling it again from the same source changes nothing. */
  lemma SyncFileCompletes(cfg: Config, w: World, f: Id, source: Option<StoreId>, faults: Faults, faults2: Faults)
    requires ValidConfig(cfg) && f in w.db.files && w.db.files[f].ready && w.db.files[f].blobId in w.db.blobs
    ensures var (w1, ok) := SyncFile(cfg, w, f, source, faults);
            && w1.db == w.db.(locs := w1.db.locs)
            && (forall l :: l in w.db.locs ==> l in w1.db.locs && w1.db.locs[l] == w.db.locs[l])
            && (ok ==> Replicated(cfg, w1.db, f, source))
            && (ok ==> SyncFile(cfg, w1, f, source, faults2) == (w1, true))
  {
    var (w1, ok) := SyncFile(cfg, w, f, source, faults);
    SyncFileKeepsRows(cfg, w, f, source, faults);
    SyncFileLocates(cfg, w, f, source, faults);
    if ok { SyncAgain(cfg, w1, f, source, faults2); }
  }

  lemma SyncFileKeepsRows(cfg: Config, w: World, f: Id, source: Option<StoreId>, faults: Faults)
    requires f in w.db.files && w.db.files[f].ready && w.db.files[f].blobId in w.db.blobs
    ensures var w1 := SyncFile(cfg, w, f, source, faults).0;
            && w1.db == w.db.(locs := w1.db.locs)
            && (forall l :: l in w.db.locs ==> l in w1.db.locs && w1.db.locs[l] == w.db.locs[l])
            && Source(cfg, w1.db, f, source) == Source(cfg, w.db, f, source)
  {
    if Source(cfg, w.db, f, source).Some? {
      var b := w.db.files[f].blobId;
      var (src, srcPath) := Source(cfg, w.db, f, source).value;
      SyncTouchesOnlyCopies(w, b, w.db.blobs[b].objectKey, src, srcPath, Targets(cfg.stores, src), faults);
      assert (b, src).1 !in Targets(cfg.stores, src);
    }
  }

  lemma SyncFileLocates(cfg: Config, w: World, f: Id, source: Option<StoreId>, faults: Faults)
    requires ValidConfig(cfg) && f in w.db.files && w.db.files[f].ready && w.db.files[f].blobId in w.db.blobs
    ensures SyncFile(cfg, w, f, source, faults).1 ==>
              Source(cfg, w.db, f, source).Some?
              && forall t :: t in Targets(cfg.stores, Source(cfg, w.db, f, source).value.0) ==>
                   (w.db.files[f].blobId, t) in SyncFile(cfg, w, f, source, faults).0.db.locs
  {
    if Source(cfg, w.db, f, source).Some? {
      var b := w.db.files[f].blobId;
      var (src, srcPath) := Source(cfg, w.db, f, source).value;
      TargetsDistinct(cfg.stores, src);
      SyncSucceedsIffServable(w, b, w.db.blobs[b].objectKey, src, srcPath, Targets(cfg.stores, src), faults);
    }
  }

  /** A replicated file is synced without doing anything. */
  lemma SyncAgain(cfg: Config, w: World, f: Id, source: Option<StoreId>, faults: Faults)
    requires f in w.db.files && w.db.files[f].ready && w.db.files[f].blobId in w.db.blobs
             && Replicated(cfg, w.db, f, source)
    ensures SyncFile(cfg, w, f, source, faults) == (w, true)
  {
    var b := w.db.files[f].blobId;
    var (src, srcPath) := Source(cfg, w.db, f, source).value;
    SyncIsIdempotent(w, b, w.db.blobs[b].objectKey, src, srcPath, Targets(cfg.stores, src), faults);
  }

  /** The copies a sync from the primary adds hold the primary's bytes. */
  lemma SyncFileMakesCopies(cfg: Config, w: World, f: Id, faults: Faults)
    requires ValidConfig(cfg) && f in w.db.files && w.db.files[f].ready && w.db.files[f].blobId in w.db.blobs
    requires Primary(cfg).Some?
    ensures var b, src := w.db.files[f].blobId, Primary(cfg).value;
            var key, path, ts := w.db.blobs[b].objectKey, w.db.files[f].storagePath, Targets(cfg.stores, src);
            var w1 := SyncFile(cfg, w, f, None, faults).0;
            && OnlyCopies(w, w1, b, key, ts)
            && (forall t :: t in ts ==> t in StoreIds(cfg.stores))
            && (forall t :: t in ts && (b, t) in w1.db.locs && (b, t) !in w.db.locs ==>
                  (src, path) in w.disk && (t, key) in w1.disk && w1.disk[(t, key)] == w.disk[(src, path)])
  {
    var b, src := w.db.files[f].blobId, Primary(cfg).value;
    var key, path, ts := w.db.blobs[b].objectKey, w.db.files[f].storagePath, Targets(cfg.stores, src);
    TargetsDistinct(cfg.stores, src);
    SyncTouchesOnlyCopies(w, b, key, src, path, ts, faults);
    SyncSucceedsIffServable(w, b, key, src, path, ts, faults);
  }

  // ---------------------------------------------------- told by the tables' columns

  /** A sync of f reads the blob at its location on the store asked for, or,
      when none is asked for, at f's own path on the store puts go to. */
  ghost predicate ReadsFrom(cfg: Config, db: DB, f: Id, source: Option<StoreId>, s: StoreId, path: string)
    requires f in db.files
  {
    match source
    case Some(id) =>
      && s == id && IsStore(cfg, id) && (db.files[f].blobId, id) in db.locs
      && path == db.locs[(db.files[f].blobId, id)].path
    case None => PutsGoTo(cfg, s) && path == db.files[f].storagePath
  }

  lemma SourceIs(cfg: Config, db: DB, f: Id, source: Option<StoreId>, s: StoreId, path: string)
    requires f in db.files
    ensures Source(cfg, db, f, source) == Some((s, path)) <==> ReadsFrom(cfg, db, f, source, s, path)
  {
    PrimaryIs(cfg, s);
    if source.Some? {
      IsStoreIff(cfg, source.value);
    }
  }

  /** t is another active store in write mode. */
  ghost predicate WantsCopy(cfg: Config, src: StoreId, t: StoreId) {
    && t != src
    && exists i :: 0 <= i < |cfg.stores| && cfg.stores[i].active && cfg.stores[i].writable && cfg.stores[i].id == t
  }

  lemma TargetsAre(cfg: Config, src: StoreId, t: StoreId)
    ensures t in Targets(cfg.stores, src) <==> WantsCopy(cfg, src, t)
  {
    if t in Targets(cfg.stores, src) {
      var row :| row in cfg.stores && row.active && row.writable && row.id == t;
      var i :| 0 <= i < |cfg.stores| && cfg.stores[i] == row;
      assert cfg.stores[i].id == t;
    }
    if WantsCopy(cfg, src, t) {
      var i :| 0 <= i < |cfg.stores| && cfg.stores[i].active && cfg.stores[i].writable && cfg.stores[i].id == t;
      assert cfg.stores[i] in cfg.stores;
    }
  }

  /** The only changes are new available locations of blob b at its key, and
      objects there, on stores that want a copy and had no location. */
  ghost predicate OnlyWantedCopies(cfg: Config, w: World, w1: World, b: Id, key: string, src: StoreId) {
    && w1.db.blobs == w.db.blobs && w1.db.files == w.db.files && w1.db.next == w.db.next
    && (forall l :: l in w.db.locs ==> l in w1.db.locs && w1.db.locs[l] == w.db.locs[l])
    && (forall l :: l in w1.db.locs && l !in w.db.locs ==>
          l.0 == b && WantsCopy(cfg, src, l.1) && w1.db.locs[l] == Location(key, Available))
    && (forall t: StoreId, path :: !(path == key && WantsCopy(cfg, src, t) && (b, t) !in w.db.locs) ==>
          Lookup(w1.disk, t, path) == Lookup(w.disk, t, path))
  }

  /** The outcome of a sync of a ready file that has a source. It returns nil
      exactly when every store that wants a copy has one or can be given one;
      those are the stores located afterwards, store by store; and the objects
      written are the source's bytes, wherever the source is. */
  lemma SyncFileServes(cfg: Config, w: World, f: Id, source: Option<StoreId>, faults: Faults, s: StoreId, path: string)
    requires ValidConfig(cfg) && f in w.db.files && w.db.files[f].ready && w.db.files[f].blobId in w.db.blobs
    requires ReadsFrom(cfg, w.db, f, source, s, path)
    ensures var b := w.db.files[f].blobId;
            var key, (w1, ok) := w.db.blobs[b].objectKey, SyncFile(cfg, w, f, source, faults);
            && (ok <==> forall t: StoreId :: WantsCopy(cfg, s, t) ==> CanServe(w, b, key, s, path, t, faults))
            && WantedAreServed(cfg, w, w1, b, key, s, path, faults)
            && OnlyWantedCopies(cfg, w, w1, b, key, s)
  {
    var b := w.db.files[f].blobId;
    SourceIs(cfg, w.db, f, source, s, path);
    AllWantedAreServed(cfg, w, b, w.db.blobs[b].objectKey, s, path, Targets(cfg.stores, s), faults);
  }

  /** The stores that want a copy and are located afterwards are those that
      could be served; what is at the key on the others is what an upload left. */
  ghost predicate WantedAreServed(cfg: Config, w: World, w1: World, b: Id, key: string, s: StoreId, path: string,
                                  faults: Faults)
  {
    forall t: StoreId :: WantsCopy(cfg, s, t) ==>
      && ((b, t) in w1.db.locs <==> CanServe(w, b, key, s, path, t, faults))
      && ((b, t) !in w.db.locs ==> Lookup(w1.disk, t, key) == LeftAt(w, key, s, path, t, faults))
  }

  lemma AllWantedAreServed(cfg: Config, w: World, b: Id, key: string, s: StoreId, path: string, ts: seq<StoreId>,
                           faults: Faults)
    requires ValidConfig(cfg) && ts == Targets(cfg.stores, s)
    ensures var (w1, ok) := SyncAll(w, b, key, s, path, ts, faults);
            && (ok <==> forall t: StoreId :: WantsCopy(cfg, s, t) ==> CanServe(w, b, key, s, path, t, faults))
            && WantedAreServed(cfg, w, w1, b, key, s, path, faults)
            && OnlyWantedCopies(cfg, w, w1, b, key, s)
  {
    TargetsDistinct(cfg.stores, s);
    forall t: StoreId ensures t in ts <==> WantsCopy(cfg, s, t) { TargetsAre(cfg, s, t); }
    SyncSucceedsIffServable(w, b, key, s, path, ts, faults);
    forall t: StoreId | WantsCopy(cfg, s, t)
      ensures var w1 := SyncAll(w, b, key, s, path, ts, faults).0;
              && ((b, t) in w1.db.locs <==> CanServe(w, b, key, s, path, t, faults))
              && ((b, t) !in w.db.locs ==> Lookup(w1.disk, t, key) == LeftAt(w, key, s, path, t, faults))
    {
      SyncServes(w, b, key, s, path, ts, faults, t);
    }
    SyncTouchesOnlyCopies(w, b, key, s, path, ts, faults);
    CopiesAreWanted(cfg, w, SyncAll(w, b, key, s, path, ts, faults).0, b, key, s, ts);
  }

  lemma CopiesAreWanted(cfg: Config, w: World, w1: World, b: Id, key: string, s: StoreId, ts: seq<StoreId>)
    requires OnlyCopies(w, w1, b, key, ts) && forall t: StoreId :: t in ts <==> WantsCopy(cfg, s, t)
    ensures OnlyWantedCopies(cfg, w, w1, b, key, s)
  {
    forall t: StoreId, path | !(path == key && WantsCopy(cfg, s, t) && (b, t) !in w.db.locs)
      ensures Lookup(w1.disk, t, path) == Lookup(w.disk, t, path)
    {
      var p := (t, path);
      assert !(p.0 in ts && p.1 == key && (b, p.0) !in w.db.locs);
    }
  }

  /** Otherwise nothing changes: an unknown file, a ready one whose blob row is
      gone and one without a source are errors, a file not ready yet is not. */
  lemma SyncFileRefuses(cfg: Config, w: World, f: Id, source: Option<StoreId>, faults: Faults)
    requires f in w.db.files && w.db.files[f].ready && w.db.files[f].blobId in w.db.blobs ==>
               forall s, path :: !ReadsFrom(cfg, w.db, f, source, s, path)
    ensures SyncFile(cfg, w, f, source, faults) == (w, f in w.db.files && !w.db.files[f].ready)
  {
    if f in w.db.files && Source(cfg, w.db, f, source).Some? {
      var (s, path) := Source(cfg, w.db, f, source).value;
      SourceIs(cfg, w.db, f, source, s, path);
    }
  }

  lemma SyncFileKeepsInv(cfg: Config, w: World, f: Id, source: Option<StoreId>, faults: Faults)
    requires Inv(w.db)
    ensures Inv(SyncFile(cfg, w, f, source, faults).0.db)
  {
    if f in w.db.files && w.db.files[f].ready && Source(cfg, w.db, f, source).Some? {
      var b := w.db.files[f].blobId;
      var (src, srcPath) := Source(cfg, w.db, f, source).value;
      SyncKeepsInv(w, b, w.db.blobs[b].objectKey, src, srcPath, Targets(cfg.stores, src), faults);
    }
  }

  // ------------------------------------------------------------- whole workspace

  /** A replication_runs row. */
  datatype ReplicationRun = ReplicationRun(total: nat, processed: nat, failed: nat, completed: bool)

  /** SyncWorkspace's loop: the world after syncing `files` in order, and what
      each sync returned. */
  function SyncEach(cfg: Config, w: World, files: seq<Id>, source: Option<StoreId>, faults: Id -> Faults)
    : (World, seq<bool>)
  {
    if files == [] then (w, [])
    else
      var (w1, oks) := SyncEach(cfg, w, files[..|files| - 1], source, faults);
      var f := files[|files| - 1];
      var (w2, ok) := SyncFile(cfg, w1, f, source, faults(f));
      (w2, oks + [ok])
  }

  function Failures(oks: seq<bool>): nat {
    if oks == [] then 0 else Failures(oks[..|oks| - 1]) + if oks[|oks| - 1] then 0 else 1
  }

  lemma {:induction false} FailuresAre(oks: seq<bool>)
    ensures Failures(oks) == |set i | 0 <= i < |oks| && !oks[i]|
  {
    if oks != [] {
      var n := |oks| - 1;
      FailuresAre(oks[..n]);
      var before := set i | 0 <= i < n && !oks[..n][i];
      assert (set i | 0 <= i < |oks| && !oks[i]) == before + if oks[n] then {} else {n};
    }
  }

  /** `files` is the SELECT's answer: the ready files in some order. */
  method SyncWorkspace(ws: Workspace, files: seq<Id>, source: Option<StoreId>, faults: Id -> Faults)
    returns (run: ReplicationRun, ghost oks: seq<bool>)
    modifies ws
    ensures (World(ws.db, ws.disk), oks) == SyncEach(ws.cfg, old(World(ws.db, ws.disk)), files, source, faults)
    ensures run == ReplicationRun(|files|, |files|, Failures(oks), true)
    ensures |oks| == |files| && run.failed == |set i | 0 <= i < |files| && !oks[i]|
  {
    run, oks := ReplicationRun(|files|, 0, 0, false), [];
    ghost var w0 := World(ws.db, ws.disk);
    var failed := 0;
    for i := 0 to |files|
      invariant (World(ws.db, ws.disk), oks) == SyncEach(ws.cfg, w0, files[..i], source, faults)
      invariant run == ReplicationRun(|files|, i, 0, false) && failed == Failures(oks) && |oks| == i
    {
      assert files[..i + 1][..i] == files[..i];
      var ok := SyncFileToStores(ws, files[i], source, faults(files[i]));
      if !ok { failed := failed + 1; }
      oks := oks + [ok];
      assert oks[..|oks| - 1] + [ok] == oks;
      run := run.(processed := run.processed + 1);
    }
    assert files[..|files|] == files;
    run := run.(failed := failed, completed := true);
    FailuresAre(oks);
  }

  ghost predicate AllReady(db: DB, files: seq<Id>) {
    forall f :: f in files ==> f in db.files && db.files[f].ready && db.files[f].blobId in db.blobs
  }

  ghost predicate AllReplicated(cfg: Config, db: DB, files: seq<Id>, source: Option<StoreId>)
    requires AllReady(db, files)
  {
    forall f :: f in files ==> Replicated(cfg, db, f, source)
  }

  /** A loop with no failing file leaves every listed file replicated everywhere. */
  lemma {:induction false} ListedSyncCompletes(cfg: Config, w: World, files: seq<Id>, source: Option<StoreId>,
                                               faults: Id -> Faults)
    requires ValidConfig(cfg) && AllReady(w.db, files)
    ensures var (w1, oks) := SyncEach(cfg, w, files, source, faults);
            && |oks| == |files|
            && w1.db == w.db.(locs := w1.db.locs)
            && (forall l :: l in w.db.locs ==> l in w1.db.locs && w1.db.locs[l] == w.db.locs[l])
            && (Failures(oks) == 0 ==> AllReplicated(cfg, w1.db, files, source))
    decreases |files|
  {
    if files != [] {
      var init, f := files[..|files| - 1], files[|files| - 1];
      assert forall g :: g in files <==> g in init || g == f;
      var (w1, oks) := SyncEach(cfg, w, init, source, faults);
      ListedSyncCompletes(cfg, w, init, source, faults);
      var (w2, ok) := SyncFile(cfg, w1, f, source, faults(f));
      SyncFileCompletes(cfg, w1, f, source, faults(f), map[]);
      assert (oks + [ok])[..|oks|] == oks;
      if ok && Failures(oks) == 0 {
        forall g | g in files ensures Replicated(cfg, w2.db, g, source) {
          if g in init { ReplicatedStays(cfg, w1.db, w2.db, g, source); }
        }
      }
    }
  }

  lemma ReplicatedStays(cfg: Config, db: DB, db2: DB, f: Id, source: Option<StoreId>)
    requires f in db.files && Replicated(cfg, db, f, source)
    requires db2 == db.(locs := db2.locs) && forall l :: l in db.locs ==> l in db2.locs && db2.locs[l] == db.locs[l]
    ensures Replicated(cfg, db2, f, source)
  {
  }

  /** Once they are, the loop uploads nothing, records nothing and fails nowhere. */
  lemma {:induction false} ListedSyncIsIdempotent(cfg: Config, w: World, files: seq<Id>, source: Option<StoreId>,
                                                  faults: Id -> Faults)
    requires AllReady(w.db, files) && AllReplicated(cfg, w.db, files, source)
    ensures var (w1, oks) := SyncEach(cfg, w, files, source, faults); w1 == w && Failures(oks) == 0
    decreases |files|
  {
    if files != [] {
      var init, f := files[..|files| - 1], files[|files| - 1];
      ListedSyncIsIdempotent(cfg, w, init, source, faults);
      assert f in files;
      var b := w.db.files[f].blobId;
      var (src, srcPath) := Source(cfg, w.db, f, source).value;
      SyncIsIdempotent(w, b, w.db.blobs[b].objectKey, src, srcPath, Targets(cfg.stores, src), faults(f));
      var oks := SyncEach(cfg, w, init, source, faults).1;
      assert (oks + [true])[..|oks|] == oks;
    }
  }

  /** What the SELECT returns: the ready files, in some order. */
  ghost predicate ListsReady(db: DB, files: seq<Id>) {
    forall f :: f in files <==> f in db.files && db.files[f].ready
  }

  ghost predicate FullyReplicated(cfg: Config, db: DB, source: Option<StoreId>)
    requires FilesMatchBlobs(db)
  {
    forall f :: f in db.files && db.files[f].ready ==> Replicated(cfg, db, f, source)
  }

  /** A run that counts no failed file leaves every ready file of the workspace
      replicated everywhere, and a further run, in whatever order it lists them
      and whichever stores are down by then, uploads nothing, records nothing
      and fails nowhere. */
  lemma WorkspaceSyncCompletes(cfg: Config, w: World, files: seq<Id>, again: seq<Id>, source: Option<StoreId>,
                               faults: Id -> Faults, faults2: Id -> Faults)
    requires ValidConfig(cfg) && FilesMatchBlobs(w.db) && ListsReady(w.db, files) && ListsReady(w.db, again)
    ensures var (w1, oks) := SyncEach(cfg, w, files, source, faults);
            && w1.db == w.db.(locs := w1.db.locs)
            && (Failures(oks) == 0 ==>
                  && FullyReplicated(cfg, w1.db, source)
                  && SyncEach(cfg, w1, again, source, faults2).0 == w1
                  && Failures(SyncEach(cfg, w1, again, source, faults2).1) == 0)
  {
    var (w1, oks) := SyncEach(cfg, w, files, source, faults);
    ListedSyncCompletes(cfg, w, files, source, faults);
    if Failures(oks) == 0 {
      ListedSyncIsIdempotent(cfg, w1, again, source, faults2);
    }
  }
}
