/** Deleting a folder together with the files below it
    (server/internal/store/explorer.go). */
module FolderDelete {
  import opened Tables
  import opened Replication
  import opened Records
  import opened Refinement
  import F = Folders

  /** The files, ready or uploading, whose folder is one of these. */
  function FilesIn(db: DB, folders: set<Id>): set<Id> { F.InFolders(db.files, folders) }

  function BlobsOf(db: DB, files: set<Id>): set<Id> { set f | f in files && f in db.files :: db.files[f].blobId }

  type Places = set<(StoreId, string)>

  /** Where these blobs have copies that can be removed: on stores that still
      exist, and not in `stuck`, where the provider fails (which is ignored). */
  function CopiesOf(cfg: Config, db: DB, blobs: set<Id>, stuck: Places): Places {
    CopiesAt(cfg, db, (set l | l in db.locs && l.0 in blobs), stuck)
  }

  function CopiesAt(cfg: Config, db: DB, locs: set<(Id, StoreId)>, stuck: Places): Places {
    set l | l in locs && l in db.locs && l.1 in StoreIds(cfg.stores) && (l.1, db.locs[l].path) !in stuck ::
        (l.1, db.locs[l].path)
  }

  /** Files gone with their blobs, locations and copies. */
  function Purged(cfg: Config, w: World, files: set<Id>, stuck: Places): World {
    World(Drop(w.db, BlobsOf(w.db, files)), w.disk - CopiesOf(cfg, w.db, BlobsOf(w.db, files), stuck))
  }

  lemma PurgedTwice(cfg: Config, w: World, files: set<Id>, f: Id, stuck: Places)
    requires FilesMatchBlobs(w.db) && f in w.db.files && files <= w.db.files.Keys && f !in files
    ensures Purged(cfg, Purged(cfg, w, files, stuck), {f}, stuck) == Purged(cfg, w, files + {f}, stuck)
    ensures f in Purged(cfg, w, files, stuck).db.files && FilesMatchBlobs(Purged(cfg, w, files, stuck).db)
  {
    var w1, b := Purged(cfg, w, files, stuck), w.db.files[f].blobId;
    var gone := BlobsOf(w.db, files);
    assert b !in gone;
    assert BlobsOf(w.db, files + {f}) == gone + {b};
    assert f in w1.db.files && BlobsOf(w1.db, {f}) == {b};
    DropTwice(w.db, gone, {b});
    CopiesTwice(cfg, w, gone, b, stuck);
  }

  lemma CopiesTwice(cfg: Config, w: World, gone: set<Id>, b: Id, stuck: Places)
    requires b !in gone
    ensures w.disk - CopiesOf(cfg, w.db, gone, stuck) - CopiesOf(cfg, Drop(w.db, gone), {b}, stuck)
         == w.disk - CopiesOf(cfg, w.db, gone + {b}, stuck)
  {
    var d := Drop(w.db, gone);
    assert CopiesOf(cfg, d, {b}, stuck) == CopiesOf(cfg, w.db, {b}, stuck);
    assert CopiesOf(cfg, w.db, gone + {b}, stuck) == CopiesOf(cfg, w.db, gone, stuck) + CopiesOf(cfg, w.db, {b}, stuck);
  }

  /** The body of the loop over files. */
  method PurgeFile(ws: Workspace, f: Id, stuck: Places)
    requires FilesMatchBlobs(ws.db) && f in ws.db.files
    modifies ws
    ensures World(ws.db, ws.disk) == Purged(ws.cfg, old(World(ws.db, ws.disk)), {f}, stuck)
  {
    var b := ws.db.files[f].blobId;
    RemoveCopies(ws, (set l | l in ws.db.locs && l.0 in {b}), stuck);  // BlobLocationsForFile
    assert BlobsOf(ws.db, {f}) == {b};
    var _ := DeleteFileEverywhere(ws, f);
  }

  /** The inner loop, over one file's locations. */
  method RemoveCopies(ws: Workspace, locs: set<(Id, StoreId)>, stuck: Places)
    requires locs <= ws.db.locs.Keys
    modifies ws`disk
    ensures ws.disk == old(ws.disk) - CopiesAt(ws.cfg, ws.db, locs, stuck)
  {
    var todo := locs;
    while todo != {}
      invariant todo <= locs
      invariant ws.disk == old(ws.disk) - CopiesAt(ws.cfg, ws.db, locs - todo, stuck)
      decreases |todo|
    {
      var l :| l in todo;
      CopyRemoved(ws.cfg, ws.db, old(ws.disk), locs - todo, l, stuck);
      assert locs - (todo - {l}) == locs - todo + {l};
      RemoveCopy(ws, l, stuck);
      todo := todo - {l};
    }
    assert locs - todo == locs;
  }

  /** The inner loop's body. */
  method RemoveCopy(ws: Workspace, l: (Id, StoreId), stuck: Places)
    requires l in ws.db.locs
    modifies ws`disk
    ensures ws.disk == old(ws.disk) - CopiesAt(ws.cfg, ws.db, {l}, stuck)
  {
    var place := (l.1, ws.db.locs[l].path);
    if l.1 !in StoreIds(ws.cfg.stores) || place in stuck {
      assert CopiesAt(ws.cfg, ws.db, {l}, stuck) == {};
      return;
    }
    assert CopiesAt(ws.cfg, ws.db, {l}, stuck) == {place};
    ws.disk := ws.disk - {place};
  }

  lemma CopyRemoved(cfg: Config, db: DB, disk: Disk, done: set<(Id, StoreId)>, l: (Id, StoreId), stuck: Places)
    ensures disk - CopiesAt(cfg, db, done, stuck) - CopiesAt(cfg, db, {l}, stuck)
         == disk - CopiesAt(cfg, db, done + {l}, stuck)
  {
    assert CopiesAt(cfg, db, done + {l}, stuck) == CopiesAt(cfg, db, done, stuck) + CopiesAt(cfg, db, {l}, stuck);
  }

  lemma PurgedNone(cfg: Config, w: World, stuck: Places)
    ensures Purged(cfg, w, {}, stuck) == w
  {
    assert BlobsOf(w.db, {}) == {};
    assert Drop(w.db, {}) == w.db;
    assert CopiesOf(cfg, w.db, {}, stuck) == {};
  }

  /** Purged one by one. */
  function PurgedEach(cfg: Config, w: World, files: seq<Id>, stuck: Places): World {
    if files == [] then w else Purged(cfg, PurgedEach(cfg, w, files[..|files| - 1], stuck), {files[|files| - 1]}, stuck)
  }

  lemma {:induction false} PurgedEachIsPurged(cfg: Config, w: World, files: seq<Id>, stuck: Places)
    requires FilesMatchBlobs(w.db) && F.NoRepeats(files) && F.Elements(files) <= w.db.files.Keys
    ensures PurgedEach(cfg, w, files, stuck) == Purged(cfg, w, F.Elements(files), stuck)
  {
    if files == [] {
      PurgedNone(cfg, w, stuck);
      assert F.Elements(files) == {};
    } else {
      var init, f := files[..|files| - 1], files[|files| - 1];
      assert F.Elements(files) == F.Elements(init) + {f} && f in F.Elements(files);
      PurgedEachIsPurged(cfg, w, init, stuck);
      PurgedTwice(cfg, w, F.Elements(init), f, stuck);
    }
  }

  lemma NextIsListed(cfg: Config, w: World, files: seq<Id>, i: nat, stuck: Places)
    requires FilesMatchBlobs(w.db) && F.NoRepeats(files) && F.Elements(files) <= w.db.files.Keys && i < |files|
    ensures var w1 := PurgedEach(cfg, w, files[..i], stuck); files[i] in w1.db.files && FilesMatchBlobs(w1.db)
  {
    assert files[i] in F.Elements(files);
    PurgedEachIsPurged(cfg, w, files[..i], stuck);
    PurgedTwice(cfg, w, F.Elements(files[..i]), files[i], stuck);
  }

  /** The loop over the listed files. */
  method PurgeFiles(ws: Workspace, files: seq<Id>, stuck: Places)
    requires FilesMatchBlobs(ws.db) && F.NoRepeats(files) && F.Elements(files) <= ws.db.files.Keys
    modifies ws
    ensures World(ws.db, ws.disk) == PurgedEach(ws.cfg, old(World(ws.db, ws.disk)), files, stuck)
  {
    for i := 0 to |files|
      invariant World(ws.db, ws.disk) == PurgedEach(ws.cfg, old(World(ws.db, ws.disk)), files[..i], stuck)
    {
      NextIsListed(ws.cfg, old(World(ws.db, ws.disk)), files, i, stuck);
      PurgeFile(ws, files[i], stuck);
      assert files[..i + 1][..i] == files[..i];
    }
    assert files[..|files|] == files;
  }

  /** The SELECT over the subtree's files, in no particular order. */
  method ListFiles(db: DB, folders: set<Id>) returns (files: seq<Id>)
    ensures F.NoRepeats(files) && F.Elements(files) == FilesIn(db, folders)
  {
    var left := FilesIn(db, folders);
    files := [];
    while left != {}
      invariant F.NoRepeats(files) && F.Elements(files) + left == FilesIn(db, folders) && F.Elements(files) !! left
      decreases |left|
    {
      var f :| f in left;
      F.OneMore(files, f);
      files, left := files + [f], left - {f};
    }
  }

  /** File f is directly in one of these folders. */
  ghost predicate InOneOf(db: DB, f: Id, folders: set<Id>) {
    f in db.files && db.files[f].folder.Some? && db.files[f].folder.value in folders
  }

  /** Blob b is that of such a file. */
  ghost predicate OfOneOf(db: DB, b: Id, folders: set<Id>) {
    exists f :: InOneOf(db, f, folders) && db.files[f].blobId == b
  }

  /** A location of such a blob names this place, on a store that exists and does not fail. */
  ghost predicate CopyRemovedAt(cfg: Config, db: DB, folders: set<Id>, stuck: Places, p: (StoreId, string)) {
    p !in stuck && IsStore(cfg, p.0) && exists b: Id ::
      OfOneOf(db, b, folders) && (b, p.0) in db.locs && db.locs[(b, p.0)].path == p.1
  }

  /** Exactly the files in the folders are gone, with their blobs, locations and
      the copies that can be removed; every other row and object is as it was. */
  ghost predicate AllPurged(cfg: Config, w0: World, w: World, folders: set<Id>, stuck: Places) {
    && w.db.next == w0.db.next
    && (forall f :: f in w.db.files <==> f in w0.db.files && !InOneOf(w0.db, f, folders))
    && (forall b :: b in w.db.blobs <==> b in w0.db.blobs && !OfOneOf(w0.db, b, folders))
    && (forall l :: l in w.db.locs <==> l in w0.db.locs && !OfOneOf(w0.db, l.0, folders))
    && (forall f :: f in w.db.files ==> w.db.files[f] == w0.db.files[f])
    && (forall b :: b in w.db.blobs ==> w.db.blobs[b] == w0.db.blobs[b])
    && (forall l :: l in w.db.locs ==> w.db.locs[l] == w0.db.locs[l])
    && (forall p :: p in w.disk <==> p in w0.disk && !CopyRemovedAt(cfg, w0.db, folders, stuck, p))
    && (forall p :: p in w.disk ==> w.disk[p] == w0.disk[p])
  }

  lemma PurgedMeans(cfg: Config, w: World, folders: set<Id>, stuck: Places)
    requires FilesMatchBlobs(w.db)
    ensures AllPurged(cfg, w, Purged(cfg, w, FilesIn(w.db, folders), stuck), folders, stuck)
  {
    var files := FilesIn(w.db, folders);
    var blobs := BlobsOf(w.db, files);
    forall b ensures b in blobs <==> OfOneOf(w.db, b, folders) {
      if OfOneOf(w.db, b, folders) {
        var f :| InOneOf(w.db, f, folders) && w.db.files[f].blobId == b;
        assert f in files;
      }
    }
    forall f | f in w.db.files ensures w.db.files[f].blobId in blobs <==> f in files {}
    forall p ensures p in CopiesOf(cfg, w.db, blobs, stuck) <==> CopyRemovedAt(cfg, w.db, folders, stuck, p) {
      CopyIsRemovedIff(cfg, w.db, folders, blobs, stuck, p);
    }
  }

  lemma CopyIsRemovedIff(cfg: Config, db: DB, folders: set<Id>, blobs: set<Id>, stuck: Places, p: (StoreId, string))
    requires forall b :: b in blobs <==> OfOneOf(db, b, folders)
    ensures p in CopiesOf(cfg, db, blobs, stuck) <==> CopyRemovedAt(cfg, db, folders, stuck, p)
  {
    IsStoreIff(cfg, p.0);
    if p in CopiesOf(cfg, db, blobs, stuck) {
      var l :| l in db.locs && l.0 in blobs && l.1 in StoreIds(cfg.stores) && p == (l.1, db.locs[l].path)
          && p !in stuck;
      assert (l.0, p.0) in db.locs;
    }
    if CopyRemovedAt(cfg, db, folders, stuck, p) {
      var b: Id :| OfOneOf(db, b, folders) && (b, p.0) in db.locs && db.locs[(b, p.0)].path == p.1;
      assert (b, p.0) in set l | l in db.locs && l.0 in blobs;
    }
  }

  /** The folder and everything below it goes: folders, files, rows and copies.
      It fails, changing nothing, exactly when the walk does. `left` is the
      folder table afterwards; the result counts folders and files. */
  method DeleteFolderRecursiveWithFiles(ws: Workspace, folders: F.Table, id: Id, stuck: Places)
    returns (r: Option<(nat, nat)>, left: F.Table)
    requires FilesMatchBlobs(ws.db) && id in folders
    modifies ws
    ensures r.Some? <==> !F.OnCycle(folders, id) && |F.Subtree(folders, id)| <= 10_000
    ensures r.None? ==> left == folders && World(ws.db, ws.disk) == old(World(ws.db, ws.disk))
    ensures r.Some? ==> var files := FilesIn(old(ws.db), F.Subtree(folders, id));
                        && left == folders - F.Subtree(folders, id)
                        && World(ws.db, ws.disk) == Purged(ws.cfg, old(World(ws.db, ws.disk)), files, stuck)
                        && r.value == (|F.Subtree(folders, id)|, |files|)
    ensures r.Some? ==>
              && (forall x :: x in left <==> x in folders && x !in F.Subtree(folders, id))
              && (forall x :: x in left ==> left[x] == folders[x])
              && AllPurged(ws.cfg, old(World(ws.db, ws.disk)), World(ws.db, ws.disk), F.Subtree(folders, id), stuck)
  {
    var ids := F.FolderSubtree(folders, id);
    if ids.None? { return None, folders; }
    var gone := F.Elements(ids.value);
    var files := ListFiles(ws.db, gone);
    PurgedEachIsPurged(ws.cfg, World(ws.db, ws.disk), files, stuck);
    F.SizeOfElements(ids.value);
    F.SizeOfElements(files);
    PurgedMeans(ws.cfg, World(ws.db, ws.disk), gone, stuck);
    PurgeFiles(ws, files, stuck);
    return Some((|ids.value|, |files|)), folders - gone;
  }

  // -------------------------------------------------- what it means for the objects

  function KeysOf(db: DB, files: set<Id>): set<string> {
    set f | f in files && f in db.files :: db.files[f].storagePath
  }

  function WithoutKeys(sp: Spec, keys: set<string>): Spec { Spec(sp.objects - keys, sp.frail - keys) }

  /** A live blob's key is one of the removed keys exactly when it is removed. */
  lemma GoneIffKeyGone(db: DB, files: set<Id>, b: Id)
    requires KeysUnique(db) && FilesMatchBlobs(db) && b in db.blobs
    ensures b in BlobsOf(db, files) <==> db.blobs[b].objectKey in KeysOf(db, files)
  {
    if b in BlobsOf(db, files) {
      var f :| f in files && f in db.files && db.files[f].blobId == b;
      assert db.files[f].storagePath == db.blobs[b].objectKey;
    }
    if db.blobs[b].objectKey in KeysOf(db, files) {
      var f :| f in files && f in db.files && db.files[f].storagePath == db.blobs[b].objectKey;
      assert db.blobs[db.files[f].blobId].objectKey == db.blobs[b].objectKey;
    }
  }

  lemma PurgeKeepsKeys(db: DB, sp: Spec, files: set<Id>)
    requires KeysUnique(db) && FilesMatchBlobs(db) && KeysMatch(db, sp)
    ensures KeysMatch(Drop(db, BlobsOf(db, files)), WithoutKeys(sp, KeysOf(db, files)))
  {
    var d, sp2 := Drop(db, BlobsOf(db, files)), WithoutKeys(sp, KeysOf(db, files));
    forall b | b in d.blobs && d.blobs[b].ready ensures d.blobs[b].objectKey in sp2.objects {
      GoneIffKeyGone(db, files, b);
    }
    forall k | k in sp2.objects ensures exists b :: b in d.blobs && d.blobs[b].ready && d.blobs[b].objectKey == k {
      var b :| b in db.blobs && db.blobs[b].ready && db.blobs[b].objectKey == k;
      GoneIffKeyGone(db, files, b);
      assert b in d.blobs && d.blobs[b] == db.blobs[b];
    }
  }

  /** Removed copies all sit at removed keys. */
  lemma CopiesAtGoneKeys(cfg: Config, db: DB, files: set<Id>, stuck: Places, p: (StoreId, string))
    requires KeysUnique(db) && FilesMatchBlobs(db) && LocsAtKey(db)
    ensures p in CopiesOf(cfg, db, BlobsOf(db, files), stuck) ==> p.1 in KeysOf(db, files)
  {
    if p in CopiesOf(cfg, db, BlobsOf(db, files), stuck) {
      var l :| l in db.locs && l.0 in BlobsOf(db, files) && p == (l.1, db.locs[l].path);
      GoneIffKeyGone(db, files, l.0);
    }
  }

  lemma PurgeKeepsCopies(cfg: Config, w: World, sp: Spec, files: set<Id>, stuck: Places)
    requires KeysUnique(w.db) && FilesMatchBlobs(w.db) && LocsAtKey(w.db) && CopiesHold(w, sp)
    ensures CopiesHold(Purged(cfg, w, files, stuck), WithoutKeys(sp, KeysOf(w.db, files)))
  {
    var w2 := Purged(cfg, w, files, stuck);
    forall l | l in w2.db.locs && l.0 in w2.db.blobs
      ensures w2.db.blobs[l.0].objectKey in WithoutKeys(sp, KeysOf(w.db, files)).objects
      ensures CopyHolds(w2.disk, l.1, w2.db.blobs[l.0].objectKey, WithoutKeys(sp, KeysOf(w.db, files)))
    {
      var key := w.db.blobs[l.0].objectKey;
      GoneIffKeyGone(w.db, files, l.0);
      assert CopyHolds(w.disk, l.1, key, sp);
      CopiesAtGoneKeys(cfg, w.db, files, stuck, (l.1, key));
    }
  }

  /** The puts in flight whose rows survive the purge. */
  function Spared(s: Sys, files: set<Id>): map<Token, Flight> {
    map t | t in s.flights && s.flights[t].file !in files :: s.flights[t]
  }

  function AfterPurge(cfg: Config, s: Sys, files: set<Id>, stuck: Places): Sys {
    s.(w := Purged(cfg, s.w, files, stuck))
  }

  lemma FlightIsOutside(cfg: Config, s: Sys, files: set<Id>, stuck: Places, t: Token)
    requires KeysUnique(s.w.db) && FilesMatchBlobs(s.w.db) && LocsAtKey(s.w.db) && FlightsLive(cfg, s) && FlightsFit(s)
    requires t in s.flights && s.flights[t].file !in files
    ensures s.flights[t].blob !in BlobsOf(s.w.db, files)
    ensures (s.flights[t].store, s.flights[t].key) !in CopiesOf(cfg, s.w.db, BlobsOf(s.w.db, files), stuck)
  {
    GoneIffKeyGone(s.w.db, files, s.flights[t].blob);
    CopiesAtGoneKeys(cfg, s.w.db, files, stuck, (s.flights[t].store, s.flights[t].key));
  }

  lemma PurgeKeepsFlights(cfg: Config, s: Sys, files: set<Id>, stuck: Places)
    requires KeysUnique(s.w.db) && FilesMatchBlobs(s.w.db) && LocsAtKey(s.w.db) && FlightsLive(cfg, s) && FlightsFit(s)
    ensures FlightsLive(cfg, AfterPurge(cfg, s, files, stuck).(flights := Spared(s, files)))
  {
    forall t | t in Spared(s, files)
      ensures s.flights[t].blob !in BlobsOf(s.w.db, files)
      ensures (s.flights[t].store, s.flights[t].key) !in CopiesOf(cfg, s.w.db, BlobsOf(s.w.db, files), stuck)
    {
      FlightIsOutside(cfg, s, files, stuck, t);
    }
  }

  lemma SparedFits(s: Sys, files: set<Id>)
    requires FlightsFit(s)
    ensures FlightsFit(s.(flights := Spared(s, files)))
  {
  }

  /** Deleting files, whatever puts are in flight and whatever copies could not
      be removed, keeps the tables sound and removes exactly the files' keys from
      the map the gateway promises: the map of everything but the puts overtaken. */
  lemma PurgeRemovesItsKeys(cfg: Config, s: Sys, sp: Spec, files: set<Id>, stuck: Places)
    requires Mirrors(cfg, s, sp)
    ensures SysInv(AfterPurge(cfg, s, files, stuck))
    ensures Mirrors(cfg, AfterPurge(cfg, s, files, stuck).(flights := Spared(s, files)),
                    WithoutKeys(sp, KeysOf(s.w.db, files)))
  {
    DropFits(s, BlobsOf(s.w.db, files));
    SparedFits(AfterPurge(cfg, s, files, stuck), files);
    PurgeKeepsKeys(s.w.db, sp, files);
    PurgeKeepsCopies(cfg, s.w, sp, files, stuck);
    PurgeKeepsFlights(cfg, s, files, stuck);
    PurgeKeepsOrphansOut(cfg, s.w, files, stuck);
  }

  lemma PurgeKeepsOrphansOut(cfg: Config, w: World, files: set<Id>, stuck: Places)
    requires NoOrphans(cfg, w.db)
    ensures NoOrphans(cfg, Purged(cfg, w, files, stuck).db)
  {
  }

  /** Puts that overlap none on their key have no location yet. */
  lemma MirroredIsUnmarked(cfg: Config, s: Sys, sp: Spec)
    requires Mirrors(cfg, s, sp)
    ensures FlightsUnmarked(s)
  {
  }

  lemma PurgeKeepsUnmarked(cfg: Config, s: Sys, files: set<Id>, stuck: Places)
    requires FlightsUnmarked(s)
    ensures FlightsUnmarked(AfterPurge(cfg, s, files, stuck))
  {
  }

  /** A put that is past phase 2 when its uploading file is deleted with the
      folder has lost its rows. Its phase 3 still succeeds, and if it commits it
      blocks the key on its store, by a location of a blob that is gone. */
  lemma PurgeOvertakesPuts(cfg: Config, s: Sys, sp: Spec, files: set<Id>, stuck: Places, t: Token, faults: Faults)
    requires Mirrors(cfg, s, sp) && t in s.flights && s.flights[t].stored && s.flights[t].file in files
    ensures var e, fl := AfterPurge(cfg, s, files, stuck), s.flights[t];
            && Succeeds(cfg, e, t, faults, true)
            && Blocked(Next(cfg, e, Finish(t, faults, true)), fl.store, fl.key, fl.blob)
  {
    var e, fl := AfterPurge(cfg, s, files, stuck), s.flights[t];
    MirroredIsUnmarked(cfg, s, sp);
    PurgeKeepsUnmarked(cfg, s, files, stuck);
    DropFits(s, BlobsOf(s.w.db, files));
    assert fl.file in s.w.db.files && fl.blob in BlobsOf(s.w.db, files);
    NobodyElseAtKey(cfg, s, sp, t, files);
    FinishFailsIff(cfg, e, t, faults);
    OvertakenFinishBlocks(cfg, e, t, faults);
  }

  lemma NobodyElseAtKey(cfg: Config, s: Sys, sp: Spec, t: Token, files: set<Id>)
    requires Mirrors(cfg, s, sp) && t in s.flights
    ensures !PathTaken(Drop(s.w.db, BlobsOf(s.w.db, files)), s.flights[t].blob, s.flights[t].store, s.flights[t].key)
  {
  }
}
