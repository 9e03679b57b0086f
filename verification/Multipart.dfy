/** Multipart uploads: parts in any order and any number of times, then their
    assembly into one object, or their removal
    (server/internal/handler/s3multipart.go). */
module Multipart {
  import opened Strings
  import opened Tables
  import opened Replication
  import opened Records
  import opened PartNumbers
  import opened Refinement
  import F = Folders
  import K = KeyPlacement
  import N = Naming

  // ------------------------------------------------------------------- the tables

  /** An s3_multipart_uploads row; upload ids are uuids, so hold no slash. */
  datatype Upload = Upload(key: string, user: string)

  /** s3_multipart_parts: the storage path of each (upload_id, part_number). */
  type Parts = map<(string, nat), string>

  function TempPath(uploadId: string, spelling: string): string { ".s3parts/" + uploadId + "/" + spelling }

  lemma TempPathInjective(u: string, s: string, v: string, t: string)
    requires '/' !in u && '/' !in v && TempPath(u, s) == TempPath(v, t)
    ensures u == v && s == t
  {
    var p, q := TempPath(u, s), TempPath(v, t);
    assert p[9..9 + |u|] == u && q[9..9 + |v|] == v;
    assert p[9 + |u|] == '/' && q[9 + |v|] == '/';
    forall j | 9 <= j < 9 + |u| ensures p[j] != '/' { assert p[9..9 + |u|][j - 9] == p[j]; }
    forall j | 9 <= j < 9 + |v| ensures q[j] != '/' { assert q[9..9 + |v|][j - 9] == q[j]; }
    assert p[10 + |u|..] == s && q[10 + |v|..] == t;
  }

  /** Each row's object is a temp object of its own upload and number. */
  ghost predicate PartsFit(parts: Parts) {
    forall k :: k in parts ==> '/' !in k.0 && exists s :: PartNumber(s) == Some(k.1) && parts[k] == TempPath(k.0, s)
  }

  lemma PartPathsDistinct(parts: Parts, j: (string, nat), k: (string, nat))
    requires PartsFit(parts) && j in parts && k in parts && parts[j] == parts[k]
    ensures j == k
  {
    var s :| PartNumber(s) == Some(j.1) && parts[j] == TempPath(j.0, s);
    var t :| PartNumber(t) == Some(k.1) && parts[k] == TempPath(k.0, t);
    TempPathInjective(j.0, s, k.0, t);
  }

  class MultipartStore {
    const ws: Workspace
    var uploads: map<string, Upload>
    var parts: Parts

    constructor (ws: Workspace)
      ensures this.ws == ws && uploads == map[] && parts == map[]
    {
      this.ws, uploads, parts := ws, map[], map[];
    }
  }

  predicate FileNamed(db: DB, name: string, folder: Option<Id>) {
    exists f :: f in db.files && db.files[f].name == name && db.files[f].folder == folder
  }

  /** What dedupFileName picks: its query finds files of exactly this name. */
  function DedupedFile(db: DB, name: string, folder: Option<Id>): string {
    if FileNamed(db, name, folder) then N.Candidate(name, 1) else name
  }

  method DedupFileName(db: DB, name: string, folder: Option<Id>) returns (r: string)
    ensures r == DedupedFile(db, name, folder)
  {
    var found := set f | f in db.files && db.files[f].name == name && db.files[f].folder == folder;
    var existing := new N.NameSet(set f | f in found :: db.files[f].name);
    ghost var taken := existing.names;
    assert FileNamed(db, name, folder) ==> taken == {name};
    r := existing.DedupName(name);
    if name in taken {
      assert |N.Candidate(name, 1)| > |name|;
      N.DedupedIsUnique(name, taken, r, N.Candidate(name, 1)) by { assert N.LeastFree(name, taken, 1); }
    }
  }

  /** So the name picked is free exactly when the name itself or its first
      alternative is: "a", "a (1)" in a folder leave "a" with a taken name. */
  lemma DedupedFileIsFreeIff(db: DB, name: string, folder: Option<Id>)
    ensures FileNamed(db, DedupedFile(db, name, folder), folder)
            <==> FileNamed(db, name, folder) && FileNamed(db, N.Candidate(name, 1), folder)
  {
  }

  /** Creates the key's folders, and reserves a file in the last of them. */
  method S3CreateMultipartUpload(ms: MultipartStore, fs: F.FolderStore, uploadId: string, user: string, key: string)
    returns (ok: bool)
    requires KeysUnique(ms.ws.db) && F.Sound(fs.View())
    modifies ms, ms.ws, fs
    ensures ok <==> key != ""
    ensures ms.parts == old(ms.parts) && ms.ws.disk == old(ms.ws.disk)
    ensures ok ==> var (folders, folder) := F.ChainState(old(fs.View()), F.Directories(key));
                   && fs.View() == folders && ms.uploads == old(ms.uploads)[uploadId := Upload(key, user)]
                   && ms.ws.db == CreatePending(old(ms.ws.db), user, folder,
                                                DedupedFile(old(ms.ws.db), K.FileName(key), folder), key)
    ensures !ok ==> ms.uploads == old(ms.uploads) && ms.ws.db == old(ms.ws.db) && fs.View() == old(fs.View())
  {
    if key == "" { return false; }
    var folder := F.ResolveOrCreateFolderChain(fs, key);
    var name := DedupFileName(ms.ws.db, K.FileName(key), folder);
    var _, _ := CreatePendingFileUpload(ms.ws, user, folder, name, key);
    ms.uploads := ms.uploads[uploadId := Upload(key, user)];
    ok := true;
  }

  /** A part's row and object after a successful upload. */
  function AddPart(parts: Parts, u: string, spelling: string): Parts
    requires PartNumber(spelling).Some?
  {
    parts[(u, PartNumber(spelling).value) := TempPath(u, spelling)]
  }

  /** The request gets as far as uploading the part. */
  predicate ReceivesPart(ms: MultipartStore, u: string, spelling: string)
    reads ms
  {
    PartNumber(spelling).Some? && u in ms.uploads && Primary(ms.ws.cfg).Some?
  }

  /** `fails` is a storage error that leaves `left` at the temp path. */
  method S3UploadPart(ms: MultipartStore, u: string, spelling: string, data: Bytes, fails: bool, left: Option<Bytes>)
    returns (ok: bool)
    modifies ms, ms.ws
    ensures ms.uploads == old(ms.uploads) && ms.ws.db == old(ms.ws.db)
    ensures ok <==> old(ReceivesPart(ms, u, spelling)) && !fails
    ensures ok ==> exists p, n ::
              && PutsGoTo(ms.ws.cfg, p) && PartNumber(spelling) == Some(n)
              && Lookup(ms.ws.disk, p, ".s3parts/" + u + "/" + spelling) == Some(data)
              && ms.parts == old(ms.parts)[(u, n) := ".s3parts/" + u + "/" + spelling]
    ensures ms.parts == if ok then AddPart(old(ms.parts), u, spelling) else old(ms.parts)
    ensures ms.ws.disk == if old(ReceivesPart(ms, u, spelling))
                          then Write(old(ms.ws.disk), Primary(ms.ws.cfg).value, TempPath(u, spelling),
                                     if fails then left else Some(data))
                          else old(ms.ws.disk)
  {
    var number := PartNumber(spelling);
    if number.None? || u !in ms.uploads { return false; }
    var primary := Primary(ms.ws.cfg);
    if primary.None? { return false; }
    var tempPath := TempPath(u, spelling);
    if fails {
      ms.ws.disk := Write(ms.ws.disk, primary.value, tempPath, left);
      return false;
    }
    ms.ws.disk := Write(ms.ws.disk, primary.value, tempPath, Some(data));
    ms.parts := ms.parts[(u, number.value) := tempPath];
    ok := true;
    PrimaryIs(ms.ws.cfg, primary.value);
  }

  // ---------------------------------------------------------------- complete, abort

  /** nums are the part numbers of u's rows in ascending order. */
  ghost predicate InOrder(parts: Parts, u: string, nums: seq<nat>) {
    && (forall i, j :: 0 <= i < j < |nums| ==> nums[i] < nums[j])
    && (forall n: nat :: n in nums <==> (u, n) in parts)
  }

  /** SELECT ... WHERE upload_id = u ORDER BY part_number ASC. */
  method ListParts(parts: Parts, u: string) returns (nums: seq<nat>)
    ensures InOrder(parts, u, nums)
  {
    var left := set k | k in parts && k.0 == u :: k.1;
    ghost var all := left;
    nums := [];
    while left != {}
      invariant forall i, j :: 0 <= i < j < |nums| ==> nums[i] < nums[j]
      invariant forall n :: n in all <==> n in nums || n in left
      invariant forall m, n :: m in nums && n in left ==> m < n
      decreases |left|
    {
      var m := Least(left);
      assert forall i :: 0 <= i < |nums| ==> nums[i] in nums;
      nums := nums + [m];
      left := left - {m};
    }
    assert forall n: nat :: n in all <==> (u, n) in parts by {
      forall n: nat | (u, n) in parts ensures n in all { assert (u, n).0 == u && (u, n).1 == n; }
    }
  }

  method Least(s: set<nat>) returns (m: nat)
    requires s != {}
    ensures m in s && forall n :: n in s ==> m <= n
  {
    m :| m in s;
    var left := s - {m};
    while left != {}
      invariant left <= s && m in s && forall n :: n in s && n !in left ==> m <= n
      decreases |left|
    {
      var n :| n in left;
      if n < m { m := n; }
      left := left - {n};
    }
  }

  /** Any two listings of the same rows agree. */
  lemma {:induction false} OrderIsUnique(parts: Parts, u: string, a: seq<nat>, b: seq<nat>, i: nat)
    requires InOrder(parts, u, a) && InOrder(parts, u, b) && i <= |a| && i <= |b| && a[..i] == b[..i]
    ensures a == b
    decreases |a| - i
  {
    assert (i < |a| ==> a[i] in a && a[i] in b) && (i < |b| ==> b[i] in b && b[i] in a);
    if i < |a| && i < |b| {
      assert a[i] in a && b[i] in b;
      var j :| 0 <= j < |b| && b[j] == a[i];
      var k :| 0 <= k < |a| && a[k] == b[i];
      assert a[..i + 1] == a[..i] + [a[i]] && b[..i + 1] == b[..i] + [b[i]];
      forall x | 0 <= x < i ensures a[x] == b[x] { assert a[..i][x] == b[..i][x]; }
      OrderIsUnique(parts, u, a, b, i + 1);
    }
  }

  function PathsOf(parts: Parts, u: string, nums: seq<nat>): (paths: seq<string>)
    requires forall n :: n in nums ==> (u, n) in parts
    ensures |paths| == |nums| && forall i :: 0 <= i < |nums| ==> paths[i] == parts[(u, nums[i])]
  {
    seq(|nums|, i requires 0 <= i < |nums| => parts[(u, nums[i])])
  }

  /** The objects at the paths, one after the other; None if one is missing. */
  function Assemble(disk: Disk, p: StoreId, paths: seq<string>): Option<Bytes> {
    if paths == [] then Some([])
    else match (Assemble(disk, p, paths[..|paths| - 1]), Lookup(disk, p, paths[|paths| - 1]))
      case (Some(head), Some(last)) => Some(head + last)
      case _ => None
  }

  /** The objects at the paths removed, but for those whose delete fails. */
  function RemoveAll(disk: Disk, p: StoreId, paths: seq<string>, stuck: set<string>): Disk {
    if paths == [] then disk
    else
      var rest, last := RemoveAll(disk, p, paths[..|paths| - 1], stuck), paths[|paths| - 1];
      if last in stuck then rest else Write(rest, p, last, None)
  }

  function RowsWithout(parts: Parts, u: string): Parts { map k | k in parts && k.0 != u :: parts[k] }

  /** The file reserved for a key by a user, with its blob. */
  ghost predicate Reserved(db: DB, key: string, user: string, f: Id, b: Id) {
    f in db.files && db.files[f].blobId == b && b in db.blobs && db.blobs[b].objectKey == key
        && db.blobs[b].createdBy == user
  }

  ghost predicate HasReservation(db: DB, key: string, user: string) { exists f, b :: Reserved(db, key, user, f, b) }

  /** The blobs of the files the handlers' lookup can find for a key and user. */
  function ReservedBlobs(db: DB, key: string, user: string): set<Id> {
    set f | f in db.files && db.files[f].blobId in db.blobs && db.blobs[db.files[f].blobId].objectKey == key
            && db.blobs[db.files[f].blobId].createdBy == user :: db.files[f].blobId
  }

  method FindReserved(db: DB, key: string, user: string) returns (r: Option<(Id, Id)>)
    ensures r.Some? ==> Reserved(db, key, user, r.value.0, r.value.1)
    ensures r.None? ==> forall f, b :: !Reserved(db, key, user, f, b)
  {
    var found := set f | f in db.files && db.files[f].blobId in db.blobs
                         && db.blobs[db.files[f].blobId].objectKey == key
                         && db.blobs[db.files[f].blobId].createdBy == user;
    if found == {} {
      forall f, b ensures !Reserved(db, key, user, f, b) { assert f !in found; }
      return None;
    }
    var f :| f in found;
    r := Some((f, db.files[f].blobId));
  }

  /** The download loop of the complete handler. */
  method OpenParts(disk: Disk, p: StoreId, paths: seq<string>) returns (all: Option<Bytes>)
    ensures all == Assemble(disk, p, paths)
  {
    all := Some([]);
    for i := 0 to |paths|
      invariant all == Assemble(disk, p, paths[..i])
    {
      assert paths[..i + 1][..i] == paths[..i];
      if all.Some? {
        var part := Lookup(disk, p, paths[i]);
        all := if part.None? then None else Some(all.value + part.value);
      }
    }
    assert paths[..|paths|] == paths;
  }

  /** The loop that deletes temp objects, its errors ignored. */
  method DeleteTempParts(ws: Workspace, p: StoreId, paths: seq<string>, stuck: set<string>)
    modifies ws`disk
    ensures ws.disk == RemoveAll(old(ws.disk), p, paths, stuck)
  {
    for i := 0 to |paths|
      invariant ws.disk == RemoveAll(old(ws.disk), p, paths[..i], stuck)
    {
      assert paths[..i + 1][..i] == paths[..i];
      if paths[i] !in stuck { ws.disk := Write(ws.disk, p, paths[i], None); }
    }
    assert paths[..|paths|] == paths;
  }

  datatype Outcome = NoSuchUpload | InvalidPart | InternalError | Completed(all: Bytes, flight: Flight)

  /** The stores after the final upload and the removal of the parts. */
  function CompletedDisk(disk: Disk, p: StoreId, key: string, data: Bytes, paths: seq<string>,
                         stuck: set<string>): Disk {
    RemoveAll(Write(disk, p, key, Some(data)), p, paths, stuck)
  }

  /** A completion gets as far as its final upload: it has parts, a store for
      them, and each of their objects. */
  predicate Uploads(disk: Disk, primary: Option<StoreId>, paths: seq<string>) {
    paths != [] && primary.Some? && Assemble(disk, primary.value, paths).Some?
  }

  /** The stores of a completion that ends without a row being changed. */
  function ReachedDisk(disk: Disk, primary: Option<StoreId>, paths: seq<string>, key: string, fails: bool,
                       left: Option<Bytes>, stuck: set<string>): Disk {
    if !Uploads(disk, primary, paths) then disk
    else if fails then Write(disk, primary.value, key, left)
    else CompletedDisk(disk, primary.value, key, Assemble(disk, primary.value, paths).value, paths, stuck)
  }

  /** A file of the user at the key can be marked ready there. */
  ghost predicate Markable(db: DB, key: string, user: string, p: StoreId) {
    exists f, b :: Reserved(db, key, user, f, b) && MarkReady(db, f, b, p, key).Some?
  }

  lemma ReservedIsUnique(db: DB, key: string, user: string, f: Id, b: Id)
    requires KeysUnique(db) && FilesMatchBlobs(db) && Reserved(db, key, user, f, b)
    ensures forall g, c :: Reserved(db, key, user, g, c) ==> g == f && c == b
  {
  }

  /** The fan-out of phase 3 leaves the primary's objects alone. */
  lemma FinishKeepsPrimary(cfg: Config, w: World, fl: Flight, faults: Faults, p: StoreId, path: string)
    requires Primary(cfg) == Some(p) && FinishRows(cfg, w, fl, faults).Some?
    ensures Lookup(FinishRows(cfg, w, fl, faults).value.disk, p, path) == Lookup(w.disk, p, path)
  {
    var d := MarkReady(w.db, fl.file, fl.blob, fl.store, fl.key).value;
    if cfg.replicate && fl.file in d.files && d.files[fl.file].blobId in d.blobs {
      var b, ts := d.files[fl.file].blobId, Targets(cfg.stores, p);
      SyncTouchesOnlyCopies(World(d, w.disk), b, d.blobs[b].objectKey, p, d.files[fl.file].storagePath, ts, faults);
      assert (p, path).0 !in ts;
    }
  }

  /** What the primary holds of an upload once it is completed. */
  lemma CompletedHolds(cfg: Config, parts: Parts, disk: Disk, db: DB, u: string, nums: seq<nat>, fl: Flight,
                       stuck: set<string>, faults: Faults, r: World)
    requires InOrder(parts, u, nums) && Primary(cfg) == Some(fl.store)
    requires var w := World(db, CompletedDisk(disk, fl.store, fl.key, fl.data, PathsOf(parts, u, nums), stuck));
             FinishRows(cfg, w, fl, faults) == Some(r)
    ensures fl.key !in PathsOf(parts, u, nums) ==> Lookup(r.disk, fl.store, fl.key) == Some(fl.data)
    ensures forall n: nat :: (u, n) in parts && parts[(u, n)] !in stuck ==>
            Lookup(r.disk, fl.store, parts[(u, n)]) == None
  {
    var paths := PathsOf(parts, u, nums);
    var w := World(db, CompletedDisk(disk, fl.store, fl.key, fl.data, paths, stuck));
    FinishKeepsPrimary(cfg, w, fl, faults, fl.store, fl.key);
    RemoveAllRemoves(Write(disk, fl.store, fl.key, Some(fl.data)), fl.store, paths, stuck, fl.store, fl.key);
    forall n: nat | (u, n) in parts && parts[(u, n)] !in stuck
      ensures Lookup(r.disk, fl.store, parts[(u, n)]) == None
    {
      FinishKeepsPrimary(cfg, w, fl, faults, fl.store, parts[(u, n)]);
      ListedIsRemoved(parts, Write(disk, fl.store, fl.key, Some(fl.data)), fl.store, u, nums, stuck, n);
    }
  }

  lemma ListedIsRemoved(parts: Parts, disk: Disk, p: StoreId, u: string, nums: seq<nat>, stuck: set<string>, n: nat)
    requires InOrder(parts, u, nums) && (u, n) in parts && parts[(u, n)] !in stuck
    ensures Lookup(RemoveAll(disk, p, PathsOf(parts, u, nums), stuck), p, parts[(u, n)]) == None
  {
    var paths := PathsOf(parts, u, nums);
    assert n in nums;
    var i :| 0 <= i < |nums| && nums[i] == n;
    assert paths[i] == parts[(u, n)];
    RemoveAllRemoves(disk, p, paths, stuck, p, parts[(u, n)]);
  }

  /** Succeeds exactly when the final upload is reached and works and a file of
      the upload's user at `key` can be marked ready. Then the object at `key` is
      the parts' bytes in ascending number order, that file is ready, the
      upload's rows are gone and so are its listed objects but the stuck ones.
      Otherwise no row changes, but the stores are as far as it got: the object
      at `key` is written and the parts are removed before the file is looked
      for. Nothing ties `key` to the key the upload was created for, or the file
      found to the upload. */
  method S3CompleteMultipartUpload(ms: MultipartStore, u: string, key: string, fails: bool, left: Option<Bytes>,
                                   stuck: set<string>, faults: Faults)
    returns (r: Outcome, ghost nums: seq<nat>)
    requires FilesMatchBlobs(ms.ws.db) && KeysUnique(ms.ws.db)
    modifies ms, ms.ws
    ensures InOrder(old(ms.parts), u, nums)
    ensures r == NoSuchUpload <==> u !in old(ms.uploads)
    ensures r == InvalidPart <==> u in old(ms.uploads) && nums == []
    ensures var primary := Primary(ms.ws.cfg);
            r.Completed? <==>
              && u in old(ms.uploads) && Uploads(old(ms.ws.disk), primary, PathsOf(old(ms.parts), u, nums)) && !fails
              && Markable(old(ms.ws.db), key, old(ms.uploads)[u].user, primary.value)
    ensures !r.Completed? ==>
              && ms.uploads == old(ms.uploads) && ms.parts == old(ms.parts) && ms.ws.db == old(ms.ws.db)
              && ms.ws.disk ==
                 if u !in old(ms.uploads) then old(ms.ws.disk)
                 else ReachedDisk(old(ms.ws.disk), Primary(ms.ws.cfg), PathsOf(old(ms.parts), u, nums), key, fails,
                                  left, stuck)
    ensures r.Completed? ==>
      var paths, db, fl := PathsOf(old(ms.parts), u, nums), old(ms.ws.db), r.flight;
      && Primary(ms.ws.cfg) == Some(fl.store) && Reserved(db, key, old(ms.uploads)[u].user, fl.file, fl.blob)
      && Assemble(old(ms.ws.disk), fl.store, paths) == Some(r.all)
      && fl == Flight(key, fl.file, fl.blob, fl.store, r.all, true)
      && FinishRows(ms.ws.cfg, World(db, CompletedDisk(old(ms.ws.disk), fl.store, key, r.all, paths, stuck)), fl,
                    faults)
         == Some(World(ms.ws.db, ms.ws.disk))
      && ms.uploads == old(ms.uploads) - {u} && ms.parts == RowsWithout(old(ms.parts), u)
    ensures r.Completed? ==>
      && PutsGoTo(ms.ws.cfg, r.flight.store)
      && (key !in PathsOf(old(ms.parts), u, nums) ==> Lookup(ms.ws.disk, r.flight.store, key) == Some(r.all))
      && (forall n: nat :: (u, n) in old(ms.parts) && old(ms.parts)[(u, n)] !in stuck ==>
            Lookup(ms.ws.disk, r.flight.store, old(ms.parts)[(u, n)]) == None)
      && (forall n: nat :: (u, n) !in ms.parts)
  {
    nums := [];
    ghost var w0, parts := World(ms.ws.db, ms.ws.disk), ms.parts;
    var saved := ms.ws.db;
    var order := ListParts(ms.parts, u);
    nums := order;
    if u !in ms.uploads { return NoSuchUpload, nums; }
    if order == [] { return InvalidPart, nums; }
    var primary := Primary(ms.ws.cfg);
    if primary.None? { return InternalError, nums; }
    var paths := PathsOf(ms.parts, u, order);
    var streams := OpenParts(ms.ws.disk, primary.value, paths);
    if streams.None? { return InternalError, nums; }
    var all := streams.value;
    if fails {
      ms.ws.disk := Write(ms.ws.disk, primary.value, key, left);
      return InternalError, nums;
    }
    ms.ws.disk := Write(ms.ws.disk, primary.value, key, Some(all));
    DeleteTempParts(ms.ws, primary.value, paths, stuck);
    var fl := MarkReserved(ms.ws, key, ms.uploads[u].user, primary.value, all);
    if fl.None? {
      ms.ws.db := saved;
      return InternalError, nums;
    }
    if ms.ws.cfg.replicate {
      var _ := SyncFileToStores(ms.ws, fl.value.file, None, faults);
    }
    ms.parts := RowsWithout(ms.parts, u);
    ms.uploads := ms.uploads - {u};
    r := Completed(all, fl.value);
    CompletedHolds(ms.ws.cfg, parts, w0.disk, w0.db, u, order, fl.value, stuck, faults, World(ms.ws.db, ms.ws.disk));
    PrimaryIs(ms.ws.cfg, primary.value);
  }

  /** The lookup of the complete handler, and MarkFileUploadReady on what it finds. */
  method MarkReserved(ws: Workspace, key: string, user: string, p: StoreId, all: Bytes) returns (r: Option<Flight>)
    requires FilesMatchBlobs(ws.db) && KeysUnique(ws.db)
    modifies ws`db
    ensures r.Some? <==> Markable(old(ws.db), key, user, p)
    ensures r.Some? ==> var fl := r.value;
                        && fl == Flight(key, fl.file, fl.blob, p, all, true)
                        && Reserved(old(ws.db), key, user, fl.file, fl.blob)
                        && MarkReady(old(ws.db), fl.file, fl.blob, p, key) == Some(ws.db)
  {
    var found := FindReserved(ws.db, key, user);
    if found.None? { return None; }
    ReservedIsUnique(ws.db, key, user, found.value.0, found.value.1);
    var ok := MarkFileUploadReady(ws, found.value.0, found.value.1, p, key);
    r := if ok then Some(Flight(key, found.value.0, found.value.1, p, all, true)) else None;
  }

  /** Abort removes the upload's rows and listed temp objects, but for the
      stuck ones, and whatever file of the upload's user it finds at `key`. */
  method S3AbortMultipartUpload(ms: MultipartStore, u: string, key: string, stuck: set<string>)
    returns (ghost nums: seq<nat>)
    requires FilesMatchBlobs(ms.ws.db) && KeysUnique(ms.ws.db)
    modifies ms, ms.ws
    ensures InOrder(old(ms.parts), u, nums)
    ensures u !in old(ms.uploads) ==>
              && ms.uploads == old(ms.uploads) && ms.parts == old(ms.parts)
              && ms.ws.db == old(ms.ws.db) && ms.ws.disk == old(ms.ws.disk)
    ensures u in old(ms.uploads) ==>
              ms.uploads == old(ms.uploads) - {u} && ms.parts == RowsWithout(old(ms.parts), u)
    ensures u in old(ms.uploads) && Primary(ms.ws.cfg).Some? ==>
              && ms.ws.disk
                 == RemoveAll(old(ms.ws.disk), Primary(ms.ws.cfg).value, PathsOf(old(ms.parts), u, nums), stuck)
              && ms.ws.db == Drop(old(ms.ws.db), ReservedBlobs(old(ms.ws.db), key, old(ms.uploads)[u].user))
    ensures u in old(ms.uploads) && Primary(ms.ws.cfg).None? ==>
            ms.ws.db == old(ms.ws.db) && ms.ws.disk == old(ms.ws.disk)
    ensures u in old(ms.uploads) ==>
              && (forall n: nat :: (u, n) !in ms.parts)
              && forall p: StoreId, n: nat ::
                   PutsGoTo(ms.ws.cfg, p) && (u, n) in old(ms.parts) && old(ms.parts)[(u, n)] !in stuck ==>
                     Lookup(ms.ws.disk, p, old(ms.parts)[(u, n)]) == None
  {
    ghost var w0, parts := World(ms.ws.db, ms.ws.disk), ms.parts;
    forall p: StoreId ensures Primary(ms.ws.cfg) == Some(p) <==> PutsGoTo(ms.ws.cfg, p) { PrimaryIs(ms.ws.cfg, p); }
    var order := ListParts(ms.parts, u);
    nums := order;
    if u !in ms.uploads { return; }
    var primary := Primary(ms.ws.cfg);
    if primary.Some? {
      DeleteTempParts(ms.ws, primary.value, PathsOf(ms.parts, u, order), stuck);
      DeleteReserved(ms.ws, key, ms.uploads[u].user);
      forall n: nat | (u, n) in parts && parts[(u, n)] !in stuck
        ensures Lookup(ms.ws.disk, primary.value, parts[(u, n)]) == None
      {
        ListedIsRemoved(parts, w0.disk, primary.value, u, order, stuck, n);
      }
    }
    ms.parts := RowsWithout(ms.parts, u);
    ms.uploads := ms.uploads - {u};
  }

  /** The lookup of the abort handler, and DeleteFileEverywhere on what it finds. */
  method DeleteReserved(ws: Workspace, key: string, user: string)
    requires FilesMatchBlobs(ws.db) && KeysUnique(ws.db)
    modifies ws`db
    ensures ws.db == Drop(old(ws.db), ReservedBlobs(old(ws.db), key, user))
  {
    var reserved := FindReserved(ws.db, key, user);
    ghost var gone := ReservedBlobs(ws.db, key, user);
    if reserved.None? {
      assert forall f :: f in ws.db.files ==> !Reserved(ws.db, key, user, f, ws.db.files[f].blobId);
      assert gone == {} && Drop(ws.db, gone) == ws.db;
    } else {
      assert gone == {reserved.value.1};
      var _ := DeleteFileEverywhere(ws, reserved.value.0);
    }
  }

  // ------------------------------------------------------------- latest part wins

  /** What the primary holds, and the part rows. */
  datatype Desk = Desk(disk: Disk, parts: Parts)

  datatype Event =
    | Sent(u: string, spelling: string, data: Bytes)            // a part upload that succeeds
    | Lost(u: string, spelling: string, left: Option<Bytes>)    // one whose storage upload fails
    | Elsewhere(s: StoreId, path: string, now: Option<Bytes>)  // any other write or delete of an object

  function After(p: StoreId, d: Desk, e: Event): Desk {
    match e
    case Sent(u, spelling, data) =>
      if PartNumber(spelling).None? then d
      else Desk(Write(d.disk, p, TempPath(u, spelling), Some(data)), AddPart(d.parts, u, spelling))
    case Lost(u, spelling, left) =>
      if PartNumber(spelling).None? then d else d.(disk := Write(d.disk, p, TempPath(u, spelling), left))
    case Elsewhere(s, path, now) => d.(disk := Write(d.disk, s, path, now))
  }

  function AfterAll(p: StoreId, d: Desk, es: seq<Event>): Desk {
    if es == [] then d else After(p, AfterAll(p, d, es[..|es| - 1]), es[|es| - 1])
  }

  datatype Row = Row(spelling: string, content: Option<Bytes>)

  /** What the history says of part n: how it was last spelled, and the bytes
      last sent (or what a later failed upload of that spelling left). */
  function Latest(es: seq<Event>, u: string, n: nat): Option<Row> {
    if es == [] then None
    else
      var prev := Latest(es[..|es| - 1], u, n);
      match es[|es| - 1]
      case Sent(v, spelling, data) =>
        if v == u && PartNumber(spelling) == Some(n) then Some(Row(spelling, Some(data))) else prev
      case Lost(v, spelling, left) =>
        if v == u && PartNumber(spelling).Some? && prev.Some? && prev.value.spelling == spelling
        then Some(Row(spelling, left)) else prev
      case Elsewhere(_, _, _) => prev
  }

  ghost predicate IsTemp(u: string, path: string) { exists s :: path == TempPath(u, s) }

  /** Upload ids hold no slash, and no other object is written below u's temp directory. */
  ghost predicate Proper(p: StoreId, u: string, e: Event) {
    match e
    case Sent(v, _, _) => '/' !in v
    case Lost(v, _, _) => '/' !in v
    case Elsewhere(s, path, _) => s != p || !IsTemp(u, path)
  }

  ghost predicate AllProper(p: StoreId, u: string, es: seq<Event>) { forall i :: 0 <= i < |es| ==> Proper(p, u, es[i]) }

  /** The row and object of part n are what the history says. */
  ghost predicate Agrees(p: StoreId, d: Desk, u: string, n: nat, latest: Option<Row>) {
    && ((u, n) in d.parts <==> latest.Some?)
    && (latest.Some? ==>
          && PartNumber(latest.value.spelling) == Some(n)
          && d.parts[(u, n)] == TempPath(u, latest.value.spelling)
          && Lookup(d.disk, p, d.parts[(u, n)]) == latest.value.content)
  }

  /** For any interleaving and re-upload of parts, every row and temp object of
      an upload is that of the latest bytes sent for its number. */
  lemma {:induction false} LatestPartWins(p: StoreId, d: Desk, es: seq<Event>, u: string, n: nat)
    requires '/' !in u && AllProper(p, u, es) && (u, n) !in d.parts
    ensures Agrees(p, AfterAll(p, d, es), u, n, Latest(es, u, n))
    decreases |es|
  {
    if es != [] {
      var init, e := es[..|es| - 1], es[|es| - 1];
      LatestPartWins(p, d, init, u, n);
      assert Proper(p, u, e);
      EventAgrees(p, AfterAll(p, d, init), e, u, n, Latest(init, u, n));
    }
  }

  lemma EventAgrees(p: StoreId, d: Desk, e: Event, u: string, n: nat, prev: Option<Row>)
    requires '/' !in u && Proper(p, u, e) && Agrees(p, d, u, n, prev)
    ensures Agrees(p, After(p, d, e), u, n,
              match e
              case Sent(v, spelling, data) =>
                if v == u && PartNumber(spelling) == Some(n) then Some(Row(spelling, Some(data))) else prev
              case Lost(v, spelling, left) =>
                if v == u && PartNumber(spelling).Some? && prev.Some? && prev.value.spelling == spelling
                then Some(Row(spelling, left)) else prev
              case Elsewhere(_, _, _) => prev)
  {
    if prev.Some? {
      var mine := TempPath(u, prev.value.spelling);
      if e.Elsewhere? {
        assert IsTemp(u, mine);
      } else if TempPath(e.u, e.spelling) == mine {
        TempPathInjective(e.u, e.spelling, u, prev.value.spelling);
      }
    }
  }

  /** The latest bytes of the listed parts, one after the other. */
  function AllLatest(es: seq<Event>, u: string, nums: seq<nat>): Option<Bytes> {
    if nums == [] then Some([])
    else match (AllLatest(es, u, nums[..|nums| - 1]), Latest(es, u, nums[|nums| - 1]))
      case (Some(head), Some(row)) => if row.content.Some? then Some(head + row.content.value) else None
      case _ => None
  }

  /** What completing the upload stores is the concatenation, in ascending part
      number, of the latest bytes of each part ever sent. */
  lemma {:induction false} AssemblesLatest(p: StoreId, d: Desk, es: seq<Event>, u: string, nums: seq<nat>)
    requires '/' !in u && AllProper(p, u, es) && forall n: nat :: (u, n) !in d.parts
    requires var e := AfterAll(p, d, es); forall n :: n in nums ==> (u, n) in e.parts
    ensures var e := AfterAll(p, d, es);
            Assemble(e.disk, p, PathsOf(e.parts, u, nums)) == AllLatest(es, u, nums)
    decreases |nums|
  {
    var e := AfterAll(p, d, es);
    if nums != [] {
      var init, n := nums[..|nums| - 1], nums[|nums| - 1];
      AssemblesLatest(p, d, es, u, init);
      LatestPartWins(p, d, es, u, n);
      assert n in nums;
      assert PathsOf(e.parts, u, nums)[..|init|] == PathsOf(e.parts, u, init);
    }
  }

  /** The rows listed are exactly the numbers the history has sent. */
  lemma ListedPartsWereSent(p: StoreId, d: Desk, es: seq<Event>, u: string, nums: seq<nat>)
    requires '/' !in u && AllProper(p, u, es) && forall n: nat :: (u, n) !in d.parts
    requires InOrder(AfterAll(p, d, es).parts, u, nums)
    ensures forall n: nat :: n in nums <==> Latest(es, u, n).Some?
  {
    forall n: nat ensures n in nums <==> Latest(es, u, n).Some? { LatestPartWins(p, d, es, u, n); }
  }

  // -------------------------------------------------------------- nothing is left

  lemma {:induction false} RemoveAllRemoves(disk: Disk, p: StoreId, paths: seq<string>, stuck: set<string>, s: StoreId,
                                            path: string)
    ensures Lookup(RemoveAll(disk, p, paths, stuck), s, path)
         == if s == p && path in paths && path !in stuck then None else Lookup(disk, s, path)
  {
    if paths != [] { RemoveAllRemoves(disk, p, paths[..|paths| - 1], stuck, s, path); }
  }

  /** A temp object of u that no row of u names. */
  ghost predicate Stray(p: StoreId, d: Desk, u: string, path: string) {
    (p, path) in d.disk && IsTemp(u, path) && forall n: nat :: (u, n) in d.parts ==> d.parts[(u, n)] != path
  }

  /** A temp object that a row of u names and whose delete fails. */
  ghost predicate Stuck(p: StoreId, d: Desk, u: string, stuck: set<string>, path: string) {
    (p, path) in d.disk && path in stuck && exists n: nat :: (u, n) in d.parts && d.parts[(u, n)] == path
  }

  /** Complete and abort leave, of u's temp objects, exactly the strays and the
      stuck ones; and leave every part row and temp object of another upload
      alone. */
  lemma OnlyStraysRemain(p: StoreId, d: Desk, u: string, nums: seq<nat>, stuck: set<string>, path: string)
    requires PartsFit(d.parts) && InOrder(d.parts, u, nums)
    ensures var left := RemoveAll(d.disk, p, PathsOf(d.parts, u, nums), stuck);
            && (IsTemp(u, path) ==> ((p, path) in left <==> Stray(p, d, u, path) || Stuck(p, d, u, stuck, path)))
            && (forall v :: v != u && '/' !in v && '/' !in u && IsTemp(v, path) ==>
                Lookup(left, p, path) == Lookup(d.disk, p, path))
            && (forall k :: k in d.parts && k.0 != u ==>
                k in RowsWithout(d.parts, u) && RowsWithout(d.parts, u)[k] == d.parts[k])
            && (forall k :: k in RowsWithout(d.parts, u) ==> k.0 != u)
  {
    var paths := PathsOf(d.parts, u, nums);
    RemoveAllRemoves(d.disk, p, paths, stuck, p, path);
    assert path in paths <==> exists n: nat :: (u, n) in d.parts && d.parts[(u, n)] == path by {
      if n: nat :| (u, n) in d.parts && d.parts[(u, n)] == path {
        assert n in nums;
        var i :| 0 <= i < |nums| && nums[i] == n;
        assert paths[i] == path;
      }
      if path in paths {
        var i :| 0 <= i < |paths| && paths[i] == path;
        assert nums[i] in nums;
      }
    }
    forall v | v != u && '/' !in v && '/' !in u && IsTemp(v, path) ensures path !in paths {
      var t :| path == TempPath(v, t);
      if path in paths {
        var i :| 0 <= i < |paths| && paths[i] == path;
        assert nums[i] in nums && (u, nums[i]) in d.parts;
        var s :| PartNumber(s) == Some((u, nums[i]).1) && d.parts[(u, nums[i])] == TempPath(u, s);
        TempPathInjective(u, s, v, t);
      }
    }
  }

  /** Sending a part makes its number's old object a stray exactly when the
      part was last spelled differently. */
  lemma SendingStrays(p: StoreId, d: Desk, u: string, spelling: string, data: Bytes)
    requires '/' !in u && PartNumber(spelling).Some? && PartsFit(d.parts) && forall path :: !Stray(p, d, u, path)
    ensures var k := (u, PartNumber(spelling).value);
            var e := After(p, d, Sent(u, spelling, data));
            (exists path :: Stray(p, e, u, path))
            <==> k in d.parts && d.parts[k] != TempPath(u, spelling) && (p, d.parts[k]) in d.disk
  {
    var k := (u, PartNumber(spelling).value);
    var e := After(p, d, Sent(u, spelling, data));
    if k in d.parts && d.parts[k] != TempPath(u, spelling) && (p, d.parts[k]) in d.disk {
      var path := d.parts[k];
      forall n: nat | (u, n) in e.parts ensures e.parts[(u, n)] != path {
        if (u, n) != k { if d.parts[(u, n)] == path { PartPathsDistinct(d.parts, (u, n), k); } }
      }
      assert exists t :: PartNumber(t) == Some(k.1) && path == TempPath(u, t);
      assert Stray(p, e, u, path);
    }
    forall path | Stray(p, e, u, path)
      ensures k in d.parts && d.parts[k] != TempPath(u, spelling) && (p, d.parts[k]) in d.disk
    {
      assert e.parts[k] == TempPath(u, spelling) != path;
      assert (p, path) in d.disk && !Stray(p, d, u, path);
      var n: nat :| (u, n) in d.parts && d.parts[(u, n)] == path;
      assert (u, n) in e.parts;
    }
  }

  /** Every part number spelled as Itoa would, and no failed upload leaving bytes. */
  ghost predicate Tidy(e: Event) {
    match e
    case Sent(_, spelling, _) => Canonical(spelling)
    case Lost(_, _, left) => left == None
    case Elsewhere(_, _, _) => true
  }

  /** No strays of u, and its rows canonically spelled. */
  ghost predicate Neat(p: StoreId, d: Desk, u: string) {
    && PartsFit(d.parts) && (forall path :: !Stray(p, d, u, path))
    && (forall n: nat :: (u, n) in d.parts ==>
          exists s :: Canonical(s) && PartNumber(s) == Some(n) && d.parts[(u, n)] == TempPath(u, s))
  }

  lemma SentStaysNeat(p: StoreId, d: Desk, u: string, v: string, spelling: string, data: Bytes)
    requires '/' !in u && '/' !in v && Neat(p, d, u) && Canonical(spelling)
    ensures Neat(p, After(p, d, Sent(v, spelling, data)), u)
  {
    CanonicalPartNumber(spelling, spelling);
    var k := (v, PartNumber(spelling).value);
    var e := After(p, d, Sent(v, spelling, data));
    if v == u {
      SendingStrays(p, d, u, spelling, data);
      if k in d.parts {
        var s :| Canonical(s) && PartNumber(s) == Some(PartNumber(spelling).value)
            && d.parts[(u, PartNumber(spelling).value)] == TempPath(u, s);
        CanonicalPartNumber(s, spelling);
      }
    } else {
      forall path ensures !Stray(p, e, u, path) {
        assert !Stray(p, d, u, path);
        if IsTemp(u, path) {
          var s :| path == TempPath(u, s);
          if path == TempPath(v, spelling) { TempPathInjective(u, s, v, spelling); }
        }
        forall n: nat | (u, n) in d.parts ensures e.parts[(u, n)] == d.parts[(u, n)] { assert (u, n).0 != v; }
      }
    }
    NeatRows(d, e, u, v, spelling);
  }

  lemma NeatRows(d: Desk, e: Desk, u: string, v: string, spelling: string)
    requires '/' !in v && Canonical(spelling) && PartNumber(spelling).Some? && e.parts == AddPart(d.parts, v, spelling)
    requires PartsFit(d.parts)
    requires forall n: nat :: (u, n) in d.parts ==>
               exists s :: Canonical(s) && PartNumber(s) == Some(n) && d.parts[(u, n)] == TempPath(u, s)
    ensures PartsFit(e.parts)
    ensures forall n: nat :: (u, n) in e.parts ==>
              exists s :: Canonical(s) && PartNumber(s) == Some(n) && e.parts[(u, n)] == TempPath(u, s)
  {
    var k := (v, PartNumber(spelling).value);
    forall j | j in e.parts
      ensures '/' !in j.0 && exists s :: PartNumber(s) == Some(j.1) && e.parts[j] == TempPath(j.0, s)
    {
      if j == k { assert PartNumber(spelling) == Some(j.1) && e.parts[j] == TempPath(j.0, spelling); }
    }
    forall n: nat | (u, n) in e.parts
      ensures exists s :: Canonical(s) && PartNumber(s) == Some(n) && e.parts[(u, n)] == TempPath(u, s)
    {
      if (u, n) == k {
        assert Canonical(spelling) && PartNumber(spelling) == Some(n) && e.parts[(u, n)] == TempPath(u, spelling);
      } else {
        assert (u, n) in d.parts;
      }
    }
  }

  lemma TidyStaysNeat(p: StoreId, d: Desk, e: Event, u: string)
    requires '/' !in u && Proper(p, u, e) && Tidy(e) && Neat(p, d, u)
    ensures Neat(p, After(p, d, e), u)
  {
    if e.Sent? {
      SentStaysNeat(p, d, u, e.u, e.spelling, e.data);
    } else {
      forall path ensures !Stray(p, After(p, d, e), u, path) { assert !Stray(p, d, u, path); }
    }
  }

  lemma {:induction false} TidyRunsStayNeat(p: StoreId, d: Desk, es: seq<Event>, u: string)
    requires '/' !in u && AllProper(p, u, es) && Neat(p, d, u)
    requires forall i :: 0 <= i < |es| ==> Tidy(es[i])
    ensures Neat(p, AfterAll(p, d, es), u)
    decreases |es|
  {
    if es != [] {
      var init, e := es[..|es| - 1], es[|es| - 1];
      TidyRunsStayNeat(p, d, init, u);
      assert Proper(p, u, e) && Tidy(e);
      TidyStaysNeat(p, AfterAll(p, d, init), e, u);
    }
  }

  /** With tidy requests nothing is ever stray, so of an upload's temp objects
      completing or aborting it leaves exactly those whose delete fails. */
  lemma TidyRunsLeaveNothing(p: StoreId, d: Desk, es: seq<Event>, u: string)
    requires '/' !in u && AllProper(p, u, es) && Neat(p, d, u)
    requires forall i :: 0 <= i < |es| ==> Tidy(es[i])
    ensures Neat(p, AfterAll(p, d, es), u)
    ensures var e := AfterAll(p, d, es);
            forall nums, stuck, path :: InOrder(e.parts, u, nums) && IsTemp(u, path) ==>
              ((p, path) in RemoveAll(e.disk, p, PathsOf(e.parts, u, nums), stuck) <==>
               path in stuck && (p, path) in e.disk)
  {
    TidyRunsStayNeat(p, d, es, u);
    var e := AfterAll(p, d, es);
    forall nums, stuck, path | InOrder(e.parts, u, nums) && IsTemp(u, path)
      ensures (p, path) in RemoveAll(e.disk, p, PathsOf(e.parts, u, nums), stuck) <==>
              path in stuck && (p, path) in e.disk
    {
      NeatLeavesStuck(p, e, u, nums, stuck, path);
    }
  }

  lemma NeatLeavesStuck(p: StoreId, e: Desk, u: string, nums: seq<nat>, stuck: set<string>, path: string)
    requires Neat(p, e, u) && InOrder(e.parts, u, nums) && IsTemp(u, path)
    ensures (p, path) in RemoveAll(e.disk, p, PathsOf(e.parts, u, nums), stuck) <==>
            path in stuck && (p, path) in e.disk
  {
    OnlyStraysRemain(p, e, u, nums, stuck, path);
    assert !Stray(p, e, u, path);
    RemoveAllRemoves(e.disk, p, PathsOf(e.parts, u, nums), stuck, p, path);
  }

  /** The condition is needed: part "1" re-sent as "01" leaves the first object
      behind for ever. */
  lemma RespelledPartLeaks(p: StoreId, u: string, a: Bytes, b: Bytes, nums: seq<nat>, stuck: set<string>)
    requires '/' !in u
    requires InOrder(AfterAll(p, Desk(map[], map[]), [Sent(u, "1", a), Sent(u, "01", b)]).parts, u, nums)
    ensures var e := AfterAll(p, Desk(map[], map[]), [Sent(u, "1", a), Sent(u, "01", b)]);
            (p, TempPath(u, "1")) in RemoveAll(e.disk, p, PathsOf(e.parts, u, nums), stuck)
  {
    var d0 := Desk(map[], map[]);
    var es := [Sent(u, "1", a), Sent(u, "01", b)];
    assert es[..1] == [es[0]] && es[..1][..0] == [];
    assert DigitsValue("1") == 1 by { assert "1"[..0] == ""; }
    assert DigitsValue("01") == 1 by { assert "01"[..1] == "0"; assert "0"[..0] == ""; }
    assert PartNumber("1") == Some(1) && PartNumber("01") == Some(1);
    var d1 := After(p, d0, es[0]);
    assert AfterAll(p, d0, es[..1]) == d1;
    var e := AfterAll(p, d0, es);
    assert e == After(p, d1, es[1]);
    assert e.parts == map[(u, 1) := TempPath(u, "01")];
    if TempPath(u, "1") == TempPath(u, "01") { TempPathInjective(u, "1", u, "01"); }
    assert Stray(p, e, u, TempPath(u, "1"));
    assert PartNumber("01") == Some(1) && e.parts[(u, 1)] == TempPath(u, "01");
    OnlyStraysRemain(p, e, u, nums, stuck, TempPath(u, "1"));
  }

  // -------------------------------------------------- what a history says, event by event

  ghost predicate SendsPart(e: Event, u: string, n: nat) { e.Sent? && e.u == u && PartNumber(e.spelling) == Some(n) }

  /** Event k is the last one that sends part n of u. */
  ghost predicate SendsLast(es: seq<Event>, u: string, n: nat, k: nat) {
    k < |es| && SendsPart(es[k], u, n) && forall j :: k < j < |es| ==> !SendsPart(es[j], u, n)
  }

  ghost predicate LosesSpelling(e: Event, u: string, spelling: string) { e.Lost? && e.u == u && e.spelling == spelling }

  /** Event m, the one that sent the part or a later failed upload of the same
      spelling, is the last to leave anything at the part's path, and left this. */
  ghost predicate LeavesLast(es: seq<Event>, k: nat, m: nat, content: Option<Bytes>)
    requires k < |es| && es[k].Sent?
  {
    && k <= m < |es|
    && (if m == k then content == Some(es[k].data) else es[m] == Lost(es[k].u, es[k].spelling, content))
    && forall j :: m < j < |es| ==> !LosesSpelling(es[j], es[k].u, es[k].spelling)
  }

  /** Some last sending of part n, and what was last left at its path. */
  ghost predicate LastLeft(es: seq<Event>, u: string, n: nat, content: Option<Bytes>) {
    exists k: nat, m: nat :: SendsLast(es, u, n, k) && LeavesLast(es, k, m, content)
  }

  /** Latest is what the last sending of the part, or a later failed upload of
      the same spelling, left. */
  lemma {:induction false} LatestIs(es: seq<Event>, u: string, n: nat) returns (k: nat, m: nat)
    ensures var r := Latest(es, u, n);
            && (r.None? ==> forall j :: 0 <= j < |es| ==> !SendsPart(es[j], u, n))
            && (r.Some? ==>
                  && SendsLast(es, u, n, k) && es[k].spelling == r.value.spelling
                     && LeavesLast(es, k, m, r.value.content))
    decreases |es|
  {
    k, m := 0, 0;
    if es != [] {
      var init, e := es[..|es| - 1], es[|es| - 1];
      k, m := LatestIs(init, u, n);
      if SendsPart(e, u, n) {
        k, m := |es| - 1, |es| - 1;
      } else if Latest(init, u, n).Some? && LosesSpelling(e, u, init[k].spelling) {
        m := |es| - 1;
      }
      HistoryGrows(init, e, u, n, Latest(init, u, n), k, m);
    }
  }

  /** One more event, and what it makes of the part. */
  lemma HistoryGrows(init: seq<Event>, e: Event, u: string, n: nat, prev: Option<Row>, k: nat, m: nat)
    requires prev.None? ==> forall j :: 0 <= j < |init| ==> !SendsPart(init[j], u, n)
    requires SendsPart(e, u, n) ==> k == |init| && m == |init|
    requires !SendsPart(e, u, n) && prev.Some? ==>
               && SendsLast(init, u, n, k) && init[k].spelling == prev.value.spelling
               && if LosesSpelling(e, u, init[k].spelling) then m == |init|
                  else LeavesLast(init, k, m, prev.value.content)
    ensures var es := init + [e];
            var r := match e
                     case Sent(v, spelling, data) =>
                       if v == u && PartNumber(spelling) == Some(n) then Some(Row(spelling, Some(data))) else prev
                     case Lost(v, spelling, left) =>
                       if v == u && PartNumber(spelling).Some? && prev.Some? && prev.value.spelling == spelling
                       then Some(Row(spelling, left)) else prev
                     case Elsewhere(_, _, _) => prev;
            && (r.None? ==> forall j :: 0 <= j < |es| ==> !SendsPart(es[j], u, n))
            && (r.Some? ==>
                  && SendsLast(es, u, n, k) && es[k].spelling == r.value.spelling
                     && LeavesLast(es, k, m, r.value.content))
  {
    var es := init + [e];
    assert forall j :: 0 <= j < |init| ==> es[j] == init[j];
    assert es[|init|] == e;
  }

  lemma LastLeftIs(es: seq<Event>, u: string, n: nat, content: Option<Bytes>)
    ensures LastLeft(es, u, n, content) <==> Latest(es, u, n).Some? && Latest(es, u, n).value.content == content
  {
    var k, m := LatestIs(es, u, n);
    if LastLeft(es, u, n, content) {
      var l: nat, o: nat :| SendsLast(es, u, n, l) && LeavesLast(es, l, o, content);
      assert l == k;
    }
  }

  /** `all` cut at `cuts`: piece i is what was last left for part nums[i]. */
  ghost predicate Assembled(es: seq<Event>, u: string, nums: seq<nat>, all: Bytes, cuts: seq<nat>) {
    && |cuts| == |nums| + 1 && cuts[0] == 0 && cuts[|nums|] == |all|
    && forall i :: 0 <= i < |nums| ==> PieceIs(es, u, nums[i], all, cuts[i], cuts[i + 1])
  }

  ghost predicate PieceIs(es: seq<Event>, u: string, n: nat, all: Bytes, lo: int, hi: int) {
    0 <= lo <= hi <= |all| && LastLeft(es, u, n, Some(all[lo..hi]))
  }

  lemma {:induction false} AllLatestIs(es: seq<Event>, u: string, nums: seq<nat>, all: Bytes) returns (cuts: seq<nat>)
    requires AllLatest(es, u, nums) == Some(all)
    ensures Assembled(es, u, nums, all, cuts)
    decreases |nums|
  {
    if nums == [] {
      cuts := [0];
    } else {
      var init, n := nums[..|nums| - 1], nums[|nums| - 1];
      assert init + [n] == nums;
      var head, piece := LastPiece(es, u, nums, init, n);
      var before := AllLatestIs(es, u, init, head);
      cuts := before + [|head + piece|];
      PieceAdded(es, u, init, n, head, before, piece);
    }
  }

  lemma LastPiece(es: seq<Event>, u: string, nums: seq<nat>, init: seq<nat>, n: nat) returns (head: Bytes, piece: Bytes)
    requires AllLatest(es, u, nums).Some? && nums != [] && init == nums[..|nums| - 1] && n == nums[|nums| - 1]
    ensures AllLatest(es, u, init) == Some(head) && AllLatest(es, u, nums) == Some(head + piece)
    ensures LastLeft(es, u, n, Some(piece))
  {
    head, piece := AllLatest(es, u, init).value, Latest(es, u, n).value.content.value;
    LastLeftIs(es, u, n, Some(piece));
  }

  lemma PieceAdded(es: seq<Event>, u: string, init: seq<nat>, n: nat, head: Bytes, before: seq<nat>, piece: Bytes)
    requires Assembled(es, u, init, head, before) && LastLeft(es, u, n, Some(piece))
    ensures Assembled(es, u, init + [n], head + piece, before + [|head + piece|])
  {
    var all, cuts := head + piece, before + [|head + piece|];
    forall i | 0 <= i < |init| + 1 ensures PieceIs(es, u, (init + [n])[i], all, cuts[i], cuts[i + 1]) {
      if i < |init| {
        assert PieceIs(es, u, init[i], head, before[i], before[i + 1]);
        assert all[before[i]..before[i + 1]] == head[before[i]..before[i + 1]];
      } else {
        assert all[|head|..|all|] == piece;
      }
    }
  }

  /** What is assembled is there exactly when every listed part's bytes are. */
  lemma {:induction false} AllLatestSomeIff(es: seq<Event>, u: string, nums: seq<nat>)
    ensures AllLatest(es, u, nums).Some? <==> AllLeft(es, u, nums)
    decreases |nums|
  {
    if nums != [] {
      var init, n := nums[..|nums| - 1], nums[|nums| - 1];
      AllLatestSomeIff(es, u, init);
      LeftAtLast(es, u, n);
      assert AllLeft(es, u, nums) <==> AllLeft(es, u, init) && HasLeft(es, u, n) by {
        assert forall i :: 0 <= i < |init| ==> init[i] == nums[i];
      }
    }
  }

  /** The last word on part n is some bytes. */
  ghost predicate HasLeft(es: seq<Event>, u: string, n: nat) { exists piece :: LastLeft(es, u, n, Some(piece)) }

  ghost predicate AllLeft(es: seq<Event>, u: string, nums: seq<nat>) {
    forall i :: 0 <= i < |nums| ==> HasLeft(es, u, nums[i])
  }

  lemma LeftAtLast(es: seq<Event>, u: string, n: nat)
    ensures HasLeft(es, u, n) <==> Latest(es, u, n).Some? && Latest(es, u, n).value.content.Some?
  {
    forall piece ensures LastLeft(es, u, n, Some(piece))
                    <==> Latest(es, u, n).Some? && Latest(es, u, n).value.content == Some(piece)
    {
      LastLeftIs(es, u, n, Some(piece));
    }
    if Latest(es, u, n).Some? && Latest(es, u, n).value.content.Some? {
      assert LastLeft(es, u, n, Some(Latest(es, u, n).value.content.value));
    }
  }

  ghost predicate SentAs(es: seq<Event>, u: string, spelling: string) {
    exists i :: 0 <= i < |es| && es[i].Sent? && es[i].u == u && es[i].spelling == spelling
  }

  /** Every part of u is sent under its number's canonical spelling. */
  ghost predicate SentCanonically(es: seq<Event>, u: string) {
    forall spelling :: SentAs(es, u, spelling) ==> Canonical(spelling)
  }

  /** The spellings sent, each once, in the order of their digits. */
  ghost predicate InDigitOrder(es: seq<Event>, u: string, order: seq<string>) {
    && (forall i, j :: 0 <= i < j < |order| ==> Before(order[i], order[j]))
    && forall s :: s in order <==> SentAs(es, u, s)
  }

  /** The canonical spellings of the listed numbers are the spellings sent. */
  lemma ListedInDigitOrder(es: seq<Event>, u: string, nums: seq<nat>) returns (order: seq<string>)
    requires SentCanonically(es, u)
    requires forall n: nat :: n in nums <==> Latest(es, u, n).Some?
    requires forall i, j :: 0 <= i < j < |nums| ==> nums[i] < nums[j]
    ensures |order| == |nums| && InDigitOrder(es, u, order)
    ensures forall i :: 0 <= i < |nums| ==> PartNumber(order[i]) == Some(nums[i])
  {
    order := seq(|nums|, i requires 0 <= i < |nums| => N.Itoa(nums[i]));
    forall i | 0 <= i < |nums|
      ensures SentAs(es, u, order[i]) && Canonical(order[i]) && PartNumber(order[i]) == Some(nums[i])
    {
      assert nums[i] in nums;
      var k, m := LatestIs(es, u, nums[i]);
      assert SentAs(es, u, es[k].spelling);
      CanonicalIsItoa(es[k].spelling);
    }
    forall i, j | 0 <= i < j < |order| ensures Before(order[i], order[j]) { SpellingOrder(order[i], order[j]); }
    forall s | SentAs(es, u, s) ensures s in order { SentIsListed(es, u, nums, order, s); }
  }

  lemma SentIsListed(es: seq<Event>, u: string, nums: seq<nat>, order: seq<string>, s: string)
    requires SentAs(es, u, s) && Canonical(s) && |order| == |nums|
    requires forall n: nat :: n in nums <==> Latest(es, u, n).Some?
    requires forall i :: 0 <= i < |nums| ==> Canonical(order[i]) && PartNumber(order[i]) == Some(nums[i])
    ensures s in order
  {
    CanonicalIsItoa(s);
    var n := PartNumber(s).value;
    var k, m := LatestIs(es, u, n);
    var i :| 0 <= i < |es| && es[i].Sent? && es[i].u == u && es[i].spelling == s;
    assert SendsPart(es[i], u, n);
    assert n in nums;
    var j :| 0 <= j < |nums| && nums[j] == n;
    CanonicalPartNumber(order[j], s);
  }

  // ------------------------------------------------------- a history, and its completion

  /** Requests the part handler gets beyond its checks. */
  ghost predicate Known(uploads: map<string, Upload>, es: seq<Event>) {
    forall i :: 0 <= i < |es| && !es[i].Elsewhere? ==> es[i].u in uploads
  }

  /** Part uploads that succeed or fail, and whatever else happens to the stores. */
  method PlayParts(ms: MultipartStore, p: StoreId, es: seq<Event>)
    requires Primary(ms.ws.cfg) == Some(p) && Known(ms.uploads, es)
    modifies ms, ms.ws
    ensures ms.uploads == old(ms.uploads) && ms.ws.db == old(ms.ws.db)
    ensures Desk(ms.ws.disk, ms.parts) == AfterAll(p, old(Desk(ms.ws.disk, ms.parts)), es)
  {
    for i := 0 to |es|
      invariant ms.uploads == old(ms.uploads) && ms.ws.db == old(ms.ws.db)
      invariant Desk(ms.ws.disk, ms.parts) == AfterAll(p, old(Desk(ms.ws.disk, ms.parts)), es[..i])
    {
      assert es[..i + 1][..i] == es[..i];
      match es[i]
      case Sent(u, spelling, data) => var _ := S3UploadPart(ms, u, spelling, data, false, None);
      case Lost(u, spelling, left) => var _ := S3UploadPart(ms, u, spelling, [], true, left);
      case Elsewhere(s, path, now) => ms.ws.disk := Write(ms.ws.disk, s, path, now);
    }
    assert es[..|es|] == es;
  }

  /** Whatever is sent, in whatever order and however often, an upload that is
      then completed stores the latest bytes of every part number ever sent, in
      ascending order. */
  method PlayAndComplete(ms: MultipartStore, p: StoreId, es: seq<Event>, u: string, key: string, fails: bool,
                         left: Option<Bytes>, stuck: set<string>, faults: Faults)
    returns (r: Outcome, ghost nums: seq<nat>)
    requires Primary(ms.ws.cfg) == Some(p) && Known(ms.uploads, es) && FilesMatchBlobs(ms.ws.db) && KeysUnique(ms.ws.db)
    requires '/' !in u && AllProper(p, u, es) && forall n: nat :: (u, n) !in ms.parts
    modifies ms, ms.ws
    ensures r.Completed? ==> Some(r.all) == AllLatest(es, u, nums)
    ensures r.Completed? ==> exists cuts :: Assembled(es, u, nums, r.all, cuts)
    ensures SentCanonically(es, u) ==>
              exists order ::
                && |order| == |nums| && InDigitOrder(es, u, order)
                && forall i :: 0 <= i < |nums| ==> PartNumber(order[i]) == Some(nums[i])
    ensures forall n: nat :: n in nums <==> exists i :: 0 <= i < |es| && SendsPart(es[i], u, n)
    ensures forall i, j :: 0 <= i < j < |nums| ==> nums[i] < nums[j]
    ensures r.Completed? <==>
              && u in old(ms.uploads) && nums != [] && AllLeft(es, u, nums) && !fails
              && Markable(old(ms.ws.db), key, old(ms.uploads)[u].user, p)
  {
    ghost var d := Desk(ms.ws.disk, ms.parts);
    PlayParts(ms, p, es);
    r, nums := S3CompleteMultipartUpload(ms, u, key, fails, left, stuck, faults);
    ListedPartsWereSent(p, d, es, u, nums);
    AssemblesLatest(p, d, es, u, nums);
    AllLatestSomeIff(es, u, nums);
    forall n: nat ensures Latest(es, u, n).Some? <==> exists i :: 0 <= i < |es| && SendsPart(es[i], u, n) {
      var k, m := LatestIs(es, u, n);
    }
    if r.Completed? { var cuts := AllLatestIs(es, u, nums, r.all); }
    if SentCanonically(es, u) { var order := ListedInDigitOrder(es, u, nums); }
  }
}
