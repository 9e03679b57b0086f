/** Whole requests to the gateway, one after the other: the map they amount to,
    and what lists and gets show of it
    (server/internal/handler/s3gateway.go). */
module Requests {
  import opened ByteOrder
  import opened Strings
  import opened Tables
  import opened Replication
  import opened Records
  import opened Refinement
  import opened Loss
  import opened KeyPlacement
  import opened Gateway
  import F = Folders
  import L = Listing

  datatype Request = PutObject(user: string, key: string, data: Bytes, fate: Fate) | DeleteObject(key: string)

  /** Tables and stores, and the folders. */
  datatype Site = Site(w: World, folders: F.State)

  const NEW_SITE := Site(World(EMPTY_DB, map[]), F.State(map[], map[], 0))

  function BeginOf(put: Put, fate: Fate): Step { GatewayBegin(0, put, fate.deletes, fate.begins) }

  ghost function Serve(cfg: Config, site: Site, req: Request): Site {
    match req
    case PutObject(user, key, data, fate) =>
      var begin := BeginOf(PutOf(site.folders, user, key, data), fate);
      Site(Attempt(cfg, site.w, begin, fate).w,
           if Accepts(cfg, Sys(site.w, map[]), begin) && fate.begins
           then F.ChainState(site.folders, F.Directories(key)).0 else site.folders)
    case DeleteObject(key) => site.(w := Next(cfg, Sys(site.w, map[]), Delete(key)).w)
  }

  ghost function ServeAll(cfg: Config, reqs: seq<Request>): Site {
    if reqs == [] then NEW_SITE else Serve(cfg, ServeAll(cfg, reqs[..|reqs| - 1]), reqs[|reqs| - 1])
  }

  // ------------------------------------------------------------- the map by itself

  /** Another key of the map differs only in doubled or leading slashes. */
  ghost predicate Clashes(sp: Spec, key: string) {
    exists k :: k in sp.objects && k != key && Squeeze(k) == Squeeze(key)
  }

  /** A put begins: it has a key, and a store to go to. */
  predicate Begins(cfg: Config, key: string) { key != "" && Primary(cfg).Some? }

  /** The put reports success. */
  ghost predicate Works(cfg: Config, sp: Spec, key: string, fate: Fate) {
    Begins(cfg, key) && fate.begins && !fate.uploadFails && fate.commits && !Clashes(sp, key)
  }

  /** What a request does to the map, told from the map alone. */
  ghost function MapServe(cfg: Config, sp: Spec, req: Request): Spec {
    match req
    case PutObject(_, key, data, fate) =>
      if !Begins(cfg, key) then sp
      else if !fate.begins then
        if fate.deletes && key in sp.objects then sp.(frail := sp.frail + {key}) else sp
      else if Works(cfg, sp, key, fate) then With(sp, key, data)
      else Without(sp, key)
    case DeleteObject(key) => Without(sp, key)
  }

  ghost function MapServeAll(cfg: Config, reqs: seq<Request>): Spec {
    if reqs == [] then EMPTY_SPEC else MapServe(cfg, MapServeAll(cfg, reqs[..|reqs| - 1]), reqs[|reqs| - 1])
  }

  // ------------------------------------------------------------- what requests keep

  /** Every ready blob is located on the primary. */
  ghost predicate OnPrimary(cfg: Config, db: DB) {
    forall b :: b in db.blobs && db.blobs[b].ready ==> Primary(cfg).Some? && (b, Primary(cfg).value) in db.locs
  }

  ghost predicate BoundForPrimary(cfg: Config, s: Sys) {
    forall t :: t in s.flights ==> Primary(cfg) == Some(s.flights[t].store)
  }

  lemma MarkKeepsOnPrimary(cfg: Config, db: DB, fl: Flight)
    requires OnPrimary(cfg, db) && Primary(cfg) == Some(fl.store)
    ensures var r := MarkReady(db, fl.file, fl.blob, fl.store, fl.key); r.Some? ==> OnPrimary(cfg, r.value)
  {
  }

  lemma FinishKeepsOnPrimary(cfg: Config, s: Sys, t: Token, faults: Faults)
    requires SysInv(s) && OnPrimary(cfg, s.w.db) && BoundForPrimary(cfg, s) && t in s.flights
    ensures var r := FinishRows(cfg, s.w, s.flights[t], faults); r.Some? ==> OnPrimary(cfg, r.value.db)
  {
    var fl := s.flights[t];
    var marked := MarkReady(s.w.db, fl.file, fl.blob, fl.store, fl.key);
    MarkKeepsOnPrimary(cfg, s.w.db, fl);
    MarkKeepsMatch(s.w.db, fl);
    if marked.Some? && cfg.replicate {
      SyncAddsOnlyCopies(cfg, World(marked.value, s.w.disk), fl.file, faults);
      SyncLocatesLiveBlobs(cfg, World(marked.value, s.w.disk), fl.file, faults, (fl.blob, fl.store));
    }
  }

  lemma StepKeepsOnPrimary(cfg: Config, s: Sys, step: Step)
    requires SysInv(s) && OnPrimary(cfg, s.w.db) && BoundForPrimary(cfg, s) && !step.UploadBegin?
    ensures OnPrimary(cfg, Next(cfg, s, step).w.db) && BoundForPrimary(cfg, Next(cfg, s, step))
  {
    if step.Finish? && Accepts(cfg, s, step) { FinishKeepsOnPrimary(cfg, s, step.token, step.faults); }
  }

  lemma AttemptKeepsOnPrimary(cfg: Config, w: World, begin: Step, fate: Fate)
    requires SysInv(Sys(w, map[])) && OnPrimary(cfg, w.db) && begin.GatewayBegin?
    ensures OnPrimary(cfg, Attempt(cfg, w, begin, fate).w.db)
  {
    var s0 := Sys(w, map[]);
    var s1 := Next(cfg, s0, begin);
    StepKeepsInv(cfg, s0, begin);
    StepKeepsOnPrimary(cfg, s0, begin);
    if 0 in s1.flights && fate.uploadFails {
      StepKeepsOnPrimary(cfg, s1, StoreFails(0, fate.left));
    } else if 0 in s1.flights {
      StepKeepsInv(cfg, s1, StoreObject(0));
      StepKeepsOnPrimary(cfg, s1, StoreObject(0));
      StepKeepsOnPrimary(cfg, Next(cfg, s1, StoreObject(0)), Finish(0, fate.faults, fate.commits));
    }
  }

  /** A key the gateway passes on. */
  predicate Passed(key: string) { !EndsInSlash(key) }

  ghost predicate KeysPassed(sp: Spec) { forall k :: k in sp.objects ==> k != "" && Passed(k) }

  /** Between requests: the tables and stores are the map, every file is filed
      by its key and on the primary. */
  ghost predicate Kept(cfg: Config, site: Site, sp: Spec) {
    && Exact(cfg, Sys(site.w, map[]), sp) && OnPrimary(cfg, site.w.db) && KeysPassed(sp)
    && F.Sound(site.folders) && FiledByKey(site.folders.t, site.w.db)
  }

  lemma AddressHeldIffClashes(cfg: Config, w: World, sp: Spec, key: string)
    requires Mirrors(cfg, Sys(w, map[]), sp) && KeysPassed(sp) && key != "" && Passed(key)
    ensures AddressHeld(w.db, key) <==> Clashes(sp, key)
  {
    if g :| g in w.db.files && w.db.files[g].ready && w.db.files[g].storagePath != key
            && Address(w.db.files[g].storagePath) == Address(key) {
      var k := w.db.files[g].storagePath;
      assert k in sp.objects;
      SameAddressIff(k, key);
    }
    if k :| k in sp.objects && k != key && Squeeze(k) == Squeeze(key) {
      SameAddressIff(k, key);
      var b :| b in w.db.blobs && w.db.blobs[b].ready && w.db.blobs[b].objectKey == k;
      assert HasFile(w.db, b);
      var g :| g in w.db.files && w.db.files[g].blobId == b;
      assert w.db.files[g].ready && w.db.files[g].storagePath == k;
    }
  }

  lemma HeldIffInMap(cfg: Config, w: World, sp: Spec, key: string)
    requires KeysMatch(w.db, sp) && OnPrimary(cfg, w.db)
    ensures PrimaryHolds(cfg, w.db, key) <==> key in sp.objects
  {
  }

  /** The effect of a put on the map, told from the map alone. */
  lemma PutOnTheMap(cfg: Config, site: Site, sp: Spec, req: Request)
    requires ValidConfig(cfg) && Kept(cfg, site, sp) && req.PutObject? && Passed(req.key)
    ensures var put := PutOf(site.folders, req.user, req.key, req.data);
            && AttemptSpec(cfg, site.w, sp, BeginOf(put, req.fate), put, req.fate) == MapServe(cfg, sp, req)
            && (AttemptSucceeds(cfg, site.w, BeginOf(put, req.fate), req.fate) <==> Works(cfg, sp, req.key, req.fate))
  {
    S3PutObjectSucceedsIff(cfg, site.w, site.folders, sp, req.user, req.key, req.data, req.fate);
    if req.key != "" { AddressHeldIffClashes(cfg, site.w, sp, req.key); }
    HeldIffInMap(cfg, site.w, sp, req.key);
    BeginFlies(cfg, site.w, PutOf(site.folders, req.user, req.key, req.data), req.fate);
  }

  lemma BeginFlies(cfg: Config, w: World, put: Put, fate: Fate)
    ensures 0 in Next(cfg, Sys(w, map[]), BeginOf(put, fate)).flights <==> Begins(cfg, put.key) && fate.begins
    ensures Accepts(cfg, Sys(w, map[]), BeginOf(put, fate)) <==> Begins(cfg, put.key)
  {
  }

  lemma MapKeepsPassed(cfg: Config, sp: Spec, req: Request)
    requires KeysPassed(sp) && Passed(req.key)
    ensures KeysPassed(MapServe(cfg, sp, req))
  {
  }

  /** Files stay filed, under the folders there are then. */
  lemma PutStaysFiled(cfg: Config, site: Site, req: Request)
    requires SysInv(Sys(site.w, map[])) && F.Sound(site.folders) && FiledByKey(site.folders.t, site.w.db)
    requires req.PutObject?
    ensures var after := Serve(cfg, site, req); F.Sound(after.folders) && FiledByKey(after.folders.t, after.w.db)
  {
    var put := PutOf(site.folders, req.user, req.key, req.data);
    ChainStaysFiled(site.folders, site.w.db, req.key);
    BeginFlies(cfg, site.w, put, req.fate);
    if Begins(cfg, req.key) && req.fate.begins {
      AttemptStaysFiled(cfg, site.w, F.ChainState(site.folders, F.Directories(req.key)).0.t, BeginOf(put, req.fate),
                        req.fate);
    } else {
      assert Serve(cfg, site, req).w.db == site.w.db;
    }
  }

  lemma PutIsKept(cfg: Config, site: Site, sp: Spec, req: Request)
    requires ValidConfig(cfg) && Kept(cfg, site, sp) && req.PutObject? && Passed(req.key)
    ensures Kept(cfg, Serve(cfg, site, req), MapServe(cfg, sp, req))
  {
    var put := PutOf(site.folders, req.user, req.key, req.data);
    PutActsOnItsKey(cfg, site.w, sp, BeginOf(put, req.fate), put, req.fate);
    PutOnTheMap(cfg, site, sp, req);
    PutStaysFiled(cfg, site, req);
    AttemptKeepsOnPrimary(cfg, site.w, BeginOf(put, req.fate), req.fate);
    MapKeepsPassed(cfg, sp, req);
    AttemptLands(cfg, site.w, BeginOf(put, req.fate), req.fate, Serve(cfg, site, req).w);
  }

  lemma AttemptLands(cfg: Config, w: World, begin: Step, fate: Fate, w2: World)
    requires Attempt(cfg, w, begin, fate).w == w2 && Attempt(cfg, w, begin, fate).flights == map[]
    ensures Attempt(cfg, w, begin, fate) == Sys(w2, map[])
  {
  }

  lemma DeleteIsKept(cfg: Config, site: Site, sp: Spec, key: string)
    requires ValidConfig(cfg) && Kept(cfg, site, sp)
    ensures Kept(cfg, Serve(cfg, site, DeleteObject(key)), MapServe(cfg, sp, DeleteObject(key)))
  {
    var s := Sys(site.w, map[]);
    StepIsExact(cfg, s, sp, Delete(key));
    StepKeepsOnPrimary(cfg, s, Delete(key));
    StepStaysFiled(cfg, site.folders.t, s, Delete(key));
  }

  lemma NewSiteIsKept(cfg: Config)
    ensures Kept(cfg, NEW_SITE, EMPTY_SPEC)
  {
  }

  /** Every sequence of whole puts and deletes from an empty workspace, with any
      of them failing anywhere, is the sequence of updates of one map from key
      to bytes that MapServe gives, told from the map alone. */
  lemma {:induction false} RequestsAreTheMap(cfg: Config, reqs: seq<Request>)
    requires ValidConfig(cfg) && forall i :: 0 <= i < |reqs| ==> Passed(reqs[i].key)
    ensures Kept(cfg, ServeAll(cfg, reqs), MapServeAll(cfg, reqs))
    decreases |reqs|
  {
    if reqs == [] {
      NewSiteIsKept(cfg);
    } else {
      var init, req := reqs[..|reqs| - 1], reqs[|reqs| - 1];
      RequestsAreTheMap(cfg, init);
      match req
      case PutObject(_, _, _, _) => PutIsKept(cfg, ServeAll(cfg, init), MapServeAll(cfg, init), req);
      case DeleteObject(key) => DeleteIsKept(cfg, ServeAll(cfg, init), MapServeAll(cfg, init), key);
    }
  }

  /** A put after any such sequence reports success exactly when it begins, both
      transactions commit, the upload works and no other key of the map differs
      only in doubled or leading slashes. */
  lemma PutWorksIff(cfg: Config, reqs: seq<Request>, user: string, key: string, data: Bytes, fate: Fate)
    requires ValidConfig(cfg) && Passed(key) && forall i :: 0 <= i < |reqs| ==> Passed(reqs[i].key)
    ensures var site := ServeAll(cfg, reqs);
            AttemptSucceeds(cfg, site.w, BeginOf(PutOf(site.folders, user, key, data), fate), fate)
            <==> Works(cfg, MapServeAll(cfg, reqs), key, fate)
  {
    RequestsAreTheMap(cfg, reqs);
    PutOnTheMap(cfg, ServeAll(cfg, reqs), MapServeAll(cfg, reqs), PutObject(user, key, data, fate));
  }

  /** What a get answers after any such sequence: the map's bytes and no others,
      and no such key exactly for keys the map lacks or that are frail. */
  lemma GetAnswersTheMap(cfg: Config, reqs: seq<Request>, key: string, r: Option<Bytes>)
    requires ValidConfig(cfg) && forall i :: 0 <= i < |reqs| ==> Passed(reqs[i].key)
    ensures var w, sp := ServeAll(cfg, reqs).w, MapServeAll(cfg, reqs);
            && (r.Some? && GetMay(cfg, w, key, r) ==> key in sp.objects && r.value == sp.objects[key])
            && (GetMay(cfg, w, key, None) <==> key !in sp.objects || key in sp.frail)
            && (key in sp.objects && key !in sp.frail ==> GetMay(cfg, w, key, Some(sp.objects[key])))
  {
    RequestsAreTheMap(cfg, reqs);
    ExactGets(cfg, Sys(ServeAll(cfg, reqs).w, map[]), MapServeAll(cfg, reqs), key, r);
  }

  /** One request, as its handler runs it. */
  method Handle(ws: Workspace, fs: F.FolderStore, req: Request, ghost sp: Spec)
    requires ValidConfig(ws.cfg) && Kept(ws.cfg, Site(World(ws.db, ws.disk), fs.View()), sp)
    modifies ws, fs
    ensures Site(World(ws.db, ws.disk), fs.View()) == Serve(ws.cfg, old(Site(World(ws.db, ws.disk), fs.View())), req)
  {
    match req
    case PutObject(user, key, data, fate) => var _ := S3PutObject(ws, fs, user, key, data, fate);
    case DeleteObject(key) => S3DeleteObject(ws, key);
  }

  /** The handlers, run one after the other, compute ServeAll. */
  method HandleAll(ws: Workspace, fs: F.FolderStore, reqs: seq<Request>)
    requires ValidConfig(ws.cfg) && forall i :: 0 <= i < |reqs| ==> Passed(reqs[i].key)
    requires Site(World(ws.db, ws.disk), fs.View()) == NEW_SITE
    modifies ws, fs
    ensures Site(World(ws.db, ws.disk), fs.View()) == ServeAll(ws.cfg, reqs)
    ensures Kept(ws.cfg, Site(World(ws.db, ws.disk), fs.View()), MapServeAll(ws.cfg, reqs))
  {
    for i := 0 to |reqs|
      invariant Site(World(ws.db, ws.disk), fs.View()) == ServeAll(ws.cfg, reqs[..i])
    {
      RequestsAreTheMap(ws.cfg, reqs[..i]);
      assert reqs[..i + 1][..i] == reqs[..i];
      Handle(ws, fs, reqs[i], MapServeAll(ws.cfg, reqs[..i]));
    }
    assert reqs[..|reqs|] == reqs;
    RequestsAreTheMap(ws.cfg, reqs);
  }

  // ------------------------------------------------------------- what a listing shows

  function ReadyPaths(db: DB): set<string> { set f | f in db.files && db.files[f].ready :: db.files[f].storagePath }

  lemma ReadyPathsAreTheMap(cfg: Config, s: Sys, sp: Spec)
    requires Mirrors(cfg, s, sp)
    ensures ReadyPaths(s.w.db) == sp.objects.Keys
  {
    forall k | k in sp.objects ensures k in ReadyPaths(s.w.db) {
      var b :| b in s.w.db.blobs && s.w.db.blobs[b].ready && s.w.db.blobs[b].objectKey == k;
      assert HasFile(s.w.db, b);
    }
  }

  /** After every serial run the files a listing selects from are the map's keys. */
  lemma SerialPathsAreTheMap(cfg: Config, steps: seq<Step>)
    requires ValidConfig(cfg) && SerialRun(cfg, EMPTY_SYS, steps)
    ensures ReadyPaths(Run(cfg, EMPTY_SYS, steps).w.db) == SpecRun(cfg, steps).objects.Keys
  {
    SerialRunsRefineTheMap(cfg, steps);
    ReadyPathsAreTheMap(cfg, Run(cfg, EMPTY_SYS, steps), SpecRun(cfg, steps));
  }

  /** enc stands for the bytes of a string: different ones for different strings. */
  ghost predicate Encodes(enc: string -> Bytes) {
    (forall a, b :: enc(a) == enc(b) ==> a == b) && enc("") == []
  }

  /** `keys` are the paths of the ready files, in the order of their bytes. */
  ghost predicate Selects(enc: string -> Bytes, db: DB, keys: seq<Bytes>) {
    Ascending(keys) && forall k :: k in keys <==> exists path :: path in ReadyPaths(db) && enc(path) == k
  }

  lemma {:induction false} UndelimitedContents(prefix: Bytes, fs: seq<Bytes>)
    ensures L.Contents(prefix, [], fs) == fs
  {
    if fs != [] {
      UndelimitedContents(prefix, fs[..|fs| - 1]);
      assert fs == fs[..|fs| - 1] + [fs[|fs| - 1]];
    }
  }

  /** A client that lists without a delimiter after any such sequence of requests
      and follows every token sees, each once and in order, exactly the map's
      keys under the trimmed prefix. */
  lemma ListingShowsTheMap(cfg: Config, reqs: seq<Request>, enc: string -> Bytes, keys: seq<Bytes>, prefix: Bytes,
                           maxKeys: Option<int>)
    requires ValidConfig(cfg) && forall i :: 0 <= i < |reqs| ==> Passed(reqs[i].key)
    requires Encodes(enc) && Selects(enc, ServeAll(cfg, reqs).w.db, keys)
    ensures [] !in keys
    ensures var shown := L.AllContents(L.Follow(keys, L.Query(prefix, [], maxKeys), [], []));
            && Ascending(shown)
            && forall key :: enc(key) in shown <==>
                 key in MapServeAll(cfg, reqs).objects && StartsWith(enc(key), TrimOuter(prefix, SLASH))
  {
    ServedPaths(cfg, reqs);
    SelectedAre(enc, ServeAll(cfg, reqs).w.db, MapServeAll(cfg, reqs), keys);
    UndelimitedListing(keys, prefix, maxKeys);
  }

  lemma ServedPaths(cfg: Config, reqs: seq<Request>)
    requires ValidConfig(cfg) && forall i :: 0 <= i < |reqs| ==> Passed(reqs[i].key)
    ensures ReadyPaths(ServeAll(cfg, reqs).w.db) == MapServeAll(cfg, reqs).objects.Keys
    ensures KeysPassed(MapServeAll(cfg, reqs))
  {
    RequestsAreTheMap(cfg, reqs);
    ReadyPathsAreTheMap(cfg, Sys(ServeAll(cfg, reqs).w, map[]), MapServeAll(cfg, reqs));
  }

  lemma SelectedAre(enc: string -> Bytes, db: DB, sp: Spec, keys: seq<Bytes>)
    requires ReadyPaths(db) == sp.objects.Keys && KeysPassed(sp) && Encodes(enc) && Selects(enc, db, keys)
    ensures [] !in keys && forall key :: enc(key) in keys <==> key in sp.objects
  {
    NoKeyIsEmpty(sp, enc, keys);
    forall key ensures enc(key) in keys <==> key in sp.objects { EncodedIff(sp, enc, keys, key); }
  }

  lemma UndelimitedListing(keys: seq<Bytes>, prefix: Bytes, maxKeys: Option<int>)
    requires Ascending(keys) && [] !in keys
    ensures var shown := L.AllContents(L.Follow(keys, L.Query(prefix, [], maxKeys), [], []));
            Ascending(shown) && forall k :: k in shown <==> k in keys && StartsWith(k, TrimOuter(prefix, SLASH))
  {
    var q, p := L.Query(prefix, [], maxKeys), TrimOuter(prefix, SLASH);
    L.PagesTileTheKeys(keys, q, [], []);
    UndelimitedContents(p, L.Matching(keys, p, []));
    L.MatchingAscends(keys, p, []);
    L.MatchingAreKeys(keys, p, []);
  }

  lemma NoKeyIsEmpty(sp: Spec, enc: string -> Bytes, keys: seq<Bytes>)
    requires KeysPassed(sp) && Encodes(enc)
    requires forall k :: k in keys <==> exists path :: path in sp.objects.Keys && enc(path) == k
    ensures [] !in keys
  {
  }

  lemma EncodedIff(sp: Spec, enc: string -> Bytes, keys: seq<Bytes>, key: string)
    requires Encodes(enc) && forall k :: k in keys <==> exists path :: path in sp.objects.Keys && enc(path) == k
    ensures enc(key) in keys <==> key in sp.objects
  {
  }
}
