/** What a multipart completion that fails leaves behind: it writes the object
    and removes the parts before it looks for the file to mark ready
    (server/internal/handler/s3multipart.go). */
module FailedCompletion {
  import opened Tables
  import opened Replication
  import opened Records
  import opened Refinement
  import opened Loss
  import opened Multipart
  import opened PartNumbers
  import opened MultipartMap

  // ------------------------------------------------------------- the gateway's map

  /** Among the objects in use, only the one at (p, key) may differ, and it is `now`. */
  ghost predicate Leaves(s: Sys, sp: Spec, p: StoreId, key: string, now: Option<Bytes>, disk: Disk) {
    && Lookup(disk, p, key) == now
    && forall st: StoreId, k: string :: InUse(s, sp, k) && (st != p || k != key) ==>
         Lookup(disk, st, k) == Lookup(s.w.disk, st, k)
  }

  /** What is left at the key on the primary is what the map and the puts in
      flight have there, if they have anything there. */
  ghost predicate Harmless(cfg: Config, s: Sys, sp: Spec, p: StoreId, key: string, now: Option<Bytes>) {
    && (PrimaryHolds(cfg, s.w.db, key) && key in sp.objects ==>
          if now.Some? then now.value == sp.objects[key] else key in sp.frail)
    && (forall t :: t in s.flights && s.flights[t].stored && s.flights[t].store == p && s.flights[t].key == key ==>
          now == Some(s.flights[t].data))
  }

  lemma HarmlessKeepsCopies(cfg: Config, s: Sys, sp: Spec, p: StoreId, key: string, now: Option<Bytes>, disk: Disk)
    requires NoOrphans(cfg, s.w.db) && CopiesHold(s.w, sp) && Primary(cfg) == Some(p)
    requires Leaves(s, sp, p, key, now, disk) && Harmless(cfg, s, sp, p, key, now)
    ensures CopiesHold(World(s.w.db, disk), sp)
  {
    forall l | l in s.w.db.locs && l.0 in s.w.db.blobs
      ensures s.w.db.blobs[l.0].objectKey in sp.objects && CopyHolds(disk, l.1, s.w.db.blobs[l.0].objectKey, sp)
    {
      var k := s.w.db.blobs[l.0].objectKey;
      assert k in sp.objects && CopyHolds(s.w.disk, l.1, k, sp);
      assert InUse(s, sp, k);
      if l.1 == p && k == key {
        assert (l.0, p) == l && PrimaryHolds(cfg, s.w.db, key);
      } else {
        assert Lookup(disk, l.1, k) == Lookup(s.w.disk, l.1, k);
      }
    }
  }

  lemma HarmlessKeepsFlights(cfg: Config, s: Sys, sp: Spec, p: StoreId, key: string, now: Option<Bytes>, disk: Disk)
    requires FlightsLive(cfg, s) && Leaves(s, sp, p, key, now, disk) && Harmless(cfg, s, sp, p, key, now)
    ensures FlightsLive(cfg, s.(w := World(s.w.db, disk)))
  {
    forall t | t in s.flights && s.flights[t].stored
      ensures Lookup(disk, s.flights[t].store, s.flights[t].key) == Some(s.flights[t].data)
    {
      assert InUse(s, sp, s.flights[t].key);
    }
  }

  lemma MirroringIsHarmless(cfg: Config, s: Sys, sp: Spec, p: StoreId, key: string, now: Option<Bytes>, disk: Disk)
    requires Primary(cfg) == Some(p) && Lookup(disk, p, key) == now
    requires CopiesHold(World(s.w.db, disk), sp) && FlightsLive(cfg, s.(w := World(s.w.db, disk)))
    ensures Harmless(cfg, s, sp, p, key, now)
  {
    if PrimaryHolds(cfg, s.w.db, key) && key in sp.objects {
      var b :| b in s.w.db.blobs && s.w.db.blobs[b].ready && s.w.db.blobs[b].objectKey == key && (b, p) in s.w.db.locs;
      assert CopyHolds(disk, (b, p).1, s.w.db.blobs[(b, p).0].objectKey, sp);
    }
  }

  /** Leaving an object at a key, and no row changed, keeps the gateway's map
      exactly when it is harmless. */
  lemma LeavingKeepsMapIff(cfg: Config, s: Sys, sp: Spec, p: StoreId, key: string, now: Option<Bytes>, disk: Disk)
    requires Mirrors(cfg, s, sp) && Primary(cfg) == Some(p) && Leaves(s, sp, p, key, now, disk)
    ensures Mirrors(cfg, s.(w := World(s.w.db, disk)), sp) <==> Harmless(cfg, s, sp, p, key, now)
  {
    if Harmless(cfg, s, sp, p, key, now) {
      HarmlessKeepsCopies(cfg, s, sp, p, key, now, disk);
      HarmlessKeepsFlights(cfg, s, sp, p, key, now, disk);
    }
    if Mirrors(cfg, s.(w := World(s.w.db, disk)), sp) {
      MirroringIsHarmless(cfg, s, sp, p, key, now, disk);
    }
  }

  /** What a failed completion leaves at the key on the primary. */
  function LeftAt(disk: Disk, p: StoreId, paths: seq<string>, fails: bool, left: Option<Bytes>): Option<Bytes> {
    if fails then left else Assemble(disk, p, paths)
  }

  lemma ReachedLeaves(cfg: Config, s: Sys, sp: Spec, p: StoreId, paths: seq<string>, key: string, fails: bool,
                      left: Option<Bytes>, stuck: set<string>)
    requires NotKeys(s, sp, paths) && key !in paths && Uploads(s.w.disk, Some(p), paths)
    ensures Leaves(s, sp, p, key, LeftAt(s.w.disk, p, paths, fails, left),
                   ReachedDisk(s.w.disk, Some(p), paths, key, fails, left, stuck))
  {
    if !fails {
      var all := Assemble(s.w.disk, p, paths).value;
      var disk := CompletedDisk(s.w.disk, p, key, all, paths, stuck);
      CompletedLookup(s.w.disk, p, key, all, paths, stuck, p, key);
      forall st: StoreId, k: string | InUse(s, sp, k) && (st != p || k != key)
        ensures Lookup(disk, st, k) == Lookup(s.w.disk, st, k)
      {
        CompletedLookup(s.w.disk, p, key, all, paths, stuck, st, k);
      }
    }
  }

  /** A completion that fails keeps the gateway's map exactly when it did not
      reach its final upload, or what that left at the key on the primary is
      harmless. */
  lemma FailedCompletionKeepsMapIff(cfg: Config, s: Sys, sp: Spec, paths: seq<string>, key: string, fails: bool,
                                    left: Option<Bytes>, stuck: set<string>)
    requires Mirrors(cfg, s, sp) && NotKeys(s, sp, paths) && key !in paths
    ensures var disk := ReachedDisk(s.w.disk, Primary(cfg), paths, key, fails, left, stuck);
            Mirrors(cfg, s.(w := World(s.w.db, disk)), sp) <==>
              (Uploads(s.w.disk, Primary(cfg), paths) ==>
                 Harmless(cfg, s, sp, Primary(cfg).value, key,
                          LeftAt(s.w.disk, Primary(cfg).value, paths, fails, left)))
  {
    if Uploads(s.w.disk, Primary(cfg), paths) {
      var p := Primary(cfg).value;
      ReachedLeaves(cfg, s, sp, p, paths, key, fails, left, stuck);
      LeavingKeepsMapIff(cfg, s, sp, p, key, LeftAt(s.w.disk, p, paths, fails, left),
                         ReachedDisk(s.w.disk, Primary(cfg), paths, key, fails, left, stuck));
    } else {
      assert s.(w := World(s.w.db, s.w.disk)) == s;
    }
  }

  /** Where the primary holds the key's ready blob, a get can then answer with
      what the failed completion left. */
  lemma FailedCompletionShows(cfg: Config, s: Sys, sp: Spec, paths: seq<string>, key: string, fails: bool,
                              left: Option<Bytes>, stuck: set<string>)
    requires Mirrors(cfg, s, sp) && NotKeys(s, sp, paths) && key !in paths
    requires Uploads(s.w.disk, Primary(cfg), paths) && PrimaryHolds(cfg, s.w.db, key)
    ensures GetMay(cfg, World(s.w.db, ReachedDisk(s.w.disk, Primary(cfg), paths, key, fails, left, stuck)), key,
                   LeftAt(s.w.disk, Primary(cfg).value, paths, fails, left))
  {
    var p := Primary(cfg).value;
    ReachedLeaves(cfg, s, sp, p, paths, key, fails, left, stuck);
    var b :| b in s.w.db.blobs && s.w.db.blobs[b].ready && s.w.db.blobs[b].objectKey == key && (b, p) in s.w.db.locs;
    GetMayHere(cfg, World(s.w.db, ReachedDisk(s.w.disk, Primary(cfg), paths, key, fails, left, stuck)), key, b, p);
  }

  /** So once another user's put has taken the key, the uploader's completion
      can only fail, and replaces that put's object by the parts' bytes. */
  lemma CompletionReplacesOthersObject(cfg: Config, s: Sys, sp: Spec, b: Id, paths: seq<string>, key: string,
                                       user: string, stuck: set<string>)
    requires Mirrors(cfg, s, sp) && NotKeys(s, sp, paths) && key !in paths && Uploads(s.w.disk, Primary(cfg), paths)
    requires b in s.w.db.blobs && s.w.db.blobs[b].ready && s.w.db.blobs[b].objectKey == key
    requires s.w.db.blobs[b].createdBy != user && (b, Primary(cfg).value) in s.w.db.locs
    ensures !HasReservation(s.w.db, key, user) && !Markable(s.w.db, key, user, Primary(cfg).value)
    ensures GetMay(cfg, World(s.w.db, ReachedDisk(s.w.disk, Primary(cfg), paths, key, false, None, stuck)), key,
                   Assemble(s.w.disk, Primary(cfg).value, paths))
  {
    FailedCompletionShows(cfg, s, sp, paths, key, false, None, stuck);
  }

  // --------------------------------------------------------------- completing it again

  lemma {:induction false} AssembleIff(disk: Disk, p: StoreId, paths: seq<string>)
    ensures Assemble(disk, p, paths).Some? <==> forall x :: x in paths ==> Lookup(disk, p, x).Some?
  {
    if paths != [] {
      var init, last := paths[..|paths| - 1], paths[|paths| - 1];
      assert paths == init + [last];
      AssembleIff(disk, p, init);
    }
  }

  /** After a completion that fails once its parts are removed, they can be
      assembled again exactly when none of the removals worked. */
  lemma AssemblesAgainIff(disk: Disk, p: StoreId, paths: seq<string>, key: string, stuck: set<string>)
    requires key !in paths && Uploads(disk, Some(p), paths)
    ensures var after := ReachedDisk(disk, Some(p), paths, key, false, None, stuck);
            Uploads(after, Some(p), paths) <==> forall x :: x in paths ==> x in stuck
  {
    var all := Assemble(disk, p, paths).value;
    var after := CompletedDisk(disk, p, key, all, paths, stuck);
    AssembleIff(disk, p, paths);
    AssembleIff(after, p, paths);
    forall x | x in paths ensures Lookup(after, p, x).Some? <==> x in stuck {
      RemoveAllRemoves(Write(disk, p, key, Some(all)), p, paths, stuck, p, x);
    }
  }

  /** No part upload, successful or not, is for part n of u. */
  ghost predicate SparesPart(e: Event, u: string, n: nat) {
    match e
    case Sent(v, spelling, _) => !(v == u && PartNumber(spelling) == Some(n))
    case Lost(v, spelling, _) => !(v == u && PartNumber(spelling) == Some(n))
    case Elsewhere(_, _, _) => true
  }

  /** The row of part n is there and its object is not. */
  ghost predicate PartGone(p: StoreId, d: Desk, u: string, n: nat) {
    && (u, n) in d.parts && Lookup(d.disk, p, d.parts[(u, n)]) == None
    && exists s :: PartNumber(s) == Some(n) && d.parts[(u, n)] == TempPath(u, s)
  }

  lemma PartStaysGone(p: StoreId, d: Desk, e: Event, u: string, n: nat)
    requires '/' !in u && Proper(p, u, e) && SparesPart(e, u, n) && PartGone(p, d, u, n)
    ensures PartGone(p, After(p, d, e), u, n)
  {
    var s :| PartNumber(s) == Some(n) && d.parts[(u, n)] == TempPath(u, s);
    if e.Elsewhere? {
      assert IsTemp(u, TempPath(u, s));
    } else if TempPath(e.u, e.spelling) == TempPath(u, s) {
      TempPathInjective(e.u, e.spelling, u, s);
    }
  }

  lemma {:induction false} PartsStayGone(p: StoreId, d: Desk, es: seq<Event>, u: string, n: nat)
    requires '/' !in u && AllProper(p, u, es) && PartGone(p, d, u, n)
    requires forall i :: 0 <= i < |es| ==> SparesPart(es[i], u, n)
    ensures PartGone(p, AfterAll(p, d, es), u, n)
    decreases |es|
  {
    if es != [] {
      var init, e := es[..|es| - 1], es[|es| - 1];
      PartsStayGone(p, d, init, u, n);
      assert Proper(p, u, e) && SparesPart(e, u, n);
      PartStaysGone(p, AfterAll(p, d, init), e, u, n);
    }
  }

  lemma RemovedIsGone(p: StoreId, d: Desk, u: string, n: nat, nums: seq<nat>, key: string, stuck: set<string>)
    requires PartsFit(d.parts) && InOrder(d.parts, u, nums) && n in nums && d.parts[(u, n)] !in stuck
    requires Uploads(d.disk, Some(p), PathsOf(d.parts, u, nums)) && key !in PathsOf(d.parts, u, nums)
    ensures PartGone(p, d.(disk := ReachedDisk(d.disk, Some(p), PathsOf(d.parts, u, nums), key, false, None, stuck)), u,
                     n)
  {
    var paths := PathsOf(d.parts, u, nums);
    var all := Assemble(d.disk, p, paths).value;
    var i :| 0 <= i < |nums| && nums[i] == n;
    assert paths[i] == d.parts[(u, n)];
    RemoveAllRemoves(Write(d.disk, p, key, Some(all)), p, paths, stuck, p, d.parts[(u, n)]);
    assert exists s :: PartNumber(s) == Some((u, n).1) && d.parts[(u, n)] == TempPath((u, n).0, s);
  }

  /** Each part so removed must be uploaded again: until some upload of it
      is tried, whatever else happens, the upload cannot be completed. */
  lemma RemovedPartsMustBeResent(p: StoreId, d: Desk, u: string, n: nat, nums: seq<nat>, key: string,
                                 stuck: set<string>, es: seq<Event>, nums2: seq<nat>)
    requires '/' !in u && PartsFit(d.parts) && InOrder(d.parts, u, nums) && n in nums && d.parts[(u, n)] !in stuck
    requires Uploads(d.disk, Some(p), PathsOf(d.parts, u, nums)) && key !in PathsOf(d.parts, u, nums)
    requires AllProper(p, u, es) && forall i :: 0 <= i < |es| ==> SparesPart(es[i], u, n)
    requires var d1 := d.(disk := ReachedDisk(d.disk, Some(p), PathsOf(d.parts, u, nums), key, false, None, stuck));
             InOrder(AfterAll(p, d1, es).parts, u, nums2)
    ensures var d1 := d.(disk := ReachedDisk(d.disk, Some(p), PathsOf(d.parts, u, nums), key, false, None, stuck));
            var e := AfterAll(p, d1, es);
            !Uploads(e.disk, Some(p), PathsOf(e.parts, u, nums2))
  {
    var d1 := d.(disk := ReachedDisk(d.disk, Some(p), PathsOf(d.parts, u, nums), key, false, None, stuck));
    var e := AfterAll(p, d1, es);
    RemovedIsGone(p, d, u, n, nums, key, stuck);
    PartsStayGone(p, d1, es, u, n);
    var paths := PathsOf(e.parts, u, nums2);
    AssembleIff(e.disk, p, paths);
    assert n in nums2;
    var i :| 0 <= i < |nums2| && nums2[i] == n;
    assert paths[i] == e.parts[(u, n)] && paths[i] in paths;
  }
}
