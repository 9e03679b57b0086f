/** The folder and file name an object key stands for
    (server/internal/handler/s3gateway.go), and which keys share them. */
module KeyPlacement {
  import opened Strings
  import opened Tables
  import opened Replication
  import opened Records
  import opened Refinement
  import F = Folders

  // ------------------------------------------------------------- names from keys

  /** The name s3PutObject gives the file of a key. */
  function FileName(key: string): string { Base(TrimSuffix(key)) }

  /** The folders and then the name a key is filed under. */
  function Address(key: string): seq<string> { F.Directories(key) + [FileName(key)] }

  /** The key's non-empty segments. */
  function Parts(key: string): seq<string> { F.NonEmpty(F.SplitSlash(key)) }

  /** The segments of a longer string. */
  function Push(segs: seq<string>, c: char): seq<string>
    requires segs != []
  {
    if c == '/' then segs + [""] else segs[..|segs| - 1] + [segs[|segs| - 1] + [c]]
  }

  lemma PushBehind(first: string, segs: seq<string>, c: char)
    requires segs != []
    ensures Push([first] + segs, c) == [first] + Push(segs, c)
  {
    assert ([first] + segs)[..|segs|] == [first] + segs[..|segs| - 1];
  }

  lemma PushGlued(a: char, segs: seq<string>, c: char)
    requires segs != []
    ensures var more := Push(segs, c); Push([[a] + segs[0]] + segs[1..], c) == [[a] + more[0]] + more[1..]
  {
    if |segs| > 1 {
      assert segs == [segs[0]] + segs[1..];
      PushBehind(segs[0], segs[1..], c);
      PushBehind([a] + segs[0], segs[1..], c);
    } else if c != '/' {
      assert [[a] + segs[0]][..0] == [] && segs[..0] == [];
      assert [a] + (segs[0] + [c]) == ([a] + segs[0]) + [c];
    }
  }

  lemma {:induction false} SplitSnoc(s: string, c: char)
    ensures F.SplitSlash(s + [c]) == Push(F.SplitSlash(s), c)
  {
    if s == "" {
      assert s + [c] == [c] && [c][1..] == "" && F.SplitSlash("") == [""];
      assert [c] + "" == [c] == "" + [c];
      assert [""][..0] == [] && [""][1..] == [];
    } else {
      SplitSnoc(s[1..], c);
      assert (s + [c])[1..] == s[1..] + [c];
      PushBehind("", F.SplitSlash(s[1..]), c);
      PushGlued(s[0], F.SplitSlash(s[1..]), c);
    }
  }

  lemma {:induction false} LastSegment(s: string)
    ensures var segs := F.SplitSlash(s); segs[|segs| - 1] == AfterLastSlash(s)
    decreases |s|
  {
    if s != "" {
      LastSegment(s[..|s| - 1]);
      SplitSnoc(s[..|s| - 1], s[|s| - 1]);
      assert s == s[..|s| - 1] + [s[|s| - 1]];
    }
  }

  lemma {:induction false} AfterLastSlashIsEmptyIff(s: string)
    ensures AfterLastSlash(s) == "" <==> s == "" || EndsInSlash(s)
  {
  }

  /** A trailing slash adds no part. */
  lemma PartsOfTrimmed(s: string)
    requires EndsInSlash(s)
    ensures Parts(s) == Parts(s[..|s| - 1]) == F.Directories(s)
  {
    var t := s[..|s| - 1];
    SplitSnoc(t, '/');
    assert s == t + "/";
    assert (F.SplitSlash(t) + [""])[..|F.SplitSlash(t)|] == F.SplitSlash(t);
  }

  /** The last part of a key that does not end in a slash is its name. */
  lemma PartsOfPlain(s: string)
    requires s != "" && !EndsInSlash(s)
    ensures Parts(s) == F.Directories(s) + [AfterLastSlash(s)]
  {
    LastSegment(s);
    AfterLastSlashIsEmptyIff(s);
  }

  lemma {:induction false} PartsOfStripped(s: string)
    ensures Parts(StripTrailing(s)) == Parts(s) && !EndsInSlash(StripTrailing(s))
    ensures Parts(s) == [] <==> StripTrailing(s) == ""
    decreases |s|
  {
    if EndsInSlash(s) {
      PartsOfTrimmed(s);
      PartsOfStripped(s[..|s| - 1]);
    } else if s != "" {
      PartsOfPlain(s);
    } else {
      assert F.SplitSlash("") == [""] && [""][..0] == [];
    }
  }

  lemma BaseIsLastPart(s: string)
    ensures Base(s) == if Parts(s) != [] then Parts(s)[|Parts(s)| - 1] else if s == "" then "." else "/"
  {
    PartsOfStripped(s);
    if Parts(s) != [] { PartsOfPlain(StripTrailing(s)); }
  }

  /** A key that does not end in a slash is filed under its non-empty segments. */
  lemma AddressIs(key: string)
    requires key != "" && !EndsInSlash(key)
    ensures Parts(key) != [] && Address(key) == Parts(key)
  {
    PartsOfPlain(key);
    BaseIsLastPart(key);
  }

  lemma {:induction false} SplitSegment(s: string, b: string)
    requires '/' !in b
    ensures F.SplitSlash(s + "/" + b) == F.SplitSlash(s) + [b]
    decreases |b|
  {
    var segs := F.SplitSlash(s);
    if b == "" {
      assert s + "/" + b == s + ['/'];
      SplitSnoc(s, '/');
    } else {
      var init, c := b[..|b| - 1], b[|b| - 1];
      SplitSegment(s, init);
      SplitSnoc(s + "/" + init, c);
      assert b == init + [c] && s + "/" + b == s + "/" + init + [c];
      PushOnLast(segs, init, c);
    }
  }

  lemma PushOnLast(segs: seq<string>, last: string, c: char)
    requires c != '/'
    ensures Push(segs + [last], c) == segs + [last + [c]]
  {
    assert (segs + [last])[..|segs|] == segs;
  }

  lemma PartsOfSegment(s: string, b: string)
    requires '/' !in b && b != ""
    ensures Parts(s + "/" + b) == Parts(s) + [b]
  {
    SplitSegment(s, b);
    assert (F.SplitSlash(s) + [b])[..|F.SplitSlash(s)|] == F.SplitSlash(s);
  }

  // ------------------------------------------------------- keys the gateway passes on

  /** The first slash, or the length. */
  function FirstSlash(s: string): (i: nat)
    ensures i <= |s| && '/' !in s[..i] && (i < |s| ==> s[i] == '/')
  {
    if s == "" || s[0] == '/' then 0
    else
      var i := 1 + FirstSlash(s[1..]);
      assert s[..i] == [s[0]] + s[1..][..i - 1];
      i
  }

  /** The workspace slug and the object key S3Gateway takes from a path. */
  function Dispatched(path: string): (string, string) {
    var p := TrimOuter(path, '/');
    var n := FirstSlash(p);
    (p[..n], if n < |p| then p[n + 1..] else "")
  }

  lemma {:induction false} TrimEndsInSlash(s: string)
    ensures TrimOuter(s + "/", '/') == TrimOuter(s, '/')
    decreases |s|
  {
    if s == "" {
      assert "" + "/" == "/" && "/"[1..] == "";
    } else if s[0] == '/' {
      TrimEndsInSlash(s[1..]);
      assert (s + "/")[1..] == s[1..] + "/";
    } else {
      assert (s + "/")[..|s|] == s;
    }
  }

  /** Outer slashes of a path change nothing: a request for s/b/ is one for s/b. */
  lemma DispatchTrims(path: string)
    ensures Dispatched("/" + path) == Dispatched(path) == Dispatched(path + "/")
  {
    assert ("/" + path)[1..] == path;
    TrimEndsInSlash(path);
  }

  /** The keys passed on are exactly those that do not end in a slash. */
  lemma PassedOnIff(key: string)
    ensures (exists path :: Dispatched(path).1 == key) <==> !EndsInSlash(key)
  {
    if path :| Dispatched(path).1 == key {
      var p := TrimOuter(path, '/');
      TrimmedEnds(path, '/');
      if key != "" { assert key[|key| - 1] == p[|p| - 1]; }
    }
    if !EndsInSlash(key) {
      var path := if key == "" then "w" else "w/" + key;
      TrimIsIdentityIff(path, '/');
      WorkspaceFirst(path, key);
    }
  }

  /** A path is the workspace's slug, a slash, and the key, inner slashes and all. */
  lemma DispatchedIs(slug: string, key: string)
    requires slug != "" && '/' !in slug && !EndsInSlash(key)
    ensures Dispatched(slug + "/" + key) == (slug, key) && Dispatched(slug) == (slug, "")
  {
    var path := slug + "/" + key;
    TrimIsIdentityIff(slug, '/');
    FirstSlashNone(slug);
    assert slug[..|slug|] == slug;
    if key == "" {
      assert path == slug + "/";
      TrimEndsInSlash(slug);
    } else {
      assert path[|path| - 1] == key[|key| - 1];
      TrimIsIdentityIff(path, '/');
      assert path[..|slug|] == slug && path[|slug| + 1..] == key;
      FirstSlashIs(path, |slug|);
    }
  }

  lemma FirstSlashNone(s: string)
    requires '/' !in s
    ensures FirstSlash(s) == |s|
  {
  }

  lemma WorkspaceFirst(path: string, key: string)
    requires path == if key == "" then "w" else "w/" + key
    requires TrimOuter(path, '/') == path
    ensures Dispatched(path).1 == key
  {
    if key == "" {
      assert path[1..] == "" && FirstSlash("") == 0;
    } else {
      assert path[0] == 'w' && path[1] == '/' && path[..1] == "w" && path[2..] == key;
      FirstSlashIs(path, 1);
    }
  }

  lemma FirstSlashIs(s: string, i: nat)
    requires i < |s| && s[i] == '/' && '/' !in s[..i]
    ensures FirstSlash(s) == i
  {
    var n := FirstSlash(s);
    forall j | 0 <= j < i ensures s[j] != '/' { assert s[..i][j] == s[j]; }
    forall j | 0 <= j < n ensures s[j] != '/' { assert s[..n][j] == s[j]; }
  }

  // ---------------------------------------------------------- keys with one address

  /** The key without its leading slashes and with one for every run of them. */
  function Squeeze(key: string): string
    decreases |key|
  {
    if key == "" then ""
    else
      var t, c := Squeeze(key[..|key| - 1]), key[|key| - 1];
      if c == '/' && (t == "" || EndsInSlash(t)) then t else t + [c]
  }

  predicate Plain(name: string) { name != "" && '/' !in name }

  predicate AllPlain(names: seq<string>) { forall i :: 0 <= i < |names| ==> Plain(names[i]) }

  lemma {:induction false} JoinSnoc(names: seq<string>, name: string)
    requires names != []
    ensures F.JoinSlash(names + [name]) == F.JoinSlash(names) + "/" + name
  {
    if |names| == 1 {
      assert (names + [name])[1..] == [name];
    } else {
      JoinSnoc(names[1..], name);
      assert (names + [name])[1..] == names[1..] + [name];
    }
  }

  lemma {:induction false} SplitPlain(b: string)
    requires '/' !in b
    ensures F.SplitSlash(b) == [b]
  {
    if b != "" {
      SplitPlain(b[1..]);
      assert b == [b[0]] + b[1..] && b[0] in b;
    }
  }

  lemma {:induction false} SplitJoin(names: seq<string>)
    requires names != [] && AllPlain(names)
    ensures F.SplitSlash(F.JoinSlash(names)) == names && F.JoinSlash(names) != ""
    decreases |names|
  {
    var init, last := names[..|names| - 1], names[|names| - 1];
    if init == [] {
      assert names == [last];
      SplitPlain(last);
    } else {
      SplitJoin(init);
      assert names == init + [last];
      JoinSnoc(init, last);
      SplitSegment(F.JoinSlash(init), last);
    }
  }

  lemma {:induction false} PartsArePlain(s: string)
    ensures AllPlain(Parts(s))
    decreases |s|
  {
    if s == "" {
      NoParts();
    } else if EndsInSlash(s) {
      PartsOfTrimmed(s);
      PartsArePlain(s[..|s| - 1]);
    } else {
      PartsOfLonger(s[..|s| - 1], s[|s| - 1]);
      PartsArePlain(s[..|s| - 1]);
      assert s == s[..|s| - 1] + [s[|s| - 1]];
    }
  }

  /** One more character begins a part or goes on with the last one. */
  lemma PartsOfLonger(t: string, c: char)
    requires c != '/'
    ensures var ps := Parts(t);
            if t == "" || EndsInSlash(t) then Parts(t + [c]) == ps + [[c]]
            else ps != [] && Parts(t + [c]) == ps[..|ps| - 1] + [ps[|ps| - 1] + [c]]
  {
    var segs := F.SplitSlash(t);
    var init, last := segs[..|segs| - 1], segs[|segs| - 1];
    SplitSnoc(t, c);
    LastSegment(t);
    AfterLastSlashIsEmptyIff(t);
    assert segs == init + [last];
    assert (init + [last + [c]])[..|init|] == init;
    assert F.NonEmpty(init + [last + [c]]) == F.NonEmpty(init) + [last + [c]];
    if last == "" { assert "" + [c] == [c]; }
  }

  lemma {:induction false} JoinGrows(init: seq<string>, last: string, c: char)
    ensures F.JoinSlash(init + [last + [c]]) == F.JoinSlash(init + [last]) + [c]
  {
    if init == [] {
      assert [] + [last] == [last] && [] + [last + [c]] == [last + [c]];
    } else {
      JoinSnoc(init, last);
      JoinSnoc(init, last + [c]);
      assert F.JoinSlash(init) + "/" + (last + [c]) == F.JoinSlash(init) + "/" + last + [c];
    }
  }

  lemma JoinEndsPlain(names: seq<string>)
    requires names != [] && AllPlain(names)
    ensures F.JoinSlash(names) != "" && !EndsInSlash(F.JoinSlash(names))
  {
    var s := F.JoinSlash(names);
    SplitJoin(names);
    LastSegment(s);
    AfterLastSlashIsEmptyIff(s);
  }

  /** Squeezing a key leaves its parts, joined by single slashes. */
  lemma {:induction false} SqueezeJoinsParts(s: string)
    ensures Squeeze(s) == F.JoinSlash(Parts(s)) + if EndsInSlash(s) && Parts(s) != [] then "/" else ""
    decreases |s|
  {
    if s == "" {
      NoParts();
    } else {
      var t, c := s[..|s| - 1], s[|s| - 1];
      assert s == t + [c];
      SqueezeJoinsParts(t);
      PartsArePlain(t);
      if Parts(t) != [] { JoinEndsPlain(Parts(t)); }
      if c == '/' {
        PartsOfTrimmed(s);
      } else {
        SqueezeOneMore(t, c);
      }
    }
  }

  lemma JoinBegins(names: seq<string>, c: char)
    ensures F.JoinSlash(names + [[c]]) == F.JoinSlash(names) + (if names == [] then "" else "/") + [c]
  {
    if names == [] { assert names + [[c]] == [[c]]; } else { JoinSnoc(names, [c]); }
  }

  lemma NoParts()
    ensures Parts("") == []
  {
    assert F.SplitSlash("") == [""] && [""][..0] == [];
  }

  lemma SqueezeSnoc(t: string, c: char)
    requires c != '/'
    ensures Squeeze(t + [c]) == Squeeze(t) + [c] && !EndsInSlash(t + [c])
  {
    assert (t + [c])[..|t|] == t;
  }

  /** The joined parts of a string, and of one that is a character longer. */
  lemma JoinedLonger(t: string, c: char)
    requires c != '/'
    ensures var j, k := F.JoinSlash(Parts(t)), F.JoinSlash(Parts(t + [c]));
            k == (if EndsInSlash(t) && Parts(t) != [] then j + "/" else j) + [c]
  {
    var ps := Parts(t);
    PartsOfLonger(t, c);
    if t == "" || EndsInSlash(t) {
      JoinBegins(ps, c);
      if t == "" { NoParts(); }
      if ps == [] { assert F.JoinSlash(ps) + "" == F.JoinSlash(ps); }
    } else {
      JoinGrows(ps[..|ps| - 1], ps[|ps| - 1], c);
      assert ps == ps[..|ps| - 1] + [ps[|ps| - 1]];
    }
  }

  lemma SqueezeOneMore(t: string, c: char)
    requires c != '/' && Squeeze(t) == F.JoinSlash(Parts(t)) + if EndsInSlash(t) && Parts(t) != [] then "/" else ""
    ensures Squeeze(t + [c]) == F.JoinSlash(Parts(t + [c])) && !EndsInSlash(t + [c])
  {
    SqueezeSnoc(t, c);
    JoinedLonger(t, c);
    if !(EndsInSlash(t) && Parts(t) != []) { assert F.JoinSlash(Parts(t)) + "" == F.JoinSlash(Parts(t)); }
  }

  lemma SqueezedIs(k: string)
    requires k != "" && !EndsInSlash(k)
    ensures Squeeze(k) == F.JoinSlash(Parts(k)) && F.SplitSlash(Squeeze(k)) == Parts(k) == Address(k)
  {
    AddressIs(k);
    SqueezeJoinsParts(k);
    PartsArePlain(k);
    SplitJoin(Parts(k));
    assert F.JoinSlash(Parts(k)) + "" == F.JoinSlash(Parts(k));
  }

  /** Two keys the gateway passes on are filed in one place exactly when they
      differ at most in doubled and leading slashes. */
  lemma SameAddressIff(k: string, l: string)
    requires k != "" && l != "" && !EndsInSlash(k) && !EndsInSlash(l)
    ensures Address(k) == Address(l) <==> Squeeze(k) == Squeeze(l)
  {
    SqueezedIs(k);
    SqueezedIs(l);
  }

  /** So s//b is filed where s/b is, and /b where b is. */
  lemma SlashesDoNotSeparate(s: string, b: string)
    requires '/' !in b && b != ""
    ensures Address(s + "/" + "/" + b) == Address(s + "/" + b) && Address("/" + b) == Address(b)
  {
    PartsOfSegment(s, b);
    PartsOfSegment(s + "/", b);
    PartsOfTrimmed(s + "/");
    assert (s + "/")[..|s|] == s;
    assert EndsInSlash(b) ==> '/' in b;
    AddressIs(s + "/" + "/" + b);
    AddressIs(s + "/" + b);
    PartsOfSegment("", b);
    assert "" + "/" + b == "/" + b;
    NoParts();
    SplitPlain(b);
    AddressIs("/" + b);
    AddressIs(b);
    assert [b][..0] == [] && Parts(b) == [b];
  }

  // ------------------------------------------------------------- files filed by key

  /** Every file is in the folder and has the name its key stands for. */
  ghost predicate FiledByKey(t: F.Table, db: DB) {
    forall f :: f in db.files ==>
      F.PathTo(t, db.files[f].folder, F.Directories(db.files[f].storagePath))
      && db.files[f].name == FileName(db.files[f].storagePath)
  }

  ghost predicate PutByKey(t: F.Table, put: Put) {
    F.PathTo(t, put.folder, F.Directories(put.key)) && put.name == FileName(put.key)
  }

  lemma {:induction false} FolderHasOnePath(t: F.Table, x: Option<Id>, a: seq<string>, b: seq<string>)
    requires F.PathTo(t, x, a) && F.PathTo(t, x, b)
    ensures a == b
    decreases |a|
  {
    if a != [] {
      FolderHasOnePath(t, t[x.value].parent, a[..|a| - 1], b[..|b| - 1]);
      assert a == a[..|a| - 1] + [a[|a| - 1]] && b == b[..|b| - 1] + [b[|b| - 1]];
    }
  }

  lemma SnocsEqual(a: seq<string>, x: string, b: seq<string>, y: string)
    ensures a + [x] == b + [y] <==> a == b && x == y
  {
    assert (a + [x])[..|a|] == a && (b + [y])[..|b|] == b && (a + [x])[|a|] == x && (b + [y])[|b|] == y;
  }

  lemma SameFolderIff(t: F.Table, x: Option<Id>, y: Option<Id>, a: seq<string>, b: seq<string>)
    requires F.SiblingsUnique(t) && F.PathTo(t, x, a) && F.PathTo(t, y, b)
    ensures x == y <==> a == b
  {
    if x == y { FolderHasOnePath(t, x, a, b); }
    if a == b { F.PathIsUnique(t, x, y, a); }
  }

  lemma SameSpotIff(t: F.Table, x: Option<Id>, y: Option<Id>, k: string, l: string)
    requires F.SiblingsUnique(t) && F.PathTo(t, x, F.Directories(k)) && F.PathTo(t, y, F.Directories(l))
    ensures x == y && FileName(k) == FileName(l) <==> Address(k) == Address(l)
  {
    SameFolderIff(t, x, y, F.Directories(k), F.Directories(l));
    SnocsEqual(F.Directories(k), FileName(k), F.Directories(l), FileName(l));
  }

  /** Another ready key has this key's address. */
  ghost predicate AddressHeld(db: DB, key: string) {
    exists g :: g in db.files && db.files[g].ready && db.files[g].storagePath != key
                && Address(db.files[g].storagePath) == Address(key)
  }

  lemma NameHeldIffAddressHeld(t: F.Table, db: DB, put: Put)
    requires F.SiblingsUnique(t) && FiledByKey(t, db) && PutByKey(t, put)
    ensures NameHeldElsewhere(db, put) <==> AddressHeld(db, put.key)
  {
    forall g | g in db.files
      ensures db.files[g].folder == put.folder && db.files[g].name == put.name
         <==> Address(db.files[g].storagePath) == Address(put.key)
    {
      SameSpotIff(t, db.files[g].folder, put.folder, db.files[g].storagePath, put.key);
    }
  }

  /** While files stay where their keys put them, a put that overlaps none goes
      through exactly when no other ready key has its address. */
  lemma PutSucceedsIffByKey(cfg: Config, folders: F.Table, s: Sys, sp: Spec, t: Token, put: Put, deletes: bool,
                            faults: Faults)
    requires ValidConfig(cfg) && SysInv(s) && Refines(cfg, s, sp)
    requires F.SiblingsUnique(folders) && FiledByKey(folders, s.w.db) && PutByKey(folders, put)
    requires Accepts(cfg, s, GatewayBegin(t, put, deletes, true)) && Serial(s, GatewayBegin(t, put, deletes, true))
    ensures var s1 := Next(cfg, s, GatewayBegin(t, put, deletes, true));
            var s2 := Next(cfg, s1, StoreObject(t));
            Accepts(cfg, s2, Finish(t, faults, true))
            && (Succeeds(cfg, s2, t, faults, true) <==> !AddressHeld(s.w.db, put.key))
  {
    PutSucceedsIff(cfg, s, sp, t, put, deletes, faults);
    NameHeldIffAddressHeld(folders, s.w.db, put);
  }

  // ------------------------------------------------------------- they stay so

  lemma DropStaysFiled(t: F.Table, db: DB, gone: set<Id>)
    requires FiledByKey(t, db)
    ensures FiledByKey(t, Drop(db, gone))
  {
  }

  lemma ReserveStaysFiled(t: F.Table, db: DB, put: Put)
    requires FiledByKey(t, db) && PutByKey(t, put)
    ensures FiledByKey(t, CreatePending(db, put.user, put.folder, put.name, put.key))
  {
    DropStaysFiled(t, db, BlobsAt(db, put.key));
  }

  lemma MarkStaysFiled(t: F.Table, db: DB, d: DB, fl: Flight)
    requires FilesMatchBlobs(db) && PairOrGone(db, fl.file, fl.blob, fl.key) && FiledByKey(t, db)
    requires MarkReady(db, fl.file, fl.blob, fl.store, fl.key) == Some(d)
    ensures FiledByKey(t, d)
  {
    forall f | f in d.files
      ensures f in db.files && d.files[f].folder == db.files[f].folder
      ensures d.files[f].name == db.files[f].name && d.files[f].storagePath == db.files[f].storagePath
    {
    }
  }

  lemma FinishStaysFiled(cfg: Config, t: F.Table, s: Sys, token: Token, faults: Faults)
    requires Inv(s.w.db) && FlightsFit(s) && FiledByKey(t, s.w.db) && token in s.flights
    requires forall l :: l in s.w.db.locs ==> s.w.db.locs[l].state == Available
    ensures var r := FinishRows(cfg, s.w, s.flights[token], faults); r.Some? ==> FiledByKey(t, r.value.db)
  {
    var fl := s.flights[token];
    var marked := MarkReady(s.w.db, fl.file, fl.blob, fl.store, fl.key);
    if marked.Some? {
      MarkStaysFiled(t, s.w.db, marked.value, fl);
      if cfg.replicate {
        MarkReadyKeepsInv(s.w.db, fl.file, fl.blob, fl.store, fl.key);
        SyncAddsOnlyCopies(cfg, World(marked.value, s.w.disk), fl.file, faults);
        SameFilesStayFiled(t, marked.value, FinishRows(cfg, s.w, fl, faults).value.db);
      }
    }
  }

  lemma SameFilesStayFiled(t: F.Table, db: DB, d: DB)
    requires FiledByKey(t, db) && d.files == db.files
    ensures FiledByKey(t, d)
  {
  }

  /** What a step asks to store is filed by its key. */
  ghost predicate StepByKey(t: F.Table, step: Step) {
    (step.GatewayBegin? || step.UploadBegin?) ==> PutByKey(t, step.put)
  }

  /** Puts filed by their keys, and every other step, leave all files so; and
      making further folders for the next key does not disturb them. */
  lemma StepStaysFiled(cfg: Config, t: F.Table, s: Sys, step: Step)
    requires SysInv(s) && FiledByKey(t, s.w.db) && StepByKey(t, step)
    ensures FiledByKey(t, Next(cfg, s, step).w.db)
  {
    if !Accepts(cfg, s, step) { return; }
    match step
    case GatewayBegin(_, put, deletes, commits) =>
      DropStaysFiled(t, s.w.db, ReadyBlobsAt(s.w.db, put.key));
      if commits { ReserveStaysFiled(t, Drop(s.w.db, ReadyBlobsAt(s.w.db, put.key)), put); }
    case UploadBegin(_, put, _) => ReserveStaysFiled(t, s.w.db, put);
    case Finish(token, faults, _) => FinishStaysFiled(cfg, t, s, token, faults);
    case Delete(key) => DropStaysFiled(t, s.w.db, ReadyBlobsAt(s.w.db, key));
    case _ =>
  }

  lemma ChainStaysFiled(st: F.State, db: DB, key: string)
    requires F.Sound(st) && FiledByKey(st.t, db)
    ensures var (st1, folder) := F.ChainState(st, F.Directories(key));
            F.Sound(st1) && FiledByKey(st1.t, db) && F.PathTo(st1.t, folder, F.Directories(key))
  {
    F.ResolvingTwiceIsOnce(st, F.Directories(key));
    var (st1, folder) := F.ChainState(st, F.Directories(key));
    forall f | f in db.files ensures F.PathTo(st1.t, db.files[f].folder, F.Directories(db.files[f].storagePath)) {
      F.PathExtends(st.t, st1.t, db.files[f].folder, F.Directories(db.files[f].storagePath));
    }
  }
}
