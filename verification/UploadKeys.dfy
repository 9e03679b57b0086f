/** The object keys of uploads: when files of different folders share one
    (server/internal/handler/upload.go). */
module UploadKeys {
  import opened Strings
  import opened Tables
  import opened Records
  import opened Refinement
  import opened KeyPlacement
  import F = Folders

  /** The path of a folder as FolderPath gives it, "" if it cannot be walked. */
  function Dir(t: F.Table, folder: Option<Id>): string {
    match F.NamesTo(t, folder, F.MAX_DEPTH)
    case None => ""
    case Some(names) => F.JoinSlash(names)
  }

  /** The object key of a file uploaded into a folder. */
  function UploadKey(t: F.Table, folder: Option<Id>, name: string): string {
    if Dir(t, folder) == "" then name else Dir(t, folder) + "/" + name
  }

  method ObjectKey(t: F.Table, folder: Option<Id>, name: string) returns (key: string)
    ensures key == UploadKey(t, folder, name)
  {
    key := name;
    if folder.Some? {
      var dir := F.FolderPath(t, folder.value);
      if dir.Some? && dir.value != "" { key := dir.value + "/" + name; }
    }
  }

  predicate Exists(t: F.Table, x: Option<Id>) { x.Some? ==> x.value in t }

  // ------------------------------------------------------------- which uploads collide

  /** Files of different folders or names have different object keys. */
  ghost predicate KeysSeparate(t: F.Table) {
    forall x, y, n, m {:trigger UploadKey(t, x, n), UploadKey(t, y, m)} ::
      Exists(t, x) && Exists(t, y) && Plain(n) && Plain(m) && UploadKey(t, x, n) == UploadKey(t, y, m) ==>
          x == y && n == m
  }

  /** No two folders, the root among them, have one path. */
  ghost predicate DirsDistinct(t: F.Table) {
    forall x, y {:trigger Dir(t, x), Dir(t, y)} :: Exists(t, x) && Exists(t, y) && Dir(t, x) == Dir(t, y) ==> x == y
  }

  /** The name of an upload can be read off its key. */
  lemma NameOfUploadKey(t: F.Table, x: Option<Id>, n: string)
    requires Plain(n)
    ensures AfterLastSlash(UploadKey(t, x, n)) == n
  {
    LastSegment(UploadKey(t, x, n));
    SplitPlain(n);
    if Dir(t, x) != "" { SplitSegment(Dir(t, x), n); }
  }

  /** Two uploads share their object key exactly when they have one name and
      their folders one path. */
  lemma UploadKeysCollideIff(t: F.Table, x: Option<Id>, y: Option<Id>, n: string, m: string)
    requires Plain(n) && Plain(m)
    ensures UploadKey(t, x, n) == UploadKey(t, y, m) <==> Dir(t, x) == Dir(t, y) && n == m
  {
    NameOfUploadKey(t, x, n);
    NameOfUploadKey(t, y, m);
    if UploadKey(t, x, n) == UploadKey(t, y, m) { DirOfUploadKey(Dir(t, x), Dir(t, y), n); }
  }

  lemma DirOfUploadKey(a: string, b: string, n: string)
    requires (if a == "" then n else a + "/" + n) == if b == "" then n else b + "/" + n
    ensures a == b
  {
    if a != "" && b != "" {
      var s := a + "/" + n;
      assert |a| == |s| - 1 - |n| == |b|;
      assert s[..|a|] == a && (b + "/" + n)[..|b|] == b;
    }
  }

  /** On every folder table, uploads into different folders or of different
      names get different keys exactly when no two folders have one path. */
  lemma UploadKeysSeparateIff(t: F.Table)
    ensures KeysSeparate(t) <==> DirsDistinct(t)
  {
    if KeysSeparate(t) {
      forall x, y | Exists(t, x) && Exists(t, y) && Dir(t, x) == Dir(t, y) ensures x == y {
        assert UploadKey(t, x, "f") == UploadKey(t, y, "f") && Plain("f");
      }
    }
    if DirsDistinct(t) {
      forall x, y, n, m
        | Exists(t, x) && Exists(t, y) && Plain(n) && Plain(m) && UploadKey(t, x, n) == UploadKey(t, y, m)
        ensures x == y && n == m
      {
        UploadKeysCollideIff(t, x, y, n, m);
      }
    }
  }

  // ------------------------------------------------------ the two reasons for one path

  ghost predicate PlainTable(t: F.Table) { forall x :: x in t ==> Plain(t[x].name) }

  /** No folder has more than 50 levels. */
  ghost predicate Shallow(t: F.Table) { forall x :: x in t ==> F.NamesTo(t, Some(x), F.MAX_DEPTH).Some? }

  lemma {:induction false} NamesArePath(t: F.Table, x: Option<Id>, depth: nat)
    requires F.NamesTo(t, x, depth).Some?
    ensures var names := F.NamesTo(t, x, depth).value;
            F.PathTo(t, x, names) && (names == [] <==> x == None) && (PlainTable(t) ==> AllPlain(names))
    decreases depth
  {
    if x.Some? {
      NamesArePath(t, t[x.value].parent, depth - 1);
      var up := F.NamesTo(t, t[x.value].parent, depth - 1).value;
      assert (up + [t[x.value].name])[..|up|] == up;
    }
  }

  /** A joined path of plain names can be split again. */
  lemma DirSplits(t: F.Table, x: Option<Id>)
    requires PlainTable(t) && F.NamesTo(t, x, F.MAX_DEPTH).Some?
    ensures Dir(t, x) == "" <==> x == None
    ensures x.Some? ==> F.PathTo(t, x, F.SplitSlash(Dir(t, x)))
  {
    NamesArePath(t, x, F.MAX_DEPTH);
    if x.Some? { SplitJoin(F.NamesTo(t, x, F.MAX_DEPTH).value); }
  }

  /** If no folder name holds a slash, that is so exactly when no folder is more
      than 50 levels deep. */
  lemma PlainDirsDistinctIff(t: F.Table)
    requires F.SiblingsUnique(t) && PlainTable(t)
    ensures DirsDistinct(t) <==> Shallow(t)
  {
    if Shallow(t) {
      forall x, y | Exists(t, x) && Exists(t, y) && Dir(t, x) == Dir(t, y) ensures x == y {
        assert F.NamesTo(t, x, F.MAX_DEPTH).Some? && F.NamesTo(t, y, F.MAX_DEPTH).Some?;
        DirSplits(t, x);
        DirSplits(t, y);
        if x.Some? { F.PathIsUnique(t, x, y, F.SplitSlash(Dir(t, x))); }
      }
    } else {
      var x :| x in t && F.NamesTo(t, Some(x), F.MAX_DEPTH).None?;
      assert Dir(t, Some(x)) == "" == Dir(t, None) && Exists(t, Some(x)) && Exists(t, None);
    }
  }

  /** An upload into a folder that deep takes the key of the root's file of that
      name, which its phase 1 then removes. */
  lemma DeepUploadTakesRootKey(cfg: Config, t: F.Table, s: Sys, sp: Spec, token: Token, x: Id, put: Put, store: StoreId)
    requires F.NamesTo(t, Some(x), F.MAX_DEPTH).None? && put.key == UploadKey(t, Some(x), put.name)
    requires Mirrors(cfg, s, sp) && Serial(s, UploadBegin(token, put, store))
             && Accepts(cfg, s, UploadBegin(token, put, store))
    requires ValidConfig(cfg)
    ensures put.key == UploadKey(t, None, put.name)
    ensures Mirrors(cfg, Next(cfg, s, UploadBegin(token, put, store)), Without(sp, put.name))
  {
    StepMirrors(cfg, s, sp, UploadBegin(token, put, store));
  }

  /** A folder may be named a/b, and then shares its files' keys with b in a. */
  lemma SlashNamesShareKeys(t: F.Table, x: Id, y: Id, p: Id, name: string)
    requires x in t && y in t && p in t && t[p].parent == None && t[x].parent == Some(p) && t[y].parent == None
    requires t[p].name != "" && t[y].name == t[p].name + "/" + t[x].name
    ensures UploadKey(t, Some(x), name) == UploadKey(t, Some(y), name)
  {
    assert [] + [t[p].name] == [t[p].name] && [] + [t[y].name] == [t[y].name];
    assert F.NamesTo(t, Some(p), F.MAX_DEPTH - 1) == Some([t[p].name]);
    assert F.NamesTo(t, Some(x), F.MAX_DEPTH) == Some([t[p].name] + [t[x].name]);
    assert F.NamesTo(t, Some(y), F.MAX_DEPTH) == Some([t[y].name]);
    JoinSnoc([t[p].name], t[x].name);
    assert F.JoinSlash([t[y].name]) == t[y].name;
  }

  // ------------------------------------------------------------- filed by their keys

  lemma {:induction false} PlainAreNonEmpty(names: seq<string>)
    requires AllPlain(names)
    ensures F.NonEmpty(names) == names
    decreases |names|
  {
    if names != [] {
      PlainAreNonEmpty(names[..|names| - 1]);
      assert names == names[..|names| - 1] + [names[|names| - 1]];
    }
  }

  lemma UploadIsNamed(t: F.Table, x: Option<Id>, name: string)
    requires Plain(name)
    ensures var key := UploadKey(t, x, name);
            FileName(key) == name && key != "" && !EndsInSlash(key) && AllPlain(F.Directories(key))
  {
    var key := UploadKey(t, x, name);
    NameOfUploadKey(t, x, name);
    AfterLastSlashIsEmptyIff(key);
    PartsOfPlain(key);
    BaseIsLastPart(key);
    PartsArePlain(key);
    forall i | 0 <= i < |F.Directories(key)| ensures Plain(F.Directories(key)[i]) {
      assert Parts(key)[i] == F.Directories(key)[i];
    }
  }

  lemma WalkedIsFiled(t: F.Table, x: Option<Id>, name: string, names: seq<string>)
    requires Plain(name) && F.NamesTo(t, x, F.MAX_DEPTH) == Some(names) && AllPlain(names)
    ensures F.Directories(UploadKey(t, x, name)) == names && F.PathTo(t, x, names)
  {
    NamesArePath(t, x, F.MAX_DEPTH);
    PlainAreNonEmpty(names);
    SplitPlain(name);
    if names != [] {
      SplitJoin(names);
      SplitSegment(F.JoinSlash(names), name);
    }
    assert (names + [name])[..|names|] == names;
    assert F.SplitSlash(UploadKey(t, x, name)) == names + [name];
  }

  /** An upload is filed where its key puts it exactly when its folder's path
      can be walked and no name on it holds a slash (or is empty). */
  lemma UploadIsFiledIff(t: F.Table, put: Put)
    requires Plain(put.name) && put.key == UploadKey(t, put.folder, put.name)
    ensures PutByKey(t, put) <==>
              F.NamesTo(t, put.folder, F.MAX_DEPTH).Some? && AllPlain(F.NamesTo(t, put.folder, F.MAX_DEPTH).value)
  {
    var walked := F.NamesTo(t, put.folder, F.MAX_DEPTH);
    UploadIsNamed(t, put.folder, put.name);
    if walked.Some? {
      NamesArePath(t, put.folder, F.MAX_DEPTH);
      if AllPlain(walked.value) {
        WalkedIsFiled(t, put.folder, put.name, walked.value);
      } else if F.PathTo(t, put.folder, F.Directories(put.key)) {
        FolderHasOnePath(t, put.folder, F.Directories(put.key), walked.value);
      }
    } else {
      assert put.key == put.name;
      SplitPlain(put.name);
      assert [put.name][..0] == [] && F.Directories(put.key) == [];
    }
  }
}
