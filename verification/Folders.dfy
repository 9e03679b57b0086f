/** The folder table: subtree walk, create, move, path walk, chains of folders
    for an object key, recursive delete, and the scope of a folder link
    (server/internal/store/explorer.go, server/internal/handler/folder.go,
    server/internal/store/store.go, server/internal/handler/s3gateway.go,
    server/internal/handler/share.go). */
module Folders {
  import opened Tables

  datatype Folder = Folder(parent: Option<Id>, name: string)

  type Table = map<Id, Folder>

  const MAX_SUBTREE := 10_000
  const MAX_DEPTH := 50

  // -------------------------------------------------------------- walking upwards

  /** The n-th ancestor of x (x itself for 0), if the walk gets that far. */
  function Up(t: Table, x: Id, n: nat): Option<Id> {
    if n == 0 then Some(x)
    else match Up(t, x, n - 1)
      case None => None
      case Some(y) => if y in t then t[y].parent else None
  }

  ghost predicate HasAncestor(t: Table, x: Id, root: Id) { exists n: nat :: n > 0 && Up(t, x, n) == Some(root) }

  /** root and everything below it, for any parent relation whatever. */
  ghost function Subtree(t: Table, root: Id): set<Id> { {root} + set x | x in t && HasAncestor(t, x, root) }

  ghost predicate OnCycle(t: Table, x: Id) { HasAncestor(t, x, x) }

  lemma {:induction false} UpAdds(t: Table, x: Id, a: nat, b: nat)
    ensures Up(t, x, a + b) == if Up(t, x, a).None? then None else Up(t, Up(t, x, a).value, b)
    decreases b
  {
    if b > 0 {
      UpAdds(t, x, a, b - 1);
      assert a + b - 1 == a + (b - 1);
    }
  }

  function Children(t: Table, p: Id): set<Id> { set x | x in t && t[x].parent == Some(p) }

  lemma ChildIsBelow(t: Table, root: Id, p: Id, c: Id)
    requires c in Children(t, p) && p in Subtree(t, root)
    ensures HasAncestor(t, c, root)
  {
    assert Up(t, c, 1) == Some(p) by { assert Up(t, c, 0) == Some(c); }
    if p != root {
      var n: nat :| n > 0 && Up(t, p, n) == Some(root);
      UpAdds(t, c, 1, n);
    }
  }

  /** A set that holds root and the children of its members holds the subtree. */
  lemma ClosedHoldsSubtree(t: Table, root: Id, s: set<Id>)
    requires root in s && forall p :: p in s ==> Children(t, p) <= s
    ensures Subtree(t, root) <= s
  {
    forall x | x in t && HasAncestor(t, x, root) ensures x in s {
      var n: nat :| n > 0 && Up(t, x, n) == Some(root);
      ClosedHoldsBelow(t, root, s, x, n);
    }
  }

  lemma {:induction false} ClosedHoldsBelow(t: Table, root: Id, s: set<Id>, x: Id, n: nat)
    requires root in s && forall p :: p in s ==> Children(t, p) <= s
    requires Up(t, x, n) == Some(root)
    ensures x in s
    decreases n
  {
    if n > 0 {
      UpAdds(t, x, 1, n - 1);
      assert Up(t, x, 0) == Some(x);
      var p := Up(t, x, 1).value;
      ClosedHoldsBelow(t, root, s, p, n - 1);
      assert x in Children(t, p);
    }
  }

  // ---------------------------------------------------------------- FolderSubtree

  ghost predicate NoRepeats<T>(xs: seq<T>) { forall i, j :: 0 <= i < j < |xs| ==> xs[i] != xs[j] }

  lemma NoRepeatsConcat<T>(a: seq<T>, b: seq<T>)
    requires NoRepeats(a) && NoRepeats(b) && forall x :: x in b ==> x !in a
    ensures NoRepeats(a + b)
  {
    forall i, j | 0 <= i < j < |a + b| ensures (a + b)[i] != (a + b)[j] {
      if i < |a| <= j { assert b[j - |a|] in b; }
    }
  }

  function Elements<T>(xs: seq<T>): set<T> { set x | x in xs }

  lemma SizeOfElements<T>(xs: seq<T>)
    requires NoRepeats(xs)
    ensures |Elements(xs)| == |xs|
  {
    if xs != [] {
      var init, last := xs[..|xs| - 1], xs[|xs| - 1];
      assert xs == init + [last];
      LastIsNew(xs, init, last);
      SizeOfElements(init);
      OneMore(init, last);
    }
  }

  lemma LastIsNew<T>(xs: seq<T>, init: seq<T>, last: T)
    requires NoRepeats(xs) && xs == init + [last]
    ensures NoRepeats(init) && last !in Elements(init)
  {
    forall i | 0 <= i < |init| ensures init[i] == xs[i] != last { assert xs[|init|] == last; }
  }

  /** SELECT id FROM folders WHERE parent_id = p, in no particular order. */
  method ListChildren(t: Table, p: Id) returns (ids: seq<Id>)
    ensures NoRepeats(ids) && Elements(ids) == Children(t, p)
  {
    var left := Children(t, p);
    ids := [];
    while left != {}
      invariant NoRepeats(ids) && Elements(ids) + left == Children(t, p) && Elements(ids) !! left
      decreases |left|
    {
      var x :| x in left;
      OneMore(ids, x);
      ids := ids + [x];
      left := left - {x};
    }
  }

  lemma OneMore<T>(ids: seq<T>, x: T)
    requires NoRepeats(ids) && x !in Elements(ids)
    ensures NoRepeats(ids + [x]) && Elements(ids + [x]) == Elements(ids) + {x}
  {
    assert forall i :: 0 <= i < |ids| ==> ids[i] in Elements(ids);
  }

  /** What the walk knows while the root is not its own ancestor: `ids` has the
      folders found, each once; all but the queue have had their children added. */
  ghost predicate Walking(t: Table, root: Id, ids: seq<Id>, queue: seq<Id>) {
    && |queue| <= |ids| && queue == ids[|ids| - |queue|..] && NoRepeats(ids)
    && root in ids && Elements(ids) <= Subtree(t, root)
    && (forall p :: p in ids[..|ids| - |queue|] ==> Children(t, p) <= Elements(ids))
    && (forall x :: x in ids && x != root ==>
        x in t && exists p :: p in ids[..|ids| - |queue|] && t[x].parent == Some(p))
  }

  lemma WalkStep(t: Table, root: Id, ids: seq<Id>, queue: seq<Id>, cs: seq<Id>)
    requires Walking(t, root, ids, queue) && !OnCycle(t, root) && queue != []
    requires NoRepeats(cs) && Elements(cs) == Children(t, queue[0])
    ensures Walking(t, root, ids + cs, queue[1..] + cs)
  {
    var d := |ids| - |queue|;
    var p := ids[d];
    assert p == queue[0] && p in Elements(ids) && p !in ids[..d];
    forall c | c in cs ensures c !in ids && HasAncestor(t, c, root) {
      assert c in Elements(cs);
      ChildIsBelow(t, root, p, c);
    }
    var more := ids + cs;
    NoRepeatsConcat(ids, cs);
    assert queue[1..] + cs == more[d + 1..] && more[..d + 1] == ids[..d] + [p];
    assert Elements(more) == Elements(ids) + Elements(cs);
    forall x | x in more && x != root ensures x in t && exists q :: q in more[..d + 1] && t[x].parent == Some(q) {
      if x in ids {
        var q :| q in ids[..d] && t[x].parent == Some(q);
        assert q in more[..d + 1];
      } else {
        assert x in Elements(cs) && p in more[..d + 1];
      }
    }
  }

  /** The walk is at an ancestor of a root that is its own ancestor. */
  ghost predicate Circling(t: Table, root: Id, queue: seq<Id>) {
    exists n: nat :: Up(t, root, n).Some? && Up(t, root, n).value in queue
  }

  lemma CircleStep(t: Table, root: Id, queue: seq<Id>, cs: seq<Id>)
    requires OnCycle(t, root) && Circling(t, root, queue)
    requires Elements(cs) == Children(t, queue[0])
    ensures Circling(t, root, queue[1..] + cs)
  {
    var n: nat :| Up(t, root, n).Some? && Up(t, root, n).value in queue;
    var q := Up(t, root, n).value;
    if q == queue[0] {
      var m: nat :| m > 0 && Up(t, root, m) == Some(root);
      var k := if n > 0 then n else m;
      assert Up(t, root, k) == Some(q);
      var c := Up(t, root, k - 1).value;
      assert c in Children(t, q) && c in Elements(cs);
      assert c in queue[1..] + cs;
    } else {
      assert q in queue[1..] && q in queue[1..] + cs;
    }
  }

  lemma WalkStart(t: Table, root: Id)
    ensures Walking(t, root, [root], [root])
    ensures OnCycle(t, root) ==> Circling(t, root, [root])
  {
    assert Up(t, root, 0) == Some(root);
    assert [root][0..] == [root];
  }

  lemma WalkFits(t: Table, root: Id, ids: seq<Id>, queue: seq<Id>)
    requires Walking(t, root, ids, queue)
    ensures |ids| <= |Subtree(t, root)|
    ensures queue == [] ==> Elements(ids) == Subtree(t, root) && |ids| == |Subtree(t, root)|
  {
    SizeOfElements(ids);
    SubsetSize(Elements(ids), Subtree(t, root));
    if queue == [] {
      assert ids[..|ids|] == ids;
      ClosedHoldsSubtree(t, root, Elements(ids));
    }
  }

  /** On any table, cyclic or not, the walk ends. It succeeds exactly when the
      folder is not its own ancestor and its subtree is within the cap, and
      then returns the folder and all its descendants, each once. */
  method FolderSubtree(t: Table, root: Id) returns (r: Option<seq<Id>>)
    ensures r.Some? <==> !OnCycle(t, root) && |Subtree(t, root)| <= 10_000
    ensures r.Some? ==> NoRepeats(r.value) && Elements(r.value) == Subtree(t, root)
  {
    var ids, queue := [root], [root];
    ghost var cyclic := OnCycle(t, root);
    WalkStart(t, root);
    while queue != []
      invariant |ids| <= MAX_SUBTREE
      invariant !cyclic ==> Walking(t, root, ids, queue)
      invariant cyclic ==> Circling(t, root, queue)
      decreases MAX_SUBTREE - |ids|, |queue|
    {
      var children := ListChildren(t, queue[0]);
      if cyclic { CircleStep(t, root, queue, children); } else { WalkStep(t, root, ids, queue, children); }
      queue := queue[1..] + children;
      ids := ids + children;
      if |ids| > MAX_SUBTREE {
        if !cyclic { WalkFits(t, root, ids, queue); }
        return None;
      }
    }
    if !cyclic { WalkFits(t, root, ids, queue); }
    return Some(ids);
  }

  // ------------------------------------------------------------------- the forest

  ghost predicate ParentsExist(t: Table) { forall x :: x in t && t[x].parent.Some? ==> t[x].parent.value in t }

  /** Walking up from x ends at the root of the workspace. */
  ghost predicate Rooted(t: Table, x: Id) { exists n: nat :: Up(t, x, n) == None }

  ghost predicate SiblingsUnique(t: Table) {
    forall x, y :: x in t && y in t && t[x].parent == t[y].parent && t[x].name == t[y].name ==> x == y
  }

  /** An acyclic forest with existing parents and unique sibling names. */
  ghost predicate Forest(t: Table) {
    ParentsExist(t) && SiblingsUnique(t) && forall x {:trigger Rooted(t, x)} :: x in t ==> Rooted(t, x)
  }

  lemma {:induction false} NoneStaysNone(t: Table, x: Id, n: nat, m: nat)
    requires Up(t, x, n) == None && n <= m
    ensures Up(t, x, m) == None
    decreases m - n
  {
    if n < m { NoneStaysNone(t, x, n + 1, m); }
  }

  lemma {:induction false} RootedIsAcyclic(t: Table, x: Id, n: nat)
    requires Up(t, x, n) == None
    ensures !OnCycle(t, x)
    decreases n
  {
    if OnCycle(t, x) {
      var m: nat :| m > 0 && Up(t, x, m) == Some(x);
      if n < m {
        NoneStaysNone(t, x, n, m);
      } else {
        UpAdds(t, x, m, n - m);
        RootedIsAcyclic(t, x, n - m);
      }
    }
  }

  lemma ForestIsAcyclic(t: Table, x: Id)
    requires Forest(t) && x in t
    ensures !OnCycle(t, x)
  {
    assert Rooted(t, x);
    var n: nat :| Up(t, x, n) == None;
    RootedIsAcyclic(t, x, n);
  }

  // --------------------------------------------------------------- adding and moving

  /** Some folder other than `exclude` has this name under this parent. */
  predicate NameUsed(t: Table, parent: Option<Id>, name: string, exclude: Option<Id>) {
    exists x :: x in t && Some(x) != exclude && t[x].parent == parent && t[x].name == name
  }

  ghost predicate AgreeOutside(t: Table, u: Table, s: set<Id>) {
    forall z :: z !in s ==> (z in u <==> z in t) && (z in t ==> u[z] == t[z])
  }

  /** A walk that avoids s is unaffected by what the rows of s say. */
  lemma {:induction false} UpAvoids(t: Table, u: Table, y: Id, s: set<Id>, n: nat)
    requires AgreeOutside(t, u, s)
    requires forall k: nat :: k < n && Up(t, y, k).Some? ==> Up(t, y, k).value !in s
    ensures Up(u, y, n) == Up(t, y, n)
    decreases n
  {
    if n > 0 {
      UpAvoids(t, u, y, s, n - 1);
      assert Up(t, y, n - 1).Some? ==> Up(t, y, n - 1).value !in s;
    }
  }

  /** Setting row x to a parent outside x's subtree keeps every walk finite. */
  lemma SetParentKeepsRooted(t: Table, x: Id, f: Folder, y: Id)
    requires forall z :: z in t ==> Rooted(t, z)
    requires f.parent.Some? ==> f.parent.value in t && f.parent.value != x && f.parent.value !in Subtree(t, x)
    requires y in t || y == x
    ensures Rooted(t[x := f], y)
  {
    var u := t[x := f];
    var up: nat := 1;
    if f.parent.Some? { up := RootOfParent(t, x, f); }
    assert Up(u, x, up) == None by {
      if f.parent.Some? {
        assert Up(u, x, 0) == Some(x) && Up(u, x, 1) == f.parent;
        UpAdds(u, x, 1, up - 1);
      } else {
        assert Up(u, x, 0) == Some(x);
      }
    }
    if y != x {
      assert Rooted(t, y);
      var n: nat :| Up(t, y, n) == None;
      if k: nat :| k < n && Up(t, y, k) == Some(x) {
        var first := FirstMeeting(t, y, x, k);
        UpAvoids(t, u, y, {x}, first);
        UpAdds(u, y, first, up);
        assert Up(u, y, first + up) == None;
      } else {
        UpAvoids(t, u, y, {x}, n);
        assert Up(u, y, n) == None;
      }
    }
  }

  lemma FirstMeeting(t: Table, y: Id, x: Id, k: nat) returns (first: nat)
    requires Up(t, y, k) == Some(x)
    ensures Up(t, y, first) == Some(x) && forall j: nat :: j < first ==> Up(t, y, j) != Some(x)
  {
    if j: nat :| j < k && Up(t, y, j) == Some(x) {
      first := FirstMeeting(t, y, x, j);
    } else {
      first := k;
    }
  }

  /** How many steps x needs to the root under its new row. */
  lemma RootOfParent(t: Table, x: Id, f: Folder) returns (up: nat)
    requires f.parent.Some? && f.parent.value in t && Rooted(t, f.parent.value)
    requires f.parent.value != x && f.parent.value !in Subtree(t, x)
    ensures up > 0 && Up(t[x := f], f.parent.value, up - 1) == None
  {
    var p := f.parent.value;
    var n: nat :| Up(t, p, n) == None;
    assert !HasAncestor(t, p, x) && Up(t, p, 0) == Some(p);
    UpAvoids(t, t[x := f], p, {x}, n);
    up := n + 1;
  }

  lemma SetRowKeepsForest(t: Table, x: Id, f: Folder)
    requires Forest(t) && !NameUsed(t, f.parent, f.name, Some(x))
    requires f.parent.Some? ==> f.parent.value in t && f.parent.value != x && f.parent.value !in Subtree(t, x)
    ensures Forest(t[x := f])
  {
    var u := t[x := f];
    forall y | y in u ensures Rooted(u, y) { SetParentKeepsRooted(t, x, f, y); }
  }

  /** An unused id has nothing below it, so a new row cannot close a cycle. */
  lemma NewFolderKeepsForest(t: Table, x: Id, f: Folder)
    requires Forest(t) && x !in t && !NameUsed(t, f.parent, f.name, None) && (f.parent.Some? ==> f.parent.value in t)
    ensures Forest(t[x := f])
  {
    assert !NameUsed(t, f.parent, f.name, Some(x));
    if f.parent.Some? && HasAncestor(t, f.parent.value, x) {
      var n: nat :| n > 0 && Up(t, f.parent.value, n) == Some(x);
      WalksStayInside(t, f.parent.value, n);
    }
    SetRowKeepsForest(t, x, f);
  }

  lemma {:induction false} WalksStayInside(t: Table, y: Id, n: nat)
    requires ParentsExist(t) && y in t
    ensures Up(t, y, n).Some? ==> Up(t, y, n).value in t
    decreases n
  {
    if n > 0 { WalksStayInside(t, y, n - 1); }
  }

  /** Deleting a whole subtree leaves a forest. */
  lemma DropSubtreeKeepsForest(t: Table, root: Id)
    requires Forest(t)
    ensures Forest(t - Subtree(t, root))
  {
    var gone := Subtree(t, root);
    var u := t - gone;
    forall y | y in u ensures Rooted(u, y) {
      assert Rooted(t, y);
      var n: nat :| Up(t, y, n) == None;
      forall k: nat | k < n && Up(t, y, k).Some? ensures Up(t, y, k).value !in gone { AboveIsOutside(t, root, y, k); }
      UpAvoids(t, u, y, gone, n);
    }
    forall y | y in u && u[y].parent.Some? ensures u[y].parent.value in u {
      if u[y].parent.value in gone {
        assert y in Children(t, u[y].parent.value);
        ChildIsBelow(t, root, u[y].parent.value, y);
      }
    }
  }

  /** Whatever lies above a folder outside the subtree is outside it too. */
  lemma AboveIsOutside(t: Table, root: Id, y: Id, k: nat)
    requires y in t && y !in Subtree(t, root) && Up(t, y, k).Some?
    ensures Up(t, y, k).value !in Subtree(t, root)
  {
    var z := Up(t, y, k).value;
    assert Up(t, y, 0) == Some(y);
    if z != root && HasAncestor(t, z, root) {
      var n: nat :| n > 0 && Up(t, z, n) == Some(root);
      UpAdds(t, y, k, n);
      assert HasAncestor(t, y, root);
    }
  }

  // -------------------------------------------------------------------- operations

  predicate IsBlank(c: char): (r: bool)
    ensures r <==> c in " \t\n\r"
  {
    c == ' ' || c == '\t' || c == '\n' || c == '\r'
  }

  /** s without the blanks at its ends: the slice [start..end). */
  ghost predicate Trimmed(s: string, start: nat, end: nat) {
    && start <= end <= |s|
    && (forall i :: 0 <= i < start ==> s[i] in " \t\n\r") && (forall i :: end <= i < |s| ==> s[i] in " \t\n\r")
    && (start < end ==> s[start] !in " \t\n\r" && s[end - 1] !in " \t\n\r")
  }

  ghost predicate IsTrimmed(s: string, r: string) { exists i: nat, j: nat :: Trimmed(s, i, j) && r == s[i..j] }

  function Trim(s: string): string
    decreases |s|
  {
    if s != "" && IsBlank(s[0]) then Trim(s[1..])
    else if s != "" && IsBlank(s[|s| - 1]) then Trim(s[..|s| - 1])
    else s
  }

  lemma {:induction false} TrimIsTrimmed(s: string, start: nat, end: nat)
    requires Trimmed(s, start, end)
    ensures Trim(s) == s[start..end]
    decreases |s|
  {
    if s != "" && IsBlank(s[0]) {
      if start > 0 {
        TrimIsTrimmed(s[1..], start - 1, end - 1);
        assert s[1..][start - 1..end - 1] == s[start..end];
      } else {
        assert end == 0;
        TrimIsTrimmed(s[1..], 0, 0);
      }
    } else if s != "" && IsBlank(s[|s| - 1]) {
      assert start == 0;
      TrimIsTrimmed(s[..|s| - 1], start, if end == |s| then end - 1 else end);
      assert s[..|s| - 1][start..end] == s[start..end];
    }
  }

  lemma TrimmedBehind(s: string, i: nat, j: nat)
    requires s != "" && IsBlank(s[0]) && Trimmed(s[1..], i, j)
    ensures Trimmed(s, i + 1, j + 1) && s[1..][i..j] == s[i + 1..j + 1]
  {
    forall k | 0 < k < |s| ensures s[k] == s[1..][k - 1] {}
  }

  lemma TrimmedBefore(s: string, i: nat, j: nat)
    requires s != "" && IsBlank(s[|s| - 1]) && Trimmed(s[..|s| - 1], i, j)
    ensures Trimmed(s, i, j) && s[..|s| - 1][i..j] == s[i..j]
  {
    forall k | 0 <= k < |s| - 1 ensures s[k] == s[..|s| - 1][k] {}
  }

  lemma {:induction false} TrimTrims(s: string)
    ensures IsTrimmed(s, Trim(s))
    decreases |s|
  {
    if s != "" && IsBlank(s[0]) {
      TrimTrims(s[1..]);
      var i: nat, j: nat :| Trimmed(s[1..], i, j) && Trim(s[1..]) == s[1..][i..j];
      TrimmedBehind(s, i, j);
    } else if s != "" && IsBlank(s[|s| - 1]) {
      TrimTrims(s[..|s| - 1]);
      var i: nat, j: nat :| Trimmed(s[..|s| - 1], i, j) && Trim(s[..|s| - 1]) == s[..|s| - 1][i..j];
      TrimmedBefore(s, i, j);
    } else {
      NothingToTrim(s);
    }
  }

  lemma NothingToTrim(s: string)
    requires s != "" ==> !IsBlank(s[0]) && !IsBlank(s[|s| - 1])
    ensures Trimmed(s, 0, |s|) && s[0..|s|] == s
  {
  }

  method TrimSpace(s: string) returns (r: string)
    ensures r == Trim(s) && IsTrimmed(s, r)
  {
    var start := 0;
    while start < |s| && IsBlank(s[start])
      invariant start <= |s| && forall i :: 0 <= i < start ==> IsBlank(s[i])
    {
      start := start + 1;
    }
    var end := |s|;
    while end > start && IsBlank(s[end - 1])
      invariant start <= end <= |s| && forall i :: end <= i < |s| ==> IsBlank(s[i])
    {
      end := end - 1;
    }
    TrimIsTrimmed(s, start, end);
    r := s[start..end];
  }

  /** The folders and files tables of a tenant; ids from `next` up are unused. */
  datatype State = State(t: Table, files: map<Id, File>, next: Id)

  datatype Result = Done(id: Id) | BadRequest | NotFound | Conflict

  class FolderStore {
    var folders: Table
    var files: map<Id, File>
    var next: Id

    constructor ()
      ensures folders == map[] && files == map[] && next == 0
    {
      folders, files, next := map[], map[], 0;
    }

    function View(): State reads this { State(folders, files, next) }
  }

  function AddFolder(s: State, parent: Option<Id>, name: string): State {
    s.(t := s.t[s.next := Folder(parent, name)], next := s.next + 1)
  }

  function CreateResult(s: State, name: string, parent: Option<Id>): Result {
    if Trim(name) == "" then BadRequest
    else if parent.Some? && parent.value !in s.t then NotFound
    else if NameUsed(s.t, parent, Trim(name), None) then Conflict
    else Done(s.next)
  }

  /** The answer to a create of a folder of this trimmed name, and the tables it
      leaves: on success one new row, otherwise what there was. */
  ghost predicate Created(s: State, name: string, parent: Option<Id>, r: Result, s1: State) {
    match r
    case BadRequest => name == "" && s1 == s
    case NotFound => name != "" && parent.Some? && parent.value !in s.t && s1 == s
    case Conflict =>
      && name != "" && (parent.Some? ==> parent.value in s.t) && s1 == s
      && exists x :: x in s.t && s.t[x].parent == parent && s.t[x].name == name
    case Done(id) =>
      && name != "" && (parent.Some? ==> parent.value in s.t)
      && (forall x :: x in s.t && s.t[x].parent == parent ==> s.t[x].name != name)
      && id == s.next && s1 == State(s.t[id := Folder(parent, name)], s.files, id + 1)
  }

  method CreateFolder(fs: FolderStore, name: string, parent: Option<Id>) returns (r: Result)
    modifies fs
    ensures exists trimmed :: IsTrimmed(name, trimmed) && Created(old(fs.View()), trimmed, parent, r, fs.View())
    ensures r == CreateResult(old(fs.View()), name, parent)
    ensures fs.View() == if r.Done? then AddFolder(old(fs.View()), parent, Trim(name)) else old(fs.View())
  {
    var trimmed := TrimSpace(name);
    if trimmed == "" { return BadRequest; }
    if parent.Some? && parent.value !in fs.folders { return NotFound; }
    if NameUsed(fs.folders, parent, trimmed, None) { return Conflict; }
    var id := fs.next;
    fs.folders := fs.folders[id := Folder(parent, trimmed)];
    fs.next := id + 1;
    r := Done(id);
  }

  /** isDescendant: whether target is in start's subtree; true when the walk fails. */
  method IsDescendant(t: Table, start: Id, target: Id) returns (r: bool)
    ensures !r <==> !OnCycle(t, start) && |Subtree(t, start)| <= MAX_SUBTREE && target !in Subtree(t, start)
  {
    var ids := FolderSubtree(t, start);
    if ids.None? { return true; }
    assert target in ids.value <==> target in Elements(ids.value);
    r := target in ids.value;
  }

  /** A move of x under p that the guard lets through. */
  ghost predicate MayMove(t: Table, x: Id, p: Id) {
    !OnCycle(t, x) && |Subtree(t, x)| <= MAX_SUBTREE && p !in Subtree(t, x)
  }

  function NewRow(f: Folder, name: string, parent: Option<Id>): Folder {
    Folder(if parent.Some? then parent else f.parent, if Trim(name) == "" then f.name else Trim(name))
  }

  ghost function UpdateResult(s: State, id: Id, name: string, parent: Option<Id>): Result {
    if id !in s.t then NotFound
    else if parent.Some? && parent.value == id then BadRequest
    else if parent.Some? && parent.value !in s.t then NotFound
    else if parent.Some? && !MayMove(s.t, id, parent.value) then BadRequest
    else
      var f := NewRow(s.t[id], name, parent);
      if (f.name != s.t[id].name || parent.Some?) && NameUsed(s.t, f.parent, f.name, Some(id)) then Conflict
      else Done(id)
  }

  /** Folder id may be put under p, or stays where it is. */
  ghost predicate CanMove(t: Table, id: Id, parent: Option<Id>) {
    parent.Some? ==>
        parent.value in t && !OnCycle(t, id) && |Subtree(t, id)| <= 10_000 && parent.value !in Subtree(t, id)
  }

  /** Another folder of this name is there. */
  ghost predicate HasSibling(t: Table, id: Id, parent: Option<Id>, name: string) {
    exists x :: x in t && x != id && t[x].parent == parent && t[x].name == name
  }

  /** The answer to a rename (unless the trimmed name is empty) and move (if a
      parent is given) of folder id, and the tables it leaves: on success its row
      has the new name and parent, and that is all. */
  ghost predicate Updated(s: State, id: Id, name: string, parent: Option<Id>, r: Result, s1: State) {
    if id !in s.t then r == NotFound && s1 == s
    else
      var newName := if name == "" then s.t[id].name else name;
      var newParent := if parent.Some? then parent else s.t[id].parent;
      match r
      case NotFound => parent.Some? && parent.value != id && parent.value !in s.t && s1 == s
      case BadRequest =>
        parent.Some? && (parent.value == id || (parent.value in s.t && !CanMove(s.t, id, parent))) && s1 == s
      case Conflict =>
        && CanMove(s.t, id, parent) && HasSibling(s.t, id, newParent, newName)
        && (newName != s.t[id].name || parent.Some?) && s1 == s
      case Done(done) =>
        && CanMove(s.t, id, parent)
        && ((newName == s.t[id].name && parent.None?) || !HasSibling(s.t, id, newParent, newName))
        && done == id && s1 == s.(t := s1.t) && s1.t.Keys == s.t.Keys
        && s1.t[id].name == newName && s1.t[id].parent == newParent
        && forall x :: x in s.t && x != id ==> s1.t[x] == s.t[x]
  }

  lemma UpdateIs(s: State, id: Id, name: string, parent: Option<Id>)
    ensures IsTrimmed(name, Trim(name))
    ensures var r := UpdateResult(s, id, name, parent);
            var t := if r.Done? then s.t[id := NewRow(s.t[id], name, parent)] else s.t;
            Updated(s, id, Trim(name), parent, r, s.(t := t))
  {
    TrimTrims(name);
  }

  /** A rename without a move goes through exactly when the folder exists and no
      sibling has the new name. */
  lemma RenameIff(s: State, id: Id, name: string, r: Result, s1: State)
    requires SiblingsUnique(s.t) && name != "" && Updated(s, id, name, None, r, s1)
    ensures r.Done? <==>
            id in s.t && forall x :: x in s.t && x != id && s.t[x].parent == s.t[id].parent ==> s.t[x].name != name
  {
  }

  method UpdateFolder(fs: FolderStore, id: Id, name: string, parent: Option<Id>) returns (r: Result)
    modifies fs
    ensures exists trimmed :: IsTrimmed(name, trimmed) && Updated(old(fs.View()), id, trimmed, parent, r, fs.View())
    ensures r == UpdateResult(old(fs.View()), id, name, parent)
    ensures fs.View() ==
            if r.Done? then old(fs.View()).(t := old(fs.folders)[id := NewRow(old(fs.folders)[id], name, parent)])
                         else old(fs.View())
  {
    UpdateIs(fs.View(), id, name, parent);
    if id !in fs.folders { return NotFound; }
    var f := fs.folders[id];
    var newName := TrimSpace(name);
    if newName == "" { newName := f.name; }
    var newParent := f.parent;
    if parent.Some? {
      if parent.value == id { return BadRequest; }
      if parent.value !in fs.folders { return NotFound; }
      var inside := IsDescendant(fs.folders, id, parent.value);
      if inside { return BadRequest; }
      newParent := parent;
    }
    if newName != f.name || parent.Some? {
      if NameUsed(fs.folders, newParent, newName, Some(id)) { return Conflict; }
    }
    fs.folders := fs.folders[id := Folder(newParent, newName)];
    r := Done(id);
  }

  // ------------------------------------------------------------------ folder chains

  function SplitSlash(s: string): (r: seq<string>)
    ensures r != []
  {
    if s == "" then [""]
    else
      var rest := SplitSlash(s[1..]);
      if s[0] == '/' then [""] + rest else [[s[0]] + rest[0]] + rest[1..]
  }

  function NonEmpty(segs: seq<string>): seq<string> {
    if segs == [] then []
    else NonEmpty(segs[..|segs| - 1]) + if segs[|segs| - 1] == "" then [] else [segs[|segs| - 1]]
  }

  /** The directories an object key names: its non-empty segments but the last. */
  function Directories(key: string): seq<string> {
    var segs := SplitSlash(key);
    NonEmpty(segs[..|segs| - 1])
  }

  /** The folders with this name under this parent: one at most in a forest. */
  function Named(t: Table, parent: Option<Id>, name: string): set<Id> {
    set x | x in t && t[x].parent == parent && t[x].name == name
  }

  /** `dirs` is the path of names from the workspace root down to x. */
  predicate PathTo(t: Table, x: Option<Id>, dirs: seq<string>)
    decreases |dirs|
  {
    if dirs == [] then x == None
    else
      x.Some? && x.value in t && t[x.value].name == dirs[|dirs| - 1] && PathTo(t, t[x.value].parent, dirs[..|dirs| - 1])
  }

  /** u has every row of t unchanged. */
  ghost predicate Extends(t: Table, u: Table) { forall x :: x in t ==> x in u && u[x] == t[x] }

  ghost predicate Sound(s: State) { Forest(s.t) && forall x :: x in s.t ==> x < s.next }

  ghost predicate HasPath(t: Table, dirs: seq<string>) { exists x :: PathTo(t, x, dirs) }

  lemma PathOfParent(t: Table, dirs: seq<string>, seg: string)
    requires HasPath(t, dirs + [seg])
    ensures HasPath(t, dirs)
  {
    var x :| PathTo(t, x, dirs + [seg]);
    assert (dirs + [seg])[..|dirs|] == dirs;
    assert PathTo(t, t[x.value].parent, dirs);
  }

  lemma NamedFolderIsPath(t: Table, parent: Option<Id>, seg: string, dirs: seq<string>, id: Id)
    requires PathTo(t, parent, dirs) && id in Named(t, parent, seg)
    ensures PathTo(t, Some(id), dirs + [seg])
  {
    assert (dirs + [seg])[..|dirs|] == dirs;
  }

  lemma AddedFolderIsPath(s: State, parent: Option<Id>, seg: string, dirs: seq<string>)
    requires Sound(s) && PathTo(s.t, parent, dirs) && Named(s.t, parent, seg) == {}
    ensures var e := AddFolder(s, parent, seg);
            && Sound(e) && Extends(s.t, e.t) && PathTo(e.t, Some(s.next), dirs + [seg]) && !HasPath(s.t, dirs + [seg])
  {
    var e := AddFolder(s, parent, seg);
    ParentInTable(s.t, parent, dirs);
    forall x | x in s.t ensures !(s.t[x].parent == parent && s.t[x].name == seg) {
      assert x !in Named(s.t, parent, seg);
    }
    NewFolderKeepsForest(s.t, s.next, Folder(parent, seg));
    PathExtends(s.t, e.t, parent, dirs);
    NamedFolderIsPath(e.t, parent, seg, dirs, s.next);
    NoPathWithoutFolder(s.t, parent, seg, dirs);
  }

  lemma NoPathWithoutFolder(t: Table, parent: Option<Id>, seg: string, dirs: seq<string>)
    requires SiblingsUnique(t) && PathTo(t, parent, dirs) && Named(t, parent, seg) == {}
    ensures !HasPath(t, dirs + [seg])
  {
    assert (dirs + [seg])[..|dirs|] == dirs;
    forall x | PathTo(t, x, dirs + [seg]) ensures false {
      PathEndsNamed(t, x, seg, dirs);
      PathIsUnique(t, t[x.value].parent, parent, dirs);
    }
  }

  lemma PathEndsNamed(t: Table, x: Option<Id>, seg: string, dirs: seq<string>)
    requires PathTo(t, x, dirs + [seg])
    ensures x.Some? && x.value in t && x.value in Named(t, t[x.value].parent, seg) && PathTo(t, t[x.value].parent, dirs)
  {
    assert (dirs + [seg])[..|dirs|] == dirs;
  }

  /** s is s0 with, at most, folders added so that `dirs` leads to x; if it led
      anywhere in s0 already, nothing was added, and what was added lies on it. */
  ghost predicate Entered(s0: State, s: State, x: Option<Id>, dirs: seq<string>) {
    && Sound(s) && Extends(s0.t, s.t) && s.files == s0.files
    && PathTo(s.t, x, dirs) && (HasPath(s0.t, dirs) ==> s == s0)
    && forall y :: y in s.t && y !in s0.t ==> LiesOn(s.t, y, dirs)
  }

  /** y is one of the folders that `dirs` leads through. */
  ghost predicate LiesOn(t: Table, y: Id, dirs: seq<string>) {
    exists k :: 0 < k <= |dirs| && PathTo(t, Some(y), dirs[..k])
  }

  lemma StillLiesOn(t: Table, u: Table, y: Id, dirs: seq<string>, seg: string)
    requires Extends(t, u) && LiesOn(t, y, dirs)
    ensures LiesOn(u, y, dirs + [seg])
  {
    var k :| 0 < k <= |dirs| && PathTo(t, Some(y), dirs[..k]);
    PathExtends(t, u, Some(y), dirs[..k]);
    assert (dirs + [seg])[..k] == dirs[..k];
  }

  lemma EnterFurther(s0: State, s1: State, s2: State, x: Option<Id>, y: Option<Id>, dirs: seq<string>, seg: string)
    requires Entered(s0, s1, x, dirs) && Entered(s1, s2, y, dirs + [seg])
    ensures Entered(s0, s2, y, dirs + [seg])
  {
    if HasPath(s0.t, dirs + [seg]) { PathOfParent(s0.t, dirs, seg); }
    forall z | z in s2.t && z !in s0.t ensures LiesOn(s2.t, z, dirs + [seg]) {
      if z in s1.t { StillLiesOn(s1.t, s2.t, z, dirs, seg); }
    }
  }

  ghost function Pick(s: set<Id>): Id
    requires s != {}
  {
    var x :| x in s; x
  }

  /** One segment of the chain: the folder of that name, created if missing. */
  ghost function EnterState(s: State, parent: Option<Id>, seg: string): (State, Id) {
    var found := Named(s.t, parent, seg);
    if found != {} then (s, Pick(found)) else (AddFolder(s, parent, seg), s.next)
  }

  /** The whole chain: the state after it, and the deepest folder. */
  ghost function ChainState(s: State, dirs: seq<string>): (State, Option<Id>)
    decreases |dirs|
  {
    if dirs == [] then (s, None)
    else
      var (s1, parent) := ChainState(s, dirs[..|dirs| - 1]);
      var (s2, id) := EnterState(s1, parent, dirs[|dirs| - 1]);
      (s2, Some(id))
  }

  lemma {:induction false} ChainEnters(s: State, dirs: seq<string>)
    requires Sound(s)
    ensures Entered(s, ChainState(s, dirs).0, ChainState(s, dirs).1, dirs)
    decreases |dirs|
  {
    if dirs == [] {
      NothingEntered(s);
    } else {
      var init, seg := dirs[..|dirs| - 1], dirs[|dirs| - 1];
      assert init + [seg] == dirs;
      ChainEnters(s, init);
      var (s1, parent) := ChainState(s, init);
      EnterNext(s, s1, parent, init, seg);
      assert ChainState(s, dirs) == (EnterState(s1, parent, seg).0, Some(EnterState(s1, parent, seg).1));
    }
  }

  lemma NothingEntered(s: State)
    requires Sound(s)
    ensures Entered(s, s, None, [])
  {
  }

  lemma EnterNext(s: State, s1: State, parent: Option<Id>, init: seq<string>, seg: string)
    requires Entered(s, s1, parent, init)
    ensures Entered(s, EnterState(s1, parent, seg).0, Some(EnterState(s1, parent, seg).1), init + [seg])
  {
    EnterStateEnters(s1, parent, seg, init);
    EnterFurther(s, s1, EnterState(s1, parent, seg).0, parent, Some(EnterState(s1, parent, seg).1), init, seg);
  }

  lemma EnterStateEnters(s: State, parent: Option<Id>, seg: string, dirs: seq<string>)
    requires Sound(s) && PathTo(s.t, parent, dirs)
    ensures Entered(s, EnterState(s, parent, seg).0, Some(EnterState(s, parent, seg).1), dirs + [seg])
  {
    var found := Named(s.t, parent, seg);
    if found != {} {
      NamedFolderIsPath(s.t, parent, seg, dirs, Pick(found));
    } else {
      AddedFolderIsPath(s, parent, seg, dirs);
      LiesAtEnd(AddFolder(s, parent, seg).t, s.next, dirs + [seg]);
      AddedIsEntered(s, AddFolder(s, parent, seg), s.next, dirs + [seg]);
    }
  }

  lemma LiesAtEnd(t: Table, y: Id, dirs: seq<string>)
    requires PathTo(t, Some(y), dirs)
    ensures LiesOn(t, y, dirs)
  {
    assert dirs[..|dirs|] == dirs;
  }

  lemma AddedIsEntered(s: State, e: State, y: Id, dirs: seq<string>)
    requires Sound(e) && Extends(s.t, e.t) && e.files == s.files && PathTo(e.t, Some(y), dirs) && !HasPath(s.t, dirs)
    requires LiesOn(e.t, y, dirs) && e.t.Keys == s.t.Keys + {y}
    ensures Entered(s, e, Some(y), dirs)
  {
  }

  method EnterFolder(fs: FolderStore, parent: Option<Id>, seg: string) returns (id: Id)
    requires SiblingsUnique(fs.folders)
    modifies fs
    ensures (fs.View(), id) == EnterState(old(fs.View()), parent, seg)
  {
    var found := Named(fs.folders, parent, seg);
    if found != {} {
      id :| id in found;
      assert Pick(found) in found;
    } else {
      id := fs.next;
      fs.folders := fs.folders[id := Folder(parent, seg)];
      fs.next := id + 1;
    }
  }

  lemma NonEmptyStep(segs: seq<string>, i: nat)
    requires i < |segs|
    ensures NonEmpty(segs[..i + 1]) == NonEmpty(segs[..i]) + if segs[i] == "" then [] else [segs[i]]
  {
    assert segs[..i + 1][..i] == segs[..i];
  }

  /** resolveOrCreateFolderChain. */
  method ResolveOrCreateFolderChain(fs: FolderStore, key: string) returns (r: Option<Id>)
    requires Sound(fs.View())
    modifies fs
    ensures (fs.View(), r) == ChainState(old(fs.View()), Directories(key))
    ensures Entered(old(fs.View()), fs.View(), r, Directories(key))
  {
    var segs := SplitSlash(key);
    r := None;
    ChainEnters(fs.View(), Directories(key));
    if |segs| <= 1 {
      assert NonEmpty(segs[..0]) == [];
      return;
    }
    ghost var s0, dirs: seq<string> := fs.View(), [];
    for i := 0 to |segs| - 1
      invariant dirs == NonEmpty(segs[..i]) && (fs.View(), r) == ChainState(s0, dirs)
    {
      NonEmptyStep(segs, i);
      if segs[i] == "" { continue; }
      ChainEnters(s0, dirs);
      var id := EnterFolder(fs, r, segs[i]);
      assert (dirs + [segs[i]])[..|dirs|] == dirs;
      r := Some(id);
      dirs := dirs + [segs[i]];
    }
  }

  /** The chain for a key exists afterwards with the key's directories as its
      names, and what existed is untouched; resolving the key again returns the
      same folder and creates nothing. */
  lemma ResolvingTwiceIsOnce(s: State, dirs: seq<string>)
    requires Sound(s)
    ensures var (s1, x) := ChainState(s, dirs);
            && Sound(s1) && Extends(s.t, s1.t) && PathTo(s1.t, x, dirs)
            && ChainState(s1, dirs) == (s1, x)
  {
    var (s1, x) := ChainState(s, dirs);
    ChainEnters(s, dirs);
    ChainEnters(s1, dirs);
    PathIsUnique(s1.t, x, ChainState(s1, dirs).1, dirs);
  }

  lemma ParentInTable(t: Table, x: Option<Id>, dirs: seq<string>)
    requires PathTo(t, x, dirs)
    ensures x.Some? ==> x.value in t
  {
  }

  lemma {:induction false} PathExtends(t: Table, u: Table, x: Option<Id>, dirs: seq<string>)
    requires Extends(t, u) && PathTo(t, x, dirs)
    ensures PathTo(u, x, dirs)
    decreases |dirs|
  {
    if dirs != [] { PathExtends(t, u, t[x.value].parent, dirs[..|dirs| - 1]); }
  }

  lemma {:induction false} PathIsUnique(t: Table, x: Option<Id>, y: Option<Id>, dirs: seq<string>)
    requires SiblingsUnique(t) && PathTo(t, x, dirs) && PathTo(t, y, dirs)
    ensures x == y
    decreases |dirs|
  {
    if dirs != [] { PathIsUnique(t, t[x.value].parent, t[y.value].parent, dirs[..|dirs| - 1]); }
  }

  // ---------------------------------------------------------------------- FolderPath

  /** strings.Join(parts, "/"). */
  function JoinSlash(parts: seq<string>): string {
    if parts == [] then "" else if |parts| == 1 then parts[0] else parts[0] + "/" + JoinSlash(parts[1..])
  }

  /** The names from the root down to cur, if the walk meets only existing
      folders and at most `depth` of them. */
  function NamesTo(t: Table, cur: Option<Id>, depth: nat): Option<seq<string>>
    decreases depth
  {
    if cur.None? then Some([])
    else if cur.value !in t || depth == 0 then None
    else match NamesTo(t, t[cur.value].parent, depth - 1)
      case None => None
      case Some(names) => Some(names + [t[cur.value].name])
  }

  method FolderPath(t: Table, id: Id) returns (r: Option<string>)
    ensures r == match NamesTo(t, Some(id), 50) case None => None case Some(names) => Some(JoinSlash(names))
  {
    var parts: seq<string>, cur := [], Some(id);
    ghost var all := NamesTo(t, Some(id), MAX_DEPTH);
    assert all.Some? ==> all.value + [] == all.value;
    while cur.Some?
      invariant |parts| <= MAX_DEPTH
      invariant all == match NamesTo(t, cur, MAX_DEPTH - |parts|)
                       case None => None
                       case Some(names) => Some(names + parts)
      decreases MAX_DEPTH - |parts|, if cur.Some? then 1 else 0
    {
      if cur.value !in t { return None; }
      var f := t[cur.value];
      if |parts| < MAX_DEPTH {
        ghost var up := NamesTo(t, f.parent, MAX_DEPTH - |parts| - 1);
        assert up.Some? ==> up.value + ([f.name] + parts) == (up.value + [f.name]) + parts;
      }
      parts := [f.name] + parts;
      cur := f.parent;
      if |parts| > MAX_DEPTH { return None; }
    }
    assert [] + parts == parts;
    r := Some(JoinSlash(parts));
  }

  lemma {:induction false} NamesOfPath(t: Table, x: Option<Id>, dirs: seq<string>, depth: nat)
    requires PathTo(t, x, dirs)
    ensures NamesTo(t, x, depth) == if |dirs| <= depth then Some(dirs) else None
    decreases |dirs|
  {
    if dirs != [] && depth > 0 {
      NamesOfPath(t, t[x.value].parent, dirs[..|dirs| - 1], depth - 1);
      assert dirs == dirs[..|dirs| - 1] + [dirs[|dirs| - 1]];
    }
  }

  /** Walking a resolved chain back gives the key's directories joined by
      slashes, exactly when there are at most 50 of them. */
  method ChainRoundTrip(fs: FolderStore, key: string) returns (path: Option<string>)
    requires Sound(fs.View())
    modifies fs
    ensures path == if |Directories(key)| <= 50 then Some(JoinSlash(Directories(key))) else None
  {
    ChainEnters(fs.View(), Directories(key));
    var leaf := ResolveOrCreateFolderChain(fs, key);
    NamesOfPath(fs.folders, leaf, Directories(key), MAX_DEPTH);
    if leaf.None? { return Some(""); }
    path := FolderPath(fs.folders, leaf.value);
  }

  // ---------------------------------------------------------------- recursive delete

  /** The files table after every file under the folders `gone` moved to the root. */
  function Rehomed(files: map<Id, File>, gone: set<Id>): map<Id, File> {
    map f | f in files ::
        if files[f].folder.Some? && files[f].folder.value in gone then files[f].(folder := None) else files[f]
  }

  /** The partial UNIQUE index on the names of ready root files refuses this. */
  predicate RootNamesClash(files: map<Id, File>) {
    exists f, g :: f in files && g in files && f != g && files[f].ready && files[g].ready
                   && files[f].folder.None? && files[g].folder.None? && files[f].name == files[g].name
  }

  /** The delete goes through: the walk ends within the cap and no moved file's
      name is taken at the root. */
  ghost predicate Deletable(s: State, id: Id) {
    && !OnCycle(s.t, id) && |Subtree(s.t, id)| <= MAX_SUBTREE
    && !RootNamesClash(Rehomed(s.files, Subtree(s.t, id)))
  }

  ghost function DeleteFolderState(s: State, id: Id): State {
    s.(t := s.t - Subtree(s.t, id), files := Rehomed(s.files, Subtree(s.t, id)))
  }

  /** The file is at the root, or will be. */
  ghost predicate EndsAtRoot(f: File, gone: set<Id>) { f.folder.None? || f.folder.value in gone }

  /** No two ready files that end up at the root have one name. */
  ghost predicate NamesFitRoot(files: map<Id, File>, gone: set<Id>) {
    forall f, g ::
      (f in files && g in files && files[f].ready && files[g].ready && EndsAtRoot(files[f], gone)
       && EndsAtRoot(files[g], gone) && files[f].name == files[g].name) ==> f == g
  }

  /** The folders `gone` are gone and no file is in them: theirs are at the root,
      and apart from that every row is as it was. */
  ghost predicate SubtreeGone(s: State, s1: State, gone: set<Id>) {
    && (forall x :: x in s1.t <==> x in s.t && x !in gone) && (forall x :: x in s1.t ==> s1.t[x] == s.t[x])
    && s1.next == s.next && s1.files.Keys == s.files.Keys
    && (forall f :: f in s1.files ==> s1.files[f] == s.files[f].(folder := s1.files[f].folder))
    && (forall f :: f in s1.files ==>
          s1.files[f].folder == if EndsAtRoot(s.files[f], gone) then None else s.files[f].folder)
    && (forall f :: f in s1.files && s1.files[f].folder.Some? ==> s1.files[f].folder.value !in gone)
  }

  lemma ClashIff(files: map<Id, File>, gone: set<Id>)
    ensures RootNamesClash(Rehomed(files, gone)) <==> !NamesFitRoot(files, gone)
  {
    var moved := Rehomed(files, gone);
    assert forall f :: f in files ==> (EndsAtRoot(files[f], gone) <==> moved[f].folder.None?)
                                      && moved[f].ready == files[f].ready && moved[f].name == files[f].name;
  }

  lemma DeletedIs(s: State, id: Id)
    ensures SubtreeGone(s, DeleteFolderState(s, id), Subtree(s.t, id))
  {
  }

  /** DeleteFolder without with_files: the subtree goes, its files move to the
      root, nothing else changes; on any failure nothing changes. */
  method DeleteFolderRecursive(fs: FolderStore, id: Id) returns (r: Option<nat>)
    modifies fs
    ensures r.Some? <==>
              && id in old(fs.folders) && !OnCycle(old(fs.folders), id) && |Subtree(old(fs.folders), id)| <= 10_000
              && NamesFitRoot(old(fs.files), Subtree(old(fs.folders), id))
    ensures r.Some? ==> SubtreeGone(old(fs.View()), fs.View(), Subtree(old(fs.folders), id))
    ensures r.Some? <==> id in old(fs.folders) && Deletable(old(fs.View()), id)
    ensures r.Some? ==> fs.View() == DeleteFolderState(old(fs.View()), id) && r.value == |Subtree(old(fs.folders), id)|
    ensures r.None? ==> fs.View() == old(fs.View())
  {
    if id !in fs.folders { return None; }
    var ids := FolderSubtree(fs.folders, id);
    if ids.None? { return None; }
    var gone := Elements(ids.value);
    ClashIff(fs.files, gone);
    DeletedIs(fs.View(), id);
    var moved := Rehomed(fs.files, gone);
    if RootNamesClash(moved) { return None; }
    SizeOfElements(ids.value);
    fs.files := moved;
    fs.folders := fs.folders - gone;
    r := Some(|ids.value|);
  }

  // ---------------------------------------------------------------------- every run

  datatype Op =
    | Create(name: string, parent: Option<Id>)
    | Update(id: Id, name: string, parent: Option<Id>)
    | Chain(dirs: seq<string>)
    | DeleteRecursive(id: Id)
    | DeleteWithFiles(id: Id)

  ghost function Apply(s: State, op: Op): State {
    match op
    case Create(name, parent) =>
      if CreateResult(s, name, parent).Done? then AddFolder(s, parent, Trim(name)) else s
    case Update(id, name, parent) =>
      if UpdateResult(s, id, name, parent).Done? then s.(t := s.t[id := NewRow(s.t[id], name, parent)]) else s
    case Chain(dirs) => ChainState(s, dirs).0
    case DeleteRecursive(id) =>
      if id in s.t && Deletable(s, id) then DeleteFolderState(s, id) else s
    case DeleteWithFiles(id) =>
      var gone := Subtree(s.t, id);
      if id in s.t && !OnCycle(s.t, id) && |gone| <= MAX_SUBTREE
      then s.(t := s.t - gone, files := s.files - InFolders(s.files, gone)) else s
  }

  /** The files directly in one of these folders. */
  function InFolders(files: map<Id, File>, folders: set<Id>): set<Id> {
    set f | f in files && files[f].folder.Some? && files[f].folder.value in folders
  }

  lemma CreateKeepsSound(s: State, name: string, parent: Option<Id>)
    requires Sound(s) && CreateResult(s, name, parent).Done?
    ensures Sound(AddFolder(s, parent, Trim(name)))
  {
    NewFolderKeepsForest(s.t, s.next, Folder(parent, Trim(name)));
  }

  lemma UpdateKeepsSound(s: State, id: Id, name: string, parent: Option<Id>)
    requires Sound(s) && UpdateResult(s, id, name, parent).Done?
    ensures Sound(s.(t := s.t[id := NewRow(s.t[id], name, parent)]))
  {
    var f := NewRow(s.t[id], name, parent);
    if parent.None? && f.parent.Some? { OwnParentIsOutside(s.t, id); }
    SetRowKeepsForest(s.t, id, f);
  }

  lemma OwnParentIsOutside(t: Table, id: Id)
    requires Forest(t) && id in t && t[id].parent.Some?
    ensures t[id].parent.value in t && t[id].parent.value !in Subtree(t, id)
  {
    var p := t[id].parent.value;
    ForestIsAcyclic(t, id);
    assert id in Children(t, p);
    if p in Subtree(t, id) { ChildIsBelow(t, id, p, id); }
  }

  /** No operation breaks the forest. */
  lemma StepKeepsSound(s: State, op: Op)
    requires Sound(s)
    ensures Sound(Apply(s, op))
  {
    match op
    case Create(name, parent) => if CreateResult(s, name, parent).Done? { CreateKeepsSound(s, name, parent); }
    case Update(id, name, parent) =>
      if UpdateResult(s, id, name, parent).Done? { UpdateKeepsSound(s, id, name, parent); }
    case Chain(dirs) => ChainEnters(s, dirs);
    case DeleteRecursive(id) => if id in s.t && Deletable(s, id) { DropSubtreeKeepsForest(s.t, id); }
    case DeleteWithFiles(id) => if id in s.t { DropSubtreeKeepsForest(s.t, id); }
  }

  ghost function Run(s: State, ops: seq<Op>): State
    decreases |ops|
  {
    if ops == [] then s else Apply(Run(s, ops[..|ops| - 1]), ops[|ops| - 1])
  }

  /** Every run of folder operations from an empty tenant keeps an acyclic
      forest with existing parents and unique sibling names. */
  lemma {:induction false} EveryRunIsAForest(files: map<Id, File>, next: Id, ops: seq<Op>)
    ensures Sound(Run(State(map[], files, next), ops))
    decreases |ops|
  {
    if ops != [] {
      EveryRunIsAForest(files, next, ops[..|ops| - 1]);
      StepKeepsSound(Run(State(map[], files, next), ops[..|ops| - 1]), ops[|ops| - 1]);
    }
  }

  /** In a forest the guard on a move refuses exactly the folder's own subtree
      (and everything when the subtree exceeds the cap). */
  lemma GuardIsExact(s: State, id: Id, p: Id)
    requires Sound(s) && id in s.t && p in s.t
    ensures MayMove(s.t, id, p) <==> |Subtree(s.t, id)| <= MAX_SUBTREE && p != id && !HasAncestor(s.t, p, id)
    ensures UpdateResult(s, id, "", Some(p)).Done? <==>
              MayMove(s.t, id, p) && !NameUsed(s.t, Some(p), s.t[id].name, Some(id))
  {
    ForestIsAcyclic(s.t, id);
  }

  /** Without the guard a move into the subtree does close a cycle. */
  lemma UnguardedMoveClosesCycle(t: Table, id: Id, p: Id, name: string)
    requires id in t && p in t && !OnCycle(t, id) && HasAncestor(t, p, id)
    ensures OnCycle(t[id := Folder(Some(p), name)], id)
  {
    var u := t[id := Folder(Some(p), name)];
    var n: nat :| n > 0 && Up(t, p, n) == Some(id);
    var first := FirstMeeting(t, p, id, n);
    UpAvoids(t, u, p, {id}, first);
    assert Up(u, id, 0) == Some(id) && Up(u, id, 1) == Some(p);
    UpAdds(u, id, 1, first);
  }

  // ------------------------------------------------------------------ shared folders

  /** resolveSharedFile: the file a link with this target (a file, else a
      folder) may serve for the requested file id, if any. */
  method ResolveSharedFile(fs: FolderStore, fileTarget: Option<Id>, folderTarget: Id, requested: Option<Id>)
    returns (r: Option<Id>)
    ensures r.Some? ==> r.value in fs.files && fs.files[r.value].ready
    ensures fileTarget.Some? ==>
              (r.Some? <==>
                 (requested.None? || requested == fileTarget) && fileTarget.value in fs.files
                 && fs.files[fileTarget.value].ready)
              && (r.Some? ==> r == fileTarget)
    ensures fileTarget.None? ==>
              (r.Some? <==> InFolderScope(fs.View(), folderTarget, requested)) && (r.Some? ==> r == requested)
  {
    var target := if requested.Some? then requested else fileTarget;
    if target.None? { return None; }
    if target.value !in fs.files || !fs.files[target.value].ready { return None; }
    var f := fs.files[target.value];
    if fileTarget.Some? {
      return if target == fileTarget then target else None;
    }
    if f.folder.None? { return None; }
    var ids := FolderSubtree(fs.folders, folderTarget);
    if ids.None? { return None; }
    assert f.folder.value in ids.value <==> f.folder.value in Elements(ids.value);
    r := if f.folder.value in ids.value then target else None;
  }

  /** A folder link serves exactly the ready files in its folder's subtree. */
  ghost predicate InFolderScope(s: State, folder: Id, requested: Option<Id>) {
    && requested.Some? && requested.value in s.files && s.files[requested.value].ready
    && s.files[requested.value].folder.Some? && s.files[requested.value].folder.value in Subtree(s.t, folder)
    && !OnCycle(s.t, folder) && |Subtree(s.t, folder)| <= MAX_SUBTREE
  }
}
