/** The tree walk of FTPSession::GetDirectoryHierarchy (FTPSession.cpp:252-323): which
    ancestor directories must be listed before the requested one, or whether the request
    is refused because a segment is definitely absent from an already listed directory. */
module Hierarchy {
  import opened Common
  import opened RemotePaths
  import opened FileTree

  /** The loop of GetDirectoryHierarchy from segment `i` on, with `cur` the node the walk
      stands on (None once it has left the known tree) and `acc` the depths whose
      directory paths have been pushed onto `parentDirs` so far. The result is the final
      list of pushed depths (before the closing pop_back), or None when the walk returns 1.
      Depth `d` stands for the path DirPath(segs[..d]). */
  function Walk(nodes: seq<FileNode>, cur: Option<nat>, segs: seq<string>, i: nat, acc: seq<nat>): Option<seq<nat>>
    requires WellFormed(nodes) && (cur.Some? ==> cur.value < |nodes|) && i <= |segs|
    decreases |segs| - i
  {
    if i == |segs| then Some(acc)
    else
      var next := if cur.Some? then ChildByName(nodes, cur.value, segs[i]) else None;
      if cur.Some? && next.Some? && nodes[next.value].hasData then
        // known child with a tree item: descend without fetching
        Walk(nodes, next, segs, i + 1, acc)
      else if cur.Some? && next.None? && |nodes[cur.value].children| > 0 then
        // the directory was listed and the child is not in it
        None
      else
        // first unknown level: remember where the walk stood, then this level
        Walk(nodes, next, segs, i + 1, (if acc == [] then [i] else acc) + [i + 1])
  }

  /** The depths the listing operation finally carries: all pushed ones but the last. */
  function PrefetchDepths(ds: seq<nat>): seq<nat> {
    if ds == [] then [] else ds[..|ds| - 1]
  }

  /** The directory paths of a list of depths. */
  function DirPaths(segs: seq<string>, ds: seq<nat>): seq<string>
    requires forall j :: 0 <= j < |ds| ==> ds[j] <= |segs|
  {
    seq(|ds|, j requires 0 <= j < |ds| => DirPath(segs[..ds[j]]))
  }

  predicate Increasing(ds: seq<nat>) {
    forall a, b :: 0 <= a < b < |ds| ==> ds[a] < ds[b]
  }

  /** lo, lo+1, ..., hi-1. */
  function Range(lo: nat, hi: nat): (r: seq<nat>)
    requires lo <= hi
    ensures |r| == hi - lo && forall j :: 0 <= j < |r| ==> r[j] == lo + j
  {
    seq(hi - lo, j requires 0 <= j < hi - lo => lo + j)
  }

  /** The walk refuses at segment `j`: it stands on a listed directory (one with children)
      that has no child of that name. */
  ghost predicate Blocked(nodes: seq<FileNode>, root: nat, segs: seq<string>, j: nat)
    requires WellFormed(nodes) && root < |nodes|
  {
    && j < |segs|
    && var c := Lookup(nodes, root, segs[..j]);
    && c.Some?
    && |nodes[c.value].children| > 0
    && ChildByName(nodes, c.value, segs[j]).None?
  }

  /** From depth `i` on, how many further segments are known children carrying a tree item. */
  function KnownDepthFrom(nodes: seq<FileNode>, root: nat, segs: seq<string>, i: nat): (k: nat)
    requires WellFormed(nodes) && root < |nodes| && i <= |segs|
    ensures i <= k <= |segs|
    decreases |segs| - i
  {
    if i == |segs| then i
    else
      match Lookup(nodes, root, segs[..i + 1])
      case None => i
      case Some(c) => if nodes[c].hasData then KnownDepthFrom(nodes, root, segs, i + 1) else i
  }

  /** The deepest prefix all of whose nodes are known and carry a tree item. */
  function KnownDepth(nodes: seq<FileNode>, root: nat, segs: seq<string>): nat
    requires WellFormed(nodes) && root < |nodes|
  {
    KnownDepthFrom(nodes, root, segs, 0)
  }

  /** The walk stands, at depth i, where Lookup of the first i segments ends. */
  lemma NextStep(nodes: seq<FileNode>, root: nat, segs: seq<string>, i: nat)
    requires WellFormed(nodes) && root < |nodes| && i < |segs|
    ensures Lookup(nodes, root, segs[..i + 1]) ==
      var cur := Lookup(nodes, root, segs[..i]);
      if cur.Some? then ChildByName(nodes, cur.value, segs[i]) else None
  {
    assert segs[..i + 1] == segs[..i] + [segs[i]];
    LookupAppend(nodes, root, segs[..i], segs[i]);
  }

  lemma {:induction false} WalkNoneIff(nodes: seq<FileNode>, root: nat, segs: seq<string>, i: nat, acc: seq<nat>)
    requires WellFormed(nodes) && root < |nodes| && i <= |segs|
    ensures Walk(nodes, Lookup(nodes, root, segs[..i]), segs, i, acc).None? <==>
      exists j :: i <= j < |segs| && Blocked(nodes, root, segs, j)
    decreases |segs| - i
  {
    if i < |segs| {
      NextStep(nodes, root, segs, i);
      WalkNoneIff(nodes, root, segs, i + 1, acc);
      WalkNoneIff(nodes, root, segs, i + 1, (if acc == [] then [i] else acc) + [i + 1]);
      if Blocked(nodes, root, segs, i) {
        assert Walk(nodes, Lookup(nodes, root, segs[..i]), segs, i, acc).None?;
      }
    }
  }

  /** GetDirectoryHierarchy returns 1 exactly when some segment is missing from a directory
      the tree has children for; otherwise it queues a listing. */
  lemma HierarchyRefusedIff(nodes: seq<FileNode>, root: nat, segs: seq<string>)
    requires WellFormed(nodes) && root < |nodes|
    ensures Walk(nodes, Some(root), segs, 0, []).None? <==>
      exists j :: 0 <= j < |segs| && Blocked(nodes, root, segs, j)
  {
    assert segs[..0] == [];
    WalkNoneIff(nodes, root, segs, 0, []);
  }

  /** A strictly increasing list stays so when a larger depth is appended. */
  lemma IncreasingSnoc(ds: seq<nat>, d: nat)
    requires Increasing(ds) && (ds != [] ==> ds[|ds| - 1] < d)
    ensures Increasing(ds + [d])
  {
    var e := ds + [d];
    forall a, b | 0 <= a < b < |e| ensures e[a] < e[b] {
      if b < |ds| {
        assert e[a] == ds[a] && e[b] == ds[b];
      } else if a < |ds| - 1 {
        assert e[a] == ds[a] < ds[|ds| - 1];
      }
    }
  }

  /** After the first push, the list only grows, stays strictly increasing and never
      passes the full depth. */
  lemma {:induction false} WalkAfterPush(nodes: seq<FileNode>, cur: Option<nat>, segs: seq<string>, i: nat, acc: seq<nat>)
    requires WellFormed(nodes) && (cur.Some? ==> cur.value < |nodes|) && i <= |segs|
    requires acc != [] && Increasing(acc) && acc[|acc| - 1] <= i
    ensures var w := Walk(nodes, cur, segs, i, acc);
      w.Some? ==> |w.value| >= |acc| && w.value[..|acc|] == acc && Increasing(w.value)
                  && w.value[|w.value| - 1] <= |segs|
    decreases |segs| - i
  {
    if i < |segs| {
      var next := if cur.Some? then ChildByName(nodes, cur.value, segs[i]) else None;
      var acc' := acc + [i + 1];
      IncreasingSnoc(acc, i + 1);
      WalkAfterPush(nodes, next, segs, i + 1, acc);
      WalkAfterPush(nodes, next, segs, i + 1, acc');
      var w := Walk(nodes, cur, segs, i, acc);
      if w.Some? && w == Walk(nodes, next, segs, i + 1, acc') {
        assert w.value[..|acc|] == w.value[..|acc'|][..|acc|];
      }
    }
  }

  /** Before the first push: the pushed list stays empty exactly when every remaining
      segment is known with a tree item. */
  lemma {:induction false} WalkBeforePushEmpty(nodes: seq<FileNode>, root: nat, segs: seq<string>, i: nat)
    requires WellFormed(nodes) && root < |nodes| && i <= |segs|
    ensures var w := Walk(nodes, Lookup(nodes, root, segs[..i]), segs, i, []);
      w.Some? ==> (w.value == [] <==> KnownDepthFrom(nodes, root, segs, i) == |segs|)
    decreases |segs| - i
  {
    if i < |segs| {
      NextStep(nodes, root, segs, i);
      var cur := Lookup(nodes, root, segs[..i]);
      var next := Lookup(nodes, root, segs[..i + 1]);
      if cur.Some? && next.Some? && nodes[next.value].hasData {
        WalkBeforePushEmpty(nodes, root, segs, i + 1);
      } else if !(cur.Some? && next.None? && |nodes[cur.value].children| > 0) {
        WalkAfterPush(nodes, next, segs, i + 1, [i, i + 1]);
        assert [i] + [i + 1] == [i, i + 1];
      }
    }
  }

  /** Before the first push: a non-empty pushed list starts at the first depth that is not
      known with a tree item, rises strictly and ends at most at the full depth. */
  lemma {:induction false} WalkBeforePush(nodes: seq<FileNode>, root: nat, segs: seq<string>, i: nat)
    requires WellFormed(nodes) && root < |nodes| && i <= |segs|
    ensures var w := Walk(nodes, Lookup(nodes, root, segs[..i]), segs, i, []);
      w.Some? && w.value != [] ==>
        |w.value| >= 2 && w.value[0] == KnownDepthFrom(nodes, root, segs, i) && Increasing(w.value)
        && w.value[|w.value| - 1] <= |segs|
    decreases |segs| - i
  {
    if i < |segs| {
      NextStep(nodes, root, segs, i);
      var cur := Lookup(nodes, root, segs[..i]);
      var next := Lookup(nodes, root, segs[..i + 1]);
      var w := Walk(nodes, cur, segs, i, []);
      if cur.Some? && next.Some? && nodes[next.value].hasData {
        WalkBeforePush(nodes, root, segs, i + 1);
        assert w == Walk(nodes, next, segs, i + 1, []);
      } else if !(cur.Some? && next.None? && |nodes[cur.value].children| > 0) {
        WalkAfterPush(nodes, next, segs, i + 1, [i, i + 1]);
        assert [i] + [i + 1] == [i, i + 1];
        assert w == Walk(nodes, next, segs, i + 1, [i, i + 1]);
        assert KnownDepthFrom(nodes, root, segs, i) == i;
        if w.Some? {
          assert w.value[0] == w.value[..2][0];
        }
      }
    }
  }

  /** The shape of the prefetch list GetDirectoryHierarchy hands to the listing operation:
      empty exactly when every segment is known with a tree item; otherwise it starts at
      the deepest such prefix, rises strictly, and holds only proper prefixes of the path. */
  lemma HierarchyPrefetchShape(nodes: seq<FileNode>, root: nat, segs: seq<string>)
    requires WellFormed(nodes) && root < |nodes|
    requires Walk(nodes, Some(root), segs, 0, []).Some?
    ensures var pd := PrefetchDepths(Walk(nodes, Some(root), segs, 0, []).value);
      && (pd == [] <==> KnownDepth(nodes, root, segs) == |segs|)
      && (pd != [] ==> pd[0] == KnownDepth(nodes, root, segs))
      && Increasing(pd)
      && forall j :: 0 <= j < |pd| ==> pd[j] < |segs|
  {
    assert segs[..0] == [];
    WalkBeforePushEmpty(nodes, root, segs, 0);
    WalkBeforePush(nodes, root, segs, 0);
    var ds := Walk(nodes, Some(root), segs, 0, []).value;
    if ds != [] {
      var pd := PrefetchDepths(ds);
      forall j | 0 <= j < |pd| ensures pd[j] < |segs| {
        assert pd[j] == ds[j] < ds[|ds| - 1];
      }
    }
  }

  /** Once the walk has left the known tree, every further level is pushed. */
  lemma {:induction false} WalkOffTree(nodes: seq<FileNode>, segs: seq<string>, i: nat, acc: seq<nat>)
    requires WellFormed(nodes) && i <= |segs|
    requires acc != []
    ensures Walk(nodes, None, segs, i, acc) == Some(acc + Range(i + 1, |segs| + 1))
    decreases |segs| - i
  {
    if i == |segs| {
      assert Range(i + 1, |segs| + 1) == [];
      assert acc + [] == acc;
    } else {
      WalkOffTree(nodes, segs, i + 1, acc + [i + 1]);
      assert (acc + [i + 1]) + Range(i + 2, |segs| + 1) == acc + Range(i + 1, |segs| + 1);
    }
  }

  /** Known levels are skipped over without pushing anything. */
  lemma {:induction false} WalkSkipsKnown(nodes: seq<FileNode>, root: nat, segs: seq<string>, i: nat)
    requires WellFormed(nodes) && root < |nodes| && i <= |segs|
    ensures var k := KnownDepthFrom(nodes, root, segs, i);
      Walk(nodes, Lookup(nodes, root, segs[..i]), segs, i, []) ==
      Walk(nodes, Lookup(nodes, root, segs[..k]), segs, k, [])
    decreases |segs| - i
  {
    if i < |segs| {
      NextStep(nodes, root, segs, i);
      WalkSkipsKnown(nodes, root, segs, i + 1);
    }
  }

  /** The case the listing operation was built for: the walk knows every level down to
      depth k, and the directory there has never been listed (it has no children). Then
      the prefetch list is exactly "/t1/.../tk/", "/t1/.../t(k+1)/", ..., one directory
      per level, down to the parent of the requested path. */
  lemma HierarchyUnlisted(nodes: seq<FileNode>, root: nat, segs: seq<string>)
    requires WellFormed(nodes) && root < |nodes|
    requires KnownDepth(nodes, root, segs) < |segs|
    requires Lookup(nodes, root, segs[..KnownDepth(nodes, root, segs)]).Some?
    requires |nodes[Lookup(nodes, root, segs[..KnownDepth(nodes, root, segs)]).value].children| == 0
    ensures var k := KnownDepth(nodes, root, segs);
      && Walk(nodes, Some(root), segs, 0, []) == Some(Range(k, |segs| + 1))
      && PrefetchDepths(Range(k, |segs| + 1)) == Range(k, |segs|)
      && |DirPaths(segs, Range(k, |segs|))| == |segs| - k
      && forall j :: 0 <= j < |segs| - k ==> DirPaths(segs, Range(k, |segs|))[j] == DirPath(segs[..k + j])
  {
    var k := KnownDepth(nodes, root, segs);
    var n := |segs|;
    assert segs[..0] == [];
    WalkSkipsKnown(nodes, root, segs, 0);
    assert Lookup(nodes, root, segs[..0]) == Some(root);
    var c := Lookup(nodes, root, segs[..k]).value;
    assert ChildByName(nodes, c, segs[k]).None?;
    assert [k] + [k + 1] == [k, k + 1];
    assert Walk(nodes, Some(c), segs, k, []) == Walk(nodes, None, segs, k + 1, [k, k + 1]);
    WalkOffTree(nodes, segs, k + 1, [k, k + 1]);
    assert [k, k + 1] + Range(k + 2, n + 1) == Range(k, n + 1);
    assert Range(k, n + 1)[..n - k] == Range(k, n);
  }

  /** Every pushed depth is a depth of the path. */
  lemma {:induction false} WalkBounded(nodes: seq<FileNode>, cur: Option<nat>, segs: seq<string>, i: nat, acc: seq<nat>)
    requires WellFormed(nodes) && (cur.Some? ==> cur.value < |nodes|) && i <= |segs|
    requires forall j :: 0 <= j < |acc| ==> acc[j] <= i
    ensures var w := Walk(nodes, cur, segs, i, acc);
      w.Some? ==> forall j :: 0 <= j < |w.value| ==> w.value[j] <= |segs|
    decreases |segs| - i
  {
    if i < |segs| {
      var next := if cur.Some? then ChildByName(nodes, cur.value, segs[i]) else None;
      WalkBounded(nodes, next, segs, i + 1, acc);
      WalkBounded(nodes, next, segs, i + 1, (if acc == [] then [i] else acc) + [i + 1]);
    }
  }

  /** What GetDirectoryHierarchy asks for when the walk starts at `root`: None when it
      refuses (returns 1), otherwise the parent directories the listing operation carries. */
  function HierarchyRequest(nodes: seq<FileNode>, root: nat, segs: seq<string>): (r: Option<seq<string>>)
    requires WellFormed(nodes) && root < |nodes|
    ensures r.None? <==> exists j :: 0 <= j < |segs| && Blocked(nodes, root, segs, j)
  {
    HierarchyRefusedIff(nodes, root, segs);
    match Walk(nodes, Some(root), segs, 0, [])
    case None => None
    case Some(ds) =>
      WalkBounded(nodes, Some(root), segs, 0, []);
      Some(DirPaths(segs, PrefetchDepths(ds)))
  }

  /** Every directory in the prefetch list splits back into the segments it covers. */
  lemma PrefetchPathsSplit(segs: seq<string>, d: nat)
    requires AllSegments(segs) && d <= |segs|
    ensures Tokens(DirPath(segs[..d])) == segs[..d]
  {
    assert AllSegments(segs[..d]);
    TokensOfDirPath(segs[..d]);
  }

  /** Every entry of a list of directory paths is rooted, ends in '/', and splits back into
      the first ds[j] segments: the list holds one directory per depth, in order. */
  lemma DirPathsSplit(segs: seq<string>, ds: seq<nat>)
    requires AllSegments(segs) && forall j :: 0 <= j < |ds| ==> ds[j] <= |segs|
    ensures var ps := DirPaths(segs, ds);
      && |ps| == |ds|
      && forall j :: 0 <= j < |ds| ==>
           |ps[j]| > 0 && ps[j][0] == '/' && ps[j][|ps[j]| - 1] == '/' && Tokens(ps[j]) == segs[..ds[j]]
  {
    var ps := DirPaths(segs, ds);
    forall j | 0 <= j < |ds|
      ensures |ps[j]| > 0 && ps[j][0] == '/' && ps[j][|ps[j]| - 1] == '/' && Tokens(ps[j]) == segs[..ds[j]]
    {
      PrefetchPathsSplit(segs, ds[j]);
    }
  }

  /** One more depth is one more directory path. */
  lemma DirPathsSnoc(segs: seq<string>, ds: seq<nat>, d: nat)
    requires (forall j :: 0 <= j < |ds| ==> ds[j] <= |segs|) && d <= |segs|
    ensures DirPaths(segs, ds + [d]) == DirPaths(segs, ds) + [DirPath(segs[..d])]
  {
  }

  /** Appending "segment/" to the directory path of a prefix gives the next one. */
  lemma DirPathNext(segs: seq<string>, i: nat)
    requires i < |segs|
    ensures DirPath(segs[..i]) + segs[i] + "/" == DirPath(segs[..i + 1])
  {
    assert segs[..i + 1][..i] == segs[..i];
  }

  /** Dropping the last directory path is dropping the last depth. */
  lemma DirPathsPop(segs: seq<string>, ds: seq<nat>)
    requires forall j :: 0 <= j < |ds| ==> ds[j] <= |segs|
    ensures ds != [] ==> DirPaths(segs, ds)[..|ds| - 1] == DirPaths(segs, PrefetchDepths(ds))
    ensures ds == [] ==> DirPaths(segs, PrefetchDepths(ds)) == []
  {
  }

  /** The depths pushed at an unknown level: the level the walk stood on when nothing was
      pushed yet, then the level below. */
  function Pushed(acc: seq<nat>, i: nat): seq<nat> {
    (if acc == [] then [i] else acc) + [i + 1]
  }

  /** At a level that is neither a known child with a tree item nor refused, the walk pushes
      and goes on from the child (or from outside the known tree). */
  lemma WalkPushes(nodes: seq<FileNode>, cur: Option<nat>, segs: seq<string>, i: nat, acc: seq<nat>)
    requires WellFormed(nodes) && (cur.Some? ==> cur.value < |nodes|) && i < |segs|
    requires var next := if cur.Some? then ChildByName(nodes, cur.value, segs[i]) else None;
      !(cur.Some? && next.Some? && nodes[next.value].hasData) &&
      !(cur.Some? && next.None? && |nodes[cur.value].children| > 0)
    ensures var next := if cur.Some? then ChildByName(nodes, cur.value, segs[i]) else None;
      Walk(nodes, cur, segs, i, acc) == Walk(nodes, next, segs, i + 1, Pushed(acc, i))
  {
  }

  /** At a known child with a tree item the walk descends without pushing. */
  lemma WalkDescends(nodes: seq<FileNode>, c: nat, segs: seq<string>, i: nat, acc: seq<nat>)
    requires WellFormed(nodes) && c < |nodes| && i < |segs|
    requires ChildByName(nodes, c, segs[i]).Some? && nodes[ChildByName(nodes, c, segs[i]).value].hasData
    ensures Walk(nodes, Some(c), segs, i, acc) == Walk(nodes, ChildByName(nodes, c, segs[i]), segs, i + 1, acc)
  {
  }

  /** At a listed directory without a child of the segment's name the walk refuses. */
  lemma WalkRefuses(nodes: seq<FileNode>, c: nat, segs: seq<string>, i: nat, acc: seq<nat>)
    requires WellFormed(nodes) && c < |nodes| && i < |segs|
    requires ChildByName(nodes, c, segs[i]).None? && |nodes[c].children| > 0
    ensures Walk(nodes, Some(c), segs, i, acc).None?
  {
  }

  /** What the listing request is once the walk is known to end with the depths `ds`. */
  lemma RequestOfWalk(nodes: seq<FileNode>, root: nat, segs: seq<string>, ds: seq<nat>)
    requires WellFormed(nodes) && root < |nodes|
    requires Walk(nodes, Some(root), segs, 0, []) == Some(ds)
    ensures forall j :: 0 <= j < |ds| ==> ds[j] <= |segs|
    ensures HierarchyRequest(nodes, root, segs) == Some(DirPaths(segs, PrefetchDepths(ds)))
  {
    WalkBounded(nodes, Some(root), segs, 0, []);
  }

  /** The paths pushed at an unknown level are the paths of the depths pushed there. */
  lemma PushedPaths(segs: seq<string>, acc: seq<nat>, i: nat)
    requires (forall j :: 0 <= j < |acc| ==> acc[j] <= i) && i < |segs|
    ensures (if acc == [] then [DirPath(segs[..i])] else DirPaths(segs, acc)) + [DirPath(segs[..i + 1])]
      == DirPaths(segs, Pushed(acc, i))
  {
    if acc == [] {
      DirPathsSnoc(segs, [], i);
      DirPathsSnoc(segs, [i], i + 1);
    } else {
      DirPathsSnoc(segs, acc, i + 1);
    }
  }

  /** The loop of GetDirectoryHierarchy over the segments of the requested path, from the
      root: None where it returns 1, otherwise the parent directories it queues. */
  method PlanHierarchy(nodes: seq<FileNode>, root: nat, segs: seq<string>) returns (r: Option<seq<string>>)
    requires WellFormed(nodes) && root < |nodes|
    ensures r == HierarchyRequest(nodes, root, segs)
  {
    var current: Option<nat> := Some(root);
    var currentPath := "/";
    var parentDirs: seq<string> := [];
    ghost var depths: seq<nat> := [];
    var i := 0;
    ghost var walk := Walk(nodes, Some(root), segs, 0, []);
    while i < |segs|
      invariant 0 <= i <= |segs|
      invariant current.Some? ==> current.value < |nodes|
      invariant currentPath == DirPath(segs[..i])
      invariant forall j :: 0 <= j < |depths| ==> depths[j] <= i
      invariant parentDirs == DirPaths(segs, depths)
      invariant walk == Walk(nodes, current, segs, i, depths)
    {
      var pathEntry := segs[i];
      var next := currentPath + pathEntry + "/";
      DirPathNext(segs, i);
      ghost var cur0 := current;
      var descend := false;
      if current.Some? {
        var childCount := |nodes[current.value].children|;
        current := ChildByName(nodes, current.value, pathEntry);
        if current.Some? && nodes[current.value].hasData {
          // a known child with a tree item: descend without fetching
          WalkDescends(nodes, cur0.value, segs, i, depths);
          descend := true;
        } else if current.None? && childCount > 0 {
          WalkRefuses(nodes, cur0.value, segs, i, depths);
          return None;
        }
      }
      if !descend {
        WalkPushes(nodes, cur0, segs, i, depths);
        PushedPaths(segs, depths, i);
        if parentDirs == [] {
          parentDirs := parentDirs + [currentPath];
        }
        parentDirs := parentDirs + [next];
        depths := Pushed(depths, i);
      }
      currentPath := next;
      i := i + 1;
    }
    if |parentDirs| > 0 {
      parentDirs := parentDirs[..|parentDirs| - 1];
    }
    assert walk == Some(depths);
    RequestOfWalk(nodes, root, segs, depths);
    DirPathsPop(segs, depths);
    return Some(parentDirs);
  }
}
