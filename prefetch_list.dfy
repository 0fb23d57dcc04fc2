/** The exact list of directories GetDirectoryHierarchy pushes (FTPSession.cpp:271-310), and
    what its closing pop_back (FTPSession.cpp:312-316) removes from it. */
module PrefetchList {
  import opened Common
  import opened RemotePaths
  import opened FileTree
  import opened Hierarchy

  /** Depth `d` is known: the first `d` segments lead to a node that carries a tree item. */
  predicate Known(nodes: seq<FileNode>, root: nat, segs: seq<string>, d: nat)
    requires WellFormed(nodes) && root < |nodes| && d <= |segs|
  {
    var c := Lookup(nodes, root, segs[..d]);
    c.Some? && nodes[c.value].hasData
  }

  /** Following the path from `cur` at depth `i`: the deeper depths whose node is not a known
      child carrying a tree item, shallowest first. */
  function UnknownBelow(nodes: seq<FileNode>, cur: Option<nat>, segs: seq<string>, i: nat): seq<nat>
    requires WellFormed(nodes) && (cur.Some? ==> cur.value < |nodes|) && i <= |segs|
    decreases |segs| - i
  {
    if i == |segs| then []
    else
      var next := if cur.Some? then ChildByName(nodes, cur.value, segs[i]) else None;
      (if next.Some? && nodes[next.value].hasData then [] else [i + 1]) + UnknownBelow(nodes, next, segs, i + 1)
  }

  /** Prepending a depth below every entry keeps a list strictly increasing. */
  lemma IncreasingCons(d: nat, ds: seq<nat>)
    requires Increasing(ds) && forall j :: 0 <= j < |ds| ==> d < ds[j]
    ensures Increasing([d] + ds)
  {
    var e := [d] + ds;
    forall a, b | 0 <= a < b < |e| ensures e[a] < e[b] {
      assert e[b] == ds[b - 1];
      if a > 0 {
        assert e[a] == ds[a - 1];
      }
    }
  }

  /** UnknownBelow lists depths past `i` and up to the full path, strictly increasing. */
  lemma {:induction false} UnknownBelowRises(nodes: seq<FileNode>, cur: Option<nat>, segs: seq<string>, i: nat)
    requires WellFormed(nodes) && (cur.Some? ==> cur.value < |nodes|) && i <= |segs|
    ensures var r := UnknownBelow(nodes, cur, segs, i);
      (forall j :: 0 <= j < |r| ==> i < r[j] <= |segs|) && Increasing(r)
    decreases |segs| - i
  {
    if i < |segs| {
      var next := if cur.Some? then ChildByName(nodes, cur.value, segs[i]) else None;
      UnknownBelowRises(nodes, next, segs, i + 1);
      var rest := UnknownBelow(nodes, next, segs, i + 1);
      if !(next.Some? && nodes[next.value].hasData) {
        IncreasingCons(i + 1, rest);
        var r := [i + 1] + rest;
        assert forall j :: 1 <= j < |r| ==> r[j] == rest[j - 1];
      }
    }
  }

  /** Walking from where the first `i` segments lead, UnknownBelow lists exactly the depths
      past `i` that are not known. */
  lemma {:induction false} UnknownBelowSpec(nodes: seq<FileNode>, root: nat, segs: seq<string>, i: nat)
    requires WellFormed(nodes) && root < |nodes| && i <= |segs|
    ensures forall j :: 0 <= j < |UnknownBelow(nodes, Lookup(nodes, root, segs[..i]), segs, i)| ==>
      i < UnknownBelow(nodes, Lookup(nodes, root, segs[..i]), segs, i)[j] <= |segs|
      && !Known(nodes, root, segs, UnknownBelow(nodes, Lookup(nodes, root, segs[..i]), segs, i)[j])
    ensures forall e :: i < e <= |segs| && !Known(nodes, root, segs, e) ==>
      e in UnknownBelow(nodes, Lookup(nodes, root, segs[..i]), segs, i)
    decreases |segs| - i
  {
    UnknownBelowRises(nodes, Lookup(nodes, root, segs[..i]), segs, i);
    if i < |segs| {
      NextStep(nodes, root, segs, i);
      UnknownBelowSpec(nodes, root, segs, i + 1);
      var rest := UnknownBelow(nodes, Lookup(nodes, root, segs[..i + 1]), segs, i + 1);
      if !Known(nodes, root, segs, i + 1) {
        var r := [i + 1] + rest;
        assert forall j :: 1 <= j < |r| ==> r[j] == rest[j - 1];
      }
    }
  }

  /** Walking on from `i`, the last depth listed is the full path exactly when the full path
      is not known. */
  lemma UnknownBelowLast(nodes: seq<FileNode>, root: nat, segs: seq<string>, i: nat)
    requires WellFormed(nodes) && root < |nodes| && i < |segs|
    ensures var r := UnknownBelow(nodes, Lookup(nodes, root, segs[..i]), segs, i);
      (r != [] && r[|r| - 1] == |segs|) <==> !Known(nodes, root, segs, |segs|)
  {
    var r := UnknownBelow(nodes, Lookup(nodes, root, segs[..i]), segs, i);
    UnknownBelowSpec(nodes, root, segs, i);
    if !Known(nodes, root, segs, |segs|) {
      UnknownBelowRises(nodes, Lookup(nodes, root, segs[..i]), segs, i);
      assert |segs| in r;
      var p :| 0 <= p < |r| && r[p] == |segs|;
      assert r[p] <= r[|r| - 1];
    }
  }

  /** Every level past `i` and up to the known depth is known. */
  lemma {:induction false} KnownUpToDepth(nodes: seq<FileNode>, root: nat, segs: seq<string>, i: nat)
    requires WellFormed(nodes) && root < |nodes| && i <= |segs|
    ensures forall d :: i < d <= KnownDepthFrom(nodes, root, segs, i) ==> Known(nodes, root, segs, d)
    decreases |segs| - i
  {
    if i < |segs| {
      KnownUpToDepth(nodes, root, segs, i + 1);
    }
  }

  /** The known prefix stops at a depth whose next level is not known. */
  lemma {:induction false} KnownDepthStops(nodes: seq<FileNode>, root: nat, segs: seq<string>, i: nat)
    requires WellFormed(nodes) && root < |nodes| && i <= |segs|
    ensures var k := KnownDepthFrom(nodes, root, segs, i);
      k < |segs| ==> !Known(nodes, root, segs, k + 1)
    decreases |segs| - i
  {
    if i < |segs| {
      KnownDepthStops(nodes, root, segs, i + 1);
    }
  }

  /** After the first push, the walk pushes exactly the deeper depths that are not known. */
  lemma {:induction false} WalkPushesUnknown(nodes: seq<FileNode>, cur: Option<nat>, segs: seq<string>, i: nat, acc: seq<nat>)
    requires WellFormed(nodes) && (cur.Some? ==> cur.value < |nodes|) && i <= |segs| && acc != []
    ensures var w := Walk(nodes, cur, segs, i, acc);
      w.Some? ==> w.value == acc + UnknownBelow(nodes, cur, segs, i)
    decreases |segs| - i
  {
    if i == |segs| {
      assert acc + [] == acc;
    } else {
      var next := if cur.Some? then ChildByName(nodes, cur.value, segs[i]) else None;
      var rest := UnknownBelow(nodes, next, segs, i + 1);
      if cur.Some? && next.Some? && nodes[next.value].hasData {
        WalkDescends(nodes, cur.value, segs, i, acc);
        WalkPushesUnknown(nodes, next, segs, i + 1, acc);
        assert [] + rest == rest;
      } else if cur.Some? && next.None? && |nodes[cur.value].children| > 0 {
        WalkRefuses(nodes, cur.value, segs, i, acc);
      } else {
        WalkPushes(nodes, cur, segs, i, acc);
        WalkPushesUnknown(nodes, next, segs, i + 1, acc + [i + 1]);
        assert (acc + [i + 1]) + rest == acc + ([i + 1] + rest);
      }
    }
  }

  /** At the first level that is not known, the walk pushes that level and the one below,
      then every deeper level that is not known. */
  lemma WalkFirstPush(nodes: seq<FileNode>, cur: Option<nat>, segs: seq<string>, i: nat)
    requires WellFormed(nodes) && (cur.Some? ==> cur.value < |nodes|) && i < |segs|
    requires var next := if cur.Some? then ChildByName(nodes, cur.value, segs[i]) else None;
      !(next.Some? && nodes[next.value].hasData)
    ensures var w := Walk(nodes, cur, segs, i, []);
      w.Some? ==> w.value == [i] + UnknownBelow(nodes, cur, segs, i)
  {
    var next := if cur.Some? then ChildByName(nodes, cur.value, segs[i]) else None;
    var rest := UnknownBelow(nodes, next, segs, i + 1);
    if !(cur.Some? && next.None? && |nodes[cur.value].children| > 0) {
      WalkPushes(nodes, cur, segs, i, []);
      assert Pushed([], i) == [i, i + 1];
      WalkPushesUnknown(nodes, next, segs, i + 1, [i, i + 1]);
      assert [i, i + 1] + rest == [i] + ([i + 1] + rest);
    }
  }

  /** The pushed list: nothing when the whole path is known; otherwise the known depth k,
      then what UnknownBelow lists from there. */
  lemma HierarchyDepths(nodes: seq<FileNode>, root: nat, segs: seq<string>)
    requires WellFormed(nodes) && root < |nodes|
    requires Walk(nodes, Some(root), segs, 0, []).Some?
    ensures var ds, k := Walk(nodes, Some(root), segs, 0, []).value, KnownDepth(nodes, root, segs);
      && (k == |segs| ==> ds == [])
      && (k < |segs| ==> ds == [k] + UnknownBelow(nodes, Lookup(nodes, root, segs[..k]), segs, k))
  {
    var k := KnownDepth(nodes, root, segs);
    assert segs[..0] == [];
    WalkSkipsKnown(nodes, root, segs, 0);
    if k < |segs| {
      NextStep(nodes, root, segs, k);
      KnownDepthStops(nodes, root, segs, 0);
      WalkFirstPush(nodes, Lookup(nodes, root, segs[..k]), segs, k);
    }
  }

  /** The closed form of the pushed list: when some level is not known, it is the known
      depth k followed, in increasing order, by exactly the deeper depths that are not known. */
  lemma HierarchyClosedForm(nodes: seq<FileNode>, root: nat, segs: seq<string>)
    requires WellFormed(nodes) && root < |nodes|
    requires Walk(nodes, Some(root), segs, 0, []).Some?
    requires KnownDepth(nodes, root, segs) < |segs|
    ensures var ds, k := Walk(nodes, Some(root), segs, 0, []).value, KnownDepth(nodes, root, segs);
      && ds != [] && ds[0] == k && Increasing(ds)
      && (forall j :: 1 <= j < |ds| ==> k < ds[j] <= |segs| && !Known(nodes, root, segs, ds[j]))
      && (forall e :: k < e <= |segs| && !Known(nodes, root, segs, e) ==> e in ds)
  {
    var k := KnownDepth(nodes, root, segs);
    HierarchyDepths(nodes, root, segs);
    UnknownBelowSpec(nodes, root, segs, k);
    UnknownBelowRises(nodes, Lookup(nodes, root, segs[..k]), segs, k);
    IncreasingCons(k, UnknownBelow(nodes, Lookup(nodes, root, segs[..k]), segs, k));
    var ds := Walk(nodes, Some(root), segs, 0, []).value;
    var r := UnknownBelow(nodes, Lookup(nodes, root, segs[..k]), segs, k);
    assert forall j :: 1 <= j < |ds| ==> ds[j] == r[j - 1];
  }

  /** What the closing pop_back removes: when the walk pushed anything, its last entry is
      the input directory itself exactly when the last segment is not known. When the last
      segment is known (a child with a tree item), the entry removed is a parent. */
  lemma HierarchyPopped(nodes: seq<FileNode>, root: nat, segs: seq<string>)
    requires WellFormed(nodes) && root < |nodes|
    requires Walk(nodes, Some(root), segs, 0, []).Some?
    ensures var ds := Walk(nodes, Some(root), segs, 0, []).value;
      ds != [] ==> (ds[|ds| - 1] == |segs| <==> !Known(nodes, root, segs, |segs|))
  {
    var k := KnownDepth(nodes, root, segs);
    HierarchyDepths(nodes, root, segs);
    if k < |segs| {
      UnknownBelowLast(nodes, root, segs, k);
    }
  }

  /** The depths of `ds` below `n`, in order. */
  function Below(ds: seq<nat>, n: nat): (r: seq<nat>)
    ensures forall j :: 0 <= j < |r| ==> r[j] < n && r[j] in ds
    ensures forall d :: d in ds && d < n ==> d in r
  {
    if ds == [] then []
    else (if ds[0] < n then [ds[0]] else []) + Below(ds[1..], n)
  }

  /** The parent list the comment at FTPSession.cpp:312-314 describes: every directory the
      walk pushed except the input directory itself. */
  function IntendedRequest(nodes: seq<FileNode>, root: nat, segs: seq<string>): (r: Option<seq<string>>)
    requires WellFormed(nodes) && root < |nodes|
    ensures r.None? <==> HierarchyRequest(nodes, root, segs).None?
  {
    match Walk(nodes, Some(root), segs, 0, [])
    case None => None
    case Some(ds) => Some(DirPaths(segs, Below(ds, |segs|)))
  }

  /** The intended list carries the directory of every pushed depth short of the full path,
      and only those. */
  lemma IntendedKeepsParents(nodes: seq<FileNode>, root: nat, segs: seq<string>)
    requires WellFormed(nodes) && root < |nodes|
    requires Walk(nodes, Some(root), segs, 0, []).Some?
    ensures var ds, ps := Walk(nodes, Some(root), segs, 0, []).value, IntendedRequest(nodes, root, segs).value;
      && (forall d :: d in ds && d < |segs| ==> DirPath(segs[..d]) in ps)
      && (forall j :: 0 <= j < |ps| ==> exists d :: d in ds && d < |segs| && ps[j] == DirPath(segs[..d]))
  {
    var ds := Walk(nodes, Some(root), segs, 0, []).value;
    var b := Below(ds, |segs|);
    var ps := IntendedRequest(nodes, root, segs).value;
    forall d | d in ds && d < |segs| ensures DirPath(segs[..d]) in ps {
      assert d in b;
      var j :| 0 <= j < |b| && b[j] == d;
      assert ps[j] == DirPath(segs[..d]);
    }
    forall j | 0 <= j < |ps| ensures exists d :: d in ds && d < |segs| && ps[j] == DirPath(segs[..d]) {
      assert b[j] in b;
    }
  }

  /** Where the pop removes the input directory, the code's list is the intended one. */
  lemma IntendedAgrees(nodes: seq<FileNode>, root: nat, segs: seq<string>)
    requires WellFormed(nodes) && root < |nodes|
    requires Walk(nodes, Some(root), segs, 0, []).Some?
    requires !Known(nodes, root, segs, |segs|) || KnownDepth(nodes, root, segs) == |segs|
    ensures IntendedRequest(nodes, root, segs) == HierarchyRequest(nodes, root, segs)
  {
    var ds := Walk(nodes, Some(root), segs, 0, []).value;
    assert segs[..0] == [];
    RequestOfWalk(nodes, root, segs, ds);
    if ds != [] {
      WalkBeforePushEmpty(nodes, root, segs, 0);
      WalkBeforePush(nodes, root, segs, 0);
      HierarchyPopped(nodes, root, segs);
      BelowDropsLast(ds, |segs|);
    }
  }

  /** For an increasing list ending at `n` and otherwise below it, the depths below `n` are
      the list without its last entry. */
  lemma {:induction false} BelowDropsLast(ds: seq<nat>, n: nat)
    requires ds != [] && ds[|ds| - 1] == n && Increasing(ds)
    ensures Below(ds, n) == ds[..|ds| - 1]
    decreases |ds|
  {
    if |ds| == 1 {
      assert Below(ds[1..], n) == [];
    } else {
      assert ds[0] < n;
      var tail := ds[1..];
      assert Increasing(tail) by {
        forall a, b | 0 <= a < b < |tail| ensures tail[a] < tail[b] {
          assert tail[a] == ds[a + 1] && tail[b] == ds[b + 1];
        }
      }
      BelowDropsLast(tail, n);
      assert [ds[0]] + tail[..|tail| - 1] == ds[..|ds| - 1];
    }
  }

  /** A root holding "a" without a tree item, and "a" holding "b" with one. */
  function DropsParentTree(): seq<FileNode> {
    [FileNode("/", "", true, true, false, [1], Some(0)),
     FileNode("/a", "a", true, true, false, [2], None),
     FileNode("/a/b", "b", true, true, true, [], None)]
  }

  /** On that tree the walk for "/a/b" pushes depths 0 and 1 ("/" and "/a/"), then
      descends into "b" without a push. */
  lemma DropsParentWalk()
    ensures WellFormed(DropsParentTree())
    ensures Walk(DropsParentTree(), Some(0), ["a", "b"], 0, []) == Some([0, 1])
  {
    var nodes := DropsParentTree();
    var segs := ["a", "b"];
    assert WellFormed(nodes);
    assert FirstNamed(nodes, [1], "a") == Some(0);
    assert FirstNamed(nodes, [2], "b") == Some(0);
    assert ChildByName(nodes, 0, "a") == Some(1);
    assert ChildByName(nodes, 1, "b") == Some(2);
    WalkPushes(nodes, Some(0), segs, 0, []);
    assert Pushed([], 0) == [0, 1];
    WalkDescends(nodes, 1, segs, 1, [0, 1]);
  }

  /** The request for "/a/b" on that tree: the pop drops "/a/", so the listing carries only
      "/", while the parent list the comment describes is "/" and "/a/". */
  lemma HierarchyDropsParent()
    ensures WellFormed(DropsParentTree())
    ensures HierarchyRequest(DropsParentTree(), 0, ["a", "b"]) == Some(["/"])
    ensures IntendedRequest(DropsParentTree(), 0, ["a", "b"]) == Some(["/", "/a/"])
  {
    var segs := ["a", "b"];
    DropsParentWalk();
    RequestOfWalk(DropsParentTree(), 0, segs, [0, 1]);
    assert segs[..0] == [] && segs[..1] == ["a"];
    assert DirPath([]) == "/";
    assert JoinPath(["a"]) == JoinPath([]) + "/" + "a";
    assert DirPath(["a"]) == "/a/";
    assert PrefetchDepths([0, 1]) == [0];
    assert DirPaths(segs, [0]) == ["/"];
    assert Below([0, 1], 2) == [0, 1] by {
      assert Below([0, 1][1..], 2) == [1] by {
        assert [0, 1][1..] == [1];
        assert Below([1][1..], 2) == [];
      }
    }
    assert DirPaths(segs, [0, 1]) == ["/", "/a/"];
  }
}
