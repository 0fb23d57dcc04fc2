/** What FTPSession::GetRootObject (FTPSession.cpp:510-553) does to the tree once it has a
    working directory: it builds one directory node per '/'-separated prefix, each holding
    the next deeper one, and hangs the chain under the root. */
module RootChain {
  import opened Common
  import opened RemotePaths
  import opened FileTree

  /** The working directory GetRootObject grafts, or None when it returns the root as it
      is. The profile's initial directory is used when it is absolute and the server accepts
      the change into it (Cwd does not answer -1); otherwise the server's current directory
      is asked for (Pwd). A failed answer, or a directory of at most one character, grafts
      nothing. */
  function ResolveDir(initialDir: string, cwdRes: int, pwdRes: int, pwdDir: string): (d: Option<string>)
    ensures d.Some? ==> |d.value| > 1
    ensures |initialDir| > 0 && initialDir[0] == '/' && cwdRes != -1 ==>
      d == if |initialDir| > 1 then Some(initialDir) else None
    ensures (|initialDir| == 0 || initialDir[0] != '/' || cwdRes == -1) ==>
      d == if pwdRes == -1 || |pwdDir| <= 1 then None else Some(pwdDir)
  {
    var res := if |initialDir| < 1 || initialDir[0] != '/' then -1 else cwdRes;
    var (res', dir) := if res == -1 then (pwdRes, pwdDir) else (res, initialDir);
    if res' == -1 || |dir| <= 1 then None else Some(dir)
  }

  /** `new FileObject(path, true, false)` and, when `below` is given, AddChild(below)
      followed by SetRefresh(false) on it. */
  function DirNode(path: string, below: Option<nat>): (n: FileNode)
  {
    match below
    case None => NewDir(path)
    case Some(c) => NewDir(path).(children := [c], refresh := false)
  }

  /** The i-th node of a chain that starts at arena index `base`: the deepest one (i == 0)
      is a plain new directory; every other one holds the previous node. */
  function ChainNode(path: string, base: nat, i: nat): FileNode {
    DirNode(path, if i == 0 then None else Some(base + i - 1))
  }

  /** The first `n` nodes appended for the chain `paths` (deepest first), the first at
      index `base`. */
  function ChainNodes(paths: seq<string>, base: nat, n: nat): (ns: seq<FileNode>)
    requires n <= |paths|
    ensures |ns| == n
  {
    if n == 0 then []
    else ChainNodes(paths, base, n - 1) + [ChainNode(paths[n - 1], base, n - 1)]
  }

  /** One more path of the chain is one more node, holding the one before it. */
  lemma ChainNodesGrow(paths: seq<string>, base: nat, i: nat)
    requires 0 < i < |paths|
    ensures ChainNodes(paths, base, i + 1) == ChainNodes(paths, base, i) + [DirNode(paths[i], Some(base + i - 1))]
  {
  }

  /** The i-th appended node is the chain node for the i-th path. */
  lemma {:induction false} ChainNodesAt(paths: seq<string>, base: nat, n: nat, i: nat)
    requires i < n <= |paths|
    ensures ChainNodes(paths, base, n)[i] == ChainNode(paths[i], base, i)
    decreases n
  {
    if i < n - 1 {
      ChainNodesAt(paths, base, n - 1, i);
    }
  }

  /** The root after the graft: the top of the chain appended to its children and its
      refresh flag cleared. */
  function AttachTop(n: FileNode, top: nat): (r: FileNode)
    ensures r.children == n.children + [top] && !r.refresh
    ensures r.name == n.name && r.path == n.path && r.parent == n.parent
    ensures r.isDir == n.isDir && r.hasData == n.hasData
  {
    n.(children := n.children + [top], refresh := false)
  }

  lemma {:induction false} ChainNodesBelow(chain: seq<string>, base: nat)
    ensures IndicesBelow(ChainNodes(chain, base, |chain|), base + |chain|)
  {
    var ns := ChainNodes(chain, base, |chain|);
    forall n, i | 0 <= n < |ns| && 0 <= i < |ns[n].children| ensures ns[n].children[i] < base + |chain| {
      ChainNodesAt(chain, base, |chain|, n);
    }
  }

  lemma {:induction false} AppendBelow(front: seq<FileNode>, tail: seq<FileNode>, bound: nat)
    requires IndicesBelow(front, bound) && IndicesBelow(tail, bound)
    ensures IndicesBelow(front + tail, bound)
  {
    var t := front + tail;
    forall n, i | 0 <= n < |t| && 0 <= i < |t[n].children| ensures t[n].children[i] < bound {
      if n < |front| { assert t[n] == front[n]; } else { assert t[n] == tail[n - |front|]; }
    }
  }

  lemma {:induction false} AttachBelow(nodes: seq<FileNode>, root: nat, top: nat, bound: nat)
    requires WellFormed(nodes) && root < |nodes| && |nodes| <= bound && top < bound
    ensures IndicesBelow(nodes[root := AttachTop(nodes[root], top)], bound)
  {
    var f := nodes[root := AttachTop(nodes[root], top)];
    forall n, i | 0 <= n < |f| && 0 <= i < |f[n].children| ensures f[n].children[i] < bound {
      if n == root {
        if i < |nodes[root].children| { assert f[n].children[i] == nodes[root].children[i]; }
      } else {
        assert f[n] == nodes[n];
      }
    }
  }

  /** The arena after appending the chain `chain` (deepest first) and, when `attach`,
      hanging its top under `root`. */
  function AppendChain(nodes: seq<FileNode>, root: nat, chain: seq<string>, attach: bool): (t: seq<FileNode>)
    requires WellFormed(nodes) && root < |nodes| && |chain| > 0
    ensures WellFormed(t)
    ensures |t| == |nodes| + |chain|
    ensures forall k :: 0 <= k < |nodes| && k != root ==> t[k] == nodes[k]
    ensures attach ==> t[root] == AttachTop(nodes[root], |t| - 1)
    ensures !attach ==> t[root] == nodes[root]
  {
    var bound := |nodes| + |chain|;
    var front := if attach then nodes[root := AttachTop(nodes[root], bound - 1)] else nodes;
    var tail := ChainNodes(chain, |nodes|, |chain|);
    assert IndicesBelow(front + tail, bound) by {
      if attach { AttachBelow(nodes, root, bound - 1, bound); }
      ChainNodesBelow(chain, |nodes|);
      AppendBelow(front, tail, bound);
    }
    front + tail
  }

  /** The tree after GetRootObject has resolved the working directory `p`: the chain for
      `p` appended to the arena and, when `p` starts with '/', its shallowest node added
      as the last child of the root, whose refresh flag is cleared. */
  function Graft(nodes: seq<FileNode>, root: nat, p: string): (t: seq<FileNode>)
    requires WellFormed(nodes) && root < |nodes| && |p| > 0
    ensures WellFormed(t)
    ensures |t| == |nodes| + |ChainPaths(p)|
    ensures forall k :: 0 <= k < |nodes| && k != root ==> t[k] == nodes[k]
    ensures p[0] == '/' ==> t[root] == AttachTop(nodes[root], |t| - 1)
    ensures p[0] != '/' ==> t[root] == nodes[root]
  {
    AppendChain(nodes, root, ChainPaths(p), p[0] == '/')
  }

  /** The chain ends at its j-th directory when that one has no '/' or only a leading one;
      which of the two tells whether `dir` was absolute. */
  lemma ChainEnds(dir: string, j: nat)
    requires |dir| > 0 && j < |ChainPaths(dir)|
    requires LastSlash(ChainPaths(dir)[j]) == None || LastSlash(ChainPaths(dir)[j]) == Some(0)
    ensures j == |ChainPaths(dir)| - 1
    ensures dir[0] == '/' <==> LastSlash(ChainPaths(dir)[j]).Some?
  {
    ChainLink(dir, j);
  }

  /** The graft is the arena, its root updated when the path is absolute, followed by the
      chain's nodes. */
  lemma AppendChainParts(nodes: seq<FileNode>, root: nat, chain: seq<string>, attach: bool)
    requires WellFormed(nodes) && root < |nodes| && |chain| > 0
    ensures AppendChain(nodes, root, chain, attach) ==
      (if attach then nodes[root := AttachTop(nodes[root], |nodes| + |chain| - 1)] else nodes)
      + ChainNodes(chain, |nodes|, |chain|)
  {
  }

  /** The graft spelled out: the arena, its root updated when `dir` is absolute, followed by
      the chain's nodes. */
  function GraftParts(nodes: seq<FileNode>, root: nat, dir: string): seq<FileNode>
    requires root < |nodes| && |dir| > 0
  {
    var chain := ChainPaths(dir);
    (if dir[0] == '/' then nodes[root := AttachTop(nodes[root], |nodes| + |chain| - 1)] else nodes)
      + ChainNodes(chain, |nodes|, |chain|)
  }

  /** The graft is its parts. */
  lemma GraftIsParts(nodes: seq<FileNode>, root: nat, dir: string)
    requires WellFormed(nodes) && root < |nodes| && |dir| > 0
    ensures Graft(nodes, root, dir) == GraftParts(nodes, root, dir)
  {
    AppendChainParts(nodes, root, ChainPaths(dir), dir[0] == '/');
  }

  /** Node `k` of the appended chain is a new directory for the (k - |nodes|)-th path of the
      chain, named by its last segment and without a tree item; the deepest one is fresh
      and childless, every other one holds the node appended just before it and has its
      refresh flag cleared. */
  lemma {:induction false} GraftNodeAt(nodes: seq<FileNode>, root: nat, p: string, k: nat)
    requires WellFormed(nodes) && root < |nodes| && |p| > 0
    requires |nodes| <= k < |nodes| + |ChainPaths(p)|
    ensures var t, j := Graft(nodes, root, p), k - |nodes|;
      && k < |t|
      && t[k].path == ChainPaths(p)[j] && t[k].name == BaseName(ChainPaths(p)[j])
      && t[k].isDir && !t[k].hasData
      && (j == 0 ==> t[k].children == [] && t[k].refresh == NEW_OBJECT_REFRESH)
      && (j > 0 ==> t[k].children == [k - 1] && !t[k].refresh)
  {
    ChainNodeAt(nodes, root, ChainPaths(p), p[0] == '/', k);
  }

  /** What the loop of GetRootObject produces from the state where `path` is the directory
      last created, at index `prev`, and `tail` holds the nodes created so far: cut `path`
      at its last '/' and create the next directory, until that '/' is the first
      character (hang the last node under the root) or there is none (leave it detached). */
  function GraftFrom(nodes: seq<FileNode>, root: nat, path: string, prev: nat, tail: seq<FileNode>): seq<FileNode>
    requires root < |nodes|
    decreases |path|
  {
    match LastSlash(path)
    case None => nodes + tail
    case Some(k) =>
      if k == 0 then nodes[root := AttachTop(nodes[root], prev)] + tail
      else GraftFrom(nodes, root, path[..k], prev + 1, tail + [DirNode(path[..k], Some(prev))])
  }

  /** One turn of the loop: cut the path at its last '/' and create the next directory. */
  lemma GraftFromStep(nodes: seq<FileNode>, root: nat, path: string, prev: nat, tail: seq<FileNode>, k: nat)
    requires root < |nodes| && LastSlash(path) == Some(k) && k > 0
    ensures GraftFrom(nodes, root, path, prev, tail) ==
            GraftFrom(nodes, root, path[..k], prev + 1, tail + [DirNode(path[..k], Some(prev))])
  {
  }

  /** The loop's last turn: no '/' left, or only the leading one. */
  lemma GraftFromEnd(nodes: seq<FileNode>, root: nat, path: string, prev: nat, tail: seq<FileNode>)
    requires root < |nodes| && (LastSlash(path).None? || LastSlash(path) == Some(0))
    ensures GraftFrom(nodes, root, path, prev, tail) ==
            if LastSlash(path).Some? then nodes[root := AttachTop(nodes[root], prev)] + tail else nodes + tail
  {
  }

  /** From its j-th directory on, `chain` is linked the way the loop walks it: each
      directory but the last has a '/' past its first character and is followed by itself
      cut there; the last has a leading '/' only when `absolute`, and no other. */
  ghost predicate LinkedFrom(chain: seq<string>, absolute: bool, j: nat)
    requires j < |chain|
    decreases |chain| - j
  {
    if j == |chain| - 1 then LastSlash(chain[j]) == (if absolute then Some(0) else None)
    else
      && LastSlash(chain[j]).Some? && LastSlash(chain[j]).value > 0
      && chain[j + 1] == chain[j][..LastSlash(chain[j]).value]
      && LinkedFrom(chain, absolute, j + 1)
  }

  /** The directories GetRootObject creates for `dir`, from the j-th on, are linked that way. */
  lemma {:induction false} ChainIsLinked(dir: string, j: nat)
    requires 0 < |dir| && j < |ChainPaths(dir)|
    ensures LinkedFrom(ChainPaths(dir), dir[0] == '/', j)
    decreases |ChainPaths(dir)| - j
  {
    var chain := ChainPaths(dir);
    if j < |chain| - 1 {
      ChainLink(dir, j);
      ChainIsLinked(dir, j + 1);
    } else {
      ChainLink(dir, j);
      ChainEnds(dir, j);
    }
  }

  /** One turn of the loop along the chain: from its j-th directory the loop does what it
      does from the next one. */
  lemma GraftFromNext(nodes: seq<FileNode>, root: nat, chain: seq<string>, j: nat, k: nat)
    requires root < |nodes| && j + 1 < |chain|
    requires LastSlash(chain[j]) == Some(k) && k > 0 && chain[j + 1] == chain[j][..k]
    ensures GraftFrom(nodes, root, chain[j], |nodes| + j, ChainNodes(chain, |nodes|, j + 1)) ==
            GraftFrom(nodes, root, chain[j + 1], |nodes| + j + 1, ChainNodes(chain, |nodes|, j + 2))
  {
    GraftFromStep(nodes, root, chain[j], |nodes| + j, ChainNodes(chain, |nodes|, j + 1), k);
    ChainNodesGrow(chain, |nodes|, j + 1);
  }

  /** From the j-th directory of a linked chain on, the loop finishes the graft. */
  lemma {:induction false} GraftFromLinked(nodes: seq<FileNode>, root: nat, chain: seq<string>, absolute: bool, j: nat)
    requires root < |nodes| && j < |chain| && LinkedFrom(chain, absolute, j)
    ensures GraftFrom(nodes, root, chain[j], |nodes| + j, ChainNodes(chain, |nodes|, j + 1)) ==
      (if absolute then nodes[root := AttachTop(nodes[root], |nodes| + |chain| - 1)] else nodes)
      + ChainNodes(chain, |nodes|, |chain|)
    decreases |chain| - j
  {
    if j < |chain| - 1 {
      GraftFromNext(nodes, root, chain, j, LastSlash(chain[j]).value);
      GraftFromLinked(nodes, root, chain, absolute, j + 1);
    } else {
      GraftFromEnd(nodes, root, chain[j], |nodes| + j, ChainNodes(chain, |nodes|, j + 1));
    }
  }

  /** The loop builds the graft: the arena, its root updated when `dir` is absolute,
      followed by one node per directory of the chain. */
  lemma GraftFromStart(nodes: seq<FileNode>, root: nat, dir: string)
    requires root < |nodes| && |dir| > 0
    ensures GraftFrom(nodes, root, dir, |nodes|, [DirNode(dir, None)]) == GraftParts(nodes, root, dir)
  {
    var chain := ChainPaths(dir);
    assert ChainNodes(chain, |nodes|, 1) == [DirNode(dir, None)];
    ChainIsLinked(dir, 0);
    GraftFromLinked(nodes, root, chain, dir[0] == '/', 0);
  }

  /** The loop of GetRootObject over the resolved directory `dir`: a new node for `dir`,
      then, while `dir` still has a '/' past its first character, a new node for `dir`
      cut at its last '/' holding the previous node; the loop ends by hanging the last
      node under the root when the remaining '/' is the first character. */
  method BuildChain(nodes: seq<FileNode>, root: nat, dir: string) returns (t: seq<FileNode>)
    requires root < |nodes|
    ensures t == GraftFrom(nodes, root, dir, |nodes|, [DirNode(dir, None)])
  {
    ghost var graft := GraftFrom(nodes, root, dir, |nodes|, [DirNode(dir, None)]);
    var tail := [DirNode(dir, None)];
    var prevDir: nat := |nodes|;
    var curPath := dir;
    var curDir := LastSlash(curPath);
    while curDir.Some?
      invariant curDir == LastSlash(curPath)
      invariant graft == GraftFrom(nodes, root, curPath, prevDir, tail)
      decreases |curPath|
    {
      if curDir.value == 0 {
        // the remaining '/' is the leading one: hang the chain under the root
        return nodes[root := AttachTop(nodes[root], prevDir)] + tail;
      }
      curPath := curPath[..curDir.value];
      tail := tail + [DirNode(curPath, Some(prevDir))];
      prevDir := prevDir + 1;
      curDir := LastSlash(curPath);
    }
    // no '/' left: the chain stays detached
    t := nodes + tail;
  }

  /** The nodes from `base` on form a chain for "t1/.../tn", deepest first: node base+j is
      named t(n-j) and, above the deepest, holds node base+j-1 as its only child. */
  ghost predicate ChainShaped(t: seq<FileNode>, base: nat, segs: seq<string>) {
    && base + |segs| <= |t|
    && (forall k :: base <= k < base + |segs| ==> t[k].name == segs[|segs| - 1 - (k - base)])
    && (forall k :: base < k < base + |segs| ==> t[k].children == [k - 1])
  }

  /** Down such a chain, the remaining segments lead to the deepest node. */
  lemma {:induction false} ChainLookup(t: seq<FileNode>, base: nat, segs: seq<string>, i: nat)
    requires WellFormed(t) && ChainShaped(t, base, segs) && i < |segs|
    ensures Lookup(t, base + i, segs[|segs| - i..]) == Some(base)
    decreases i
  {
    var n := |segs|;
    if i == 0 {
      assert segs[n..] == [];
    } else {
      var k := base + i;
      var rest := segs[n - i..];
      assert rest[0] == segs[n - i];
      assert t[k - 1].name == segs[n - 1 - (k - 1 - base)];
      assert t[k].children == [k - 1];
      assert FirstNamed(t, t[k].children, segs[n - i]) == Some(0);
      assert ChildByName(t, k, segs[n - i]) == Some(k - 1);
      assert rest[1..] == segs[n - (i - 1)..];
      ChainLookup(t, base, segs, i - 1);
    }
  }

  /** A chain for "t1/.../tn" holds one path per segment, deepest first, each named by its
      segment. */
  ghost predicate NamesChain(chain: seq<string>, segs: seq<string>) {
    |chain| == |segs| && forall i :: 0 <= i < |segs| ==> BaseName(chain[i]) == segs[|segs| - 1 - i]
  }

  /** Node `k` of the appended chain: a new directory for the (k - |nodes|)-th path, named
      by its last segment and without a tree item; the deepest one is fresh and childless,
      every other one holds the node appended just before it and has its refresh flag
      cleared. */
  lemma {:induction false} ChainNodeAt(nodes: seq<FileNode>, root: nat, chain: seq<string>, attach: bool, k: nat)
    requires WellFormed(nodes) && root < |nodes| && |nodes| <= k < |nodes| + |chain|
    ensures var t, j := AppendChain(nodes, root, chain, attach), k - |nodes|;
      && t[k].path == chain[j] && t[k].name == BaseName(chain[j]) && t[k].isDir && !t[k].hasData
      && (j == 0 ==> t[k].children == [] && t[k].refresh == NEW_OBJECT_REFRESH)
      && (j > 0 ==> t[k].children == [k - 1] && !t[k].refresh)
  {
    var t := AppendChain(nodes, root, chain, attach);
    AppendChainParts(nodes, root, chain, attach);
    ChainNodesAt(chain, |nodes|, |chain|, k - |nodes|);
    assert t[k] == ChainNode(chain[k - |nodes|], |nodes|, k - |nodes|);
  }

  /** The appended nodes form a chain of that shape. */
  lemma {:induction false} AppendChainShaped(nodes: seq<FileNode>, root: nat, chain: seq<string>, segs: seq<string>, attach: bool)
    requires WellFormed(nodes) && root < |nodes| && segs != [] && NamesChain(chain, segs)
    ensures ChainShaped(AppendChain(nodes, root, chain, attach), |nodes|, segs)
  {
    var t := AppendChain(nodes, root, chain, attach);
    var base, n := |nodes|, |segs|;
    forall k | base <= k < base + n
      ensures t[k].name == segs[n - 1 - (k - base)]
      ensures k > base ==> t[k].children == [k - 1]
    {
      ChainNodeAt(nodes, root, chain, attach, k);
    }
  }

  /** A root whose children are its old ones, none named t1, followed by the top of a
      chain for "t1/.../tn" leads down the chain to its deepest node. */
  lemma {:induction false} LookupThroughTop(t: seq<FileNode>, root: nat, kids: seq<nat>, base: nat, segs: seq<string>)
    requires WellFormed(t) && root < |t| && segs != [] && ChainShaped(t, base, segs)
    requires t[root].children == kids + [base + |segs| - 1]
    requires forall i :: 0 <= i < |kids| ==> kids[i] < |t| && t[kids[i]].name != segs[0]
    ensures Lookup(t, root, segs) == Some(base)
  {
    var n := |segs|;
    var kids' := t[root].children;
    forall i | 0 <= i < |kids| ensures t[kids'[i]].name != segs[0] {
      assert kids'[i] == kids[i];
    }
    assert t[base + n - 1].name == segs[0];
    FirstNamedAt(t, kids', segs[0], |kids|);
    assert ChildByName(t, root, segs[0]) == Some(base + n - 1);
    ChainLookup(t, base, segs, n - 1);
    assert segs[n - (n - 1)..] == segs[1..];
  }

  /** The root's old children keep their names after the graft. */
  lemma {:induction false} OldKidsUnchanged(nodes: seq<FileNode>, root: nat, chain: seq<string>, name: string)
    requires WellFormed(nodes) && root < |nodes| && |chain| > 0
    requires ChildByName(nodes, root, name).None?
    ensures var t := AppendChain(nodes, root, chain, true);
      forall i :: 0 <= i < |nodes[root].children| ==>
        nodes[root].children[i] < |t| && t[nodes[root].children[i]].name != name
  {
    var t := AppendChain(nodes, root, chain, true);
    var kids := nodes[root].children;
    forall i | 0 <= i < |kids| ensures t[kids[i]].name != name {
      assert t[kids[i]].name == nodes[kids[i]].name;
    }
  }

  /** Once a chain for "t1/.../tn" hangs under a root that had no child named t1, looking
      t1..tn up from the root lands on the deepest node of the chain. */
  lemma {:induction false} AppendChainLookup(nodes: seq<FileNode>, root: nat, chain: seq<string>, segs: seq<string>)
    requires WellFormed(nodes) && root < |nodes| && segs != [] && NamesChain(chain, segs)
    requires ChildByName(nodes, root, segs[0]).None?
    ensures Lookup(AppendChain(nodes, root, chain, true), root, segs) == Some(|nodes|)
  {
    var t := AppendChain(nodes, root, chain, true);
    OldKidsUnchanged(nodes, root, chain, segs[0]);
    AppendChainShaped(nodes, root, chain, segs, true);
    LookupThroughTop(t, root, nodes[root].children, |nodes|, segs);
  }

  /** Round trip of GetRootObject and FindPathObject: once the working directory
      "/t1/.../tn" has been grafted under a root that had no child named t1, looking the
      same path up from the root lands on the deepest node of the new chain. */
  lemma {:induction false} GraftThenLookup(nodes: seq<FileNode>, root: nat, segs: seq<string>)
    requires WellFormed(nodes) && root < |nodes|
    requires AllSegments(segs) && segs != []
    requires ChildByName(nodes, root, segs[0]).None?
    ensures Lookup(Graft(nodes, root, JoinPath(segs)), root, segs) == Some(|nodes|)
  {
    var p := JoinPath(segs);
    ChainNames(segs);
    AppendChainLookup(nodes, root, ChainPaths(p), segs);
  }
}
