/** The cached remote directory tree (FileObject), held as an arena: a sequence of nodes
    that refer to their children by index. The session's root is one index into it. */
module FileTree {
  import opened Common
  import opened RemotePaths

  /** The refresh flag a newly constructed FileObject starts with: a directory nobody has
      listed yet needs a listing. */
  const NEW_OBJECT_REFRESH: bool := true

  /** One FileObject: its path and name, whether it is a directory, whether it needs a
      fresh listing, whether the tree view has attached its item to it (GetData() non-NULL),
      its children in insertion order and, where one was set, its parent. */
  datatype FileNode = FileNode(
    path: string,
    name: string,
    isDir: bool,
    refresh: bool,
    hasData: bool,
    children: seq<nat>,
    parent: Option<nat>)

  /** `new FileObject(path, true, false)`: a directory with no children and no tree item. */
  function NewDir(path: string): FileNode {
    FileNode(path, BaseName(path), true, NEW_OBJECT_REFRESH, false, [], None)
  }

  /** Every child index of `nodes` is below `bound`. */
  predicate IndicesBelow(nodes: seq<FileNode>, bound: nat) {
    forall n, i :: 0 <= n < |nodes| && 0 <= i < |nodes[n].children| ==> nodes[n].children[i] < bound
  }

  /** Every child index points into the arena. */
  predicate WellFormed(nodes: seq<FileNode>) {
    IndicesBelow(nodes, |nodes|)
  }

  /** Position in `kids` of the first node named `name`. */
  function FirstNamed(nodes: seq<FileNode>, kids: seq<nat>, name: string): (r: Option<nat>)
    requires forall i :: 0 <= i < |kids| ==> kids[i] < |nodes|
    ensures r.Some? ==> r.value < |kids| && nodes[kids[r.value]].name == name
    ensures r.Some? ==> forall j :: 0 <= j < r.value ==> nodes[kids[j]].name != name
    ensures r.None? ==> forall j :: 0 <= j < |kids| ==> nodes[kids[j]].name != name
  {
    if kids == [] then None
    else if nodes[kids[0]].name == name then Some(0)
    else
      match FirstNamed(nodes, kids[1..], name)
      case None => None
      case Some(p) => Some(p + 1)
  }

  /** The first match is at `j` when `kids[j]` is named `name` and no earlier one is. */
  lemma FirstNamedAt(nodes: seq<FileNode>, kids: seq<nat>, name: string, j: nat)
    requires forall i :: 0 <= i < |kids| ==> kids[i] < |nodes|
    requires j < |kids| && nodes[kids[j]].name == name
    requires forall i :: 0 <= i < j ==> nodes[kids[i]].name != name
    ensures FirstNamed(nodes, kids, name) == Some(j)
  {
  }

  /** The child of node `n` named `name` (the first one, in insertion order). */
  function ChildByName(nodes: seq<FileNode>, n: nat, name: string): (c: Option<nat>)
    requires WellFormed(nodes) && n < |nodes|
    ensures c.Some? ==> c.value in nodes[n].children && c.value < |nodes| && nodes[c.value].name == name
    ensures c.None? ==> forall i :: 0 <= i < |nodes[n].children| ==> nodes[nodes[n].children[i]].name != name
    ensures |nodes[n].children| == 0 ==> c.None?
  {
    match FirstNamed(nodes, nodes[n].children, name)
    case None => None
    case Some(p) => Some(nodes[n].children[p])
  }

  /** The node reached from `cur` by matching each segment, in order, against a child's
      name; None as soon as a segment has no matching child. */
  function Lookup(nodes: seq<FileNode>, cur: nat, segs: seq<string>): (r: Option<nat>)
    requires WellFormed(nodes) && cur < |nodes|
    ensures r.Some? ==> r.value < |nodes|
    decreases |segs|
  {
    if segs == [] then Some(cur)
    else
      match ChildByName(nodes, cur, segs[0])
      case None => None
      case Some(c) => Lookup(nodes, c, segs[1..])
  }

  /** Looking up one more segment is one more child step from where the shorter lookup ended. */
  lemma {:induction false} LookupAppend(nodes: seq<FileNode>, cur: nat, segs: seq<string>, t: string)
    requires WellFormed(nodes) && cur < |nodes|
    ensures Lookup(nodes, cur, segs + [t]) ==
      match Lookup(nodes, cur, segs)
      case None => None
      case Some(m) => ChildByName(nodes, m, t)
    decreases |segs|
  {
    if segs == [] {
      assert ([] + [t])[1..] == [];
    } else {
      assert (segs + [t])[0] == segs[0];
      assert (segs + [t])[1..] == segs[1..] + [t];
      match ChildByName(nodes, cur, segs[0])
      case None =>
      case Some(c) => LookupAppend(nodes, c, segs[1..], t);
    }
  }

  /** A lookup that succeeds passes through every shorter prefix, and ends on a node named
      by the last segment. */
  lemma {:induction false} LookupPrefixes(nodes: seq<FileNode>, cur: nat, segs: seq<string>)
    requires WellFormed(nodes) && cur < |nodes|
    requires Lookup(nodes, cur, segs).Some?
    ensures forall j :: 0 <= j <= |segs| ==> Lookup(nodes, cur, segs[..j]).Some?
    ensures segs != [] ==> nodes[Lookup(nodes, cur, segs).value].name == segs[|segs| - 1]
    decreases |segs|
  {
    if segs != [] {
      var init := segs[..|segs| - 1];
      assert init + [segs[|segs| - 1]] == segs;
      LookupAppend(nodes, cur, init, segs[|segs| - 1]);
      LookupPrefixes(nodes, cur, init);
      forall j | 0 <= j <= |segs| ensures Lookup(nodes, cur, segs[..j]).Some? {
        if j < |segs| {
          assert segs[..j] == init[..j];
        } else {
          assert segs[..j] == segs;
        }
      }
    }
  }

  /** A lookup splits at any point: first the prefix, then the rest from where it ended. */
  lemma {:induction false} LookupSplit(nodes: seq<FileNode>, cur: nat, segs: seq<string>, j: nat)
    requires WellFormed(nodes) && cur < |nodes| && j <= |segs|
    ensures Lookup(nodes, cur, segs) ==
      match Lookup(nodes, cur, segs[..j])
      case None => None
      case Some(m) => Lookup(nodes, m, segs[j..])
    decreases j
  {
    if j == 0 {
      assert segs[..0] == [] && segs[0..] == segs;
    } else {
      assert segs[..j][0] == segs[0];
      assert segs[..j][1..] == segs[1..][..j - 1];
      assert segs[j..] == segs[1..][j - 1..];
      match ChildByName(nodes, cur, segs[0])
      case None =>
      case Some(c) => LookupSplit(nodes, c, segs[1..], j - 1);
    }
  }

  /** Once a prefix of the path is missing, or meets a node with no children while segments
      remain, the whole lookup is missing. */
  lemma LookupStopsEarly(nodes: seq<FileNode>, cur: nat, segs: seq<string>, j: nat)
    requires WellFormed(nodes) && cur < |nodes| && j < |segs|
    requires Lookup(nodes, cur, segs[..j]).None? ||
             |nodes[Lookup(nodes, cur, segs[..j]).value].children| == 0
    ensures Lookup(nodes, cur, segs).None?
  {
    LookupSplit(nodes, cur, segs, j);
  }
}
