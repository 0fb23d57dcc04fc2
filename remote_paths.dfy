/** Remote path strings as the session handles them: split into segments the way
    `strtok(path, "/")` does, rebuilt one segment at a time the way the hierarchy walk
    builds `currentPath`, and cut back at the last '/' the way the working-directory
    graft uses `strrchr`. */
module RemotePaths {
  import opened Common

  /** A segment `strtok` can return: non-empty and free of the delimiter. */
  predicate IsSegment(t: string) {
    |t| > 0 && '/' !in t
  }

  predicate AllSegments(segs: seq<string>) {
    forall i :: 0 <= i < |segs| ==> IsSegment(segs[i])
  }

  /** Length of the leading run of non-'/' characters of `s`. */
  function SegmentLength(s: string): (k: nat)
    ensures k <= |s|
    ensures forall i :: 0 <= i < k ==> s[i] != '/'
    ensures k < |s| ==> s[k] == '/'
  {
    if s == [] || s[0] == '/' then 0 else 1 + SegmentLength(s[1..])
  }

  /** The successive tokens `strtok(s, "/")` returns: the maximal non-empty runs of
      non-'/' characters, in order; leading, trailing and repeated '/' yield nothing. */
  function Tokens(s: string): (segs: seq<string>)
    ensures AllSegments(segs)
    decreases |s|
  {
    if s == [] then []
    else if s[0] == '/' then Tokens(s[1..])
    else
      var k := SegmentLength(s);
      [s[..k]] + Tokens(s[k..])
  }

  /** The absolute path "/t1/t2/.../tn" (the empty string for no segments). */
  function JoinPath(segs: seq<string>): (p: string)
    ensures segs != [] ==> |p| > 0 && p[0] == '/'
    ensures segs == [] ==> p == ""
  {
    if segs == [] then ""
    else JoinPath(segs[..|segs| - 1]) + "/" + segs[|segs| - 1]
  }

  /** The directory path "/t1/.../tn/" that the hierarchy walk holds in `currentPath`
      after n segments: it starts as "/" and gains "segment/" at every step. */
  function DirPath(segs: seq<string>): (p: string)
    ensures |p| > 0 && p[0] == '/' && p[|p| - 1] == '/'
  {
    JoinPath(segs) + "/"
  }

  lemma {:induction false} SegmentLengthConcat(a: string, b: string)
    ensures SegmentLength(a) < |a| ==> SegmentLength(a + b) == SegmentLength(a)
    ensures SegmentLength(a) == |a| && (b == [] || b[0] == '/') ==> SegmentLength(a + b) == |a|
    decreases |a|
  {
    if a != [] && a[0] != '/' {
      assert (a + b)[1..] == a[1..] + b;
      SegmentLengthConcat(a[1..], b);
    }
  }

  /** Splitting distributes over a concatenation whose seam is a '/'. */
  lemma {:induction false} TokensConcat(a: string, b: string)
    requires a == [] || b == [] || a[|a| - 1] == '/' || b[0] == '/'
    ensures Tokens(a + b) == Tokens(a) + Tokens(b)
    decreases |a|
  {
    if a == [] {
      assert a + b == b;
    } else if a[0] == '/' {
      assert (a + b)[1..] == a[1..] + b;
      TokensConcat(a[1..], b);
    } else {
      var k := SegmentLength(a);
      SegmentLengthConcat(a, b);
      assert (a + b)[..k] == a[..k];
      assert (a + b)[k..] == a[k..] + b;
      if k < |a| {
        TokensConcat(a[k..], b);
      } else {
        assert a[k..] == [];
        assert a[..k] == a;
      }
    }
  }

  lemma {:induction false} TokensOfSegment(t: string)
    requires IsSegment(t)
    ensures Tokens(t) == [t]
    ensures Tokens("/" + t) == [t]
  {
    assert SegmentLength(t) == |t|;
    assert t[..|t|] == t;
    assert ("/" + t)[1..] == t;
  }

  /** Round trip: splitting the absolute path built from segments gives them back. */
  lemma {:induction false} TokensOfJoinPath(segs: seq<string>)
    requires AllSegments(segs)
    ensures Tokens(JoinPath(segs)) == segs
    decreases |segs|
  {
    if segs != [] {
      var init, t := segs[..|segs| - 1], segs[|segs| - 1];
      TokensOfJoinPath(init);
      assert JoinPath(segs) == JoinPath(init) + ("/" + t);
      TokensConcat(JoinPath(init), "/" + t);
      TokensOfSegment(t);
      assert init + [t] == segs;
    }
  }

  /** Round trip for the walk's `currentPath`: splitting "/t1/.../tn/" gives t1..tn. */
  lemma {:induction false} TokensOfDirPath(segs: seq<string>)
    requires AllSegments(segs)
    ensures Tokens(DirPath(segs)) == segs
  {
    TokensOfJoinPath(segs);
    TokensConcat(JoinPath(segs), "/");
    assert Tokens("/") == [];
  }

  /** The last '/' among the first `n` characters of `s`, scanning backwards. */
  function LastSlashBelow(s: string, n: nat): (r: Option<nat>)
    requires n <= |s|
    ensures r.Some? ==> r.value < n && s[r.value] == '/'
    ensures r.Some? ==> forall i :: r.value < i < n ==> s[i] != '/'
    ensures r.None? ==> forall i :: 0 <= i < n ==> s[i] != '/'
  {
    if n == 0 then None
    else if s[n - 1] == '/' then Some(n - 1)
    else LastSlashBelow(s, n - 1)
  }

  /** The index `strrchr(s, '/')` points at, if any. */
  function LastSlash(s: string): (r: Option<nat>)
    ensures r.Some? ==> r.value < |s| && s[r.value] == '/'
    ensures r.Some? ==> forall i :: r.value < i < |s| ==> s[i] != '/'
    ensures r.None? ==> forall i :: 0 <= i < |s| ==> s[i] != '/'
  {
    LastSlashBelow(s, |s|)
  }

  /** The last path component, collected from the back up to the last '/'. */
  function BaseName(p: string): (name: string)
    ensures '/' !in name
    ensures |name| <= |p|
  {
    if p == [] || p[|p| - 1] == '/' then []
    else BaseName(p[..|p| - 1]) + [p[|p| - 1]]
  }

  /** A character other than '/' at the end does not move the last '/'. */
  lemma LastSlashSnoc(init: string, c: char)
    requires c != '/'
    ensures LastSlash(init + [c]) == LastSlash(init)
  {
    var s := init + [c];
    assert forall i :: 0 <= i < |init| ==> s[i] == init[i];
    assert s[|init|] == c;
  }

  /** The last path component is what follows `strrchr(p, '/')`, or the whole string when
      there is no '/'. */
  lemma {:induction false} BaseNameAfterSlash(p: string)
    ensures BaseName(p) == match LastSlash(p) case None => p case Some(k) => p[k + 1..]
    decreases |p|
  {
    if p != [] && p[|p| - 1] != '/' {
      var init, c := p[..|p| - 1], p[|p| - 1];
      assert p == init + [c];
      LastSlashSnoc(init, c);
      BaseNameAfterSlash(init);
      match LastSlash(init)
      case None =>
      case Some(k) =>
        assert init[k + 1..] + [c] == p[k + 1..];
    }
  }

  lemma {:induction false} LastSlashOfJoin(a: string, t: string)
    requires '/' !in t
    ensures LastSlash(a + "/" + t) == Some(|a|)
  {
    var s := a + "/" + t;
    assert s[|a|] == '/';
    forall i | |a| < i < |s| ensures s[i] != '/' {
      assert s[i] == t[i - |a| - 1];
    }
  }

  /** The directories `GetRootObject` creates for a resolved path `p`, deepest first:
      `p` itself, then `p` cut at its last '/', and so on, stopping when the last '/'
      is the first character (the chain then hangs under the root) or there is none. */
  function ChainPaths(p: string): (chain: seq<string>)
    requires |p| > 0
    ensures |chain| > 0 && chain[0] == p
    ensures LastSlash(chain[|chain| - 1]) == if p[0] == '/' then Some(0) else None
    decreases |p|
  {
    match LastSlash(p)
    case None => [p]
    case Some(k) => if k == 0 then [p] else [p] + ChainPaths(p[..k])
  }

  /** Every later directory of the chain is the previous one cut just before its last '/':
      a strictly shorter prefix of `p` that `p` continues with a '/'. */
  lemma {:induction false} ChainPrefixes(p: string)
    requires |p| > 0
    ensures forall i :: 0 < i < |ChainPaths(p)| ==>
      var c := ChainPaths(p)[i];
      0 < |c| < |p| && |c| < |ChainPaths(p)[i - 1]| && c == p[..|c|] && p[|c|] == '/'
    decreases |p|
  {
    var chain := ChainPaths(p);
    match LastSlash(p)
    case None =>
    case Some(k) =>
      if k > 0 {
        var rest := ChainPaths(p[..k]);
        ChainPrefixes(p[..k]);
        assert chain == [p] + rest;
        forall i | 0 < i < |chain|
          ensures 0 < |chain[i]| < |p| && |chain[i]| < |chain[i - 1]|
          ensures chain[i] == p[..|chain[i]|] && p[|chain[i]|] == '/'
        {
          if i == 1 {
            assert chain[i] == p[..k];
          } else {
            var c := rest[i - 1];
            assert chain[i] == c && chain[i - 1] == rest[i - 2];
            PrefixBelow(rest, i - 1);
            assert |c| < k;
            assert p[..k][..|c|] == p[..|c|];
            assert p[..k][|c|] == p[|c|];
          }
        }
      }
  }

  lemma {:induction false} PrefixBelow(rest: seq<string>, j: nat)
    requires 0 < j < |rest|
    requires forall i :: 0 < i < |rest| ==> |rest[i]| < |rest[i - 1]|
    ensures |rest[j]| < |rest[0]|
    decreases j
  {
    if j > 1 {
      PrefixBelow(rest, j - 1);
    }
  }

  lemma {:induction false} JoinPathLastSlash(segs: seq<string>)
    requires AllSegments(segs) && segs != []
    ensures LastSlash(JoinPath(segs)) == Some(|JoinPath(segs[..|segs| - 1])|)
    ensures JoinPath(segs)[..|JoinPath(segs[..|segs| - 1])|] == JoinPath(segs[..|segs| - 1])
    ensures BaseName(JoinPath(segs)) == segs[|segs| - 1]
  {
    var init, t := JoinPath(segs[..|segs| - 1]), segs[|segs| - 1];
    LastSlashOfJoin(init, t);
    BaseNameAfterSlash(JoinPath(segs));
    assert JoinPath(segs) == init + "/" + t;
    assert JoinPath(segs)[|init| + 1..] == t;
  }

  /** `chain` lists "/t1/.../tn", "/t1/.../t(n-1)", ..., "/t1" for segs = t1..tn. */
  ghost predicate IsJoinChain(chain: seq<string>, segs: seq<string>) {
    |chain| == |segs| && forall i :: 0 <= i < |segs| ==> chain[i] == JoinPath(segs[..|segs| - i])
  }

  /** Entry `i > 0` of the longer chain is entry `i - 1` of the shorter one. */
  lemma {:induction false} JoinChainAt(segs: seq<string>, rest: seq<string>, i: nat)
    requires |segs| > 1 && IsJoinChain(rest, segs[..|segs| - 1]) && 0 < i < |segs|
    ensures ([JoinPath(segs)] + rest)[i] == JoinPath(segs[..|segs| - i])
  {
    assert rest[i - 1] == JoinPath(segs[..|segs| - 1][..|segs| - 1 - (i - 1)]);
    assert segs[..|segs| - 1][..|segs| - i] == segs[..|segs| - i];
  }

  /** Putting "/t1/.../tn" in front of the chain for t1..t(n-1) gives the chain for t1..tn. */
  lemma {:induction false} JoinChainCons(segs: seq<string>, rest: seq<string>)
    requires |segs| > 1 && IsJoinChain(rest, segs[..|segs| - 1])
    ensures IsJoinChain([JoinPath(segs)] + rest, segs)
  {
    assert segs[..|segs|] == segs;
    forall i | 0 < i < |segs|
      ensures ([JoinPath(segs)] + rest)[i] == JoinPath(segs[..|segs| - i])
    {
      JoinChainAt(segs, rest, i);
    }
  }

  /** For a well-formed absolute path "/t1/.../tn" the graft chain holds exactly one
      directory per segment, "/t1/.../tn" down to "/t1". */
  lemma {:induction false} ChainOfJoinPath(segs: seq<string>)
    requires AllSegments(segs) && segs != []
    ensures IsJoinChain(ChainPaths(JoinPath(segs)), segs)
    decreases |segs|
  {
    var n := |segs|;
    var p := JoinPath(segs);
    var init := segs[..n - 1];
    JoinPathLastSlash(segs);
    if n == 1 {
      assert init == [];
      assert ChainPaths(p) == [p];
      assert segs[..1] == segs;
    } else {
      assert AllSegments(init);
      ChainOfJoinPath(init);
      ChainStep(p, |JoinPath(init)|);
      JoinChainCons(segs, ChainPaths(JoinPath(init)));
    }
  }

  lemma {:induction false} BaseNameOfJoin(segs: seq<string>)
    requires segs != [] && '/' !in segs[|segs| - 1]
    ensures BaseName(JoinPath(segs)) == segs[|segs| - 1]
  {
    var init, t := JoinPath(segs[..|segs| - 1]), segs[|segs| - 1];
    LastSlashOfJoin(init, t);
    BaseNameAfterSlash(JoinPath(segs));
    assert JoinPath(segs) == init + "/" + t;
    assert JoinPath(segs)[|init| + 1..] == t;
  }

  /** Each directory of that chain is named by the segment it ends with. */
  lemma {:induction false} ChainNames(segs: seq<string>)
    requires AllSegments(segs) && segs != []
    ensures |ChainPaths(JoinPath(segs))| == |segs|
    ensures forall i :: 0 <= i < |segs| ==> BaseName(ChainPaths(JoinPath(segs))[i]) == segs[|segs| - 1 - i]
  {
    var n := |segs|;
    var chain := ChainPaths(JoinPath(segs));
    ChainOfJoinPath(segs);
    forall i | 0 <= i < n
      ensures BaseName(chain[i]) == segs[n - 1 - i]
    {
      var pre := segs[..n - i];
      assert chain[i] == JoinPath(pre);
      BaseNameOfJoin(pre);
    }
  }

  /** How the chain goes on from its j-th directory `c`: it ends there when `c` has no
      '/' or only a leading one; otherwise the next directory is `c` cut at its last '/'. */
  lemma {:induction false} ChainLink(p: string, j: nat)
    requires |p| > 0 && j < |ChainPaths(p)|
    ensures var chain := ChainPaths(p);
      && |chain[j]| > 0
      && match LastSlash(chain[j])
         case None => j == |chain| - 1
         case Some(k) => if k == 0 then j == |chain| - 1 else j + 1 < |chain| && chain[j + 1] == chain[j][..k]
    decreases |p|
  {
    match LastSlash(p)
    case None =>
    case Some(k) =>
      if k > 0 {
        ChainStep(p, k);
        if j > 0 {
          ChainLink(p[..k], j - 1);
        }
      }
  }

  lemma {:induction false} ChainStep(p: string, k: nat)
    requires |p| > 0 && LastSlash(p) == Some(k) && k > 0
    ensures ChainPaths(p) == [p] + ChainPaths(p[..k])
  {
  }
}
