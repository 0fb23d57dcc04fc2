# FTPSession: a verified model of the NppFTP session engine

This project models the session engine of the NppFTP plugin, `src/FTPSession.cpp`. The engine
holds one connection profile's session. It starts and ends the session. It routes every
command onto one of two work queues: the main queue takes directory and control commands, and
the transfer queue takes file transfers. It runs a keep-alive timer that queues a NoOp while
both connections are idle. It also keeps a cache of the remote directory tree (FileObject) and
does three kinds of path work on it:

- FindPathObject looks a remote path up in the cache.
- GetDirectoryHierarchy works out which ancestor directories a listing must fetch first.
- GetRootObject grafts the server's working directory under the root.

The model is split into modules:

- `Common` (`common.dfy`): the optional value (a NULL pointer), the C `int` and DWORD types, and
  the `(DWORD)` cast.
- `QueueOps` (`queue_ops.dfy`): the queued operations, and which of them are transfers.
- `KeepAlive` (`keep_alive.dfy`): the timer period Connect arms, and the decision each timer
  firing takes.
- `RemotePaths` (`remote_paths.dfy`): the C string routines the path logic relies on.
  - `strtok(s, "/")` is `Tokens`.
  - `strrchr(s, '/')` is `LastSlash`.
  - A FileObject's name is `BaseName`.
  - The chain of directories GetRootObject cuts a path into is `ChainPaths`.
- `FileTree` (`file_tree.dfy`): the FileObject tree as an arena, a sequence of nodes that refer to
  their children by index. Child search by name and path lookup are defined here.
- `Hierarchy` (`hierarchy.dfy`): the walk of GetDirectoryHierarchy, the ancestor list it
  produces, and the loop that builds that list (`PlanHierarchy`).
- `PrefetchList` (`prefetch_list.dfy`): the exact list of depths the walk pushes, and what the
  closing `pop_back` removes from it.
- `RootChain` (`root_chain.dfy`): the resolution of the working directory, the chain of nodes
  GetRootObject appends, and the loop that builds it (`BuildChain`).
- `Session` (`ftp_session.dfy`): the `FTPSession` class. Its fields are the session's state:
  - the init flag and the window;
  - the profile, which is reference-counted;
  - the two clients and the two queues, with `None` standing for a NULL queue;
  - the running flag and the timer;
  - the tree and its root.

  Each public operation of the source is a method with `modifies` and a contract stating the new
  state. `Valid()` holds the invariant every method keeps:
  - A running session has a profile, both clients, both queues and a root. A stopped session
    has none of them.
  - In the model, only a running session has an armed timer. The source can leave a timer
    armed after termination (see "## Left out").
  - The main queue holds only control operations, and the transfer queue holds only transfers.

Some behaviours of the code are easy to misread. The model follows the code in each:

- GetRootObject (src/FTPSession.cpp:527-550) appends a fresh chain on every call. Nothing checks
  whether the directories are already in the tree. So a second call on "/a" gives the root two
  children named "a", and the model does not claim that repeated calls leave the tree
  unchanged. No caller of GetRootObject is in src/FTPSession.cpp, and the callers are not part
  of this model. So it is not visible whether a session ever calls it twice, and this is not
  reported as a finding. `RootChain.GraftThenLookup` states the round trip only for a root
  with no child of that name yet.
- In that chain, only the nodes above the deepest one get `SetRefresh(false)`
  (src/FTPSession.cpp:536-546), as a side effect of holding a child. The deepest node keeps the
  refresh flag a new FileObject starts with.
- TerminateSession clears `m_running` (src/FTPSession.cpp:141) before it disarms the timer
  (144-151) and clears the queues (153).
- GetDirectoryHierarchy (src/FTPSession.cpp:271-310) does not push every segment past the known
  prefix. Once it has started pushing, a later segment that is a known child with a tree item
  is stepped over without being pushed. The pushed list is the known depth, then exactly the
  deeper depths that are not known, in increasing order (`PrefetchList.HierarchyClosedForm`).
  So every remaining segment is pushed exactly when no deeper level is known. Two cases of
  that are a walk that has left the known tree (`WalkOffTree`) and a known prefix that ends on
  a directory never listed (`HierarchyUnlisted`).
- The comment at src/FTPSession.cpp:312-314 says the entry `pop_back` removes is the input
  directory. That holds only when the last segment is not a known child with a tree item
  (`PrefetchList.HierarchyPopped`). Otherwise a parent directory is dropped (see "## Findings").

## Model

| member | source | states |
|---|---|---|
| Common.ToDWord | src/FTPSession.cpp:234 | The `(DWORD)` cast of a 32-bit value: a value that is already non-negative is kept, and a negative one becomes that value plus 2^32. |
| KeepAlive.TimerPeriod | src/FTPSession.cpp:190-199 | For an interval of 0..MAX_NOOP seconds, the period is interval*1000+500 ms. That lies strictly between interval and interval+1 seconds, so a firing does not fall short of the interval. |
| KeepAlive.MinSecs | src/FTPSession.cpp:227-230 | The idle time the handler compares is the smaller of the two clients' idle times, and it is one of them. |
| KeepAlive.KeepAliveDue | src/FTPSession.cpp:212-239 | Never due on the first firing after a reset, and never due when both clients report 0 idle seconds. Otherwise due exactly when both idle times exceed the interval, compared as a DWORD. For a non-negative interval, this is the same as: not the first firing and both idle times above the interval. |
| Session.Profile.AddRef | src/FTPSession.cpp:98 | Taking the profile adds one reference. |
| Session.Profile.Release | src/FTPSession.cpp:104 | Releasing the profile drops one reference. |
| Session.RootNode | src/FTPSession.cpp:118-119 | The root a session starts with is the directory "/", has no children and is its own parent. Its name, the text of "/" after the last '/', is empty. |
| Session.FTPSession.constructor | src/FTPSession.cpp:30-50 | A new session is not initialised, not running, and has no profile, no timer, no root and an empty tree. |
| Session.FTPSession.Init | src/FTPSession.cpp:60-74 | Refused with -1 and nothing changed when already initialised. Otherwise answers 0, binds the window and the settings, and resets the timer: count 0, not armed. |
| Session.FTPSession.Deinit | src/FTPSession.cpp:76-86 | Always answers 0 and leaves the session uninitialised. When it was initialised, the window is dropped; otherwise nothing changes. |
| Session.FTPSession.StartSession | src/FTPSession.cpp:93-124 | Refused with -1 and nothing changed while running. When the client cannot be created: -1, the profile's reference count is restored and the session is as before. Otherwise answers 0 and the session is running on that profile, which now holds one more reference. Both clients exist, both queues exist and are empty, and the tree is a lone root "/" that is its own parent. |
| Session.FTPSession.Clear | src/FTPSession.cpp:599-662 | Always answers 0. Both queues and both clients are gone afterwards. |
| Session.FTPSession.TerminateSession | src/FTPSession.cpp:126-165 | Not running: answers 0 and nothing changes. Transfers pending and the user declines: -1, nothing changes and the profile keeps its references. Otherwise answers 0 and the session stops: timer disarmed, with its count reset when it was armed; profile released once and detached; both queues and clients gone; tree and root gone. The init, window and settings flags are untouched. Valid() is kept. |
| Session.FTPSession.AddMainOp | src/FTPSession.cpp:181 | A control operation is appended at the end of the main queue, and the queue invariants are kept. |
| Session.FTPSession.AddTransferOp | src/FTPSession.cpp:363 | A transfer is appended at the end of the transfer queue, and the queue invariants are kept. |
| Session.FTPSession.Connect | src/FTPSession.cpp:175-208 | Not running: -1 and nothing changes. Running: answers 0 and appends one Connect operation to the main queue. When the profile's interval is non-zero, the timer is armed with period TimerPeriod(interval); when it is zero, the timer is left as it was. |
| Session.FTPSession.QueueTimerHandler | src/FTPSession.cpp:212-239 | Every firing adds one to the count. A NoOp is appended to the main queue exactly when KeepAliveDue holds for the count before the firing, the two idle times and the interval. Otherwise the queue is unchanged. |
| Session.FTPSession.GetDirectory | src/FTPSession.cpp:241-250 | Not running: -1 and nothing changes. Otherwise answers 0 and appends a listing of `dir`, with no parent directories, to the main queue. |
| Session.FTPSession.NoOp | src/FTPSession.cpp:444-453 | Not running: -1 and nothing changes. Otherwise answers 0 and appends a NoOp to the main queue. |
| Session.FTPSession.MkDir | src/FTPSession.cpp:455-464 | Not running: -1 and nothing changes. Otherwise answers 0 and appends a create-directory operation for `path` to the main queue. |
| Session.FTPSession.RmDir | src/FTPSession.cpp:466-475 | Not running: -1 and nothing changes. Otherwise answers 0 and appends a remove-directory operation for `path` to the main queue. |
| Session.FTPSession.MkFile | src/FTPSession.cpp:477-486 | Not running: -1 and nothing changes. Otherwise answers 0 and appends a create-file operation for `path` to the main queue. |
| Session.FTPSession.DeleteFile | src/FTPSession.cpp:488-497 | Not running: -1 and nothing changes. Otherwise answers 0 and appends a delete-file operation for `path` to the main queue. |
| Session.FTPSession.Rename | src/FTPSession.cpp:499-508 | Not running: -1 and nothing changes. Otherwise answers 0 and appends a rename from `oldPath` to `newPath` to the main queue. |
| Session.FTPSession.DownloadFile | src/FTPSession.cpp:342-370 | Not running, or a NULL source or target: -1 and nothing changes. Otherwise answers 0 and appends one download to the transfer queue. Its local file is the joined name when the target is a directory, and the target itself otherwise. The main queue is never touched. |
| Session.FTPSession.DownloadFileCache | src/FTPSession.cpp:325-340 | Not running, or a NULL source: -1. A failed cache lookup: its code is returned and nothing changes. Otherwise answers 0 and appends a download of the source to its cache path, with code 0, to the transfer queue. |
| Session.FTPSession.DownloadFileHandle | src/FTPSession.cpp:372-387 | Not running, or a NULL source or handle: -1 and nothing changes. Otherwise answers 0 and appends a download into the handle to the transfer queue. |
| Session.FTPSession.UploadFile | src/FTPSession.cpp:412-442 | Not running, or a NULL source or target: -1 and nothing changes. Otherwise answers 0 and appends one upload to the transfer queue. Its remote path is the joined name when the target is a directory, and the target itself otherwise. The main queue is never touched. |
| Session.FTPSession.UploadFileCache | src/FTPSession.cpp:389-410 | Not running, or a NULL source: -1. A failed cache lookup: its code is returned and nothing changes. Otherwise answers 0 and appends an upload of the source to its remote path, with code 0, to the transfer queue. |
| Session.FTPSession.GetDirectoryHierarchy | src/FTPSession.cpp:252-323 | Not running: -1. When the walk meets a segment missing from an already-listed directory: 1 and nothing is queued. Otherwise answers 0 and appends one listing of the input directory to the main queue, carrying exactly the parent directories HierarchyRequest computes. |
| Session.FTPSession.FindPathObject | src/FTPSession.cpp:555-585 | A NULL path gives NULL. A path with no segments gives the root. Any other path gives the node reached by matching each segment, in order, against the first child with that name, or NULL as soon as one has none. |
| Session.FTPSession.GetRootObject | src/FTPSession.cpp:510-553 | Always returns the root. When no working directory resolves, the tree is unchanged. Otherwise the tree becomes Graft of the old tree with the resolved directory. |
| RemotePaths.SegmentLength | src/FTPSession.cpp:271 | The length of the leading run of non-'/' characters: every character before it is not '/', and the character at it, if any, is '/'. |
| RemotePaths.Tokens | src/FTPSession.cpp:271-309 | What repeated `strtok(…, "/")` yields: every token is non-empty and holds no '/'. |
| RemotePaths.JoinPath | src/FTPSession.cpp:510-553 | "/t1/…/tn" for segments t1..tn: it starts with '/' when there are segments and is empty when there are none. |
| RemotePaths.DirPath | src/FTPSession.cpp:281-308 | The `currentPath` the hierarchy walk builds, "/t1/…/ti/": it starts and ends with '/'. |
| RemotePaths.SegmentLengthConcat | src/FTPSession.cpp:271 | A segment that ends inside `a` is not changed by appending `b`. One that runs to the end of `a` stays there when `b` starts with '/'. |
| RemotePaths.TokensConcat | src/FTPSession.cpp:271-309 | Tokenising two strings glued at a '/' gives the tokens of each, one after the other. |
| RemotePaths.TokensOfSegment | src/FTPSession.cpp:271 | A single segment, with or without a leading '/', tokenises to itself. |
| RemotePaths.TokensOfJoinPath | src/FTPSession.cpp:555-585 | Round trip: tokenising "/t1/…/tn" gives back t1..tn. |
| RemotePaths.TokensOfDirPath | src/FTPSession.cpp:281-308 | Round trip: tokenising "/t1/…/tn/" gives back t1..tn. |
| RemotePaths.LastSlashBelow | src/FTPSession.cpp:534 | The last '/' before position n: it is a '/', and no later one comes before n. None exactly when there is none. |
| RemotePaths.LastSlash | src/FTPSession.cpp:534 | `strrchr(s, '/')`: the position of a '/' with none after it, or None exactly when `s` has no '/'. |
| RemotePaths.BaseName | src/FTPSession.cpp:530 | The name a FileObject takes from its path holds no '/' and is no longer than the path. |
| RemotePaths.LastSlashSnoc | src/FTPSession.cpp:534 | Appending a non-'/' character does not move the last '/'. |
| RemotePaths.BaseNameAfterSlash | src/FTPSession.cpp:530 | The name is the text after the last '/', or the whole path when it has no '/'. |
| RemotePaths.LastSlashOfJoin | src/FTPSession.cpp:534-549 | In a + "/" + t, with t free of '/', the last '/' is the one at position \|a\|. |
| RemotePaths.ChainPaths | src/FTPSession.cpp:527-550 | The directories GetRootObject creates for a path begin with the path itself. The last one has only a leading '/' when the path is absolute, and no '/' otherwise. |
| RemotePaths.ChainPrefixes | src/FTPSession.cpp:527-550 | Every later directory of the chain is a strictly shorter prefix of the path, cut just before a '/'. Each is shorter than the one before it. |
| RemotePaths.JoinPathLastSlash | src/FTPSession.cpp:534-549 | The last '/' of "/t1/…/tn" ends "/t1/…/t(n-1)". Cutting there gives that shorter path, and the name of the full path is tn. |
| RemotePaths.ChainOfJoinPath | src/FTPSession.cpp:527-550 | For "/t1/…/tn", the chain is "/t1/…/tn", "/t1/…/t(n-1)", …, "/t1". |
| RemotePaths.BaseNameOfJoin | src/FTPSession.cpp:530 | The name of "/t1/…/tn" is tn. |
| RemotePaths.ChainNames | src/FTPSession.cpp:527-550 | For "/t1/…/tn", the chain has n directories, and the i-th of them is named t(n-i). |
| RemotePaths.ChainLink | src/FTPSession.cpp:534-549 | Each directory of the chain is non-empty. When its last '/' is past the first character, the next directory is it cut there. Otherwise it is the last one. |
| RemotePaths.ChainStep | src/FTPSession.cpp:543-549 | One turn of the loop: the chain of a path with a '/' past its first character is the path followed by the chain of its cut. |
| FileTree.NewDir | src/FTPSession.cpp:530 | Definition: `new FileObject(path, true, false)`, a directory named by its path's last segment, with no children, no tree item and no parent. |
| FileTree.FirstNamed | src/FTPSession.cpp:567-577 | The position of the first child with that name: no earlier child has it, and None means no child has it. |
| FileTree.FirstNamedAt | src/FTPSession.cpp:567-577 | A child with the name and no earlier one with it is the match the search finds. |
| FileTree.ChildByName | src/FTPSession.cpp:277 | A child found is one of the node's children and has the name. None means no child has it, and a node without children has none. |
| FileTree.Lookup | src/FTPSession.cpp:555-585 | A lookup that succeeds ends on a node of the tree. |
| FileTree.LookupAppend | src/FTPSession.cpp:562-582 | Looking up one more segment is one more child search from where the shorter lookup ended. |
| FileTree.LookupPrefixes | src/FTPSession.cpp:562-582 | A lookup that succeeds also succeeds on every prefix of the path, and ends on a node named by the last segment. |
| FileTree.LookupSplit | src/FTPSession.cpp:562-582 | A lookup splits at any point into the lookup of the prefix, then the rest from where that ended. |
| FileTree.LookupStopsEarly | src/FTPSession.cpp:566-580 | Once a prefix is missing, or ends on a node with no children while segments remain, the whole lookup is missing. |
| Hierarchy.Walk | src/FTPSession.cpp:271-310 | Definition: the loop of GetDirectoryHierarchy over the segments. It descends at a known child with a tree item, answers None where the source returns 1, and otherwise pushes. |
| Hierarchy.KnownDepth | src/FTPSession.cpp:279-289 | Definition: how many leading segments are known children carrying a tree item. |
| Hierarchy.PrefetchDepths | src/FTPSession.cpp:315-316 | Definition: the closing `pop_back`, all pushed entries but the last. |
| Hierarchy.DirPaths | src/FTPSession.cpp:303-308 | Definition: the `currentPath` strings the walk pushes, one per depth. |
| Hierarchy.DirPathsSplit | src/FTPSession.cpp:303-308 | Every entry of the pushed list starts and ends with '/' and tokenises back to the segments its depth covers, so the list holds one directory per depth, in order. |
| Hierarchy.KnownDepthFrom | src/FTPSession.cpp:279-289 | The depth up to which every segment is a known child with a tree item lies between the starting depth and the path's length. |
| Hierarchy.NextStep | src/FTPSession.cpp:275-277 | Where the walk stands after i+1 segments is the child search, from where it stood after i, for segment i. |
| Hierarchy.WalkNoneIff | src/FTPSession.cpp:294-297 | From any depth, the walk returns 1 exactly when some later segment is missing from a directory it reaches that has already been listed. |
| Hierarchy.HierarchyRefusedIff | src/FTPSession.cpp:252-323 | GetDirectoryHierarchy answers 1 exactly when some segment is missing from an already-listed directory on the path. |
| Hierarchy.WalkAfterPush | src/FTPSession.cpp:300-309 | Once pushing has started, the walk only adds entries. The list keeps what it had, stays strictly increasing, and stays within the path. |
| Hierarchy.WalkBeforePushEmpty | src/FTPSession.cpp:279-309 | Before anything is pushed, the walk ends with nothing pushed exactly when every remaining segment is a known child with a tree item. |
| Hierarchy.WalkBeforePush | src/FTPSession.cpp:279-309 | A walk that pushes, pushes at least two entries. The first is the depth of the known prefix, and the list is strictly increasing and within the path. |
| Hierarchy.HierarchyPrefetchShape | src/FTPSession.cpp:252-323 | The parent list is empty exactly when the whole path is known with tree items. Otherwise it starts at the known prefix, increases strictly, and holds only proper prefixes of the path. |
| Hierarchy.WalkOffTree | src/FTPSession.cpp:300-309 | Once the walk has left the known tree, every remaining segment is pushed, one depth each. |
| Hierarchy.WalkSkipsKnown | src/FTPSession.cpp:279-289 | Known children with tree items are stepped over without pushing anything. |
| Hierarchy.HierarchyUnlisted | src/FTPSession.cpp:252-323 | When the known prefix ends on a directory that has never been listed, the walk pushes every depth from there to the end. The listing then carries exactly the paths of the known prefix and of every deeper proper prefix, in order. |
| Hierarchy.WalkBounded | src/FTPSession.cpp:300-309 | Every pushed depth is within the path. |
| Hierarchy.HierarchyRequest | src/FTPSession.cpp:252-323 | The request is refused exactly when some segment is missing from an already-listed directory on the path. |
| Hierarchy.PrefetchPathsSplit | src/FTPSession.cpp:303-308 | Every parent directory handed to the listing tokenises back to the segments it covers. |
| Hierarchy.DirPathsSnoc | src/FTPSession.cpp:308 | Pushing one more depth appends its directory path. |
| Hierarchy.DirPathNext | src/FTPSession.cpp:284 | `currentPath` followed by the next segment and a '/' is the directory path one level deeper. |
| Hierarchy.DirPathsPop | src/FTPSession.cpp:315-316 | Dropping the last pushed path gives the paths of the prefetch depths. |
| Hierarchy.WalkPushes | src/FTPSession.cpp:300-309 | At a segment that neither descends nor refuses, the walk pushes and goes on from the child, or from outside the known tree. |
| Hierarchy.WalkDescends | src/FTPSession.cpp:279-287 | At a known child with a tree item, the walk descends without pushing. |
| Hierarchy.WalkRefuses | src/FTPSession.cpp:292-297 | At a missing child of a listed directory, the walk returns 1. |
| Hierarchy.RequestOfWalk | src/FTPSession.cpp:313-316 | A finished walk's depths are within the path, and the request is their paths without the last one. |
| Hierarchy.PushedPaths | src/FTPSession.cpp:302-308 | A push adds the current path first when the list is empty, then the next path. |
| Hierarchy.PlanHierarchy | src/FTPSession.cpp:252-323 | The loop of GetDirectoryHierarchy computes exactly HierarchyRequest: None when it would return 1, otherwise the parent directories it hands to the listing. |
| RootChain.DirNode | src/FTPSession.cpp:530 | Definition: the FileObject the loop creates for one chain path, holding the node created before it (with refresh cleared) when there is one. |
| RootChain.GraftFrom | src/FTPSession.cpp:534-550 | Definition: the loop of GetRootObject, cutting the path at its last '/' and creating one node per turn. |
| RootChain.ResolveDir | src/FTPSession.cpp:511-525 | An absolute initial directory whose CWD succeeds is used when it is longer than "/". Otherwise the PWD answer is used when it succeeds and is longer than "/". Nothing resolves in all other cases, and a resolved directory is longer than one character. |
| RootChain.ChainNodesGrow | src/FTPSession.cpp:543-547 | One more directory of the chain is one more node, holding the node created before it. |
| RootChain.ChainNodesAt | src/FTPSession.cpp:527-550 | The i-th appended node is the chain node for the i-th directory. |
| RootChain.AttachTop | src/FTPSession.cpp:536-538 | Only the root's child list and refresh flag change: it gains the chain's top as its last child and has refresh cleared. Its name, path, parent, directory flag and tree item are kept. |
| RootChain.ChainNodesBelow | src/FTPSession.cpp:527-550 | The appended nodes refer only to nodes inside the new arena. |
| RootChain.AppendBelow | src/FTPSession.cpp:527-550 | Two parts whose child indices are in bounds stay in bounds when put together. |
| RootChain.AttachBelow | src/FTPSession.cpp:536-538 | Hanging the chain's top under the root keeps every child index in bounds. |
| RootChain.AppendChain | src/FTPSession.cpp:527-550 | The arena after appending a chain stays well formed and grows by the chain's length. Every old node but the root is unchanged. The root gains the chain's top only when the chain is attached. |
| RootChain.Graft | src/FTPSession.cpp:527-550 | The tree after GetRootObject stays well formed and gains one node per chain directory. Other old nodes are unchanged. The root gains the top as its last child exactly when the path is absolute. |
| RootChain.ChainEnds | src/FTPSession.cpp:534-540 | The chain ends at the directory with no '/' past its first character, and that directory has a leading '/' exactly when the path is absolute. |
| RootChain.AppendChainParts | src/FTPSession.cpp:527-550 | The appended arena is the old one, with the root updated when attached, followed by the chain's nodes. |
| RootChain.GraftIsParts | src/FTPSession.cpp:527-550 | Graft is the old arena, with the root updated when the path is absolute, followed by the chain's nodes. |
| RootChain.GraftNodeAt | src/FTPSession.cpp:530-547 | Each node the graft adds is a directory for its chain path, named by the path's last segment, with no tree item. The deepest is childless with the new-object refresh flag. Every other holds the node created just before it and has refresh cleared. |
| RootChain.GraftFromStep | src/FTPSession.cpp:543-549 | One turn of the loop: cut at the last '/', create the directory for the cut path and go on from it. |
| RootChain.GraftFromEnd | src/FTPSession.cpp:534-540 | The loop's last turn: only a leading '/' hangs the last node under the root; no '/' leaves the chain detached. |
| RootChain.ChainIsLinked | src/FTPSession.cpp:534-549 | The chain of a path is linked the way the loop walks it: each directory is followed by its cut at the last '/', ending with one that has a leading '/' exactly when the path is absolute. |
| RootChain.GraftFromNext | src/FTPSession.cpp:543-549 | One loop turn from the j-th chain directory is the loop from the (j+1)-th, with its node created. |
| RootChain.GraftFromLinked | src/FTPSession.cpp:527-550 | From any directory of a linked chain, the loop ends with every chain node created and the root attached exactly when the path is absolute. |
| RootChain.GraftFromStart | src/FTPSession.cpp:527-550 | What the loop builds from the resolved directory is the graft's parts. |
| RootChain.BuildChain | src/FTPSession.cpp:527-550 | The loop of GetRootObject builds exactly what GraftFrom specifies from the resolved directory. |
| RootChain.ChainLookup | src/FTPSession.cpp:562-582 | Down a chain of nodes, each holding the next, the remaining segments lead to the deepest node. |
| RootChain.ChainNodeAt | src/FTPSession.cpp:530-547 | Each appended node is a directory for its path, named by its last segment, with no tree item. The deepest is childless and fresh; every other holds the one before it, with refresh cleared. |
| RootChain.AppendChainShaped | src/FTPSession.cpp:530-547 | The appended nodes form a chain named by the segments, deepest first. |
| RootChain.LookupThroughTop | src/FTPSession.cpp:562-582 | When the root's only child named t1 is the chain's top, looking up t1..tn from the root reaches the deepest node. |
| RootChain.OldKidsUnchanged | src/FTPSession.cpp:536-538 | The graft does not rename the root's old children. |
| RootChain.AppendChainLookup | src/FTPSession.cpp:510-585 | When a chain for t1..tn is hung under a root with no child named t1, looking t1..tn up from the root lands on the deepest new node. |
| RootChain.GraftThenLookup | src/FTPSession.cpp:510-585 | Round trip of GetRootObject and FindPathObject. Once "/t1/…/tn" is grafted under a root with no child named t1, looking the same path up reaches the deepest new node. |
| PrefetchList.Known | src/FTPSession.cpp:279-282 | Definition: depth d is known when the first d segments lead to a node that has a tree item. |
| PrefetchList.UnknownBelow | src/FTPSession.cpp:272-310 | Definition: following the path from where the walk stands, the deeper depths that are not known. |
| PrefetchList.UnknownBelowRises | src/FTPSession.cpp:300-309 | The depths listed lie past the starting depth and within the path, and increase strictly. |
| PrefetchList.UnknownBelowSpec | src/FTPSession.cpp:279-309 | From where the first i segments lead, the list holds only depths past i that are not known, and every such depth. |
| PrefetchList.UnknownBelowLast | src/FTPSession.cpp:279-309 | The list ends with the full depth exactly when the full path is not known. |
| PrefetchList.KnownUpToDepth | src/FTPSession.cpp:279-289 | Every level past the starting depth and up to the known depth is known. |
| PrefetchList.KnownDepthStops | src/FTPSession.cpp:279-289 | The level just past the known depth, if any, is not known. |
| PrefetchList.WalkPushesUnknown | src/FTPSession.cpp:279-309 | After the first push, the walk adds exactly the deeper depths that are not known, when it does not refuse. |
| PrefetchList.WalkFirstPush | src/FTPSession.cpp:302-309 | At the first level that is not known, the walk pushes that level, then every deeper level that is not known. |
| PrefetchList.HierarchyDepths | src/FTPSession.cpp:265-310 | The pushed depths are nothing when the whole path is known, and otherwise the known depth followed by the deeper depths that are not known. |
| PrefetchList.HierarchyClosedForm | src/FTPSession.cpp:265-310 | When some level is not known, the pushed list starts at the known depth, increases strictly, and after it holds exactly the deeper depths that are not known. |
| PrefetchList.HierarchyPopped | src/FTPSession.cpp:312-316 | The entry `pop_back` removes is the input directory exactly when the full path is not known. |
| PrefetchList.Below | src/FTPSession.cpp:312-314 | The depths of a list that are below n, and all of them. |
| PrefetchList.IntendedRequest | src/FTPSession.cpp:312-316 | The request with only the input directory removed is refused exactly when the code's request is. |
| PrefetchList.IntendedKeepsParents | src/FTPSession.cpp:312-314 | The intended list holds the directory of every pushed depth short of the full path, and nothing else. |
| PrefetchList.IntendedAgrees | src/FTPSession.cpp:312-316 | When the full path is not known, or every level is, the code's request is the intended one. |
| PrefetchList.BelowDropsLast | src/FTPSession.cpp:315-316 | For a strictly increasing list ending at n, the depths below n are the list without its last entry. |
| PrefetchList.DropsParentWalk | src/FTPSession.cpp:272-310 | On a root holding "a" without a tree item, and "a" holding "b" with one, the walk for "/a/b" pushes depths 0 and 1. |
| PrefetchList.HierarchyDropsParent | src/FTPSession.cpp:312-316 | On that tree the code's request for "/a/b" carries only "/". The intended one carries "/" and "/a/". |

## Findings

| source | as written | input that shows it | evidently intended | confidence | as-written member | corrected member |
|---|---|---|---|---|---|---|
| src/FTPSession.cpp:312-316 | `pop_back` always drops the last pushed directory, as the comment says it is the input directory | the root holds "a" with no tree item, "a" holds "b" with one; request "/a/b": "/" and "/a/" are pushed, "b" is stepped over, and the listing carries only "/" | drop only the input directory, so the listing carries "/" and "/a/" | medium, not executed | PrefetchList.HierarchyDropsParent | PrefetchList.IntendedRequest |

## Left out

- Threads: the two queue workers, the timer thread and the message loop are not modelled. A queue is the sequence of operations submitted to it that are pending or in flight, which is what `GetQueueSize` counts (src/FTPSession.cpp:135).
- The per-operation results, which arrive only as notifications.
- The timer's handle and thread: CreateTimerQueueTimer and DeleteTimerQueueTimer are reduced to an armed flag and a period. A failed CreateTimerQueueTimer still sets the flag in the source, and the model keeps that.
- Inputs of the model:
  - the user's answer in TerminateSession;
  - whether the profile can create a client;
  - the clients' CWD, PWD and LastAction answers;
  - the profile's cache-path answers and transfer mode;
  - the path-joining helpers' results.
- AbortOperation, AbortTransfer and CancelOperation: they only forward to the client or queue. The queue that runs them is not modelled.
- The destructor (src/FTPSession.cpp:52-58) is not modelled. It calls TerminateSession when running, then Clear even when the user declined the termination. SetCertificates, IsConnected and GetCurrentProfile hold no logic of their own. SetEnvironment on the global cache is out of scope too.
- Session.FTPSession.Clear: the client aborts and the disconnect operation it performs on each client are not modelled.
- Session.Profile.Release: deleting the profile when its count reaches zero is not modelled.
- Session.FTPSession.QueueTimerHandler: the firing counter is an unbounded integer. The source's `int` would overflow only after 2^31 firings.
- KeepAlive.TimerPeriod: beyond MAX_NOOP seconds the source's `noOp * 1000 + 500` overflows a C `int` (undefined behaviour). The model reduces it modulo 2^32 and states the period only up to MAX_NOOP.
- MAX_PATH: the fixed buffers and `strcpy` into them assume paths fit. The model has unbounded strings, and the `strdup` copies that are never freed are not modelled.
- The self-overlapping `sprintf(currentPath, "%s%s/", currentPath, pathEntry)`: the model gives it its evident meaning, appending the segment and a '/'.
- FileObject is not part of this model. The model assumes:
  - a node's name is the text after the last '/' of its path, so the root "/" is named "";
  - a new node has refresh flag NEW_OBJECT_REFRESH;
  - GetChildByName returns the first child with that name, as FindPathObject's own loop does;
  - AddChild appends the child and does not set its parent.
  WellFormed constrains only child indices, not parent links.
- Session.FTPSession.GetRootObject and Session.FTPSession.GetDirectoryHierarchy run their loops through module-level methods over the arena value (`RootChain.BuildChain`, `Hierarchy.PlanHierarchy`). The loop in GetDirectoryHierarchy uses a flag where the source uses `continue`.
- Session.FTPSession.FindPathObject requires a running session whenever the path has a segment. The source would dereference a NULL root in that case.
- Session.FTPSession.GetRootObject requires a running session. The source reads `m_currentProfile->GetInitialDir()` (src/FTPSession.cpp:512), and that profile is NULL when the session is not running.
- Session.FTPSession.Connect: the timer is one armed flag, not a set of timer handles. A second Connect on a running session creates a second timer over `m_timerHandle` (src/FTPSession.cpp:191-205), and TerminateSession deletes only the last handle (146-151). The first timer keeps firing. Deinit then Init on a running session with an armed timer leaks it the same way: Init sets `m_timerHandle` to NULL and clears `m_timerIsInit` without deleting the timer (src/FTPSession.cpp:69-71), so the timer keeps firing and TerminateSession never deletes it (146-151). The model's Init sets the timer to not armed.
- Session.FTPSession.QueueTimerHandler does not require an armed timer. A timer leaked by a second Connect (see the Connect line) survives TerminateSession, and it can fire on a later running session whose own timer is not armed.
- Session.FTPSession.QueueTimerHandler: it is modelled only on a running session. A leaked timer firing after termination reaches `m_mainWrapper->LastAction()` on a NULL client (src/FTPSession.cpp:219), which the model does not capture.
- Session.FTPSession.GetDirectoryHierarchy queues the parent list as the code computes it (HierarchyRequest, with the unconditional `pop_back`), not the corrected PrefetchList.IntendedRequest. The two agree whenever the full path is not known or every level is (PrefetchList.IntendedAgrees).
- Session.FTPSession.TerminateSession: deleting the FileObject tree is modelled as emptying the arena.
