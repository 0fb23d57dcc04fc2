/** The FTP session engine (FTPSession.cpp): the lifecycle of one connection profile's
    session, the routing of every command onto the main or the transfer queue, the
    keep-alive timer, and the path logic over the cached remote directory tree. */
module Session {
  import opened Common
  import opened RemotePaths
  import opened FileTree
  import opened QueueOps
  import opened KeepAlive
  import opened Hierarchy
  import opened RootChain

  /** The parts of a connection profile the session uses: the initial directory, the
      keep-alive interval in seconds (0 for none) and the reference count that AddRef and
      Release move. */
  class Profile {
    const initialDir: string
    const noOp: Int32
    var refCount: int

    constructor (initialDir: string, noOp: Int32)
      ensures this.initialDir == initialDir && this.noOp == noOp && refCount == 1
    {
      this.initialDir := initialDir;
      this.noOp := noOp;
      refCount := 1;
    }

    method AddRef()
      modifies this`refCount
      ensures refCount == old(refCount) + 1
    {
      refCount := refCount + 1;
    }

    method Release()
      modifies this`refCount
      ensures refCount == old(refCount) - 1
    {
      refCount := refCount - 1;
    }
  }

  /** The root FileObject a session starts with: the directory "/", its own parent. Its
      name, the part of "/" after the last '/', is empty. */
  function RootNode(): (n: FileNode)
    ensures n.path == "/" && n.name == "" && n.isDir && n.children == [] && n.parent == Some(0)
  {
    NewDir("/").(parent := Some(0))
  }

  class FTPSession {
    /** Init has run (and Deinit has not run since); the window handle is set. */
    var isInit: bool
    var hasWindow: bool
    /** Init was given settings (the global cache StartSession uses). */
    var hasSettings: bool
    var currentProfile: Profile?
    /** The main and the transfer client exist. */
    var mainWrapper: bool
    var transferWrapper: bool
    /** The two work queues: None while they do not exist, otherwise the operations
        handed to them and not yet taken by their workers. */
    var mainQueue: Option<seq<QueueOp>>
    var transferQueue: Option<seq<QueueOp>>
    var running: bool
    /** The keep-alive timer: whether it is armed, how often it has fired since the last
        reset, and the period it was armed with. */
    var timerIsInit: bool
    var timerCount: int
    var timerPeriod: Option<DWord>
    /** The cached remote tree and the index of its root. */
    var nodes: seq<FileNode>
    var rootObject: Option<nat>

    /** A running session has a profile, both clients, both queues and a root; a stopped
        one has none of them. Only a running session has an armed timer. The main queue
        carries only control operations and the transfer queue only transfers. */
    ghost predicate Valid()
      reads this
    {
      && (running <==> currentProfile != null)
      && (running <==> mainWrapper) && (running <==> transferWrapper)
      && (running <==> mainQueue.Some?) && (running <==> transferQueue.Some?)
      && (running <==> rootObject.Some?)
      && (timerIsInit <==> timerPeriod.Some?)
      && (timerIsInit ==> running)
      && WellFormed(nodes)
      && (rootObject.Some? ==> rootObject.value < |nodes|)
      && (mainQueue.Some? ==> AllControl(mainQueue.value))
      && (transferQueue.Some? ==> AllTransfer(transferQueue.value))
    }

    constructor ()
      ensures Valid()
      ensures !isInit && !hasWindow && !hasSettings && !running && !timerIsInit
      ensures currentProfile == null && rootObject.None? && nodes == []
    {
      isInit, hasWindow, hasSettings := false, false, false;
      currentProfile := null;
      mainWrapper, transferWrapper := false, false;
      mainQueue, transferQueue := None, None;
      running := false;
      timerIsInit, timerCount, timerPeriod := false, 0, None;
      nodes, rootObject := [], None;
    }

    /** Binds the session to its window and settings and resets the timer bookkeeping;
        refused (-1) when already initialised. */
    method Init(settingsGiven: bool) returns (r: int)
      requires Valid()
      modifies this`isInit, this`hasWindow, this`hasSettings, this`timerCount, this`timerIsInit, this`timerPeriod
      ensures Valid()
      ensures old(isInit) ==> r == -1 && unchanged(this)
      ensures !old(isInit) ==> && r == 0 && isInit && hasWindow && hasSettings == settingsGiven
                               && timerCount == 0 && !timerIsInit && timerPeriod.None?
    {
      if isInit {
        return -1;
      }
      hasWindow := true;
      hasSettings := settingsGiven;
      isInit := true;
      timerPeriod := None;
      timerCount := 0;
      timerIsInit := false;
      return 0;
    }

    /** Drops the window; always answers 0. */
    method Deinit() returns (r: int)
      requires Valid()
      modifies this`isInit, this`hasWindow
      ensures Valid()
      ensures r == 0 && !isInit
      ensures old(isInit) ==> !hasWindow
      ensures !old(isInit) ==> unchanged(this)
    {
      if !isInit {
        return 0;
      }
      hasWindow := false;
      isInit := false;
      return 0;
    }

    /** Starts a session on `profile`; `createOk` is whether the profile could create the
        main client. */
    method StartSession(profile: Profile, createOk: bool) returns (r: int)
      requires Valid() && hasSettings
      modifies this`currentProfile, this`mainWrapper, this`transferWrapper, this`mainQueue,
               this`transferQueue, this`nodes, this`rootObject, this`running, profile`refCount
      ensures Valid()
      // already running: refused, nothing touched
      ensures old(running) ==> r == -1 && unchanged(this) && profile.refCount == old(profile.refCount)
      // the client cannot be created: the profile is released again and the session is as before
      ensures !old(running) && !createOk ==>
        r == -1 && unchanged(this) && !running && profile.refCount == old(profile.refCount)
      // started: the profile is held, both queues exist and are empty, the tree is a lone root
      ensures !old(running) && createOk ==>
        && r == 0 && running && currentProfile == profile
        && profile.refCount == old(profile.refCount) + 1
        && mainWrapper && transferWrapper
        && mainQueue == Some([]) && transferQueue == Some([])
        && nodes == [RootNode()] && rootObject == Some(0)
    {
      if running {
        return -1;
      }
      currentProfile := profile;
      currentProfile.AddRef();
      if !createOk {
        currentProfile.Release();
        currentProfile := null;
        return -1;
      }
      mainWrapper := true;
      transferWrapper := true;
      mainQueue := Some([]);
      transferQueue := Some([]);
      nodes := [RootNode()];
      rootObject := Some(0);
      running := true;
      return 0;
    }

    /** Empties and destroys both queues and both clients (the disconnect it performs on
        each client is not modelled); always answers 0. */
    method Clear() returns (r: int)
      modifies this`mainQueue, this`transferQueue, this`mainWrapper, this`transferWrapper
      ensures r == 0
      ensures mainQueue.None? && transferQueue.None? && !mainWrapper && !transferWrapper
    {
      transferQueue := None;
      mainQueue := None;
      transferWrapper := false;
      mainWrapper := false;
      return 0;
    }

    /** Ends the session; `confirmed` is the user's answer when transfers are still queued. */
    method TerminateSession(confirmed: bool) returns (r: int)
      requires Valid()
      modifies this`running, this`timerPeriod, this`timerCount, this`timerIsInit,
               this`mainQueue, this`transferQueue, this`mainWrapper, this`transferWrapper,
               this`currentProfile, this`nodes, this`rootObject,
               if currentProfile == null then {} else {currentProfile}
      ensures Valid()
      // nothing to end
      ensures !old(running) ==> r == 0 && unchanged(this)
      // transfers pending and the user declines: the session goes on untouched
      ensures old(running) && |old(transferQueue).value| > 0 && !confirmed ==>
        r == -1 && unchanged(this) && currentProfile.refCount == old(currentProfile.refCount)
      // ended: timer disarmed, profile released, queues, clients and tree gone
      ensures old(running) && (|old(transferQueue).value| == 0 || confirmed) ==>
        && r == 0 && !running
        && !timerIsInit && timerPeriod.None?
        && timerCount == (if old(timerIsInit) then 0 else old(timerCount))
        && currentProfile == null
        && old(currentProfile).refCount == old(currentProfile.refCount) - 1
        && mainQueue.None? && transferQueue.None? && !mainWrapper && !transferWrapper
        && rootObject.None? && nodes == []
        && isInit == old(isInit) && hasWindow == old(hasWindow) && hasSettings == old(hasSettings)
    {
      if !running {
        return 0;
      }
      if |transferQueue.value| > 0 && !confirmed {
        return -1;
      }
      running := false;
      if timerIsInit {
        timerPeriod := None;
        timerCount := 0;
        timerIsInit := false;
      }
      var _ := Clear();
      if currentProfile != null {
        currentProfile.Release();
      }
      currentProfile := null;
      nodes := [];
      rootObject := None;
      return 0;
    }

    /** AddQueueOp on the main queue. */
    method AddMainOp(op: QueueOp)
      requires Valid() && running && !op.IsTransfer()
      modifies this`mainQueue
      ensures Valid()
      ensures mainQueue == Some(old(mainQueue).value + [op])
    {
      mainQueue := Some(mainQueue.value + [op]);
    }

    /** AddQueueOp on the transfer queue. */
    method AddTransferOp(op: QueueOp)
      requires Valid() && running && op.IsTransfer()
      modifies this`transferQueue
      ensures Valid()
      ensures transferQueue == Some(old(transferQueue).value + [op])
    {
      transferQueue := Some(transferQueue.value + [op]);
    }

    /** Queues the connection and, for a profile with a keep-alive interval, arms the timer
        with a period half a second longer than the interval. */
    method Connect() returns (r: int)
      requires Valid()
      modifies this`mainQueue, this`timerIsInit, this`timerPeriod
      ensures Valid()
      ensures !running ==> r == -1 && unchanged(this)
      ensures running ==> r == 0 && mainQueue == Some(old(mainQueue).value + [QueueConnect])
      ensures running && currentProfile.noOp == 0 ==>
        timerIsInit == old(timerIsInit) && timerPeriod == old(timerPeriod)
      ensures running && currentProfile.noOp != 0 ==>
        timerIsInit && timerPeriod == Some(TimerPeriod(currentProfile.noOp))
    {
      if !running {
        return -1;
      }
      AddMainOp(QueueConnect);
      if currentProfile.noOp == 0 {
        return 0;
      }
      timerPeriod := Some(TimerPeriod(currentProfile.noOp));
      timerIsInit := true;
      return 0;
    }

    /** One firing of the keep-alive timer. `mainSecs` and `transSecs` are the seconds
        since the last server action that the two clients report. */
    method QueueTimerHandler(mainSecs: DWord, transSecs: DWord)
      requires Valid() && running
      modifies this`timerCount, this`mainQueue
      ensures Valid()
      ensures timerCount == old(timerCount) + 1
      ensures mainQueue == if KeepAliveDue(old(timerCount), mainSecs, transSecs, currentProfile.noOp)
                           then Some(old(mainQueue).value + [QueueNoOp])
                           else old(mainQueue)
    {
      var due := KeepAliveDue(timerCount, mainSecs, transSecs, currentProfile.noOp);
      timerCount := timerCount + 1;
      if due {
        var _ := NoOp();
      }
    }

    method GetDirectory(dir: string) returns (r: int)
      requires Valid()
      modifies this`mainQueue
      ensures Valid()
      ensures !running ==> r == -1 && unchanged(this)
      ensures running ==> r == 0 && mainQueue == Some(old(mainQueue).value + [QueueGetDir(dir, [])])
    {
      if !running {
        return -1;
      }
      AddMainOp(QueueGetDir(dir, []));
      return 0;
    }

    method NoOp() returns (r: int)
      requires Valid()
      modifies this`mainQueue
      ensures Valid()
      ensures !running ==> r == -1 && unchanged(this)
      ensures running ==> r == 0 && mainQueue == Some(old(mainQueue).value + [QueueNoOp])
    {
      if !running {
        return -1;
      }
      AddMainOp(QueueNoOp);
      return 0;
    }

    method MkDir(path: string) returns (r: int)
      requires Valid()
      modifies this`mainQueue
      ensures Valid()
      ensures !running ==> r == -1 && unchanged(this)
      ensures running ==> r == 0 && mainQueue == Some(old(mainQueue).value + [QueueCreateDir(path)])
    {
      if !running {
        return -1;
      }
      AddMainOp(QueueCreateDir(path));
      return 0;
    }

    method RmDir(path: string) returns (r: int)
      requires Valid()
      modifies this`mainQueue
      ensures Valid()
      ensures !running ==> r == -1 && unchanged(this)
      ensures running ==> r == 0 && mainQueue == Some(old(mainQueue).value + [QueueRemoveDir(path)])
    {
      if !running {
        return -1;
      }
      AddMainOp(QueueRemoveDir(path));
      return 0;
    }

    method MkFile(path: string) returns (r: int)
      requires Valid()
      modifies this`mainQueue
      ensures Valid()
      ensures !running ==> r == -1 && unchanged(this)
      ensures running ==> r == 0 && mainQueue == Some(old(mainQueue).value + [QueueCreateFile(path)])
    {
      if !running {
        return -1;
      }
      AddMainOp(QueueCreateFile(path));
      return 0;
    }

    method DeleteFile(path: string) returns (r: int)
      requires Valid()
      modifies this`mainQueue
      ensures Valid()
      ensures !running ==> r == -1 && unchanged(this)
      ensures running ==> r == 0 && mainQueue == Some(old(mainQueue).value + [QueueDeleteFile(path)])
    {
      if !running {
        return -1;
      }
      AddMainOp(QueueDeleteFile(path));
      return 0;
    }

    method Rename(oldPath: string, newPath: string) returns (r: int)
      requires Valid()
      modifies this`mainQueue
      ensures Valid()
      ensures !running ==> r == -1 && unchanged(this)
      ensures running ==> r == 0 && mainQueue == Some(old(mainQueue).value + [QueueRenameFile(oldPath, newPath)])
    {
      if !running {
        return -1;
      }
      AddMainOp(QueueRenameFile(oldPath, newPath));
      return 0;
    }

    /** Queues the download of `source` to `target` (None for a NULL pointer). When
        `targetIsDir`, the local file is `joinedTarget`, the target directory joined with
        the source's file name; `mode` is the profile's transfer mode for that name. */
    method DownloadFile(source: Option<string>, target: Option<string>, targetIsDir: bool, code: int,
                        mode: TransferMode, joinedTarget: string) returns (r: int)
      requires Valid()
      modifies this`transferQueue
      ensures Valid()
      ensures mainQueue == old(mainQueue)
      ensures (!running || source.None? || target.None?) ==> r == -1 && unchanged(this)
      ensures running && source.Some? && target.Some? ==>
        && r == 0
        && transferQueue == Some(old(transferQueue).value +
             [QueueDownload(source.value, if targetIsDir then joinedTarget else target.value, mode, code)])
    {
      if !running {
        return -1;
      }
      if source.None? || target.None? {
        return -1;
      }
      var targetFile := if targetIsDir then joinedTarget else target.value;
      AddTransferOp(QueueDownload(source.value, targetFile, mode, code));
      return 0;
    }

    /** Downloads `source` into its place in the local cache; `cacheRes` and `cacheTarget`
        are the profile's answer and the local path it resolves. */
    method DownloadFileCache(source: Option<string>, cacheRes: int, cacheTarget: string, mode: TransferMode)
      returns (r: int)
      requires Valid()
      modifies this`transferQueue
      ensures Valid()
      ensures mainQueue == old(mainQueue)
      ensures (!running || source.None?) ==> r == -1 && unchanged(this)
      ensures running && source.Some? && cacheRes != 0 ==> r == cacheRes && unchanged(this)
      ensures running && source.Some? && cacheRes == 0 ==>
        r == 0 && transferQueue == Some(old(transferQueue).value + [QueueDownload(source.value, cacheTarget, mode, 0)])
    {
      if !running {
        return -1;
      }
      if source.None? {
        return -1;
      }
      if cacheRes != 0 {
        return cacheRes;
      }
      r := DownloadFile(source, Some(cacheTarget), false, 0, mode, "");
    }

    /** Queues the download of `source` into an open local file handle. */
    method DownloadFileHandle(source: Option<string>, handle: Option<nat>, mode: TransferMode) returns (r: int)
      requires Valid()
      modifies this`transferQueue
      ensures Valid()
      ensures mainQueue == old(mainQueue)
      ensures (!running || source.None? || handle.None?) ==> r == -1 && unchanged(this)
      ensures running && source.Some? && handle.Some? ==>
        r == 0 && transferQueue == Some(old(transferQueue).value + [QueueDownloadHandle(source.value, handle.value, mode)])
    {
      if !running {
        return -1;
      }
      if source.None? || handle.None? {
        return -1;
      }
      AddTransferOp(QueueDownloadHandle(source.value, handle.value, mode));
      return 0;
    }

    /** Queues the upload of the local file `source` to the remote `target`. When
        `targetIsDir`, the remote file is `joinedTarget`, the remote directory joined with
        the source's file name. */
    method UploadFile(source: Option<string>, target: Option<string>, targetIsDir: bool, code: int,
                      mode: TransferMode, joinedTarget: string) returns (r: int)
      requires Valid()
      modifies this`transferQueue
      ensures Valid()
      ensures mainQueue == old(mainQueue)
      ensures (!running || source.None? || target.None?) ==> r == -1 && unchanged(this)
      ensures running && source.Some? && target.Some? ==>
        && r == 0
        && transferQueue == Some(old(transferQueue).value +
             [QueueUpload(if targetIsDir then joinedTarget else target.value, source.value, mode, code)])
    {
      if !running {
        return -1;
      }
      if source.None? || target.None? {
        return -1;
      }
      var targetFile := if targetIsDir then joinedTarget else target.value;
      AddTransferOp(QueueUpload(targetFile, source.value, mode, code));
      return 0;
    }

    /** Uploads the cached local file `source` to the remote path the cache maps it to. */
    method UploadFileCache(source: Option<string>, cacheRes: int, cacheTarget: string, mode: TransferMode)
      returns (r: int)
      requires Valid()
      modifies this`transferQueue
      ensures Valid()
      ensures mainQueue == old(mainQueue)
      ensures (!running || source.None?) ==> r == -1 && unchanged(this)
      ensures running && source.Some? && cacheRes != 0 ==> r == cacheRes && unchanged(this)
      ensures running && source.Some? && cacheRes == 0 ==>
        r == 0 && transferQueue == Some(old(transferQueue).value + [QueueUpload(cacheTarget, source.value, mode, 0)])
    {
      if !running {
        return -1;
      }
      if source.None? {
        return -1;
      }
      if cacheRes != 0 {
        return cacheRes;
      }
      r := UploadFile(source, Some(cacheTarget), false, 0, mode, "");
    }

    /** Lists `inputDir`, together with the ancestors the tree has not listed yet; refused
        (1) when a segment is missing from a directory the tree has already listed. */
    method GetDirectoryHierarchy(inputDir: string) returns (r: int)
      requires Valid()
      modifies this`mainQueue
      ensures Valid()
      ensures !running ==> r == -1 && unchanged(this)
      ensures running ==> match HierarchyRequest(nodes, rootObject.value, Tokens(inputDir))
        case None => r == 1 && unchanged(this)
        case Some(parentDirs) => r == 0 && mainQueue == Some(old(mainQueue).value + [QueueGetDir(inputDir, parentDirs)])
    {
      if !running {
        return -1;
      }
      var plan := PlanHierarchy(nodes, rootObject.value, Tokens(inputDir));
      if plan.None? {
        return 1;
      }
      AddMainOp(QueueGetDir(inputDir, plan.value));
      return 0;
    }

    /** The node of the tree a remote path names: None for a NULL path or as soon as a
        segment has no matching child; the root for a path with no segments. */
    method FindPathObject(filepath: Option<string>) returns (r: Option<nat>)
      requires Valid()
      requires filepath.Some? && Tokens(filepath.value) != [] ==> running
      ensures filepath.None? ==> r.None?
      ensures filepath.Some? && Tokens(filepath.value) == [] ==> r == rootObject
      ensures filepath.Some? && Tokens(filepath.value) != [] ==>
        r == Lookup(nodes, rootObject.value, Tokens(filepath.value))
    {
      if filepath.None? {
        return None;
      }
      var segs := Tokens(filepath.value);
      var current := rootObject;
      var k := 0;
      assert segs[0..] == segs;
      while k < |segs|
        invariant 0 <= k <= |segs|
        invariant segs == [] ==> current == rootObject
        invariant segs != [] ==> current.Some? && current.value < |nodes|
        invariant segs != [] ==> Lookup(nodes, rootObject.value, segs) == Lookup(nodes, current.value, segs[k..])
        decreases |segs| - k
      {
        var children := nodes[current.value].children;
        if |children| == 0 {
          return None;
        }
        var count := |children|;
        var i := 0;
        ghost var k0 := k;
        ghost var from := current.value;
        while i < count
          invariant 0 <= i <= count && k == k0 && current == Some(from)
          invariant forall j :: 0 <= j < i ==> nodes[children[j]].name != segs[k]
        {
          if nodes[children[i]].name == segs[k] {
            assert FirstNamed(nodes, children, segs[k]) == Some(i);
            assert segs[k..][1..] == segs[k + 1..];
            current := Some(children[i]);
            k := k + 1;
            break;
          }
          i := i + 1;
        }
        if i == count {
          return None;
        }
      }
      assert segs != [] ==> segs[k..] == [];
      return current;
    }

    /** Grafts the working directory under the root. `cwdRes` is the main client's answer
        to the change into the profile's initial directory; `pwdRes` and `pwdDir` are its
        answer to the request for the current directory. */
    method GetRootObject(cwdRes: int, pwdRes: int, pwdDir: string) returns (r: Option<nat>)
      requires Valid() && running
      modifies this`nodes
      ensures Valid()
      ensures r == rootObject
      ensures nodes == match ResolveDir(currentProfile.initialDir, cwdRes, pwdRes, pwdDir)
        case None => old(nodes)
        case Some(p) => Graft(old(nodes), rootObject.value, p)
    {
      var resolved := ResolveDir(currentProfile.initialDir, cwdRes, pwdRes, pwdDir);
      if resolved.Some? {
        nodes := BuildChain(nodes, rootObject.value, resolved.value);
        GraftFromStart(old(nodes), rootObject.value, resolved.value);
        GraftIsParts(old(nodes), rootObject.value, resolved.value);
      }
      return rootObject;
    }
  }
}
