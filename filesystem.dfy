/** ExtFileSystem: one mounted ext4 partition of an ExtDisk. It owns the engine
    device name and mount point of the session, maps session paths onto engine
    paths, lists and searches directories, runs the checked file operations and
    tears the session down. Engine statuses are parameters of the operations that
    receive them; the engine's volume state and call log live in a Native. */
module FileSystem {
  import opened Errors
  import opened Engine
  import opened Paths
  import opened Wildcards
  import opened DirectorySearch
  import opened Disk
  import opened Streams
  import opened Timestamps

  /** The copy buffer of CopyFile. */
  const BufferSize: nat := 65536

  datatype SearchOption = TopDirectoryOnly | AllDirectories

  /** The mount point Open builds from the device name. */
  function MountPointOf(name: string): (mp: string)
    ensures |mp| == |name| + 2 && mp[0] == '/' && mp[|mp| - 1] == '/'
    ensures mp[1..|mp| - 1] == name
  {
    "/" + name + "/"
  }

  /** The engine calls of Open after the block device is bound: init, register, and
      when registration succeeded, mount, and when mounting then failed, unregister. */
  function OpenTrace(bd: BlockDev, name: string, regOk: bool, mountOk: bool): seq<Call> {
    [BlockInit(bd), Register(name, regOk)]
    + if regOk then [Mount(name, MountPointOf(name), mountOk)] + (if mountOk then [] else [Unregister(name)])
      else []
  }

  /** The calls of ~ExtFileSystem on a fully opened session. */
  function DestroyTrace(bd: BlockDev, name: string): seq<Call> {
    [Umount(MountPointOf(name)), Unregister(name), BlockFini(bd), FreeDevName(name)]
  }

  /** A failed Open leaves the engine's device and mount tables as it found them. */
  lemma FailedOpenLeavesNoDevice(reg: set<string>, mnt: set<string>, bd: BlockDev, name: string,
                                 regOk: bool, mountOk: bool)
    requires name !in reg && !(regOk && mountOk)
    ensures RegisteredAfter(reg, OpenTrace(bd, name, regOk, mountOk)) == reg
    ensures MountedAfter(mnt, OpenTrace(bd, name, regOk, mountOk)) == mnt
  {
    var tail := if regOk then [Mount(name, MountPointOf(name), mountOk), Unregister(name)] else [];
    assert OpenTrace(bd, name, regOk, mountOk) == [BlockInit(bd)] + ([Register(name, regOk)] + tail);
    ReplayCons(reg, mnt, BlockInit(bd), [Register(name, regOk)] + tail);
    ReplayCons(reg, mnt, Register(name, regOk), tail);
    if regOk {
      ReplayCons(reg + {name}, mnt, Mount(name, MountPointOf(name), mountOk), [Unregister(name)]);
      ReplayCons(reg + {name}, mnt, Unregister(name), []);
      assert reg + {name} - {name} == reg;
    }
  }

  /** A successful Open registers the device and mounts its mount point. */
  lemma OpenRegisters(reg: set<string>, mnt: set<string>, bd: BlockDev, name: string)
    ensures RegisteredAfter(reg, OpenTrace(bd, name, true, true)) == reg + {name}
    ensures MountedAfter(mnt, OpenTrace(bd, name, true, true)) == mnt + {MountPointOf(name)}
  {
    var mp := MountPointOf(name);
    assert OpenTrace(bd, name, true, true) == [BlockInit(bd)] + ([Register(name, true)] + ([Mount(name, mp, true)] + []));
    ReplayCons(reg, mnt, BlockInit(bd), [Register(name, true)] + ([Mount(name, mp, true)] + []));
    ReplayCons(reg, mnt, Register(name, true), [Mount(name, mp, true)] + []);
    ReplayCons(reg + {name}, mnt, Mount(name, mp, true), []);
  }

  /** The destructor unmounts the mount point and unregisters the device. */
  lemma DestroyUnregisters(reg: set<string>, mnt: set<string>, bd: BlockDev, name: string)
    ensures RegisteredAfter(reg, DestroyTrace(bd, name)) == reg - {name}
    ensures MountedAfter(mnt, DestroyTrace(bd, name)) == mnt - {MountPointOf(name)}
  {
    var mp := MountPointOf(name);
    var reg', mnt' := reg - {name}, mnt - {mp};
    assert DestroyTrace(bd, name) == [Umount(mp)] + ([Unregister(name)] + ([BlockFini(bd)] + ([FreeDevName(name)] + [])));
    ReplayCons(reg, mnt, Umount(mp), [Unregister(name)] + ([BlockFini(bd)] + ([FreeDevName(name)] + [])));
    ReplayCons(reg, mnt', Unregister(name), [BlockFini(bd)] + ([FreeDevName(name)] + []));
    ReplayCons(reg', mnt', BlockFini(bd), [FreeDevName(name)] + []);
    ReplayCons(reg', mnt', FreeDevName(name), []);
  }

  /** A successful Open followed by the destructor leaves the engine's device and
      mount tables as it found them. */
  lemma OpenThenDestroy(reg: set<string>, mnt: set<string>, bd: BlockDev, name: string)
    requires name !in reg && MountPointOf(name) !in mnt
    ensures RegisteredAfter(reg, OpenTrace(bd, name, true, true) + DestroyTrace(bd, name)) == reg
    ensures MountedAfter(mnt, OpenTrace(bd, name, true, true) + DestroyTrace(bd, name)) == mnt
  {
    var o, d := OpenTrace(bd, name, true, true), DestroyTrace(bd, name);
    OpenRegisters(reg, mnt, bd, name);
    DestroyUnregisters(reg + {name}, mnt + {MountPointOf(name)}, bd, name);
    assert reg + {name} - {name} == reg && mnt + {MountPointOf(name)} - {MountPointOf(name)} == mnt;
    RegisteredAppend(reg, o, d);
    MountedAppend(mnt, o, d);
  }

  /** The argument and existence checks shared by RenameFile, MoveDirectory and
      CopyFile, in the order the source makes them: an empty name, then a missing
      source (reported as `missing`), then an existing target. */
  function TransferCheck(source: string, target: string, sourceExists: bool, targetExists: bool,
                         missing: Error): (r: Option<Error>)
    ensures r == None <==> source != [] && target != [] && sourceExists && !targetExists
    ensures source == [] || target == [] ==> r == Some(ArgumentNull)
    ensures source != [] && target != [] && !sourceExists ==> r == Some(missing)
    ensures source != [] && target != [] && sourceExists && targetExists ==> r == Some(AlreadyExists)
  {
    if source == [] || target == [] then Some(ArgumentNull)
    else if !sourceExists then Some(missing)
    else if targetExists then Some(AlreadyExists)
    else None
  }

  /** The content of a file cut or zero-extended to size bytes. */
  function Resized(content: seq<bv8>, size: nat): (r: seq<bv8>)
    ensures |r| == size
    ensures forall i :: 0 <= i < size && i < |content| ==> r[i] == content[i]
    ensures forall i :: |content| <= i < size ==> r[i] == 0
  {
    if size <= |content| then content[..size] else content + seq(size - |content|, _ => 0 as bv8)
  }

  /** Resizing to a size twice is resizing once. */
  lemma ResizeIdempotent(content: seq<bv8>, size: nat)
    ensures Resized(Resized(content, size), size) == Resized(content, size)
  {
  }

  /** Resizing a file to its own length leaves it as it is. */
  lemma ResizeToOwnLength(content: seq<bv8>)
    ensures Resized(content, |content|) == content
  {
  }

  lemma SumSnoc(xs: seq<nat>, x: nat)
    ensures Sum(xs + [x]) == Sum(xs) + x
  {
    assert (xs + [x])[..|xs|] == xs;
  }

  /** The write sizes of a copy of `total` bytes: each between 1 and BufferSize,
      summing to the total. */
  predicate Chunked(writes: seq<nat>, total: nat) {
    && Sum(writes) == total
    && (forall k :: 0 <= k < |writes| ==> 0 < writes[k] <= BufferSize)
  }

  /** The state of the copy loop after the source has been read up to pos, the
      last read having returned the bytesRead bytes `last` that are not yet
      written; counts are the byte counts the source's reads returned so far. */
  predicate CopyProgress(data: seq<bv8>, pos: nat, bytesRead: nat, last: seq<bv8>,
                         written: seq<bv8>, writes: seq<nat>, counts: seq<nat>) {
    ReadState(data, pos, bytesRead, last, written) && WriteLog(writes, counts, bytesRead, |written|)
  }

  /** What has been read and written of the source: everything before the last
      read is written, and only a read at the end returns nothing. */
  predicate ReadState(data: seq<bv8>, pos: nat, bytesRead: nat, last: seq<bv8>, written: seq<bv8>) {
    && bytesRead <= pos <= |data|
    && bytesRead <= BufferSize
    && last == data[pos - bytesRead..pos]
    && written == data[..pos - bytesRead]
    && (bytesRead == 0 ==> pos == |data|)
  }

  /** Every read but the last has been written with its own count, and nothing
      else has been written. */
  predicate WriteLog(writes: seq<nat>, counts: seq<nat>, bytesRead: nat, total: nat) {
    counts == writes + [bytesRead] && Chunked(writes, total)
  }

  /** The first read of BufferSize bytes, as Stream.Read allows it, sets up the
      loop state. */
  lemma CopyStart(data: seq<bv8>, n: nat)
    requires (n == 0 <==> |data| == 0) && n <= Min(BufferSize, |data|)
    ensures CopyProgress(data, n, n, data[..n], [], [], [n])
  {
  }

  /** Writing the bytes just read and reading the next ones keeps the loop state,
      whatever count the read returns within the Stream.Read contract. */
  lemma CopyStep(data: seq<bv8>, pos: nat, bytesRead: nat, last: seq<bv8>, written: seq<bv8>,
                 writes: seq<nat>, counts: seq<nat>, n: nat, pos': nat, next: seq<bv8>,
                 written': seq<bv8>, writes': seq<nat>, counts': seq<nat>)
    requires CopyProgress(data, pos, bytesRead, last, written, writes, counts) && bytesRead > 0
    requires (n == 0 <==> pos == |data|) && n <= Min(BufferSize, |data| - pos) && pos' == pos + n
    requires next == data[pos..pos'] && written' == written + last
    requires writes' == writes + [bytesRead] && counts' == counts + [n]
    ensures CopyProgress(data, pos', n, next, written', writes', counts')
  {
    ReadStep(data, pos, bytesRead, last, written, n, pos', next, written');
    WriteStep(writes, counts, bytesRead, |written|, n, writes', counts');
  }

  /** A read continues the source exactly where the previous one stopped. */
  lemma ReadStep(data: seq<bv8>, pos: nat, bytesRead: nat, last: seq<bv8>, written: seq<bv8>,
                 n: nat, pos': nat, next: seq<bv8>, written': seq<bv8>)
    requires ReadState(data, pos, bytesRead, last, written) && bytesRead > 0
    requires (n == 0 <==> pos == |data|) && n <= Min(BufferSize, |data| - pos) && pos' == pos + n
    requires next == data[pos..pos'] && written' == written + last
    ensures ReadState(data, pos', n, next, written')
    ensures |written'| == |written| + bytesRead
  {
    assert data[..pos - bytesRead] + data[pos - bytesRead..pos] == data[..pos];
  }

  /** Each write has the exact count of the read before it. */
  lemma WriteStep(writes: seq<nat>, counts: seq<nat>, bytesRead: nat, total: nat, n: nat,
                  writes': seq<nat>, counts': seq<nat>)
    requires WriteLog(writes, counts, bytesRead, total) && 0 < bytesRead <= BufferSize
    requires writes' == writes + [bytesRead] && counts' == counts + [n]
    ensures WriteLog(writes', counts', n, total + bytesRead)
  {
    SumSnoc(writes, bytesRead);
    assert counts' == writes' + [n];
    forall k | 0 <= k < |writes'|
      ensures 0 < writes'[k] <= BufferSize
    {
      if k < |writes| {
        assert writes'[k] == writes[k];
      }
    }
  }

  /** When a read returns nothing, the whole source has been written, once, by one
      write per earlier read. */
  lemma CopyDone(data: seq<bv8>, pos: nat, last: seq<bv8>, written: seq<bv8>, writes: seq<nat>, counts: seq<nat>)
    requires CopyProgress(data, pos, 0, last, written, writes, counts)
    ensures written == data
    ensures counts == writes + [0]
    ensures Chunked(writes, |data|)
  {
    assert data[..pos] == data;
  }

  /** The copy loop of CopyFile: reads the source through a BufferSize buffer and
      writes every chunk read, stopping at the first read that returns nothing.
      Whatever counts the source's reads return, the target holds exactly the
      source, each write copies the read before it, and the last read is the
      empty one. */
  method CopyStream(data: seq<bv8>, sizes: seq<nat>) returns (content: seq<bv8>, writes: seq<nat>, counts: seq<nat>)
    ensures content == data
    ensures counts == writes + [0]
    ensures Chunked(writes, |data|)
  {
    var source := new ReadStream(data, sizes);
    var target := new WriteStream();
    var buffer := new bv8[BufferSize];
    var bytesRead := source.Read(buffer, BufferSize);
    CopyStart(data, bytesRead);
    ghost var pos, last, written, writesSoFar, countsSoFar := source.pos, buffer[..bytesRead], target.data, target.writes, source.counts;
    while bytesRead > 0
      invariant source.Valid() && source.data == data
      invariant source.pos == pos && source.counts == countsSoFar
      invariant target.data == written && target.writes == writesSoFar
      invariant 0 <= bytesRead <= buffer.Length && buffer[..bytesRead] == last
      invariant CopyProgress(data, pos, bytesRead, last, written, writesSoFar, countsSoFar)
      decreases |data| - pos + bytesRead
    {
      target.Write(buffer, bytesRead);
      var n := source.Read(buffer, BufferSize);
      ghost var next := buffer[..n];
      CopyStep(data, pos, bytesRead, last, written, writesSoFar, countsSoFar, n, source.pos, next,
               target.data, target.writes, source.counts);
      pos, last, written, writesSoFar, countsSoFar := source.pos, next, target.data, target.writes, source.counts;
      bytesRead := n;
    }
    CopyDone(data, pos, last, written, writesSoFar, countsSoFar);
    return target.data, target.writes, source.counts;
  }

  lemma AppendAssoc<T>(a: seq<T>, b: seq<T>, c: seq<T>)
    ensures (a + b) + c == a + (b + c)
  {
  }

  /** The list DoSearch appends its results to. */
  class PathList {
    var items: seq<string>

    constructor ()
      ensures items == []
    {
      items := [];
    }
  }

  class ExtFileSystem {
    var mountPoint: string
    /** The device-name buffer; None stands for nullptr. */
    var devName: Option<string>
    var disk: ExtDisk?
    var disposed: bool

    /** ExtFileSystem(ExtDisk^): binds the disk, initialises its block device and
        allocates a zeroed device-name buffer. */
    constructor (disk: ExtDisk, native: Native)
      requires disk.bd != null
      modifies native`log
      ensures this.disk == disk && mountPoint == "/" && devName == Some("") && !disposed
      ensures native.log == old(native.log) + [BlockInit(disk.bd)]
    {
      this.disk := disk;
      mountPoint := "/";
      devName := Some("");
      disposed := false;
      native.log := native.log + [BlockInit(disk.bd)];
    }

    /** ExtFileSystem::Open: a null disk or partition yields no session. Otherwise
        the partition's offset and size are written into the disk's block device, the
        device is registered under `name` and mounted at "/name/"; a failed mount
        unregisters the device again, and either failure is an IOException. */
    static method Open(disk: ExtDisk?, partition: Option<Partition>, name: string,
                       regOk: bool, mountOk: bool, native: Native)
      returns (r: Result<ExtFileSystem?>)
      modifies native`log, if disk != null then {disk.bd} else {}
      ensures disk == null || partition.None? ==> r == Ok(null) && native.log == old(native.log)
      ensures disk != null && partition.Some? && disk.bd == null ==>
                r == Err(NullDereference) && native.log == old(native.log)
      ensures disk != null && partition.Some? && disk.bd != null ==>
                && disk.bd.partOffset == partition.value.offset
                && disk.bd.partSize == partition.value.size
                && disk.bd.buffer == old(disk.bd.buffer)
                && native.log == old(native.log) + OpenTrace(disk.bd, name, regOk, mountOk)
                && (r.Ok? <==> regOk && mountOk)
                && (r.Err? ==> r.error == IOFailure)
      ensures r.Ok? ==> (r.value == null <==> disk == null || partition.None?)
      ensures r.Ok? && r.value != null ==>
                && fresh(r.value) && disk != null && r.value.disk == disk
                && r.value.mountPoint == MountPointOf(name) && r.value.devName == Some(name)
                && !r.value.disposed
    {
      if disk == null || partition.None? {
        return Ok(null);
      }
      if disk.bd == null {
        return Err(NullDereference);
      }
      var fs := new ExtFileSystem(disk, native);
      var bd := disk.bd;
      bd.partOffset := partition.value.offset;
      bd.partSize := partition.value.size;
      fs.devName := Some(name);
      fs.mountPoint := MountPointOf(name);
      native.log := native.log + [Register(name, regOk)];
      if regOk {
        native.log := native.log + [Mount(name, fs.mountPoint, mountOk)];
        if mountOk {
          return Ok(fs);
        }
        native.log := native.log + [Unregister(name)];
      }
      return Err(IOFailure);
    }

    /** The IsDisposed property: the disposed flag as it stands. */
    function IsDisposed(): (d: bool)
      reads this
      ensures d == disposed
    {
      disposed
    }

    /** The MountPoint property: the mount point as it stands. */
    function MountPoint(): (m: string)
      reads this
      ensures m == mountPoint
    {
      mountPoint
    }

    /** ~ExtFileSystem: unmounts the mount point, unregisters the device, finalises
        the disk's block device and frees the device name. It changes no field, so
        the name stays set and disposed stays false. */
    method Dispose(native: Native) returns (o: Outcome)
      modifies native`log
      ensures o == Pass <==> devName.Some? && disk != null && disk.bd != null
      ensures o.Fail? ==> o.error == NullDereference
      ensures native.log == old(native.log) + [Umount(mountPoint)]
                + (if devName.None? then []
                   else [Unregister(devName.value)]
                        + if disk == null || disk.bd == null then []
                          else [BlockFini(disk.bd), FreeDevName(devName.value)])
    {
      native.log := native.log + [Umount(mountPoint)];
      if devName.None? {
        return Fail(NullDereference);
      }
      native.log := native.log + [Unregister(devName.value)];
      if disk == null || disk.bd == null {
        return Fail(NullDereference);
      }
      native.log := native.log + [BlockFini(disk.bd), FreeDevName(devName.value)];
      return Pass;
    }

    /** !ExtFileSystem: on a live session frees the device name when there is one and
        marks the session disposed; on a disposed one does nothing. */
    method Finalize(native: Native)
      modifies this`devName, this`disposed, native`log
      ensures old(disposed) ==> devName == old(devName) && disposed && native.log == old(native.log)
      ensures !old(disposed) ==>
                && disposed && devName == None
                && native.log == old(native.log)
                   + if old(devName).Some? then [FreeDevName(old(devName).value)] else []
    {
      if !disposed {
        if devName.Some? {
          native.log := native.log + [FreeDevName(devName.value)];
          devName := None;
        }
        disposed := true;
      }
    }

    /** CleanUp(disposing): on a live session, when disposing, deletes the disk and
        drops it; then runs the finalizer. A disposed session is left as it is. */
    method CleanUp(disposing: bool, native: Native)
      modifies this, native`log, {disk}`rawStreamOpen, {disk}`bd, {disk}`bdevs
      ensures old(disposed) ==>
                && disposed && devName == old(devName) && disk == old(disk)
                && mountPoint == old(mountPoint) && native.log == old(native.log)
      ensures !old(disposed) ==>
                && disposed && devName == None && mountPoint == old(mountPoint)
                && disk == (if disposing then null else old(disk))
                && native.log == old(native.log)
                   + (if disposing && old(disk) != null
                      then ReleaseTrace(old(disk.rawStreamOpen), old(disk.bd), old(disk.bdevs))
                      else [])
                   + (if old(devName).Some? then [FreeDevName(old(devName).value)] else [])
      ensures !old(disposed) && disposing && old(disk) != null ==>
                old(disk).bd == null && old(disk).bdevs == null && !old(disk).rawStreamOpen
      ensures old(disposed) || !disposing || old(disk) == null ==>
                old(disk) == null || unchanged(old(disk))
    {
      if !disposed {
        if disposing {
          if disk != null {
            disk.Dispose(native);
          }
          disk := null;
        }
        Finalize(native);
      }
    }

    /** Close(): CleanUp(true). A second Close releases nothing. */
    method Close(native: Native)
      modifies this, native`log, {disk}`rawStreamOpen, {disk}`bd, {disk}`bdevs
      ensures old(disposed) ==>
                && disposed && devName == old(devName) && disk == old(disk)
                && mountPoint == old(mountPoint) && native.log == old(native.log)
      ensures !old(disposed) ==>
                && disposed && devName == None && disk == null && mountPoint == old(mountPoint)
                && native.log == old(native.log)
                   + (if old(disk) != null
                      then ReleaseTrace(old(disk.rawStreamOpen), old(disk.bd), old(disk.bdevs))
                      else [])
                   + (if old(devName).Some? then [FreeDevName(old(devName).value)] else [])
      ensures !old(disposed) && old(disk) != null ==>
                old(disk).bd == null && old(disk).bdevs == null && !old(disk).rawStreamOpen
      ensures old(disposed) && old(disk) != null ==> unchanged(old(disk))
    {
      CleanUp(true, native);
    }

    /** FileExists: an empty path is an ArgumentNullException; otherwise whether the
        engine opens the combined path as a regular file. */
    function FileExists(native: Native, path: string): (r: Result<bool>)
      reads this, native
      ensures r == Err(ArgumentNull) <==> path == []
      ensures r.Ok? ==> (r.value <==> CombinePaths(mountPoint, path) in native.files)
    {
      if path == [] then Err(ArgumentNull) else Ok(CombinePaths(mountPoint, path) in native.files)
    }

    /** DirectoryExists: as FileExists, for directories. */
    function DirectoryExists(native: Native, path: string): (r: Result<bool>)
      reads this, native
      ensures r == Err(ArgumentNull) <==> path == []
      ensures r.Ok? ==> (r.value <==> CombinePaths(mountPoint, path) in native.dirs)
    {
      if path == [] then Err(ArgumentNull) else Ok(CombinePaths(mountPoint, path) in native.dirs)
    }

    /** GetDirectory: opens the combined path and collects one entry per raw record
        with a non-empty name other than "." and "..", in iteration order; a path
        that does not open is an IOException. */
    method GetDirectory(native: Native, path: string) returns (r: Result<seq<DirEntry>>)
      ensures var full := CombinePaths(mountPoint, path);
        r == if full in native.dirs then Ok(ListDir(native.dirs[full])) else Err(IOFailure)
    {
      var full := CombinePaths(mountPoint, path);
      if full !in native.dirs {
        return Err(IOFailure);
      }
      var raw := native.dirs[full];
      var entries: seq<DirEntry> := [];
      var i := 0;
      while i < |raw|
        invariant 0 <= i <= |raw|
        invariant entries == ListDir(raw[..i])
      {
        var de := raw[i];
        assert raw[..i + 1][..i] == raw[..i];
        if |de.name| > 0 {
          var name := UpToNul(de.name);
          if name != "." && name != ".." {
            var kind := if de.inodeType == DirType then Dir else RegFile;
            entries := entries + [DirEntry(name, de.entryLength, kind)];
          }
        }
        i := i + 1;
      }
      assert raw[..|raw|] == raw;
      return Ok(entries);
    }

    /** DoSearch: appends to results, depth first, the path of every wanted entry of
        the directory and, when sub is set, of its subdirectories; a subdirectory
        that cannot be listed is skipped. The appended paths are exactly those of
        the Search function. */
    method DoSearch(native: Native, results: PathList, path: string, m: Matcher,
                    sub: bool, wantDirs: bool, wantFiles: bool) returns (o: Outcome)
      requires mountPoint != [] && WellFormed(native.dirs)
      modifies results
      ensures disposed ==> o == Fail(ObjectDisposed) && results.items == old(results.items)
      ensures !disposed ==>
                match Search(native.dirs, mountPoint, path, m, sub, wantDirs, wantFiles)
                case None => o == Fail(IOFailure) && results.items == old(results.items)
                case Some(s) => o == Pass && results.items == old(results.items) + s
      decreases Measure(native.dirs, mountPoint, path), 2
    {
      if disposed {
        return Fail(ObjectDisposed);
      }
      var dir := GetDirectory(native, path);
      if dir.Err? {
        return Fail(IOFailure);
      }
      var es := dir.value;
      ListedNamesValid(native.dirs, CombinePaths(mountPoint, path));
      SearchOfListing(native.dirs, mountPoint, path, m, sub, wantDirs, wantFiles, es);
      SearchEntries(native, results, path, es, m, sub, wantDirs, wantFiles);
      return Pass;
    }

    /** The loop of DoSearch over the entries es of the directory path. */
    method SearchEntries(native: Native, results: PathList, path: string, es: seq<DirEntry>, m: Matcher,
                         sub: bool, wantDirs: bool, wantFiles: bool)
      requires mountPoint != [] && WellFormed(native.dirs) && !disposed
      requires CombinePaths(mountPoint, path) in native.dirs
      requires forall i :: 0 <= i < |es| ==> ValidName(es[i].name)
      modifies results
      ensures results.items == old(results.items) + Walk(native.dirs, mountPoint, path, es, m, sub, wantDirs, wantFiles)
      decreases Measure(native.dirs, mountPoint, path), 1
    {
      ghost var dirs, mp, start := native.dirs, mountPoint, results.items;
      var i := 0;
      while i < |es|
        invariant 0 <= i <= |es|
        invariant results.items == start + Walk(dirs, mp, path, es[..i], m, sub, wantDirs, wantFiles)
      {
        var e := es[i];
        ghost var front := es[..i];
        ghost var done := Walk(dirs, mp, path, front, m, sub, wantDirs, wantFiles);
        assert es[..i + 1] == front + [e];
        WalkCons(dirs, mp, path, front, m, sub, wantDirs, wantFiles, e);
        SearchEntry(native, results, path, e, m, sub, wantDirs, wantFiles);
        AppendAssoc(start, done, Step(dirs, mp, path, e, m, sub, wantDirs, wantFiles));
        i := i + 1;
      }
      assert es[..|es|] == es;
    }

    /** One pass of the DoSearch loop: an entry whose name ends in '.' is skipped;
        otherwise its path is appended when its kind is wanted and its name matches,
        and a directory is searched in turn when sub is set. */
    method SearchEntry(native: Native, results: PathList, path: string, de: DirEntry, m: Matcher,
                       sub: bool, wantDirs: bool, wantFiles: bool)
      requires mountPoint != [] && WellFormed(native.dirs) && !disposed
      requires CombinePaths(mountPoint, path) in native.dirs && ValidName(de.name)
      modifies results
      ensures results.items == old(results.items) + Step(native.dirs, mountPoint, path, de, m, sub, wantDirs, wantFiles)
      decreases Measure(native.dirs, mountPoint, path), 0
    {
      if EndsWithDot(de.name) {
        return;
      }
      var prefix := ResultPrefix(mountPoint, path);
      var isDir := de.kind == Dir;
      if (isDir && wantDirs) || (!isDir && wantFiles) {
        if IsMatch(m, de.name) {
          results.items := results.items + [EmitPath(prefix, de.name)];
        }
      }
      ghost var own := if Wanted(de, m, wantDirs, wantFiles) then [EmitPath(prefix, de.name)] else [];
      ghost var before := results.items;
      assert before == old(results.items) + own;
      if sub && isDir {
        ChildMeasure(native.dirs, mountPoint, path, de.name);
        var child := CombinePaths(path, de.name);
        var _ := DoSearch(native, results, child, m, true, wantDirs, wantFiles);
        ghost var t := Search(native.dirs, mountPoint, child, m, true, wantDirs, wantFiles);
        if t.Some? {
          StepIncludesChild(native.dirs, mountPoint, path, de, m, wantDirs, wantFiles);
        } else {
          StepSkipsUnlisted(native.dirs, mountPoint, path, de, m, wantDirs, wantFiles);
        }
        AppendAssoc(old(results.items), own, if t.Some? then t.value else []);
      } else {
        StepOwnPath(native.dirs, mountPoint, path, de, m, sub, wantDirs, wantFiles);
      }
    }

    /** The shared body of GetFiles and GetDirectories: a disposed session is an
        ObjectDisposedException; otherwise the pattern is converted, the path is
        rooted and searched. A pattern the Regex constructor rejects and a failed
        search both end in the catch-all handler, an IOException. */
    method Find(native: Native, path: string, searchPattern: string, option: SearchOption,
                wantDirs: bool, wantFiles: bool) returns (r: Result<seq<string>>)
      requires mountPoint != [] && WellFormed(native.dirs)
      ensures disposed ==> r == Err(ObjectDisposed)
      ensures !disposed && ConvertWildcards(searchPattern).None? ==> r == Err(IOFailure)
      ensures !disposed && ConvertWildcards(searchPattern).Some? ==>
                match Search(native.dirs, mountPoint, NormalizeRoot(path), ConvertWildcards(searchPattern).value,
                             option == AllDirectories, wantDirs, wantFiles)
                case None => r == Err(IOFailure)
                case Some(s) => r == Ok(s)
    {
      if disposed {
        return Err(ObjectDisposed);
      }
      var results := new PathList();
      var compiled := ConvertWildcards(searchPattern);
      if compiled.None? {
        return Err(IOFailure);
      }
      var m := compiled.value;
      var root := if |path| > 0 && path[0] == '/' then path else "/" + path;
      assert root == NormalizeRoot(path);
      var o := DoSearch(native, results, root, m, option == AllDirectories, wantDirs, wantFiles);
      ghost var t := Search(native.dirs, mountPoint, root, m, option == AllDirectories, wantDirs, wantFiles);
      if o.Fail? {
        return Err(IOFailure);
      }
      assert t.Some? && results.items == [] + t.value;
      assert [] + t.value == t.value;
      assert t == Search(native.dirs, mountPoint, NormalizeRoot(path), ConvertWildcards(searchPattern).value, option == AllDirectories, wantDirs, wantFiles);
      return Ok(results.items);
    }

    /** GetFiles(path, searchPattern, searchOption): the regular files found. */
    method GetFiles(native: Native, path: string, searchPattern: string, option: SearchOption)
      returns (r: Result<seq<string>>)
      requires mountPoint != [] && WellFormed(native.dirs)
      ensures disposed ==> r == Err(ObjectDisposed)
      ensures !disposed && ConvertWildcards(searchPattern).None? ==> r == Err(IOFailure)
      ensures !disposed && ConvertWildcards(searchPattern).Some? ==>
                match Search(native.dirs, mountPoint, NormalizeRoot(path), ConvertWildcards(searchPattern).value,
                             option == AllDirectories, false, true)
                case None => r == Err(IOFailure)
                case Some(s) => r == Ok(s)
    {
      r := Find(native, path, searchPattern, option, false, true);
    }

    /** GetDirectories(path, searchPattern, searchOption): the directories found. */
    method GetDirectories(native: Native, path: string, searchPattern: string, option: SearchOption)
      returns (r: Result<seq<string>>)
      requires mountPoint != [] && WellFormed(native.dirs)
      ensures disposed ==> r == Err(ObjectDisposed)
      ensures !disposed && ConvertWildcards(searchPattern).None? ==> r == Err(IOFailure)
      ensures !disposed && ConvertWildcards(searchPattern).Some? ==>
                match Search(native.dirs, mountPoint, NormalizeRoot(path), ConvertWildcards(searchPattern).value,
                             option == AllDirectories, true, false)
                case None => r == Err(IOFailure)
                case Some(s) => r == Ok(s)
    {
      r := Find(native, path, searchPattern, option, true, false);
    }

    /** RenameFile: after the checks the engine renames the file; a failing status
        is an IOException. Nothing reaches the engine when a check fails. */
    method RenameFile(native: Native, sourceFileName: string, destFileName: string, renameOk: bool)
      returns (o: Outcome)
      modifies native`log
      ensures var src := CombinePaths(mountPoint, sourceFileName);
        var dst := CombinePaths(mountPoint, destFileName);
        match TransferCheck(sourceFileName, destFileName, src in native.files, dst in native.files, FileNotFound)
        case Some(e) => o == Fail(e) && native.log == old(native.log)
        case None => native.log == old(native.log) + [Rename(src, dst)]
                     && o == if renameOk then Pass else Fail(IOFailure)
    {
      if sourceFileName == [] || destFileName == [] {
        return Fail(ArgumentNull);
      }
      var src := CombinePaths(mountPoint, sourceFileName);
      var dst := CombinePaths(mountPoint, destFileName);
      if src !in native.files {
        return Fail(FileNotFound);
      }
      if dst in native.files {
        return Fail(AlreadyExists);
      }
      native.log := native.log + [Rename(src, dst)];
      if !renameOk {
        return Fail(IOFailure);
      }
      return Pass;
    }

    /** MoveDirectory: as RenameFile, for directories. */
    method MoveDirectory(native: Native, sourceDirName: string, destDirName: string, moveOk: bool)
      returns (o: Outcome)
      modifies native`log
      ensures var src := CombinePaths(mountPoint, sourceDirName);
        var dst := CombinePaths(mountPoint, destDirName);
        match TransferCheck(sourceDirName, destDirName, src in native.dirs, dst in native.dirs, FileNotFound)
        case Some(e) => o == Fail(e) && native.log == old(native.log)
        case None => native.log == old(native.log) + [DirMove(src, dst)]
                     && o == if moveOk then Pass else Fail(IOFailure)
    {
      if sourceDirName == [] || destDirName == [] {
        return Fail(ArgumentNull);
      }
      var src := CombinePaths(mountPoint, sourceDirName);
      var dst := CombinePaths(mountPoint, destDirName);
      if src !in native.dirs {
        return Fail(FileNotFound);
      }
      if dst in native.dirs {
        return Fail(AlreadyExists);
      }
      native.log := native.log + [DirMove(src, dst)];
      if !moveOk {
        return Fail(IOFailure);
      }
      return Pass;
    }

    /** Truncate: an empty path is an ArgumentNullException and a missing file a
        FileNotFoundException; a file the engine does not open is an IOException.
        Otherwise the engine truncates (its status is ignored) and the call
        succeeds; the content changes only when the engine reports success. */
    method Truncate(native: Native, path: string, size: nat, openOk: bool, truncOk: bool)
      returns (o: Outcome)
      modifies native`log, native`files
      ensures var full := CombinePaths(mountPoint, path);
        && (o == Fail(ArgumentNull) <==> path == [])
        && (o == Fail(FileNotFound) <==> path != [] && full !in old(native.files))
        && (o == Fail(IOFailure) <==> path != [] && full in old(native.files) && !openOk)
        && (o.Fail? ==> native.log == old(native.log) && native.files == old(native.files))
        && (o == Pass ==>
              && native.log == old(native.log) + [Call.Truncate(full, size)]
              && native.files == if truncOk then old(native.files)[full := Resized(old(native.files)[full], size)]
                                 else old(native.files))
    {
      if path == [] {
        return Fail(ArgumentNull);
      }
      var full := CombinePaths(mountPoint, path);
      if full !in native.files {
        return Fail(FileNotFound);
      }
      if !openOk {
        return Fail(IOFailure);
      }
      native.log := native.log + [Call.Truncate(full, size)];
      if truncOk {
        native.files := native.files[full := Resized(native.files[full], size)];
      }
      return Pass;
    }

    /** The getters GetCreationTime, GetLastAccessTime and GetLastWriteTime: an
        empty path is an ArgumentNullException and a path whose inode cannot be read
        an IOException; otherwise the stored seconds after the epoch. */
    method GetTime(native: Native, kind: TimeKind, path: string) returns (r: Result<int>)
      ensures var full := CombinePaths(mountPoint, path);
        r == if path == [] then Err(ArgumentNull)
             else if full !in native.times then Err(IOFailure)
             else Ok(FromSeconds(native.times[full].Get(kind)))
    {
      if path == [] {
        return Err(ArgumentNull);
      }
      var full := CombinePaths(mountPoint, path);
      if full !in native.times {
        return Err(IOFailure);
      }
      return Ok(FromSeconds(native.times[full].Get(kind)));
    }

    /** The setters SetCreationTime, SetLastAccessTime and SetLastWriteTime: an empty
        path is an ArgumentNullException; otherwise the time is converted to 32-bit
        seconds and handed to the engine, and a path whose inode cannot be written is
        an IOException. */
    method SetTime(native: Native, kind: TimeKind, path: string, ticks: int) returns (o: Outcome)
      modifies native`log, native`times
      ensures var full := CombinePaths(mountPoint, path);
        if path == [] then o == Fail(ArgumentNull) && native.log == old(native.log)
                           && native.times == old(native.times)
        else
          && native.log == old(native.log) + [TimeSet(kind, full, ToSeconds(ticks))]
          && (o == Pass <==> full in old(native.times))
          && (o.Fail? ==> o.error == IOFailure && native.times == old(native.times))
          && (o == Pass ==>
                native.times == old(native.times)[full := old(native.times)[full].With(kind, ToSeconds(ticks))])
    {
      if path == [] {
        return Fail(ArgumentNull);
      }
      var full := CombinePaths(mountPoint, path);
      var seconds := ToSeconds(ticks);
      native.log := native.log + [TimeSet(kind, full, seconds)];
      if full !in native.times {
        return Fail(IOFailure);
      }
      native.times := native.times[full := native.times[full].With(kind, seconds)];
      return Pass;
    }

    /** CopyFile: an empty name is an ArgumentNullException, a missing source an
        IOException, and an existing target an IOException unless overwriting, in
        which case the target is deleted first (a failed delete is an IOException).
        Both ends are then opened as streams, the source for reading and the target
        with CreateNew; a failed open is an IOException. The source opens unless it
        was itself the deleted target. `createOk` is the status of creating the
        target, which also fails whatever `createOk` says when the target names an
        existing directory. The source is then read through a 64 KiB buffer, every
        chunk read being written to the new target, until a read returns nothing;
        `sizes` stands for the counts the source stream chooses to return. */
    method CopyFile(native: Native, sourceFileName: string, destFileName: string, overwrite: bool,
                    removeOk: bool, createOk: bool, sizes: seq<nat>)
      returns (o: Outcome, writes: seq<nat>, counts: seq<nat>)
      modifies native`log, native`files
      ensures o.Fail? ==> writes == [] && counts == []
      ensures var check := TransferCheck(sourceFileName, destFileName,
                                         CombinePaths(mountPoint, sourceFileName) in old(native.files),
                                         CombinePaths(mountPoint, destFileName) in old(native.files) && !overwrite,
                                         IOFailure);
        check.Some? ==> o == Fail(check.value) && native.log == old(native.log)
                        && native.files == old(native.files)
      ensures var src := CombinePaths(mountPoint, sourceFileName);
        var dst := CombinePaths(mountPoint, destFileName);
        var created := createOk && dst !in native.dirs;
        var check := TransferCheck(sourceFileName, destFileName, src in old(native.files),
                                   dst in old(native.files) && !overwrite, IOFailure);
        check.None? && dst in old(native.files) ==>
          && native.log == old(native.log) + [Remove(dst)]
          && (!removeOk ==> o == Fail(IOFailure) && native.files == old(native.files))
          && (removeOk && (src == dst || !created) ==>
                o == Fail(IOFailure) && native.files == old(native.files) - {dst})
          && (o == Pass <==> removeOk && src != dst && created)
      ensures var dst := CombinePaths(mountPoint, destFileName);
        var created := createOk && dst !in native.dirs;
        var check := TransferCheck(sourceFileName, destFileName,
                                   CombinePaths(mountPoint, sourceFileName) in old(native.files),
                                   dst in old(native.files) && !overwrite, IOFailure);
        check.None? && dst !in old(native.files) ==>
          && native.log == old(native.log)
          && (o == Pass <==> created)
          && (!created ==> o == Fail(IOFailure) && native.files == old(native.files))
      ensures var src := CombinePaths(mountPoint, sourceFileName);
        var dst := CombinePaths(mountPoint, destFileName);
        o == Pass ==>
          && src in old(native.files) && dst !in native.dirs
          && native.files == old(native.files)[dst := old(native.files)[src]]
          && Chunked(writes, |native.files[dst]|)
          && counts == writes + [0]
    {
      writes, counts := [], [];
      var files := native.files;
      var src := CombinePaths(mountPoint, sourceFileName);
      var dst := CombinePaths(mountPoint, destFileName);
      if sourceFileName == [] || destFileName == [] {
        return Fail(ArgumentNull), writes, counts;
      }
      if src !in files {
        return Fail(IOFailure), writes, counts;
      }
      if dst in files {
        if !overwrite {
          return Fail(AlreadyExists), writes, counts;
        }
        native.log := native.log + [Remove(dst)];
        if !removeOk {
          return Fail(IOFailure), writes, counts;
        }
        files := files - {dst};
        if src == dst {
          native.files := files;
          return Fail(IOFailure), writes, counts;
        }
      }
      if !createOk || dst in native.dirs {
        native.files := files;
        return Fail(IOFailure), writes, counts;
      }
      var content;
      content, writes, counts := CopyStream(files[src], sizes);
      native.files := files[dst := content];
      return Pass, writes, counts;
    }
  }
}
