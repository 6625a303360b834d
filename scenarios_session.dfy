/** Whole sessions played against a fresh engine state: the life cycle of Open,
    the destructor and Close, and a timestamp written and read back. */
module SessionScenarios {
  import opened Errors
  import opened Engine
  import opened Disk
  import opened Timestamps
  import opened Paths
  import opened FileSystem

  /** The number of times the device name is freed in a log. */
  function Frees(log: seq<Call>, name: string): (n: nat)
    ensures n <= |log|
  {
    if log == [] then 0
    else Frees(log[..|log| - 1], name) + (if log[|log| - 1] == FreeDevName(name) then 1 else 0)
  }

  lemma {:induction false} FreesAppend(a: seq<Call>, b: seq<Call>, name: string)
    ensures Frees(a + b, name) == Frees(a, name) + Frees(b, name)
    decreases |b|
  {
    if b == [] {
      assert a + b == a;
    } else {
      assert (a + b)[..|a + b| - 1] == a + b[..|b| - 1];
      FreesAppend(a, b[..|b| - 1], name);
    }
  }

  lemma {:induction false} NoFrees(log: seq<Call>, name: string)
    requires forall i :: 0 <= i < |log| ==> !log[i].FreeDevName?
    ensures Frees(log, name) == 0
    decreases |log|
  {
    if log != [] {
      NoFrees(log[..|log| - 1], name);
    }
  }

  /** A log that ends with one free of the name after calls that free nothing. */
  lemma OneFree(front: seq<Call>, name: string)
    requires forall i :: 0 <= i < |front| ==> !front[i].FreeDevName?
    ensures Frees(front + [FreeDevName(name)], name) == 1
  {
    NoFrees(front, name);
    assert (front + [FreeDevName(name)])[..|front|] == front;
  }

  /** A session opened on a disk and partition, with the given engine statuses. */
  method OpenSession(name: string, regOk: bool, mountOk: bool, times: map<string, Stamps>)
    returns (r: Result<ExtFileSystem?>, native: Native, disk: ExtDisk, bd: BlockDev)
    ensures fresh(native) && fresh(disk) && fresh(bd) && disk.bd == bd
    ensures !disk.rawStreamOpen && disk.bdevs == null
    ensures native.log == OpenTrace(bd, name, regOk, mountOk)
    ensures native.dirs == map[] && native.times == times
    ensures r.Ok? <==> regOk && mountOk
    ensures r.Err? ==> r.error == IOFailure
    ensures r.Ok? ==> r.value != null && fresh(r.value) && r.value.disk == disk
                      && r.value.devName == Some(name) && r.value.mountPoint == MountPointOf(name)
                      && !r.value.disposed
  {
    native := new Native(map[], map[], times);
    bd := new BlockDev(16, 63, 512, 1024);
    disk := new ExtDisk("disk.img", bd);
    r := ExtFileSystem.Open(disk, Some(Partition(2048, 4096)), name, regOk, mountOk, native);
  }

  /** A drive opened by number and asked for its MBR twice: both answers are the
      first sector the scan read, each rescan adds one scan call, and the disk
      still reports the capacity and the table of the scan that opened it. */
  method ReadMbrTwice(n: int, scan: ScanResult)
    returns (first: Result<seq<bv8>>, second: Result<seq<bv8>>, disk: ExtDisk, log: seq<Call>)
    requires scan.Scanned? && SaneScan(scan)
    ensures first == second == Ok(scan.sector[..512])
    ensures |log| == 3 && log[0].MbrScan? && log[1] == log[0] && log[2] == log[0]
    ensures disk.Capacity() == scan.partOffset && disk.Partitions() == Some(scan.entries)
  {
    var native := new Native(map[], map[], map[]);
    var bd := new BlockDev(16, 63, 512, 1024);
    var r := ExtDisk.OpenNumber(n, bd, scan, native);
    disk := r.value;
    first := disk.GetMasterBootRecord(scan, native);
    second := disk.GetMasterBootRecord(scan, native);
    log := native.log;
  }

  /** An image that yields a raw device opens in raw mode without an MBR scan, so it
      has no scan state, and asking it for the MBR faults with no engine call. */
  method RawImageHasNoMbr(path: string, length: nat, scan: ScanResult)
    returns (mbr: Result<seq<bv8>>, disk: ExtDisk, log: seq<Call>)
    requires path != [] && SaneScan(scan)
    ensures mbr == Err(NullDereference) && log == []
    ensures disk.Partitions() == Some([Partition(0, length)]) && disk.Capacity() == 0
  {
    var native := new Native(map[], map[], map[]);
    var bd := new BlockDev(16, 63, 512, 1024);
    var d := ExtDisk.OpenPath(path, bd, Some(length), scan, native);
    disk := d;
    mbr := disk.GetMasterBootRecord(scan, native);
    log := native.log;
  }

  /** Copying a file onto the name of an existing directory, without overwrite: the
      argument checks pass (no file has that name), but the target cannot be created
      with CreateNew, so the copy raises IOException and no file appears. */
  method CopyOntoDirectory(name: string, createOk: bool)
    returns (o: Outcome, files: map<string, seq<bv8>>, target: string)
    requires name != []
    ensures o == Fail(IOFailure)
    ensures target == CombinePaths(MountPointOf(name), "sub") && target !in files
  {
    var s, native, disk, bd := OpenSession(name, true, true, map[]);
    var fs := s.value;
    var src := CombinePaths(fs.mountPoint, "a");
    target := CombinePaths(fs.mountPoint, "sub");
    CombineSeam(fs.mountPoint, "a");
    CombineSeam(fs.mountPoint, "sub");
    assert |target| == |src| + 2;
    native.files := map[src := [1, 2, 3]];
    native.dirs := map[target := []];
    var writes, counts;
    o, writes, counts := fs.CopyFile(native, "a", "sub", false, true, createOk, []);
    files := native.files;
  }

  /** Closing a session twice deletes the disk and frees the device name once; Close
      neither unmounts nor unregisters, so both stay in the engine's tables. */
  method CloseTwice(name: string) returns (log: seq<Call>)
    ensures Frees(log, name) == 1
    ensures |log| == 5 && log[3].BlockFini? && log[4] == FreeDevName(name)
    ensures RegisteredAfter({}, log) == {name}
    ensures MountedAfter({}, log) == {MountPointOf(name)}
  {
    var r, native, disk, bd := OpenSession(name, true, true, map[]);
    var fs := r.value;
    fs.Close(native);
    fs.Close(native);
    log := native.log;
    assert log == OpenTrace(bd, name, true, true) + CloseTrace(bd, name);
    OpenThenCloseFreesOnce(bd, name);
    OpenThenCloseKeepsDevice(bd, name);
  }

  /** Close deletes the disk, which nulls its handles; a caller still holding the
      disk can dispose it again and nothing more is released. */
  method CloseThenDisposeDisk(name: string) returns (before: seq<Call>, after: seq<Call>, disk: ExtDisk)
    ensures after == before && |before| == 5
    ensures disk.bd == null && disk.bdevs == null && !disk.rawStreamOpen
  {
    var r, native, bd;
    r, native, disk, bd := OpenSession(name, true, true, map[]);
    var fs := r.value;
    fs.Close(native);
    before := native.log;
    disk.Dispose(native);
    after := native.log;
  }

  /** The calls of a Close on a session opened without a raw stream or partition
      table. */
  function CloseTrace(bd: BlockDev, name: string): (t: seq<Call>)
    ensures |t| == 2 && t[0] == BlockFini(bd) && t[1] == FreeDevName(name)
  {
    [BlockFini(bd)] + [FreeDevName(name)]
  }

  lemma OpenThenCloseFreesOnce(bd: BlockDev, name: string)
    ensures Frees(OpenTrace(bd, name, true, true) + CloseTrace(bd, name), name) == 1
  {
    var open := OpenTrace(bd, name, true, true);
    OneFree(open + [BlockFini(bd)], name);
    assert open + CloseTrace(bd, name) == (open + [BlockFini(bd)]) + [FreeDevName(name)];
  }

  lemma OpenThenCloseKeepsDevice(bd: BlockDev, name: string)
    ensures RegisteredAfter({}, OpenTrace(bd, name, true, true) + CloseTrace(bd, name)) == {name}
    ensures MountedAfter({}, OpenTrace(bd, name, true, true) + CloseTrace(bd, name)) == {MountPointOf(name)}
  {
    var open, close := OpenTrace(bd, name, true, true), CloseTrace(bd, name);
    OpenRegisters({}, {}, bd, name);
    RegisteredAppend({}, open, close);
    MountedAppend({}, open, close);
    CloseKeepsTables({name}, {MountPointOf(name)}, bd, name);
    assert {} + {name} == {name} && {} + {MountPointOf(name)} == {MountPointOf(name)};
  }

  lemma CloseKeepsTables(reg: set<string>, mnt: set<string>, bd: BlockDev, name: string)
    ensures RegisteredAfter(reg, CloseTrace(bd, name)) == reg
    ensures MountedAfter(mnt, CloseTrace(bd, name)) == mnt
  {
    ReplayCons(reg, mnt, BlockFini(bd), [FreeDevName(name)]);
    ReplayCons(reg, mnt, FreeDevName(name), []);
    assert [FreeDevName(name)] == [FreeDevName(name)] + [];
  }

  /** The destructor does not mark the session disposed or clear the name, so a
      later Close frees the device name a second time. */
  method DestroyThenClose(name: string) returns (log: seq<Call>)
    ensures Frees(log, name) == 2
    ensures RegisteredAfter({}, log) == {}
    ensures MountedAfter({}, log) == {}
  {
    var r, native, disk, bd := OpenSession(name, true, true, map[]);
    var fs := r.value;
    var o := fs.Dispose(native);
    fs.Close(native);
    log := native.log;
    assert log == (OpenTrace(bd, name, true, true) + DestroyTrace(bd, name)) + CloseTrace(bd, name);
    DestroyThenCloseFreesTwice(bd, name);
    DestroyThenCloseClearsDevice(bd, name);
  }

  lemma DestroyThenCloseFreesTwice(bd: BlockDev, name: string)
    ensures Frees((OpenTrace(bd, name, true, true) + DestroyTrace(bd, name)) + CloseTrace(bd, name), name) == 2
  {
    var open, destroy, close := OpenTrace(bd, name, true, true), DestroyTrace(bd, name), CloseTrace(bd, name);
    var first := open + [Umount(MountPointOf(name)), Unregister(name), BlockFini(bd)];
    OneFree(first, name);
    assert open + destroy == first + [FreeDevName(name)];
    OneFree([BlockFini(bd)], name);
    assert close == [BlockFini(bd)] + [FreeDevName(name)];
    FreesAppend(open + destroy, close, name);
  }

  lemma DestroyThenCloseClearsDevice(bd: BlockDev, name: string)
    ensures RegisteredAfter({}, (OpenTrace(bd, name, true, true) + DestroyTrace(bd, name)) + CloseTrace(bd, name)) == {}
    ensures MountedAfter({}, (OpenTrace(bd, name, true, true) + DestroyTrace(bd, name)) + CloseTrace(bd, name)) == {}
  {
    var first, close := OpenTrace(bd, name, true, true) + DestroyTrace(bd, name), CloseTrace(bd, name);
    OpenThenDestroy({}, {}, bd, name);
    RegisteredAppend({}, first, close);
    MountedAppend({}, first, close);
    CloseKeepsTables({}, {}, bd, name);
  }

  /** A failed mount leaves no device registered and no session. */
  method MountFails(name: string) returns (r: Result<ExtFileSystem?>, log: seq<Call>)
    ensures r == Err(IOFailure)
    ensures RegisteredAfter({}, log) == {} && MountedAfter({}, log) == {}
    ensures |log| == 4 && log[3] == Unregister(name)
  {
    var native, disk, bd;
    r, native, disk, bd := OpenSession(name, true, false, map[]);
    log := native.log;
    FailedOpenLeavesNoDevice({}, {}, bd, name, true, false);
  }

  /** A time set through a session reads back truncated to the whole second. */
  method SetThenGet(name: string, path: string, kind: TimeKind, ticks: int) returns (r: Result<int>)
    requires path != [] && 0 <= ticks < SecondsRange * TicksPerSecond
    ensures r == Ok(ticks - ticks % TicksPerSecond)
  {
    var full := CombinePaths(MountPointOf(name), path);
    var s, native, disk, bd := OpenSession(name, true, true, map[full := Stamps(0, 0, 0)]);
    var fs := s.value;
    TicksRoundTrip(ticks);
    ghost var stored := ToSeconds(ticks);
    var o := fs.SetTime(native, kind, path, ticks);
    assert native.times[full].Get(kind) == stored;
    r := fs.GetTime(native, kind, path);
  }
}
