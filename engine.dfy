/** The lwext4 engine as seen from the session layer: an abstract volume state,
    the block device structure the layer reads and overwrites, and a log of the
    engine primitives and native releases the layer invokes, in call order.
    Every status the engine returns that this layer cannot predict is a parameter
    of the operation that calls it. */
module Engine {

  /** One record produced by ext4_dir_entry_next: the raw name, the inode type code
      and the on-disk entry length. */
  datatype RawEntry = RawEntry(name: string, inodeType: nat, entryLength: nat)

  /** The directory type code of lwext4 (EXT4_DE_DIR). */
  const DirType: nat := 2

  /** An MBR table entry or the synthetic raw-image partition, in bytes. */
  datatype Partition = Partition(offset: nat, size: nat)

  datatype TimeKind = Creation | LastAccess | LastWrite

  /** The three inode timestamps, in seconds since the Unix epoch (uint32). */
  datatype Stamps = Stamps(ctime: nat, atime: nat, mtime: nat) {
    function Get(k: TimeKind): nat {
      match k
      case Creation => ctime
      case LastAccess => atime
      case LastWrite => mtime
    }

    function With(k: TimeKind, v: nat): (s: Stamps)
      ensures s.Get(k) == v
      ensures forall j :: j != k ==> s.Get(j) == Get(j)
    {
      match k
      case Creation => this.(ctime := v)
      case LastAccess => this.(atime := v)
      case LastWrite => this.(mtime := v)
    }
  }

  /** What ext4_mbr_scan reports: failure, or the table entries in on-disk order
      and the fields it leaves in the scanned block device. */
  datatype ScanResult =
    | ScanFailed
    | Scanned(entries: seq<Partition>, partOffset: nat, partSize: nat, sector: seq<bv8>)

  /** The scan reads at least the first 512-byte sector into the device buffer. */
  predicate SaneScan(scan: ScanResult) {
    scan.Scanned? ==> |scan.sector| >= 512
  }

  /** struct ext4_blockdev: the partition window the layer overwrites, the physical
      geometry of the backing interface (ph_tcnt, ph_scnt, ph_bsize) and its block
      buffer (ph_bbuf). */
  class BlockDev {
    var partOffset: nat
    var partSize: nat
    const tracks: nat
    const sectors: nat
    const blockSize: nat
    var buffer: seq<bv8>

    constructor (tracks: nat, sectors: nat, blockSize: nat, size: nat)
      ensures this.tracks == tracks && this.sectors == sectors && this.blockSize == blockSize
      ensures partOffset == 0 && partSize == size && buffer == []
    {
      this.tracks, this.sectors, this.blockSize := tracks, sectors, blockSize;
      partOffset, partSize, buffer := 0, size, [];
    }
  }

  /** struct ext4_mbr_bdevs: the partitions found by the last scan. */
  class MbrBdevs {
    var partitions: seq<Partition>

    constructor ()
      ensures partitions == []
    {
      partitions := [];
    }
  }

  /** Engine primitives and native releases, as recorded in Native.log. */
  datatype Call =
    | BlockInit(bd: BlockDev)
    | BlockFini(bd: BlockDev)
    | MbrScan(bd: BlockDev)
    | Register(name: string, ok: bool)
    | Unregister(name: string)
    | Mount(name: string, mountPoint: string, ok: bool)
    | Umount(mountPoint: string)
    | FreeDevName(name: string)
    | DeleteBdevs(bdevs: MbrBdevs)
    | DeleteRawStream
    | Rename(source: string, target: string)
    | DirMove(source: string, target: string)
    | Remove(path: string)
    | Truncate(path: string, size: nat)
    | TimeSet(kind: TimeKind, path: string, seconds: nat)

  /** The effect of one call on the set of registered device names. */
  function RegisterStep(s: set<string>, c: Call): set<string> {
    match c
    case Register(n, ok) => if ok then s + {n} else s
    case Unregister(n) => s - {n}
    case _ => s
  }

  /** The effect of one call on the set of mounted mount points. */
  function MountStep(s: set<string>, c: Call): set<string> {
    match c
    case Mount(_, mp, ok) => if ok then s + {mp} else s
    case Umount(mp) => s - {mp}
    case _ => s
  }

  /** Devices registered after replaying calls on top of the set s. */
  function RegisteredAfter(s: set<string>, log: seq<Call>): set<string>
    decreases |log|
  {
    if log == [] then s else RegisteredAfter(RegisterStep(s, log[0]), log[1..])
  }

  /** Mount points mounted after replaying calls on top of the set s. */
  function MountedAfter(s: set<string>, log: seq<Call>): set<string>
    decreases |log|
  {
    if log == [] then s else MountedAfter(MountStep(s, log[0]), log[1..])
  }

  /** Replaying a call and then the rest. */
  lemma ReplayCons(reg: set<string>, mnt: set<string>, c: Call, rest: seq<Call>)
    ensures RegisteredAfter(reg, [c] + rest) == RegisteredAfter(RegisterStep(reg, c), rest)
    ensures MountedAfter(mnt, [c] + rest) == MountedAfter(MountStep(mnt, c), rest)
  {
    assert ([c] + rest)[0] == c && ([c] + rest)[1..] == rest;
  }

  /** Replaying a log in two parts is replaying it whole. */
  lemma {:induction false} RegisteredAppend(s: set<string>, a: seq<Call>, b: seq<Call>)
    ensures RegisteredAfter(s, a + b) == RegisteredAfter(RegisteredAfter(s, a), b)
    decreases |a|
  {
    if a == [] {
      assert a + b == b;
    } else {
      assert (a + b)[0] == a[0] && (a + b)[1..] == a[1..] + b;
      RegisteredAppend(RegisterStep(s, a[0]), a[1..], b);
    }
  }

  lemma {:induction false} MountedAppend(s: set<string>, a: seq<Call>, b: seq<Call>)
    ensures MountedAfter(s, a + b) == MountedAfter(MountedAfter(s, a), b)
    decreases |a|
  {
    if a == [] {
      assert a + b == b;
    } else {
      assert (a + b)[0] == a[0] && (a + b)[1..] == a[1..] + b;
      MountedAppend(MountStep(s, a[0]), a[1..], b);
    }
  }

  /** The engine state: regular files and directories by full path, the inode
      timestamps of every path that resolves, and the call log. */
  class Native {
    var files: map<string, seq<bv8>>
    var dirs: map<string, seq<RawEntry>>
    var times: map<string, Stamps>
    var log: seq<Call>

    constructor (files: map<string, seq<bv8>>, dirs: map<string, seq<RawEntry>>, times: map<string, Stamps>)
      ensures this.files == files && this.dirs == dirs && this.times == times && log == []
    {
      this.files, this.dirs, this.times := files, dirs, times;
      log := [];
    }

    /** ext4_mbr_scan(bd, bdevs). The call on a null device faults inside the
        engine; the model reports it as a failed scan and records no log entry. A
        failed scan on a device is taken to change neither the device nor the
        table. */
    method MbrScanDevice(bd: BlockDev?, bdevs: MbrBdevs, scan: ScanResult) returns (ok: bool)
      modifies this`log, bd, bdevs
      ensures ok <==> bd != null && scan.Scanned?
      ensures log == if bd == null then old(log) else old(log) + [MbrScan(bd)]
      ensures ok ==> bd.partOffset == scan.partOffset && bd.partSize == scan.partSize
                     && bd.buffer == scan.sector && bdevs.partitions == scan.entries
      ensures !ok ==> bdevs.partitions == old(bdevs.partitions)
      ensures !ok && bd != null ==> unchanged(bd)
    {
      if bd == null {
        return false;
      }
      log := log + [MbrScan(bd)];
      if scan.ScanFailed? {
        return false;
      }
      bd.partOffset, bd.partSize, bd.buffer := scan.partOffset, scan.partSize, scan.sector;
      bdevs.partitions := scan.entries;
      return true;
    }
  }
}
