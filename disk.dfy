/** SharpExt4::ExtDisk: opening a disk image or physical disk either in raw mode,
    as one partition spanning the file, or as an MBR-partitioned disk, its
    partition list and geometry, and the release of its native resources. */
module Disk {
  import opened Errors
  import opened Engine

  /** Geometry(size, tracks, sectors, block size) as read from the scanned device. */
  datatype Geometry = Geometry(size: nat, tracks: nat, sectors: nat, blockSize: nat)

  predicate IsDigit(c: char) {
    '0' <= c <= '9'
  }

  /** The number a run of decimal digits denotes, most significant digit first. */
  function DigitsValue(s: string): nat
    requires forall i :: 0 <= i < |s| ==> IsDigit(s[i])
  {
    if s == [] then 0
    else
      var d := s[|s| - 1];
      assert IsDigit(d);
      DigitsValue(s[..|s| - 1]) * 10 + (d as int - '0' as int)
  }

  /** Decimal digits of n, as String::Format prints it: the shortest run of digits
      that denotes n, so "0" for zero and no leading zero otherwise. */
  function NatToString(n: nat): (s: string)
    ensures |s| >= 1 && forall i :: 0 <= i < |s| ==> IsDigit(s[i])
    ensures DigitsValue(s) == n
    ensures n == 0 ==> s == "0"
    ensures n > 0 ==> s[0] != '0'
    decreases n
  {
    if n < 10 then [(48 + n) as char]
    else
      var front := NatToString(n / 10);
      var s := front + [(48 + n % 10) as char];
      assert s[..|s| - 1] == front;
      s
  }

  function IntToString(n: int): string {
    if n < 0 then "-" + NatToString(-n) else NatToString(n)
  }

  /** The device path used by ExtDisk::Open(int). */
  function PhysicalDrivePath(diskNumber: int): string {
    "PhysicalDrive" + IntToString(diskNumber)
  }

  /** The native releases of ~ExtDisk for a disk holding the given resources, in
      release order. */
  function ReleaseTrace(rawStreamOpen: bool, bd: BlockDev?, bdevs: MbrBdevs?): (t: seq<Call>)
    ensures |t| <= 3
    ensures DeleteRawStream in t <==> rawStreamOpen
    ensures bd != null ==> BlockFini(bd) in t
    ensures bdevs != null ==> DeleteBdevs(bdevs) in t
    ensures (exists c :: c in t && c.BlockFini?) <==> bd != null
    ensures (exists c :: c in t && c.DeleteBdevs?) <==> bdevs != null
    ensures forall c :: c in t ==> c.DeleteRawStream? || c.BlockFini? || c.DeleteBdevs?
  {
    (if rawStreamOpen then [DeleteRawStream] else [])
    + (if bd != null then [BlockFini(bd)] else [])
    + (if bdevs != null then [DeleteBdevs(bdevs)] else [])
  }

  /** Releasing a disk whose resources are all gone records nothing. */
  lemma ReleasedDiskReleasesNothing()
    ensures ReleaseTrace(false, null, null) == []
  {
  }

  class ExtDisk {
    var bdevs: MbrBdevs?
    var bd: BlockDev?
    var capacity: nat
    var geometry: Option<Geometry>
    var diskPath: string
    var isRawMode: bool
    var rawStreamOpen: bool
    var partitions: Option<seq<Partition>>

    /** ExtDisk(String^): every field empty, bd bound to the block device that the raw
        I/O backend returns for the path (dev, possibly null). */
    constructor (diskPath: string, dev: BlockDev?)
      ensures bd == dev && bdevs == null && capacity == 0 && geometry == None
      ensures this.diskPath == diskPath && !isRawMode && !rawStreamOpen && partitions == None
    {
      bdevs, bd, capacity, geometry := null, dev, 0, None;
      this.diskPath, isRawMode, rawStreamOpen, partitions := diskPath, false, false, None;
    }

    /** The Capacity property: the stored capacity. */
    function Capacity(): (c: nat)
      reads this
      ensures c == capacity
    {
      capacity
    }

    /** The Geometry property: the stored geometry, None for a null handle. */
    function GetGeometry(): (g: Option<Geometry>)
      reads this
      ensures g == geometry
    {
      geometry
    }

    /** The Partitions property: the stored list itself, None for a null handle. */
    function Partitions(): (p: Option<seq<Partition>>)
      reads this
      ensures p == partitions
    {
      partitions
    }

    /** The common tail of both Open forms after a successful scan: capacity is the
        device's part_offset, the geometry is taken from the device and the partition
        list is copied entry by entry in table order. */
    method LoadScan()
      requires bd != null && bdevs != null
      modifies this`capacity, this`geometry, this`partitions
      ensures capacity == bd.partOffset
      ensures geometry == Some(Geometry(bd.partSize, bd.tracks, bd.sectors, bd.blockSize))
      ensures partitions == Some(bdevs.partitions)
    {
      capacity := bd.partOffset;
      geometry := Some(Geometry(bd.partSize, bd.tracks, bd.sectors, bd.blockSize));
      var table := bdevs.partitions;
      var list: seq<Partition> := [];
      for i := 0 to |table|
        invariant list == table[..i]
      {
        var par := table[i];
        list := list + [Partition(par.offset, par.size)];
      }
      assert table[..|table|] == table;
      partitions := Some(list);
    }

    /** ExtDisk::OpenRawExt4: one partition spanning the whole file, in raw mode. The
        file length comes from the host file system (None when it cannot be read). */
    static method OpenRawExt4(path: string, dev: BlockDev?, fileLength: Option<nat>) returns (d: ExtDisk?)
      ensures (path == [] || dev == null || fileLength.None?) ==> d == null
      ensures path != [] && dev != null && fileLength.Some? ==>
        d != null && fresh(d) && d.isRawMode && d.bd == dev && d.bdevs == null
        && d.partitions == Some([Partition(0, fileLength.value)])
        && d.diskPath == path && d.capacity == 0 && d.geometry == None && !d.rawStreamOpen
    {
      if path == [] {
        return null;
      }
      var disk := new ExtDisk(path, dev);
      disk.isRawMode := true;
      disk.bd := dev;
      if disk.bd == null {
        return null;
      }
      disk.partitions := Some([]);
      if fileLength.None? {
        return null;
      }
      disk.partitions := Some([Partition(0, fileLength.value)]);
      return disk;
    }

    /** ExtDisk::Open(String^): a raw block device on the file, when the raw I/O
        backend gives one, opens the disk in raw mode with no check of its
        contents; only otherwise is the MBR scanned. Every failure gives null. */
    static method OpenPath(path: string, dev: BlockDev?, fileLength: Option<nat>, scan: ScanResult, native: Native)
      returns (d: ExtDisk?)
      modifies native`log, dev
      ensures path == [] ==> d == null && native.log == old(native.log)
      ensures path != [] && dev != null && fileLength.Some? ==>
        d != null && fresh(d) && d.isRawMode && d.bd == dev && d.bdevs == null
        && d.partitions == Some([Partition(0, fileLength.value)])
        && d.diskPath == path && d.capacity == 0 && d.geometry == None && !d.rawStreamOpen
        && native.log == old(native.log) && unchanged(dev)
      ensures path != [] && (dev == null || fileLength.None?) ==>
        native.log == (if dev == null then old(native.log) else old(native.log) + [MbrScan(dev)])
        && (d != null <==> dev != null && scan.Scanned?)
        && (d != null ==>
              fresh(d) && !d.isRawMode && d.bd == dev && d.diskPath == path
              && d.bdevs != null && fresh(d.bdevs) && d.bdevs.partitions == scan.entries
              && d.capacity == scan.partOffset
              && d.geometry == Some(Geometry(scan.partSize, dev.tracks, dev.sectors, dev.blockSize))
              && d.partitions == Some(scan.entries))
    {
      if path == [] {
        return null;
      }
      var raw := OpenRawExt4(path, dev, fileLength);
      if raw != null {
        return raw;
      }
      var disk := new ExtDisk(path, dev);
      disk.bdevs := new MbrBdevs();
      var ok := native.MbrScanDevice(disk.bd, disk.bdevs, scan);
      if ok {
        disk.LoadScan();
        return disk;
      }
      return null;
    }

    /** ExtDisk::Open(int): the MBR scan of "PhysicalDrive<n>"; a failed scan raises
        IOException instead of giving null. */
    static method OpenNumber(diskNumber: int, dev: BlockDev?, scan: ScanResult, native: Native)
      returns (r: Result<ExtDisk>)
      modifies native`log, dev
      ensures dev == null ==> r == Err(NullDereference) && native.log == old(native.log)
      ensures dev != null ==> native.log == old(native.log) + [MbrScan(dev)]
      ensures dev != null && scan.ScanFailed? ==> r == Err(IOFailure)
      ensures dev != null && scan.Scanned? ==>
        r.Ok? && fresh(r.value) && !r.value.isRawMode && r.value.bd == dev
        && r.value.bdevs != null && fresh(r.value.bdevs) && r.value.bdevs.partitions == scan.entries
        && r.value.diskPath == PhysicalDrivePath(diskNumber)
        && r.value.capacity == scan.partOffset
        && r.value.geometry == Some(Geometry(scan.partSize, dev.tracks, dev.sectors, dev.blockSize))
        && r.value.partitions == Some(scan.entries)
    {
      var disk := new ExtDisk(PhysicalDrivePath(diskNumber), dev);
      disk.bdevs := new MbrBdevs();
      if disk.bd == null {
        return Err(NullDereference);
      }
      var ok := native.MbrScanDevice(disk.bd, disk.bdevs, scan);
      if ok {
        disk.LoadScan();
        return Ok(disk);
      }
      return Err(IOFailure);
    }

    /** ExtDisk::GetMasterBootRecord: rescans and returns the first 512 bytes of the
        device buffer. A raw-mode disk has no MBR scratch state, so the scan call
        faults on the null handle; no log entry is recorded for it. */
    method GetMasterBootRecord(scan: ScanResult, native: Native) returns (r: Result<seq<bv8>>)
      requires SaneScan(scan)
      modifies native`log, bd, bdevs
      ensures (bd == null || bdevs == null) ==> r == Err(NullDereference) && native.log == old(native.log)
      ensures bd != null && bdevs != null ==> native.log == old(native.log) + [MbrScan(bd)]
      ensures bd != null && bdevs != null && scan.ScanFailed? ==>
        r == Err(IOFailure) && unchanged(bd) && bdevs.partitions == old(bdevs.partitions)
      ensures bd != null && bdevs != null && scan.Scanned? ==>
        && r == Ok(scan.sector[..512]) && |r.value| == 512
        && bd.partOffset == scan.partOffset && bd.partSize == scan.partSize
        && bd.buffer == scan.sector && r.value == bd.buffer[..512]
        && bdevs.partitions == scan.entries
    {
      if bd == null || bdevs == null {
        return Err(NullDereference);
      }
      var ok := native.MbrScanDevice(bd, bdevs, scan);
      if ok {
        return Ok(bd.buffer[..512]);
      }
      return Err(IOFailure);
    }

    /** ~ExtDisk: releases the raw stream, finalises the block device and deletes the
        MBR scratch state, each only when present, and nulls each of them; so a second
        call releases nothing. */
    method Dispose(native: Native)
      modifies this`rawStreamOpen, this`bd, this`bdevs, native`log
      ensures native.log == old(native.log) + ReleaseTrace(old(rawStreamOpen), old(bd), old(bdevs))
      ensures !rawStreamOpen && bd == null && bdevs == null
    {
      if rawStreamOpen {
        native.log := native.log + [DeleteRawStream];
        rawStreamOpen := false;
      }
      if bd != null {
        native.log := native.log + [BlockFini(bd)];
        bd := null;
      }
      if bdevs != null {
        native.log := native.log + [DeleteBdevs(bdevs)];
        bdevs := null;
      }
    }
  }
}
