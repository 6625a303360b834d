# SharpExt4 session layer in Dafny

SharpExt4 is a C++/CLI wrapper that exposes the lwext4 engine to .NET. This project
models its host-side session layer.

- **`ExtDisk`** opens a disk image or a physical drive. For an image it first asks
  the engine's raw I/O backend for a block device on the file. No superblock is
  checked, so any file that yields a raw device opens in raw mode, as one
  partition spanning the file. Only when no raw device is obtained does it run
  the MBR scan, copying the partition table and the device geometry.
- **`ExtFileSystem`** binds one partition of a disk to a generated device name. It
  registers and mounts that device, and resolves every session path against the
  mount point `"/" + name + "/"`. It lists and searches directories, checks
  arguments before renames, moves, copies and truncations, and converts
  timestamps. Its clean-up methods run once under the `disposed` flag.

The lwext4 engine is an oracle: the class `Engine.Native`.

- It holds the volume as three maps: files to bytes, directories to raw directory
  records, and paths to inode timestamps.
- It keeps a log, `Native.log`, of the engine calls that change the engine's state
  (block device init and fini, MBR scan, register, unregister, mount, unmount,
  rename, move, remove, truncate, timestamp set) and of the native releases (the
  device name, the MBR scratch state, the raw stream). The queries are not
  logged: the `ext4_fopen`/`ext4_fclose` pair behind `FileExists` and `Truncate`,
  `ext4_dir_open` behind `DirectoryExists` and `GetDirectory`, the timestamp
  getters and `ext4_io_raw_dev_get`. Nor are the stream opens, reads and writes
  of `CopyFile`; its writes are returned as a list of byte counts instead.
- Some engine statuses are parameters of the modelled operation: register,
  mount, rename, move, remove, the open and the truncate in `Truncate`, the
  creation of the copy target in `CopyFile`, the MBR scan, and the raw device
  and file length of `ExtDisk::Open`. The others follow from the maps: opening a
  file or a directory, and getting or setting a timestamp, succeed exactly when
  the path is in the matching map.

Modules:

- `Errors`: one error kind per .NET exception the layer throws, plus
  `Result`/`Outcome`/`Option`.
- `Paths`: `CombinePaths`, with the trim functions it is built from.
- `Wildcards`: the matcher `ConvertWildcardsToRegEx` builds, written as a direct
  anchored glob. `*` and `.` match any run; every other character matches itself,
  ignoring the case of A–Z. A pattern with `\` directly before `*` builds an
  invalid regular expression (a nested quantifier), so the conversion fails and
  `GetFiles`/`GetDirectories` raise `IOException`.
- `Timestamps`: `DateTime` ticks since the Unix epoch, to 32-bit inode seconds and
  back.
- `Engine`: raw directory records, partitions, the block device, the MBR scan, the
  call log, and the device and mount tables replayed from the log.
- `Disk`: the `ExtDisk` class.
- `Streams`: the read and write ends of the copy loop.
- `DirectorySearch`: the result of `GetDirectory` and `DoSearch`, defined as
  functions over the directory map (`ListDir`, `Search`, `Walk`, `Step`), with
  their properties.
- `FileSystem`: the `ExtFileSystem` class. Its imperative `GetDirectory` and
  `DoSearch` loops are proved equal to those functions.
- `SessionScenarios` and `SearchScenarios`: whole sessions and a small directory
  tree worked through.

Behaviour of the code worth knowing before reading the contracts:

- **Search result paths.** The result prefix is cut from the session path given
  to `DoSearch`, not from the full engine path. It is the path from index
  `|mountPoint| - 1` on, or `"/"` when the mount point is longer than the path.
  With a mount point such as `"/q/"` and root `"/d"`, a top-level match is
  reported as `"/a.x"` and a match in the subdirectory `s` as `"/s/c.x"`.
  `SearchScenarios.TopDirectorySearch` and `SearchScenarios.RecursiveSearch` show
  this.
- **Search order.** The recursive search descends into a subdirectory straight
  after considering that entry, before its later siblings.
- **`CopyFile` with a missing source** raises an `IOException`, not a "not found"
  error.
- **`Close` only runs `CleanUp(true)`.** It deletes the disk and frees the device
  name, and neither unmounts nor unregisters. Only the destructor `~ExtFileSystem`
  does those. The destructor changes no field, so a later `Close` frees the device
  name a second time (`SessionScenarios.DestroyThenClose`).

## Model

| member | source | states |
|---|---|---|
| Paths.CombinePaths | SharpExt4/ExtFileSystem.cpp:322-336 | an empty first path gives the second, and an empty second path gives the first |
| Paths.CombineSeam | SharpExt4/ExtFileSystem.cpp:322-336 | joining two non-empty paths gives `TrimEnd(a)`, then exactly one `/`, then `TrimStart(b)`; the characters on either side of the seam are not separators |
| Paths.TrimStartShape | SharpExt4/ExtFileSystem.cpp:334 | `TrimStart('/')` drops only leading separators and keeps a suffix that does not start with one |
| Paths.TrimEndShape | SharpExt4/ExtFileSystem.cpp:334 | `TrimEnd('/')` drops only trailing separators and keeps a prefix that does not end with one |
| Paths.LeadingRun | SharpExt4/ExtFileSystem.cpp:334 | the counted leading run is all separators, and the character after it is not one |
| Paths.TrailingRun | SharpExt4/ExtFileSystem.cpp:334 | the counted trailing run is all separators, and the character before it is not one |
| Paths.NonSlashCombine | SharpExt4/ExtFileSystem.cpp:322-336 | a join keeps every non-separator character of both sides and adds none |
| Paths.CombineExamples | SharpExt4/ExtFileSystem.cpp:322-336 | `("/a/","/b")` gives `"/a/b"`, `("","b")` gives `"b"`, `("a","")` gives `"a"` and `("/abc/","/")` gives `"/abc/"` |
| Wildcards.ConvertWildcards | SharpExt4/ExtFileSystem.cpp:311-320 | the conversion fails (the Regex constructor throws) exactly when the pattern holds `\` directly before `*`; otherwise it yields the matcher of the effective glob |
| Wildcards.Glob | SharpExt4/ExtFileSystem.cpp:313-316 | a pattern without `.` gets one appended; a pattern with one is kept as it is |
| Wildcards.StarFreeCompiles | SharpExt4/ExtFileSystem.cpp:311-320 | a pattern without `*` always converts, to the matcher of its effective glob |
| Wildcards.BackslashPatterns | SharpExt4/ExtFileSystem.cpp:318-319 | `\*` and `a\*b.c` fail to convert; `\.x` converts with the backslash a literal, and `*\` converts to the glob `*\.` |
| Wildcards.GlobMatch | SharpExt4/ExtFileSystem.cpp:318-319 | the anchored match: `*` and `.` match any run, the empty run included; any other character matches one character equal to it up to case |
| Wildcards.IsMatch | SharpExt4/ExtFileSystem.cpp:425 | `Regex.IsMatch` on the converted pattern is the anchored glob match of the whole name |
| Wildcards.WildcardsMatchAll | SharpExt4/ExtFileSystem.cpp:311-320 | a non-empty glob made only of `*` and `.` matches every name |
| Wildcards.StarMatchesEverything | SharpExt4/ExtFileSystem.cpp:311-320 | the pattern `"*"` converts, and its matcher accepts every name |
| Wildcards.LiteralMatch | SharpExt4/ExtFileSystem.cpp:311-320 | a glob without wildcards matches a name iff the two have equal length and agree letter by letter, ignoring case |
| Wildcards.LiteralThenWildcards | SharpExt4/ExtFileSystem.cpp:311-320 | a literal followed by wildcards matches exactly the names that begin with the literal, ignoring case |
| Wildcards.PlainPatternIsPrefix | SharpExt4/ExtFileSystem.cpp:311-320 | a pattern such as `"abc"` converts, and matches exactly the names that start with it, ignoring case (the appended `.` matches any rest) |
| Wildcards.MatchIgnoresCase | SharpExt4/ExtFileSystem.cpp:318-319 | lower-casing the name never changes whether it matches |
| Wildcards.WildcardsThenLiteral | SharpExt4/ExtFileSystem.cpp:311-320 | wildcards followed by a literal match exactly the names that end with the literal, ignoring case |
| Wildcards.ExtensionPattern | SharpExt4/ExtFileSystem.cpp:311-320 | `"*." + ext` converts, and matches exactly the names that end in `ext`, ignoring case |
| Timestamps.TruncDiv | SharpExt4/ExtFileSystem.cpp:713 | the quotient rounds toward zero: it lies within one divisor of the dividend, on the side of zero |
| Timestamps.ToSeconds | SharpExt4/ExtFileSystem.cpp:710-716 | the stored value is below 2^32; for a time in range it is the whole seconds since the epoch |
| Timestamps.FromSeconds | SharpExt4/ExtFileSystem.cpp:702-703 | reading back gives a non-negative, whole-second time |
| Timestamps.SecondsRoundTrip | SharpExt4/ExtFileSystem.cpp:689-717 | a stored 32-bit value read back and set again is unchanged |
| Timestamps.TicksRoundTrip | SharpExt4/ExtFileSystem.cpp:689-717 | a time in [epoch, epoch + 2^32 s) set and read back is that time truncated to the second below it |
| Timestamps.JustBeforeEpoch | SharpExt4/ExtFileSystem.cpp:713 | a time less than a second before the epoch is stored as 0, because the cast truncates toward zero |
| Timestamps.StoreIdempotent | SharpExt4/ExtFileSystem.cpp:689-777 | setting a time that was just read back stores the same seconds again |
| Engine.Stamps.With | SharpExt4/ExtFileSystem.cpp:706-777 | a setter changes the one timestamp it names, and the other two keep their values |
| Engine.RegisteredAppend | SharpExt4/ExtFileSystem.cpp:257-269 | replaying a log in two parts gives the same device table as replaying it whole |
| Engine.MountedAppend | SharpExt4/ExtFileSystem.cpp:262-269 | replaying a log in two parts gives the same mount table as replaying it whole |
| Engine.Native.MbrScanDevice | SharpExt4/ExtDisk.cpp:75-76 | the scan succeeds iff there is a device and the engine reports entries; the log records one scan call whenever there is a device, while a scan on a null device faults and records none; on success it sets the partition window, the sector buffer and the table; on failure it is assumed to change neither (see Left out) |
| Disk.NatToString | SharpExt4/ExtDisk.cpp:149 | the disk number is printed as the decimal digits that denote it: `"0"` for zero, and no leading zero otherwise |
| Disk.ExtDisk.constructor | SharpExt4/ExtDisk.cpp:39-52 | a new disk has no table, no geometry, capacity 0, no raw stream and is not in raw mode |
| Disk.ExtDisk.LoadScan | SharpExt4/ExtDisk.cpp:78-94 | capacity is the device's partition offset; geometry is its partition size, track count, sector count and block size; the partition list is the scanned table in order with offsets and sizes unchanged |
| Disk.ExtDisk.Capacity | SharpExt4/ExtDisk.cpp:175-178 | the property returns the stored capacity |
| Disk.ExtDisk.GetGeometry | SharpExt4/ExtDisk.cpp:183-186 | the property returns the stored geometry, none when it was never set |
| Disk.ExtDisk.Partitions | SharpExt4/ExtDisk.cpp:191-194 | the property returns the stored partition list itself, none when it was never set |
| Disk.ExtDisk.OpenRawExt4 | SharpExt4/ExtDisk.cpp:201-237 | an empty path, a missing raw device or an unreadable length gives null; otherwise a raw-mode disk with one partition at offset 0 spanning the file |
| Disk.ExtDisk.OpenPath | SharpExt4/ExtDisk.cpp:59-102 | an empty path gives null with no engine call; a file that yields a raw device is returned in raw mode without an MBR scan, as one partition spanning the file, with no scan state, capacity 0 and no geometry; otherwise the result is non-null iff the scan succeeds, and it then holds the scanned capacity, geometry, table and a fresh scan state |
| Disk.ExtDisk.OpenNumber | SharpExt4/ExtDisk.cpp:147-170 | the drive `"PhysicalDrive" + n` is scanned once; a failed scan raises IOException instead of giving null; a successful one yields the scanned capacity, geometry, table and a fresh scan state |
| Disk.ExtDisk.GetMasterBootRecord | SharpExt4/ExtDisk.cpp:108-118 | without a device or scan state the scan call faults on the null handle, the result is `NullDereference` and no log entry is recorded; otherwise the log gains one scan call; a successful rescan sets the partition window, buffer and table from the scan and returns exactly the first 512 bytes of the new buffer; a failed one raises IOException, with device and table assumed unchanged (see Left out) |
| Disk.ReleaseTrace | SharpExt4/ExtDisk.cpp:123-140 | the destructor releases the raw stream, the block device and the partition table each iff it is held, and releases nothing else |
| Disk.ReleasedDiskReleasesNothing | SharpExt4/ExtDisk.cpp:123-140 | a disk whose resources are all null releases nothing, so a second destructor call is harmless |
| Disk.ExtDisk.Dispose | SharpExt4/ExtDisk.cpp:123-140 | the log grows by exactly the releases of the held resources, and all three fields are null afterwards |
| FileSystem.MountPointOf | SharpExt4/ExtFileSystem.cpp:254 | the mount point is `/`, then the device name, then `/` |
| FileSystem.ExtFileSystem.constructor | SharpExt4/ExtFileSystem.cpp:303-309 | a new session binds the disk, has mount point `"/"`, is not disposed and initialises the block device |
| FileSystem.ExtFileSystem.IsDisposed | SharpExt4/ExtFileSystem.h:77-80 | the property returns the disposed flag as it stands |
| FileSystem.ExtFileSystem.MountPoint | SharpExt4/ExtFileSystem.cpp:38-41 | the property returns the mount point as it stands |
| FileSystem.ExtFileSystem.Open | SharpExt4/ExtFileSystem.cpp:234-277 | a null disk or partition gives null and no engine call; otherwise the partition window is set and the block buffer kept; the session is returned iff register and mount both succeed; a mount failure unregisters before raising IOException |
| FileSystem.FailedOpenLeavesNoDevice | SharpExt4/ExtFileSystem.cpp:256-271 | a failed Open leaves the device and mount tables as it found them |
| FileSystem.OpenRegisters | SharpExt4/ExtFileSystem.cpp:256-268 | a successful Open adds the name to the device table and the mount point to the mount table |
| FileSystem.ExtFileSystem.Dispose | SharpExt4/ExtFileSystem.cpp:290-298 | the destructor unmounts, then unregisters, then finalises the block device, then frees the name, in that order; it stops at the first null handle |
| FileSystem.DestroyUnregisters | SharpExt4/ExtFileSystem.cpp:290-298 | the destructor removes the name from the device table and the mount point from the mount table |
| FileSystem.OpenThenDestroy | SharpExt4/ExtFileSystem.cpp:234-298 | Open followed by the destructor leaves both tables as they were |
| FileSystem.ExtFileSystem.Finalize | SharpExt4/ExtFileSystem.h:61-73 | on a live session the name is freed iff set, then nulled, and the session is marked disposed; on a disposed one nothing happens |
| FileSystem.ExtFileSystem.CleanUp | SharpExt4/ExtFileSystem.h:83-100 | on a disposed session nothing changes; otherwise it ends disposed; `CleanUp(true)` deletes and drops the disk, which is left with its raw stream closed and its block device and scan state null, and no other disk field changes; `CleanUp(false)` leaves the disk untouched |
| FileSystem.ExtFileSystem.Close | SharpExt4/ExtFileSystem.h:103-107 | the same effect as `CleanUp(true)`: on a live session the disk is deleted, its handles nulled and the calls of ~ExtDisk logged; a closed session and its disk stay as they are |
| FileSystem.ExtFileSystem.FileExists | SharpExt4/ExtFileSystem.cpp:575-590 | an empty path raises ArgumentNullException; otherwise true iff the combined path is a file |
| FileSystem.ExtFileSystem.DirectoryExists | SharpExt4/ExtFileSystem.cpp:558-573 | an empty path raises ArgumentNullException; otherwise true iff the combined path is a directory |
| FileSystem.ExtFileSystem.GetDirectory | SharpExt4/ExtFileSystem.cpp:338-389 | a directory that does not open raises IOException; otherwise the loop's result is `ListDir` of its raw records |
| DirectorySearch.UpToNul | SharpExt4/ExtFileSystem.cpp:363-367 | the name is read up to the first NUL byte and holds none |
| DirectorySearch.ListDir | SharpExt4/ExtFileSystem.cpp:359-376 | no listed name is `.` or `..`; the listing is no longer than the records; listed names are valid when the records are |
| DirectorySearch.ListDirMembers | SharpExt4/ExtFileSystem.cpp:359-376 | an entry is listed iff it comes from a record with a non-empty name other than `.` and `..`, typed DIR iff the engine type code is the directory code |
| DirectorySearch.ResultPrefix | SharpExt4/ExtFileSystem.cpp:405-413 | the prefix is the path from index `\|mountPoint\| - 1` on, or `"/"` when the mount point is longer than the path |
| DirectorySearch.EmitPath | SharpExt4/ExtFileSystem.cpp:427-430 | the path added for a match: `"/"` followed by the name under the root prefix, the join of prefix and name otherwise |
| DirectorySearch.EmitPathJoins | SharpExt4/ExtFileSystem.cpp:427-430 | for a listed name the root case agrees with the join: both give the prefix without trailing separators, one `/` and the name |
| DirectorySearch.Search | SharpExt4/ExtFileSystem.cpp:391-453 | the paths a search appends: none (an IOException) when the directory cannot be listed, otherwise the walk over its listing |
| DirectorySearch.Walk | SharpExt4/ExtFileSystem.cpp:415-447 | the loop over the listing: each entry's step, in listing order |
| DirectorySearch.Step | SharpExt4/ExtFileSystem.cpp:417-446 | one entry: nothing for a name ending in `.`; else its emitted path when its kind is wanted and it matches, followed when recursing into a directory by that directory's results, or nothing when it cannot be listed |
| DirectorySearch.ChildMeasure | SharpExt4/ExtFileSystem.cpp:439 | descending into a listed name strictly decreases the search measure, so the recursion ends on a well-formed volume |
| DirectorySearch.StepOwnPath | SharpExt4/ExtFileSystem.cpp:417-432 | an entry that is not descended into contributes its own emitted path iff its name does not end in `.`, its kind is wanted and it matches |
| DirectorySearch.StepIncludesChild | SharpExt4/ExtFileSystem.cpp:435-440 | a recursive step over a listable subdirectory is its own path, if emitted, followed by the whole subdirectory result |
| DirectorySearch.StepSkipsUnlisted | SharpExt4/ExtFileSystem.cpp:437-445 | a subdirectory that fails to list contributes only its own path, and its siblings continue |
| DirectorySearch.SearchOfListing | SharpExt4/ExtFileSystem.cpp:398-447 | a listable directory's search is the walk over its listing, in listing order |
| DirectorySearch.ShallowWalkMembers | SharpExt4/ExtFileSystem.cpp:415-432 | without recursion a path is emitted iff it is the emitted path of a wanted entry |
| DirectorySearch.ShallowSearch | SharpExt4/ExtFileSystem.cpp:391-453 | a search of direct children only returns a path iff it is the emitted path of a wanted direct child, at most one per entry |
| DirectorySearch.ShallowInDeep | SharpExt4/ExtFileSystem.cpp:435-446 | every path a direct-children search returns is also returned by the recursive search |
| DirectorySearch.WalkPrefix | SharpExt4/ExtFileSystem.cpp:415-447 | results only grow: the walk over a prefix of the listing is a prefix of the walk over the listing |
| DirectorySearch.WalkHasStep | SharpExt4/ExtFileSystem.cpp:415-447 | the walk over the listing begins with the walk over the entries before entry i, followed by entry i's step |
| DirectorySearch.ChildSlice | SharpExt4/ExtFileSystem.cpp:435-446 | a listed subdirectory's full result appears as one contiguous run inside the parent's recursive result |
| DirectorySearch.DescendsIntoEverySubdirectory | SharpExt4/ExtFileSystem.cpp:435-446 | the recursive search returns everything each listed subdirectory's search returns, whether or not that subdirectory matched |
| DirectorySearch.NormalizeRoot | SharpExt4/ExtFileSystem.cpp:619-620 | the search root always starts with `/`; a root without one gets it prepended |
| FileSystem.ExtFileSystem.SearchEntries | SharpExt4/ExtFileSystem.cpp:415-447 | the loop appends exactly the walk over the entries, in order |
| FileSystem.ExtFileSystem.SearchEntry | SharpExt4/ExtFileSystem.cpp:417-446 | one pass appends exactly that entry's step |
| FileSystem.ExtFileSystem.DoSearch | SharpExt4/ExtFileSystem.cpp:391-453 | a disposed session raises ObjectDisposedException; a root that fails to list raises IOException and appends nothing; otherwise it appends exactly `Search` of the root |
| FileSystem.ExtFileSystem.Find | SharpExt4/ExtFileSystem.cpp:608-656 | disposed raises ObjectDisposedException; a pattern that fails to convert raises IOException; otherwise the result is `Search` of the rooted path with the converted pattern, or IOException when the root fails to list |
| FileSystem.ExtFileSystem.GetFiles | SharpExt4/ExtFileSystem.cpp:633-656 | as Find, with regular files wanted |
| FileSystem.ExtFileSystem.GetDirectories | SharpExt4/ExtFileSystem.cpp:608-631 | as Find, with directories wanted |
| FileSystem.TransferCheck | SharpExt4/ExtFileSystem.cpp:504-517 | an empty argument raises ArgumentNullException, else a missing source raises not-found, else an existing target raises IOException; it passes iff none applies |
| FileSystem.ExtFileSystem.RenameFile | SharpExt4/ExtFileSystem.cpp:502-525 | a failed check raises its error with no engine mutation (only the existence queries); otherwise the engine renames once, and a failing status raises IOException |
| FileSystem.ExtFileSystem.MoveDirectory | SharpExt4/ExtFileSystem.cpp:658-682 | the same order of checks on directories, with no engine mutation when one fails, then one engine move |
| FileSystem.Resized | SharpExt4/ExtFileSystem.cpp:208 | the truncated content has the new size; it keeps the old bytes below that size and zero-fills beyond the old length |
| FileSystem.ResizeIdempotent | SharpExt4/ExtFileSystem.cpp:208 | truncating twice to one size equals truncating once |
| FileSystem.ResizeToOwnLength | SharpExt4/ExtFileSystem.cpp:208 | truncating a file to its own length leaves it unchanged |
| FileSystem.ExtFileSystem.Truncate | SharpExt4/ExtFileSystem.cpp:196-228 | an empty path raises ArgumentNullException, a missing file FileNotFoundException and a file that does not open IOException, all without change; otherwise one truncate call, and success even when the engine's truncate fails |
| FileSystem.ExtFileSystem.GetTime | SharpExt4/ExtFileSystem.cpp:689-704 | an empty path raises ArgumentNullException, an unreadable inode IOException; otherwise the epoch plus the stored seconds |
| FileSystem.ExtFileSystem.SetTime | SharpExt4/ExtFileSystem.cpp:706-717 | an empty path raises ArgumentNullException with no engine call; otherwise the engine is given the 32-bit seconds; it succeeds iff the inode exists, and only the one timestamp changes |
| Streams.ReadStream.Read | SharpExt4/ExtFileSystem.cpp:493 | a read delivers the next bytes of the file into the front of the buffer: at least one and at most the requested count, 0 only at the end of the file or for a request of 0; the position advances by the count, which is recorded |
| Streams.WriteStream.Write | SharpExt4/ExtFileSystem.cpp:495 | a write appends the first count bytes of the buffer and records the count |
| FileSystem.CopyStart | SharpExt4/ExtFileSystem.cpp:492-493 | any first read the stream contract allows sets up the loop state |
| FileSystem.CopyStep | SharpExt4/ExtFileSystem.cpp:493-496 | writing the bytes just read and reading the next ones, whatever count the read returns, keeps the loop state |
| FileSystem.ReadStep | SharpExt4/ExtFileSystem.cpp:493 | a read continues the source exactly where the previous one stopped, and everything before it has been written |
| FileSystem.WriteStep | SharpExt4/ExtFileSystem.cpp:495 | each write has the exact count of the read before it, between 1 and 65536; the counts add up to the bytes written |
| FileSystem.CopyDone | SharpExt4/ExtFileSystem.cpp:493 | once a read returns nothing, the target holds the whole source and the reads were the writes followed by that empty read |
| FileSystem.CopyStream | SharpExt4/ExtFileSystem.cpp:487-497 | for every sequence of read counts the stream may return, the target ends up holding exactly the source bytes in order; the writes are the non-empty reads in order, each of 1 to 65536 bytes, and the loop stops at the first empty read |
| FileSystem.ExtFileSystem.CopyFile | SharpExt4/ExtFileSystem.cpp:465-500 | an empty name raises ArgumentNullException, a missing source IOException, and an existing target without overwrite IOException, with nothing deleted; with overwrite the target is removed first; a copy onto itself, or a target that cannot be created (an existing directory, or a failed create status), raises IOException with no file added; on success the target holds the source's bytes, written as the non-empty reads in order |
| SessionScenarios.OpenSession | SharpExt4/ExtFileSystem.cpp:234-277 | a fresh session exists iff register and mount succeed |
| SessionScenarios.CloseTwice | SharpExt4/ExtFileSystem.h:83-107 | two Close calls free the name once and delete the disk once, and leave the device registered and mounted |
| SessionScenarios.CloseKeepsTables | SharpExt4/ExtFileSystem.h:103-107 | Close changes neither the device table nor the mount table |
| SessionScenarios.DestroyThenClose | SharpExt4/ExtFileSystem.cpp:290-298 | the destructor then Close frees the name twice, and leaves no device registered or mounted |
| SessionScenarios.MountFails | SharpExt4/ExtFileSystem.cpp:257-271 | a failed mount raises IOException, unregisters last and leaves both tables empty |
| SessionScenarios.SetThenGet | SharpExt4/ExtFileSystem.cpp:706-777 | set then get through a session returns the time truncated to whole seconds |
| SessionScenarios.ReadMbrTwice | SharpExt4/ExtDisk.cpp:108-170 | a drive opened by number returns the same first sector on two MBR reads, logs one scan per call and keeps the capacity and table of its opening scan |
| SessionScenarios.CloseThenDisposeDisk | SharpExt4/ExtDisk.cpp:123-140 | after `Close` deletes the disk, the caller's disk has null handles and disposing it again releases nothing |
| SessionScenarios.RawImageHasNoMbr | SharpExt4/ExtDisk.cpp:59-118 | an image that yields a raw device opens as one partition with capacity 0, and asking it for the MBR faults on the null scan state, with no log entry |
| SessionScenarios.CopyOntoDirectory | SharpExt4/ExtFileSystem.cpp:465-500 | copying a file onto the name of an existing directory passes the argument checks but raises IOException and adds no file |
| SearchScenarios.TopDirectorySearch | SharpExt4/ExtFileSystem.cpp:391-453 | a pattern `"*.x"` on a directory holding `a.x`, `b.y` and `s` returns `["/a.x"]` under the prefix rule |
| SearchScenarios.RecursiveSearch | SharpExt4/ExtFileSystem.cpp:391-453 | the recursive search returns exactly `["/a.x", "/s/c.x"]`: the top-level match, then the subdirectory's match under the same prefix rule |
| SearchScenarios.PrefixBoundaries | SharpExt4/ExtFileSystem.cpp:405-431 | paths as long as the mount point keep only their last character as the prefix; a longer mount point gives the root prefix |

## Left out

- The lwext4 engine primitives (`ext4_fopen`, `ext4_dir_*`, `ext4_mbr_scan`, `ext4_device_register`, `ext4_mount`, `ext4_io_raw_dev_get` and the rest) are foreign code. They are the `Native` maps plus a status parameter per call.
- `Marshal::StringToHGlobalAnsi`/`FreeHGlobal` and the `try`/`catch` free paths are interop plumbing and are not modelled. This includes the second `FreeHGlobal` of `input_name` on the `GetDirectory` error path.
- The `rand()`-generated device name is a parameter of `Open`. The 255-byte `devName` buffer and its copy are not modelled. Nothing makes names unique across sessions.
- The local `devNameBuf` copy and the leak of the `devName` buffer when Open throws are not modelled.
- Null .NET strings are not modelled; every string argument is a non-null string. For the members that test `String::IsNullOrEmpty` (`FileExists`, `DirectoryExists`, `RenameFile`, `MoveDirectory`, `CopyFile`, `GetTime`, `SetTime`, and `Truncate` through `FileExists`) null would behave like the empty string the model rejects.
- `FileSystem.ExtFileSystem.GetFiles`, `FileSystem.ExtFileSystem.GetDirectories` and `FileSystem.ExtFileSystem.Find`: a null path or null pattern dereferences null inside the `try` (`StartsWith`, `Contains`), which the catch-all turns into an IOException; that case is not modelled. The empty strings are modelled and are not errors: an empty path searches the root `"/"` and an empty pattern becomes `"."`, which matches every name.
- A managed or native null dereference (for example `GetMasterBootRecord` on a raw-mode disk, or `Open(int)` on a drive without a device) is modelled as the error `NullDereference`, not as a crash.
- Engine calls on a null handle (`ext4_mbr_scan` in `GetMasterBootRecord` on a raw-mode disk, or in `Open(String)` when no device is obtained) fault inside the engine. The model records no log entry for such a call.
- `Engine.Native.MbrScanDevice`: a failed scan is assumed to leave the device's partition window and sector buffer and the partition table as they were. The lwext4 scan code is not part of this model. It may clear the table and read sector 0 into the device buffer before checking the signature. `Disk.ExtDisk.GetMasterBootRecord` inherits this assumption for its failure case.
- `Wildcards.ConvertWildcards`: the regular expression text is not built; its meaning is stated directly, and the one way the built text fails to compile (a `\` directly before `*`) is stated as a predicate on the pattern.
- `EndsWith(".")` in `DoSearch` and `StartsWith("/")` in `GetDirectories` and `GetFiles` are culture-sensitive .NET comparisons. They are modelled as tests of the last and of the first character.
- Regex: only ASCII letters are case-folded, and a name holding a newline is not treated specially (`$` in a .NET regex also matches before a final newline).
- `Timestamps.ToSeconds`: `DateTime` arithmetic through a `double` is modelled on integer ticks truncated toward zero. `DateTimeKind` is ignored. A time outside `[0, 2^32)` seconds is reduced mod 2^32; in C++ that conversion is undefined.
- `ExtFileStream` is not part of this model. `CopyFile` reads the source through `Streams.ReadStream`, which keeps the `Stream.Read` contract: each read delivers between 1 and the requested number of the next bytes, and 0 only at the end. The counts are chosen by a parameter, and the copy is proved for every choice. `FileInfo::Length` and `Console::WriteLine` are host I/O.
- The thin pass-throughs (`VolumeLabel`, `CanWrite`, `GetMode`/`SetMode`, `GetOwner`/`SetOwner`, `GetFileLength`, `ReadSymLink`, `CreateSymLink`/`CreateHardLink`, `CreateDirectory`, `DeleteFile`/`DeleteDirectory`, `OpenFile`, `ToString`) behave only as "throw on a non-success status". In `CopyFile`, `DeleteFile` is the call `Remove` with its status, and the two `OpenFile` calls are the stream opens.
- `FileSystem.ExtFileSystem.CopyFile`: the source stream is taken to open whenever the source file exists and was not deleted as the target. Creating the target fails when it names an existing directory; every other reason it may fail (a missing parent directory, a full volume) is the `createOk` status, not derived from the maps. The source stream opened before a failed create is leaked in the source; that leak is not modelled.
- The GC's `SuppressFinalize` and the order in which the runtime runs the finalizer are not modelled. The finalizer is the method `Finalize`.
- Concurrency is not modelled: everything here is sequential.
- `GetDirectory` copies names through a 255-byte buffer and decodes them as ANSI. Names are modelled as sequences of characters read up to the first NUL.
- `FileSystem.ExtFileSystem.RenameFile` and `FileSystem.ExtFileSystem.MoveDirectory`: the engine's rename and move are logged calls. Their effect on the file and directory maps is not modelled.
- The partition sizes are copied, not checked. Nothing is proved about partitions overlapping or summing to the disk size.
- `DirectorySearch.Search`: termination relies on `WellFormed`, meaning names without separators or NUL bytes, as ext4 stores them. Without it, the source's recursion need not end.
- `DirectorySearch.DescendsIntoEverySubdirectory`: for the recursive search, the contents are stated by membership and by the contiguous-run lemma `ChildSlice`. Only direct-children searches have a full iff characterisation.
- `FileSystem.ExtFileSystem.Truncate`: the `ext4_ftruncate` status is ignored, as in the source. No failure reporting is claimed for it.
- `FileSystem.Resized`: the engine's truncate is modelled as cutting or zero-filling the content, which is what ext4 does.
- `FileSystem.ExtFileSystem.FileExists`, `FileSystem.ExtFileSystem.DirectoryExists`, `FileSystem.ExtFileSystem.GetFiles`, `FileSystem.ExtFileSystem.GetDirectories`, `FileSystem.ExtFileSystem.DoSearch`, `FileSystem.ExtFileSystem.GetTime`, `FileSystem.ExtFileSystem.SetTime`, `FileSystem.ExtFileSystem.Truncate`, `FileSystem.ExtFileSystem.RenameFile`, `FileSystem.ExtFileSystem.MoveDirectory` and `FileSystem.ExtFileSystem.CopyFile`: the engine's maps are not tied to the mount table. After the destructor has unmounted the volume (without setting `disposed`), the engine would fail every path under the old mount point, but the model still answers from the maps.
