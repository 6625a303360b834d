/** The directory listing filter of ExtFileSystem::GetDirectory and the depth-first
    search of ExtFileSystem::DoSearch, stated as functions over the engine's
    directory listings (full path to the raw entries in iteration order; a path
    that is absent is one that ext4_dir_open cannot open). */
module DirectorySearch {
  import opened Errors
  import opened Engine
  import opened Paths
  import opened Wildcards

  datatype EntryType = Dir | RegFile

  /** ExtDirEntry: name, raw entry length and the kind the layer reports. */
  datatype DirEntry = DirEntry(name: string, length: nat, kind: EntryType)

  /** The name as a NUL-terminated copy of the raw bytes reads it back. */
  function UpToNul(s: string): (r: string)
    ensures |r| <= |s| && r == s[..|r|]
    ensures '\0' !in r
    ensures |r| < |s| ==> s[|r|] == '\0'
  {
    if s == [] || s[0] == '\0' then [] else [s[0]] + UpToNul(s[1..])
  }

  /** GetDirectory keeps an entry iff its raw name is non-empty and the name read
      back is neither "." nor "..". */
  predicate Kept(e: RawEntry) {
    |e.name| > 0 && UpToNul(e.name) != "." && UpToNul(e.name) != ".."
  }

  /** The kept entry: DIR iff the engine type code is the directory code. */
  function ToEntry(e: RawEntry): DirEntry {
    DirEntry(UpToNul(e.name), e.entryLength, if e.inodeType == DirType then Dir else RegFile)
  }

  /** Names as ext4 stores them: no separator and no NUL byte. */
  predicate ValidRaw(n: string) {
    '/' !in n && '\0' !in n
  }

  /** A name the search can descend into. */
  predicate ValidName(n: string) {
    n != [] && '/' !in n
  }

  /** The listing of one directory, in iteration order. */
  function ListDir(raw: seq<RawEntry>): (r: seq<DirEntry>)
    ensures |r| <= |raw|
    ensures forall i :: 0 <= i < |r| ==> r[i].name != "." && r[i].name != ".."
    ensures (forall j :: 0 <= j < |raw| ==> ValidRaw(raw[j].name)) ==>
              forall i :: 0 <= i < |r| ==> ValidName(r[i].name)
  {
    if raw == [] then []
    else
      var last := raw[|raw| - 1];
      var init := raw[..|raw| - 1];
      var front := ListDir(init);
      assert (forall j :: 0 <= j < |raw| ==> ValidRaw(raw[j].name)) ==>
               (forall j :: 0 <= j < |init| ==> ValidRaw(init[j].name));
      if Kept(last) then front + [ToEntry(last)] else front
  }

  /** Every entry of the listing comes from a kept raw entry, and every kept raw
      entry is listed. */
  lemma {:induction false} ListDirMembers(raw: seq<RawEntry>, x: DirEntry)
    ensures x in ListDir(raw) <==> exists e :: e in raw && Kept(e) && ToEntry(e) == x
  {
    if raw != [] {
      var front := raw[..|raw| - 1];
      ListDirMembers(front, x);
      assert raw == front + [raw[|raw| - 1]];
      assert forall e :: e in raw <==> e in front || e == raw[|raw| - 1];
    }
  }

  /** Every directory listing of the engine holds ext4-valid names. */
  predicate WellFormed(dirs: map<string, seq<RawEntry>>) {
    forall k :: k in dirs ==> forall j :: 0 <= j < |dirs[k]| ==> ValidRaw(dirs[k][j].name)
  }

  lemma ListedNamesValid(dirs: map<string, seq<RawEntry>>, full: string)
    requires WellFormed(dirs) && full in dirs
    ensures forall i :: 0 <= i < |ListDir(dirs[full])| ==> ValidName(ListDir(dirs[full])[i].name)
  {
  }

  /** An upper bound on the length of every listed path. */
  ghost function MaxKeyLen(ks: set<string>): (m: nat)
    ensures forall k :: k in ks ==> |k| <= m
    decreases ks
  {
    if ks == {} then 0
    else
      var k :| k in ks;
      var rest := MaxKeyLen(ks - {k});
      if |k| > rest then |k| else rest
  }

  /** Termination measure of the search: the listed full path of every directory
      the search opens is bounded, and each descent adds a name to the path. */
  ghost function Measure(dirs: map<string, seq<RawEntry>>, mp: string, path: string): nat
  {
    if CombinePaths(mp, path) in dirs then
      NonSlashCombine(mp, path);
      MaxKeyLen(dirs.Keys) + 1 - NonSlash(path)
    else 0
  }

  lemma ChildMeasure(dirs: map<string, seq<RawEntry>>, mp: string, path: string, name: string)
    requires CombinePaths(mp, path) in dirs && ValidName(name)
    ensures Measure(dirs, mp, CombinePaths(path, name)) < Measure(dirs, mp, path)
  {
    var child := CombinePaths(path, name);
    NonSlashCombine(path, name);
    NonSlashOfName(name);
    NonSlashCombine(mp, path);
    NonSlashCombine(mp, child);
  }

  predicate EndsWithDot(n: string) {
    n != [] && n[|n| - 1] == '.'
  }

  /** resultPrefixPath of DoSearch: the search path with |mountPoint| - 1 leading
      characters cut, or "/" when the mount point is longer than the path. The rule
      compares the mount point with the session-relative path. */
  function ResultPrefix(mp: string, path: string): (r: string)
    requires mp != []
    ensures |mp| <= |path| ==> |r| == |path| - |mp| + 1 && r == path[|mp| - 1..]
    ensures |mp| > |path| ==> r == "/"
  {
    if |mp| <= |path| then path[|mp| - 1..] else "/"
  }

  /** The path emitted for an entry under a prefix. */
  function EmitPath(prefix: string, name: string): string {
    if prefix == "/" then "/" + name else CombinePaths(prefix, name)
  }

  /** For a listed name the root prefix needs no case of its own: the emitted path
      is the join of the prefix and the name, which is the prefix without its
      trailing separators, one '/' and the name. */
  lemma EmitPathJoins(prefix: string, name: string)
    requires prefix != [] && ValidName(name)
    ensures EmitPath(prefix, name) == CombinePaths(prefix, name)
    ensures EmitPath(prefix, name) == TrimEnd(prefix) + "/" + name
  {
    assert name[0] in name;
    assert LeadingSlashes(name) == 0;
    assert TrimStart(name) == name;
    if prefix == "/" {
      assert TrailingSlashes("/") == 1 by { assert "/"[..0] == ""; }
      assert TrimEnd("/") == "";
    }
  }

  /** DoSearch emits an entry iff its name does not end in '.', its kind is one the
      caller asked for and the matcher accepts its name. */
  predicate Wanted(e: DirEntry, m: Matcher, wantDirs: bool, wantFiles: bool) {
    && !EndsWithDot(e.name)
    && ((e.kind == Dir && wantDirs) || (e.kind != Dir && wantFiles))
    && IsMatch(m, e.name)
  }

  /** The paths DoSearch appends when searching path, or None when the directory
      cannot be listed (DoSearch then raises IOException). */
  function Search(dirs: map<string, seq<RawEntry>>, mp: string, path: string, m: Matcher,
                  sub: bool, wantDirs: bool, wantFiles: bool): Option<seq<string>>
    requires mp != [] && WellFormed(dirs)
    decreases Measure(dirs, mp, path), 2
  {
    var full := CombinePaths(mp, path);
    if full !in dirs then None
    else
      ListedNamesValid(dirs, full);
      Some(Walk(dirs, mp, path, ListDir(dirs[full]), m, sub, wantDirs, wantFiles))
  }

  /** The paths appended while looping over the entries es of the directory path. */
  function Walk(dirs: map<string, seq<RawEntry>>, mp: string, path: string, es: seq<DirEntry>,
                m: Matcher, sub: bool, wantDirs: bool, wantFiles: bool): seq<string>
    requires mp != [] && WellFormed(dirs) && CombinePaths(mp, path) in dirs
    requires forall i :: 0 <= i < |es| ==> ValidName(es[i].name)
    decreases Measure(dirs, mp, path), 1, |es|
  {
    if es == [] then []
    else
      Walk(dirs, mp, path, es[..|es| - 1], m, sub, wantDirs, wantFiles)
      + Step(dirs, mp, path, es[|es| - 1], m, sub, wantDirs, wantFiles)
  }

  /** The paths appended for one entry: its own path when wanted, then, when
      recursing into a directory, everything the subdirectory search appends; a
      subdirectory that cannot be listed contributes nothing. */
  function Step(dirs: map<string, seq<RawEntry>>, mp: string, path: string, e: DirEntry,
                m: Matcher, sub: bool, wantDirs: bool, wantFiles: bool): seq<string>
    requires mp != [] && WellFormed(dirs) && CombinePaths(mp, path) in dirs && ValidName(e.name)
    decreases Measure(dirs, mp, path), 0
  {
    if EndsWithDot(e.name) then []
    else
      (if Wanted(e, m, wantDirs, wantFiles) then [EmitPath(ResultPrefix(mp, path), e.name)] else [])
      + (if sub && e.kind == Dir then
           ChildMeasure(dirs, mp, path, e.name);
           match Search(dirs, mp, CombinePaths(path, e.name), m, sub, wantDirs, wantFiles)
           case Some(s) => s
           case None => []
         else [])
  }

  /** An entry that is not descended into contributes exactly its own path when it
      is wanted, and nothing otherwise. */
  lemma StepOwnPath(dirs: map<string, seq<RawEntry>>, mp: string, path: string, e: DirEntry,
                    m: Matcher, sub: bool, wantDirs: bool, wantFiles: bool)
    requires mp != [] && WellFormed(dirs) && CombinePaths(mp, path) in dirs && ValidName(e.name)
    requires !(sub && e.kind == Dir)
    ensures Step(dirs, mp, path, e, m, sub, wantDirs, wantFiles)
            == if Wanted(e, m, wantDirs, wantFiles) then [EmitPath(ResultPrefix(mp, path), e.name)] else []
  {
  }

  /** The walk over a listing with one more entry appends that entry's step. */
  lemma WalkSnoc(dirs: map<string, seq<RawEntry>>, mp: string, path: string, es: seq<DirEntry>,
                 m: Matcher, sub: bool, wantDirs: bool, wantFiles: bool)
    requires mp != [] && WellFormed(dirs) && CombinePaths(mp, path) in dirs
    requires es != [] && forall i :: 0 <= i < |es| ==> ValidName(es[i].name)
    ensures Walk(dirs, mp, path, es, m, sub, wantDirs, wantFiles)
            == Walk(dirs, mp, path, es[..|es| - 1], m, sub, wantDirs, wantFiles)
               + Step(dirs, mp, path, es[|es| - 1], m, sub, wantDirs, wantFiles)
  {
  }

  /** The emitted path of a wanted entry. */
  predicate Emitted(prefix: string, e: DirEntry, m: Matcher, wantDirs: bool, wantFiles: bool, x: string) {
    Wanted(e, m, wantDirs, wantFiles) && x == EmitPath(prefix, e.name)
  }

  lemma {:induction false} ShallowWalkSound(dirs: map<string, seq<RawEntry>>, mp: string, path: string,
                                           es: seq<DirEntry>, m: Matcher, wantDirs: bool, wantFiles: bool, x: string)
    requires mp != [] && WellFormed(dirs) && CombinePaths(mp, path) in dirs
    requires forall i :: 0 <= i < |es| ==> ValidName(es[i].name)
    requires x in Walk(dirs, mp, path, es, m, false, wantDirs, wantFiles)
    ensures exists i :: 0 <= i < |es| && Emitted(ResultPrefix(mp, path), es[i], m, wantDirs, wantFiles, x)
  {
    var front := es[..|es| - 1];
    var last := es[|es| - 1];
    WalkSnoc(dirs, mp, path, es, m, false, wantDirs, wantFiles);
    StepOwnPath(dirs, mp, path, last, m, false, wantDirs, wantFiles);
    var prefix := ResultPrefix(mp, path);
    if x in Walk(dirs, mp, path, front, m, false, wantDirs, wantFiles) {
      ShallowWalkSound(dirs, mp, path, front, m, wantDirs, wantFiles, x);
      var i :| 0 <= i < |front| && Emitted(prefix, front[i], m, wantDirs, wantFiles, x);
      assert es[i] == front[i];
      assert Emitted(prefix, es[i], m, wantDirs, wantFiles, x);
    } else {
      assert x in Step(dirs, mp, path, last, m, false, wantDirs, wantFiles);
      assert Emitted(prefix, es[|es| - 1], m, wantDirs, wantFiles, x);
    }
  }

  lemma {:induction false} ShallowWalkComplete(dirs: map<string, seq<RawEntry>>, mp: string, path: string,
                                              es: seq<DirEntry>, m: Matcher, wantDirs: bool, wantFiles: bool,
                                              i: nat, x: string)
    requires mp != [] && WellFormed(dirs) && CombinePaths(mp, path) in dirs
    requires forall j :: 0 <= j < |es| ==> ValidName(es[j].name)
    requires i < |es| && Emitted(ResultPrefix(mp, path), es[i], m, wantDirs, wantFiles, x)
    ensures x in Walk(dirs, mp, path, es, m, false, wantDirs, wantFiles)
  {
    var front := es[..|es| - 1];
    WalkSnoc(dirs, mp, path, es, m, false, wantDirs, wantFiles);
    if i < |es| - 1 {
      assert front[i] == es[i];
      ShallowWalkComplete(dirs, mp, path, front, m, wantDirs, wantFiles, i, x);
    } else {
      StepOwnPath(dirs, mp, path, es[i], m, false, wantDirs, wantFiles);
    }
  }

  lemma {:induction false} ShallowWalkLength(dirs: map<string, seq<RawEntry>>, mp: string, path: string,
                                            es: seq<DirEntry>, m: Matcher, wantDirs: bool, wantFiles: bool)
    requires mp != [] && WellFormed(dirs) && CombinePaths(mp, path) in dirs
    requires forall i :: 0 <= i < |es| ==> ValidName(es[i].name)
    ensures |Walk(dirs, mp, path, es, m, false, wantDirs, wantFiles)| <= |es|
  {
    if es != [] {
      WalkSnoc(dirs, mp, path, es, m, false, wantDirs, wantFiles);
      StepOwnPath(dirs, mp, path, es[|es| - 1], m, false, wantDirs, wantFiles);
      ShallowWalkLength(dirs, mp, path, es[..|es| - 1], m, wantDirs, wantFiles);
    }
  }

  /** Without recursion a path is emitted iff it is the emitted path of a wanted
      entry of the listing; at most one path per entry. */
  lemma ShallowWalkMembers(dirs: map<string, seq<RawEntry>>, mp: string, path: string,
                           es: seq<DirEntry>, m: Matcher, wantDirs: bool, wantFiles: bool, x: string)
    requires mp != [] && WellFormed(dirs) && CombinePaths(mp, path) in dirs
    requires forall i :: 0 <= i < |es| ==> ValidName(es[i].name)
    ensures x in Walk(dirs, mp, path, es, m, false, wantDirs, wantFiles) <==>
      exists e :: e in es && Emitted(ResultPrefix(mp, path), e, m, wantDirs, wantFiles, x)
    ensures |Walk(dirs, mp, path, es, m, false, wantDirs, wantFiles)| <= |es|
  {
    ShallowWalkLength(dirs, mp, path, es, m, wantDirs, wantFiles);
    if x in Walk(dirs, mp, path, es, m, false, wantDirs, wantFiles) {
      ShallowWalkSound(dirs, mp, path, es, m, wantDirs, wantFiles, x);
    }
    if exists e :: e in es && Emitted(ResultPrefix(mp, path), e, m, wantDirs, wantFiles, x) {
      var e :| e in es && Emitted(ResultPrefix(mp, path), e, m, wantDirs, wantFiles, x);
      var i :| 0 <= i < |es| && es[i] == e;
      ShallowWalkComplete(dirs, mp, path, es, m, wantDirs, wantFiles, i, x);
    }
  }

  /** GetFiles/GetDirectories with TopDirectoryOnly: a path is returned iff it is the
      emitted path of a wanted direct child; at most one path per entry. */
  lemma ShallowSearch(dirs: map<string, seq<RawEntry>>, mp: string, path: string, m: Matcher,
                      wantDirs: bool, wantFiles: bool, x: string)
    requires mp != [] && WellFormed(dirs) && CombinePaths(mp, path) in dirs
    ensures var r := Search(dirs, mp, path, m, false, wantDirs, wantFiles);
      var es := ListDir(dirs[CombinePaths(mp, path)]);
      r.Some? && |r.value| <= |es|
      && (x in r.value <==>
          exists e :: e in es && Emitted(ResultPrefix(mp, path), e, m, wantDirs, wantFiles, x))
  {
    var full := CombinePaths(mp, path);
    ListedNamesValid(dirs, full);
    ShallowWalkMembers(dirs, mp, path, ListDir(dirs[full]), m, wantDirs, wantFiles, x);
  }

  lemma {:induction false} ShallowWalkInDeep(dirs: map<string, seq<RawEntry>>, mp: string, path: string,
                                            es: seq<DirEntry>, m: Matcher, wantDirs: bool, wantFiles: bool, x: string)
    requires mp != [] && WellFormed(dirs) && CombinePaths(mp, path) in dirs
    requires forall i :: 0 <= i < |es| ==> ValidName(es[i].name)
    requires x in Walk(dirs, mp, path, es, m, false, wantDirs, wantFiles)
    ensures x in Walk(dirs, mp, path, es, m, true, wantDirs, wantFiles)
  {
    var front := es[..|es| - 1];
    var last := es[|es| - 1];
    WalkSnoc(dirs, mp, path, es, m, false, wantDirs, wantFiles);
    WalkSnoc(dirs, mp, path, es, m, true, wantDirs, wantFiles);
    if x in Walk(dirs, mp, path, front, m, false, wantDirs, wantFiles) {
      ShallowWalkInDeep(dirs, mp, path, front, m, wantDirs, wantFiles, x);
    } else {
      StepOwnPath(dirs, mp, path, last, m, false, wantDirs, wantFiles);
    }
  }

  /** Everything a top-directory-only search returns, the recursive search returns
      too. */
  lemma ShallowInDeep(dirs: map<string, seq<RawEntry>>, mp: string, path: string, m: Matcher,
                      wantDirs: bool, wantFiles: bool, x: string)
    requires mp != [] && WellFormed(dirs)
    requires var r := Search(dirs, mp, path, m, false, wantDirs, wantFiles); r.Some? && x in r.value
    ensures var r := Search(dirs, mp, path, m, true, wantDirs, wantFiles); r.Some? && x in r.value
  {
    var full := CombinePaths(mp, path);
    ListedNamesValid(dirs, full);
    ShallowWalkInDeep(dirs, mp, path, ListDir(dirs[full]), m, wantDirs, wantFiles, x);
  }

  /** The walk over a prefix of a listing is a prefix of the walk over the listing. */
  lemma {:induction false} WalkPrefix(dirs: map<string, seq<RawEntry>>, mp: string, path: string,
                                     es: seq<DirEntry>, m: Matcher, sub: bool, wantDirs: bool, wantFiles: bool, j: nat)
    requires mp != [] && WellFormed(dirs) && CombinePaths(mp, path) in dirs
    requires forall k :: 0 <= k < |es| ==> ValidName(es[k].name)
    requires j <= |es|
    ensures Walk(dirs, mp, path, es[..j], m, sub, wantDirs, wantFiles) <= Walk(dirs, mp, path, es, m, sub, wantDirs, wantFiles)
    decreases |es|
  {
    if j == |es| {
      assert es[..j] == es;
    } else {
      var front := es[..|es| - 1];
      assert front[..j] == es[..j];
      WalkPrefix(dirs, mp, path, front, m, sub, wantDirs, wantFiles, j);
      WalkSnoc(dirs, mp, path, es, m, sub, wantDirs, wantFiles);
      PrefixAppend(Walk(dirs, mp, path, es[..j], m, sub, wantDirs, wantFiles),
                   Walk(dirs, mp, path, front, m, sub, wantDirs, wantFiles),
                   Step(dirs, mp, path, es[|es| - 1], m, sub, wantDirs, wantFiles));
    }
  }

  lemma PrefixAppend<T>(a: seq<T>, b: seq<T>, c: seq<T>)
    requires a <= b
    ensures a <= b + c
  {
    assert (b + c)[..|a|] == b[..|a|];
  }

  /** The walk over a listing begins with the walk over the entries before the
      i-th, followed by the i-th entry's step. */
  lemma WalkHasStep(dirs: map<string, seq<RawEntry>>, mp: string, path: string,
                    es: seq<DirEntry>, m: Matcher, sub: bool, wantDirs: bool, wantFiles: bool, i: nat)
    requires mp != [] && WellFormed(dirs) && CombinePaths(mp, path) in dirs
    requires forall j :: 0 <= j < |es| ==> ValidName(es[j].name)
    requires i < |es|
    ensures Walk(dirs, mp, path, es[..i], m, sub, wantDirs, wantFiles) + Step(dirs, mp, path, es[i], m, sub, wantDirs, wantFiles)
            <= Walk(dirs, mp, path, es, m, sub, wantDirs, wantFiles)
  {
    var e, front, upto := es[i], es[..i], es[..i + 1];
    assert upto == front + [e];
    WalkCons(dirs, mp, path, front, m, sub, wantDirs, wantFiles, e);
    WalkPrefix(dirs, mp, path, es, m, sub, wantDirs, wantFiles, i + 1);
    assert Walk(dirs, mp, path, upto, m, sub, wantDirs, wantFiles) <= Walk(dirs, mp, path, es, m, sub, wantDirs, wantFiles);
  }

  lemma WalkCons(dirs: map<string, seq<RawEntry>>, mp: string, path: string, front: seq<DirEntry>,
                 m: Matcher, sub: bool, wantDirs: bool, wantFiles: bool, e: DirEntry)
    requires mp != [] && WellFormed(dirs) && CombinePaths(mp, path) in dirs
    requires ValidName(e.name) && forall j :: 0 <= j < |front| ==> ValidName(front[j].name)
    ensures Walk(dirs, mp, path, front + [e], m, sub, wantDirs, wantFiles)
            == Walk(dirs, mp, path, front, m, sub, wantDirs, wantFiles) + Step(dirs, mp, path, e, m, sub, wantDirs, wantFiles)
  {
    var es := front + [e];
    assert es[..|es| - 1] == front && es[|es| - 1] == e;
  }

  /** The recursive search descends into every listed subdirectory whose name does
      not end in '.', whether or not the subdirectory itself is emitted: everything
      the subdirectory's own search returns is part of the result. */
  lemma DescendsIntoEverySubdirectory(dirs: map<string, seq<RawEntry>>, mp: string, path: string, m: Matcher,
                                      wantDirs: bool, wantFiles: bool, e: DirEntry, x: string)
    requires mp != [] && WellFormed(dirs) && CombinePaths(mp, path) in dirs
    requires e in ListDir(dirs[CombinePaths(mp, path)]) && e.kind == Dir && !EndsWithDot(e.name)
    requires var t := Search(dirs, mp, CombinePaths(path, e.name), m, true, wantDirs, wantFiles);
      t.Some? && x in t.value
    ensures var r := Search(dirs, mp, path, m, true, wantDirs, wantFiles); r.Some? && x in r.value
  {
    var child := Search(dirs, mp, CombinePaths(path, e.name), m, true, wantDirs, wantFiles).value;
    var off := ChildSlice(dirs, mp, path, m, wantDirs, wantFiles, e);
    InRun(x, child, off, Search(dirs, mp, path, m, true, wantDirs, wantFiles).value);
  }

  /** The results of a recursive search hold those of each listed subdirectory as
      one contiguous run, starting at the returned offset. */
  lemma ChildSlice(dirs: map<string, seq<RawEntry>>, mp: string, path: string, m: Matcher,
                   wantDirs: bool, wantFiles: bool, e: DirEntry) returns (off: nat)
    requires mp != [] && WellFormed(dirs) && CombinePaths(mp, path) in dirs
    requires e in ListDir(dirs[CombinePaths(mp, path)]) && e.kind == Dir && !EndsWithDot(e.name)
    requires Search(dirs, mp, CombinePaths(path, e.name), m, true, wantDirs, wantFiles).Some?
    ensures var r := Search(dirs, mp, path, m, true, wantDirs, wantFiles);
      var c := Search(dirs, mp, CombinePaths(path, e.name), m, true, wantDirs, wantFiles).value;
      r.Some? && off + |c| <= |r.value| && forall k :: 0 <= k < |c| ==> r.value[off + k] == c[k]
  {
    var full := CombinePaths(mp, path);
    var es := ListDir(dirs[full]);
    ListedNamesValid(dirs, full);
    var i := IndexOf(e, es);
    SearchOfListing(dirs, mp, path, m, true, wantDirs, wantFiles, es);
    off := WalkChildRun(dirs, mp, path, es, m, wantDirs, wantFiles, i, e);
    ghost var all := Walk(dirs, mp, path, es, m, true, wantDirs, wantFiles);
    assert off + |Search(dirs, mp, CombinePaths(path, e.name), m, true, wantDirs, wantFiles).value| <= |all|;
    assert Search(dirs, mp, path, m, true, wantDirs, wantFiles).value == all;
  }

  /** The walk over a listing holds the search results of its i-th entry, a
      subdirectory, as one contiguous run. */
  lemma WalkChildRun(dirs: map<string, seq<RawEntry>>, mp: string, path: string, es: seq<DirEntry>,
                     m: Matcher, wantDirs: bool, wantFiles: bool, i: nat, e: DirEntry) returns (off: nat)
    requires mp != [] && WellFormed(dirs) && CombinePaths(mp, path) in dirs
    requires forall j :: 0 <= j < |es| ==> ValidName(es[j].name)
    requires i < |es| && es[i] == e && e.kind == Dir && !EndsWithDot(e.name)
    requires Search(dirs, mp, CombinePaths(path, e.name), m, true, wantDirs, wantFiles).Some?
    ensures var w := Walk(dirs, mp, path, es, m, true, wantDirs, wantFiles);
      var c := Search(dirs, mp, CombinePaths(path, e.name), m, true, wantDirs, wantFiles).value;
      off + |c| <= |w| && forall k :: 0 <= k < |c| ==> w[off + k] == c[k]
  {
    StepEndsWithChild(dirs, mp, path, e, m, wantDirs, wantFiles);
    WalkHasStep(dirs, mp, path, es, m, true, wantDirs, wantFiles, i);
    off := RunAtEnd(Walk(dirs, mp, path, es[..i], m, true, wantDirs, wantFiles),
                    Step(dirs, mp, path, e, m, true, wantDirs, wantFiles),
                    Search(dirs, mp, CombinePaths(path, e.name), m, true, wantDirs, wantFiles).value,
                    Walk(dirs, mp, path, es, m, true, wantDirs, wantFiles));
  }

  /** The subdirectory's results end the step over it. */
  lemma StepEndsWithChild(dirs: map<string, seq<RawEntry>>, mp: string, path: string, e: DirEntry,
                          m: Matcher, wantDirs: bool, wantFiles: bool)
    requires mp != [] && WellFormed(dirs) && CombinePaths(mp, path) in dirs && ValidName(e.name)
    requires e.kind == Dir && !EndsWithDot(e.name)
    requires Search(dirs, mp, CombinePaths(path, e.name), m, true, wantDirs, wantFiles).Some?
    ensures var st := Step(dirs, mp, path, e, m, true, wantDirs, wantFiles);
      var c := Search(dirs, mp, CombinePaths(path, e.name), m, true, wantDirs, wantFiles).value;
      |c| <= |st| && st[|st| - |c|..] == c
  {
    StepIncludesChild(dirs, mp, path, e, m, wantDirs, wantFiles);
  }

  /** A sequence that ends a step that a longer sequence begins with, after a
      prefix, is a run of the longer sequence. */
  lemma RunAtEnd<T>(before: seq<T>, step: seq<T>, run: seq<T>, all: seq<T>) returns (off: nat)
    requires |run| <= |step| && step[|step| - |run|..] == run && before + step <= all
    ensures off + |run| <= |all| && forall k :: 0 <= k < |run| ==> all[off + k] == run[k]
  {
    off := |before| + |step| - |run|;
    forall k | 0 <= k < |run|
      ensures all[off + k] == run[k]
    {
      assert all[off + k] == (before + step)[off + k] == step[|step| - |run| + k];
    }
  }

  lemma IndexOf<T>(x: T, s: seq<T>) returns (i: nat)
    requires x in s
    ensures i < |s| && s[i] == x
  {
    i :| 0 <= i < |s| && s[i] == x;
  }

  lemma InRun<T>(x: T, run: seq<T>, off: nat, all: seq<T>)
    requires off + |run| <= |all| && forall k :: 0 <= k < |run| ==> all[off + k] == run[k]
    requires x in run
    ensures x in all
  {
    var j :| 0 <= j < |run| && run[j] == x;
    assert all[off + j] == x;
  }

  /** A recursive step over a subdirectory ends with everything the subdirectory's
      search appends. */
  lemma StepIncludesChild(dirs: map<string, seq<RawEntry>>, mp: string, path: string, e: DirEntry,
                          m: Matcher, wantDirs: bool, wantFiles: bool)
    requires mp != [] && WellFormed(dirs) && CombinePaths(mp, path) in dirs && ValidName(e.name)
    requires e.kind == Dir && !EndsWithDot(e.name)
    requires Search(dirs, mp, CombinePaths(path, e.name), m, true, wantDirs, wantFiles).Some?
    ensures Step(dirs, mp, path, e, m, true, wantDirs, wantFiles)
            == (if Wanted(e, m, wantDirs, wantFiles) then [EmitPath(ResultPrefix(mp, path), e.name)] else [])
               + Search(dirs, mp, CombinePaths(path, e.name), m, true, wantDirs, wantFiles).value
  {
  }

  /** A recursive step over a subdirectory that cannot be listed contributes only
      the entry's own path. */
  lemma StepSkipsUnlisted(dirs: map<string, seq<RawEntry>>, mp: string, path: string, e: DirEntry,
                          m: Matcher, wantDirs: bool, wantFiles: bool)
    requires mp != [] && WellFormed(dirs) && CombinePaths(mp, path) in dirs && ValidName(e.name)
    requires e.kind == Dir && !EndsWithDot(e.name)
    requires Search(dirs, mp, CombinePaths(path, e.name), m, true, wantDirs, wantFiles).None?
    ensures Step(dirs, mp, path, e, m, true, wantDirs, wantFiles)
            == if Wanted(e, m, wantDirs, wantFiles) then [EmitPath(ResultPrefix(mp, path), e.name)] else []
  {
  }

  /** The search of a listed directory is the walk over its listing. */
  lemma SearchOfListing(dirs: map<string, seq<RawEntry>>, mp: string, path: string, m: Matcher,
                        sub: bool, wantDirs: bool, wantFiles: bool, es: seq<DirEntry>)
    requires mp != [] && WellFormed(dirs) && CombinePaths(mp, path) in dirs
    requires ListDir(dirs[CombinePaths(mp, path)]) == es
    requires forall i :: 0 <= i < |es| ==> ValidName(es[i].name)
    ensures Search(dirs, mp, path, m, sub, wantDirs, wantFiles) == Some(Walk(dirs, mp, path, es, m, sub, wantDirs, wantFiles))
  {
  }

  /** GetFiles/GetDirectories: a root without a leading separator gets one. */
  function NormalizeRoot(path: string): (r: string)
    ensures |r| > 0 && r[0] == '/'
    ensures path != [] && path[0] == '/' ==> r == path
    ensures (path == [] || path[0] != '/') ==> r == "/" + path
  {
    if path != [] && path[0] == '/' then path else "/" + path
  }
}
