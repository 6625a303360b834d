/** Worked instances of the search rules on a small directory tree. */
module SearchScenarios {
  import opened Errors
  import opened Engine
  import opened Paths
  import opened Wildcards
  import opened DirectorySearch

  /** The tree: /d holds a.x, b.y and the subdirectory s, which holds c.x; the
      session is mounted at "/q/". */
  function Tree(n: nat): map<string, seq<RawEntry>> {
    map[
      "/q/d" := [RawEntry(".", DirType, n), RawEntry("..", DirType, n), RawEntry("a.x", 1, n),
                 RawEntry("b.y", 1, n), RawEntry("s", DirType, n)],
      "/q/d/s" := [RawEntry(".", DirType, n), RawEntry("..", DirType, n), RawEntry("c.x", 1, n)]
    ]
  }

  lemma TreeWellFormed(n: nat)
    ensures WellFormed(Tree(n))
  {
  }

  lemma DataPath()
    ensures CombinePaths("/q/", "/d") == "/q/d"
  {
    assert TrailingSlashes("/q/") == 1;
    assert LeadingSlashes("/d") == 1;
  }

  lemma SubPath()
    ensures CombinePaths("/d", "s") == "/d/s"
  {
    assert TrailingSlashes("/d") == 0;
    assert LeadingSlashes("s") == 0;
  }

  lemma SubFullPath()
    ensures CombinePaths("/q/", "/d/s") == "/q/d/s"
  {
    assert TrailingSlashes("/q/") == 1;
    assert LeadingSlashes("/d/s") == 1;
  }

  lemma EmittedPaths()
    ensures ResultPrefix("/q/", "/d") == "/"
    ensures ResultPrefix("/q/", "/d/s") == "/s"
    ensures EmitPath("/", "a.x") == "/a.x"
    ensures EmitPath("/s", "c.x") == "/s/c.x"
  {
    assert TrailingSlashes("/s") == 0;
    assert LeadingSlashes("c.x") == 0;
  }

  /** "*.x" keeps the names ending in "x" (ignoring case) and no other. */
  lemma PatternMatches()
    ensures ConvertWildcards("*.x") == Some(Glob("*.x"))
    ensures Glob("*.x").glob == "*.x"
    ensures IsMatch(Glob("*.x"), "a.x")
    ensures IsMatch(Glob("*.x"), "c.x")
    ensures !IsMatch(Glob("*.x"), "b.y")
  {
    assert "*.x" == "*." + "x";
    ExtensionPattern("x", "a.x");
    ExtensionPattern("x", "c.x");
    ExtensionPattern("x", "b.y");
    assert !SameLetter('x', 'y');
  }

  lemma NamesReadBack()
    ensures UpToNul(".") == "." && UpToNul("..") == ".."
    ensures UpToNul("a.x") == "a.x" && UpToNul("b.y") == "b.y"
    ensures UpToNul("s") == "s" && UpToNul("c.x") == "c.x"
  {
  }

  /** Listing one more raw entry appends its kept form, if any. */
  lemma ListDirSnoc(raw: seq<RawEntry>, e: RawEntry)
    ensures ListDir(raw + [e]) == if Kept(e) then ListDir(raw) + [ToEntry(e)] else ListDir(raw)
  {
    assert (raw + [e])[..|raw|] == raw;
  }

  /** The dot entries are dropped. */
  lemma DotsDropped(n: nat)
    ensures ListDir([RawEntry(".", DirType, n), RawEntry("..", DirType, n)]) == []
  {
    NamesReadBack();
    ListDirSnoc([], RawEntry(".", DirType, n));
    ListDirSnoc([RawEntry(".", DirType, n)], RawEntry("..", DirType, n));
  }

  /** The raw entries of /d other than the dot entries, as kept by the listing. */
  lemma TopEntriesKept(n: nat)
    ensures Kept(RawEntry("a.x", 1, n)) && ToEntry(RawEntry("a.x", 1, n)) == DirEntry("a.x", n, RegFile)
    ensures Kept(RawEntry("b.y", 1, n)) && ToEntry(RawEntry("b.y", 1, n)) == DirEntry("b.y", n, RegFile)
    ensures Kept(RawEntry("s", DirType, n)) && ToEntry(RawEntry("s", DirType, n)) == DirEntry("s", n, Dir)
  {
    NamesReadBack();
  }

  /** Three kept entries after entries that list as nothing list in order. */
  lemma ListDirOfThreeKept(front: seq<RawEntry>, r0: RawEntry, r1: RawEntry, r2: RawEntry)
    requires ListDir(front) == [] && Kept(r0) && Kept(r1) && Kept(r2)
    ensures ListDir(front + [r0] + [r1] + [r2]) == [ToEntry(r0), ToEntry(r1), ToEntry(r2)]
  {
    ListDirSnoc(front, r0);
    ListDirSnoc(front + [r0], r1);
    ListDirSnoc(front + [r0] + [r1], r2);
  }

  lemma TopRaw(n: nat)
    ensures Tree(n)["/q/d"] == [RawEntry(".", DirType, n), RawEntry("..", DirType, n)]
                               + [RawEntry("a.x", 1, n)] + [RawEntry("b.y", 1, n)] + [RawEntry("s", DirType, n)]
  {
  }

  lemma TopListing(n: nat)
    ensures ListDir(Tree(n)["/q/d"]) == [DirEntry("a.x", n, RegFile), DirEntry("b.y", n, RegFile), DirEntry("s", n, Dir)]
  {
    TopEntriesKept(n);
    DotsDropped(n);
    ListDirOfThreeKept([RawEntry(".", DirType, n), RawEntry("..", DirType, n)],
                       RawEntry("a.x", 1, n), RawEntry("b.y", 1, n), RawEntry("s", DirType, n));
    TopRaw(n);
  }

  lemma SubListing(n: nat)
    ensures ListDir(Tree(n)["/q/d/s"]) == [DirEntry("c.x", n, RegFile)]
  {
    NamesReadBack();
    var dots := [RawEntry(".", DirType, n), RawEntry("..", DirType, n)];
    DotsDropped(n);
    ListDirSnoc(dots, RawEntry("c.x", 1, n));
    assert Tree(n)["/q/d/s"] == dots + [RawEntry("c.x", 1, n)];
  }

  /** An unwanted subdirectory contributes exactly what its own search returns. */
  lemma StepDescends(dirs: map<string, seq<RawEntry>>, mp: string, path: string, e: DirEntry,
                     m: Matcher, wantDirs: bool, wantFiles: bool, below: seq<string>)
    requires mp != [] && WellFormed(dirs) && CombinePaths(mp, path) in dirs && ValidName(e.name)
    requires e.kind == Dir && !Wanted(e, m, wantDirs, wantFiles) && !EndsWithDot(e.name)
    requires Search(dirs, mp, CombinePaths(path, e.name), m, true, wantDirs, wantFiles) == Some(below)
    ensures Step(dirs, mp, path, e, m, true, wantDirs, wantFiles) == below
  {
  }

  /** The walk over a three-entry listing is the three steps in order. */
  lemma WalkOfThree(dirs: map<string, seq<RawEntry>>, mp: string, path: string, e0: DirEntry, e1: DirEntry, e2: DirEntry,
                    m: Matcher, sub: bool, wantDirs: bool, wantFiles: bool)
    requires mp != [] && WellFormed(dirs) && CombinePaths(mp, path) in dirs
    requires ValidName(e0.name) && ValidName(e1.name) && ValidName(e2.name)
    ensures Walk(dirs, mp, path, [e0, e1, e2], m, sub, wantDirs, wantFiles)
            == Step(dirs, mp, path, e0, m, sub, wantDirs, wantFiles) + Step(dirs, mp, path, e1, m, sub, wantDirs, wantFiles)
               + Step(dirs, mp, path, e2, m, sub, wantDirs, wantFiles)
  {
    var front := [e0, e1];
    WalkCons(dirs, mp, path, front, m, sub, wantDirs, wantFiles, e2);
    WalkOfTwo(dirs, mp, path, e0, e1, m, sub, wantDirs, wantFiles);
    assert front + [e2] == [e0, e1, e2];
  }

  lemma WalkOfTwo(dirs: map<string, seq<RawEntry>>, mp: string, path: string, e0: DirEntry, e1: DirEntry,
                  m: Matcher, sub: bool, wantDirs: bool, wantFiles: bool)
    requires mp != [] && WellFormed(dirs) && CombinePaths(mp, path) in dirs
    requires ValidName(e0.name) && ValidName(e1.name)
    ensures Walk(dirs, mp, path, [e0, e1], m, sub, wantDirs, wantFiles)
            == Step(dirs, mp, path, e0, m, sub, wantDirs, wantFiles) + Step(dirs, mp, path, e1, m, sub, wantDirs, wantFiles)
  {
    assert [e0, e1][..1] == [e0];
    WalkOfOne(dirs, mp, path, e0, m, sub, wantDirs, wantFiles);
  }

  lemma WalkOfOne(dirs: map<string, seq<RawEntry>>, mp: string, path: string, e: DirEntry,
                  m: Matcher, sub: bool, wantDirs: bool, wantFiles: bool)
    requires mp != [] && WellFormed(dirs) && CombinePaths(mp, path) in dirs && ValidName(e.name)
    ensures Walk(dirs, mp, path, [e], m, sub, wantDirs, wantFiles) == Step(dirs, mp, path, e, m, sub, wantDirs, wantFiles)
  {
    assert [e][..0] == [];
  }

  lemma SubSearch(n: nat)
    ensures WellFormed(Tree(n))
    ensures Search(Tree(n), "/q/", "/d/s", Glob("*.x"), true, false, true) == Some(["/s/c.x"])
  {
    var t := Tree(n);
    var m := Glob("*.x");
    var c := DirEntry("c.x", n, RegFile);
    TreeWellFormed(n);
    SubFullPath();
    SubListing(n);
    PatternMatches();
    EmittedPaths();
    assert ValidName("c.x") && !EndsWithDot("c.x");
    StepOwnPath(t, "/q/", "/d/s", c, m, true, false, true);
    WalkOfOne(t, "/q/", "/d/s", c, m, true, false, true);
    SearchOfListing(t, "/q/", "/d/s", m, true, false, true, [c]);
  }

  /** The steps for the files a.x and b.y of /d, in any directory map listing /d. */
  lemma FileSteps(t: map<string, seq<RawEntry>>, n: nat, sub: bool)
    requires WellFormed(t) && "/q/d" in t
    ensures CombinePaths("/q/", "/d") in t
    ensures Step(t, "/q/", "/d", DirEntry("a.x", n, RegFile), Glob("*.x"), sub, false, true) == ["/a.x"]
    ensures Step(t, "/q/", "/d", DirEntry("b.y", n, RegFile), Glob("*.x"), sub, false, true) == []
  {
    var m := Glob("*.x");
    DataPath();
    EmittedPaths();
    PatternMatches();
    assert ValidName("a.x") && ValidName("b.y") && !EndsWithDot("a.x");
    StepOwnPath(t, "/q/", "/d", DirEntry("a.x", n, RegFile), m, sub, false, true);
    StepOwnPath(t, "/q/", "/d", DirEntry("b.y", n, RegFile), m, sub, false, true);
  }

  /** The step for the subdirectory s of /d: nothing without recursion, its own
      search's result with it. */
  lemma DirStep(t: map<string, seq<RawEntry>>, n: nat, sub: bool)
    requires WellFormed(t) && "/q/d" in t
    requires sub ==> Search(t, "/q/", "/d/s", Glob("*.x"), true, false, true) == Some(["/s/c.x"])
    ensures CombinePaths("/q/", "/d") in t
    ensures Step(t, "/q/", "/d", DirEntry("s", n, Dir), Glob("*.x"), sub, false, true)
            == if sub then ["/s/c.x"] else []
  {
    var m := Glob("*.x");
    var d := DirEntry("s", n, Dir);
    DataPath();
    SubPath();
    assert ValidName("s") && !EndsWithDot("s") && !Wanted(d, m, false, true);
    if sub {
      StepDescends(t, "/q/", "/d", d, m, false, true, ["/s/c.x"]);
    } else {
      StepOwnPath(t, "/q/", "/d", d, m, sub, false, true);
    }
  }

  /** Because the prefix rule compares the mount point with the session path, the
      file is reported as "/a.x", not "/d/a.x"; b.y fails the pattern and s is not a
      file. */
  lemma TopDirectorySearch(n: nat)
    ensures WellFormed(Tree(n))
    ensures Search(Tree(n), "/q/", "/d", Glob("*.x"), false, false, true) == Some(["/a.x"])
  {
    var t := Tree(n);
    var m := Glob("*.x");
    var a, b, d := DirEntry("a.x", n, RegFile), DirEntry("b.y", n, RegFile), DirEntry("s", n, Dir);
    TreeWellFormed(n);
    FileSteps(t, n, false);
    DirStep(t, n, false);
    assert ValidName("a.x") && ValidName("b.y") && ValidName("s");
    WalkOfThree(t, "/q/", "/d", a, b, d, m, false, false, true);
    assert ["/a.x"] + [] + [] == ["/a.x"];
    TopListing(n);
    DataPath();
    SearchOfListing(t, "/q/", "/d", m, false, false, true, [a, b, d]);
  }

  /** The recursive walk over the listing of /d: a.x, nothing for b.y, then what
      the search of s returns. */
  lemma RecursiveWalk(n: nat)
    ensures WellFormed(Tree(n)) && CombinePaths("/q/", "/d") in Tree(n)
    ensures Walk(Tree(n), "/q/", "/d", [DirEntry("a.x", n, RegFile), DirEntry("b.y", n, RegFile), DirEntry("s", n, Dir)],
                 Glob("*.x"), true, false, true) == ["/a.x", "/s/c.x"]
  {
    var t := Tree(n);
    var a, b, d := DirEntry("a.x", n, RegFile), DirEntry("b.y", n, RegFile), DirEntry("s", n, Dir);
    SubSearch(n);
    FileSteps(t, n, true);
    DirStep(t, n, true);
    assert ValidName("a.x") && ValidName("b.y") && ValidName("s");
    WalkOfThree(t, "/q/", "/d", a, b, d, Glob("*.x"), true, false, true);
    assert ["/a.x"] + [] + ["/s/c.x"] == ["/a.x", "/s/c.x"];
  }

  /** The recursive search reports the top-level match and then, under the same
      prefix rule, the file of the subdirectory, in the order the entries are
      listed. */
  lemma RecursiveSearch(n: nat)
    ensures WellFormed(Tree(n))
    ensures Search(Tree(n), "/q/", "/d", Glob("*.x"), true, false, true) == Some(["/a.x", "/s/c.x"])
  {
    var a, b, d := DirEntry("a.x", n, RegFile), DirEntry("b.y", n, RegFile), DirEntry("s", n, Dir);
    RecursiveWalk(n);
    TopListing(n);
    DataPath();
    SearchOfListing(Tree(n), "/q/", "/d", Glob("*.x"), true, false, true, [a, b, d]);
  }

  /** At equal lengths of mount point and path only the last character of the path
      survives as the prefix; a longer mount point yields the root prefix. */
  lemma PrefixBoundaries()
    ensures ResultPrefix("/ab/", "/xyz") == "z"
    ensures EmitPath(ResultPrefix("/ab/", "/xyz"), "n") == "z/n"
    ensures EmitPath(ResultPrefix("/abcd/", "/xyz"), "n") == "/n"
    ensures EmitPath(ResultPrefix("/ab/", "/xyz/w"), "n") == "z/w/n"
  {
    assert TrailingSlashes("z") == 0 && TrimEnd("z") == "z";
    assert TrimStart("n") == "n";
    assert ResultPrefix("/ab/", "/xyz/w") == "z/w";
    assert TrailingSlashes("z/w") == 0 && TrimEnd("z/w") == "z/w";
  }
}
