/** Path joining as done by SharpExt4::CombinePaths: no normalisation of "." or "..",
    only the separators at the seam are collapsed. */
module Paths {

  /** Number of '/' characters at the front of s. */
  function LeadingSlashes(s: string): (n: nat)
    ensures n <= |s|
  {
    if s != [] && s[0] == '/' then 1 + LeadingSlashes(s[1..]) else 0
  }

  /** Number of '/' characters at the end of s. */
  function TrailingSlashes(s: string): (n: nat)
    ensures n <= |s|
  {
    if s != [] && s[|s| - 1] == '/' then 1 + TrailingSlashes(s[..|s| - 1]) else 0
  }

  /** String.TrimStart('/'): s without its leading run of separators. */
  function TrimStart(s: string): (r: string)
    ensures |r| <= |s|
  {
    s[LeadingSlashes(s)..]
  }

  /** String.TrimEnd('/'): s without its trailing run of separators. */
  function TrimEnd(s: string): (r: string)
    ensures |r| <= |s|
  {
    s[..|s| - TrailingSlashes(s)]
  }

  /** The leading run is all separators and the character after it is not one. */
  lemma {:induction false} LeadingRun(s: string)
    ensures forall i :: 0 <= i < LeadingSlashes(s) ==> s[i] == '/'
    ensures LeadingSlashes(s) < |s| ==> s[LeadingSlashes(s)] != '/'
  {
    if s != [] && s[0] == '/' {
      LeadingRun(s[1..]);
    }
  }

  /** The trailing run is all separators and the character before it is not one. */
  lemma {:induction false} TrailingRun(s: string)
    ensures forall i :: |s| - TrailingSlashes(s) <= i < |s| ==> s[i] == '/'
    ensures TrailingSlashes(s) < |s| ==> s[|s| - 1 - TrailingSlashes(s)] != '/'
  {
    if s != [] && s[|s| - 1] == '/' {
      TrailingRun(s[..|s| - 1]);
    }
  }

  /** TrimStart drops separators only, and what it keeps does not start with one. */
  lemma TrimStartShape(s: string)
    ensures var r := TrimStart(s);
      r == s[|s| - |r|..] && (forall i :: 0 <= i < |s| - |r| ==> s[i] == '/') && (r != [] ==> r[0] != '/')
  {
    LeadingRun(s);
  }

  /** TrimEnd drops separators only, and what it keeps does not end with one. */
  lemma TrimEndShape(s: string)
    ensures var r := TrimEnd(s);
      r == s[..|r|] && (forall i :: |r| <= i < |s| ==> s[i] == '/') && (r != [] ==> r[|r| - 1] != '/')
  {
    TrailingRun(s);
  }

  /** CombinePaths(a, b): either side empty gives the other; otherwise the two are
      joined by exactly one separator (CombineSeam). */
  function CombinePaths(a: string, b: string): (r: string)
    ensures a == [] ==> r == b
    ensures a != [] && b == [] ==> r == a
  {
    if a == [] then b
    else if b == [] then a
    else TrimEnd(a) + "/" + TrimStart(b)
  }

  /** The seam of a join of two non-empty paths holds one separator: the character
      before it (if any) and the one after it (if any) are not separators. */
  lemma CombineSeam(a: string, b: string)
    requires a != [] && b != []
    ensures var r := CombinePaths(a, b);
      var k := |TrimEnd(a)|;
      k < |r| && r[k] == '/' && (k > 0 ==> r[k - 1] != '/') && (k + 1 < |r| ==> r[k + 1] != '/')
      && r == TrimEnd(a) + "/" + TrimStart(b)
  {
    TrimEndShape(a);
    TrimStartShape(b);
  }

  /** Count of non-separator characters in s. */
  function NonSlash(s: string): (n: nat)
    ensures n <= |s|
  {
    if s == [] then 0 else (if s[0] == '/' then 0 else 1) + NonSlash(s[1..])
  }

  lemma {:induction false} NonSlashAppend(a: string, b: string)
    ensures NonSlash(a + b) == NonSlash(a) + NonSlash(b)
  {
    if a == [] {
      assert a + b == b;
    } else {
      assert (a + b)[1..] == a[1..] + b;
      NonSlashAppend(a[1..], b);
    }
  }

  lemma {:induction false} NonSlashOfSlashes(s: string)
    requires forall i :: 0 <= i < |s| ==> s[i] == '/'
    ensures NonSlash(s) == 0
  {
    if s != [] {
      NonSlashOfSlashes(s[1..]);
    }
  }

  lemma {:induction false} NonSlashOfName(s: string)
    requires forall i :: 0 <= i < |s| ==> s[i] != '/'
    ensures NonSlash(s) == |s|
  {
    if s != [] {
      NonSlashOfName(s[1..]);
    }
  }

  lemma NonSlashTrimEnd(a: string)
    ensures NonSlash(TrimEnd(a)) == NonSlash(a)
  {
    var e := TrimEnd(a);
    TrimEndShape(a);
    assert a == e + a[|e|..];
    NonSlashAppend(e, a[|e|..]);
    NonSlashOfSlashes(a[|e|..]);
  }

  lemma NonSlashTrimStart(b: string)
    ensures NonSlash(TrimStart(b)) == NonSlash(b)
  {
    var s := TrimStart(b);
    TrimStartShape(b);
    assert b == b[..|b| - |s|] + s;
    NonSlashAppend(b[..|b| - |s|], s);
    NonSlashOfSlashes(b[..|b| - |s|]);
  }

  /** Joining never loses or invents a non-separator character. */
  lemma NonSlashCombine(a: string, b: string)
    ensures NonSlash(CombinePaths(a, b)) == NonSlash(a) + NonSlash(b)
  {
    if a != [] && b != [] {
      var e, s := TrimEnd(a), TrimStart(b);
      NonSlashTrimEnd(a);
      NonSlashTrimStart(b);
      NonSlashAppend(e, "/");
      NonSlashAppend(e + "/", s);
      assert NonSlash("/") == 0;
    }
  }

  /** Joins worked out from the trimming rule of CombinePaths: separators collapse at
      the seam, and an empty side gives the other side unchanged. */
  lemma CombineExamples()
    ensures CombinePaths("/a/", "/b") == "/a/b"
    ensures CombinePaths("", "b") == "b"
    ensures CombinePaths("a", "") == "a"
    ensures CombinePaths("/abc/", "/") == "/abc/"
  {
    assert TrailingSlashes("/a") == 0;
    assert TrailingSlashes("/a/") == 1;
    assert TrimEnd("/a/") == "/a";
    assert LeadingSlashes("b") == 0;
    assert LeadingSlashes("/b") == 1;
    assert TrimStart("/b") == "b";
    assert TrailingSlashes("/abc") == 0;
    assert TrimEnd("/abc/") == "/abc";
    assert LeadingSlashes("") == 0;
    assert TrimStart("/") == "";
  }
}
