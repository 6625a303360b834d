/** The search pattern matcher built by SharpExt4::ConvertWildcardsToRegEx.
    The pattern is escaped and then both the escaped '*' and the escaped '.' are
    turned into ".*", the whole is anchored with '^' and '$' and compiled
    case-insensitively. So each '*' and each '.' matches any run of characters
    (the empty run included) and every other character matches itself up to case,
    except that a '\' directly before a '*' makes the built expression invalid and
    the Regex constructor throws. The matcher below states that meaning directly
    instead of building a regex. */
module Wildcards {
  import opened Errors

  /** The compiled matcher: the effective glob after the '.' convention. */
  datatype Matcher = Matcher(glob: string)

  predicate IsWildcard(c: char) {
    c == '*' || c == '.'
  }

  /** Case folding of the letters A-Z. */
  function Lower(c: char): (d: char)
    ensures 'A' <= c <= 'Z' ==> 'a' <= d <= 'z' && d as int == c as int + 32
    ensures !('A' <= c <= 'Z') ==> d == c
  {
    if 'A' <= c <= 'Z' then (c as int + 32) as char else c
  }

  predicate SameLetter(a: char, b: char) {
    Lower(a) == Lower(b)
  }

  function LowerAll(s: string): (r: string)
    ensures |r| == |s| && forall i :: 0 <= i < |s| ==> r[i] == Lower(s[i])
  {
    if s == [] then [] else [Lower(s[0])] + LowerAll(s[1..])
  }

  /** The effective glob: a pattern without '.' gets one appended. */
  function Glob(pattern: string): (m: Matcher)
    ensures '.' in m.glob
    ensures '.' in pattern ==> m.glob == pattern
    ensures '.' !in pattern ==> m.glob == pattern + "."
  {
    if '.' in pattern then Matcher(pattern) else Matcher(pattern + ".")
  }

  /** The pattern holds a '\' directly before a '*'. Regex.Escape turns that pair
      into backslash, backslash, backslash, '*'; the first Replace makes it two
      backslashes and ".*", and the second Replace then takes the second backslash
      together with that '.', leaving an escaped '.' followed by "**". A quantifier
      directly after a quantifier is a nested quantifier, which the Regex
      constructor rejects with ArgumentException. Every other character, a '\'
      before anything but '*' included, stays a literal, and the appended '.'
      cannot form such a pair. */
  predicate EscapedStar(pattern: string) {
    exists i :: 0 <= i < |pattern| - 1 && pattern[i] == '\\' && pattern[i + 1] == '*'
  }

  /** ConvertWildcardsToRegEx: None when the Regex constructor throws, otherwise
      the matcher of the effective glob. */
  function ConvertWildcards(pattern: string): (r: Option<Matcher>)
    ensures r.None? <==> EscapedStar(pattern)
    ensures r.Some? ==> r.value == Glob(pattern)
  {
    if EscapedStar(pattern) then None else Some(Glob(pattern))
  }

  /** A pattern without '*' always compiles. */
  lemma StarFreeCompiles(pattern: string)
    requires '*' !in pattern
    ensures ConvertWildcards(pattern) == Some(Glob(pattern))
  {
  }

  /** "\*" does not compile, while a '\' before '.' or at the end is a literal. */
  lemma BackslashPatterns()
    ensures ConvertWildcards("\\*") == None
    ensures ConvertWildcards("a\\*b.c") == None
    ensures ConvertWildcards("\\.x") == Some(Matcher("\\.x"))
    ensures ConvertWildcards("*\\") == Some(Matcher("*\\."))
  {
    assert "\\*"[0] == '\\' && "\\*"[1] == '*';
    assert "a\\*b.c"[1] == '\\' && "a\\*b.c"[2] == '*';
    assert '.' in "\\.x" by { assert "\\.x"[1] == '.'; }
    assert '.' !in "*\\";
    assert "*\\" + "." == "*\\.";
    assert !EscapedStar("*\\");
    assert !EscapedStar("\\.x");
  }

  /** Anchored match of the whole name s against glob p. */
  function GlobMatch(p: string, s: string): bool
    decreases |p| + |s|
  {
    if p == [] then s == []
    else if IsWildcard(p[0]) then GlobMatch(p[1..], s) || (s != [] && GlobMatch(p, s[1..]))
    else s != [] && SameLetter(p[0], s[0]) && GlobMatch(p[1..], s[1..])
  }

  /** Regex.IsMatch on the compiled pattern. */
  predicate IsMatch(m: Matcher, name: string) {
    GlobMatch(m.glob, name)
  }

  predicate AllWildcards(p: string) {
    forall i :: 0 <= i < |p| ==> IsWildcard(p[i])
  }

  predicate NoWildcards(p: string) {
    forall i :: 0 <= i < |p| ==> !IsWildcard(p[i])
  }

  /** A non-empty glob of wildcards only matches every name. */
  lemma {:induction false} WildcardsMatchAll(p: string, s: string)
    requires p != [] && AllWildcards(p)
    ensures GlobMatch(p, s)
    decreases |p| + |s|
  {
    if s != [] {
      WildcardsMatchAll(p, s[1..]);
    } else if |p| > 1 {
      WildcardsMatchAll(p[1..], s);
    }
  }

  /** The pattern "*" compiles and matches every name. */
  lemma StarMatchesEverything(name: string)
    ensures ConvertWildcards("*") == Some(Glob("*"))
    ensures IsMatch(Glob("*"), name)
  {
    assert !EscapedStar("*");
    assert Glob("*").glob == "*.";
    WildcardsMatchAll("*.", name);
  }

  /** A glob without wildcards matches exactly the names equal to it up to case. */
  lemma {:induction false} LiteralMatch(p: string, s: string)
    requires NoWildcards(p)
    ensures GlobMatch(p, s) <==> |s| == |p| && forall i :: 0 <= i < |p| ==> SameLetter(p[i], s[i])
  {
    if p != [] && s != [] {
      LiteralMatch(p[1..], s[1..]);
      if |s| == |p| && (forall i :: 1 <= i < |p| ==> SameLetter(p[i], s[i])) {
        assert forall i :: 0 <= i < |p| - 1 ==> SameLetter(p[1..][i], s[1..][i]);
      }
      if |s| == |p| && (forall i :: 0 <= i < |p| - 1 ==> SameLetter(p[1..][i], s[1..][i])) {
        assert forall i :: 1 <= i < |p| ==> SameLetter(p[i], s[i]) by {
          forall i | 1 <= i < |p| ensures SameLetter(p[i], s[i]) {
            assert p[i] == p[1..][i - 1] && s[i] == s[1..][i - 1];
          }
        }
      }
    }
  }

  /** A literal pattern followed by wildcards matches exactly the names that begin
      with the literal, up to case. */
  lemma {:induction false} LiteralThenWildcards(l: string, w: string, s: string)
    requires NoWildcards(l) && w != [] && AllWildcards(w)
    ensures GlobMatch(l + w, s) <==> |s| >= |l| && forall i :: 0 <= i < |l| ==> SameLetter(l[i], s[i])
  {
    if l == [] {
      assert l + w == w;
      WildcardsMatchAll(w, s);
    } else {
      assert (l + w)[0] == l[0] && (l + w)[1..] == l[1..] + w;
      if s != [] {
        LiteralThenWildcards(l[1..], w, s[1..]);
        if |s| >= |l| && forall i :: 1 <= i < |l| ==> SameLetter(l[i], s[i]) {
          assert forall i :: 0 <= i < |l| - 1 ==> SameLetter(l[1..][i], s[1..][i]);
        }
        if |s| >= |l| && (forall i :: 0 <= i < |l| - 1 ==> SameLetter(l[1..][i], s[1..][i])) {
          forall i | 1 <= i < |l| ensures SameLetter(l[i], s[i]) {
            assert l[i] == l[1..][i - 1] && s[i] == s[1..][i - 1];
          }
        }
      }
    }
  }

  /** A pattern without '*' or '.' (such as "abc") matches exactly the names that
      start with it, ignoring case, because of the '.' appended by the converter. */
  lemma PlainPatternIsPrefix(pattern: string, name: string)
    requires NoWildcards(pattern)
    ensures ConvertWildcards(pattern) == Some(Glob(pattern))
    ensures IsMatch(Glob(pattern), name) <==>
      |name| >= |pattern| && forall i :: 0 <= i < |pattern| ==> SameLetter(pattern[i], name[i])
  {
    assert '.' !in pattern;
    StarFreeCompiles(pattern);
    LiteralThenWildcards(pattern, ".", name);
  }

  /** Matching ignores the case of the name (RegexOptions.IgnoreCase). */
  lemma {:induction false} MatchIgnoresCase(p: string, s: string)
    ensures GlobMatch(p, s) == GlobMatch(p, LowerAll(s))
    decreases |p| + |s|
  {
    var t := LowerAll(s);
    if p != [] {
      if s != [] {
        assert t[1..] == LowerAll(s[1..]);
        assert Lower(Lower(s[0])) == Lower(s[0]);
        MatchIgnoresCase(p[1..], s[1..]);
        if IsWildcard(p[0]) {
          MatchIgnoresCase(p, s[1..]);
          MatchIgnoresCase(p[1..], s);
        }
      } else {
        MatchIgnoresCase(p[1..], s);
      }
    }
  }
  /** The last |l| characters of s equal l up to case. */
  predicate EndsWithIgnoringCase(s: string, l: string) {
    |s| >= |l| && forall i :: 0 <= i < |l| ==> SameLetter(l[i], s[|s| - |l| + i])
  }

  lemma EndsWithTail(s: string, l: string)
    requires s != []
    ensures EndsWithIgnoringCase(s[1..], l) ==> EndsWithIgnoringCase(s, l)
    ensures EndsWithIgnoringCase(s, l) && |s| > |l| ==> EndsWithIgnoringCase(s[1..], l)
  {
    var t := s[1..];
    if |t| >= |l| {
      forall i | 0 <= i < |l| ensures SameLetter(l[i], t[|t| - |l| + i]) == SameLetter(l[i], s[|s| - |l| + i]) {
      }
    }
  }

  /** Wildcards followed by a literal match exactly the names that end with the
      literal, ignoring case. */
  lemma {:induction false} WildcardsThenLiteral(w: string, l: string, s: string)
    requires w != [] && AllWildcards(w) && NoWildcards(l)
    ensures GlobMatch(w + l, s) <==> EndsWithIgnoringCase(s, l)
    decreases |w| + |s|
  {
    var w' := w[1..];
    assert (w + l)[0] == w[0] && (w + l)[1..] == w' + l;
    assert GlobMatch(w + l, s) == (GlobMatch(w' + l, s) || (s != [] && GlobMatch(w + l, s[1..])));
    if s != [] {
      WildcardsThenLiteral(w, l, s[1..]);
      EndsWithTail(s, l);
    }
    if w' != [] {
      WildcardsThenLiteral(w', l, s);
    } else {
      assert w' + l == l;
      LiteralMatch(l, s);
    }
  }

  /** A pattern "*.ext" with a literal ext matches exactly the names that end in ext,
      ignoring case; because '.' is a wildcard too, the name need not have a dot. */
  lemma ExtensionPattern(ext: string, name: string)
    requires NoWildcards(ext)
    ensures ConvertWildcards("*." + ext) == Some(Glob("*." + ext))
    ensures IsMatch(Glob("*." + ext), name) <==> EndsWithIgnoringCase(name, ext)
  {
    var p := "*." + ext;
    assert p[1] == '.';
    assert Glob(p).glob == p;
    assert p == "*." + ext;
    WildcardsThenLiteral("*.", ext, name);
  }
}

