/** POSIX path helpers as Python's `posixpath` defines them: `join`, `basename`, `splitext`. */
module Paths {

  /** Index of the last occurrence of `c` in `s`, or -1: Python's `str.rfind` for one character. */
  function RFind(s: string, c: char): (r: int)
    ensures -1 <= r < |s|
    ensures r >= 0 ==> s[r] == c
    ensures forall k :: r < k < |s| ==> s[k] != c
    decreases |s|
  {
    if |s| == 0 then -1
    else if s[|s| - 1] == c then |s| - 1
    else RFind(s[..|s| - 1], c)
  }

  /** `os.path.join(dir, name)`: an absolute `name` replaces `dir`; otherwise a `/` is inserted
      unless `dir` is empty or already ends with one. */
  function Join(dir: string, name: string): string {
    if |name| > 0 && name[0] == '/' then name
    else if |dir| == 0 || dir[|dir| - 1] == '/' then dir + name
    else dir + "/" + name
  }

  /** `os.path.basename`: everything after the last `/`. */
  function Basename(p: string): string {
    p[RFind(p, '/') + 1..]
  }

  /** What `join` promises: an absolute name replaces the directory; otherwise the result is the
      directory, at most one inserted `/`, then the name, and the name is preceded by a `/`
      unless it makes up the whole result. */
  lemma JoinShape(dir: string, name: string)
    ensures var r := Join(dir, name);
      && (|name| > 0 && name[0] == '/' ==> r == name)
      && |r| >= |name| && r[|r| - |name|..] == name
      && (!(|name| > 0 && name[0] == '/') ==>
            && |r| >= |dir| && r[..|dir|] == dir
            && |dir| <= |r| - |name| <= |dir| + 1
            && (|r| > |name| ==> r[|r| - |name| - 1] == '/'))
  {
  }

  /** What `basename` promises: a slash-free suffix of the path that is the whole path or
      starts right after a `/`. */
  lemma BasenameShape(p: string)
    ensures var r := Basename(p);
      && '/' !in r
      && |r| <= |p| && p[|p| - |r|..] == r
      && (|r| == |p| || p[|p| - |r| - 1] == '/')
  {
    var k := RFind(p, '/');
    var r := Basename(p);
    forall i | 0 <= i < |r| ensures r[i] != '/' {
      assert r[i] == p[k + 1 + i];
    }
  }

  /** Some character strictly between `lo` and `hi` is not a dot. */
  predicate HasNonDot(p: string, lo: int, hi: int)
    requires 0 <= lo && hi <= |p|
  {
    exists k :: lo <= k < hi && p[k] != '.'
  }

  /** An extension as `splitext` produces it: empty, or a dot followed by neither dots nor slashes. */
  predicate IsExtension(e: string) {
    |e| == 0 || (e[0] == '.' && forall i :: 1 <= i < |e| ==> e[i] != '.' && e[i] != '/')
  }

  /** `os.path.splitext`: the extension starts at the last dot of the final path component,
      provided that component has a non-dot character before it (so `.png` has no extension). */
  function SplitExt(p: string): (parts: (string, string))
    ensures parts.0 + parts.1 == p
    ensures IsExtension(parts.1)
  {
    var sepIndex := RFind(p, '/');
    var dotIndex := RFind(p, '.');
    if dotIndex > sepIndex && HasNonDot(p, sepIndex + 1, dotIndex) then (p[..dotIndex], p[dotIndex..])
    else (p, [])
  }

  function Stem(p: string): string {
    SplitExt(p).0
  }

  function Ext(p: string): string {
    SplitExt(p).1
  }

  lemma RFindAbsent(s: string, c: char)
    requires c !in s
    ensures RFind(s, c) == -1
  {
  }

  /** A non-empty stem with no dot or slash followed by an extension splits back into the two. */
  lemma SplitExtOfPlain(stem: string, ext: string)
    requires |stem| > 0 && '.' !in stem && '/' !in stem
    requires IsExtension(ext)
    ensures SplitExt(stem + ext) == (stem, ext)
  {
    var p := stem + ext;
    assert '/' !in p by {
      forall i | 0 <= i < |p| ensures p[i] != '/' {
        if i >= |stem| { assert p[i] == ext[i - |stem|]; }
      }
    }
    RFindAbsent(p, '/');
    if |ext| == 0 {
      assert p == stem;
      RFindAbsent(p, '.');
    } else {
      var d := RFind(p, '.');
      assert p[|stem|] == '.';
      forall k | |stem| < k < |p| ensures p[k] != '.' {
        assert p[k] == ext[k - |stem|];
      }
      assert d == |stem|;
      assert p[0] == stem[0];
      assert HasNonDot(p, 0, d);
      assert p[..d] == stem;
      assert p[d..] == ext;
    }
  }

  /** A name of one leading dot and no other dot, such as `.png`, has no extension. */
  lemma SplitExtOfDotName(p: string)
    requires |p| > 0 && p[0] == '.' && '/' !in p
    requires forall k :: 1 <= k < |p| ==> p[k] != '.'
    ensures SplitExt(p) == (p, [])
  {
    RFindAbsent(p, '/');
    assert RFind(p, '.') == 0;
  }

  /** Joining a slash-free name onto a directory and taking the basename gives the name back. */
  lemma BasenameOfJoin(dir: string, name: string)
    requires '/' !in name
    ensures Basename(Join(dir, name)) == name
  {
    var p := Join(dir, name);
    var cut := |p| - |name|;
    assert p[cut..] == name;
    assert cut == 0 || p[cut - 1] == '/';
    forall k | cut <= k < |p| ensures p[k] != '/' {
      assert p[k] == name[k - cut];
    }
    var r := RFind(p, '/');
    assert r == cut - 1;
  }

  /** Within one directory, relative names are joined injectively. */
  lemma JoinInjective(dir: string, a: string, b: string)
    requires |a| == 0 || a[0] != '/'
    requires |b| == 0 || b[0] != '/'
    requires Join(dir, a) == Join(dir, b)
    ensures a == b
  {
    var prefix := if |dir| == 0 || dir[|dir| - 1] == '/' then dir else dir + "/";
    assert Join(dir, a) == prefix + a;
    assert Join(dir, b) == prefix + b;
    assert a == (prefix + a)[|prefix|..];
    assert b == (prefix + b)[|prefix|..];
  }
}
