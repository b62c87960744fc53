/**
 Paths as sequences of segments, and the pure path transform behind the
 archive location of a cache entry: Pathname#cleanpath followed by
 Pathname#sub_ext(".tar").
 */
module Paths {

  /** An absolute path, root first; `[]` is the root directory "/". */
  type Path = seq<string>

  datatype Option<T> = None | Some(value: T) {
    /** The value, or `default` for None (Ruby's `x ||= default`). */
    function GetOr(default: T): T {
      match this
      case Some(v) => v
      case None => default
    }
  }

  /** Segments that cleanpath removes or resolves: "" (from "//"), "." and "..". */
  predicate IsDotSegment(s: string) {
    s == "" || s == "." || s == ".."
  }

  /** A path with no segment that cleanpath would touch. */
  predicate Plain(p: Path) {
    forall i :: 0 <= i < |p| ==> !IsDotSegment(p[i])
  }

  /**
   Pathname#cleanpath of an absolute path: "" and "." segments vanish, ".."
   removes the segment before it, and ".." at the root stays at the root.
   */
  function CleanPath(p: Path): (r: Path)
    ensures Plain(r)
    ensures |r| <= |p|
    decreases |p|
  {
    if p == [] then []
    else
      var c := CleanPath(p[..|p| - 1]);
      var s := p[|p| - 1];
      if s == "" || s == "." then c
      else if s == ".." then (if c == [] then [] else c[..|c| - 1])
      else c + [s]
  }

  /** A plain path is already clean. */
  lemma {:induction false} CleanPathOfPlain(p: Path)
    requires Plain(p)
    ensures CleanPath(p) == p
    decreases |p|
  {
    if p != [] {
      CleanPathOfPlain(p[..|p| - 1]);
    }
  }

  /** cleanpath is idempotent. */
  lemma CleanPathIdempotent(p: Path)
    ensures CleanPath(CleanPath(p)) == CleanPath(p)
  {
    CleanPathOfPlain(CleanPath(p));
  }

  /** Appending a plain relative path commutes with cleanpath. */
  lemma {:induction false} CleanPathAppendPlain(p: Path, q: Path)
    requires Plain(q)
    ensures CleanPath(p + q) == CleanPath(p) + q
    decreases |q|
  {
    if q == [] {
      assert p + q == p;
    } else {
      var q' := q[..|q| - 1];
      assert (p + q)[..|p + q| - 1] == p + q';
      assert (p + q)[|p + q| - 1] == q[|q| - 1];
      CleanPathAppendPlain(p, q');
      assert q' + [q[|q| - 1]] == q;
    }
  }

  /** Number of leading '.' characters of a file name. */
  function LeadingDots(s: string): (n: nat)
    ensures n <= |s|
    ensures forall k :: 0 <= k < n ==> s[k] == '.'
    ensures n < |s| ==> s[n] != '.'
  {
    if s != [] && s[0] == '.' then 1 + LeadingDots(s[1..]) else 0
  }

  /**
   Scans `s[..j]` backwards for the last '.' that is not one of the leading
   dots; `|s|` when there is none.
   */
  function LastDotBefore(s: string, j: nat): (r: nat)
    requires j <= |s|
    ensures r == |s| || (LeadingDots(s) <= r < j && s[r] == '.')
    ensures forall k :: (if r == |s| then LeadingDots(s) else r + 1) <= k < j ==> s[k] != '.'
    decreases j
  {
    if j <= LeadingDots(s) then |s|
    else if s[j - 1] == '.' then j - 1
    else LastDotBefore(s, j - 1)
  }

  /**
   Where File.extname's extension of a file name starts: its last dot, not
   counting leading dots; `|s|` when the name has no extension. A trailing
   dot counts as an extension ".", as in Ruby 2.7 and later on non-Windows.
   */
  function ExtStart(s: string): (i: nat)
    ensures i <= |s|
    ensures i == |s| || (LeadingDots(s) < i && s[i] == '.')
    ensures forall k :: LeadingDots(s) <= k < |s| && s[k] == '.' ==> k <= i
    ensures i == |s| ==> forall k :: LeadingDots(s) <= k < |s| ==> s[k] != '.'
  {
    LastDotBefore(s, |s|)
  }

  /** File.extname of a file name: a suffix that is empty, or one dot followed by dot-free text. */
  function Ext(s: string): (e: string)
    ensures |e| <= |s| && e == s[|s| - |e|..]
    ensures e == [] || (e[0] == '.' && forall k :: 0 < k < |e| ==> e[k] != '.')
  {
    var i := ExtStart(s);
    var e := s[i..];
    forall k | 0 < k < |e| ensures e[k] != '.' {
      assert e[k] == s[i + k];
    }
    e
  }

  /** The file name without its extension. */
  function Stem(s: string): (t: string)
    ensures t + Ext(s) == s
  {
    var i := ExtStart(s);
    assert s == s[..i] + s[i..];
    s[..i]
  }

  /**
   A name has an extension exactly when it has a dot past its leading dots,
   so ".profile" has none; and a name with an extension keeps more than its
   leading dots as its stem.
   */
  lemma ExtShape(s: string)
    ensures Ext(s) != [] <==> exists k :: LeadingDots(s) <= k < |s| && s[k] == '.'
    ensures Ext(s) != [] ==> LeadingDots(s) < |Stem(s)|
  {
    var i := ExtStart(s);
    if Ext(s) != [] {
      assert LeadingDots(s) <= i < |s| && s[i] == '.';
    }
  }

  /**
   What Pathname#sub_ext keeps of a file name: the name without its
   extension, except that an extension of one character, a lone trailing
   dot, is not cut (Ruby's pathname extension steps past an extension of
   length one or less), so "b." keeps its dot.
   */
  function SubExtStem(s: string): (t: string)
    ensures t <= s
    ensures t == s <==> |Ext(s)| <= 1
    ensures t != s ==> t + Ext(s) == s
  {
    if |Ext(s)| <= 1 then s else Stem(s)
  }

  /** Pathname(...).sub_ext(".tar") on a cleaned path: the last segment's extension becomes ".tar". */
  function ArchivePath(base: Path, path: Path): (r: Path)
    ensures |r| > 0 && |r[|r| - 1]| >= 4 && r[|r| - 1][|r[|r| - 1]| - 4..] == ".tar"
    ensures Plain(r)
  {
    var c := CleanPath(base + path);
    if c == [] then [".tar"]
    else
      var last := SubExtStem(c[|c| - 1]) + ".tar";
      assert last[|last| - 4..] == ".tar";
      c[..|c| - 1] + [last]
  }

  /**
   sub_ext(".tar") keeps every segment but the last. When the last segment
   of the cleaned path is more than dots, the result's extension is ".tar"
   and its stem is what sub_ext keeps of the cleaned segment; when it is
   only dots (as "..."), ".tar" is appended and the result has no extension
   at all.
   */
  lemma ArchivePathShape(base: Path, path: Path)
    requires CleanPath(base + path) != []
    ensures var c := CleanPath(base + path);
            var r := ArchivePath(base, path);
            var last := c[|c| - 1];
            r[..|r| - 1] == c[..|c| - 1] &&
            (LeadingDots(last) < |last| ==> Ext(r[|r| - 1]) == ".tar" && Stem(r[|r| - 1]) == SubExtStem(last)) &&
            (LeadingDots(last) == |last| ==> r[|r| - 1] == last + ".tar" && Ext(r[|r| - 1]) == [])
  {
    var c := CleanPath(base + path);
    var last := c[|c| - 1];
    if LeadingDots(last) < |last| {
      RetaggedExtension(last);
    } else {
      AllDotsRetagged(last);
    }
  }

  /**
   A name made only of dots has no extension, and neither has that name
   with ".tar" appended, so every further sub_ext(".tar") appends again.
   */
  lemma {:induction false} AllDotsRetagged(s: string)
    requires LeadingDots(s) == |s|
    ensures SubExtStem(s) == s
    ensures Ext(s + ".tar") == [] && SubExtStem(s + ".tar") == s + ".tar"
  {
    var t := s + ".tar";
    assert forall k :: 0 <= k < |s| ==> t[k] == s[k];
    assert t[|s|] == '.' && t[|s| + 1] == 't';
    assert LeadingDots(t) == |s| + 1 by {
      AllDotsThenLetter(t, |s| + 1);
    }
    assert t[|s| + 2] == 'a' && t[|s| + 3] == 'r';
    assert ExtStart(t) == |t|;
  }

  /** When the first n characters are dots and the next one is not, there are exactly n leading dots. */
  lemma {:induction false} AllDotsThenLetter(t: string, n: nat)
    requires n < |t| && t[n] != '.'
    requires forall k :: 0 <= k < n ==> t[k] == '.'
    ensures LeadingDots(t) == n
    decreases n
  {
    if n > 0 {
      AllDotsThenLetter(t[1..], n - 1);
    }
  }

  /** A name that is more than dots, with ".tar" appended, has extension ".tar" and that name as its stem. */
  lemma {:induction false} RetaggedName(u: string)
    requires LeadingDots(u) < |u|
    ensures Ext(u + ".tar") == ".tar"
    ensures Stem(u + ".tar") == u
  {
    var t := u + ".tar";
    assert forall k :: 0 <= k < |u| ==> t[k] == u[k];
    LeadingDotsPrefix(u, t, LeadingDots(u));
    assert t[|u|] == '.';
    assert t[|u| + 1] == 't' && t[|u| + 2] == 'a' && t[|u| + 3] == 'r';
    LastDotAt(t, |u|);
    assert Ext(t) == t[|u|..] == ".tar";
    assert Stem(t) == t[..|u|] == u;
  }

  /**
   After sub_ext(".tar") the extension is exactly ".tar" and what sub_ext
   keeps is unchanged, so a second sub_ext(".tar") is the identity; this
   needs a name that is not only dots.
   */
  lemma {:induction false} RetaggedExtension(s: string)
    requires LeadingDots(s) < |s|
    ensures Ext(SubExtStem(s) + ".tar") == ".tar"
    ensures SubExtStem(SubExtStem(s) + ".tar") == SubExtStem(s)
  {
    var u := SubExtStem(s);
    var n := LeadingDots(s);
    if u != s {
      var i := ExtStart(s);
      assert Ext(s) == s[i..];
      assert u == s[..i] && n < i;
      assert forall k :: 0 <= k < |u| ==> u[k] == s[k];
      LeadingDotsPrefix(s, u, n);
    }
    RetaggedName(u);
  }

  /** Two names with the same first n + 1 characters, n leading dots, have the same leading dots. */
  lemma {:induction false} LeadingDotsPrefix(s: string, t: string, n: nat)
    requires n == LeadingDots(s) < |s| && n < |t|
    requires forall k :: 0 <= k <= n ==> t[k] == s[k]
    ensures LeadingDots(t) == n
    decreases n
  {
    if n > 0 {
      LeadingDotsPrefix(s[1..], t[1..], n - 1);
    }
  }

  /** The extension starts at the last dot past the leading dots. */
  lemma LastDotAt(t: string, i: nat)
    requires LeadingDots(t) <= i < |t| && t[i] == '.'
    requires forall k :: i < k < |t| ==> t[k] != '.'
    ensures ExtStart(t) == i
  {
  }

  /**
   A relative path free of ".", ".." and empty segments keeps its archive
   inside the cleaned base directory.
   */
  lemma ArchivePathUnderBase(base: Path, path: Path)
    requires Plain(path) && path != []
    ensures var b := CleanPath(base);
            var r := ArchivePath(base, path);
            b < r && |r| == |b| + |path|
  {
    CleanPathAppendPlain(base, path);
  }

  /** A name with no dot in it and no extension. */
  predicate DotFree(n: string) {
    forall k :: 0 <= k < |n| ==> n[k] != '.'
  }

  /** An extension as File.extname returns it: one dot followed by dot-free text. */
  predicate IsExtension(e: string) {
    e != [] && e[0] == '.' && DotFree(e[1..])
  }

  /** A dot-free name followed by an extension has that name as its stem. */
  lemma {:induction false} StemOfNamed(n: string, e: string)
    requires n != [] && DotFree(n) && IsExtension(e)
    ensures Stem(n + e) == n
  {
    var s := n + e;
    assert s[0] == n[0];
    assert s[|n|] == '.';
    forall k | |n| < k < |s| ensures s[k] != '.' {
      assert s[k] == e[1..][k - |n| - 1];
    }
    LastDotAt(s, |n|);
    assert s[..|n|] == n;
  }

  /** A dot-free name with an extension of two or more characters gets its archive by swapping that extension for ".tar". */
  lemma {:induction false} ArchivePathOfNamed(base: Path, dir: Path, n: string, e: string)
    requires Plain(base + dir) && n != [] && DotFree(n) && IsExtension(e) && |e| >= 2
    ensures ArchivePath(base, dir + [n + e]) == base + dir + [n + ".tar"]
  {
    var p := dir + [n + e];
    assert (n + e)[0] == n[0];
    assert !IsDotSegment(n + e);
    assert base + p == (base + dir) + [n + e];
    ArchivePathOfPlain(base, p);
    assert p[..|p| - 1] == dir;
    StemOfNamed(n, e);
  }

  /**
   The transform is not injective: in any directory, two names that differ
   only in their extension, such as `a/b.x` and `a/b.y`, share one archive.
   */
  lemma {:induction false} ArchivePathCollides(base: Path, dir: Path, n: string, e1: string, e2: string)
    requires Plain(base + dir) && n != [] && DotFree(n)
    requires IsExtension(e1) && |e1| >= 2 && IsExtension(e2) && |e2| >= 2
    ensures ArchivePath(base, dir + [n + e1]) == ArchivePath(base, dir + [n + e2])
  {
    ArchivePathOfNamed(base, dir, n, e1);
    ArchivePathOfNamed(base, dir, n, e2);
  }

  /**
   A trailing dot is kept: `b.` archives to `b..tar`, so it does not share
   the archive `b.tar` of `b.y`.
   */
  lemma {:induction false} ArchivePathKeepsTrailingDot(base: Path, dir: Path, n: string, e: string)
    requires Plain(base + dir) && n != [] && DotFree(n) && IsExtension(e) && |e| >= 2
    ensures ArchivePath(base, dir + [n + "."]) == base + dir + [n + "." + ".tar"]
    ensures ArchivePath(base, dir + [n + "."]) != ArchivePath(base, dir + [n + e])
  {
    var s := n + ".";
    var p := dir + [s];
    assert s[0] == n[0];
    assert !IsDotSegment(s);
    assert base + p == (base + dir) + [s];
    ArchivePathOfPlain(base, p);
    assert p[..|p| - 1] == dir;
    assert IsExtension(".") by {
      assert "."[1..] == [];
    }
    StemOfNamed(n, ".");
    assert |Ext(s)| == 1;
    ArchivePathOfNamed(base, dir, n, e);
    assert |n + "." + ".tar"| != |n + ".tar"|;
  }

  /** On a plain path the archive path is the path with its last segment cut by sub_ext and ".tar" appended. */
  lemma ArchivePathOfPlain(base: Path, path: Path)
    requires Plain(base + path) && path != []
    ensures ArchivePath(base, path) == base + path[..|path| - 1] + [SubExtStem(path[|path| - 1]) + ".tar"]
  {
    var p := base + path;
    CleanPathOfPlain(p);
    assert p[..|p| - 1] == base + path[..|path| - 1];
  }

  /** A leading ".." leaves the cache directory: the archive path escapes the base. */
  lemma ArchivePathEscapes()
    ensures ArchivePath(["cache"], ["..", "x"]) == ["x.tar"]
  {
    var p := ["cache", "..", "x"];
    assert ["cache"] + ["..", "x"] == p;
    assert p[..2] == ["cache", ".."];
    assert p[..2][..1] == ["cache"];
    assert p[..1][..0] == [];
    assert CleanPath(p[..1]) == ["cache"];
    assert CleanPath(p[..2]) == [];
    assert CleanPath(p) == ["x"];
    assert ExtStart("x") == 1;
    assert Stem("x") == "x";
    assert Stem("x") + ".tar" == "x.tar";
  }
}
