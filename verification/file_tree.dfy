/**
 The filesystem the cache works on, as a map from absolute paths to nodes,
 and the effect on it of the primitives the cache calls: rmtree, mkdir_p,
 a recursive copy of a directory's contents (`cp -a from/. to`, with `-n`
 for no-clobber), and the (name, mtime) listing that `dir_hash` digests.
 */
module FileTree {
  import opened Paths

  /**
   What a file holds: plain bytes, or a tar archive. A tar records the
   relative name `at` it was given and the tree found there; extraction
   resolves `at` against the working directory of whoever extracts.
   */
  datatype Content = Bytes(data: seq<bv8>) | Archive(at: Path, entries: map<Path, Node>)

  datatype Node = File(content: Content, mtime: int) | Dir

  type FileSystem = map<Path, Node>

  /** `from` and `to` are separate trees: neither lies inside the other. */
  predicate Disjoint(from: Path, to: Path) {
    !(from <= to) && !(to <= from)
  }

  /** File.dirname: the path without its last segment; the root is its own parent. */
  function Parent(p: Path): (d: Path)
    ensures d <= p
    ensures p != [] ==> |d| == |p| - 1
  {
    if p == [] then [] else p[..|p| - 1]
  }

  /** Positions below `root`, relative to it. */
  function RelativeKeys(fs: FileSystem, root: Path): (s: set<Path>)
    ensures forall rel :: rel in s <==> root + rel in fs
  {
    var s := set q | q in fs.Keys && root <= q :: q[|root|..];
    forall rel | root + rel in fs ensures rel in s {
      assert (root + rel)[|root|..] == rel;
    }
    forall rel | rel in s ensures root + rel in fs {
      var q :| q in fs.Keys && root <= q && q[|root|..] == rel;
      assert q == root + rel;
    }
    s
  }

  /** The tree at `root` (itself included, under `[]`), keyed relative to `root`. */
  function Subtree(fs: FileSystem, root: Path): (t: FileSystem)
    ensures forall rel :: rel in t <==> root + rel in fs
    ensures forall rel :: rel in t ==> t[rel] == fs[root + rel]
  {
    map rel | rel in RelativeKeys(fs, root) :: fs[root + rel]
  }

  /** Two filesystems that agree everywhere below `root` have the same tree there. */
  lemma SubtreeAgrees(fs: FileSystem, fs': FileSystem, root: Path)
    requires forall q :: root <= q ==> (q in fs <==> q in fs')
    requires forall q :: root <= q && q in fs ==> fs[q] == fs'[q]
    ensures Subtree(fs, root) == Subtree(fs', root)
  {
    var t, t' := Subtree(fs, root), Subtree(fs', root);
    forall rel ensures (rel in t <==> rel in t') && (rel in t ==> t[rel] == t'[rel]) {
      assert root <= root + rel;
    }
  }

  /** rmtree: `root` and everything below it disappear, nothing else changes. */
  function Pruned(fs: FileSystem, root: Path): (r: FileSystem)
    ensures forall q :: q in r <==> q in fs && !(root <= q)
    ensures forall q :: q in r ==> r[q] == fs[q]
  {
    map q | q in fs && !(root <= q) :: fs[q]
  }

  /** mkdir_p: every prefix of `d` that is missing becomes a directory. */
  function WithDirs(fs: FileSystem, d: Path): (r: FileSystem)
    ensures forall q :: q in r <==> q in fs || q <= d
    ensures forall q :: q in fs ==> r[q] == fs[q]
    ensures forall q :: q in r && q !in fs ==> r[q] == Dir
  {
    var prefixes := set i | 0 <= i <= |d| :: d[..i];
    forall q | q <= d ensures q in prefixes {
      assert q == d[..|q|];
    }
    map q | q in fs.Keys + prefixes :: if q in fs then fs[q] else Dir
  }

  /** The positions a tree `t` occupies once placed at `at`. */
  function Placed(at: Path, t: FileSystem): set<Path> {
    set rel | rel in t :: at + rel
  }

  /**
   Places the tree `t` at `at`: every node of `t` lands at the same relative
   position below `at`, replacing what was there unless `keepExisting` is
   set (cp -n), in which case an existing node stays.
   */
  function Graft(fs: FileSystem, at: Path, t: FileSystem, keepExisting: bool): (r: FileSystem)
    ensures forall rel :: rel in t ==> at + rel in r
    ensures forall q :: q in r <==> q in fs || (at <= q && q[|at|..] in t)
  {
    forall q | at <= q && q[|at|..] in t ensures q in Placed(at, t) {
      assert q == at + q[|at|..];
    }
    forall rel | rel in t ensures (at + rel)[|at|..] == rel { }
    map q | q in fs.Keys + Placed(at, t) ::
      if q in fs && (keepExisting || !(at <= q && q[|at|..] in t)) then fs[q] else t[q[|at|..]]
  }

  /** What an overwriting graft leaves below `at`: the old tree overlaid by `t`. */
  lemma GraftOverlays(fs: FileSystem, at: Path, t: FileSystem)
    ensures Subtree(Graft(fs, at, t, false), at) == Subtree(fs, at) + t
  {
    var r := Graft(fs, at, t, false);
    var lhs, rhs := Subtree(r, at), Subtree(fs, at) + t;
    forall rel ensures (rel in lhs <==> rel in rhs) && (rel in lhs ==> lhs[rel] == rhs[rel]) {
      var q := at + rel;
      assert q[|at|..] == rel;
      if rel in t {
        assert r[q] == t[rel];
      } else if q in fs {
        assert r[q] == fs[q];
      }
    }
  }

  /** What a no-clobber graft leaves below `at`: `t` overlaid by the old tree. */
  lemma GraftKeepsExisting(fs: FileSystem, at: Path, t: FileSystem)
    ensures Subtree(Graft(fs, at, t, true), at) == t + Subtree(fs, at)
  {
    var r := Graft(fs, at, t, true);
    var lhs, rhs := Subtree(r, at), t + Subtree(fs, at);
    forall rel ensures (rel in lhs <==> rel in rhs) && (rel in lhs ==> lhs[rel] == rhs[rel]) {
      var q := at + rel;
      assert q[|at|..] == rel;
      if q in fs {
        assert r[q] == fs[q];
      } else if rel in t {
        assert r[q] == t[rel];
      }
    }
  }

  /** A graft touches nothing outside `at`. */
  lemma GraftOutside(fs: FileSystem, at: Path, t: FileSystem, keepExisting: bool, q: Path)
    requires !(at <= q)
    ensures var r := Graft(fs, at, t, keepExisting);
            (q in r <==> q in fs) && (q in r ==> r[q] == fs[q])
  {
  }

  /**
   The effect of `copy(from, to, options)` once `from` is known to exist:
   mkdir_p of `to`'s parent, then `cp from/. to`, copying `from`'s tree
   (its root included) into `to`.
   */
  function Copied(fs: FileSystem, from: Path, to: Path, keepExisting: bool): (r: FileSystem)
    requires from in fs
    ensures fs.Keys <= r.Keys
    ensures forall rel :: from + rel in fs ==> to + rel in r
  {
    var fs1 := WithDirs(fs, Parent(to));
    Graft(fs1, to, Subtree(fs1, from), keepExisting)
  }

  /** Directory timestamps are not modelled: a listing row is a file's mtime or a directory mark. */
  datatype Stamp = FileStamp(mtime: int) | DirStamp

  /** The (name, mtime) listing of the tree at `root` that `dir_hash` digests. */
  type Listing = map<Path, Stamp>

  function StampOf(n: Node): Stamp {
    match n
    case File(_, m) => FileStamp(m)
    case Dir => DirStamp
  }

  function ListingOf(fs: FileSystem, root: Path): (l: Listing)
    ensures l.Keys == Subtree(fs, root).Keys
  {
    var t := Subtree(fs, root);
    map rel | rel in t :: StampOf(t[rel])
  }

  /** Rewriting a file's content without touching its mtime leaves the listing as it was. */
  lemma ListingIgnoresContent(fs: FileSystem, root: Path, q: Path, c: Content)
    requires q in fs && fs[q].File?
    ensures ListingOf(fs[q := File(c, fs[q].mtime)], root) == ListingOf(fs, root)
  {
    var fs' := fs[q := File(c, fs[q].mtime)];
    var l, l' := ListingOf(fs, root), ListingOf(fs', root);
    assert l.Keys == l'.Keys;
    forall rel | rel in l ensures l[rel] == l'[rel] {
      if root + rel == q {
      }
    }
  }

  /** Touching a file below `root` to a new mtime changes the listing. */
  lemma ListingSeesMtime(fs: FileSystem, root: Path, q: Path, m: int)
    requires root <= q && q in fs && fs[q].File? && fs[q].mtime != m
    ensures ListingOf(fs[q := File(fs[q].content, m)], root) != ListingOf(fs, root)
  {
    var rel := q[|root|..];
    assert root + rel == q;
    var fs' := fs[q := File(fs[q].content, m)];
    assert ListingOf(fs', root)[rel] == FileStamp(m);
    assert ListingOf(fs, root)[rel] == FileStamp(fs[q].mtime);
  }
}
