/**
 LanguagePack::Cache: a directory under a fixed cache root that keeps build
 artefacts between builds. Entries are stored by overwriting (`Store`) or by
 merging (`Add`), restored with or without clobbering (`Load`,
 `LoadWithoutOverwrite`), removed (`Clear`), and large trees are packed into
 one tar file that is re-packed only when the tree's (name, mtime) listing
 hashes differently (`StoreArchive`, `StoreArchiveIfChanged`, `LoadArchive`).
 */
module LanguagePack {
  import opened Paths
  import opened FileTree

  /** What `clear` leaves: the tree at `target` removed when `target` exists, otherwise everything as it was. */
  function Cleared(fs: FileSystem, target: Path): (r: FileSystem)
    ensures target !in r
    ensures r.Keys <= fs.Keys
  {
    if target in fs then Pruned(fs, target) else fs
  }

  /** What `store` leaves: `to` is cleared, then `from` is copied to it if it still exists. */
  function Stored(fs: FileSystem, from: Path, to: Path): (r: FileSystem)
    ensures to in r ==> from in fs
  {
    var cleared := Cleared(fs, to);
    if from in cleared then Copied(cleared, from, to, false) else cleared
  }

  /** Nothing lies below `p` unless `p` itself exists, as on any real filesystem. */
  predicate Rooted(fs: FileSystem, p: Path) {
    p in fs || Subtree(fs, p) == map[]
  }

  /**
   What `store_archive` leaves once `cwd + path` exists: the old tar deleted,
   its directory made, and a fresh tar written that records the tree under
   the relative name `path`, as `tar -cf` does with a relative argument.
   */
  function Archived(fs: FileSystem, cwd: Path, path: Path, tar: Path, now: int): (r: FileSystem)
    ensures tar in r && r[tar].File? && r[tar].content.Archive? && r[tar].content.at == path
  {
    var withoutOld := if tar in fs then fs - {tar} else fs;
    var withDir := WithDirs(withoutOld, Parent(tar));
    withDir[tar := File(Archive(path, Subtree(withDir, cwd + path)), now)]
  }

  /**
   What `tar -xf tar` run in `cwd` leaves: the archived tree written back at
   its relative name under `cwd`, whichever directory it was taken from, its
   missing ancestors created, existing files overwritten; a file that is not
   a tar extracts nothing.
   */
  function Extracted(fs: FileSystem, cwd: Path, tar: Path): (r: FileSystem)
    requires tar in fs
    ensures fs.Keys <= r.Keys
  {
    match fs[tar]
    case File(Archive(at, entries), _) => Graft(WithDirs(fs, Parent(cwd + at)), cwd + at, entries, false)
    case _ => fs
  }

  class Cache {
    /** The cache root, `@cache_base`. */
    const cacheBase: Path
    /** The process's working directory, against which `from`, `dest` and archived paths resolve. */
    const workDir: Path
    /** The digest that `dir_hash` takes of a listing (sha1sum in the Ruby code), left uninterpreted. */
    const digest: Listing -> string
    /** The whole filesystem. */
    var fs: FileSystem

    /**
     Paths are kept free of ".", ".." and empty segments. No proof relies on
     this: it and the `Plain` preconditions only limit the model to paths on
     which sequence concatenation is what `Pathname#+` computes.
     */
    predicate Valid() {
      Plain(cacheBase) && Plain(workDir)
    }

    constructor (cachePath: Path, workDir: Path, digest: Listing -> string, fs: FileSystem)
      requires Plain(cachePath) && Plain(workDir)
      ensures Valid()
      ensures cacheBase == cachePath && this.workDir == workDir && this.digest == digest && this.fs == fs
    {
      cacheBase := cachePath;
      this.workDir := workDir;
      this.digest := digest;
      this.fs := fs;
    }

    /** `exists?`: the entry is present, that is, its tree has a root and so is not empty. */
    predicate Exists(path: Path)
      reads this
      ensures Exists(path) <==> [] in Subtree(fs, cacheBase + path)
      ensures Exists(path) ==> Subtree(fs, cacheBase + path) != map[]
    {
      assert cacheBase + path + [] == cacheBase + path;
      cacheBase + path in fs
    }

    /** `dir_hash`: the digest of the tree's (name, mtime) listing; it ignores file contents. */
    function DirHash(path: Path): (h: string)
      reads this
      ensures forall q :: q in fs && fs[q].File? ==>
        digest(ListingOf(fs[q := File(Bytes([]), fs[q].mtime)], workDir + path)) == h
    {
      forall q | q in fs && fs[q].File?
        ensures ListingOf(fs[q := File(Bytes([]), fs[q].mtime)], workDir + path) == ListingOf(fs, workDir + path)
      {
        ListingIgnoresContent(fs, workDir + path, q, Bytes([]));
      }
      digest(ListingOf(fs, workDir + path))
    }

    /** `clear`: removes the entry's whole tree; false, and nothing changes, when it is absent. */
    method Clear(path: Path) returns (removed: bool)
      requires Valid() && Plain(path)
      modifies this
      ensures removed == old(Exists(path))
      ensures !Exists(path)
      ensures removed ==> forall q :: q in fs <==> q in old(fs) && !(cacheBase + path <= q)
      ensures forall q :: q in fs ==> q in old(fs) && fs[q] == old(fs)[q]
      ensures fs == Cleared(old(fs), cacheBase + path)
    {
      var target := cacheBase + path;
      removed := target in fs;
      if removed {
        fs := Pruned(fs, target);
      }
    }

    /**
     `copy`: copies the contents of directory `from` into `to`, creating
     `to`'s parent directories; false, and nothing changes, when `from` is
     missing. With `keepExisting` (`cp -n`) existing nodes are not replaced.
     */
    method Copy(from: Path, to: Path, keepExisting: bool := false) returns (ok: bool)
      modifies this
      ensures ok == (from in old(fs))
      ensures old(fs).Keys <= fs.Keys
      ensures ok ==> forall rel :: from + rel in old(fs) ==> to + rel in fs
      ensures fs == if ok then Copied(old(fs), from, to, keepExisting) else old(fs)
    {
      if from !in fs {
        return false;
      }
      fs := WithDirs(fs, Parent(to));
      fs := Graft(fs, to, Subtree(fs, from), keepExisting);
      return true;
    }

    /** `store`: clears the entry, then copies `from` to it, so the entry mirrors `from`; the entry path defaults to `from`. */
    method Store(from: Path, path: Option<Path> := None) returns (ok: bool)
      requires Valid() && Plain(from) && (path.Some? ==> Plain(path.value))
      modifies this
      ensures var to := cacheBase + path.GetOr(from);
              ok == (workDir + from in Cleared(old(fs), to)) &&
              fs == Stored(old(fs), workDir + from, to)
      ensures ok ==> Exists(path.GetOr(from))
    {
      var p := path.GetOr(from);
      var _ := Clear(p);
      assert workDir + from + [] == workDir + from && cacheBase + p + [] == cacheBase + p;
      ok := Copy(workDir + from, cacheBase + p);
    }

    /** `add`: copies `from` into the entry without clearing it first; the entry path defaults to `from`. */
    method Add(from: Path, path: Option<Path> := None) returns (ok: bool)
      requires Valid() && Plain(from) && (path.Some? ==> Plain(path.value))
      modifies this
      ensures var to := cacheBase + path.GetOr(from);
              ok == (workDir + from in old(fs)) &&
              fs == if ok then Copied(old(fs), workDir + from, to, false) else old(fs)
      ensures old(fs).Keys <= fs.Keys
      ensures ok ==> Exists(path.GetOr(from))
    {
      var p := path.GetOr(from);
      assert workDir + from + [] == workDir + from && cacheBase + p + [] == cacheBase + p;
      ok := Copy(workDir + from, cacheBase + p);
    }

    /** `load`: copies the entry out to `dest`, overwriting; `dest` defaults to the entry path. */
    method Load(path: Path, dest: Option<Path> := None) returns (ok: bool)
      requires Valid() && Plain(path) && (dest.Some? ==> Plain(dest.value))
      modifies this
      ensures var from := cacheBase + path;
              ok == old(Exists(path)) &&
              fs == if ok then Copied(old(fs), from, workDir + dest.GetOr(path), false) else old(fs)
    {
      var d := dest.GetOr(path);
      ok := Copy(cacheBase + path, workDir + d);
    }

    /** `load_without_overwrite`: as `load`, but files already at `dest` stay as they are. */
    method LoadWithoutOverwrite(path: Path, dest: Option<Path> := None) returns (ok: bool)
      requires Valid() && Plain(path) && (dest.Some? ==> Plain(dest.value))
      modifies this
      ensures var from := cacheBase + path;
              ok == old(Exists(path)) &&
              fs == if ok then Copied(old(fs), from, workDir + dest.GetOr(path), true) else old(fs)
      ensures forall q :: q in old(fs) ==> q in fs && fs[q] == old(fs)[q]
    {
      var d := dest.GetOr(path);
      ok := Copy(cacheBase + path, workDir + d, true);
      if ok {
        NoClobberKeepsAll(old(fs), cacheBase + path, workDir + d);
      }
    }

    /** `cache_copy`: copies one cache entry into another. */
    method CacheCopy(from: Path, to: Path) returns (ok: bool)
      requires Valid() && Plain(from) && Plain(to)
      modifies this
      ensures ok == old(Exists(from))
      ensures fs == if ok then Copied(old(fs), cacheBase + from, cacheBase + to, false) else old(fs)
    {
      ok := Copy(cacheBase + from, cacheBase + to);
    }

    /**
     `store_archive`: packs the tree at `path` into the tar at its archive
     path, replacing any earlier tar; false, and nothing changes, when `path`
     is missing. `now` is the clock reading that becomes the tar's mtime.
     */
    method StoreArchive(path: Path, now: int) returns (ok: bool)
      requires Valid() && Plain(path)
      modifies this
      ensures ok == (workDir + path in old(fs))
      ensures fs == if ok then Archived(old(fs), workDir, path, ArchivePath(cacheBase, path), now) else old(fs)
    {
      if workDir + path !in fs {
        return false;
      }
      var tar := ArchivePath(cacheBase, path);
      if tar in fs {
        fs := fs - {tar};
      }
      fs := WithDirs(fs, Parent(tar));
      fs := fs[tar := File(Archive(path, Subtree(fs, workDir + path)), now)];
      return true;
    }

    /**
     `store_archive_if_changed`: re-packs only when the tree's hash differs
     from `previousHash`, what `LoadArchive` returned. None (Ruby's `false`
     when there was no tar) differs from every hash, so it always re-packs.
     */
    method StoreArchiveIfChanged(path: Path, previousHash: Option<string>, now: int)
      requires Valid() && Plain(path)
      modifies this
      ensures previousHash == Some(old(DirHash(path))) ==> fs == old(fs)
      ensures previousHash != Some(old(DirHash(path))) ==>
        fs == if workDir + path in old(fs) then Archived(old(fs), workDir, path, ArchivePath(cacheBase, path), now) else old(fs)
    {
      if previousHash != Some(DirHash(path)) {
        var _ := StoreArchive(path, now);
      }
    }

    /**
     `load_archive`: extracts the tar at the archive path into the working
     directory and returns the restored tree's hash, to be handed back to
     `StoreArchiveIfChanged`; None, and nothing changes, when there is no tar.
     */
    method LoadArchive(path: Path) returns (hash: Option<string>)
      requires Valid() && Plain(path)
      modifies this
      ensures var tar := ArchivePath(cacheBase, path);
              (tar !in old(fs) ==> hash == None && fs == old(fs)) &&
              (tar in old(fs) ==> fs == Extracted(old(fs), workDir, tar) && hash == Some(DirHash(path)))
    {
      var tar := ArchivePath(cacheBase, path);
      if tar !in fs {
        return None;
      }
      fs := Extracted(fs, workDir, tar);
      return Some(DirHash(path));
    }
  }

  /** Two prefixes of one path are prefixes of each other. */
  lemma PrefixesOrdered(a: Path, b: Path, q: Path)
    requires a <= q && b <= q
    ensures a <= b || b <= a
  {
    if |a| <= |b| {
      assert a == q[..|a|] == b[..|a|];
    } else {
      assert b == q[..|b|] == a[..|b|];
    }
  }

  /** mkdir_p of `to`'s parent leaves `to`'s own tree as it was. */
  lemma ParentDirsKeepTarget(fs: FileSystem, to: Path)
    requires to != []
    ensures Subtree(WithDirs(fs, Parent(to)), to) == Subtree(fs, to)
  {
    SubtreeAgrees(fs, WithDirs(fs, Parent(to)), to);
  }

  /** mkdir_p of `to`'s parent leaves the tree of a `from` that does not contain `to` as it was. */
  lemma ParentDirsKeepOther(fs: FileSystem, from: Path, to: Path)
    requires !(from <= to)
    ensures Subtree(WithDirs(fs, Parent(to)), from) == Subtree(fs, from)
  {
    SubtreeAgrees(fs, WithDirs(fs, Parent(to)), from);
  }

  /** Copying (overwriting) into `to`: the old tree at `to` overlaid by `from`'s, source files taking precedence. */
  lemma {:induction false} CopyOverwrites(fs: FileSystem, from: Path, to: Path)
    requires from in fs && Disjoint(from, to)
    ensures Subtree(Copied(fs, from, to, false), to) == Subtree(fs, to) + Subtree(fs, from)
  {
    assert to != [];
    var fs1 := WithDirs(fs, Parent(to));
    ParentDirsKeepTarget(fs, to);
    ParentDirsKeepOther(fs, from, to);
    GraftOverlays(fs1, to, Subtree(fs1, from));
  }

  /** Copying without clobbering into `to`: `from`'s tree overlaid by the old tree at `to`, existing files taking precedence. */
  lemma {:induction false} CopyKeepsExisting(fs: FileSystem, from: Path, to: Path)
    requires from in fs && Disjoint(from, to)
    ensures Subtree(Copied(fs, from, to, true), to) == Subtree(fs, from) + Subtree(fs, to)
  {
    assert to != [];
    var fs1 := WithDirs(fs, Parent(to));
    ParentDirsKeepTarget(fs, to);
    ParentDirsKeepOther(fs, from, to);
    GraftKeepsExisting(fs1, to, Subtree(fs1, from));
  }

  /** Outside `to` a copy changes nothing, except that `to`'s missing ancestors become directories. */
  lemma CopyOutside(fs: FileSystem, from: Path, to: Path, keepExisting: bool)
    requires from in fs
    ensures var r := Copied(fs, from, to, keepExisting);
            forall q :: !(to <= q) ==>
              (q in fs ==> q in r && r[q] == fs[q]) &&
              (q in r && q !in fs ==> r[q] == Dir && q < to)
  {
    var fs1 := WithDirs(fs, Parent(to));
    var r := Copied(fs, from, to, keepExisting);
    forall q | !(to <= q) && (q in fs || q in r)
      ensures (q in fs ==> q in r && r[q] == fs[q]) && (q in r && q !in fs ==> r[q] == Dir && q < to)
    {
      GraftOutside(fs1, to, Subtree(fs1, from), keepExisting, q);
    }
  }

  /** A no-clobber copy (`load_without_overwrite`) never changes or removes an existing node. */
  lemma NoClobberKeepsAll(fs: FileSystem, from: Path, to: Path)
    requires from in fs
    ensures var r := Copied(fs, from, to, true);
            forall q :: q in fs ==> q in r && r[q] == fs[q]
  {
  }

  /** `load` and `load_without_overwrite` differ only where something already existed. */
  lemma LoadVariantsAgreeOnNew(fs: FileSystem, from: Path, to: Path)
    requires from in fs && to != []
    ensures var a, b := Copied(fs, from, to, false), Copied(fs, from, to, true);
            forall q :: q !in fs ==> (q in a <==> q in b) && (q in a ==> a[q] == b[q])
  {
  }

  /** Overlaying `b` on `a` is `b` plus what of `a` lies outside `b`. */
  lemma OverlaySplits(a: FileSystem, b: FileSystem)
    ensures a + b == (a - b.Keys) + b
  {
  }

  lemma MapEmptyUnion(m: FileSystem)
    ensures map[] + m == m
  {
  }

  /** After `clear` of a rooted entry nothing is left below it. */
  lemma ClearedEmpty(fs: FileSystem, to: Path)
    requires Rooted(fs, to)
    ensures Subtree(Cleared(fs, to), to) == map[]
  {
  }

  /** `clear` leaves a tree separate from the cleared entry as it was. */
  lemma ClearedApart(fs: FileSystem, to: Path, from: Path)
    requires Disjoint(from, to)
    ensures Subtree(Cleared(fs, to), from) == Subtree(fs, from)
  {
    forall q | q in fs && from <= q && to <= q ensures false {
      PrefixesOrdered(from, to, q);
    }
    SubtreeAgrees(fs, Cleared(fs, to), from);
  }

  /** After `store` of an existing, separate `from` into a rooted entry, the entry's tree is exactly `from`'s: nothing stored earlier survives. */
  lemma {:induction false} StoreMirrors(fs: FileSystem, from: Path, to: Path)
    requires from in fs && Disjoint(from, to) && Rooted(fs, to)
    ensures Subtree(Stored(fs, from, to), to) == Subtree(fs, from)
  {
    var cleared := Cleared(fs, to);
    assert from in cleared;
    ClearedEmpty(fs, to);
    ClearedApart(fs, to, from);
    CopyOverwrites(cleared, from, to);
    var src := Subtree(fs, from);
    assert Subtree(cleared, to) + Subtree(cleared, from) == src by {
      assert Subtree(cleared, to) + Subtree(cleared, from) == map[] + src;
      MapEmptyUnion(src);
    }
  }

  /** Outside the entry `store` changes nothing, except that the entry's missing ancestors become directories. */
  lemma StoreOutside(fs: FileSystem, from: Path, to: Path)
    ensures var r := Stored(fs, from, to);
            forall q :: !(to <= q) ==>
              (q in fs ==> q in r && r[q] == fs[q]) &&
              (q in r && q !in fs ==> r[q] == Dir && q < to)
  {
    var cleared := Cleared(fs, to);
    if from in cleared {
      CopyOutside(cleared, from, to, false);
    }
  }

  /**
   `add` keeps what `store` would drop: the entry after `add` is the entry
   after `store` plus the stale files of the old entry that `from` lacks.
   */
  lemma {:induction false} AddIsStorePlusStale(fs: FileSystem, from: Path, to: Path)
    requires from in fs && Disjoint(from, to) && Rooted(fs, to)
    ensures Subtree(Copied(fs, from, to, false), to) ==
            (Subtree(fs, to) - Subtree(fs, from).Keys) + Subtree(Stored(fs, from, to), to)
  {
    CopyOverwrites(fs, from, to);
    StoreMirrors(fs, from, to);
    OverlaySplits(Subtree(fs, to), Subtree(fs, from));
  }

  /** `store` leaves any tree separate from the entry as it was. */
  lemma StoredApart(fs: FileSystem, from: Path, entry: Path, dest: Path)
    requires Disjoint(entry, dest)
    ensures Subtree(Stored(fs, from, entry), dest) == Subtree(fs, dest)
  {
    var stored := Stored(fs, from, entry);
    StoreOutside(fs, from, entry);
    forall q | (q in fs || q in stored) && dest <= q ensures !(entry <= q) {
      if entry <= q {
        PrefixesOrdered(dest, entry, q);
      }
    }
    forall q | q in stored && q !in fs && dest <= q ensures false {
      PrefixesOrdered(dest, q, entry);
    }
    SubtreeAgrees(fs, stored, dest);
  }

  /** `store` then `load` into a separate destination puts `from`'s tree there, over what the destination held. */
  lemma {:induction false} StoreThenLoad(fs: FileSystem, from: Path, entry: Path, dest: Path)
    requires from in fs && Rooted(fs, entry)
    requires Disjoint(from, entry) && Disjoint(entry, dest)
    ensures var stored := Stored(fs, from, entry);
            entry in stored &&
            Subtree(Copied(stored, entry, dest, false), dest) == Subtree(fs, dest) + Subtree(fs, from)
  {
    var stored := Stored(fs, from, entry);
    StoreMirrors(fs, from, entry);
    assert from + [] == from && entry + [] == entry;
    assert [] in Subtree(fs, from);
    StoredApart(fs, from, entry, dest);
    CopyOverwrites(stored, entry, dest);
  }

  /** The tar written by `store_archive` holds the tree at `cwd + path` as it was before the call. */
  lemma {:induction false} ArchiveSnapshot(fs: FileSystem, cwd: Path, path: Path, tar: Path, now: int)
    requires !(cwd + path <= tar)
    ensures Archived(fs, cwd, path, tar, now)[tar] == File(Archive(path, Subtree(fs, cwd + path)), now)
  {
    var withoutOld := if tar in fs then fs - {tar} else fs;
    var withDir := WithDirs(withoutOld, Parent(tar));
    SubtreeAgrees(fs, withDir, cwd + path);
  }

  /** Apart from the tar, `store_archive` only adds the tar's missing ancestor directories. */
  lemma ArchiveOutside(fs: FileSystem, cwd: Path, path: Path, tar: Path, now: int)
    ensures var r := Archived(fs, cwd, path, tar, now);
            forall q :: q != tar ==>
              (q in fs ==> q in r && r[q] == fs[q]) &&
              (q in r && q !in fs ==> r[q] == Dir && q < tar)
  {
  }

  /** Extracting in `cwd` a tar that records `rel` overlays the current tree at `cwd + rel` with the archived one. */
  lemma {:induction false} ExtractRestores(fs: FileSystem, cwd: Path, tar: Path, rel: Path, snapshot: FileSystem, m: int)
    requires tar in fs && fs[tar] == File(Archive(rel, snapshot), m) && cwd + rel != []
    ensures Subtree(Extracted(fs, cwd, tar), cwd + rel) == Subtree(fs, cwd + rel) + snapshot
  {
    var root := cwd + rel;
    ParentDirsKeepTarget(fs, root);
    GraftOverlays(WithDirs(fs, Parent(root)), root, snapshot);
  }

  /** `store_archive` leaves the archived tree itself as it was, when the tar lies outside it. */
  lemma ArchivedApart(fs: FileSystem, cwd: Path, path: Path, tar: Path, now: int)
    requires !(cwd + path <= tar)
    ensures Subtree(Archived(fs, cwd, path, tar, now), cwd + path) == Subtree(fs, cwd + path)
  {
    var root := cwd + path;
    var archived := Archived(fs, cwd, path, tar, now);
    ArchiveOutside(fs, cwd, path, tar, now);
    forall q | q in archived && q !in fs && root <= q ensures false {
      PrefixesOrdered(root, q, tar);
    }
    SubtreeAgrees(fs, archived, root);
  }

  /** `store_archive` then `load_archive` in the same working directory restores exactly the archived tree. */
  lemma {:induction false} ArchiveRoundTrip(fs: FileSystem, cwd: Path, path: Path, tar: Path, now: int)
    requires !(cwd + path <= tar) && cwd + path != []
    ensures var archived := Archived(fs, cwd, path, tar, now);
            Subtree(Extracted(archived, cwd, tar), cwd + path) == Subtree(fs, cwd + path)
  {
    var archived := Archived(fs, cwd, path, tar, now);
    var snapshot := Subtree(fs, cwd + path);
    ArchiveSnapshot(fs, cwd, path, tar, now);
    ExtractRestores(archived, cwd, tar, path, snapshot, now);
    ArchivedApart(fs, cwd, path, tar, now);
    OverlaySelf(snapshot);
  }

  /**
   The tar records relative names, so a later build whose working directory
   is `cwd'` restores the tree taken in `cwd` under `cwd' + path`, over what
   is there.
   */
  lemma {:induction false} ArchiveFollowsWorkDir(fs: FileSystem, cwd: Path, cwd': Path, path: Path, tar: Path, now: int)
    requires !(cwd + path <= tar) && cwd' + path != []
    ensures var archived := Archived(fs, cwd, path, tar, now);
            Subtree(Extracted(archived, cwd', tar), cwd' + path) ==
            Subtree(archived, cwd' + path) + Subtree(fs, cwd + path)
  {
    var archived := Archived(fs, cwd, path, tar, now);
    ArchiveSnapshot(fs, cwd, path, tar, now);
    ExtractRestores(archived, cwd', tar, path, Subtree(fs, cwd + path), now);
  }

  lemma OverlaySelf(m: FileSystem)
    ensures m + m == m
  {
  }
}
