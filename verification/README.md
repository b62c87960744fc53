# LanguagePack::Cache, modelled in Dafny

The Ruby buildpack keeps build artefacts, such as installed gems and compiled
assets, between builds in a cache directory. `LanguagePack::Cache`
(`lib/language_pack/cache.rb`) is the facade over that directory. Its
operations are:

- `store` clears an entry, then copies a source tree into it.
- `add` copies a tree into an entry without clearing it first.
- `load` copies an entry back out. `load_without_overwrite` does the same with `cp -n`.
- `clear` removes an entry.
- `cache_copy` copies one entry into another.
- `exists?` reports whether an entry is present.
- `store_archive`, `store_archive_if_changed` and `load_archive` keep a tree as one tar file.

`store_archive_if_changed` re-packs the tar only when the hash of the tree's
(name, mtime) listing (`dir_hash`) differs from the hash that `load_archive`
returned.

The model has three modules:

- `Paths` (`paths.dfy`): paths are sequences of segment strings. It has
  `Pathname#cleanpath` (`CleanPath`), `File.extname` (`ExtStart`, `Ext`,
  `Stem`), `Pathname#sub_ext`'s cut (`SubExtStem`) and the archive location
  (`ArchivePath`).
- `FileTree` (`file_tree.dfy`): the filesystem is a map from absolute paths to
  nodes. A node is a directory, or a file with content and an mtime. A
  file's content is either bytes or a tar archive, recorded as the tree it
  was taken of. The module also has the effect of each primitive the cache
  shells out to:
  - rmtree (`Pruned`)
  - mkdir_p (`WithDirs`)
  - `cp -a from/. to`, with and without `-n` (`Graft`, `Copied`)
  - the listing that `dir_hash` digests (`ListingOf`)
- `LanguagePack` (`cache.dfy`): the class `Cache`. It has the constant cache
  root `cacheBase`, the process's working directory `workDir`, the digest
  used by `dir_hash`, and the filesystem `fs`. The class has one method per
  Ruby method, and each method changes `fs` step by step as the Ruby code
  does. Each method's `ensures` gives the new filesystem as a function of the
  old one (`Cleared`, `Stored`, `Copied`, `Archived`, `Extracted`). The
  lemmas in that module state what these functions promise.

Relative arguments (`from`, `dest`, the archived `path`) resolve against
`workDir`. Entry paths resolve against `cacheBase`. The optional second
argument of `store`, `add`, `load` and `load_without_overwrite` is an
`Option`. `None` stands for Ruby's `nil` and defaults to the first argument.

Several lemmas need "nothing lies below a missing path". This holds on every
real filesystem. The flat map does not enforce it, so those lemmas take it as
the hypothesis `Rooted`. "Separate trees" (`Disjoint`) means that neither
path is a prefix of the other.

`Pathname#sub_ext` is implemented in C in Ruby's pathname extension, which
is not part of this model. `SubExtStem` follows its rule: the extension that
File.extname finds is cut, except one of a single character, so a name
ending in "." keeps that dot (`b.` gives `b..tar`).

Three properties of the code, which the model follows:

- `archive_path` maps `a/b.x` and `a/b.y` to the same `a/b.tar`
  (`Paths.ArchivePathCollides`).
- A relative path with a leading `..` puts its archive outside the cache root
  (`Paths.ArchivePathEscapes`).
- The methods return booleans and cannot tell a missing input from a failed
  command. The model returns booleans too.

`tar -cf` is given the relative `path`, so the tar records relative names, and
`tar -xf` restores them into the working directory of the process that
extracts. An archive outlives the `Cache` that wrote it. A later build with
another working directory therefore restores the tree there
(`LanguagePack.ArchiveFollowsWorkDir`).

## Model

| member | source | states |
|---|---|---|
| Paths.CleanPath | lib/language_pack/cache.rb:75 | cleanpath leaves no "", "." or ".." segment and never lengthens the path |
| Paths.CleanPathOfPlain | lib/language_pack/cache.rb:75 | a path without such segments is already clean |
| Paths.CleanPathIdempotent | lib/language_pack/cache.rb:75 | cleaning twice is cleaning once |
| Paths.CleanPathAppendPlain | lib/language_pack/cache.rb:75 | joining a relative path free of dot segments to the base commutes with cleaning |
| Paths.LeadingDots | lib/language_pack/cache.rb:75 | counts the dots a name starts with: all of them are dots and the next character is not |
| Paths.LastDotBefore | lib/language_pack/cache.rb:75 | finds the last dot before a position that is not a leading dot, or reports that there is none |
| Paths.ExtStart | lib/language_pack/cache.rb:75 | File.extname's extension starts at the last dot past the leading dots, or at the end of the name when there is none |
| Paths.Ext | lib/language_pack/cache.rb:75 | File.extname is a suffix of the name that is empty or one dot followed by dot-free text |
| Paths.Stem | lib/language_pack/cache.rb:75 | the name without its File.extname extension: the stem followed by the extension is the whole name |
| Paths.SubExtStem | lib/language_pack/cache.rb:75 | what sub_ext keeps of a name: a prefix of it, equal to the whole name exactly when the extension has at most one character (a lone trailing dot stays), and otherwise the name minus its extension |
| Paths.ExtShape | lib/language_pack/cache.rb:75 | a name has an extension exactly when it has a dot past its leading dots, and then its stem is more than those dots |
| Paths.RetaggedExtension | lib/language_pack/cache.rb:75 | after sub_ext(".tar") the extension is exactly ".tar" and what sub_ext keeps is unchanged, so a second sub_ext(".tar") changes nothing, for every name that is not only dots |
| Paths.RetaggedName | lib/language_pack/cache.rb:75 | a name that is more than dots, with ".tar" appended, has extension ".tar" and that name as its stem |
| Paths.ArchivePath | lib/language_pack/cache.rb:73-76 | the archive path has no dot segments and its last segment ends in ".tar" |
| Paths.ArchivePathShape | lib/language_pack/cache.rb:73-76 | sub_ext(".tar") keeps every segment but the last; the new last segment has extension ".tar" and, as stem, what sub_ext keeps of the old one, or, when the old one is only dots, it is that name plus ".tar" and has no extension |
| Paths.AllDotsRetagged | lib/language_pack/cache.rb:75 | sub_ext keeps a name made only of dots whole, and that name with ".tar" appended has no extension either, so a second sub_ext(".tar") appends again |
| Paths.ArchivePathUnderBase | lib/language_pack/cache.rb:73-76 | for a non-empty relative path free of dot segments, the archive lies strictly inside the cleaned cache root |
| Paths.ArchivePathCollides | lib/language_pack/cache.rb:73-76 | in any directory, two names with the same dot-free stem and different extensions of two or more characters, such as `a/b.x` and `a/b.y`, share one archive path |
| Paths.ArchivePathOfNamed | lib/language_pack/cache.rb:73-76 | a dot-free name with an extension of two or more characters gets the archive with that extension swapped for ".tar" |
| Paths.ArchivePathKeepsTrailingDot | lib/language_pack/cache.rb:73-76 | a name ending in a lone dot keeps it (`b.` gives `b..tar`), so it does not share `b.y`'s archive |
| Paths.StemOfNamed | lib/language_pack/cache.rb:75 | the stem of a dot-free name followed by an extension is that name |
| Paths.ArchivePathOfPlain | lib/language_pack/cache.rb:73-76 | on a path with no dot segments, the archive path is the path with its last segment cut as sub_ext does and ".tar" appended |
| Paths.ArchivePathEscapes | lib/language_pack/cache.rb:73-76 | `../x` under root `cache` gives the archive `/x.tar`, outside the root |
| FileTree.Parent | lib/language_pack/cache.rb:88 | File.dirname (also used for the tar at line 52) is the path without its last segment, a prefix of it |
| FileTree.Pruned | lib/language_pack/cache.rb:15 | rmtree removes exactly the target and everything below it; the other nodes keep their values |
| FileTree.WithDirs | lib/language_pack/cache.rb:88 | mkdir_p adds every missing prefix as a directory and changes no existing node |
| FileTree.Graft | lib/language_pack/cache.rb:89 | every node of the copied tree gets a place below the destination; nothing else appears |
| FileTree.GraftOverlays | lib/language_pack/cache.rb:89 | `cp -a` leaves below the destination the old tree overlaid by the source tree |
| FileTree.GraftKeepsExisting | lib/language_pack/cache.rb:80 | `cp -a -n` leaves below the destination the source tree overlaid by the old tree |
| FileTree.GraftOutside | lib/language_pack/cache.rb:89 | a copy changes nothing outside the destination |
| FileTree.Copied | lib/language_pack/cache.rb:86-90 | copy removes nothing, and every node under `from` gets a counterpart under `to` |
| FileTree.ListingOf | lib/language_pack/cache.rb:107-109 | the listing has one row for each node of the tree |
| FileTree.ListingIgnoresContent | lib/language_pack/cache.rb:107-109 | rewriting a file's content with the same mtime leaves the listing, and so the hash, unchanged |
| FileTree.ListingSeesMtime | lib/language_pack/cache.rb:107-109 | touching a file of the tree to a new mtime changes the listing |
| LanguagePack.Cleared | lib/language_pack/cache.rb:13-16 | after clear the target is absent and no node was added |
| LanguagePack.Stored | lib/language_pack/cache.rb:24-28 | after store the entry exists only if the source existed |
| LanguagePack.Archived | lib/language_pack/cache.rb:48-54 | store_archive leaves a tar at the archive path that records the tree under its relative name `path` |
| LanguagePack.Extracted | lib/language_pack/cache.rb:69 | tar extraction into the working directory removes nothing |
| LanguagePack.Cache.constructor | lib/language_pack/cache.rb:7-9 | the cache root is fixed at construction |
| LanguagePack.Cache.Exists | lib/language_pack/cache.rb:102-104 | exists? holds exactly when the entry's tree has a root, and then that tree is not empty |
| LanguagePack.Cache.DirHash | lib/language_pack/cache.rb:107-109 | dir_hash is the same after any file's content is rewritten with its mtime kept |
| LanguagePack.Cache.Clear | lib/language_pack/cache.rb:13-16 | returns whether the entry existed; afterwards it is absent, exactly its tree is gone and everything else is unchanged |
| LanguagePack.Cache.Copy | lib/language_pack/cache.rb:86-90 | returns false and changes nothing when `from` is missing; otherwise removes nothing and places every node of `from` under `to` |
| LanguagePack.Cache.Store | lib/language_pack/cache.rb:24-28 | the entry defaults to `from`; clear then copy, and the entry exists after a successful store |
| LanguagePack.Cache.Add | lib/language_pack/cache.rb:32-35 | the entry defaults to `from`; copy without clearing, so no node is ever removed |
| LanguagePack.Cache.Load | lib/language_pack/cache.rb:40-43 | the destination defaults to the entry path; false and no change when the entry is missing |
| LanguagePack.Cache.LoadWithoutOverwrite | lib/language_pack/cache.rb:78-81 | as load, but every node that existed keeps its value |
| LanguagePack.Cache.CacheCopy | lib/language_pack/cache.rb:95-97 | copies one entry into another; false and no change when the source entry is missing |
| LanguagePack.Cache.StoreArchive | lib/language_pack/cache.rb:48-54 | false and no change when `path` is missing; otherwise replaces the tar at the archive path |
| LanguagePack.Cache.StoreArchiveIfChanged | lib/language_pack/cache.rb:56-61 | no change at all when the previous hash is the current one; otherwise, and always when there is no previous hash (load_archive found no tar), acts as store_archive |
| LanguagePack.Cache.LoadArchive | lib/language_pack/cache.rb:66-71 | None and no change when there is no tar; otherwise extracts it and returns the hash of the restored tree |
| LanguagePack.ParentDirsKeepTarget | lib/language_pack/cache.rb:88 | mkdir_p of the destination's parent leaves the destination's own tree as it was |
| LanguagePack.ParentDirsKeepOther | lib/language_pack/cache.rb:88 | mkdir_p of the destination's parent leaves the tree of a source that does not contain the destination as it was |
| LanguagePack.CopyOverwrites | lib/language_pack/cache.rb:86-90 | copying into a separate destination leaves the old tree overlaid by the source, so source files win and other old files stay |
| LanguagePack.CopyKeepsExisting | lib/language_pack/cache.rb:78-81 | a no-clobber copy leaves the source tree overlaid by the old tree, so existing files win |
| LanguagePack.CopyOutside | lib/language_pack/cache.rb:86-90 | outside the destination a copy only adds the destination's missing ancestors, as directories |
| LanguagePack.NoClobberKeepsAll | lib/language_pack/cache.rb:78-81 | load_without_overwrite never changes or removes an existing node |
| LanguagePack.LoadVariantsAgreeOnNew | lib/language_pack/cache.rb:78-81 | load and load_without_overwrite agree on every position that was empty before |
| LanguagePack.ClearedEmpty | lib/language_pack/cache.rb:13-16 | after clear nothing is left below the entry |
| LanguagePack.ClearedApart | lib/language_pack/cache.rb:13-16 | clear leaves a separate tree as it was |
| LanguagePack.StoreMirrors | lib/language_pack/cache.rb:18-28 | after store of an existing, separate source, the entry's tree equals the source tree and nothing stored earlier survives |
| LanguagePack.StoreOutside | lib/language_pack/cache.rb:24-28 | outside the entry, store only adds the entry's missing ancestors, as directories |
| LanguagePack.AddIsStorePlusStale | lib/language_pack/cache.rb:30-35 | the entry after add is the entry after store plus exactly the stale old files the source lacks |
| LanguagePack.StoredApart | lib/language_pack/cache.rb:24-28 | store leaves any tree separate from the entry as it was |
| LanguagePack.StoreThenLoad | lib/language_pack/cache.rb:24-43 | store then load into a separate destination puts the source tree there, over what the destination held |
| LanguagePack.ArchiveSnapshot | lib/language_pack/cache.rb:48-54 | the tar holds the archived tree as it was before the call |
| LanguagePack.ArchiveOutside | lib/language_pack/cache.rb:48-54 | apart from the tar, store_archive only adds the tar's missing ancestors, as directories |
| LanguagePack.ArchivedApart | lib/language_pack/cache.rb:48-54 | store_archive leaves the archived tree itself unchanged |
| LanguagePack.ExtractRestores | lib/language_pack/cache.rb:66-71 | extraction in a working directory overlays the tree at the recorded relative name below it with the archived tree |
| LanguagePack.ArchiveRoundTrip | lib/language_pack/cache.rb:48-71 | store_archive then load_archive in the same working directory restores exactly the archived tree |
| LanguagePack.ArchiveFollowsWorkDir | lib/language_pack/cache.rb:48-71 | a tar taken in one working directory and extracted in another restores the tree below the second, over what is there |

## Left out

- Shell commands (`cp`, `tar`, `ls | awk | sha1sum`), their quoting, and the true/false/nil result of `system`. Only their effect on the filesystem is modelled. `Copy` and `StoreArchive` return true once the command would run.
- Attribute preservation by `cp -a`: permissions, ownership and symbolic links. A copied file keeps its content and mtime because nodes are copied as values.
- Kind clashes on a real filesystem:
  - a file copied over a directory, or a directory over a file (cp reports an error there);
  - mkdir_p meeting an existing file (Ruby raises `EEXIST`);
  - copying a `from` that is a regular file (`cp` fails on `from/.`);
  - copying a tree into itself.
  The model overwrites or keeps by position only.
- The filesystem is a flat map, not a tree. "Nothing lies below a missing path" is not an invariant of the map, so the lemmas that need it take `Rooted` as a hypothesis.
- The value `clear` returns after a removal is `Pathname#rmtree`'s (nil or the pathname, depending on the Ruby version). The model returns true.
- `tar.delete` of a non-empty directory at the archive path raises `ENOTEMPTY` in Ruby. The model removes that one node.
- The tar format. A tar is modelled as the relative name it was given and the tree found there.
- The clock: the new tar file's mtime is the `now` parameter. Directories carry no mtime, so the listing has a directory mark where `ls` prints a directory's mtime.
- `dir_hash`'s digest (`sha1sum` of the `ls` output, cut to 40 characters) is the uninterpreted parameter `digest` of the constructor. The model claims no collision-freedom. The listing is keyed by relative path, not by the basenames `ls -R` prints.
- Paths with "", "." or ".." segments, and absolute path arguments. The methods take relative paths free of such segments. Only `ArchivePath` applies `cleanpath` in general.
- Ruby versions outside 2.7 to 3.1. `File.extname` follows Ruby 2.7 and later, where a trailing dot is the extension "." (earlier versions return "" there). `exists?` calls `File.exists?`, which Ruby 3.2 removed.
- Concurrent builds sharing one cache root.
