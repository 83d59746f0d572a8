# toss, modelled in Dafny

`toss` is a reversible delete for the command line. `toss <path>...` moves each object into a
bin directory, `~/.toss/files`, under the name `<uuid>-<basename>`. It records the object in
the ledger, a SQLite table `entries` keyed by that id. `restore [query]` finds an entry and
moves the object back to its original path, asking before it replaces anything there.
`empty [--force]` deletes the bin's contents and clears the ledger.

This project models that core and proves what it promises:

- `uuid.dfy` (module `Uuid`): `NewID`. It stamps the RFC 4122 version and variant bits
  into 16 given bytes and renders them as 8-4-4-4-12 lower-case hex groups.
- `paths.dfy` (`Paths`): paths as sequences of clean names, with `filepath.Abs`/`Clean`
  as lexical resolution against the working directory, plus `filepath.Join`, `Dir` and
  `Base`.
- `text.dfy` (`Text`): the string helpers the core calls: `strings.Split`/`Join`,
  ASCII `ToLower`, `TrimSpace`, `strconv.Atoi` and decimal `%d`.
- `ledger.dfy` (`Ledger`): the `entries` table. It is a class holding its rows in
  insertion order, with `Append`, `Remove`, `All` and `FindByQuery`, and `scanEntries`
  as a loop. It also covers the SQL `LIKE` matcher and the `ORDER BY tossed_at` sort.
- `fs.dfy` (`Fs`): the disk, as a class whose field maps paths to
  `File(bytes, mode) | Dir(mode) | Symlink(target)`. It has the syscalls the mover makes:
  lstat, `os.Rename` (Go's check of the new name, then rename(2) with its Linux error order,
  cross-mount EXDEV and EBUSY for a mount point), `os.RemoveAll` (which empties a mount
  point but cannot remove it),
  `os.MkdirAll`, symlink(2), and the open/creat/copy of `copyFile`.
- `walk.dfy` (`Walk`): the lexical order in which `filepath.WalkDir` visits a tree.
- `mover.dfy` (`Mover`): `dirSize`, `copyDir`, `copyThenDelete`, `moveItem`, `Move`,
  `Restore` and `Empty`. Each is a method that changes the disk, proved equal to a
  function of the disk before it.
- `ui.dfy` (`Ui`): `FormatSize`, the answer read by `Confirm`, the numbered choice of
  `PickEntry`, and the rows of `PrintTable`.
- `commands.dfy` (`Commands`): `runToss`, the `restore` command and the `empty`
  command, as methods over the disk and the ledger.

Standard input is a string parameter. The outcome each command prints comes back as a
report value; the prompts and the menu shown before reading are not modelled. The home directory, the working directory, the random bytes of each id and the
clock reading of each toss are parameters too.

Where the written description of the tool and its code differ, the model follows the code:

- `dirSize` adds the size of every entry that is not a directory. Symbolic links are
  counted by their own size, not only regular files.
- `All` orders by `tossed_at`. Equal instants are allowed, so the order is non-decreasing,
  not strictly increasing.
- `NewID` ignores the error of `rand.Read`; it does not fail.
- `bin.Restore` moves with `os.Rename`. A file or link already at the original path is
  replaced, but any directory there, even an empty one, makes the move fail with EEXIST,
  because Go checks the new name before it calls rename(2). The `restore` command removes
  whatever is there first, after asking.

## Model

| member | source | states |
|---|---|---|
| `Uuid.NewID` | internal/db/db.go:49-55 | an id is 36 characters with hyphens at positions 8, 13, 18 and 23 |
| `Uuid.Stamp` | internal/db/db.go:52-53 | the high nibble of byte 6 becomes 4 and its low nibble is kept; the top two bits of byte 8 become 10 and the other six are kept; the other 14 bytes are unchanged |
| `Uuid.MaskVersion` | internal/db/db.go:52 | `(b & 0x0f) \| 0x40` is the low nibble of b plus 0x40 |
| `Uuid.MaskVariant` | internal/db/db.go:53 | `(b & 0x3f) \| 0x80` is the low six bits of b plus 0x80 |
| `Uuid.HexDigit` | internal/db/db.go:54 | the digit written for a nibble is a lower-case hex digit that reads back as that nibble |
| `Uuid.DigitValue` | internal/db/db.go:54 | a character has a hex value exactly when it is a lower-case hex digit, and that value is below 16 |
| `Uuid.UnhexHex` | internal/db/db.go:54 | `%x` of a byte slice decodes back to the same bytes |
| `Uuid.HexAt` | internal/db/db.go:54 | character 2k of `%x` is the high nibble of byte k and character 2k+1 its low nibble |
| `Uuid.HexAppend` | internal/db/db.go:54 | `%x` of two slices joined is the two texts joined |
| `Uuid.HexChars` | internal/db/db.go:54 | every character of `%x` output is a lower-case hex digit |
| `Uuid.NewIdShape` | internal/db/db.go:54 | an id is 36 characters: hyphens exactly at positions 8, 13, 18 and 23, lower-case hex digits everywhere else |
| `Uuid.NewIdGroups` | internal/db/db.go:54 | split at the hyphens, an id has exactly five groups, of lengths 8, 4, 4, 4 and 12 |
| `Uuid.NewIdVersion` | internal/db/db.go:52-54 | the third group starts with '4' |
| `Uuid.NewIdVariant` | internal/db/db.go:53-54 | the fourth group starts with one of 8, 9, a, b |
| `Uuid.ParseNewId` | internal/db/db.go:49-55 | parsing an id gives back the stamped bytes: all 16 input bytes, in order, with only the version and variant bits changed |
| `Text.SplitJoin` | internal/db/db.go:54 | splitting a join at its separator gives back the parts, when no part holds the separator |
| `Text.SplitPartsLackSep` | internal/db/db.go:54 | no part of a split holds the separator |
| `Text.Lower` | internal/db/db.go:81 | each character is mapped by `LowerChar` and the length is kept |
| `Text.LowerChar` | internal/ui/ui.go:21 | 'A'-'Z' become 'a'-'z' and every other character is kept |
| `Text.LowerAppend` | internal/db/db.go:81 | lowering distributes over concatenation |
| `Text.ContainsAt` | internal/db/db.go:84 | `Contains(s, w)` holds exactly when w starts at some position of s |
| `Text.TrimSpace` | internal/ui/ui.go:21 | the result is s without leading and trailing white space: it neither starts nor ends with space, is empty exactly when s is all space, and is s itself when s has no space |
| `Text.TrimSpacePadded` | internal/ui/ui.go:21 | trimming a word between runs of white space gives the word |
| `Text.NatToString` | internal/ui/ui.go:76 | `%d` of a natural number is a non-empty string of decimal digits |
| `Text.DigitsValueOfNatToString` | internal/ui/ui.go:76 | the digits written for n read back as n |
| `Text.Atoi` | internal/ui/ui.go:37 | a parsed value always lies in int64 |
| `Text.AtoiIntToString` | internal/ui/ui.go:37 | `Atoi` reads back every int64 that `%d` writes, negative ones included |
| `Paths.Parent` | internal/bin/bin.go:92 | `filepath.Dir` of a path below the root drops exactly the last name; the root is its own parent |
| `Paths.Resolve` | internal/bin/bin.go:53-56 | lexical resolution of slash-free elements from a clean path yields a clean path |
| `Paths.Abs` | internal/bin/bin.go:53-56 | `filepath.Abs` yields a clean path from a clean working directory, and it fails exactly when the argument is relative and the working directory is unknown |
| `Paths.ResolveCleanNames` | internal/bin/bin.go:65 | resolving clean names just appends them |
| `Paths.JoinCleanName` | internal/bin/bin.go:65 | joining a directory with a clean name appends that name |
| `Paths.RenderRoundTrip` | internal/bin/bin.go:80 | the text recorded for a clean absolute path resolves back to that path from any working directory |
| `Paths.TrimTrailingSlashes` | internal/db/db.go:110 | the result is a prefix that does not end in '/', and only slashes were cut |
| `Paths.AfterLastSlash` | internal/db/db.go:110 | the result is the slash-free suffix after the last '/' |
| `Paths.Base` | internal/db/db.go:110 | `filepath.Base` is never empty, and it is "/" or holds no slash |
| `Paths.BaseOfElement` | internal/db/db.go:110 | a non-empty slash-free name is its own base |
| `Paths.BaseIdempotent` | internal/db/db.go:110 | sanitising a bin name twice is the same as once |
| `Paths.BaseOfRender` | internal/bin/bin.go:64 | the base of a rendered clean path is its last name |
| `Paths.JoinBaseDotDot` | internal/bin/bin.go:89 | a stored bin name ".." survives sanitising and, joined to the bin, names the bin's parent |
| `Paths.JoinBaseEmptyOrSlash` | internal/bin/bin.go:89 | a stored bin name "" or "/" sanitises to "." or "/", and joined to the bin names the bin itself |
| `Ledger.BoolToInt` | internal/db/db.go:116-121 | the flag is 0 or 1, and non-zero exactly for true |
| `Ledger.ReadRow` | internal/db/db.go:104-110 | a row reads exactly when its instant has a four-digit-year RFC 3339 form; the read entry keeps id, path and size, has the instant in nanoseconds, `isDir != 0`, and the base of the stored bin name |
| `Ledger.RowRoundTrip` | internal/db/db.go:61 | writing an entry and reading it back gives the entry at one-second resolution, with a single-element bin name unchanged |
| `Ledger.ToRow` | internal/db/db.go:57-64 | the stored instant is the entry's instant truncated to whole seconds, and the stored flag is non-zero exactly for a directory |
| `Ledger.ReadAll` | internal/db/db.go:95-114 | a successful scan gives one entry per row |
| `Ledger.ReadAllSpec` | internal/db/db.go:95-114 | the scan succeeds exactly when every row reads, and then gives one entry per row in order |
| `Ledger.ReadAllErrPrefix` | internal/db/db.go:101-107 | the first unreadable row ends the scan with its error, whatever follows |
| `Ledger.ScanEntries` | internal/db/db.go:95-114 | the scan loop returns the read of all rows |
| `Ledger.Insert` | internal/db/db.go:72 | inserting adds exactly the one row to the multiset |
| `Ledger.InsertSorted` | internal/db/db.go:72 | inserting into a sorted sequence keeps it sorted by instant |
| `Ledger.SortByTime` | internal/db/db.go:72 | the result is sorted by instant and is a permutation of the rows |
| `Ledger.ReadSortedIsSorted` | internal/db/db.go:72 | entries read from rows sorted by instant are sorted by instant |
| `Ledger.LikePrefix` | internal/db/db.go:84 | `w%` matches s exactly when w is a prefix of s, for a lower-case w without wildcards |
| `Ledger.LikeContains` | internal/db/db.go:81-84 | `%w%` matches s exactly when w occurs in s, for a lower-case w without wildcards |
| `Ledger.Like` | internal/db/db.go:84 | a pattern without '%' or '_' matches exactly the strings equal to it up to ASCII case |
| `Ledger.Pattern` | internal/db/db.go:81-84 | for a query without wildcards, `%lower(q)%` matches a lower-case string exactly when the lowered query occurs in it |
| `Ledger.Matches` | internal/db/db.go:81-85 | for a query without '%' or '_', a row matches exactly when the lowered query occurs in the lowered path or the lowered bin name |
| `Ledger.EmptyQueryMatchesAll` | internal/db/db.go:81 | the empty query matches every row |
| `Ledger.UnderscoreIsWildcard` | internal/db/db.go:81 | the unescaped query "_" matches every row with a non-empty path |
| `Ledger.Select` | internal/db/db.go:82-85 | the rows kept are exactly the matching ones |
| `Ledger.WithoutId` | internal/db/db.go:67 | the rows kept are exactly those with another id, and an absent id changes nothing |
| `Ledger.WithoutIdUnique` | internal/db/db.go:26 | deleting an id from a table with unique ids keeps them unique and leaves no row with that id |
| `Ledger.Ledger.constructor` | internal/db/db.go:34-47 | a fresh table is empty |
| `Ledger.Ledger.Append` | internal/db/db.go:57-64 | the insert succeeds exactly when the table is writable and the id is new (PRIMARY KEY); then the row is added at the end, otherwise the table is unchanged |
| `Ledger.Ledger.Remove` | internal/db/db.go:66-69 | the delete fails only on a read-only table; it drops exactly the rows with the id, and an absent id is not an error |
| `Ledger.Ledger.Clear` | cmd/empty.go:55-57 | `DELETE FROM entries` empties the table unless it is read-only, and then changes nothing |
| `Ledger.Ledger.All` | internal/db/db.go:71-78 | the result is the scan of the rows sorted by instant |
| `Ledger.Ledger.FindByQuery` | internal/db/db.go:80-93 | the result is the scan of the matching rows sorted by instant |
| `Ledger.AllSpec` | internal/db/db.go:71-78 | with readable rows, `All` succeeds with one entry per row, in instant order, and an entry is listed exactly when some row reads as it |
| `Ledger.AppendThenAll` | internal/db/db.go:57-78 | an appended entry is listed by `All`, at one-second resolution |
| `Ledger.FindSpec` | internal/db/db.go:80-93 | with readable rows and a query without wildcards, the result is in instant order and lists exactly the entries of rows whose lowered path or bin name contains the lowered query |
| `Ledger.FindEmptyIsAll` | internal/db/db.go:81 | the empty query selects every row |
| `Fs.Size` | internal/bin/bin.go:75 | lstat's size is the byte count of a file and the target length of a link |
| `Fs.AncestorsPresent` | internal/bin/bin.go:92 | on a well-formed disk every ancestor of a present path is a present directory |
| `Fs.DirLookup` | internal/bin/bin.go:107 | a path lookup succeeds exactly at a present directory, and otherwise fails with ENOENT or ENOTDIR |
| `Fs.RenameOutcome` | internal/bin/bin.go:107 | `os.Rename` reports EEXIST (or the missing source's error) for a directory target, else the first error in the Linux order (parent lookups, EXDEV, then EBUSY for the root, …, ENOTDIR before the ".." write check, and last EBUSY for a mount point as either name), and then changes nothing; on success the source subtree takes the target's place |
| `Fs.RenameRootAcrossMounts` | internal/bin/bin.go:107 | moving "/" to another filesystem gets EXDEV, not EBUSY |
| `Fs.RenameMountPoint` | internal/bin/bin.go:107 | a mount point that passes every other check is refused with EBUSY and nothing changes |
| `Fs.RenameDirOntoFile` | internal/bin/bin.go:107 | a directory moved onto a file under writable parents gets ENOTDIR, whatever the directory's own write bit |
| `Fs.RenameOntoDirectory` | internal/bin/bin.go:107 | renaming an existing object onto any directory, empty or not, fails with EEXIST and changes nothing |
| `Fs.RenameWellFormed` | internal/bin/bin.go:107 | rename keeps the disk well formed |
| `Fs.RelocateSubtree` | internal/bin/bin.go:107 | after a rename the target holds exactly the tree the source held |
| `Fs.RelocateOutside` | internal/bin/bin.go:107 | a rename leaves every path outside source and target as it was |
| `Fs.RelocateBack` | internal/bin/bin.go:107 | renaming to a free path and back restores the disk exactly |
| `Fs.RemoveAllOutcome` | internal/bin/bin.go:100 | `os.RemoveAll` removes only nodes at or below the path and changes none it keeps; for a present path it succeeds exactly when the path is gone, and a directory with entries is removed only when it can be listed (owner read bit); a missing path changes nothing and fails only with ENOTDIR; a mount point at or below the path always stays |
| `Fs.RemoveAllBelowFile` | internal/bin/bin.go:100 | below a file, RemoveAll fails with ENOTDIR and removes nothing |
| `Fs.RemoveAllMountPoint` | internal/bin/bin.go:100 | RemoveAll of a mount point it may otherwise clear removes everything below it, keeps the mount point and fails with EBUSY |
| `Fs.MountContentsGo` | internal/bin/bin.go:100 | what is mounted below a clearable path goes when no other mount point lies below it |
| `Fs.RemoveAllUnlisted` | internal/bin/bin.go:100 | a directory with entries and without its read bit cannot be listed: RemoveAll fails with EACCES and the directory stays |
| `Fs.RemoveAllWellFormed` | internal/bin/bin.go:140 | `os.RemoveAll` keeps the disk well formed, even when it stops part-way |
| `Fs.RemoveAllClears` | internal/bin/bin.go:100 | when `os.RemoveAll` reports success, nothing at or below the path is left and nothing else changed |
| `Fs.CreateError` | internal/bin/bin.go:132 | creating an entry succeeds exactly when the path is free and its parent is a writable directory |
| `Fs.SymlinkOutcome` | internal/bin/bin.go:132 | symlink adds exactly a link with the literal target, or fails and changes nothing |
| `Fs.MkdirAllOutcome` | internal/bin/bin.go:28 | `os.MkdirAll` keeps every node, adds only directories with the mode on the way to the path, and on success leaves a directory there |
| `Fs.MkdirAllSpec` | internal/bin/bin.go:28 | `MkdirAll` succeeds exactly when the path ends as a directory; it keeps every node, adds only directories with the mode on the way to the path, and keeps the disk well formed |
| `Fs.InsertWellFormed` | internal/bin/bin.go:178 | adding a non-directory under a directory keeps the disk well formed |
| `Fs.CopyFileOutcome` | internal/bin/bin.go:171-186 | on success the target is a file with the source's bytes, with the given mode when new, and nothing else changed; on failure nothing changed |
| `Fs.GraftAwayCommutes` | internal/bin/bin.go:140 | removing one subtree and placing another, at unrelated paths, commute |
| `Fs.GraftFreshSubtree` | internal/bin/bin.go:143-169 | a tree placed at a free path is exactly what is then found there |
| `Fs.FileSystem.Lstat` | internal/bin/bin.go:58-61 | lstat finds exactly the nodes present, without following links |
| `Fs.FileSystem.Rename` | internal/bin/bin.go:107 | the disk and error are those of `os.Rename`: its directory-target check, then rename(2), which refuses a mount point with EBUSY |
| `Fs.FileSystem.RemoveAll` | internal/bin/bin.go:140 | the disk and error are those of `os.RemoveAll`, which lists each directory with entries and so needs its read bit, and leaves every mount point in place |
| `Fs.FileSystem.MkdirAll` | internal/bin/bin.go:28 | the disk and error are those of `os.MkdirAll` |
| `Fs.FileSystem.Symlink` | internal/bin/bin.go:132 | the disk and error are those of symlink(2) |
| `Fs.FileSystem.CopyFile` | internal/bin/bin.go:171-186 | the disk and error are those of copyFile |
| `Walk.NameLessTransitive` | internal/bin/bin.go:144 | the byte order of names is transitive |
| `Walk.NameLessTotal` | internal/bin/bin.go:144 | the byte order of names is total |
| `Walk.BeforeIrreflexive` | internal/bin/bin.go:144 | the walk order is irreflexive |
| `Walk.BeforeTransitive` | internal/bin/bin.go:144 | the walk order is transitive |
| `Walk.BeforeTotal` | internal/bin/bin.go:144 | the walk order is total on distinct paths |
| `Walk.PrefixBefore` | internal/bin/bin.go:144 | a directory is visited before everything below it |
| `Walk.HasFirst` | internal/bin/bin.go:144 | every non-empty set of paths has a first one in walk order |
| `Walk.FirstUnique` | internal/bin/bin.go:144 | the first path in walk order is unique |
| `Walk.First` | internal/bin/bin.go:144 | `First` is the first path in walk order |
| `Walk.FirstAfterParent` | internal/bin/bin.go:164-165 | when a path is first among those left, its parent is no longer left |
| `Mover.DirSize` | internal/bin/bin.go:31-46 | the loop adds up the lstat size of every non-directory entry of the tree at the path that the walk can reach, links included; a directory without its read bit counts as empty; a missing path gives 0 |
| `Mover.TreeSizeUnlisted` | internal/bin/bin.go:33-36 | a tree whose top directory cannot be read has size 0: the walk's error is swallowed |
| `Mover.SizeFromAny` | internal/bin/bin.go:33-44 | the size does not depend on the walk order: any entry can be counted first |
| `Mover.TreeSizeLeaf` | internal/bin/bin.go:71-76 | for a file or link, dirSize and lstat agree |
| `Mover.CopyEntry` | internal/bin/bin.go:153-167 | one visit of the walk recreates one entry by kind |
| `Mover.CopyDir` | internal/bin/bin.go:143-169 | the walk loop visits the tree in walk order and stops at the first failure, including a source directory it cannot read after making its copy; a target inside the source fails |
| `Mover.CopyDirOutcome` | internal/bin/bin.go:143-169 | copyDir changes nothing outside the target |
| `Mover.CopyDirUnreadable` | internal/bin/bin.go:144-146 | copying a source directory without its read bit fails |
| `Mover.CopyByKind` | internal/bin/bin.go:123-139 | the copy step dispatches on the source's kind |
| `Mover.CopyThenDelete` | internal/bin/bin.go:118-141 | the source is removed only after its copy succeeded |
| `Mover.CopyThenDeleteOutcome` | internal/bin/bin.go:118-141 | on success the source is gone; nothing outside source and target changes |
| `Mover.MoveItem` | internal/bin/bin.go:106-116 | `os.Rename` first, which refuses a directory target with EEXIST before any copy; copy-then-delete on EXDEV only |
| `Mover.MoveItemOutcome` | internal/bin/bin.go:106-116 | nothing outside source and target changes |
| `Mover.MoveItemOntoDirectory` | internal/bin/bin.go:106-116 | moving onto an existing directory fails with EEXIST and changes nothing, on one filesystem or across two |
| `Mover.MoveMountPointAcross` | internal/bin/bin.go:106-141 | moving a mount point to another filesystem fails once the copy is made: the mount point stays and a whole copy is left at the target |
| `Mover.CopyThenDeleteMountPoint` | internal/bin/bin.go:118-141 | copy-then-delete of a mount point makes the whole copy, then fails to remove the source, which stays |
| `Mover.MoveItemIntoItself` | internal/bin/bin.go:106-116 | moving an object into its own subtree fails and changes nothing, on one filesystem (EINVAL) or across two (the copy walks into itself) |
| `Mover.MoveOutcome` | internal/bin/bin.go:48-86 | a failure before the move only adds directories on the way to the bin; a success records a bin name that is the id, then '-', then at least one more character |
| `Mover.Move` | internal/bin/bin.go:48-86 | the disk and result are those of `MoveOutcome` |
| `Mover.Restore` | internal/bin/bin.go:88-97 | the disk and error are those of `RestoreOutcome` |
| `Mover.EmptyOutcome` | internal/bin/bin.go:99-104 | only the bin and what lies below it or on the way to it change; on success the bin is a directory |
| `Mover.Empty` | internal/bin/bin.go:99-104 | the disk and error are those of `EmptyOutcome` |
| `Mover.CopyEntryFresh` | internal/bin/bin.go:145-167 | a visit succeeds exactly when the target's directory is writable and a file or directory source is readable, and then adds exactly a copy of the node; an unreadable directory still leaves its copy made |
| `Mover.CopyStep` | internal/bin/bin.go:144-168 | each visit, parents before children, extends the copy made so far by one node, or fails and changes nothing |
| `Mover.CopyFromSpec` | internal/bin/bin.go:144-168 | for a target outside the source, the rest of the walk succeeds exactly when every remaining node can be copied; then the copy is complete, otherwise it is a partial copy and nothing else changed |
| `Mover.CopyWalkSpec` | internal/bin/bin.go:144-168 | the whole walk, for a target outside the source, succeeds exactly when every node can be copied, and then places the source tree at the target |
| `Mover.CopiedAllIsGraft` | internal/bin/bin.go:143-169 | a complete copy is the source tree placed at the target |
| `Mover.CopyDirSpec` | internal/bin/bin.go:143-169 | copyDir succeeds exactly when the target is not inside the source and every node can be copied (each file and directory readable, each target directory writable); the target is then a mirror (modes kept, link targets literal, bytes kept); a failure leaves a partial mirror and nothing else changed |
| `Mover.CopyByKindSpec` | internal/bin/bin.go:123-139 | for a source of any kind, the copy step succeeds exactly when the target is not inside the source and every node can be copied; a success places the source tree at the target, a failure leaves a partial copy |
| `Mover.CopyLeafOutcome` | internal/bin/bin.go:127-139 | a link or file is copied exactly when the source is readable and the target directory writable, and nothing else changes |
| `Mover.CopyThenDeleteSpec` | internal/bin/bin.go:118-141 | copy-then-delete succeeds exactly when the copy is allowed and the source removable (permissions, and no mount point at or below it), and then equals a rename; on failure the object survives whole at the source or at the target |
| `Mover.MoveItemSpec` | internal/bin/bin.go:106-116 | moveItem succeeds exactly when rename is permitted (one filesystem; the source not a mount point) or copy and removal are (across filesystems), and then equals the rename; a failure on one filesystem changes nothing; any failure loses nothing |
| `Mover.BinNameClean` | internal/bin/bin.go:63-65 | the bin name is id, '-', then the last name of the path, and is a single clean name |
| `Mover.NewIdNoSlash` | internal/bin/bin.go:64 | an id holds no '/' |
| `Mover.BinNamesDistinct` | internal/bin/bin.go:63-65 | two objects with distinct ids get distinct bin names, whatever their base names |
| `Mover.MoveSettingFacts` | internal/bin/bin.go:63-65 | the object's place in the bin is a child of the bin, unrelated to the object's own path |
| `Mover.MoveSpec` | internal/bin/bin.go:48-86 | with the bin in place, Move succeeds exactly when moveItem may move the object; then the object is in the bin under its name and the entry holds the id, the absolute path, the bin name, the time, the lstat kind and the size (lstat for non-directories, dirSize for directories); a failure loses nothing |
| `Mover.MoveMissingSource` | internal/bin/bin.go:49-61 | a missing source gives an error and is not moved; the only change is directories created on the way to the bin |
| `Mover.MovedDisk` | internal/bin/bin.go:67-69 | after a successful Move the source path is gone, the bin entry holds the object, and its parent and the bin are as they were |
| `Mover.MoveRestoreRoundTrip` | internal/bin/bin.go:48-97 | restoring the entry Move returned, from any working directory, gives back the disk exactly, and always succeeds when the object was renamed |
| `Mover.MkdirAllAway` | internal/bin/bin.go:92 | recreating parents leaves an unrelated subtree alone |
| `Mover.RestoreSpec` | internal/bin/bin.go:88-97 | on success the original path holds the bin object's tree, the bin entry is gone, everything else is as it was apart from recreated parents; a failure loses nothing |
| `Mover.RestoreOntoDirectory` | internal/bin/bin.go:88-97 | restoring onto an existing directory, even an empty one, fails with EEXIST and changes nothing |
| `Mover.RestoreMoves` | internal/bin/bin.go:92-96 | the move after recreating the parents does the same |
| `Mover.EmptySpec` | internal/bin/bin.go:99-104 | after success the bin is an empty 0755 directory and everything outside it is as it was; a failed removal only removed entries within the bin |
| `Mover.EmptiedBin` | internal/bin/bin.go:99-104 | after success the bin exists, is empty and sits in a writable directory |
| `Mover.EmptyOfEmptied` | internal/bin/bin.go:99-104 | Empty on a bin that is already an empty 0755 directory in a writable directory succeeds and changes nothing |
| `Mover.EmptyIdempotent` | internal/bin/bin.go:99-104 | emptying an emptied bin succeeds and changes nothing |
| `Ui.Ulp` | internal/ui/ui.go:70 | the float64 spacing is at least 1, and a power of two up to 1024 in int64 range |
| `Ui.RoundHalfEvenNearest` | internal/ui/ui.go:70 | the rounding is to the nearest multiple, with ties to even |
| `Ui.Float64OfKbMultiple` | internal/ui/ui.go:72-74 | a whole number of KB converts to float64 exactly |
| `Ui.TenthsOfMultiple` | internal/ui/ui.go:69-74 | k whole units show as 10 k tenths |
| `Ui.FormatSize` | internal/ui/ui.go:62-78 | the suffix is GB from 1024³ on, MB from 1024², KB from 1024, and plain B (after a digit) below, negatives included |
| `Ui.FormatSizeBytes` | internal/ui/ui.go:75-76 | below 1024 the text is the decimal number followed by "B", and the number reads back |
| `Ui.FormatSizeWholeKb` | internal/ui/ui.go:73-74 | k KB (1 ≤ k < 1024) renders as "k.0KB" |
| `Ui.FormatSizeWholeMb` | internal/ui/ui.go:71-72 | k MB (1 ≤ k < 1024) renders as "k.0MB" |
| `Ui.FormatSizeWholeGb` | internal/ui/ui.go:69-70 | k GB renders as "k.0GB" |
| `Ui.FormatSizeNearest` | internal/ui/ui.go:69-74 | below 2^53 the tenths shown are the nearest to the exact quotient |
| `Ui.ReadLine` | internal/ui/ui.go:17 | a line is read exactly when the input holds a newline; it is the input up to and including the first newline |
| `Ui.ReadLineFirst` | internal/ui/ui.go:33 | the line read is the text before the first newline, with it |
| `Ui.Confirm` | internal/ui/ui.go:14-23 | `Confirm` fails exactly when no full line is available |
| `Ui.Answer` | internal/ui/ui.go:21-22 | a line is a yes only when it holds a 'y' or 'Y' |
| `Ui.AnswerWord` | internal/ui/ui.go:21-22 | a word with white space around it is a yes exactly when, lowered, it is "y" or "yes" |
| `Ui.AnswerBlank` | internal/ui/ui.go:21-22 | an empty or all-space line is a no |
| `Ui.PickEntry` | internal/ui/ui.go:25-42 | a chosen entry is one of the entries |
| `Ui.PickEntrySpec` | internal/ui/ui.go:37-41 | with a line to read, the choice succeeds exactly when the trimmed line parses to n with 1 ≤ n ≤ the count |
| `Ui.PickEntryByNumber` | internal/ui/ui.go:37-41 | typing k picks entry k (the k-th, counting from 1) |
| `Ui.PickEntryRejectsZero` | internal/ui/ui.go:38-39 | "0" is an invalid selection |
| `Ui.PickEntryRejectsPastEnd` | internal/ui/ui.go:38-39 | one more than the count is an invalid selection |
| `Ui.PickEntryRejectsText` | internal/ui/ui.go:37-39 | non-numeric text is an invalid selection |
| `Ui.PathCell` | internal/ui/ui.go:48-51 | a directory's path is marked " [dir]", any other path is shown as is |
| `Ui.PrintTable` | internal/ui/ui.go:44-60 | one header row, then exactly one row per entry, numbered from 1 in order |
| `Ui.TableNumberPicks` | internal/ui/ui.go:52-53 | the number printed in front of an entry, typed back, picks that entry |
| `Commands.TossOne` | cmd/toss.go:30-57 | the disk, ledger and report of one argument are those of `TossStep` |
| `Commands.RunToss` | cmd/toss.go:13-64 | the arguments are handled in order, each on what the previous ones left, with one report each; the exit status is 1 exactly when some argument failed |
| `Commands.AnyFailedSnoc` | cmd/toss.go:28-58 | the error flag after one more argument is the old flag or that argument's failure |
| `Commands.TossRefusesTossDir` | cmd/toss.go:19-20 | an argument is refused exactly when it resolves to `~/.toss` itself, sub-paths not included; a refused or unresolvable argument changes nothing |
| `Commands.TossStepSpec` | cmd/toss.go:44-57 | an argument is tossed exactly when moveItem may move it and the ledger takes a row with its id; then the object is in the bin and the ledger gained exactly that row; when the ledger refuses, the object stays in the bin with no row (an orphan); a failed move leaves the ledger alone and loses nothing |
| `Commands.TossStepMoves` | cmd/toss.go:44-55 | past the guard, Append runs only after a successful Move, and the ledger changes only when a row is appended |
| `Commands.TossStep` | cmd/toss.go:30-57 | one argument only adds to the ledger, one row exactly when it is tossed |
| `Commands.CountTossed` | cmd/toss.go:57 | the count of tossed arguments is at most the count of reports |
| `Commands.TossAll` | cmd/toss.go:28-58 | over a run the ledger only grows, by one row per tossed argument, with one report per argument |
| `Commands.Choose` | cmd/restore.go:44-53 | a single candidate is chosen without asking; any chosen entry is a candidate |
| `Commands.ClearedSpec` | cmd/restore.go:65-67 | removing what is at the original path leaves the bin object alone and, on success, frees the path and changes nothing else |
| `Commands.RestoreChosen` | cmd/restore.go:55-78 | the row is dropped exactly when the object is restored; the overwrite question is asked only when something is at the original path, and a failed or declined answer changes nothing |
| `Commands.RestoreCmdOutcome` | cmd/restore.go:18-80 | the ledger changes only when an object is restored |
| `Commands.RunRestore` | cmd/restore.go:18-80 | the disk, ledger and report are those of `RestoreCmdOutcome` |
| `Commands.RestoreEntry` | cmd/restore.go:55-78 | the disk, ledger and report once an entry is chosen are those of `RestoreChosen` |
| `Commands.RestoreCmdSpec` | cmd/restore.go:30-53 | the candidates are all entries or the matching ones; none gives "no matching items found"; several go through the numbered choice; nothing changes before an entry is chosen |
| `Commands.RestoreSingleCandidate` | cmd/restore.go:44-47 | with one candidate the outcome does not depend on the choice input |
| `Commands.RestoreChosenSpec` | cmd/restore.go:55-78 | a declined overwrite changes nothing; the row goes only once the object is back at its path; a failed restore keeps the row and loses nothing; a ledger that refuses leaves a stale row for a restored object |
| `Commands.RestoreChosenSteps` | cmd/restore.go:55-78 | the steps run in order: confirm, remove the existing object, restore, drop the row, each stopping the command on failure |
| `Commands.TossThenRestore` | cmd/restore.go:30-78 | tossing an object into an empty ledger on the bin's filesystem and then running `restore` with no query gives back the disk and the ledger exactly |
| `Commands.MovedBack` | cmd/restore.go:70-72 | the entry recorded by a rename-based toss restores the disk |
| `Commands.OneRowCandidates` | cmd/restore.go:30-33 | a ledger of one row offers that row's entry as the only candidate |
| `Commands.StoredDestination` | cmd/restore.go:56 | the entry read back points at the path the object was tossed from |
| `Commands.RestoreChosenBack` | cmd/restore.go:70-78 | with nothing at the original path and a successful restore, the command restores and drops the row |
| `Commands.EmptyCmdOutcome` | cmd/empty.go:16-62 | the ledger is either untouched or cleared after a successful Empty; the disk changes only when forced or confirmed |
| `Commands.RunEmpty` | cmd/empty.go:16-62 | the disk, ledger and report are those of `EmptyCmdOutcome` |
| `Commands.EmptyCmdSpec` | cmd/empty.go:30-59 | an empty ledger does nothing, forced or not; a declined question does nothing; the ledger is cleared only after the bin is emptied, and the count is the number of rows; after success the bin is an empty directory and the rest of the disk is as it was; a failed Empty leaves the ledger alone; an unreadable row stops the command first |
| `Commands.EmptyCmdSteps` | cmd/empty.go:30-59 | the steps run in order: list, confirm unless forced, empty the bin, clear the ledger, each stopping the command on failure |
| `Commands.SortedReadableBoth` | cmd/empty.go:30-33 | sorting the rows keeps whether all of them are readable |

## Left out

- SQLite itself, `db.Open` and the schema DDL. The table is a sequence of rows in a class.
  A `writable` flag stands for a database that refuses writes. `rows.Err` and failures of
  the query itself are not modelled.
- The equal-instant order of `ORDER BY tossed_at` is not fixed by SQLite. The model sorts
  stably, keeping insertion order among equal instants.
- RFC 3339 text, `time.Parse` and local-time conversion. An instant is nanoseconds in an
  entry and whole seconds in a row; a stored instant reads back only with a four-digit year.
- `Ledger.FindSpec`: stated for queries without '%' or '_'. `LIKE` treats those as
  wildcards, and the matcher models them, but the substring reading needs their absence.
- Lower-casing is ASCII only, as SQLite's `LOWER` is. Go's Unicode `strings.ToLower` on
  the query is taken to agree with it.
- `crypto/rand`: the 16 bytes of each id are a parameter. `time.Now` is a parameter too.
- `os.UserHomeDir` and `bin.Paths`: the home directory is a parameter, taken to be clean and
  absolute. `~/.toss/toss.db` is not part of the modelled disk.
- `filepath.Abs` of a path whose working directory cannot be read is the `None` working
  directory. Paths are resolved lexically, as `filepath.Clean` does; the kernel following
  symbolic links and ".." through them is not modelled.
- Ownership, root privileges, the umask, the execute/search bits of directories and the
  group/other bits of modes are not modelled. Permission is decided by the owner bits:
  write on a directory to add or remove entries, read on a file to copy it, and read on a
  directory to list it (the walks of `copyDir` and `dirSize`, and `os.RemoveAll`).
- `io.Copy` errors, short writes and `Close` errors are not modelled; a copy that opens
  both ends succeeds.
- `Mover.CopyDirOutcome`: for a target inside the source, `filepath.WalkDir` enters the
  copies it has just made and descends until a path is too long. The model fails with
  ENAMETOOLONG at once and leaves the disk as it was: the copies made before the failure,
  and an earlier failure of that walk (an unreadable entry met first), are not modelled.
- `Mover.CopyFromSpec`: the walk visits the keys present when it starts. That is copyDir's
  walk for a target outside the source, the only case in which `CopyDirOutcome` runs it:
  the walk then writes only outside what it lists, and nothing else changes the disk.
- `Mover.MoveOutcome`: an object on another filesystem that holds the bin fails to move,
  as `CopyDirOutcome` does, without the partial copies left inside the bin.
- Prompts and menus: the "[y/N]" question of `Confirm` (internal/ui/ui.go:15, with the
  texts of cmd/restore.go:57 and cmd/empty.go:41) and the numbered menu and "Choose"
  prompt of `PickEntry` (internal/ui/ui.go:26-30) are not part of the reports. Only what
  is read back is modelled.
- `Mover.DirSize`: sizes are unbounded integers. int64 overflow is not modelled.
- A link's lstat size is the length of its target in characters, not UTF-8 bytes.
- `Fs.CopyFileOutcome`: an existing link at the target is refused with EEXIST. The real
  `open` would follow the link.
- `Mover.MoveSpec`, `Mover.MovedDisk` and `Mover.MoveRestoreRoundTrip`: stated for a bin
  that already exists and an object that is not the bin or above it. The bin-creation
  step is covered by `Fs.MkdirAllSpec`, and a missing source by `Mover.MoveMissingSource`.
- `Fs.FileSystem.Rename`: Linux moves a filesystem mounted below a renamed directory along
  with it. The model's mount table is a fixed set of paths, so such a mount stays behind.
- `Fs.RemoveAllOutcome`: when several entries cannot go, Go reports the first failure in
  directory order, which is unspecified. The model reports EACCES when any permission is
  missing and EBUSY when only mount points stay.
- `Mover.EmptyIdempotent`, `Mover.MoveRestoreRoundTrip`, `Commands.MovedBack` and
  `Commands.TossThenRestore` assume every mount point is a node of the disk, as it is on a
  running system; a mount table naming a path the disk lacks is not a state Linux can reach.
- `Mover.CopyThenDeleteSpec`, `Mover.MoveItemSpec` and `Mover.RestoreSpec`: on failure they
  promise only that the object survives whole at the source or at the target, not which.
- `Commands.TossStepSpec` and `Commands.TossThenRestore`: stated in the same setting as
  `Mover.MoveSpec`. The round trip also needs an empty ledger and an instant with a
  four-digit year.
- `Commands.RestoreChosenSpec`: stated for an entry whose bin object exists and is
  unrelated to its original path.
- Error texts of the ledger are dropped from the command reports. "recording",
  "updating db" and "clearing db" are the report kinds `NotRecorded`, `StaleRecord` and
  `ClearFailed`, which carry no text.
- `FormatSize` is proved for its unit choice, the byte branch, exact multiples, and
  nearest rounding below 2^53. The exact `%.1f` text of other values is the model's
  rounding, not a proved property.
- Standard input is two strings: one for the numbered choice and one for the overwrite
  question. The model does not say how a single buffered stream would be split between
  two `bufio` readers.
- `tabwriter` alignment and the "2006-01-02 15:04" time rendering are not modelled;
  the rendering is a parameter of `PrintTable`.
- cobra flag parsing and `os.Exit`: `RunToss` returns the exit status.
- `cmd/list.go` only prints `All`, and `cmd/mem.go` repeats `dirSize`; neither is part of
  this model.
