/**
 * The object mover of internal/bin/bin.go: moving a path into the bin directory under a
 * fresh name, moving it back, and wiping the bin. A rename is tried first; only a
 * cross-device failure (EXDEV) falls back to copying the object and then deleting the
 * source. Each operation changes the disk in place; its effect is given by a function of
 * the disk before it, and the lemmas below state what those effects amount to.
 */
module Mover {
  import opened Wrappers
  import opened Paths
  import opened Fs
  import opened Walk
  import Uuid
  import Ledger

  /** 0o755, the mode the bin directory and recreated parents get. */
  const DirMode: nat := 0x1ED

  // ---------------------------------------------------------------------------
  // dirSize

  /** What one entry adds to dirSize: its lstat size, nothing for a directory. An entry below
      a directory of the tree that cannot be listed adds nothing: the walk's error for that
      directory is skipped, and the walk never sees what is inside. */
  function Contribution(t: Tree, p: Path): nat
    requires p in t
  {
    if t[p].Dir? || !Reaches(t, [], p) then 0 else Size(t[p])
  }

  /** The contributions of the paths in `rest`, added up in walk order. */
  ghost function SizeFrom(t: Tree, rest: set<Path>): nat
    requires rest <= t.Keys
    decreases rest
  {
    if rest == {} then 0
    else
      var p := First(rest);
      Contribution(t, p) + SizeFrom(t, rest - {p})
  }

  /** The size dirSize reports for a tree: every non-directory entry the walk gets to, links
      included. */
  ghost function TreeSize(t: Tree): nat {
    SizeFrom(t, t.Keys)
  }

  /**
   * `dirSize(p)`: walks the tree at `p` and adds up the lstat size of every entry that is not
   * a directory. Walk errors are skipped, so a missing `p` gives 0 and an unreadable
   * directory counts as empty.
   */
  method DirSize(fs: FileSystem, p: Path) returns (size: int)
    ensures size == TreeSize(Subtree(fs.nodes, p))
  {
    var t := Subtree(fs.nodes, p);
    var rest := t.Keys;
    size := 0;
    while rest != {}
      invariant rest <= t.Keys
      invariant size + SizeFrom(t, rest) == TreeSize(t)
      decreases rest
    {
      HasFirst(rest);
      var q :| IsFirst(q, rest);
      FirstUnique(q, First(rest), rest);
      size := size + Contribution(t, q);
      rest := rest - {q};
    }
  }

  // ---------------------------------------------------------------------------
  // copyDir, copyThenDelete, moveItem

  /** One visit of copyDir's walk: the entry at `src + rel` made again at `dst + rel` — a
      link with the same literal target, a directory with the same mode through MkdirAll,
      a file through copyFile with the same mode. After a directory is made, the walk reads
      the source directory's entries; without its read bit that fails (EACCES), the callback
      hands the error back, and the walk stops with the new directory in place. */
  function CopyEntryOutcome(m: Tree, src: Path, dst: Path, rel: Path): (o: Outcome)
    ensures forall q :: q in m ==> q in o.tree && (q != dst + rel ==> o.tree[q] == m[q])
  {
    var from := src + rel;
    var to := dst + rel;
    if from !in m then Outcome(m, Some(ENOENT))
    else
      match m[from]
      case Symlink(target) => SymlinkOutcome(m, target, to)
      case Dir(mode) =>
        var made := MkdirAllOutcome(m, to, mode);
        if made.err.None? && !OwnerRead(mode) then Outcome(made.tree, Some(EACCES)) else made
      case File(_, mode) => CopyFileOutcome(m, from, to, mode)
  }

  /** The rest of copyDir's walk: the relative paths in `rest`, in walk order, stopping at
      the first failure. */
  ghost function CopyFrom(m: Tree, src: Path, dst: Path, rest: set<Path>): (o: Outcome)
    ensures forall q :: q in m ==> q in o.tree && (!(dst <= q) ==> o.tree[q] == m[q])
    decreases rest
  {
    if rest == {} then Outcome(m, None)
    else
      var rel := First(rest);
      var o := CopyEntryOutcome(m, src, dst, rel);
      if o.err.Some? then o else CopyFrom(o.tree, src, dst, rest - {rel})
  }

  /** `copyDir(src, dst)`: the walk fails at once when `src` is missing. It removes nothing,
      and it writes nothing outside the target's subtree. */
  ghost function CopyDirOutcome(m: Tree, src: Path, dst: Path): (o: Outcome)
    ensures forall q :: q in m ==> q in o.tree && (!(dst <= q) ==> o.tree[q] == m[q])
  {
    if src !in m then Outcome(m, Some(ENOENT))
    else if src < dst then Outcome(m, Some(ENAMETOOLONG))
    else CopyFrom(m, src, dst, RelativeKeys(m, src))
  }

  /** The copy step of copyThenDelete, by the kind of the source: a directory through
      copyDir, a link as a new link with the same target, a file through copyFile. */
  ghost function CopyByKindOutcome(m: Tree, src: Path, dst: Path): (o: Outcome)
    requires src in m
    ensures forall q :: q in m ==> q in o.tree && (!(dst <= q) ==> o.tree[q] == m[q])
  {
    match m[src]
    case Dir(_) => CopyDirOutcome(m, src, dst)
    case Symlink(target) => SymlinkOutcome(m, target, dst)
    case File(_, mode) => CopyFileOutcome(m, src, dst, mode)
  }

  /** `copyThenDelete(src, dst)`: remove the source only once the copy has succeeded. A
      success leaves no source behind, and nothing outside the two subtrees changes. */
  ghost function CopyThenDeleteOutcome(m: Tree, mounts: set<Path>, src: Path, dst: Path): (o: Outcome)
    ensures o.err.None? ==> src !in o.tree
    ensures forall q :: q in m && !(src <= q) && !(dst <= q) ==> q in o.tree && o.tree[q] == m[q]
  {
    if src !in m then Outcome(m, Some(ENOENT))
    else
      var copy := CopyByKindOutcome(m, src, dst);
      if copy.err.Some? then copy else RemoveAllOutcome(copy.tree, mounts, src)
  }

  /** `moveItem(src, dst)`: rename, falling back to copyThenDelete on EXDEV only. Either way,
      nothing outside the subtrees at `src` and `dst` changes. */
  ghost function MoveItemOutcome(m: Tree, mounts: set<Path>, src: Path, dst: Path): (o: Outcome)
    ensures forall q :: q in m && !(src <= q) && !(dst <= q) ==> q in o.tree && o.tree[q] == m[q]
  {
    var renamed := RenameOutcome(m, mounts, src, dst);
    if renamed.err == Some(EXDEV) then CopyThenDeleteOutcome(m, mounts, src, dst) else renamed
  }

  method CopyEntry(fs: FileSystem, src: Path, dst: Path, rel: Path) returns (err: Option<Errno>)
    requires fs.Valid()
    modifies fs
    ensures fs.Valid()
    ensures Outcome(fs.nodes, err) == CopyEntryOutcome(old(fs.nodes), src, dst, rel)
  {
    var from := src + rel;
    var to := dst + rel;
    match fs.Lstat(from)
    case None =>
      err := Some(ENOENT);
    case Some(Symlink(target)) =>
      err := fs.Symlink(target, to);
    case Some(Dir(mode)) =>
      err := fs.MkdirAll(to, mode);
      if err.None? && !OwnerRead(mode) {
        err := Some(EACCES);
      }
    case Some(File(_, mode)) =>
      err := fs.CopyFile(from, to, mode);
  }

  method CopyDir(fs: FileSystem, src: Path, dst: Path) returns (err: Option<Errno>)
    requires fs.Valid()
    modifies fs
    ensures fs.Valid()
    ensures Outcome(fs.nodes, err) == CopyDirOutcome(old(fs.nodes), src, dst)
  {
    if fs.Lstat(src).None? {
      return Some(ENOENT);
    }
    if src < dst {
      return Some(ENAMETOOLONG);
    }
    var rest := RelativeKeys(fs.nodes, src);
    ghost var whole := CopyDirOutcome(fs.nodes, src, dst);
    err := None;
    while rest != {}
      invariant fs.Valid() && err.None?
      invariant CopyFrom(fs.nodes, src, dst, rest) == whole
      decreases rest
    {
      HasFirst(rest);
      var rel :| IsFirst(rel, rest);
      FirstUnique(rel, First(rest), rest);
      err := CopyEntry(fs, src, dst, rel);
      if err.Some? {
        return;
      }
      rest := rest - {rel};
    }
  }

  method CopyByKind(fs: FileSystem, src: Path, dst: Path) returns (err: Option<Errno>)
    requires fs.Valid() && src in fs.nodes
    modifies fs
    ensures fs.Valid()
    ensures Outcome(fs.nodes, err) == CopyByKindOutcome(old(fs.nodes), src, dst)
  {
    match fs.nodes[src]
    case Dir(_) =>
      err := CopyDir(fs, src, dst);
    case Symlink(target) =>
      err := fs.Symlink(target, dst);
    case File(_, mode) =>
      err := fs.CopyFile(src, dst, mode);
  }

  method CopyThenDelete(fs: FileSystem, src: Path, dst: Path) returns (err: Option<Errno>)
    requires fs.Valid()
    modifies fs
    ensures fs.Valid()
    ensures Outcome(fs.nodes, err) == CopyThenDeleteOutcome(old(fs.nodes), fs.mounts, src, dst)
  {
    if fs.Lstat(src).None? {
      return Some(ENOENT);
    }
    err := CopyByKind(fs, src, dst);
    if err.Some? {
      return;
    }
    err := fs.RemoveAll(src);
  }

  method MoveItem(fs: FileSystem, src: Path, dst: Path) returns (err: Option<Errno>)
    requires fs.Valid()
    modifies fs
    ensures fs.Valid()
    ensures Outcome(fs.nodes, err) == MoveItemOutcome(old(fs.nodes), fs.mounts, src, dst)
  {
    err := fs.Rename(src, dst);
    if err == Some(EXDEV) {
      err := CopyThenDelete(fs, src, dst);
    }
  }

  // ---------------------------------------------------------------------------
  // Move, Restore, Empty

  /** The errors the mover reports, by the step that failed. */
  datatype MoverError =
    | CreatingBinDir(cause: Errno)
    | ResolvingPath
    | CannotStat(arg: string)
    | RecreatingParents(cause: Errno)
    | RemovingContents(cause: Errno)
    | Failed(cause: Errno)

  /** The name an object gets in the bin: its id, a hyphen, and the base name of its path. */
  function BinName(id: string, abs: Path): string {
    id + "-" + Base(Render(abs))
  }

  /**
   * `Move(arg, binDir)`: make sure the bin exists, resolve the argument, lstat it, name it
   * `<id>-<base>`, move it into the bin, and describe it by an entry whose size is the lstat
   * size of a non-directory or the dirSize of the moved directory. A failure before the move
   * leaves every node where it was, and can only have made directories on the way to the
   * bin; the name in the bin starts with the entry's id and a hyphen.
   */
  ghost function MoveOutcome(m: Tree, mounts: set<Path>, arg: string, binDir: Path, cwd: Option<Path>,
                             random: seq<Byte>, now: int): (o: (Tree, Result<Ledger.Entry, MoverError>))
    requires |random| == 16
    ensures o.1.Err? && !o.1.error.Failed? ==> forall q :: q in m ==> q in o.0 && o.0[q] == m[q]
    ensures o.1.Err? && !o.1.error.Failed? ==> forall q :: q in o.0 && q !in m ==> q <= binDir
    ensures o.1.Ok? ==> |o.1.value.binName| > 37 && o.1.value.binName[..37] == o.1.value.id + "-"
  {
    var made := MkdirAllOutcome(m, binDir, DirMode);
    if made.err.Some? then (made.tree, Err(CreatingBinDir(made.err.value)))
    else if Abs(cwd, arg).None? then (made.tree, Err(ResolvingPath))
    else
      var abs := Abs(cwd, arg).value;
      if abs !in made.tree then (made.tree, Err(CannotStat(arg)))
      else
        var info := made.tree[abs];
        var id := Uuid.NewID(random);
        var name := BinName(id, abs);
        var moved := MoveItemOutcome(made.tree, mounts, abs, JoinName(binDir, name));
        if moved.err.Some? then (moved.tree, Err(Failed(moved.err.value)))
        else
          var size := if info.Dir? then TreeSize(Subtree(moved.tree, JoinName(binDir, name))) else Size(info);
          (moved.tree, Ok(Ledger.Entry(id, Render(abs), name, now, info.Dir?, size)))
  }

  method Move(fs: FileSystem, arg: string, binDir: Path, cwd: Option<Path>, random: seq<Byte>, now: int)
    returns (r: Result<Ledger.Entry, MoverError>)
    requires fs.Valid() && |random| == 16
    modifies fs
    ensures fs.Valid()
    ensures (fs.nodes, r) == MoveOutcome(old(fs.nodes), fs.mounts, arg, binDir, cwd, random, now)
  {
    var err := fs.MkdirAll(binDir, DirMode);
    if err.Some? {
      return Err(CreatingBinDir(err.value));
    }
    var abs := Abs(cwd, arg);
    if abs.None? {
      return Err(ResolvingPath);
    }
    var info := fs.Lstat(abs.value);
    if info.None? {
      return Err(CannotStat(arg));
    }
    var id := Uuid.NewID(random);
    var name := BinName(id, abs.value);
    var dest := JoinName(binDir, name);
    err := MoveItem(fs, abs.value, dest);
    if err.Some? {
      return Err(Failed(err.value));
    }
    var size: int;
    if info.value.Dir? {
      size := DirSize(fs, dest);
    } else {
      size := Size(info.value);
    }
    return Ok(Ledger.Entry(id, Render(abs.value), name, now, info.value.Dir?, size));
  }

  /**
   * `Restore(entry, binDir)`: recreate the parents of the original path with mode 0o755, then
   * move `binDir/<binName>` back to it. The kernel reads the recorded path against the
   * working directory `cwd`.
   */
  ghost function RestoreOutcome(m: Tree, mounts: set<Path>, e: Ledger.Entry, binDir: Path, cwd: Path)
    : (Tree, Option<MoverError>)
  {
    RestoreAt(m, mounts, JoinName(binDir, e.binName), Abs(Some(cwd), e.originalPath).value)
  }

  /** The steps of Restore once the object's place in the bin, `src`, and its original
      path, `dest`, are known. */
  ghost function RestoreAt(m: Tree, mounts: set<Path>, src: Path, dest: Path): (Tree, Option<MoverError>) {
    var made := MkdirAllOutcome(m, Parent(dest), DirMode);
    if made.err.Some? then (made.tree, Some(RecreatingParents(made.err.value)))
    else
      var moved := MoveItemOutcome(made.tree, mounts, src, dest);
      (moved.tree, if moved.err.Some? then Some(Failed(moved.err.value)) else None)
  }

  method Restore(fs: FileSystem, e: Ledger.Entry, binDir: Path, cwd: Path) returns (err: Option<MoverError>)
    requires fs.Valid()
    modifies fs
    ensures fs.Valid()
    ensures (fs.nodes, err) == RestoreOutcome(old(fs.nodes), fs.mounts, e, binDir, cwd)
  {
    var src := JoinName(binDir, e.binName);
    var dest := Abs(Some(cwd), e.originalPath).value;
    var made := fs.MkdirAll(Parent(dest), DirMode);
    if made.Some? {
      return Some(RecreatingParents(made.value));
    }
    var moved := MoveItem(fs, src, dest);
    err := if moved.Some? then Some(Failed(moved.value)) else None;
  }

  /** `Empty(binDir)`: remove the bin with everything in it, then make it again, empty. A
      success leaves a directory at the bin; nothing outside the bin changes, and nothing
      appears but the bin and its parents. */
  ghost function EmptyOutcome(m: Tree, mounts: set<Path>, binDir: Path): (o: (Tree, Option<MoverError>))
    ensures o.1.None? ==> binDir in o.0 && o.0[binDir].Dir?
    ensures forall q :: q in m && !(binDir <= q) ==> q in o.0 && o.0[q] == m[q]
    ensures forall q :: q in o.0 && !(q <= binDir) ==> q in m && o.0[q] == m[q]
  {
    var removed := RemoveAllOutcome(m, mounts, binDir);
    if removed.err.Some? then (removed.tree, Some(RemovingContents(removed.err.value)))
    else
      var made := MkdirAllOutcome(removed.tree, binDir, DirMode);
      (made.tree, if made.err.Some? then Some(Failed(made.err.value)) else None)
  }

  method Empty(fs: FileSystem, binDir: Path) returns (err: Option<MoverError>)
    requires fs.Valid()
    modifies fs
    ensures fs.Valid()
    ensures (fs.nodes, err) == EmptyOutcome(old(fs.nodes), fs.mounts, binDir)
  {
    var removed := fs.RemoveAll(binDir);
    if removed.Some? {
      return Some(RemovingContents(removed.value));
    }
    var made := fs.MkdirAll(binDir, DirMode);
    err := if made.Some? then Some(Failed(made.value)) else None;
  }

  // ---------------------------------------------------------------------------
  // What a copy amounts to

  /** `r` is `m0` with some nodes of `t` copied to their places under `dst`, and nothing else
      changed. */
  ghost predicate PartialCopy(r: Tree, m0: Tree, dst: Path, t: Tree) {
    && (forall x :: x in m0 ==> x in r && r[x] == m0[x])
    && (forall x :: x in r && x !in m0 ==> dst <= x && x[|dst|..] in t && r[x] == t[x[|dst|..]])
  }

  /** The same, where the nodes copied so far are exactly those in `done`. */
  ghost predicate CopiedSoFar(r: Tree, m0: Tree, dst: Path, t: Tree, done: set<Path>) {
    && (forall x :: x in m0 ==> x in r && r[x] == m0[x])
    && (forall rel :: rel in done ==> rel in t && dst + rel in r && r[dst + rel] == t[rel])
    && (forall x :: x in r && x !in m0 ==> dst <= x && x[|dst|..] in done)
  }

  /** What lets the visit of `rel` succeed when its place is still free: the directory that
      receives it is writable (the target's parent for the top, the copied parent below), and
      a file or a directory can be read. */
  predicate CopyableAt(m0: Tree, dst: Path, t: Tree, rel: Path) {
    && rel in t
    && (!t[rel].Symlink? ==> OwnerRead(t[rel].mode))
    && if rel == [] then Parent(dst) in m0 && Writable(m0[Parent(dst)])
       else Parent(rel) in t && Writable(t[Parent(rel)])
  }

  /** Every node of the tree at `src` can be copied to `dst`. */
  ghost predicate CopyAllowed(m: Tree, src: Path, dst: Path) {
    forall rel :: rel in Subtree(m, src) ==> CopyableAt(m, dst, Subtree(m, src), rel)
  }

  /** `t` is a relative tree whose nodes sit at `src` in `m0`. */
  ghost predicate SourceTree(m0: Tree, src: Path, t: Tree) {
    Closed(t) && forall rel :: rel in t ==> src + rel in m0 && m0[src + rel] == t[rel]
  }

  /** One visit of the walk, to a place that is still free beside an existing directory: it
      succeeds exactly when that directory is writable and, for a file or a directory, the
      source is readable, and it then places the source node there. A failure changes
      nothing, except that an unreadable directory is made before its listing fails. */
  lemma CopyEntryFresh(m: Tree, src: Path, dst: Path, rel: Path)
    requires src + rel in m && dst + rel !in m && dst + rel != []
    requires Parent(dst + rel) in m && m[Parent(dst + rel)].Dir?
    ensures var o := CopyEntryOutcome(m, src, dst, rel);
      && (o.err.None? <==> Writable(m[Parent(dst + rel)]) && (!m[src + rel].Symlink? ==> OwnerRead(m[src + rel].mode)))
      && o.tree == (if o.err.None? || (m[src + rel].Dir? && Writable(m[Parent(dst + rel)]))
                    then m[dst + rel := m[src + rel]] else m)
  {
    var to := dst + rel;
    match m[src + rel]
    case Symlink(_) =>
    case Dir(mode) =>
      assert MkdirAllOutcome(m, Parent(to), mode) == Outcome(m, None);
    case File(_, _) =>
  }

  /** Where the walk is about to place `rel`, nothing is there yet, and the receiving
      directory is the target's parent or the copy of `rel`'s parent. */
  lemma CopyTargetFree(m0: Tree, dst: Path, t: Tree, done: set<Path>, rel: Path, m: Tree)
    requires WellFormed(m0) && dst !in m0 && Parent(dst) in m0 && m0[Parent(dst)].Dir?
    requires Closed(t) && CopiedSoFar(m, m0, dst, t, done)
    requires rel in t && rel !in done && (rel != [] ==> Parent(rel) in done)
    ensures dst + rel !in m && dst + rel != []
    ensures Parent(dst + rel) in m
    ensures m[Parent(dst + rel)] == if rel == [] then m0[Parent(dst)] else t[Parent(rel)]
  {
    var to := dst + rel;
    assert [] in m0 && dst != [];
    assert to[|dst|..] == rel;
    if rel == [] {
      assert to == dst;
    } else {
      ParentOfAppend(dst, rel);
      if to in m0 {
        AncestorsPresent(m0, to, dst);
      }
    }
  }

  /** Placing the next node extends the copy by exactly that node. */
  lemma CopiedExtend(m0: Tree, dst: Path, t: Tree, done: set<Path>, rel: Path, m: Tree)
    requires CopiedSoFar(m, m0, dst, t, done) && rel in t && dst + rel !in m
    ensures CopiedSoFar(m[dst + rel := t[rel]], m0, dst, t, done + {rel})
  {
    var to := dst + rel;
    var r := m[to := t[rel]];
    forall x | x in r && x !in m0 ensures dst <= x && x[|dst|..] in done + {rel} {
      if x == to {
        assert to[|dst|..] == rel;
      }
    }
  }

  /** One step of the walk keeps the picture of a copy in progress. */
  lemma CopyStep(m0: Tree, src: Path, dst: Path, t: Tree, done: set<Path>, rel: Path, m: Tree)
    requires WellFormed(m0) && dst !in m0 && Parent(dst) in m0 && m0[Parent(dst)].Dir?
    requires SourceTree(m0, src, t) && CopiedSoFar(m, m0, dst, t, done)
    requires rel in t && rel !in done && (rel != [] ==> Parent(rel) in done)
    ensures var o := CopyEntryOutcome(m, src, dst, rel);
      && (o.err.None? <==> CopyableAt(m0, dst, t, rel))
      && (o.err.None? ==> CopiedSoFar(o.tree, m0, dst, t, done + {rel}))
      && (o.err.Some? ==> PartialCopy(o.tree, m0, dst, t))
  {
    assert src + rel in m0 && m[src + rel] == t[rel];
    CopyTargetFree(m0, dst, t, done, rel, m);
    CopyEntryFresh(m, src, dst, rel);
    var o := CopyEntryOutcome(m, src, dst, rel);
    if o.tree == m {
      CopiedPartial(m, m0, dst, t, done);
    } else {
      CopiedExtend(m0, dst, t, done, rel, m);
      CopiedPartial(o.tree, m0, dst, t, done + {rel});
    }
  }

  /** Every entry of `rest` can be copied. */
  predicate AllCopyable(m0: Tree, dst: Path, t: Tree, rest: set<Path>) {
    forall rel :: rel in rest ==> CopyableAt(m0, dst, t, rel)
  }

  lemma AllCopyableSplit(m0: Tree, dst: Path, t: Tree, rest: set<Path>, rel: Path)
    requires rel in rest && CopyableAt(m0, dst, t, rel)
    ensures AllCopyable(m0, dst, t, rest) <==> AllCopyable(m0, dst, t, rest - {rel})
  {
  }

  /** The walk over the paths in `rest` either copies all of them or stops with a partial
      copy; it succeeds exactly when every one of them can be copied. */
  lemma {:induction false} CopyFromSpec(m0: Tree, src: Path, dst: Path, t: Tree, rest: set<Path>, m: Tree)
    requires WellFormed(m0) && dst !in m0 && Parent(dst) in m0 && m0[Parent(dst)].Dir?
    requires SourceTree(m0, src, t) && rest <= t.Keys
    requires CopiedSoFar(m, m0, dst, t, t.Keys - rest)
    ensures var o := CopyFrom(m, src, dst, rest);
      && (o.err.None? <==> AllCopyable(m0, dst, t, rest))
      && (o.err.None? ==> CopiedSoFar(o.tree, m0, dst, t, t.Keys))
      && (o.err.Some? ==> PartialCopy(o.tree, m0, dst, t))
    decreases rest
  {
    if rest == {} {
      assert t.Keys - rest == t.Keys;
    } else {
      var rel := First(rest);
      CopyFromFirst(m0, src, dst, t, rest, m);
      var o := CopyEntryOutcome(m, src, dst, rel);
      if o.err.None? {
        CopyFromSpec(m0, src, dst, t, rest - {rel}, o.tree);
        AllCopyableSplit(m0, dst, t, rest, rel);
      }
    }
  }

  /** The first visit of the walk over `rest`, as `CopyStep` states it for the paths done. */
  lemma CopyFromFirst(m0: Tree, src: Path, dst: Path, t: Tree, rest: set<Path>, m: Tree)
    requires WellFormed(m0) && dst !in m0 && Parent(dst) in m0 && m0[Parent(dst)].Dir?
    requires SourceTree(m0, src, t) && rest <= t.Keys && rest != {}
    requires CopiedSoFar(m, m0, dst, t, t.Keys - rest)
    ensures var rel := First(rest); var o := CopyEntryOutcome(m, src, dst, rel);
      && rel in rest
      && CopyFrom(m, src, dst, rest) == (if o.err.Some? then o else CopyFrom(o.tree, src, dst, rest - {rel}))
      && (o.err.None? <==> CopyableAt(m0, dst, t, rel))
      && (o.err.None? ==> CopiedSoFar(o.tree, m0, dst, t, t.Keys - (rest - {rel})))
      && (o.err.Some? ==> PartialCopy(o.tree, m0, dst, t))
  {
    var rel := First(rest);
    var done := t.Keys - rest;
    if rel != [] {
      FirstAfterParent(rest, rel);
      assert Parent(rel) in t;
    }
    CopyStep(m0, src, dst, t, done, rel, m);
    assert t.Keys - (rest - {rel}) == done + {rel};
  }

  lemma CopiedPartial(r: Tree, m0: Tree, dst: Path, t: Tree, done: set<Path>)
    requires CopiedSoFar(r, m0, dst, t, done)
    ensures PartialCopy(r, m0, dst, t)
  {
    forall x | x in r && x !in m0 ensures dst <= x && x[|dst|..] in t && r[x] == t[x[|dst|..]] {
      assert x == dst + x[|dst|..];
    }
  }

  /** A finished copy is the source tree grafted at the target. */
  lemma CopiedAllIsGraft(m0: Tree, dst: Path, t: Tree, r: Tree)
    requires WellFormed(m0) && dst !in m0 && CopiedSoFar(r, m0, dst, t, t.Keys)
    ensures r == Graft(m0, dst, t)
  {
    var g := Graft(m0, dst, t);
    forall x | x in r ensures x in g && r[x] == g[x] {
      CopiedAt(m0, dst, t, r, x);
    }
    forall x | x in g ensures x in r {
      GraftKeys(m0, dst, t, x);
      if x !in m0 {
        assert x == dst + x[|dst|..];
      }
    }
  }

  lemma CopiedAt(m0: Tree, dst: Path, t: Tree, r: Tree, x: Path)
    requires WellFormed(m0) && dst !in m0 && CopiedSoFar(r, m0, dst, t, t.Keys) && x in r
    ensures x in Graft(m0, dst, t) && r[x] == Graft(m0, dst, t)[x]
  {
    if x in m0 {
      if dst <= x && x != dst {
        AncestorsPresent(m0, x, dst);
      }
    } else {
      assert x == dst + x[|dst|..];
    }
  }

  lemma CopiedAllPartial(m0: Tree, dst: Path, t: Tree, r: Tree)
    requires CopiedSoFar(r, m0, dst, t, t.Keys)
    ensures PartialCopy(r, m0, dst, t)
  {
    CopiedPartial(r, m0, dst, t, t.Keys);
  }

  /** copyDir of a source directory without its read bit fails: the walk cannot list it. */
  lemma CopyDirUnreadable(m0: Tree, src: Path, dst: Path)
    requires WellFormed(m0) && src in m0 && dst !in m0 && Parent(dst) in m0 && m0[Parent(dst)].Dir?
    requires m0[src].Dir? && !OwnerRead(m0[src].mode)
    ensures CopyDirOutcome(m0, src, dst).err.Some?
  {
    CopyDirSpec(m0, src, dst);
    assert [] in Subtree(m0, src) && !CopyableAt(m0, dst, Subtree(m0, src), []) by {
      assert src + [] == src;
    }
  }

  /**
   * copyDir to a fresh place beside an existing directory: it succeeds exactly when every
   * node of the source can be copied, and then the target holds a copy of the whole source
   * tree and nothing else changed; a failure leaves a partial copy.
   */
  lemma CopyDirSpec(m0: Tree, src: Path, dst: Path)
    requires WellFormed(m0) && src in m0 && dst !in m0 && Parent(dst) in m0 && m0[Parent(dst)].Dir?
    ensures var o := CopyDirOutcome(m0, src, dst);
      && (o.err.None? <==> !(src < dst) && CopyAllowed(m0, src, dst))
      && (o.err.None? ==> o.tree == Graft(m0, dst, Subtree(m0, src)))
      && PartialCopy(o.tree, m0, dst, Subtree(m0, src))
  {
    if !(src < dst) {
      CopyWalkSpec(m0, src, dst);
    }
  }

  /** The walk itself, over the source tree as it stands, for a target outside the source. */
  lemma CopyWalkSpec(m0: Tree, src: Path, dst: Path)
    requires WellFormed(m0) && src in m0 && dst !in m0 && Parent(dst) in m0 && m0[Parent(dst)].Dir?
    requires !(src < dst)
    ensures var o := CopyFrom(m0, src, dst, RelativeKeys(m0, src));
      && (o.err.None? <==> CopyAllowed(m0, src, dst))
      && (o.err.None? ==> o.tree == Graft(m0, dst, Subtree(m0, src)))
      && PartialCopy(o.tree, m0, dst, Subtree(m0, src))
  {
    var t := Subtree(m0, src);
    SubtreeClosed(m0, src);
    assert SourceTree(m0, src, t);
    assert RelativeKeys(m0, src) == t.Keys;
    assert t.Keys - t.Keys == {};
    CopyFromSpec(m0, src, dst, t, t.Keys, m0);
    var o := CopyFrom(m0, src, dst, t.Keys);
    if o.err.None? {
      CopiedAllIsGraft(m0, dst, t, o.tree);
      CopiedAllPartial(m0, dst, t, o.tree);
    }
  }


  /** A tree of one node grafted at a path is that node put there. */
  lemma GraftLeaf(m: Tree, dst: Path, n: Node)
    ensures Graft(m, dst, map[[] := n]) == m[dst := n]
  {
    var g := Graft(m, dst, map[[] := n]);
    forall x | x in g ensures x in m[dst := n] && g[x] == m[dst := n][x] {
      if dst <= x {
        GraftUnder(m, dst, map[[] := n], x);
        assert x == dst + x[|dst|..];
        if x[|dst|..] == [] {
          assert x == dst + [] == dst;
          assert g[dst + []] == n;
        }
      }
    }
    assert dst + [] == dst;
  }

  /** The copy step of copyThenDelete, by kind, to a fresh place: as copyDir for a
      directory, and for a file or a link, a copy of the one node. */
  lemma CopyByKindSpec(m0: Tree, src: Path, dst: Path)
    requires WellFormed(m0) && src in m0 && dst !in m0 && Parent(dst) in m0 && m0[Parent(dst)].Dir?
    ensures var o := CopyByKindOutcome(m0, src, dst);
      && (o.err.None? <==> !(src < dst) && CopyAllowed(m0, src, dst))
      && (o.err.None? ==> o.tree == Graft(m0, dst, Subtree(m0, src)))
      && PartialCopy(o.tree, m0, dst, Subtree(m0, src))
  {
    if m0[src].Dir? {
      CopyDirSpec(m0, src, dst);
    } else {
      LeafNotAbove(m0, src, dst);
      CopyLeafSpec(m0, src, dst);
    }
  }


  /** A file or a link is copied by one create, which is the whole copy. */
  lemma CopyLeafSpec(m0: Tree, src: Path, dst: Path)
    requires WellFormed(m0) && src in m0 && !m0[src].Dir?
    requires dst !in m0 && Parent(dst) in m0 && m0[Parent(dst)].Dir?
    ensures var o := CopyByKindOutcome(m0, src, dst);
      && (o.err.None? <==> CopyAllowed(m0, src, dst))
      && (o.err.None? ==> o.tree == Graft(m0, dst, Subtree(m0, src)))
      && PartialCopy(o.tree, m0, dst, Subtree(m0, src))
  {
    var n := m0[src];
    LeafSubtree(m0, src);
    var t := Subtree(m0, src);
    assert t == map[[] := n];
    CopyLeafOutcome(m0, src, dst);
    LeafAllowed(m0, src, dst);
    var o := CopyByKindOutcome(m0, src, dst);
    if o.err.None? {
      GraftLeaf(m0, dst, n);
      PartialCopyLeaf(m0, dst, n);
    } else {
      PartialCopyNone(m0, dst, t);
    }
  }

  /** The one create of a leaf copy: it succeeds when a file is readable and the parent of
      the target writable, and then it adds the node and nothing else. */
  lemma CopyLeafOutcome(m0: Tree, src: Path, dst: Path)
    requires src in m0 && !m0[src].Dir? && dst !in m0 && dst != [] && Parent(dst) in m0 && m0[Parent(dst)].Dir?
    ensures var o := CopyByKindOutcome(m0, src, dst);
      && (o.err.None? <==> (m0[src].File? ==> OwnerRead(m0[src].mode)) && Writable(m0[Parent(dst)]))
      && (o.err.None? ==> o.tree == m0[dst := m0[src]])
      && (o.err.Some? ==> o.tree == m0)
  {
  }

  lemma LeafAllowed(m0: Tree, src: Path, dst: Path)
    requires src in m0 && Subtree(m0, src) == map[[] := m0[src]]
    ensures CopyAllowed(m0, src, dst) <==>
      (!m0[src].Symlink? ==> OwnerRead(m0[src].mode)) && Parent(dst) in m0 && Writable(m0[Parent(dst)])
  {
    assert [] in Subtree(m0, src);
  }

  lemma PartialCopyLeaf(m0: Tree, dst: Path, n: Node)
    requires dst !in m0
    ensures PartialCopy(m0[dst := n], m0, dst, map[[] := n])
  {
    assert dst[|dst|..] == [];
  }

  lemma PartialCopyNone(m0: Tree, dst: Path, t: Tree)
    ensures PartialCopy(m0, m0, dst, t)
  {
  }

  /** A path that is neither above nor below `dst`'s subtree sits where a partial copy to
      `dst` leaves the disk alone. */
  lemma PartialCopyAway(r: Tree, m0: Tree, dst: Path, t: Tree, x: Path)
    requires PartialCopy(r, m0, dst, t) && !(dst <= x)
    ensures x in r <==> x in m0
    ensures x in m0 ==> r[x] == m0[x]
  {
  }

  /** A partial copy to a place away from the source leaves the source's tree as it was. */
  lemma PartialCopyKeepsSource(r: Tree, m0: Tree, mounts: set<Path>, src: Path, dst: Path, t: Tree)
    requires PartialCopy(r, m0, dst, t) && !(src <= dst) && !(dst <= src)
    ensures Subtree(r, src) == Subtree(m0, src)
    ensures Deletable(r, mounts, src) <==> Deletable(m0, mounts, src)
  {
    forall x | src <= x ensures (x in r <==> x in m0) && (x in m0 ==> r[x] == m0[x]) {
      if dst <= x {
        PrefixesComparable(src, dst, x);
      }
      PartialCopyAway(r, m0, dst, t, x);
    }
    forall rel | src + rel in r || src + rel in m0
      ensures (src + rel in r <==> src + rel in m0) && (src + rel in m0 ==> r[src + rel] == m0[src + rel])
    {
      assert src <= src + rel;
    }
    if dst <= Parent(src) {
      PrefixOfParent(dst, src);
    }
    PartialCopyAway(r, m0, dst, t, Parent(src));
    DeletableLocal(r, m0, mounts, src);
  }

  /** Removing the source does not touch a copy placed away from it. */
  lemma RemoveAllAway(m: Tree, mounts: set<Path>, src: Path, dst: Path)
    requires !(src <= dst) && !(dst <= src)
    ensures Subtree(RemoveAllOutcome(m, mounts, src).tree, dst) == Subtree(m, dst)
  {
    var r := RemoveAllOutcome(m, mounts, src).tree;
    forall rel | dst + rel in m ensures dst + rel in r {
      if src <= dst + rel {
        PrefixesComparable(src, dst, dst + rel);
      }
    }
  }

  /** Nothing can be placed below a file or a link. */
  lemma LeafNotAbove(m: Tree, src: Path, dst: Path)
    requires WellFormed(m) && src in m && !m[src].Dir? && Parent(dst) in m && m[Parent(dst)].Dir?
    ensures !(src < dst)
  {
    if src < dst {
      assert src <= Parent(dst);
      if src != Parent(dst) {
        AncestorsPresent(m, Parent(dst), src);
      }
    }
  }

  /** In a well-formed disk, a path that is not there has nothing of the disk below it. */
  lemma AbsentNotAbove(m: Tree, dst: Path, src: Path)
    requires WellFormed(m) && src in m && dst !in m
    ensures !(dst <= src)
  {
    if dst <= src && dst != src {
      AncestorsPresent(m, src, dst);
    }
  }

  /**
   * copyThenDelete to a fresh place beside an existing directory, away from the source: it
   * succeeds exactly when the whole source can be copied and then removed, and then the
   * object has moved there as a rename would have moved it. When it fails, nothing is lost:
   * either the source is still whole, or the copy at the target is complete.
   */
  lemma CopyThenDeleteSpec(m0: Tree, mounts: set<Path>, src: Path, dst: Path)
    requires WellFormed(m0) && src in m0 && dst !in m0 && Parent(dst) in m0 && m0[Parent(dst)].Dir?
    requires !(src <= dst)
    ensures var o := CopyThenDeleteOutcome(m0, mounts, src, dst);
      && (o.err.None? <==> CopyAllowed(m0, src, dst) && Deletable(m0, mounts, src))
      && (o.err.None? ==> o.tree == Relocate(m0, src, dst))
      && (o.err.Some? ==> Subtree(o.tree, src) == Subtree(m0, src) || Subtree(o.tree, dst) == Subtree(m0, src))
  {
    var t := Subtree(m0, src);
    AbsentNotAbove(m0, dst, src);
    CopyByKindSpec(m0, src, dst);
    var c := CopyByKindOutcome(m0, src, dst);
    PartialCopyKeepsSource(c.tree, m0, mounts, src, dst, t);
    if c.err.None? {
      var g := c.tree;
      GraftWellFormed(m0, src, dst);
      var o := RemoveAllOutcome(g, mounts, src);
      if o.err.None? {
        RemoveAllClears(g, mounts, src);
        GraftAwayCommutes(m0, src, dst, t);
        RelocateFresh(m0, src, dst);
      } else {
        RemoveAllAway(g, mounts, src, dst);
        GraftFreshSubtree(m0, dst, t);
      }
    }
  }

  /** What rename(2) needs, beyond the lookups, to move `src` to a free place: both parent
      directories writable, a directory that changes parent writable itself, and `src` not
      a mount point. */
  predicate RenameAllowed(m: Tree, mounts: set<Path>, src: Path, dst: Path) {
    && src !in mounts
    && Parent(src) in m && Writable(m[Parent(src)])
    && Parent(dst) in m && Writable(m[Parent(dst)])
    && (src in m && m[src].Dir? && Parent(src) != Parent(dst) ==> OwnerWrite(m[src].mode))
  }

  /**
   * moveItem to a fresh place beside an existing directory, away from the source. On one
   * filesystem it is a rename, which succeeds exactly when the permissions allow it and
   * otherwise changes nothing; across filesystems it is copyThenDelete. A success always
   * leaves the object moved, and a failure never loses it.
   */
  lemma MoveItemSpec(m: Tree, mounts: set<Path>, src: Path, dst: Path)
    requires WellFormed(m) && src in m && src != [] && dst !in m && Parent(dst) in m && m[Parent(dst)].Dir?
    requires !(src <= dst)
    ensures var o := MoveItemOutcome(m, mounts, src, dst);
      && (o.err.None? <==>
          if SameMount(mounts, Parent(src), Parent(dst)) then RenameAllowed(m, mounts, src, dst)
          else CopyAllowed(m, src, dst) && Deletable(m, mounts, src))
      && (o.err.None? ==> o.tree == Relocate(m, src, dst))
      && (SameMount(mounts, Parent(src), Parent(dst)) && o.err.Some? ==> o.tree == m)
      && (o.err.Some? ==> Subtree(o.tree, src) == Subtree(m, src) || Subtree(o.tree, dst) == Subtree(m, src))
  {
    AbsentNotAbove(m, dst, src);
    assert [] in m && dst != [];
    assert Parent(src) in m;
    if !SameMount(mounts, Parent(src), Parent(dst)) {
      CopyThenDeleteSpec(m, mounts, src, dst);
    }
  }

  /**
   * A mount point moved to another filesystem: the copy completes, then removing the
   * source stops at the mount point with EBUSY. The move fails, the mount point stays,
   * and a whole copy of it is left behind at the target.
   */
  lemma MoveMountPointAcross(m: Tree, mounts: set<Path>, src: Path, dst: Path)
    requires WellFormed(m) && src in m && src != [] && dst !in m && Parent(dst) in m && m[Parent(dst)].Dir?
    requires !(src <= dst) && !SameMount(mounts, Parent(src), Parent(dst))
    requires src in mounts && CopyAllowed(m, src, dst)
    ensures var o := MoveItemOutcome(m, mounts, src, dst);
      && o.err.Some? && src in o.tree
      && Subtree(o.tree, dst) == Subtree(m, src)
  {
    assert [] in m && dst != [] && Parent(src) in m;
    assert RenameError(m, mounts, src, dst) == Some(EXDEV);
    CopyThenDeleteMountPoint(m, mounts, src, dst);
  }

  /** copyThenDelete of a mount point: the whole copy is made, and the removal of the
      source then fails, leaving the mount point. */
  lemma CopyThenDeleteMountPoint(m: Tree, mounts: set<Path>, src: Path, dst: Path)
    requires WellFormed(m) && src in m && dst !in m && Parent(dst) in m && m[Parent(dst)].Dir?
    requires !(src <= dst) && src in mounts && CopyAllowed(m, src, dst)
    ensures var o := CopyThenDeleteOutcome(m, mounts, src, dst);
      && o.err.Some? && src in o.tree
      && Subtree(o.tree, dst) == Subtree(m, src)
  {
    AbsentNotAbove(m, dst, src);
    var t := Subtree(m, src);
    CopyByKindSpec(m, src, dst);
    var g := CopyByKindOutcome(m, src, dst).tree;
    PartialCopyKeepsSource(g, m, mounts, src, dst, t);
    assert src + [] == src && [] in t;
    RemoveAllAway(g, mounts, src, dst);
    GraftFreshSubtree(m, dst, t);
  }

  /** Moving an object into its own subtree fails and changes nothing: on one filesystem
      rename refuses it, and across two the copy's walk enters its own copy. */
  lemma MoveItemIntoItself(m: Tree, mounts: set<Path>, src: Path, dst: Path)
    requires WellFormed(m) && src in m && src < dst
    ensures MoveItemOutcome(m, mounts, src, dst).tree == m
    ensures MoveItemOutcome(m, mounts, src, dst).err.Some?
  {
    if RenameError(m, mounts, src, dst) == Some(EXDEV) {
      assert Parent(dst) in m && m[Parent(dst)].Dir?;
      if !m[src].Dir? {
        LeafNotAbove(m, src, dst);
      }
    }
  }

  /** A directory at the target is never copied into or merged with: moveItem fails with
      EEXIST, across filesystems too, and changes nothing. */
  lemma MoveItemOntoDirectory(m: Tree, mounts: set<Path>, src: Path, dst: Path)
    requires src in m && dst in m && m[dst].Dir?
    ensures MoveItemOutcome(m, mounts, src, dst) == Outcome(m, Some(EEXIST))
  {
    RenameOntoDirectory(m, mounts, src, dst);
  }

  /** Restoring onto a directory, even an empty one, fails at the move and leaves the disk as
      it was: the parents are already there, and the rename is refused. */
  lemma RestoreOntoDirectory(m: Tree, mounts: set<Path>, src: Path, dest: Path)
    requires WellFormed(m) && src in m && dest in m && m[dest].Dir?
    ensures RestoreAt(m, mounts, src, dest) == (m, Some(Failed(EEXIST)))
  {
    if dest != [] {
      AncestorsPresent(m, dest, Parent(dest));
    }
    assert MkdirAllOutcome(m, Parent(dest), DirMode) == Outcome(m, None);
    MoveItemOntoDirectory(m, mounts, src, dest);
  }

  // ---------------------------------------------------------------------------
  // Sizes

  /** The size of a tree does not depend on the walk order: any entry may be counted first. */
  lemma {:induction false} SizeFromAny(t: Tree, rest: set<Path>, x: Path)
    requires rest <= t.Keys && x in rest
    ensures SizeFrom(t, rest) == Contribution(t, x) + SizeFrom(t, rest - {x})
    decreases rest
  {
    var f := First(rest);
    if f != x {
      var others := rest - {x};
      SizeFromAny(t, rest - {f}, x);
      assert IsFirst(f, others);
      FirstUnique(f, First(others), others);
      assert rest - {f} - {x} == others - {f};
    }
  }

  /** A file or a link alone counts its own size. */
  lemma TreeSizeLeaf(n: Node)
    ensures TreeSize(map[[] := n]) == if n.Dir? then 0 else Size(n)
  {
    var t := map[[] := n];
    SizeFromAny(t, t.Keys, []);
    assert t.Keys - {[]} == {};
    assert SizeFrom(t, {}) == 0;
  }

  /** A directory that cannot be listed counts for nothing, whatever it holds: the walk
      stops at its top. */
  lemma TreeSizeUnlisted(t: Tree)
    requires [] in t && t[[]].Dir? && !OwnerRead(t[[]].mode)
    ensures TreeSize(t) == 0
  {
    SizeFromUnlisted(t, t.Keys);
  }

  lemma {:induction false} SizeFromUnlisted(t: Tree, rest: set<Path>)
    requires rest <= t.Keys && [] in t && t[[]].Dir? && !OwnerRead(t[[]].mode)
    ensures SizeFrom(t, rest) == 0
    decreases rest
  {
    if rest != {} {
      var p := First(rest);
      if p != [] {
        assert [] < p && !Listable(t[[]]);
      }
      SizeFromUnlisted(t, rest - {p});
    }
  }

  // ---------------------------------------------------------------------------
  // Names in the bin

  /** The bin name of a clean path other than the root is one clean path element: the id, a
      hyphen, and the path's last component. */
  lemma BinNameClean(random: seq<Byte>, abs: Path)
    requires |random| == 16 && IsClean(abs) && abs != []
    ensures BinName(Uuid.NewID(random), abs) == Uuid.NewID(random) + "-" + abs[|abs| - 1]
    ensures IsCleanName(BinName(Uuid.NewID(random), abs))
  {
    var id := Uuid.NewID(random);
    Uuid.NewIdShape(random);
    BaseOfRender(abs);
    assert IsCleanName(abs[|abs| - 1]);
    var name := BinName(id, abs);
    NewIdNoSlash(random);
    assert |name| > 36;
  }

  lemma NewIdNoSlash(random: seq<Byte>)
    requires |random| == 16
    ensures '/' !in Uuid.NewID(random)
  {
    var id := Uuid.NewID(random);
    Uuid.NewIdShape(random);
    forall i | 0 <= i < |id| ensures id[i] != '/' {
      if !Uuid.IsHyphenPosition(i) {
        assert Uuid.IsHexDigit(id[i]);
      }
    }
  }

  /** Objects tossed under different ids get different names in the bin, whatever their
      paths: the id fills the first 36 characters of the name. */
  lemma BinNamesDistinct(r1: seq<Byte>, a1: Path, r2: seq<Byte>, a2: Path)
    requires |r1| == 16 && |r2| == 16 && Uuid.NewID(r1) != Uuid.NewID(r2)
    ensures BinName(Uuid.NewID(r1), a1) != BinName(Uuid.NewID(r2), a2)
  {
    Uuid.NewIdShape(r1);
    Uuid.NewIdShape(r2);
    var n1 := BinName(Uuid.NewID(r1), a1);
    var n2 := BinName(Uuid.NewID(r2), a2);
    assert n1[..36] == Uuid.NewID(r1);
    assert n2[..36] == Uuid.NewID(r2);
  }

  // ---------------------------------------------------------------------------
  // Move and Restore

  /** A prefix of `dir + [name]` is a prefix of `dir` or the whole path. */
  lemma PrefixOfChild(a: Path, dir: Path, name: string)
    requires a <= dir + [name]
    ensures a <= dir || a == dir + [name]
  {
    if |a| <= |dir| {
      assert a == (dir + [name])[..|a|] == dir[..|a|];
    }
  }

  /** The setting in which Move is studied: the bin directory exists, the argument resolves
      to an object that is not the bin or one of its ancestors, and the name drawn for it is
      free in the bin. */
  ghost predicate MoveSetting(m: Tree, arg: string, binDir: Path, cwd: Option<Path>, random: seq<Byte>, abs: Path) {
    && WellFormed(m) && binDir in m && m[binDir].Dir?
    && (cwd.Some? ==> IsClean(cwd.value))
    && Abs(cwd, arg) == Some(abs) && abs in m && !(abs <= binDir)
    && |random| == 16
    && binDir + [BinName(Uuid.NewID(random), abs)] !in m
  }

  /** Where Move puts the object. */
  function BinPath(binDir: Path, random: seq<Byte>, abs: Path): Path
    requires |random| == 16
  {
    binDir + [BinName(Uuid.NewID(random), abs)]
  }

  lemma MoveSettingFacts(m: Tree, arg: string, binDir: Path, cwd: Option<Path>, random: seq<Byte>, abs: Path)
    requires MoveSetting(m, arg, binDir, cwd, random, abs)
    ensures var dest := BinPath(binDir, random, abs);
      && IsClean(abs) && abs != [] && dest != [] && Parent(dest) == binDir
      && JoinName(binDir, BinName(Uuid.NewID(random), abs)) == dest
      && !(abs <= dest) && !(dest <= abs) && abs != dest
      && IsCleanName(BinName(Uuid.NewID(random), abs))
  {
    var name := BinName(Uuid.NewID(random), abs);
    var dest := binDir + [name];
    BinNameClean(random, abs);
    JoinCleanName(binDir, name);
    assert dest[..|dest| - 1] == binDir;
    if abs <= dest {
      PrefixOfChild(abs, binDir, name);
    }
    AbsentNotAbove(m, dest, abs);
  }

  /**
   * Move of an object into an existing bin under a free name: it succeeds exactly when
   * moveItem can move the object there (a permitted rename on one filesystem, a permitted
   * copy and removal across filesystems). The object then sits in the bin as it was, and
   * the entry records its id, its path, its bin name, the time, its kind, and its size
   * before the move. A failure never loses the object.
   */
  lemma MoveSpec(m: Tree, mounts: set<Path>, arg: string, binDir: Path, cwd: Option<Path>,
                 random: seq<Byte>, now: int, abs: Path)
    requires MoveSetting(m, arg, binDir, cwd, random, abs)
    ensures var dest := BinPath(binDir, random, abs);
      var o := MoveOutcome(m, mounts, arg, binDir, cwd, random, now);
      && (o.1.Ok? <==>
          if SameMount(mounts, Parent(abs), binDir) then RenameAllowed(m, mounts, abs, dest)
          else CopyAllowed(m, abs, dest) && Deletable(m, mounts, abs))
      && (o.1.Ok? ==> o.0 == Relocate(m, abs, dest))
      && (o.1.Ok? ==> o.1.value == Ledger.Entry(Uuid.NewID(random), Render(abs),
                                                BinName(Uuid.NewID(random), abs), now, m[abs].Dir?,
                                                if m[abs].Dir? then TreeSize(Subtree(m, abs)) else Size(m[abs])))
      && (o.1.Err? ==> o.1.error.Failed?)
      && (o.1.Err? ==> Subtree(o.0, abs) == Subtree(m, abs) || Subtree(o.0, dest) == Subtree(m, abs))
  {
    var dest := BinPath(binDir, random, abs);
    MoveSettingFacts(m, arg, binDir, cwd, random, abs);
    assert MkdirAllOutcome(m, binDir, DirMode) == Outcome(m, None);
    MoveItemSpec(m, mounts, abs, dest);
    RelocateSubtree(m, abs, dest);
  }

  /** A source that is not there: Move fails before touching it, and all it may have done
      is create the missing directories on the way to the bin. */
  lemma MoveMissingSource(m: Tree, mounts: set<Path>, arg: string, binDir: Path, cwd: Option<Path>,
                          random: seq<Byte>, now: int, abs: Path)
    requires WellFormed(m) && |random| == 16
    requires Abs(cwd, arg) == Some(abs) && abs !in m && !(abs <= binDir)
    ensures var o := MoveOutcome(m, mounts, arg, binDir, cwd, random, now);
      && o.1.Err? && (o.1.error.CannotStat? || o.1.error.CreatingBinDir?)
      && (forall q :: q in m ==> q in o.0 && o.0[q] == m[q])
      && (forall q :: q in o.0 && q !in m ==> q <= binDir)
  {
    MkdirAllSpec(m, binDir, DirMode);
  }

  /** What a successful Move leaves: the disk with the object in the bin. */
  lemma MovedDisk(m: Tree, mounts: set<Path>, arg: string, binDir: Path, cwd: Option<Path>,
                  random: seq<Byte>, now: int, abs: Path)
    requires MoveSetting(m, arg, binDir, cwd, random, abs)
    requires MoveOutcome(m, mounts, arg, binDir, cwd, random, now).1.Ok?
    ensures var dest := BinPath(binDir, random, abs);
      var m1 := MoveOutcome(m, mounts, arg, binDir, cwd, random, now).0;
      && m1 == Relocate(m, abs, dest) && WellFormed(m1)
      && dest in m1 && m1[dest] == m[abs] && abs !in m1
      && Parent(abs) in m1 && m1[Parent(abs)] == m[Parent(abs)] && m1[Parent(abs)].Dir?
      && binDir in m1 && m1[binDir] == m[binDir]
      && (SameMount(mounts, Parent(abs), binDir) ==> RenameAllowed(m, mounts, abs, dest))
  {
    var dest := BinPath(binDir, random, abs);
    MoveSettingFacts(m, arg, binDir, cwd, random, abs);
    MoveSpec(m, mounts, arg, binDir, cwd, random, now, abs);
    RelocatedIntoBin(m, abs, dest, binDir);
  }

  /** The disk after an object is renamed into the bin. */
  lemma RelocatedIntoBin(m: Tree, abs: Path, dest: Path, binDir: Path)
    requires WellFormed(m) && abs in m && abs != [] && dest !in m && dest != []
    requires Parent(dest) == binDir && binDir in m && m[binDir].Dir?
    requires !(abs <= dest) && !(dest <= abs) && !(abs <= binDir)
    ensures var m1 := Relocate(m, abs, dest);
      && WellFormed(m1)
      && dest in m1 && m1[dest] == m[abs] && abs !in m1
      && Parent(abs) in m1 && m1[Parent(abs)] == m[Parent(abs)] && m1[Parent(abs)].Dir?
      && binDir in m1 && m1[binDir] == m[binDir]
  {
    var m1 := Relocate(m, abs, dest);
    RelocateWellFormed(m, abs, dest);
    RelocateSubtree(m, abs, dest);
    assert abs + [] == abs && dest + [] == dest;
    assert [] in Subtree(m, abs);
    RelocateFresh(m, abs, dest);
    if abs in m1 {
      GraftKeys(Without(m, abs), dest, Subtree(m, abs), abs);
    }
    assert Parent(abs) in m && m[Parent(abs)].Dir?;
    if dest <= Parent(abs) {
      PrefixOfParent(dest, abs);
    }
    RelocateOutside(m, abs, dest, Parent(abs));
    RelocateOutside(m, abs, dest, binDir);
  }

  /**
   * Restoring the entry a Move just wrote, read back from the ledger, undoes the Move: when
   * it succeeds the disk is exactly as before the Move, whatever the working directory is
   * then. On one filesystem it always succeeds, since the rename back needs the same
   * permissions as the rename in.
   */
  lemma MoveRestoreRoundTrip(m: Tree, mounts: set<Path>, arg: string, binDir: Path, cwd: Option<Path>,
                             random: seq<Byte>, now: int, abs: Path, cwd2: Path)
    requires MoveSetting(m, arg, binDir, cwd, random, abs) && MountsOnDisk(m, mounts)
    requires MoveOutcome(m, mounts, arg, binDir, cwd, random, now).1.Ok?
    ensures var moved := MoveOutcome(m, mounts, arg, binDir, cwd, random, now);
      var back := RestoreOutcome(moved.0, mounts, Ledger.Stored(moved.1.value), binDir, cwd2);
      && (back.1.None? ==> back.0 == m)
      && (SameMount(mounts, Parent(abs), binDir) ==> back.1.None?)
  {
    var dest := BinPath(binDir, random, abs);
    var name := BinName(Uuid.NewID(random), abs);
    MoveSettingFacts(m, arg, binDir, cwd, random, abs);
    MoveSpec(m, mounts, arg, binDir, cwd, random, now, abs);
    MovedDisk(m, mounts, arg, binDir, cwd, random, now, abs);
    var moved := MoveOutcome(m, mounts, arg, binDir, cwd, random, now);
    var m1 := moved.0;
    var e := Ledger.Stored(moved.1.value);
    BaseOfElement(name);
    assert e.binName == name && e.originalPath == Render(abs);
    RenderRoundTrip(Some(cwd2), abs);
    assert MkdirAllOutcome(m1, Parent(abs), DirMode) == Outcome(m1, None);
    MoveItemSpec(m1, mounts, dest, abs);
    RelocateBack(m, abs, dest);
    if SameMount(mounts, Parent(abs), binDir) {
      assert SameMount(mounts, Parent(dest), Parent(abs));
      assert dest !in mounts;
      assert RenameAllowed(m1, mounts, dest, abs);
    }
  }

  /** MkdirAll on the way to `p` leaves alone the tree of any path that is not on that way. */
  lemma MkdirAllAway(m: Tree, p: Path, mode: nat, src: Path)
    requires WellFormed(m) && src in m && !(src <= p)
    ensures Subtree(MkdirAllOutcome(m, p, mode).tree, src) == Subtree(m, src)
  {
    MkdirAllSpec(m, p, mode);
    var r := MkdirAllOutcome(m, p, mode).tree;
    forall q | q in r && q !in m ensures !(src <= q) {
      assert q <= p;
    }
    SubtreeKept(m, r, src);
  }

  /** A tree that keeps every node of `m` and adds none under `src` has the same subtree
      at `src`. */
  lemma SubtreeKept(m: Tree, r: Tree, src: Path)
    requires forall q :: q in m ==> q in r && r[q] == m[q]
    requires forall q :: q in r && q !in m ==> !(src <= q)
    ensures Subtree(r, src) == Subtree(m, src)
  {
    forall rel | src + rel in r ensures src + rel in m {
      assert src <= src + rel;
    }
  }

  /** A rename of `src` to a free `dest` seen from a disk `m` that the rename's disk `m1`
      extends by directories above `dest`. */
  lemma RelocatedFrom(m: Tree, m1: Tree, src: Path, dest: Path)
    requires WellFormed(m1) && src in m1 && dest !in m1 && dest !in m && !(src <= dest)
    requires WellFormed(m) && forall q :: q in m ==> q in m1 && m1[q] == m[q]
    requires forall q :: q in m1 && q !in m ==> q < dest && m1[q] == Dir(DirMode)
    ensures var r := Relocate(m1, src, dest);
      && src !in r
      && (forall q :: q in m && !(src <= q) ==> q in r && r[q] == m[q])
      && (forall q :: q in r && q !in m ==> dest <= q || (q < dest && r[q] == Dir(DirMode)))
  {
    var r := Relocate(m1, src, dest);
    var t := Subtree(m1, src);
    AbsentNotAbove(m1, dest, src);
    RelocateFresh(m1, src, dest);
    if src in r {
      GraftKeys(Without(m1, src), dest, t, src);
    }
    forall q | q in m && !(src <= q) ensures q in r && r[q] == m[q] {
      if dest <= q && q != dest {
        AncestorsPresent(m, q, dest);
      }
      RelocateOutside(m1, src, dest, q);
    }
    forall q | q in r && q !in m ensures dest <= q || (q < dest && r[q] == Dir(DirMode)) {
      if !(dest <= q) {
        GraftKeys(Without(m1, src), dest, t, q);
      }
    }
  }

  /**
   * Restore of an object that is in the bin at `src`, to a free original path `dest` away
   * from it: on success the object sits at its original path as it was in the bin, the bin
   * no longer holds it, every other path is as it was, and the only paths added are the
   * object's and the parents recreated for it, with mode 0o755. A failure never loses the
   * object.
   */
  lemma RestoreSpec(m: Tree, mounts: set<Path>, src: Path, dest: Path)
    requires WellFormed(m) && src in m && src != [] && dest !in m && !(src <= dest)
    ensures var o := RestoreAt(m, mounts, src, dest);
      && (o.1.None? ==> dest in o.0 && Subtree(o.0, dest) == Subtree(m, src) && src !in o.0)
      && (o.1.None? ==> forall q :: q in m && !(src <= q) ==> q in o.0 && o.0[q] == m[q])
      && (o.1.None? ==> forall q :: q in o.0 && q !in m ==> dest <= q || (q < dest && o.0[q] == Dir(DirMode)))
      && (o.1.Some? ==> Subtree(o.0, src) == Subtree(m, src) || Subtree(o.0, dest) == Subtree(m, src))
  {
    assert [] in m && dest != [];
    MkdirAllSpec(m, Parent(dest), DirMode);
    var made := MkdirAllOutcome(m, Parent(dest), DirMode);
    if src <= Parent(dest) {
      PrefixOfParent(src, dest);
    }
    MkdirAllAway(m, Parent(dest), DirMode, src);
    if made.err.None? {
      RestoreMoves(m, made.tree, mounts, src, dest);
    }
  }

  lemma RestoreMoves(m: Tree, m1: Tree, mounts: set<Path>, src: Path, dest: Path)
    requires WellFormed(m) && src in m && src != [] && dest !in m && !(src <= dest)
    requires MkdirAllOutcome(m, Parent(dest), DirMode) == Outcome(m1, None)
    requires Subtree(m1, src) == Subtree(m, src)
    ensures var o := MoveItemOutcome(m1, mounts, src, dest);
      && (o.err.None? ==> dest in o.tree && Subtree(o.tree, dest) == Subtree(m, src) && src !in o.tree)
      && (o.err.None? ==> forall q :: q in m && !(src <= q) ==> q in o.tree && o.tree[q] == m[q])
      && (o.err.None? ==> forall q :: q in o.tree && q !in m ==> dest <= q || (q < dest && o.tree[q] == Dir(DirMode)))
      && (o.err.Some? ==> Subtree(o.tree, src) == Subtree(m, src) || Subtree(o.tree, dest) == Subtree(m, src))
  {
    assert [] in m && dest != [];
    MkdirAllSpec(m, Parent(dest), DirMode);
    assert dest !in m1;
    MoveItemSpec(m1, mounts, src, dest);
    if MoveItemOutcome(m1, mounts, src, dest).err.None? {
      RelocateSubtree(m1, src, dest);
      assert src + [] == src && dest + [] == dest;
      assert [] in Subtree(m1, src);
      forall q | q in m1 && q !in m ensures q < dest && m1[q] == Dir(DirMode) {
        assert q <= Parent(dest);
      }
      RelocatedFrom(m, m1, src, dest);
    }
  }

  // ---------------------------------------------------------------------------
  // Empty

  /**
   * Empty: when it succeeds the bin is an empty directory with mode 0o755, everything
   * outside the bin is as it was, and the only paths added are the bin and its missing
   * ancestors. When removing the contents fails, only paths inside the bin have gone.
   */
  lemma EmptySpec(m: Tree, mounts: set<Path>, binDir: Path)
    requires WellFormed(m)
    ensures var o := EmptyOutcome(m, mounts, binDir);
      && (o.1.None? ==> binDir in o.0 && o.0[binDir] == Dir(DirMode))
      && (o.1.None? ==> forall q :: q in o.0 ==> !(binDir < q))
      && (o.1.None? ==> forall q :: q in m && !(binDir <= q) ==> q in o.0 && o.0[q] == m[q])
      && (o.1.None? ==> forall q :: q in o.0 && q !in m ==> q <= binDir)
      && (o.1.Some? && o.1.value.RemovingContents? ==>
            && (forall q :: q in o.0 ==> q in m && o.0[q] == m[q])
            && (forall q :: q in m && !(binDir <= q) ==> q in o.0))
  {
    var removed := RemoveAllOutcome(m, mounts, binDir);
    if removed.err.None? {
      RemoveAllClears(m, mounts, binDir);
      RemoveAllWellFormed(m, mounts, binDir);
      MkdirAllSpec(removed.tree, binDir, DirMode);
    }
  }

  /** The disk left by a successful Empty holds the bin, with nothing in it, under a
      writable parent. */
  lemma EmptiedBin(m: Tree, mounts: set<Path>, binDir: Path)
    requires WellFormed(m) && EmptyOutcome(m, mounts, binDir).1.None?
    ensures var t := EmptyOutcome(m, mounts, binDir).0;
      && WellFormed(t) && binDir != [] && binDir in t && t[binDir] == Dir(DirMode)
      && Parent(binDir) in t && Writable(t[Parent(binDir)])
      && (forall q :: q in t && binDir <= q ==> q == binDir)
  {
    var removed := RemoveAllOutcome(m, mounts, binDir);
    assert [] in m && !Removable(m, mounts, []);
    RemoveAllClears(m, mounts, binDir);
    RemoveAllWellFormed(m, mounts, binDir);
    MkdirAllSpec(removed.tree, binDir, DirMode);
    EmptySpec(m, mounts, binDir);
  }

  /** Emptying an empty bin succeeds and changes nothing. */
  lemma EmptyIdempotent(m: Tree, mounts: set<Path>, binDir: Path)
    requires WellFormed(m) && MountsOnDisk(m, mounts) && EmptyOutcome(m, mounts, binDir).1.None?
    ensures var t := EmptyOutcome(m, mounts, binDir).0;
      EmptyOutcome(t, mounts, binDir) == (t, None)
  {
    EmptiedBin(m, mounts, binDir);
    assert binDir !in mounts;
    EmptyOfEmptied(EmptyOutcome(m, mounts, binDir).0, mounts, binDir);
  }

  /** Empty on a disk whose bin is an empty 0755 directory in a writable directory. */
  lemma EmptyOfEmptied(t: Tree, mounts: set<Path>, binDir: Path)
    requires WellFormed(t) && binDir != [] && binDir in t && t[binDir] == Dir(DirMode)
    requires Parent(binDir) in t && Writable(t[Parent(binDir)])
    requires forall q :: q in t && binDir <= q ==> q == binDir
    requires binDir !in mounts
    ensures EmptyOutcome(t, mounts, binDir) == (t, None)
  {
    RemoveAllLone(t, mounts, binDir);
    var w := Without(t, binDir);
    assert !(binDir <= Parent(binDir));
    MkdirAllOne(w, binDir, DirMode);
    assert w[binDir := Dir(DirMode)] == t;
  }
}
