/**
 * The part of a Unix filesystem the mover reaches through the syscalls it makes: lstat,
 * rename, mkdir, symlink, open/creat and unlink/rmdir (the last through `os.RemoveAll`).
 *
 * The disk is a map from clean absolute paths to nodes. The process is taken to own every
 * node and to run without privileges, so the owner permission bits of a mode decide what it
 * may do: the write bit of a directory to add or remove entries, the read bit of a file to
 * open it for reading, the write bit of a file to open it for writing.
 */
module Fs {
  import opened Wrappers
  import opened Paths

  type Byte = bv8

  /** What a directory entry names: a regular file with its bytes and permission bits, a
      directory with its permission bits, or a symbolic link with its literal target text. */
  datatype Node =
    | File(data: seq<Byte>, mode: nat)
    | Dir(mode: nat)
    | Symlink(target: string)

  /** The errno values the syscalls report. */
  datatype Errno = ENOENT | ENOTDIR | EISDIR | EEXIST | ENOTEMPTY | EACCES | EXDEV | EINVAL | EBUSY | ENAMETOOLONG

  type Tree = map<Path, Node>

  /** The disk after an operation and the error it reported, if any. */
  datatype Outcome = Outcome(tree: Tree, err: Option<Errno>)

  /** The owner write bit, 0o200. */
  predicate OwnerWrite(mode: nat) {
    (mode / 0x80) % 2 == 1
  }

  /** The owner read bit, 0o400. */
  predicate OwnerRead(mode: nat) {
    (mode / 0x100) % 2 == 1
  }

  /** A directory the process may add entries to and remove entries from. */
  predicate Writable(n: Node) {
    n.Dir? && OwnerWrite(n.mode)
  }

  /** The size `lstat` reports for a file or a link: its byte count, the length of its target. */
  function Size(n: Node): (s: nat)
    requires !n.Dir?
    ensures n.File? ==> s == |n.data|
    ensures n.Symlink? ==> s == |n.target|
  {
    if n.File? then |n.data| else |n.target|
  }

  /** The root is a directory, and every other node sits in a directory. */
  ghost predicate WellFormed(m: Tree) {
    && [] in m && m[[]].Dir?
    && forall p :: p in m && p != [] ==> Parent(p) in m && m[Parent(p)].Dir?
  }

  /** A well-formed disk holds every ancestor of a node, each a directory. */
  lemma {:induction false} AncestorsPresent(m: Tree, p: Path, a: Path)
    requires WellFormed(m) && p in m && a < p
    ensures a in m && m[a].Dir?
    decreases |p|
  {
    var q := Parent(p);
    assert q == p[..|p| - 1];
    if a != q {
      assert a < q;
      AncestorsPresent(m, q, a);
    }
  }

  /** Looking up `d` as a directory: ENOENT when a component is missing, ENOTDIR when one
      is not a directory. */
  function DirLookup(m: Tree, d: Path): (e: Option<Errno>)
    ensures e.None? <==> d in m && m[d].Dir?
    ensures e == None || e == Some(ENOENT) || e == Some(ENOTDIR)
    decreases |d|
  {
    if d in m then (if m[d].Dir? then None else Some(ENOTDIR))
    else if d == [] then Some(ENOENT)
    else
      match DirLookup(m, Parent(d))
      case Some(e) => Some(e)
      case None => Some(ENOENT)
  }

  // ---------------------------------------------------------------------------
  // Whole subtrees

  /** The paths below `p`, relative to it. */
  function RelativeKeys(m: Tree, p: Path): (s: set<Path>)
    ensures forall rel :: rel in s <==> p + rel in m
  {
    var s := set q | q in m && p <= q :: q[|p|..];
    forall rel | rel in s ensures p + rel in m {
      var q :| q in m && p <= q && rel == q[|p|..];
      assert p + rel == q;
    }
    forall rel | p + rel in m ensures rel in s {
      assert (p + rel)[|p|..] == rel;
    }
    s
  }

  /** The nodes at and below `p`, keyed by their path relative to `p`. */
  function Subtree(m: Tree, p: Path): (t: Tree)
    ensures forall rel :: rel in t <==> p + rel in m
    ensures forall rel :: rel in t ==> t[rel] == m[p + rel]
  {
    map rel | rel in RelativeKeys(m, p) :: m[p + rel]
  }

  /** The disk with the node at `p` and everything below it gone. */
  function Without(m: Tree, p: Path): (r: Tree)
    ensures forall q :: q in r <==> q in m && !(p <= q)
    ensures forall q :: q in r ==> r[q] == m[q]
  {
    map q | q in m && !(p <= q) :: m[q]
  }

  /** The disk with the relative tree `t` placed at `p`, over whatever `m` holds there. */
  function Graft(m: Tree, p: Path, t: Tree): (r: Tree)
    ensures forall rel :: rel in t ==> p + rel in r && r[p + rel] == t[rel]
    ensures forall q :: q in r && !(p <= q) ==> q in m && r[q] == m[q]
    ensures forall q :: q in m ==> q in r
  {
    var keys := m.Keys + set rel | rel in t :: p + rel;
    var r := map q | q in keys :: if p <= q && q[|p|..] in t then t[q[|p|..]] else m[q];
    forall rel | rel in t ensures p + rel in r && r[p + rel] == t[rel] {
      assert (p + rel)[|p|..] == rel;
    }
    r
  }

  /** A node or a prefix-closed path under `p` that is not a graft key was in `m` before. */
  lemma GraftUnder(m: Tree, p: Path, t: Tree, q: Path)
    requires q in Graft(m, p, t) && p <= q
    ensures q[|p|..] in t || (q in m && Graft(m, p, t)[q] == m[q])
  {
    assert q == p + q[|p|..];
  }

  /** What a successful rename leaves: the subtree at `src` now sits at `dst`, replacing
      whatever was there. Renaming a path onto itself changes nothing. */
  function Relocate(m: Tree, src: Path, dst: Path): (r: Tree)
    ensures forall q :: !(src <= q) && !(dst <= q) ==> (q in r <==> q in m) && (q in m ==> r[q] == m[q])
  {
    if src == dst then m else Graft(Without(Without(m, dst), src), dst, Subtree(m, src))
  }

  // ---------------------------------------------------------------------------
  // Mounts

  /** The mount points on the way to `p`; two paths are on one filesystem when these agree. */
  function MountsOver(mounts: set<Path>, p: Path): set<Path> {
    set x | x in mounts && x <= p
  }

  predicate SameMount(mounts: set<Path>, a: Path, b: Path) {
    MountsOver(mounts, a) == MountsOver(mounts, b)
  }

  /** Every mount point is a node of the disk: something is mounted on an existing path. */
  predicate MountsOnDisk(m: Tree, mounts: set<Path>) {
    forall x :: x in mounts ==> x in m
  }

  // ---------------------------------------------------------------------------
  // rename(2)

  /** Does directory `d` hold any entry? */
  predicate HasEntries(m: Tree, d: Path) {
    exists q :: q in m && q != [] && Parent(q) == d
  }

  /**
   * `os.Rename` on Unix. Go first lstats the new name: when it is a directory, the call is
   * refused before any syscall, with the old name's lstat error when the old name is
   * missing and EEXIST otherwise (even when both names are the same). Otherwise rename(2)
   * on Linux decides, in the order the kernel checks: both parent lookups, the mount
   * (EXDEV), the root as either name (EBUSY), the source lookup, moving a directory into
   * itself (EINVAL) or onto one of its own ancestors (ENOTEMPTY), the no-op of renaming a
   * path onto itself, write permission on both parents, a directory onto a non-directory
   * (ENOTDIR), write permission on a directory that changes parent, for its ".." entry,
   * and last a mount point as either name (EBUSY).
   */
  function RenameError(m: Tree, mounts: set<Path>, src: Path, dst: Path): Option<Errno> {
    if dst in m && m[dst].Dir? then
      if src in m then Some(EEXIST)
      else if src != [] && DirLookup(m, Parent(src)).Some? then DirLookup(m, Parent(src))
      else Some(ENOENT)
    else if DirLookup(m, Parent(src)).Some? then DirLookup(m, Parent(src))
    else if DirLookup(m, Parent(dst)).Some? then DirLookup(m, Parent(dst))
    else if !SameMount(mounts, Parent(src), Parent(dst)) then Some(EXDEV)
    else if src == [] || dst == [] then Some(EBUSY)
    else if src !in m then Some(ENOENT)
    else if src < dst then Some(EINVAL)
    else if dst < src then Some(ENOTEMPTY)
    else if src == dst then None
    else if !Writable(m[Parent(src)]) || !Writable(m[Parent(dst)]) then Some(EACCES)
    else if dst in m && m[src].Dir? then Some(ENOTDIR)
    else if m[src].Dir? && Parent(src) != Parent(dst) && !OwnerWrite(m[src].mode) then Some(EACCES)
    else if src in mounts || (dst in m && dst in mounts) then Some(EBUSY)
    else None
  }

  function RenameOutcome(m: Tree, mounts: set<Path>, src: Path, dst: Path): (o: Outcome)
    ensures o.err == RenameError(m, mounts, src, dst)
    ensures o.err.Some? ==> o.tree == m
    ensures o.err.None? ==> o.tree == Relocate(m, src, dst)
  {
    var e := RenameError(m, mounts, src, dst);
    if e.Some? then Outcome(m, e) else Outcome(Relocate(m, src, dst), None)
  }

  /** A directory at the new name refuses the rename before any syscall, on any mount and
      whatever the permissions: EEXIST when the old name exists, and nothing changes. */
  lemma RenameOntoDirectory(m: Tree, mounts: set<Path>, src: Path, dst: Path)
    requires src in m && dst in m && m[dst].Dir?
    ensures RenameOutcome(m, mounts, src, dst) == Outcome(m, Some(EEXIST))
  {
  }

  /** The root is refused with EBUSY only after the mounts are compared: moving it to
      another filesystem gets EXDEV, which sends moveItem to its copy. */
  lemma RenameRootAcrossMounts(m: Tree, mounts: set<Path>, dst: Path)
    requires WellFormed(m) && dst !in m && Parent(dst) in m && m[Parent(dst)].Dir?
    requires !SameMount(mounts, [], Parent(dst))
    ensures RenameOutcome(m, mounts, [], dst) == Outcome(m, Some(EXDEV))
  {
    assert DirLookup(m, Parent([])) == None;
  }

  /** A directory moved onto a file gets ENOTDIR once both parents are writable, before
      the write permission the directory itself needs to change parent is looked at. */
  /** A mount point cannot be renamed: once every other check passes, EBUSY, and nothing
      changes. */
  lemma RenameMountPoint(m: Tree, mounts: set<Path>, src: Path, dst: Path)
    requires WellFormed(m) && src in m && src in mounts && dst !in m
    requires src != [] && dst != [] && !(src <= dst) && !(dst <= src)
    requires Parent(dst) in m && m[Parent(dst)].Dir?
    requires Writable(m[Parent(src)]) && Writable(m[Parent(dst)])
    requires m[src].Dir? && OwnerWrite(m[src].mode)
    requires SameMount(mounts, Parent(src), Parent(dst))
    ensures RenameOutcome(m, mounts, src, dst) == Outcome(m, Some(EBUSY))
  {
  }

  lemma RenameDirOntoFile(m: Tree, mounts: set<Path>, src: Path, dst: Path)
    requires WellFormed(m) && src in m && m[src].Dir? && dst in m && !m[dst].Dir?
    requires src != [] && dst != [] && !(src <= dst) && !(dst <= src)
    requires Writable(m[Parent(src)]) && Writable(m[Parent(dst)])
    requires SameMount(mounts, Parent(src), Parent(dst))
    ensures RenameOutcome(m, mounts, src, dst) == Outcome(m, Some(ENOTDIR))
  {
  }

  /** RemoveAll of a path whose parent is a file fails with ENOTDIR and removes nothing. */
  lemma RemoveAllBelowFile(m: Tree, mounts: set<Path>, p: Path)
    requires WellFormed(m) && p != [] && Parent(p) in m && !m[Parent(p)].Dir?
    ensures RemoveAllOutcome(m, mounts, p) == Outcome(m, Some(ENOTDIR))
  {
  }

  /** One path is a prefix of another when both are prefixes of a third. */
  lemma PrefixesComparable(a: Path, b: Path, c: Path)
    requires a <= c && b <= c
    ensures a <= b || b <= a
  {
    if |a| <= |b| {
      assert a == c[..|a|] == b[..|a|];
    } else {
      assert b == c[..|b|] == a[..|b|];
    }
  }

  lemma PrefixOfParent(a: Path, q: Path)
    requires a <= Parent(q)
    ensures a <= q
  {
  }

  lemma ParentOfAppend(p: Path, rel: Path)
    requires rel != []
    ensures Parent(p + rel) == p + Parent(rel)
  {
    assert (p + rel)[..|p + rel| - 1] == p + rel[..|rel| - 1];
  }

  /** Moving a subtree to a fresh place whose parent is a directory keeps the disk well formed. */
  lemma RelocateWellFormed(m: Tree, src: Path, dst: Path)
    requires WellFormed(m) && src in m && src != [] && dst != [] && src != dst
    requires Parent(dst) in m && m[Parent(dst)].Dir? && !(src <= Parent(dst))
    ensures WellFormed(Relocate(m, src, dst))
  {
    var m0 := Without(m, dst);
    var m1 := Without(m0, src);
    WithoutWellFormed(m, dst);
    WithoutWellFormed(m0, src);
    assert !(dst <= Parent(dst)) && Parent(dst) in m0;
    SubtreeClosed(m, src);
    GraftClosedWellFormed(m1, dst, Subtree(m, src));
  }

  /** Removing a subtree other than the whole disk keeps the disk well formed. */
  lemma WithoutWellFormed(m: Tree, p: Path)
    requires WellFormed(m) && p != []
    ensures WellFormed(Without(m, p))
  {
    var r := Without(m, p);
    forall q | q in r && q != [] ensures Parent(q) in r && r[Parent(q)].Dir? {
      if p <= Parent(q) {
        PrefixOfParent(p, q);
      }
    }
  }

  lemma RenameWellFormed(m: Tree, mounts: set<Path>, src: Path, dst: Path)
    requires WellFormed(m)
    ensures WellFormed(RenameOutcome(m, mounts, src, dst).tree)
  {
    if RenameError(m, mounts, src, dst).None? && src != dst {
      if src <= Parent(dst) {
        PrefixOfParent(src, dst);
      }
      RelocateWellFormed(m, src, dst);
    }
  }

  /** Nothing sits below a path that is not on the disk. */
  lemma WithoutAbsent(m: Tree, p: Path)
    requires WellFormed(m) && p !in m
    ensures Without(m, p) == m
  {
    forall q | q in m ensures !(p <= q) {
      if p <= q && p != q {
        AncestorsPresent(m, q, p);
      }
    }
  }

  /** Putting a subtree back where it was taken from restores the disk. */
  lemma GraftBack(m: Tree, p: Path)
    ensures Graft(Without(m, p), p, Subtree(m, p)) == m
  {
    var g := Graft(Without(m, p), p, Subtree(m, p));
    forall q | q in g || q in m ensures q in g && q in m && g[q] == m[q] {
      GraftBackAt(m, p, q);
    }
  }

  lemma GraftBackAt(m: Tree, p: Path, q: Path)
    requires q in Graft(Without(m, p), p, Subtree(m, p)) || q in m
    ensures var g := Graft(Without(m, p), p, Subtree(m, p));
      q in g && q in m && g[q] == m[q]
  {
    if p <= q {
      assert q == p + q[|p|..];
      if q in Graft(Without(m, p), p, Subtree(m, p)) {
        GraftUnder(Without(m, p), p, Subtree(m, p), q);
      }
    }
  }

  /** After a rename, the target holds exactly what the source held. */
  lemma RelocateSubtree(m: Tree, src: Path, dst: Path)
    ensures Subtree(Relocate(m, src, dst), dst) == Subtree(m, src)
  {
    if src != dst {
      var a := Subtree(Relocate(m, src, dst), dst);
      var b := Subtree(m, src);
      forall rel | rel in a || rel in b ensures rel in a && rel in b && a[rel] == b[rel] {
        RelocateSubtreeAt(m, src, dst, rel);
      }
    }
  }

  lemma RelocateSubtreeAt(m: Tree, src: Path, dst: Path, rel: Path)
    requires src != dst
    ensures dst + rel in Relocate(m, src, dst) <==> src + rel in m
    ensures src + rel in m ==> Relocate(m, src, dst)[dst + rel] == m[src + rel]
  {
    var w := Without(Without(m, dst), src);
    var t := Subtree(m, src);
    if dst + rel in Graft(w, dst, t) {
      GraftUnder(w, dst, t, dst + rel);
      assert (dst + rel)[|dst|..] == rel;
    }
  }

  /** A rename changes nothing outside the source and the target. */
  lemma RelocateOutside(m: Tree, src: Path, dst: Path, q: Path)
    requires !(src <= q) && !(dst <= q)
    ensures q in Relocate(m, src, dst) <==> q in m
    ensures q in m ==> Relocate(m, src, dst)[q] == m[q]
  {
  }

  /** A rename to a fresh place is the subtree taken out and put in at the target. */
  lemma RelocateFresh(m: Tree, src: Path, dst: Path)
    requires WellFormed(m) && src in m && dst !in m
    ensures Relocate(m, src, dst) == Graft(Without(m, src), dst, Subtree(m, src))
  {
    WithoutAbsent(m, dst);
  }

  /** Taking the grafted copy away again leaves the disk as it was before the graft. */
  lemma UngraftFresh(m: Tree, src: Path, dst: Path)
    requires WellFormed(m) && src in m && dst !in m
    ensures Without(Without(Graft(Without(m, src), dst, Subtree(m, src)), src), dst) == Without(m, src)
  {
    var w := Without(m, src);
    var back := Without(Without(Graft(w, dst, Subtree(m, src)), src), dst);
    forall q | q in back || q in w ensures q in back && q in w && back[q] == w[q] {
      UngraftFreshAt(m, src, dst, q);
    }
  }

  lemma UngraftFreshAt(m: Tree, src: Path, dst: Path, q: Path)
    requires WellFormed(m) && src in m && dst !in m
    requires q in Without(Without(Graft(Without(m, src), dst, Subtree(m, src)), src), dst) || q in Without(m, src)
    ensures var w := Without(m, src);
      var back := Without(Without(Graft(w, dst, Subtree(m, src)), src), dst);
      q in back && q in w && back[q] == w[q]
  {
    if q in m && dst <= q {
      if dst != q {
        AncestorsPresent(m, q, dst);
      }
      assert false;
    }
  }

  /** Renaming to a fresh place and back again gives the disk back unchanged. */
  lemma RelocateBack(m: Tree, src: Path, dst: Path)
    requires WellFormed(m) && src in m && dst !in m
    ensures Relocate(Relocate(m, src, dst), dst, src) == m
  {
    var t := Subtree(m, src);
    var w := Without(m, src);
    RelocateFresh(m, src, dst);
    var m1 := Graft(w, dst, t);
    assert m1 == Relocate(m, src, dst);
    RelocateSubtree(m, src, dst);
    UngraftFresh(m, src, dst);
    assert Relocate(m1, dst, src) == Graft(w, src, t);
    GraftBack(m, src);
  }

  /** A file or a link is a subtree of one node. */
  lemma LeafSubtree(m: Tree, p: Path)
    requires WellFormed(m) && p in m && !m[p].Dir?
    ensures Subtree(m, p) == map[[] := m[p]]
  {
    var t := Subtree(m, p);
    forall rel | rel in t ensures rel == [] {
      if rel != [] {
        AncestorsPresent(m, p + rel, p);
      }
    }
    assert p + [] == p;
  }

  /** `a` and `b` agree on every path outside the subtree at `p`. */
  ghost predicate SameOutside(a: Tree, b: Tree, p: Path) {
    && (forall q :: q in a && !(p <= q) ==> q in b && a[q] == b[q])
    && (forall q :: q in b && !(p <= q) ==> q in a)
  }

  /** The part of `t` at the paths in `keys`. */
  function Restrict(t: Tree, keys: set<Path>): (r: Tree)
    ensures forall k :: k in r <==> k in t && k in keys
    ensures forall k :: k in r ==> r[k] == t[k]
  {
    map k | k in t && k in keys :: t[k]
  }

  lemma GraftNothing(m: Tree, p: Path)
    ensures Graft(m, p, map[]) == m
  {
  }

  /** Grafting one more entry of `t` is adding its node at its place. */
  lemma GraftExtend(m: Tree, p: Path, t: Tree, done: set<Path>, f: Path)
    requires f in t && f !in done
    ensures Graft(m, p, Restrict(t, done))[p + f := t[f]] == Graft(m, p, Restrict(t, done + {f}))
  {
    var a := Graft(m, p, Restrict(t, done))[p + f := t[f]];
    var b := Graft(m, p, Restrict(t, done + {f}));
    forall q | q in a || q in b ensures q in a && q in b && a[q] == b[q] {
      GraftExtendAt(m, p, t, done, f, q);
    }
  }

  lemma GraftExtendAt(m: Tree, p: Path, t: Tree, done: set<Path>, f: Path, q: Path)
    requires f in t && f !in done
    requires q in Graft(m, p, Restrict(t, done))[p + f := t[f]] || q in Graft(m, p, Restrict(t, done + {f}))
    ensures var a := Graft(m, p, Restrict(t, done))[p + f := t[f]];
      var b := Graft(m, p, Restrict(t, done + {f}));
      q in a && q in b && a[q] == b[q]
  {
    var r1 := Restrict(t, done);
    var r2 := Restrict(t, done + {f});
    if q == p + f {
      assert f in r2;
    } else if p <= q {
      var rel := q[|p|..];
      assert q == p + rel;
      if q in Graft(m, p, r1) {
        GraftUnder(m, p, r1, q);
      }
      if q in Graft(m, p, r2) {
        GraftUnder(m, p, r2, q);
      }
    }
  }

  /** Every node of a relative tree but its top has its parent directory in the tree. */
  ghost predicate Closed(t: Tree) {
    forall rel :: rel in t && rel != [] ==> Parent(rel) in t && t[Parent(rel)].Dir?
  }

  lemma SubtreeClosed(m: Tree, src: Path)
    requires WellFormed(m)
    ensures Closed(Subtree(m, src))
  {
    var t := Subtree(m, src);
    forall rel | rel in t && rel != [] ensures Parent(rel) in t && t[Parent(rel)].Dir? {
      ParentOfAppend(src, rel);
      assert src + rel in m;
    }
  }

  lemma GraftKeeps(m: Tree, dst: Path, t: Tree, q: Path)
    requires q in m && |q| < |dst|
    ensures q in Graft(m, dst, t) && Graft(m, dst, t)[q] == m[q]
  {
  }

  /** Every node of a grafted tree has its parent directory, when the graft sits at a fresh
      place whose parent is a directory. `r` is the graft, described by what it holds. */
  lemma GraftParent(m: Tree, dst: Path, t: Tree, r: Tree, q: Path)
    requires WellFormed(m) && Closed(t) && dst !in m && Parent(dst) in m && m[Parent(dst)].Dir?
    requires forall x :: x in m ==> x in r && (!(dst <= x) ==> r[x] == m[x])
    requires forall rel :: rel in t ==> dst + rel in r && r[dst + rel] == t[rel]
    requires q in m || (dst <= q && q[|dst|..] in t)
    requires q != []
    ensures Parent(q) in r && r[Parent(q)].Dir?
  {
    if dst <= q {
      var rel := q[|dst|..];
      assert q == dst + rel;
      if rel == [] {
        assert q == dst && |Parent(dst)| < |dst|;
        assert !(dst <= Parent(dst));
      } else if rel in t {
        ParentOfAppend(dst, rel);
      } else {
        AncestorsPresent(m, q, dst);
      }
    } else if dst <= Parent(q) {
      PrefixOfParent(dst, q);
    }
  }

  /** Every key of a graft is an old key or a grafted one. */
  lemma GraftKeys(m: Tree, p: Path, t: Tree, q: Path)
    requires q in Graft(m, p, t)
    ensures q in m || (p <= q && q[|p|..] in t)
  {
  }

  /** A copy of a subtree placed at a fresh path whose parent is a directory keeps the disk
      well formed. */
  lemma GraftWellFormed(m: Tree, src: Path, dst: Path)
    requires WellFormed(m) && dst !in m && Parent(dst) in m && m[Parent(dst)].Dir?
    ensures WellFormed(Graft(m, dst, Subtree(m, src)))
  {
    SubtreeClosed(m, src);
    GraftClosedWellFormed(m, dst, Subtree(m, src));
  }

  /** Any tree in which every node has its parent directory can be grafted at a fresh path
      whose parent is a directory. */
  lemma GraftClosedWellFormed(m: Tree, dst: Path, t: Tree)
    requires WellFormed(m) && Closed(t) && dst !in m && Parent(dst) in m && m[Parent(dst)].Dir?
    ensures WellFormed(Graft(m, dst, t))
  {
    var r := Graft(m, dst, t);
    assert [] in m && !(dst <= []);
    forall q | q in r && q != [] ensures Parent(q) in r && r[Parent(q)].Dir? {
      GraftKeys(m, dst, t, q);
      GraftParent(m, dst, t, r, q);
    }
  }

  /** A copy placed away from the source leaves the source's subtree as it was. */
  lemma GraftAwayKeepsSource(m: Tree, src: Path, dst: Path, t: Tree)
    requires !(src <= dst) && !(dst <= src)
    ensures Subtree(Graft(m, dst, t), src) == Subtree(m, src)
  {
    var g := Graft(m, dst, t);
    forall rel | src + rel in g ensures src + rel in m && g[src + rel] == m[src + rel] {
      var q := src + rel;
      assert src <= q;
      if dst <= q {
        PrefixesComparable(src, dst, q);
      }
    }
  }

  /** Deleting the source and grafting a copy elsewhere can happen in either order. */
  lemma GraftAwayCommutes(m: Tree, src: Path, dst: Path, t: Tree)
    requires !(src <= dst) && !(dst <= src)
    ensures Without(Graft(m, dst, t), src) == Graft(Without(m, src), dst, t)
  {
    var a := Without(Graft(m, dst, t), src);
    var b := Graft(Without(m, src), dst, t);
    forall q | q in a || q in b ensures q in a && q in b && a[q] == b[q] {
      GraftAwayAt(m, src, dst, t, q);
    }
  }

  lemma GraftAwayAt(m: Tree, src: Path, dst: Path, t: Tree, q: Path)
    requires !(src <= dst) && !(dst <= src)
    requires q in Without(Graft(m, dst, t), src) || q in Graft(Without(m, src), dst, t)
    ensures q in Without(Graft(m, dst, t), src) && q in Graft(Without(m, src), dst, t)
    ensures Without(Graft(m, dst, t), src)[q] == Graft(Without(m, src), dst, t)[q]
  {
    if dst <= q {
      assert q == dst + q[|dst|..];
      if src <= q {
        PrefixesComparable(src, dst, q);
      }
    }
  }

  /** What is grafted at a fresh place is all there is below it. */
  lemma GraftFreshSubtree(m: Tree, dst: Path, t: Tree)
    requires WellFormed(m) && dst !in m
    ensures Subtree(Graft(m, dst, t), dst) == t
  {
    var g := Graft(m, dst, t);
    var s := Subtree(g, dst);
    forall rel | rel in s ensures rel in t {
      GraftFreshAt(m, dst, t, rel);
    }
    assert s.Keys == t.Keys;
  }

  lemma GraftFreshAt(m: Tree, dst: Path, t: Tree, rel: Path)
    requires WellFormed(m) && dst !in m && dst + rel in Graft(m, dst, t)
    ensures rel in t
  {
    var q := dst + rel;
    assert q[|dst|..] == rel;
    GraftUnder(m, dst, t, q);
    if rel == [] {
      assert q == dst;
    } else if rel !in t {
      AncestorsPresent(m, q, dst);
    }
  }

  // ---------------------------------------------------------------------------
  // os.RemoveAll

  /** A directory the process may open and list: the owner read bit. */
  predicate Listable(n: Node) {
    n.Dir? && OwnerRead(n.mode)
  }

  /**
   * The permissions `os.RemoveAll` needs to delete `q` once it has reached it. Every entry
   * from `q` down is unlinked from a writable directory, and every directory below `q` that
   * holds entries, `q` included, is opened and listed first, which needs its read bit; an
   * empty directory goes by rmdir alone. The root never goes.
   */
  predicate Unlinkable(m: Tree, q: Path) {
    q != [] && forall r :: r in m && q <= r ==>
      Parent(r) in m && Writable(m[Parent(r)]) && (r != q ==> Listable(m[Parent(r)]))
  }

  /** No mount point at or below `q`: rmdir of a mount point is refused with EBUSY, though
      what is mounted there can be emptied. */
  predicate Unmounted(m: Tree, mounts: set<Path>, q: Path) {
    forall r :: r in m && q <= r ==> r !in mounts
  }

  /** What `os.RemoveAll` needs to delete `q` once it has reached it. */
  predicate Removable(m: Tree, mounts: set<Path>, q: Path) {
    Unlinkable(m, q) && Unmounted(m, mounts, q)
  }

  /** Every directory from `p` down to `q`, `p` included and `q` not, can be listed, so a
      walk that starts at `p` gets to `q`. */
  predicate Reaches(m: Tree, p: Path, q: Path) {
    forall a :: a in m && p <= a && a < q ==> Listable(m[a])
  }

  /** When `p` cannot go by a single unlink or rmdir, because it holds entries or is a mount
      point, `os.RemoveAll(p)` opens the directory holding `p` for reading before it goes
      down; if that fails, nothing is removed. */
  predicate OpensParent(m: Tree, mounts: set<Path>, p: Path) {
    HasEntries(m, p) || p in mounts ==> Parent(p) in m && Listable(m[Parent(p)])
  }

  /** `os.RemoveAll(p)` deletes `p` itself. */
  predicate Deletable(m: Tree, mounts: set<Path>, p: Path) {
    Removable(m, mounts, p) && OpensParent(m, mounts, p)
  }

  /** `os.RemoveAll(p)` deletes `q`: it gets down to `q`, and can delete all of it. */
  predicate Removes(m: Tree, mounts: set<Path>, p: Path, q: Path) {
    p <= q && Removable(m, mounts, q) && Reaches(m, p, q) && OpensParent(m, mounts, p)
  }

  /**
   * `os.RemoveAll(p)`: removes what it can below `p`; it succeeds when `p` is gone and
   * otherwise reports a failure, with what it removed staying removed: EACCES when a
   * permission is missing, EBUSY when only mount points (or the root) stay. A missing `p` is
   * success, unless a file stands where a directory on the way to it should be: then the
   * lookup fails with ENOTDIR. It never adds or changes a node.
   */
  function RemoveAllOutcome(m: Tree, mounts: set<Path>, p: Path): (o: Outcome)
    ensures forall q :: q in o.tree ==> q in m && o.tree[q] == m[q]
    ensures forall q :: q in m && !(p <= q) ==> q in o.tree
    ensures o.err.None? ==> p !in o.tree
    ensures p in m ==> (o.err.None? <==> p !in o.tree)
    ensures p !in m ==> o.tree == m && (o.err.Some? ==> o.err == Some(ENOTDIR))
    ensures forall q :: q in m && q in mounts && p <= q ==> q in o.tree
  {
    if p !in m then
      Outcome(m, if p != [] && DirLookup(m, Parent(p)) == Some(ENOTDIR) then Some(ENOTDIR) else None)
    else
      Outcome(
        map q | q in m && !Removes(m, mounts, p, q) :: m[q],
        if Deletable(m, mounts, p) then None
        else if p == [] || (Unlinkable(m, p) && OpensParent(m, mounts, p)) then Some(EBUSY)
        else Some(EACCES))
  }

  /** A node that can go takes its whole subtree with it. */
  lemma RemovableBelow(m: Tree, mounts: set<Path>, q: Path, r: Path)
    requires Removable(m, mounts, q) && q <= r && r != []
    ensures Removable(m, mounts, r)
  {
  }

  /** Where RemoveAll(p) deletes a node, it deletes everything under that node too. */
  lemma RemovesBelow(m: Tree, mounts: set<Path>, p: Path, a: Path, q: Path)
    requires WellFormed(m) && Removes(m, mounts, p, a) && a <= q && q in m
    ensures Removes(m, mounts, p, q)
  {
    RemovableBelow(m, mounts, a, q);
    ReachesBelow(m, p, a, q);
  }

  /** A walk that reaches `a` and can list all below it reaches whatever lies below `a`. */
  lemma ReachesBelow(m: Tree, p: Path, a: Path, q: Path)
    requires WellFormed(m) && p <= a && a <= q && q in m && Reaches(m, p, a) && Unlinkable(m, a)
    ensures Reaches(m, p, q)
  {
    forall b | b in m && p <= b && b < q ensures Listable(m[b]) {
      if a <= b {
        var c := q[..|b| + 1];
        assert c[..|c| - 1] == b;
        if c != q {
          AncestorsPresent(m, q, c);
        }
        assert a <= c && c != a && Parent(c) == b;
      } else {
        PrefixesComparable(a, b, q);
      }
    }
  }

  /** RemoveAll of a node with nothing below it, under a writable directory, removes just it. */
  lemma RemoveAllLone(m: Tree, mounts: set<Path>, p: Path)
    requires WellFormed(m) && p in m && p != [] && Parent(p) in m && Writable(m[Parent(p)])
    requires forall q :: q in m && p <= q ==> q == p
    requires p !in mounts
    ensures RemoveAllOutcome(m, mounts, p) == Outcome(Without(m, p), None)
  {
    assert !HasEntries(m, p);
    assert Removable(m, mounts, p);
    RemoveAllClears(m, mounts, p);
  }

  /** Whether RemoveAll deletes `p` depends only on the nodes at and below `p` and on its parent. */
  lemma DeletableLocal(a: Tree, b: Tree, mounts: set<Path>, p: Path)
    requires forall x :: p <= x ==> (x in a <==> x in b) && (x in a ==> a[x] == b[x])
    requires (Parent(p) in a <==> Parent(p) in b) && (Parent(p) in a ==> a[Parent(p)] == b[Parent(p)])
    ensures Deletable(a, mounts, p) <==> Deletable(b, mounts, p)
  {
    forall x | p <= x && x != p ensures p <= Parent(x) {
      assert x[..|p|] == p;
    }
  }

  lemma RemoveAllWellFormed(m: Tree, mounts: set<Path>, p: Path)
    requires WellFormed(m)
    ensures WellFormed(RemoveAllOutcome(m, mounts, p).tree)
  {
    var r := RemoveAllOutcome(m, mounts, p).tree;
    forall q | q in r && q != [] ensures Parent(q) in r && r[Parent(q)].Dir? {
      var a := Parent(q);
      if Removes(m, mounts, p, a) {
        RemovesBelow(m, mounts, p, a, q);
      }
    }
  }

  /** RemoveAll cannot list a directory that has entries and lacks its read bit: it fails
      with EACCES and the directory stays. */
  lemma RemoveAllUnlisted(m: Tree, mounts: set<Path>, p: Path, c: Path)
    requires p in m && p != [] && !Listable(m[p]) && c in m && c != [] && Parent(c) == p
    ensures RemoveAllOutcome(m, mounts, p).err == Some(EACCES) && p in RemoveAllOutcome(m, mounts, p).tree
  {
    assert !Unlinkable(m, p) by {
      assert p <= c by { PrefixOfParent(p, c); }
    }
  }

  /**
   * RemoveAll of a mount point it can otherwise clear empties what is mounted there, then
   * fails with EBUSY: the mount point itself stays, with nothing left below it.
   */
  lemma RemoveAllMountPoint(m: Tree, mounts: set<Path>, p: Path)
    requires WellFormed(m) && p in m && p in mounts && Unlinkable(m, p)
    requires Parent(p) in m && Listable(m[Parent(p)])
    requires forall q :: q in m && p < q ==> q !in mounts
    ensures RemoveAllOutcome(m, mounts, p) == Outcome(Without(m, p)[p := m[p]], Some(EBUSY))
  {
    forall q | q in m && p < q ensures Removes(m, mounts, p, q) {
      MountContentsGo(m, mounts, p, q);
    }
    assert !Unmounted(m, mounts, p);
    var o := RemoveAllOutcome(m, mounts, p);
    assert !Deletable(m, mounts, p) && OpensParent(m, mounts, p);
    assert o.err == Some(EBUSY);
    var w := Without(m, p)[p := m[p]];
    forall q ensures q in o.tree <==> q in w {
      if q in m && p < q {
        assert q !in o.tree && q !in w;
      } else if q == p {
        assert !Removes(m, mounts, p, p);
      } else if q in m {
        assert !(p <= q);
      }
    }
    assert o.tree == w;
  }

  /** What is mounted at `p` goes when `p` can be cleared and nothing else is mounted below. */
  lemma MountContentsGo(m: Tree, mounts: set<Path>, p: Path, q: Path)
    requires WellFormed(m) && Unlinkable(m, p) && Parent(p) in m && Listable(m[Parent(p)])
    requires forall r :: r in m && p < r ==> r !in mounts
    requires q in m && p < q
    ensures Removes(m, mounts, p, q)
  {
    RemovableBelow(m, {}, p, q);
    ReachesBelow(m, p, p, q);
    forall r | r in m && q <= r ensures r !in mounts {
      assert r[..|p|] == q[..|p|];
    }
  }

  /** When RemoveAll reports success, nothing at or below `p` is left. */
  lemma RemoveAllClears(m: Tree, mounts: set<Path>, p: Path)
    requires RemoveAllOutcome(m, mounts, p).err.None?
    requires WellFormed(m)
    ensures RemoveAllOutcome(m, mounts, p).tree == Without(m, p)
  {
    var o := RemoveAllOutcome(m, mounts, p);
    forall q | q in m && p <= q ensures q !in o.tree {
      if p in m {
        assert Removes(m, mounts, p, p);
        RemovesBelow(m, mounts, p, p, q);
      } else {
        if p != q {
          AncestorsPresent(m, q, p);
        }
      }
    }
  }

  // ---------------------------------------------------------------------------
  // Creating entries: mkdir, symlink, open with O_CREATE

  /** Why a new entry cannot be made at `p`, in the kernel's order: parent lookup, an entry
      already there, then write permission on the parent. */
  function CreateError(m: Tree, p: Path): (e: Option<Errno>)
    ensures e.None? <==> p != [] && Parent(p) in m && Writable(m[Parent(p)]) && p !in m
  {
    if p == [] then Some(EEXIST)
    else if DirLookup(m, Parent(p)).Some? then DirLookup(m, Parent(p))
    else if p in m then Some(EEXIST)
    else if !Writable(m[Parent(p)]) then Some(EACCES)
    else None
  }

  /** symlink(2): a new link at `p` whose target is the literal text `target`. */
  function SymlinkOutcome(m: Tree, target: string, p: Path): (o: Outcome)
    ensures o.err == CreateError(m, p)
    ensures o.tree == if o.err.None? then m[p := Symlink(target)] else m
  {
    if CreateError(m, p).Some? then Outcome(m, CreateError(m, p)) else Outcome(m[p := Symlink(target)], None)
  }

  /**
   * `os.MkdirAll(p, mode)`: nothing to do when `p` is a directory, ENOTDIR when it is
   * anything else; otherwise the parent is made first and then `p`, with `mode`.
   * Directories made before a failure stay.
   */
  function MkdirAllOutcome(m: Tree, p: Path, mode: nat): (o: Outcome)
    ensures forall q :: q in m ==> q in o.tree && o.tree[q] == m[q]
    ensures forall q :: q in o.tree && q !in m ==> q <= p && o.tree[q] == Dir(mode)
    ensures o.err.None? ==> p in o.tree && o.tree[p].Dir?
    decreases |p|
  {
    if p in m then Outcome(m, if m[p].Dir? then None else Some(ENOTDIR))
    else if p == [] then Outcome(m, Some(ENOENT))
    else
      var up := MkdirAllOutcome(m, Parent(p), mode);
      if up.err.Some? then up
      else if Parent(p) in up.tree && Writable(up.tree[Parent(p)]) then Outcome(up.tree[p := Dir(mode)], None)
      else Outcome(up.tree, Some(EACCES))
  }

  /** MkdirAll of a missing path whose parent is a writable directory makes just that one. */
  lemma MkdirAllOne(m: Tree, p: Path, mode: nat)
    requires p !in m && p != [] && Parent(p) in m && Writable(m[Parent(p)])
    ensures MkdirAllOutcome(m, p, mode) == Outcome(m[p := Dir(mode)], None)
  {
    assert MkdirAllOutcome(m, Parent(p), mode) == Outcome(m, None);
  }

  /** MkdirAll succeeds exactly when it leaves a directory at `p`, and it only adds
      directories, on the way to `p`, to what was there. */
  lemma {:induction false} MkdirAllSpec(m: Tree, p: Path, mode: nat)
    requires WellFormed(m)
    ensures var o := MkdirAllOutcome(m, p, mode);
      && WellFormed(o.tree)
      && (o.err.None? <==> p in o.tree && o.tree[p].Dir?)
      && (forall q :: q in m ==> q in o.tree && o.tree[q] == m[q])
      && (forall q :: q in o.tree && q !in m ==> q <= p && o.tree[q] == Dir(mode))
      && (o.err.None? && p !in m ==> p != [] && Parent(p) in o.tree && Writable(o.tree[Parent(p)]))
    decreases |p|
  {
    if p !in m && p != [] {
      MkdirAllSpec(m, Parent(p), mode);
      var up := MkdirAllOutcome(m, Parent(p), mode);
      if up.err.None? && Parent(p) in up.tree && Writable(up.tree[Parent(p)]) {
        var r := up.tree[p := Dir(mode)];
        assert p !in up.tree;
        forall q | q in r && q != [] ensures Parent(q) in r && r[Parent(q)].Dir? {
          if q != p {
            assert q in up.tree;
          }
        }
      }
    }
  }

  /** Creating a non-directory beside nothing, or over a non-directory, keeps the disk well formed. */
  lemma InsertWellFormed(m: Tree, p: Path, n: Node)
    requires WellFormed(m) && p != [] && Parent(p) in m && m[Parent(p)].Dir?
    requires p in m ==> !m[p].Dir?
    ensures WellFormed(m[p := n])
  {
    var r := m[p := n];
    forall q | q in r && q != [] ensures Parent(q) in r && r[Parent(q)].Dir? {
      if q != p {
        assert q in m;
      }
    }
  }

  /**
   * copyFile: `os.Open(src)` needs the read bit of the source; `os.OpenFile(dst,
   * O_CREATE|O_WRONLY|O_TRUNC, mode)` then creates the target with `mode` when it is absent,
   * or truncates and rewrites an existing file, whose own mode stays; `io.Copy` moves the bytes.
   * A directory at `dst` gives EISDIR; an existing link at `dst` is refused (EEXIST).
   */
  function CopyFileOutcome(m: Tree, src: Path, dst: Path, mode: nat): (o: Outcome)
    requires src in m && m[src].File?
    ensures o.err.Some? ==> o.tree == m
    ensures o.err.None? ==> dst in o.tree && o.tree[dst].File? && o.tree[dst].data == m[src].data
    ensures o.err.None? ==> o.tree == m[dst := o.tree[dst]]
    ensures o.err.None? && dst !in m ==> o.tree[dst].mode == mode
  {
    var data := m[src].data;
    if !OwnerRead(m[src].mode) then Outcome(m, Some(EACCES))
    else if dst == [] then Outcome(m, Some(EISDIR))
    else if DirLookup(m, Parent(dst)).Some? then Outcome(m, DirLookup(m, Parent(dst)))
    else if dst in m then
      match m[dst]
      case Dir(_) => Outcome(m, Some(EISDIR))
      case Symlink(_) => Outcome(m, Some(EEXIST))
      case File(_, fileMode) =>
        if OwnerWrite(fileMode) then Outcome(m[dst := File(data, fileMode)], None) else Outcome(m, Some(EACCES))
    else if !Writable(m[Parent(dst)]) then Outcome(m, Some(EACCES))
    else Outcome(m[dst := File(data, mode)], None)
  }

  // ---------------------------------------------------------------------------
  // The disk as a mutable object

  /** The disk, changed in place by the syscalls; the mount table does not change. */
  class FileSystem {
    var nodes: Tree
    const mounts: set<Path>

    ghost predicate Valid()
      reads this
    {
      WellFormed(nodes)
    }

    constructor (nodes: Tree, mounts: set<Path>)
      requires WellFormed(nodes)
      ensures this.nodes == nodes && this.mounts == mounts
      ensures Valid()
    {
      this.nodes := nodes;
      this.mounts := mounts;
    }

    /** lstat(2): the node itself, links not followed; None when nothing is there. */
    function Lstat(p: Path): (r: Option<Node>)
      reads this
      ensures r.Some? <==> p in nodes
      ensures r.Some? ==> r.value == nodes[p]
    {
      if p in nodes then Some(nodes[p]) else None
    }

    method Rename(src: Path, dst: Path) returns (err: Option<Errno>)
      requires Valid()
      modifies this
      ensures Valid()
      ensures Outcome(nodes, err) == RenameOutcome(old(nodes), mounts, src, dst)
    {
      var o := RenameOutcome(nodes, mounts, src, dst);
      RenameWellFormed(nodes, mounts, src, dst);
      nodes, err := o.tree, o.err;
    }

    method RemoveAll(p: Path) returns (err: Option<Errno>)
      requires Valid()
      modifies this
      ensures Valid()
      ensures Outcome(nodes, err) == RemoveAllOutcome(old(nodes), mounts, p)
    {
      var o := RemoveAllOutcome(nodes, mounts, p);
      RemoveAllWellFormed(nodes, mounts, p);
      nodes, err := o.tree, o.err;
    }

    method MkdirAll(p: Path, mode: nat) returns (err: Option<Errno>)
      requires Valid()
      modifies this
      ensures Valid()
      ensures Outcome(nodes, err) == MkdirAllOutcome(old(nodes), p, mode)
    {
      MkdirAllSpec(nodes, p, mode);
      var o := MkdirAllOutcome(nodes, p, mode);
      nodes, err := o.tree, o.err;
    }

    method Symlink(target: string, p: Path) returns (err: Option<Errno>)
      requires Valid()
      modifies this
      ensures Valid()
      ensures Outcome(nodes, err) == SymlinkOutcome(old(nodes), target, p)
    {
      var o := SymlinkOutcome(nodes, target, p);
      if o.err.None? {
        InsertWellFormed(nodes, p, Node.Symlink(target));
      }
      nodes, err := o.tree, o.err;
    }

    method CopyFile(src: Path, dst: Path, mode: nat) returns (err: Option<Errno>)
      requires Valid() && src in nodes && nodes[src].File?
      modifies this
      ensures Valid()
      ensures Outcome(nodes, err) == CopyFileOutcome(old(nodes), src, dst, mode)
    {
      var o := CopyFileOutcome(nodes, src, dst, mode);
      if o.err.None? {
        InsertWellFormed(nodes, dst, o.tree[dst]);
      }
      nodes, err := o.tree, o.err;
    }
  }
}
