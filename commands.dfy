/**
 * The three commands that change things: `toss <path>...`, `restore [query]` and
 * `empty [--force]`. Each runs against the disk (a `FileSystem`) and the ledger (a
 * `Ledger`); each is proved equal to a function of the state it starts from, and the
 * lemmas below say what that function promises. Standard input is passed in as text, and
 * what would be printed is returned as a report.
 */
module Commands {
  import opened Wrappers
  import opened Paths
  import opened Fs
  import opened Mover
  import Uuid
  import Ledger
  import Ui

  /** `~/.toss`, the directory the bin and the ledger live in. */
  function TossDir(home: Path): Path {
    home + [".toss"]
  }

  /** `~/.toss/files`, the bin itself. */
  function BinDir(home: Path): Path {
    TossDir(home) + ["files"]
  }

  // ---------------------------------------------------------------------------
  // toss

  /** What `toss` says about one argument. */
  datatype TossReport =
    | Tossed(abs: Path)          // "tossed: <abs>"
    | CannotResolve(arg: string) // the working directory could not be read
    | RefusedBin                 // "refusing to toss the bin directory itself"
    | NotMoved(cause: MoverError)
    | NotRecorded(arg: string)   // moved into the bin, but the ledger refused the row

  /** One turn of the loop: resolve, refuse `~/.toss`, move, record. The ledger keeps its
      rows and gains one exactly when the argument is tossed. */
  ghost function TossStep(m: Tree, rows: seq<Ledger.Row>, writable: bool, mounts: set<Path>, arg: string,
                          home: Path, cwd: Option<Path>, random: seq<Byte>, now: int)
    : (o: (Tree, seq<Ledger.Row>, TossReport))
    requires |random| == 16
    ensures rows <= o.1 && |o.1| == |rows| + (if o.2.Tossed? then 1 else 0)
  {
    var abs := Abs(cwd, arg);
    if abs.None? then (m, rows, CannotResolve(arg))
    else if abs.value == TossDir(home) then (m, rows, RefusedBin)
    else
      var moved := MoveOutcome(m, mounts, arg, BinDir(home), cwd, random, now);
      if moved.1.Err? then (moved.0, rows, NotMoved(moved.1.error))
      else if writable && !Ledger.HasId(rows, moved.1.value.id) then
        (moved.0, rows + [Ledger.ToRow(moved.1.value)], Tossed(abs.value))
      else (moved.0, rows, NotRecorded(arg))
  }

  /** The arguments from `from` on, in order, each against the disk and ledger the previous
      ones left. Over the run the ledger only grows, by one row per tossed argument, and
      there is one report per argument. */
  ghost function TossAll(m: Tree, rows: seq<Ledger.Row>, writable: bool, mounts: set<Path>, args: seq<string>,
                         home: Path, cwd: Option<Path>, randoms: seq<seq<Byte>>, clock: seq<int>, from: nat)
    : (o: (Tree, seq<Ledger.Row>, seq<TossReport>))
    requires |randoms| == |args| && |clock| == |args| && from <= |args|
    requires forall i :: 0 <= i < |randoms| ==> |randoms[i]| == 16
    ensures |o.2| == |args| - from
    ensures rows <= o.1 && |o.1| == |rows| + CountTossed(o.2)
    decreases |args| - from
  {
    if from == |args| then (m, rows, [])
    else
      var step := TossStep(m, rows, writable, mounts, args[from], home, cwd, randoms[from], clock[from]);
      var rest := TossAll(step.0, step.1, writable, mounts, args, home, cwd, randoms, clock, from + 1);
      var rs := [step.2] + rest.2;
      assert rs[0] == step.2 && rs[1..] == rest.2;
      (rest.0, rest.1, rs)
  }

  predicate Failed(r: TossReport) {
    !r.Tossed?
  }

  /** Some argument failed. */
  predicate AnyFailed(reports: seq<TossReport>) {
    exists i :: 0 <= i < |reports| && Failed(reports[i])
  }

  lemma AnyFailedSnoc(reports: seq<TossReport>, r: TossReport)
    ensures AnyFailed(reports + [r]) <==> AnyFailed(reports) || Failed(r)
  {
    var rs := reports + [r];
    assert rs[|reports|] == r;
    if AnyFailed(rs) {
      var i :| 0 <= i < |rs| && Failed(rs[i]);
      if i < |reports| {
        assert rs[i] == reports[i];
      }
    }
    if AnyFailed(reports) {
      var i :| 0 <= i < |reports| && Failed(reports[i]);
      assert rs[i] == reports[i];
    }
  }

  /** One turn of the loop of `runToss`. */
  method TossOne(fs: FileSystem, db: Ledger.Ledger, arg: string, home: Path, cwd: Option<Path>,
                 random: seq<Byte>, now: int)
    returns (report: TossReport)
    requires fs.Valid() && db.Valid() && |random| == 16
    modifies fs, db
    ensures fs.Valid() && db.Valid() && db.writable == old(db.writable)
    ensures (fs.nodes, db.rows, report) ==
      TossStep(old(fs.nodes), old(db.rows), old(db.writable), fs.mounts, arg, home, cwd, random, now)
  {
    var abs := Abs(cwd, arg);
    if abs.None? {
      return CannotResolve(arg);
    }
    if abs.value == TossDir(home) {
      return RefusedBin;
    }
    var moved := Mover.Move(fs, arg, BinDir(home), cwd, random, now);
    if moved.Err? {
      return NotMoved(moved.error);
    }
    var err := db.Append(moved.value);
    report := if err.None? then Tossed(abs.value) else NotRecorded(arg);
  }

  /** After turn `i`, the rest of the run is the run from `i + 1` on. */
  lemma TossAllAdvance(m: Tree, rows: seq<Ledger.Row>, writable: bool, mounts: set<Path>, args: seq<string>,
                       home: Path, cwd: Option<Path>, randoms: seq<seq<Byte>>, clock: seq<int>, i: nat,
                       reports: seq<TossReport>, whole: (Tree, seq<Ledger.Row>, seq<TossReport>),
                       m1: Tree, rows1: seq<Ledger.Row>, report: TossReport)
    requires |randoms| == |args| && |clock| == |args| && i < |args|
    requires forall j :: 0 <= j < |randoms| ==> |randoms[j]| == 16
    requires var rest := TossAll(m, rows, writable, mounts, args, home, cwd, randoms, clock, i);
      (rest.0, rest.1, reports + rest.2) == whole
    requires (m1, rows1, report) == TossStep(m, rows, writable, mounts, args[i], home, cwd, randoms[i], clock[i])
    ensures var next := TossAll(m1, rows1, writable, mounts, args, home, cwd, randoms, clock, i + 1);
      (next.0, next.1, (reports + [report]) + next.2) == whole
  {
    var next := TossAll(m1, rows1, writable, mounts, args, home, cwd, randoms, clock, i + 1);
    assert reports + ([report] + next.2) == (reports + [report]) + next.2;
  }

  /**
   * `runToss`: every argument is handled in turn and a failure moves on to the next one;
   * the exit status is 1 exactly when some argument failed. Each argument gets a fresh id
   * (`randoms[i]`) and a time (`clock[i]`).
   */
  method RunToss(fs: FileSystem, db: Ledger.Ledger, args: seq<string>, home: Path, cwd: Option<Path>,
                 randoms: seq<seq<Byte>>, clock: seq<int>)
    returns (reports: seq<TossReport>, exitCode: int)
    requires fs.Valid() && db.Valid()
    requires |randoms| == |args| && |clock| == |args|
    requires forall i :: 0 <= i < |randoms| ==> |randoms[i]| == 16
    modifies fs, db
    ensures fs.Valid() && db.Valid() && db.writable == old(db.writable)
    ensures (fs.nodes, db.rows, reports) ==
      TossAll(old(fs.nodes), old(db.rows), old(db.writable), fs.mounts, args, home, cwd, randoms, clock, 0)
    ensures exitCode == (if AnyFailed(reports) then 1 else 0)
  {
    ghost var whole := TossAll(fs.nodes, db.rows, db.writable, fs.mounts, args, home, cwd, randoms, clock, 0);
    reports := [];
    var hadError := false;
    var i := 0;
    assert reports + whole.2 == whole.2;
    while i < |args|
      invariant 0 <= i <= |args| && |reports| == i
      invariant fs.Valid() && db.Valid() && db.writable == old(db.writable)
      invariant var rest := TossAll(fs.nodes, db.rows, db.writable, fs.mounts, args, home, cwd, randoms, clock, i);
        (rest.0, rest.1, reports + rest.2) == whole
      invariant hadError == AnyFailed(reports)
    {
      ghost var n0, r0 := fs.nodes, db.rows;
      var report := TossOne(fs, db, args[i], home, cwd, randoms[i], clock[i]);
      TossAllAdvance(n0, r0, db.writable, fs.mounts, args, home, cwd, randoms, clock, i, reports, whole,
                     fs.nodes, db.rows, report);
      AnyFailedSnoc(reports, report);
      reports := reports + [report];
      hadError := hadError || Failed(report);
      i := i + 1;
    }
    assert reports + [] == reports;
    exitCode := if hadError then 1 else 0;
  }

  /** The self-toss guard: an argument that resolves to `~/.toss` is refused and changes
      nothing. */
  lemma TossRefusesTossDir(m: Tree, rows: seq<Ledger.Row>, writable: bool, mounts: set<Path>, arg: string,
                           home: Path, cwd: Option<Path>, random: seq<Byte>, now: int)
    requires |random| == 16
    ensures var o := TossStep(m, rows, writable, mounts, arg, home, cwd, random, now);
      o.2.RefusedBin? <==> Abs(cwd, arg) == Some(TossDir(home))
    ensures var o := TossStep(m, rows, writable, mounts, arg, home, cwd, random, now);
      o.2.RefusedBin? || o.2.CannotResolve? ==> o.0 == m && o.1 == rows
  {
  }

  /** moveItem can take `src` to `dst`: a permitted rename on one filesystem, a permitted
      copy and removal across filesystems. */
  ghost predicate MoveItemAllowed(m: Tree, mounts: set<Path>, src: Path, dst: Path) {
    if SameMount(mounts, Parent(src), Parent(dst)) then RenameAllowed(m, mounts, src, dst)
    else CopyAllowed(m, src, dst) && Deletable(m, mounts, src)
  }

  /** The entry Move writes for `abs`. */
  ghost function TossedEntry(m: Tree, random: seq<Byte>, now: int, abs: Path): Ledger.Entry
    requires |random| == 16 && abs in m
  {
    Ledger.Entry(Uuid.NewID(random), Render(abs), BinName(Uuid.NewID(random), abs), now, m[abs].Dir?,
                 if m[abs].Dir? then TreeSize(Subtree(m, abs)) else Size(m[abs]))
  }

  /**
   * One argument that names an object outside the bin, with the bin in place: it is tossed
   * exactly when moveItem can move it and the ledger takes a row with its id. Then the
   * object sits in the bin and the ledger gained exactly that row. When the ledger refuses
   * the row, the object stays in the bin with no new row (an orphan). When the move fails,
   * the ledger is untouched and the object is not lost.
   */
  lemma TossStepSpec(m: Tree, rows: seq<Ledger.Row>, writable: bool, mounts: set<Path>, arg: string,
                     home: Path, cwd: Option<Path>, random: seq<Byte>, now: int, abs: Path)
    requires MoveSetting(m, arg, BinDir(home), cwd, random, abs)
    ensures var o := TossStep(m, rows, writable, mounts, arg, home, cwd, random, now);
      var dest := BinPath(BinDir(home), random, abs);
      var e := TossedEntry(m, random, now, abs);
      && (o.2.Tossed? || o.2.NotRecorded? || o.2.NotMoved?)
      && (o.2.Tossed? <==> MoveItemAllowed(m, mounts, abs, dest) && writable && !Ledger.HasId(rows, e.id))
      && (o.2.Tossed? ==> o.0 == Relocate(m, abs, dest) && o.1 == rows + [Ledger.ToRow(e)] && o.2.abs == abs)
      && (o.2.NotRecorded? ==> o.0 == Relocate(m, abs, dest) && o.1 == rows)
      && (o.2.NotMoved? ==> o.1 == rows)
      && (o.2.NotMoved? ==> Subtree(o.0, abs) == Subtree(m, abs) || Subtree(o.0, dest) == Subtree(m, abs))
  {
    MoveSettingFacts(m, arg, BinDir(home), cwd, random, abs);
    assert TossDir(home) <= BinDir(home);
    TossStepMoves(m, rows, writable, mounts, arg, home, cwd, random, now, abs);
    MoveSpec(m, mounts, arg, BinDir(home), cwd, random, now, abs);
  }

  /** Past the guard, a turn is Move followed, on success, by Append. */
  lemma TossStepMoves(m: Tree, rows: seq<Ledger.Row>, writable: bool, mounts: set<Path>, arg: string,
                      home: Path, cwd: Option<Path>, random: seq<Byte>, now: int, abs: Path)
    requires |random| == 16 && Abs(cwd, arg) == Some(abs) && abs != TossDir(home)
    ensures var o := TossStep(m, rows, writable, mounts, arg, home, cwd, random, now);
      var moved := MoveOutcome(m, mounts, arg, BinDir(home), cwd, random, now);
      && o.0 == moved.0
      && (o.2.NotMoved? <==> moved.1.Err?)
      && (o.2.Tossed? <==> moved.1.Ok? && writable && !Ledger.HasId(rows, moved.1.value.id))
      && (o.2.Tossed? || o.2.NotRecorded? || o.2.NotMoved?)
      && (o.2.Tossed? ==> o.1 == rows + [Ledger.ToRow(moved.1.value)] && o.2.abs == abs)
      && (!o.2.Tossed? ==> o.1 == rows)
  {
  }

  /** How many arguments were tossed. */
  function CountTossed(reports: seq<TossReport>): (n: nat)
    ensures n <= |reports|
  {
    if reports == [] then 0 else (if reports[0].Tossed? then 1 else 0) + CountTossed(reports[1..])
  }

  // ---------------------------------------------------------------------------
  // restore

  /** What `restore` ends with. */
  datatype RestoreReport =
    | Restored(path: string)          // "restored: <path>"
    | LookupFailed(msg: string)
    | NoMatch                         // "no matching items found"
    | SelectionFailed(msg: string)
    | ConfirmFailed(msg: string)
    | RestoreAborted                  // "aborted"
    | RemovingExisting(errno: Errno)  // "removing existing file: ..."
    | RestoreFailed(cause: MoverError)
    | StaleRecord                     // "updating db: ...": restored, but the row is still there

  /** The candidates: every entry, or those matching the query, by instant. */
  function Candidates(rows: seq<Ledger.Row>, query: Option<string>): Result<seq<Ledger.Entry>, string> {
    match query
    case None => Ledger.ReadAll(Ledger.SortByTime(rows))
    case Some(q) => Ledger.ReadAll(Ledger.SortByTime(Ledger.Select(rows, q)))
  }

  /** The entry to restore: the only candidate without asking, or the one picked. */
  function Choose(entries: seq<Ledger.Entry>, input: string): (r: Result<Ledger.Entry, string>)
    requires entries != []
    ensures r.Ok? ==> r.value in entries
    ensures |entries| == 1 ==> r == Ok(entries[0])
  {
    if |entries| == 1 then Ok(entries[0]) else Ui.PickEntry(entries, input)
  }

  /** Where `e` goes back to, read against the working directory. */
  function Destination(e: Ledger.Entry, cwd: Path): Path {
    Abs(Some(cwd), e.originalPath).value
  }

  /** What is at the original path is removed, once the user agreed to it. */
  function Cleared(m: Tree, mounts: set<Path>, dest: Path): Outcome {
    if dest in m then RemoveAllOutcome(m, mounts, dest) else Outcome(m, None)
  }

  /** Clearing the original path leaves the object in the bin alone, and when it succeeds
      the path is free and nothing outside it has changed. */
  lemma ClearedSpec(m: Tree, mounts: set<Path>, src: Path, dest: Path)
    requires WellFormed(m) && !(src <= dest) && !(dest <= src)
    ensures Subtree(Cleared(m, mounts, dest).tree, src) == Subtree(m, src)
    ensures var c := Cleared(m, mounts, dest);
      c.err.None? ==>
        && WellFormed(c.tree) && dest !in c.tree
        && forall q :: q in m && !(dest <= q) ==> q in c.tree && c.tree[q] == m[q]
  {
    RemoveAllAway(m, mounts, dest, src);
    if dest in m && Cleared(m, mounts, dest).err.None? {
      RemoveAllClears(m, mounts, dest);
      RemoveAllWellFormed(m, mounts, dest);
    }
  }

  /** `restore` once the entry is chosen: ask before replacing what is at the original
      path, restore, and only then drop the row. */
  ghost function RestoreChosen(m: Tree, rows: seq<Ledger.Row>, writable: bool, mounts: set<Path>,
                               e: Ledger.Entry, confirmInput: string, binDir: Path, cwd: Path)
    : (o: (Tree, seq<Ledger.Row>, RestoreReport))
    ensures o.2.Restored? ==> o.1 == Ledger.WithoutId(rows, e.id)
    ensures !o.2.Restored? ==> o.1 == rows
    ensures o.2.ConfirmFailed? || o.2.RestoreAborted? ==> o.0 == m && Destination(e, cwd) in m
  {
    var dest := Destination(e, cwd);
    var answer := Ui.Confirm(confirmInput);
    if dest in m && answer.Err? then (m, rows, ConfirmFailed(answer.error))
    else if dest in m && !answer.value then (m, rows, RestoreAborted)
    else
      var cleared := Cleared(m, mounts, dest);
      if cleared.err.Some? then (cleared.tree, rows, RemovingExisting(cleared.err.value))
      else
        var back := RestoreOutcome(cleared.tree, mounts, e, binDir, cwd);
        if back.1.Some? then (back.0, rows, RestoreFailed(back.1.value))
        else if !writable then (back.0, rows, StaleRecord)
        else (back.0, Ledger.WithoutId(rows, e.id), Restored(e.originalPath))
  }

  /** The `restore` command: the ledger changes only when an object is restored. */
  ghost function RestoreCmdOutcome(m: Tree, rows: seq<Ledger.Row>, writable: bool, mounts: set<Path>,
                                   query: Option<string>, pickInput: string, confirmInput: string,
                                   binDir: Path, cwd: Path)
    : (o: (Tree, seq<Ledger.Row>, RestoreReport))
    ensures o.1 != rows ==> o.2.Restored?
  {
    var found := Candidates(rows, query);
    if found.Err? then (m, rows, LookupFailed(found.error))
    else if found.value == [] then (m, rows, NoMatch)
    else
      var chosen := Choose(found.value, pickInput);
      if chosen.Err? then (m, rows, SelectionFailed(chosen.error))
      else RestoreChosen(m, rows, writable, mounts, chosen.value, confirmInput, binDir, cwd)
  }

  /**
   * `restore [query]`. The numbered choice reads `pickInput` and the overwrite question
   * reads `confirmInput`.
   */
  method RunRestore(fs: FileSystem, db: Ledger.Ledger, query: Option<string>, pickInput: string,
                    confirmInput: string, binDir: Path, cwd: Path)
    returns (report: RestoreReport)
    requires fs.Valid() && db.Valid()
    modifies fs, db
    ensures fs.Valid() && db.Valid() && db.writable == old(db.writable)
    ensures (fs.nodes, db.rows, report) ==
      RestoreCmdOutcome(old(fs.nodes), old(db.rows), old(db.writable), fs.mounts, query, pickInput,
                        confirmInput, binDir, cwd)
  {
    var found: Result<seq<Ledger.Entry>, string>;
    if query.None? {
      found := db.All();
    } else {
      found := db.FindByQuery(query.value);
    }
    if found.Err? {
      return LookupFailed(found.error);
    }
    if |found.value| == 0 {
      return NoMatch;
    }
    var entry: Ledger.Entry;
    if |found.value| == 1 {
      entry := found.value[0];
    } else {
      var picked := Ui.PickEntry(found.value, pickInput);
      if picked.Err? {
        return SelectionFailed(picked.error);
      }
      entry := picked.value;
    }
    report := RestoreEntry(fs, db, entry, confirmInput, binDir, cwd);
  }

  /** The restore command once an entry is chosen: ask before replacing what is at its
      original path, restore it, then drop its row. */
  method RestoreEntry(fs: FileSystem, db: Ledger.Ledger, entry: Ledger.Entry, confirmInput: string,
                      binDir: Path, cwd: Path)
    returns (report: RestoreReport)
    requires fs.Valid() && db.Valid()
    modifies fs, db
    ensures fs.Valid() && db.Valid() && db.writable == old(db.writable)
    ensures (fs.nodes, db.rows, report) ==
      RestoreChosen(old(fs.nodes), old(db.rows), old(db.writable), fs.mounts, entry, confirmInput, binDir, cwd)
  {
    var dest := Destination(entry, cwd);
    if fs.Lstat(dest).Some? {
      var ok := Ui.Confirm(confirmInput);
      if ok.Err? {
        return ConfirmFailed(ok.error);
      }
      if !ok.value {
        return RestoreAborted;
      }
      var removed := fs.RemoveAll(dest);
      if removed.Some? {
        return RemovingExisting(removed.value);
      }
    }
    var err := Mover.Restore(fs, entry, binDir, cwd);
    if err.Some? {
      return RestoreFailed(err.value);
    }
    var dbErr := db.Remove(entry.id);
    if dbErr.Some? {
      return StaleRecord;
    }
    return Restored(entry.originalPath);
  }

  /**
   * `restore` up to the choice: the candidates are every entry, or those matching the query;
   * none gives "no matching items found"; several go through the numbered choice. Nothing
   * changes until an entry is chosen.
   */
  lemma RestoreCmdSpec(m: Tree, rows: seq<Ledger.Row>, writable: bool, mounts: set<Path>,
                       query: Option<string>, pickInput: string, confirmInput: string, binDir: Path, cwd: Path)
    ensures var o := RestoreCmdOutcome(m, rows, writable, mounts, query, pickInput, confirmInput, binDir, cwd);
      var found := Candidates(rows, query);
      && (o.2.NoMatch? <==> found.Ok? && found.value == [])
      && (o.2.LookupFailed? <==> found.Err?)
      && (o.2.LookupFailed? || o.2.NoMatch? || o.2.SelectionFailed? ==> o.0 == m && o.1 == rows)
      && (found.Ok? && |found.value| > 1 ==>
            match Ui.PickEntry(found.value, pickInput)
            case Err(msg) => o == (m, rows, SelectionFailed(msg))
            case Ok(e) => o == RestoreChosen(m, rows, writable, mounts, e, confirmInput, binDir, cwd))
  {
    var found := Candidates(rows, query);
    if found.Ok? && found.value != [] {
      var chosen := Choose(found.value, pickInput);
      if chosen.Ok? {
        RestoreChosenSteps(m, rows, writable, mounts, chosen.value, confirmInput, binDir, cwd);
      }
    }
  }

  /** With a single candidate nothing is asked: the outcome does not depend on the input to
      the numbered choice. */
  lemma RestoreSingleCandidate(m: Tree, rows: seq<Ledger.Row>, writable: bool, mounts: set<Path>,
                               query: Option<string>, pick1: string, pick2: string, confirmInput: string,
                               binDir: Path, cwd: Path)
    requires Candidates(rows, query).Ok? && |Candidates(rows, query).value| == 1
    ensures RestoreCmdOutcome(m, rows, writable, mounts, query, pick1, confirmInput, binDir, cwd) ==
      RestoreCmdOutcome(m, rows, writable, mounts, query, pick2, confirmInput, binDir, cwd)
    ensures RestoreCmdOutcome(m, rows, writable, mounts, query, pick1, confirmInput, binDir, cwd) ==
      RestoreChosen(m, rows, writable, mounts, Candidates(rows, query).value[0], confirmInput, binDir, cwd)
  {
  }

  /**
   * `restore` of a chosen entry whose object is in the bin, away from its original path.
   * The row goes only when the object is back: then the original path holds the object as
   * it was in the bin, the bin no longer does, and every other path outside both is as it
   * was. Declining the overwrite question changes nothing. A failed restore keeps the row
   * and loses nothing; a ledger that refuses the removal leaves a stale row for an object
   * that is back in place.
   */
  lemma RestoreChosenSpec(m: Tree, rows: seq<Ledger.Row>, writable: bool, mounts: set<Path>,
                          e: Ledger.Entry, confirmInput: string, binDir: Path, cwd: Path)
    requires WellFormed(m)
    requires var src := JoinName(binDir, e.binName); var dest := Destination(e, cwd);
      src in m && src != [] && !(src <= dest) && !(dest <= src)
    ensures var o := RestoreChosen(m, rows, writable, mounts, e, confirmInput, binDir, cwd);
      var src := JoinName(binDir, e.binName); var dest := Destination(e, cwd);
      && (dest in m && Ui.Confirm(confirmInput) == Ok(false) ==> o == (m, rows, RestoreAborted))
      && (o.1 != rows ==> o.2.Restored?)
      && (o.2.Restored? ==> o.1 == Ledger.WithoutId(rows, e.id))
      && (o.2.Restored? || o.2.StaleRecord? ==>
            dest in o.0 && Subtree(o.0, dest) == Subtree(m, src) && src !in o.0
            && forall q :: q in m && !(src <= q) && !(dest <= q) ==> q in o.0 && o.0[q] == m[q])
      && (!o.2.Restored? ==> o.1 == rows)
      && (!o.2.Restored? && !o.2.StaleRecord? ==>
            Subtree(o.0, src) == Subtree(m, src) || Subtree(o.0, dest) == Subtree(m, src))
  {
    var src := JoinName(binDir, e.binName);
    var dest := Destination(e, cwd);
    var c := Cleared(m, mounts, dest);
    RestoreChosenSteps(m, rows, writable, mounts, e, confirmInput, binDir, cwd);
    ClearedSpec(m, mounts, src, dest);
    assert src + [] == src;
    assert [] in Subtree(m, src);
    if c.err.None? {
      assert [] in Subtree(c.tree, src);
      RestoreSpec(c.tree, mounts, src, dest);
    }
  }

  /** The steps of `restore` of a chosen entry, each with what it leaves. */
  lemma RestoreChosenSteps(m: Tree, rows: seq<Ledger.Row>, writable: bool, mounts: set<Path>,
                           e: Ledger.Entry, confirmInput: string, binDir: Path, cwd: Path)
    ensures var o := RestoreChosen(m, rows, writable, mounts, e, confirmInput, binDir, cwd);
      var src := JoinName(binDir, e.binName); var dest := Destination(e, cwd);
      var c := Cleared(m, mounts, dest);
      var back := RestoreAt(c.tree, mounts, src, dest);
      && (dest in m && Ui.Confirm(confirmInput) == Ok(false) ==> o == (m, rows, RestoreAborted))
      && (o.2.ConfirmFailed? || o.2.RestoreAborted? ==> o.0 == m && o.1 == rows)
      && (o.2.RemovingExisting? ==> o.0 == c.tree && o.1 == rows)
      && (o.2.RestoreFailed? ==> c.err.None? && back.1.Some? && o.0 == back.0 && o.1 == rows)
      && (o.2.StaleRecord? ==> c.err.None? && back.1.None? && o.0 == back.0 && o.1 == rows)
      && (o.2.Restored? ==> c.err.None? && back.1.None? && o.0 == back.0 && o.1 == Ledger.WithoutId(rows, e.id))
      && (o.2.ConfirmFailed? || o.2.RestoreAborted? || o.2.RemovingExisting? || o.2.RestoreFailed?
          || o.2.StaleRecord? || o.2.Restored?)
  {
    var dest := Destination(e, cwd);
    var answer := Ui.Confirm(confirmInput);
    if !(dest in m && (answer.Err? || !answer.value)) {
      var c := Cleared(m, mounts, dest);
      if c.err.None? {
        var back := RestoreOutcome(c.tree, mounts, e, binDir, cwd);
        assert RestoreChosen(m, rows, writable, mounts, e, confirmInput, binDir, cwd) ==
          if back.1.Some? then (back.0, rows, RestoreFailed(back.1.value))
          else if !writable then (back.0, rows, StaleRecord)
          else (back.0, Ledger.WithoutId(rows, e.id), Restored(e.originalPath));
      }
    }
  }

  /**
   * A toss and then a restore, end to end: when the ledger was empty and the object was
   * tossed on the filesystem of the bin, a `restore` with no query (run from any working
   * directory, whatever it is given to read) brings the disk and the ledger back to where
   * they were.
   */
  lemma TossThenRestore(m: Tree, writable: bool, mounts: set<Path>, arg: string, home: Path,
                        cwd: Option<Path>, random: seq<Byte>, now: int, abs: Path,
                        pickInput: string, confirmInput: string, cwd2: Path)
    requires MoveSetting(m, arg, BinDir(home), cwd, random, abs) && MountsOnDisk(m, mounts)
    requires SameMount(mounts, Parent(abs), BinDir(home))
    requires Ledger.MinStoredSecond * Ledger.NanosPerSecond <= now < (Ledger.MaxStoredSecond + 1) * Ledger.NanosPerSecond
    requires TossStep(m, [], writable, mounts, arg, home, cwd, random, now).2.Tossed?
    ensures var t := TossStep(m, [], writable, mounts, arg, home, cwd, random, now);
      RestoreCmdOutcome(t.0, t.1, writable, mounts, None, pickInput, confirmInput, BinDir(home), cwd2) ==
        (m, [], Restored(Render(abs)))
  {
    var binDir := BinDir(home);
    var t := TossStep(m, [], writable, mounts, arg, home, cwd, random, now);
    var moved := MoveOutcome(m, mounts, arg, binDir, cwd, random, now);
    MoveSettingFacts(m, arg, binDir, cwd, random, abs);
    assert TossDir(home) <= binDir;
    TossStepMoves(m, [], writable, mounts, arg, home, cwd, random, now, abs);
    var e := moved.1.value;
    assert t.0 == moved.0 && t.1 == [Ledger.ToRow(e)] && writable;
    MovedBack(m, mounts, arg, binDir, cwd, random, now, abs, cwd2);
    OneRowCandidates(e);
    var stored := Ledger.Stored(e);
    RestoreSingleCandidate(t.0, t.1, writable, mounts, None, pickInput, pickInput, confirmInput, binDir, cwd2);
    StoredDestination(e, abs, cwd2);
    RestoreChosenBack(t.0, t.1, writable, mounts, stored, confirmInput, binDir, cwd2, m);
    assert stored.id == e.id && stored.originalPath == Render(abs);
    assert Ledger.WithoutId(t.1, e.id) == [];
  }

  /** The facts about a Move on one filesystem that the round trip above rests on. */
  lemma MovedBack(m: Tree, mounts: set<Path>, arg: string, binDir: Path, cwd: Option<Path>,
                  random: seq<Byte>, now: int, abs: Path, cwd2: Path)
    requires MoveSetting(m, arg, binDir, cwd, random, abs) && MountsOnDisk(m, mounts)
    requires SameMount(mounts, Parent(abs), binDir)
    requires MoveOutcome(m, mounts, arg, binDir, cwd, random, now).1.Ok?
    ensures var moved := MoveOutcome(m, mounts, arg, binDir, cwd, random, now);
      && abs !in moved.0 && IsClean(abs)
      && moved.1.value.originalPath == Render(abs)
      && moved.1.value.tossedAt == now
      && RestoreOutcome(moved.0, mounts, Ledger.Stored(moved.1.value), binDir, cwd2) == (m, None)
  {
    MoveSettingFacts(m, arg, binDir, cwd, random, abs);
    MoveSpec(m, mounts, arg, binDir, cwd, random, now, abs);
    MovedDisk(m, mounts, arg, binDir, cwd, random, now, abs);
    MoveRestoreRoundTrip(m, mounts, arg, binDir, cwd, random, now, abs, cwd2);
  }

  /** A ledger of one row offers that row's entry, read back, as the only candidate. */
  lemma OneRowCandidates(e: Ledger.Entry)
    requires Ledger.MinStoredSecond * Ledger.NanosPerSecond <= e.tossedAt < (Ledger.MaxStoredSecond + 1) * Ledger.NanosPerSecond
    ensures Candidates([Ledger.ToRow(e)], None) == Ok([Ledger.Stored(e)])
  {
    var rows := [Ledger.ToRow(e)];
    Ledger.AppendThenAll([], e);
    assert [] + [Ledger.ToRow(e)] == rows;
    var found := Candidates(rows, None);
    Ledger.ReadAllSpec(Ledger.SortByTime(rows));
    assert |found.value| == 1 && Ledger.Stored(e) in found.value;
    assert found.value == [found.value[0]];
  }

  /** The entry read back sends the object to the path it was tossed from. */
  lemma StoredDestination(e: Ledger.Entry, abs: Path, cwd: Path)
    requires e.originalPath == Render(abs) && IsClean(abs)
    ensures Destination(Ledger.Stored(e), cwd) == abs
  {
    RenderRoundTrip(Some(cwd), abs);
  }

  /** With nothing at the original path and a restore that succeeds, `restore` of the
      chosen entry is that restore followed by dropping the row. */
  lemma RestoreChosenBack(m1: Tree, rows: seq<Ledger.Row>, writable: bool, mounts: set<Path>, e: Ledger.Entry,
                          confirmInput: string, binDir: Path, cwd: Path, m: Tree)
    requires Destination(e, cwd) !in m1 && writable
    requires RestoreOutcome(m1, mounts, e, binDir, cwd) == (m, None)
    ensures RestoreChosen(m1, rows, writable, mounts, e, confirmInput, binDir, cwd) ==
      (m, Ledger.WithoutId(rows, e.id), Restored(e.originalPath))
  {
  }

  // ---------------------------------------------------------------------------
  // empty

  /** What `empty` ends with. */
  datatype EmptyReport =
    | Emptied(count: nat)             // "emptied bin (<count> item(s) permanently deleted)"
    | ListFailed(msg: string)
    | AlreadyEmpty                    // "bin is already empty"
    | EmptyConfirmFailed(msg: string)
    | EmptyAborted                    // "aborted"
    | EmptyFailed(cause: MoverError)
    | ClearFailed                     // "clearing db: ...": the bin is empty, the rows remain

  /** The `empty` command: the ledger is cleared only when the bin was emptied, and the disk
      changes only once the user agreed or forced it. */
  ghost function EmptyCmdOutcome(m: Tree, rows: seq<Ledger.Row>, writable: bool, mounts: set<Path>, force: bool, input: string,
                                 binDir: Path)
    : (o: (Tree, seq<Ledger.Row>, EmptyReport))
    ensures o.1 == rows || (o.2.Emptied? && o.1 == [])
    ensures o.0 != m ==> force || Ui.Confirm(input) == Ok(true)
  {
    var found := Ledger.ReadAll(Ledger.SortByTime(rows));
    if found.Err? then (m, rows, ListFailed(found.error))
    else if found.value == [] then (m, rows, AlreadyEmpty)
    else
      var answer := if force then Ok(true) else Ui.Confirm(input);
      if answer.Err? then (m, rows, EmptyConfirmFailed(answer.error))
      else if !answer.value then (m, rows, EmptyAborted)
      else
        var emptied := EmptyOutcome(m, mounts, binDir);
        if emptied.1.Some? then (emptied.0, rows, EmptyFailed(emptied.1.value))
        else if !writable then (emptied.0, rows, ClearFailed)
        else (emptied.0, [], Emptied(|found.value|))
  }

  /** `empty [--force]`: the question, unless forced, reads `input`. */
  method RunEmpty(fs: FileSystem, db: Ledger.Ledger, force: bool, input: string, binDir: Path)
    returns (report: EmptyReport)
    requires fs.Valid() && db.Valid()
    modifies fs, db
    ensures fs.Valid() && db.Valid() && db.writable == old(db.writable)
    ensures (fs.nodes, db.rows, report) ==
      EmptyCmdOutcome(old(fs.nodes), old(db.rows), old(db.writable), fs.mounts, force, input, binDir)
  {
    var entries := db.All();
    if entries.Err? {
      return ListFailed(entries.error);
    }
    if |entries.value| == 0 {
      return AlreadyEmpty;
    }
    if !force {
      var ok := Ui.Confirm(input);
      if ok.Err? {
        return EmptyConfirmFailed(ok.error);
      }
      if !ok.value {
        return EmptyAborted;
      }
    }
    var err := Mover.Empty(fs, binDir);
    if err.Some? {
      return EmptyFailed(err.value);
    }
    var dbErr := db.Clear();
    if dbErr.Some? {
      return ClearFailed;
    }
    return Emptied(|entries.value|);
  }

  /**
   * `empty`: an empty ledger means nothing is done, forced or not, and so does a declined
   * question. The ledger is cleared only after the bin was emptied, and the count reported
   * is the number of rows there were. Then the bin is an empty directory and everything
   * outside it is as it was. A failed Empty leaves the ledger alone; a ledger that refuses
   * the clearing keeps rows for objects that are gone. A ledger with an unreadable row
   * stops the command before anything is done.
   */
  lemma EmptyCmdSpec(m: Tree, rows: seq<Ledger.Row>, writable: bool, mounts: set<Path>, force: bool, input: string, binDir: Path)
    requires WellFormed(m)
    ensures var o := EmptyCmdOutcome(m, rows, writable, mounts, force, input, binDir);
      && (rows == [] ==> o == (m, rows, AlreadyEmpty))
      && (o.2.ListFailed? <==> !Ledger.Readable(rows))
      && (rows != [] && !force && Ui.Confirm(input) == Ok(false) ==> o.2.ListFailed? || o == (m, rows, EmptyAborted))
      && (o.1 != rows ==> o.2.Emptied?)
      && (o.2.Emptied? ==> o.1 == [] && o.2.count == |rows|)
      && (o.2.Emptied? || o.2.ClearFailed? ==>
            && binDir in o.0 && o.0[binDir] == Dir(DirMode)
            && (forall q :: q in o.0 ==> !(binDir < q))
            && (forall q :: q in m && !(binDir <= q) ==> q in o.0 && o.0[q] == m[q]))
      && (!o.2.Emptied? ==> o.1 == rows)
      && (!o.2.Emptied? && !o.2.ClearFailed? && !o.2.EmptyFailed? ==> o.0 == m)
  {
    var sorted := Ledger.SortByTime(rows);
    Ledger.ReadAllSpec(sorted);
    SortedReadableBoth(rows);
    EmptyCmdSteps(m, rows, writable, mounts, force, input, binDir);
    EmptySpec(m, mounts, binDir);
  }

  /** The steps of `empty`, each with what it leaves. */
  lemma EmptyCmdSteps(m: Tree, rows: seq<Ledger.Row>, writable: bool, mounts: set<Path>, force: bool, input: string, binDir: Path)
    ensures var o := EmptyCmdOutcome(m, rows, writable, mounts, force, input, binDir);
      var found := Ledger.ReadAll(Ledger.SortByTime(rows));
      var emptied := EmptyOutcome(m, mounts, binDir);
      && (o.2.ListFailed? <==> found.Err?)
      && (found.Ok? && found.value == [] ==> o == (m, rows, AlreadyEmpty))
      && (found.Ok? && found.value != [] && !force && Ui.Confirm(input) == Ok(false) ==> o == (m, rows, EmptyAborted))
      && (o.2.ListFailed? || o.2.AlreadyEmpty? || o.2.EmptyConfirmFailed? || o.2.EmptyAborted? ==> o.0 == m && o.1 == rows)
      && (o.2.EmptyFailed? ==> o.0 == emptied.0 && emptied.1.Some? && o.1 == rows)
      && (o.2.ClearFailed? ==> o.0 == emptied.0 && emptied.1.None? && o.1 == rows)
      && (o.2.Emptied? ==> o.0 == emptied.0 && emptied.1.None? && o.1 == [] && found.Ok? && o.2.count == |found.value|)
  {
    var found := Ledger.ReadAll(Ledger.SortByTime(rows));
    if found.Ok? && found.value != [] {
      var answer := if force then Ok(true) else Ui.Confirm(input);
      if answer.Ok? && answer.value {
        var emptied := EmptyOutcome(m, mounts, binDir);
        assert EmptyCmdOutcome(m, rows, writable, mounts, force, input, binDir) ==
          if emptied.1.Some? then (emptied.0, rows, EmptyFailed(emptied.1.value))
          else if !writable then (emptied.0, rows, ClearFailed)
          else (emptied.0, [], Emptied(|found.value|));
      }
    }
  }

  /** Sorting keeps the rows, so it keeps whether all of them are readable. */
  lemma SortedReadableBoth(rows: seq<Ledger.Row>)
    ensures Ledger.Readable(Ledger.SortByTime(rows)) <==> Ledger.Readable(rows)
  {
    var sorted := Ledger.SortByTime(rows);
    assert multiset(sorted) == multiset(rows);
    if Ledger.Readable(rows) {
      forall i | 0 <= i < |sorted| ensures Ledger.ReadRow(sorted[i]).Ok? {
        assert sorted[i] in multiset(rows);
      }
    }
    if Ledger.Readable(sorted) {
      forall i | 0 <= i < |rows| ensures Ledger.ReadRow(rows[i]).Ok? {
        assert rows[i] in multiset(sorted);
      }
    }
  }
}
