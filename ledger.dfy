/**
 * The metadata ledger: the `entries` table that records every object in the bin.
 *
 * The SQLite table is kept as the sequence of its stored rows, in insertion order. A row
 * holds what the INSERT statement writes: the tossed-at instant as whole seconds (the
 * RFC 3339 UTC text keeps no fraction), the directory flag as an integer. Reading a row
 * back turns it into an Entry again: the instant becomes nanoseconds, the flag becomes
 * `isDir != 0`, and the stored bin name is reduced to its last path element.
 */
module Ledger {
  import opened Wrappers
  import opened Text
  import Paths

  /** One record as the program handles it; `tossedAt` is nanoseconds since the Unix epoch. */
  datatype Entry = Entry(
    id: string,
    originalPath: string,
    binName: string,
    tossedAt: int,
    isDir: bool,
    sizeBytes: int)

  /** One stored row of the `entries` table; `tossedAt` is whole seconds since the epoch. */
  datatype Row = Row(
    id: string,
    originalPath: string,
    binName: string,
    tossedAt: int,
    isDir: int,
    sizeBytes: int)

  const NanosPerSecond: int := 1_000_000_000

  /** 0000-01-01T00:00:00Z and 9999-12-31T23:59:59Z: the instants whose RFC 3339 text has a
      four-digit year, which is all that `time.Parse` accepts back. */
  const MinStoredSecond: int := -62_167_219_200
  const MaxStoredSecond: int := 253_402_300_799

  function BoolToInt(b: bool): (n: int)
    ensures n == 0 || n == 1
    ensures (n != 0) == b
  {
    if b then 1 else 0
  }

  /** The row that `Append` writes for an entry: the instant is cut to whole seconds. */
  function ToRow(e: Entry): (r: Row)
    ensures r.tossedAt * NanosPerSecond <= e.tossedAt < (r.tossedAt + 1) * NanosPerSecond
    ensures (r.isDir != 0) == e.isDir
  {
    Row(e.id, e.originalPath, e.binName, e.tossedAt / NanosPerSecond, BoolToInt(e.isDir), e.sizeBytes)
  }

  /** One step of the scan loop: a stored instant outside four-digit years does not parse. */
  function ReadRow(r: Row): (res: Result<Entry, string>)
    ensures res.Ok? <==> MinStoredSecond <= r.tossedAt <= MaxStoredSecond
    ensures res.Ok? ==> res.value.id == r.id && res.value.originalPath == r.originalPath
    ensures res.Ok? ==> res.value.tossedAt == r.tossedAt * NanosPerSecond
    ensures res.Ok? ==> res.value.isDir == (r.isDir != 0) && res.value.sizeBytes == r.sizeBytes
    ensures res.Ok? ==> res.value.binName == Paths.Base(r.binName)
  {
    if MinStoredSecond <= r.tossedAt <= MaxStoredSecond then
      Ok(Entry(r.id, r.originalPath, Paths.Base(r.binName), r.tossedAt * NanosPerSecond, r.isDir != 0, r.sizeBytes))
    else
      Err("parsing tossed_at")
  }

  /** An entry as it reads back after being written: the same record with its instant cut to
      whole seconds and its bin name reduced to the last path element. */
  function Stored(e: Entry): Entry {
    e.(tossedAt := e.tossedAt / NanosPerSecond * NanosPerSecond, binName := Paths.Base(e.binName))
  }

  /** Writing an entry and reading it back gives it back at one-second resolution; a bin name
      that is already a single element comes back unchanged. */
  lemma RowRoundTrip(e: Entry)
    requires MinStoredSecond * NanosPerSecond <= e.tossedAt < (MaxStoredSecond + 1) * NanosPerSecond
    ensures ReadRow(ToRow(e)) == Ok(Stored(e))
    ensures e.binName != [] && '/' !in e.binName ==> Stored(e).binName == e.binName
    ensures e.tossedAt % NanosPerSecond == 0 ==> Stored(e).tossedAt == e.tossedAt
  {
    var s := e.tossedAt / NanosPerSecond;
    assert MinStoredSecond <= s <= MaxStoredSecond;
    if e.binName != [] && '/' !in e.binName {
      Paths.BaseOfElement(e.binName);
    }
  }

  /** What the scan loop returns for a sequence of rows: every row read, or the first error. */
  function ReadAll(rows: seq<Row>): (r: Result<seq<Entry>, string>)
    ensures r.Ok? ==> |r.value| == |rows|
  {
    if rows == [] then Ok([])
    else
      match ReadAll(rows[..|rows| - 1])
      case Err(msg) => Err(msg)
      case Ok(es) =>
        match ReadRow(rows[|rows| - 1])
        case Err(msg) => Err(msg)
        case Ok(e) => Ok(es + [e])
  }

  predicate Readable(rows: seq<Row>) {
    forall i :: 0 <= i < |rows| ==> ReadRow(rows[i]).Ok?
  }

  /** The scan succeeds exactly when every row is readable, and then it reads each row in place. */
  lemma {:induction false} ReadAllSpec(rows: seq<Row>)
    ensures ReadAll(rows).Ok? <==> Readable(rows)
    ensures ReadAll(rows).Ok? ==>
      forall i :: 0 <= i < |rows| ==> ReadAll(rows).value[i] == ReadRow(rows[i]).value
  {
    if rows != [] {
      var init := rows[..|rows| - 1];
      var last := rows[|rows| - 1];
      ReadAllSpec(init);
      var r := ReadAll(rows);
      var ri := ReadAll(init);
      if ri.Err? {
        assert r.Err?;
        var j :| 0 <= j < |init| && ReadRow(init[j]).Err?;
        assert rows[j] == init[j];
      } else if ReadRow(last).Err? {
        assert r.Err?;
      } else {
        assert r.value == ri.value + [ReadRow(last).value];
        forall i | 0 <= i < |rows| ensures ReadRow(rows[i]).Ok? && r.value[i] == ReadRow(rows[i]).value {
          if i < |init| {
            assert rows[i] == init[i];
          }
        }
      }
    }
  }

  /** Once a prefix fails to read, the whole scan fails with the same error. */
  lemma {:induction false} ReadAllErrPrefix(rows: seq<Row>, n: nat)
    requires n <= |rows| && ReadAll(rows[..n]).Err?
    ensures ReadAll(rows) == ReadAll(rows[..n])
    decreases |rows|
  {
    if n == |rows| {
      assert rows[..n] == rows;
    } else {
      var init := rows[..|rows| - 1];
      assert init[..n] == rows[..n];
      ReadAllErrPrefix(init, n);
    }
  }

  /**
   * `scanEntries`: the loop that reads the query's rows one by one, appending each entry and
   * stopping at the first row whose instant does not parse.
   */
  method ScanEntries(rows: seq<Row>) returns (r: Result<seq<Entry>, string>)
    ensures r == ReadAll(rows)
  {
    var entries: seq<Entry> := [];
    var i := 0;
    while i < |rows|
      invariant 0 <= i <= |rows|
      invariant ReadAll(rows[..i]) == Ok(entries)
    {
      assert rows[..i + 1][..i] == rows[..i];
      var e := ReadRow(rows[i]);
      if e.Err? {
        ReadAllErrPrefix(rows, i + 1);
        return Err(e.error);
      }
      entries := entries + [e.value];
      i := i + 1;
    }
    assert rows[..i] == rows;
    return Ok(entries);
  }

  // ---------------------------------------------------------------------------
  // ORDER BY tossed_at

  predicate SortedByTime(rows: seq<Row>) {
    forall i, j :: 0 <= i < j < |rows| ==> rows[i].tossedAt <= rows[j].tossedAt
  }

  predicate EntriesByTime(es: seq<Entry>) {
    forall i, j :: 0 <= i < j < |es| ==> es[i].tossedAt <= es[j].tossedAt
  }

  /** Places `x` before the first row of `s` that is not earlier than it. */
  function Insert(x: Row, s: seq<Row>): (r: seq<Row>)
    ensures multiset(r) == multiset(s) + multiset{x}
    ensures forall y :: y in r <==> y == x || y in s
  {
    if s == [] || x.tossedAt <= s[0].tossedAt then [x] + s
    else
      assert s == [s[0]] + s[1..];
      [s[0]] + Insert(x, s[1..])
  }

  /** In a sorted sequence the first row is no later than any other. */
  lemma SortedHeadLeast(s: seq<Row>)
    requires SortedByTime(s) && s != []
    ensures SortedByTime(s[1..])
    ensures forall y :: y in s[1..] ==> s[0].tossedAt <= y.tossedAt
  {
    forall y | y in s[1..] ensures s[0].tossedAt <= y.tossedAt {
      var k :| 0 <= k < |s[1..]| && s[1..][k] == y;
      assert s[k + 1] == y;
    }
  }

  lemma SortedCons(h: Row, t: seq<Row>)
    requires SortedByTime(t)
    requires forall y :: y in t ==> h.tossedAt <= y.tossedAt
    ensures SortedByTime([h] + t)
  {
    var r := [h] + t;
    forall i, j | 0 <= i < j < |r| ensures r[i].tossedAt <= r[j].tossedAt {
      assert r[j] == t[j - 1];
      if i > 0 {
        assert r[i] == t[i - 1];
      } else {
        assert r[j] in t;
      }
    }
  }

  lemma {:induction false} InsertSorted(x: Row, s: seq<Row>)
    requires SortedByTime(s)
    ensures SortedByTime(Insert(x, s))
  {
    if s == [] || x.tossedAt <= s[0].tossedAt {
      if s != [] {
        SortedHeadLeast(s);
        assert forall y :: y in s ==> y == s[0] || y in s[1..];
      }
      SortedCons(x, s);
    } else {
      SortedHeadLeast(s);
      InsertSorted(x, s[1..]);
      SortedCons(s[0], Insert(x, s[1..]));
    }
  }

  /** The order the query returns rows in: sorted by instant, holding exactly the stored rows. */
  function SortByTime(rows: seq<Row>): (r: seq<Row>)
    ensures SortedByTime(r)
    ensures multiset(r) == multiset(rows)
    ensures |r| == |rows|
  {
    if rows == [] then []
    else
      assert rows == [rows[0]] + rows[1..];
      var rest := SortByTime(rows[1..]);
      InsertSorted(rows[0], rest);
      Insert(rows[0], rest)
  }

  /** Reading rows sorted by their stored second gives entries sorted by their instant. */
  lemma ReadSortedIsSorted(rows: seq<Row>)
    requires SortedByTime(rows)
    requires ReadAll(rows).Ok?
    ensures EntriesByTime(ReadAll(rows).value)
  {
    ReadAllSpec(rows);
    var es := ReadAll(rows).value;
    forall i, j | 0 <= i < j < |es| ensures es[i].tossedAt <= es[j].tossedAt {
      assert es[i].tossedAt == rows[i].tossedAt * NanosPerSecond;
      assert es[j].tossedAt == rows[j].tossedAt * NanosPerSecond;
    }
  }

  // ---------------------------------------------------------------------------
  // WHERE LOWER(original_path) LIKE ? OR LOWER(bin_name) LIKE ?

  /**
   * SQLite's LIKE without an ESCAPE clause: '%' matches any run of characters, '_' any one
   * character, and other characters match up to ASCII case.
   */
  predicate Like(p: string, s: string)
    ensures NoWildcards(p) ==> (Like(p, s) <==> Lower(p) == Lower(s))
    decreases |p| + |s|
  {
    LowerCons(p, s);
    if p == [] then s == []
    else if p[0] == '%' then Like(p[1..], s) || (s != [] && Like(p, s[1..]))
    else s != [] && (p[0] == '_' || LowerChar(p[0]) == LowerChar(s[0])) && Like(p[1..], s[1..])
  }

  /** The pattern the query builds from the user's text. */
  function Pattern(q: string): (r: string)
    ensures NoWildcards(q) ==> forall s :: IsLowered(s) ==> (Like(r, s) <==> Contains(s, Lower(q)))
  {
    LowerIsLowered(q);
    PatternContains(Lower(q));
    "%" + Lower(q) + "%"
  }

  /** The query's match: for a query without '%' or '_', its lowered text occurs in the
      lowered path or in the lowered stored bin name. */
  predicate Matches(r: Row, q: string)
    ensures NoWildcards(q) ==>
      (Matches(r, q) <==> Contains(Lower(r.originalPath), Lower(q)) || Contains(Lower(r.binName), Lower(q)))
  {
    LowerIsLowered(r.originalPath);
    LowerIsLowered(r.binName);
    Like(Pattern(q), Lower(r.originalPath)) || Like(Pattern(q), Lower(r.binName))
  }

  /** Two texts agree up to case exactly when their first characters and their tails do. */
  lemma LowerCons(p: string, s: string)
    ensures p == [] ==> (Lower(p) == Lower(s) <==> s == [])
    ensures p != [] && s == [] ==> Lower(p) != Lower(s)
    ensures p != [] && s != [] ==>
      (Lower(p) == Lower(s) <==> LowerChar(p[0]) == LowerChar(s[0]) && Lower(p[1..]) == Lower(s[1..]))
    ensures p != [] ==> NoWildcards(p) ==> NoWildcards(p[1..]) && p[0] != '%' && p[0] != '_'
  {
    if p != [] && s != [] && LowerChar(p[0]) == LowerChar(s[0]) && Lower(p[1..]) == Lower(s[1..]) {
      assert Lower(p) == [LowerChar(p[0])] + Lower(p[1..]);
      assert Lower(s) == [LowerChar(s[0])] + Lower(s[1..]);
    }
    if p != [] && s != [] && Lower(p) == Lower(s) {
      assert Lower(p)[1..] == Lower(p[1..]);
      assert Lower(s)[1..] == Lower(s[1..]);
    }
    if p != [] && NoWildcards(p) {
      assert p[0] in p;
      assert forall c :: c in p[1..] ==> c in p;
    }
  }

  /** For a wildcard-free lowered word, the pattern "%word%" is a substring test. */
  lemma PatternContains(w: string)
    ensures NoWildcards(w) && IsLowered(w) ==>
      forall s :: IsLowered(s) ==> (Like("%" + w + "%", s) <==> Contains(s, w))
  {
    if NoWildcards(w) && IsLowered(w) {
      forall s | IsLowered(s) ensures Like("%" + w + "%", s) <==> Contains(s, w) {
        LikeContains(w, s);
      }
    }
  }

  predicate NoWildcards(q: string) {
    '%' !in q && '_' !in q
  }

  predicate IsLowered(s: string) {
    forall i :: 0 <= i < |s| ==> LowerChar(s[i]) == s[i]
  }

  lemma LowerIsLowered(s: string)
    ensures IsLowered(Lower(s))
    ensures NoWildcards(s) ==> NoWildcards(Lower(s))
  {
    if NoWildcards(s) {
      forall i | 0 <= i < |s| ensures Lower(s)[i] != '%' && Lower(s)[i] != '_' {
        assert s[i] in s;
      }
    }
  }

  lemma {:induction false} LikeAnyTail(s: string)
    ensures Like("%", s)
  {
    if s != [] {
      LikeAnyTail(s[1..]);
    }
  }

  /** A wildcard-free lowered word followed by '%' matches exactly the texts it begins. */
  lemma {:induction false} LikePrefix(w: string, s: string)
    requires NoWildcards(w) && IsLowered(w) && IsLowered(s)
    ensures Like(w + "%", s) <==> w <= s
  {
    if w == [] {
      assert w + "%" == "%";
      LikeAnyTail(s);
    } else {
      assert (w + "%")[0] == w[0];
      assert (w + "%")[1..] == w[1..] + "%";
      assert w[0] in w;
      if s != [] {
        assert LowerChar(w[0]) == w[0] && LowerChar(s[0]) == s[0];
        LikePrefix(w[1..], s[1..]);
        assert w <= s <==> w[0] == s[0] && w[1..] <= s[1..];
      }
    }
  }

  /** For a wildcard-free query, the LIKE pattern is a substring test. */
  lemma {:induction false} LikeContains(w: string, s: string)
    requires NoWildcards(w) && IsLowered(w) && IsLowered(s)
    ensures Like("%" + w + "%", s) <==> Contains(s, w)
  {
    var p := "%" + w + "%";
    assert p[0] == '%';
    assert p[1..] == w + "%";
    LikePrefix(w, s);
    if s != [] {
      LikeContains(w, s[1..]);
    }
  }

  /** The empty query matches every row. */
  lemma EmptyQueryMatchesAll(r: Row)
    ensures Matches(r, "")
  {
    assert Pattern("") == "%%";
    assert "%%"[1..] == "%";
    LikeAnyTail(Lower(r.originalPath));
  }

  /** The unescaped '_' in a query is a wildcard: "_" matches any row with a non-empty path. */
  lemma UnderscoreIsWildcard(r: Row)
    requires r.originalPath != []
    ensures Matches(r, "_")
  {
    var s := Lower(r.originalPath);
    assert Pattern("_") == "%_%";
    assert "%_%"[1..] == "_%" && "_%"[1..] == "%";
    LikeAnyTail(s[1..]);
    assert Like("_%", s);
  }

  /** The rows the WHERE clause keeps, in stored order. */
  function Select(rows: seq<Row>, q: string): (r: seq<Row>)
    ensures forall x :: x in r <==> x in rows && Matches(x, q)
    ensures |r| <= |rows|
  {
    if rows == [] then []
    else if Matches(rows[0], q) then [rows[0]] + Select(rows[1..], q)
    else
      assert forall x :: x in rows <==> x == rows[0] || x in rows[1..];
      Select(rows[1..], q)
  }

  /** The rows a DELETE ... WHERE id = ? leaves, in stored order. */
  function WithoutId(rows: seq<Row>, id: string): (r: seq<Row>)
    ensures forall x :: x in r <==> x in rows && x.id != id
    ensures (forall x :: x in rows ==> x.id != id) ==> r == rows
  {
    if rows == [] then []
    else if rows[0].id != id then [rows[0]] + WithoutId(rows[1..], id)
    else
      assert forall x :: x in rows <==> x == rows[0] || x in rows[1..];
      WithoutId(rows[1..], id)
  }

  predicate HasId(rows: seq<Row>, id: string) {
    exists i :: 0 <= i < |rows| && rows[i].id == id
  }

  /** The PRIMARY KEY on `id`: no two rows share one. */
  predicate UniqueIds(rows: seq<Row>) {
    forall i, j :: 0 <= i < j < |rows| ==> rows[i].id != rows[j].id
  }

  lemma UniqueTail(rows: seq<Row>)
    requires UniqueIds(rows) && rows != []
    ensures UniqueIds(rows[1..])
    ensures forall y :: y in rows[1..] ==> y.id != rows[0].id
  {
    forall y | y in rows[1..] ensures y.id != rows[0].id {
      var k :| 0 <= k < |rows[1..]| && rows[1..][k] == y;
      assert rows[k + 1] == y;
    }
  }

  lemma UniqueCons(h: Row, t: seq<Row>)
    requires UniqueIds(t)
    requires forall y :: y in t ==> y.id != h.id
    ensures UniqueIds([h] + t)
  {
    var r := [h] + t;
    forall i, j | 0 <= i < j < |r| ensures r[i].id != r[j].id {
      assert r[j] == t[j - 1];
      if i > 0 {
        assert r[i] == t[i - 1];
      } else {
        assert r[j] in t;
      }
    }
  }

  /** Deleting by id keeps the key unique and leaves no row with that id. */
  lemma {:induction false} WithoutIdUnique(rows: seq<Row>, id: string)
    requires UniqueIds(rows)
    ensures UniqueIds(WithoutId(rows, id))
    ensures !HasId(WithoutId(rows, id), id)
  {
    var r := WithoutId(rows, id);
    if rows != [] {
      UniqueTail(rows);
      WithoutIdUnique(rows[1..], id);
      if rows[0].id != id {
        UniqueCons(rows[0], WithoutId(rows[1..], id));
      }
    }
  }

  /**
   * The ledger handle: the table's rows and whether the backing store accepts writes
   * (a store that does not stands for every way an INSERT or DELETE fails other than the key).
   */
  class Ledger {
    var rows: seq<Row>
    var writable: bool

    predicate Valid()
      reads this
    {
      UniqueIds(rows)
    }

    /** `Open` on a fresh store: the schema exists and the table is empty. */
    constructor (writable: bool)
      ensures rows == [] && this.writable == writable
      ensures Valid()
    {
      rows := [];
      this.writable := writable;
    }

    /** `Append`: inserts the entry's row, refused when its id is already a key or the store
        does not accept writes, in which case the table is unchanged. */
    method Append(e: Entry) returns (err: Option<string>)
      requires Valid()
      modifies this
      ensures Valid() && writable == old(writable)
      ensures err.None? <==> old(writable) && !HasId(old(rows), e.id)
      ensures err.None? ==> rows == old(rows) + [ToRow(e)]
      ensures err.Some? ==> rows == old(rows)
    {
      if !writable {
        return Some("attempt to write a readonly database");
      }
      if HasId(rows, e.id) {
        return Some("UNIQUE constraint failed: entries.id");
      }
      rows := rows + [ToRow(e)];
      forall i, j | 0 <= i < j < |rows| ensures rows[i].id != rows[j].id {
        if j == |rows| - 1 {
          assert rows[i] == old(rows)[i];
        }
      }
      return None;
    }

    /** `Remove`: deletes the row with this id, if any; an absent id is not an error. */
    method Remove(id: string) returns (err: Option<string>)
      requires Valid()
      modifies this
      ensures Valid() && writable == old(writable)
      ensures err.None? <==> old(writable)
      ensures err.None? ==> rows == WithoutId(old(rows), id)
      ensures err.Some? ==> rows == old(rows)
    {
      if !writable {
        return Some("attempt to write a readonly database");
      }
      WithoutIdUnique(rows, id);
      rows := WithoutId(rows, id);
      return None;
    }

    /** `DELETE FROM entries`: the wipe the empty command issues. */
    method Clear() returns (err: Option<string>)
      requires Valid()
      modifies this
      ensures Valid() && writable == old(writable)
      ensures err.None? <==> old(writable)
      ensures err.None? ==> rows == []
      ensures err.Some? ==> rows == old(rows)
    {
      if !writable {
        return Some("attempt to write a readonly database");
      }
      rows := [];
      return None;
    }

    /** `All`: every row, ordered by instant. */
    method All() returns (r: Result<seq<Entry>, string>)
      ensures r == ReadAll(SortByTime(rows))
    {
      r := ScanEntries(SortByTime(rows));
    }

    /** `FindByQuery`: the rows whose lowered path or stored bin name is LIKE
        '%' + lower(query) + '%', ordered by instant. */
    method FindByQuery(query: string) returns (r: Result<seq<Entry>, string>)
      ensures r == ReadAll(SortByTime(Select(rows, query)))
    {
      r := ScanEntries(SortByTime(Select(rows, query)));
    }
  }

  /** What `All` promises: every row read once, in non-decreasing instant order. */
  lemma AllSpec(rows: seq<Row>)
    requires Readable(rows)
    ensures ReadAll(SortByTime(rows)).Ok?
    ensures |ReadAll(SortByTime(rows)).value| == |rows|
    ensures EntriesByTime(ReadAll(SortByTime(rows)).value)
    ensures forall e :: e in ReadAll(SortByTime(rows)).value <==>
      exists x :: x in rows && ReadRow(x) == Ok(e)
  {
    var sorted := SortByTime(rows);
    SortedReadable(rows);
    ReadAllSpec(sorted);
    ReadSortedIsSorted(sorted);
    forall e ensures e in ReadAll(sorted).value <==> exists x :: x in rows && ReadRow(x) == Ok(e) {
      ReadSortedHas(rows, e);
    }
  }

  lemma SortedReadable(rows: seq<Row>)
    requires Readable(rows)
    ensures Readable(SortByTime(rows))
  {
    var sorted := SortByTime(rows);
    forall i | 0 <= i < |sorted| ensures ReadRow(sorted[i]).Ok? {
      assert sorted[i] in multiset(rows);
      var k :| 0 <= k < |rows| && rows[k] == sorted[i];
    }
  }

  lemma ReadSortedHas(rows: seq<Row>, e: Entry)
    requires Readable(rows)
    ensures ReadAll(SortByTime(rows)).Ok?
    ensures e in ReadAll(SortByTime(rows)).value <==> exists x :: x in rows && ReadRow(x) == Ok(e)
  {
    SortedReadable(rows);
    ReadAllSpec(SortByTime(rows));
    if e in ReadAll(SortByTime(rows)).value {
      ReadSortedFrom(rows, e);
    }
    if x :| x in rows && ReadRow(x) == Ok(e) {
      ReadSortedTo(rows, x, e);
    }
  }

  lemma ReadSortedFrom(rows: seq<Row>, e: Entry)
    requires Readable(SortByTime(rows)) && ReadAll(SortByTime(rows)).Ok?
    requires |ReadAll(SortByTime(rows)).value| == |rows|
    requires forall i :: 0 <= i < |rows| ==> ReadAll(SortByTime(rows)).value[i] == ReadRow(SortByTime(rows)[i]).value
    requires e in ReadAll(SortByTime(rows)).value
    ensures exists x :: x in rows && ReadRow(x) == Ok(e)
  {
    var sorted := SortByTime(rows);
    var es := ReadAll(sorted).value;
    var i :| 0 <= i < |es| && es[i] == e;
    assert sorted[i] in multiset(rows);
    assert sorted[i] in rows && ReadRow(sorted[i]) == Ok(e);
  }

  lemma ReadSortedTo(rows: seq<Row>, x: Row, e: Entry)
    requires Readable(SortByTime(rows)) && ReadAll(SortByTime(rows)).Ok?
    requires |ReadAll(SortByTime(rows)).value| == |rows|
    requires forall i :: 0 <= i < |rows| ==> ReadAll(SortByTime(rows)).value[i] == ReadRow(SortByTime(rows)[i]).value
    requires x in rows && ReadRow(x) == Ok(e)
    ensures e in ReadAll(SortByTime(rows)).value
  {
    var sorted := SortByTime(rows);
    assert x in multiset(sorted);
    var i :| 0 <= i < |sorted| && sorted[i] == x;
    assert ReadAll(sorted).value[i] == e;
  }

  /** After a successful `Append`, `All` lists the entry as it reads back. */
  lemma AppendThenAll(rows: seq<Row>, e: Entry)
    requires Readable(rows)
    requires MinStoredSecond * NanosPerSecond <= e.tossedAt < (MaxStoredSecond + 1) * NanosPerSecond
    ensures ReadAll(SortByTime(rows + [ToRow(e)])).Ok?
    ensures Stored(e) in ReadAll(SortByTime(rows + [ToRow(e)])).value
  {
    RowRoundTrip(e);
    var all := rows + [ToRow(e)];
    forall i | 0 <= i < |all| ensures ReadRow(all[i]).Ok? {
      if i < |rows| { assert all[i] == rows[i]; }
    }
    AllSpec(all);
    assert ToRow(e) in all;
  }

  /** What `FindByQuery` promises for a query without wildcards: exactly the rows whose lowered
      path or stored bin name contains the lowered query, in instant order. */
  lemma FindSpec(rows: seq<Row>, q: string)
    requires Readable(rows)
    requires NoWildcards(q)
    ensures ReadAll(SortByTime(Select(rows, q))).Ok?
    ensures EntriesByTime(ReadAll(SortByTime(Select(rows, q))).value)
    ensures forall e :: e in ReadAll(SortByTime(Select(rows, q))).value <==>
      exists x :: x in rows && ReadRow(x) == Ok(e) &&
        (Contains(Lower(x.originalPath), Lower(q)) || Contains(Lower(x.binName), Lower(q)))
  {
    var sel := Select(rows, q);
    forall i | 0 <= i < |sel| ensures ReadRow(sel[i]).Ok? {
      assert sel[i] in rows;
    }
    AllSpec(sel);
  }

  /** An empty query finds what `All` finds. */
  lemma FindEmptyIsAll(rows: seq<Row>)
    ensures Select(rows, "") == rows
  {
    if rows != [] {
      EmptyQueryMatchesAll(rows[0]);
      FindEmptyIsAll(rows[1..]);
      assert [rows[0]] + rows[1..] == rows;
    }
  }
}
