/**
 * The terminal helpers: human-readable sizes, the yes/no answer, the numbered choice among
 * several entries and the rows of the listing table. Standard input is passed in as the text
 * still to be read; what would be printed is returned.
 */
module Ui {
  import opened Wrappers
  import opened Text
  import opened Ledger

  /** The three units: 1024, 1024 * 1024 and 1024 * 1024 * 1024 bytes. */
  const KB: nat := 0x400
  const MB: nat := 0x10_0000
  const GB: nat := 0x4000_0000

  /** 2^53: below it every integer is a float64. */
  const TwoTo53: nat := 0x20_0000_0000_0000

  /** The spacing between neighbouring float64 values around `n`: 1 below 2^53, doubling with
      each further binade. For int64 values it is at most 1024. */
  function Ulp(n: nat): (u: nat)
    ensures u >= 1
    ensures n <= MaxInt64 ==>
      (u == 1 || u == 2 || u == 4 || u == 8 || u == 16 || u == 32
       || u == 64 || u == 128 || u == 256 || u == 512 || u == 1024)
  {
    if n < TwoTo53 then 1
    else if n < 2 * TwoTo53 then 2
    else if n < 4 * TwoTo53 then 4
    else if n < 8 * TwoTo53 then 8
    else if n < 16 * TwoTo53 then 16
    else if n < 32 * TwoTo53 then 32
    else if n < 64 * TwoTo53 then 64
    else if n < 128 * TwoTo53 then 128
    else if n < 256 * TwoTo53 then 256
    else if n < 512 * TwoTo53 then 512
    else if n < 1024 * TwoTo53 then 1024
    else 2 * Ulp(n / 2)
  }

  /** Integer division rounded to nearest, ties to the even quotient (IEEE 754 and Go's
      decimal formatting both round this way). */
  function RoundHalfEven(a: nat, d: nat): nat
    requires d > 0
  {
    var q := a / d;
    var r := a % d;
    if 2 * r < d then q
    else if 2 * r > d then q + 1
    else if q % 2 == 0 then q
    else q + 1
  }

  /** The rounded quotient is within half a step of the exact one, and a tie goes to the even
      neighbour. */
  lemma RoundHalfEvenNearest(a: nat, d: nat)
    requires d > 0
    ensures var q := RoundHalfEven(a, d);
      2 * (a - q * d) <= d && 2 * (q * d - a) <= d
    ensures var q := RoundHalfEven(a, d);
      2 * (a - q * d) == d || 2 * (q * d - a) == d ==> q % 2 == 0
  {
    var q := a / d;
    var r := a % d;
    assert a == q * d + r;
    assert (q + 1) * d == q * d + d;
  }

  /** `float64(n)`: the nearest double, ties to even. */
  function Float64Of(n: nat): nat {
    var u := Ulp(n);
    RoundHalfEven(n, u) * u
  }

  lemma {:induction false} MulAtLeast(x: int, d: nat)
    requires x >= 1
    ensures x * d >= d
  {
    if x > 1 {
      MulAtLeast(x - 1, d);
      assert x * d == (x - 1) * d + d;
    }
  }

  /** Dividing an exact multiple gives the factor back with nothing left over. */
  lemma DivExact(m: nat, d: nat)
    requires d > 0
    ensures (m * d) / d == m && (m * d) % d == 0
  {
    var q := (m * d) / d;
    var r := (m * d) % d;
    assert m * d == q * d + r && 0 <= r < d;
    if q < m {
      MulAtLeast(m - q, d);
      assert false;
    } else if q > m {
      MulAtLeast(q - m, d);
      assert false;
    }
  }

  lemma RoundExact(m: nat, d: nat)
    requires d > 0
    ensures RoundHalfEven(m * d, d) == m
  {
    DivExact(m, d);
  }

  /** A value the spacing divides is a float64 already. */
  lemma Float64OfExact(n: nat)
    requires n % Ulp(n) == 0
    ensures Float64Of(n) == n
  {
    RoundDivisible(n, Ulp(n));
  }

  lemma RoundDivisible(a: nat, d: nat)
    requires d > 0 && a % d == 0
    ensures RoundHalfEven(a, d) * d == a
  {
    assert a == (a / d) * d + a % d;
  }

  lemma KbMultipleMod(k: nat, u: nat)
    requires u == 1 || u == 2 || u == 4 || u == 8 || u == 16 || u == 32 || u == 64 || u == 128
      || u == 256 || u == 512 || u == 1024
    ensures (k * KB) % u == 0
  {
    var c := 1024 / u;
    assert c * u == 1024;
    assert k * KB == (k * c) * u;
    DivExact(k * c, u);
  }

  /** Every int64 multiple of 1 KB converts to float64 exactly. */
  lemma Float64OfKbMultiple(k: nat)
    requires k * KB <= MaxInt64
    ensures Float64Of(k * KB) == k * KB
  {
    KbMultipleMod(k, Ulp(k * KB));
    Float64OfExact(k * KB);
  }

  /** `%.1f` of `float64(n) / unit`, as the number of tenths it shows. */
  function Tenths(n: nat, unit: nat): nat
    requires unit > 0
  {
    RoundHalfEven(10 * Float64Of(n), unit)
  }

  /** A count of tenths written with one decimal: 15 is "1.5". */
  function TenthsText(t: nat): string {
    NatToString(t / 10) + "." + [DigitChar(t % 10)]
  }

  /** `FormatSize`: the largest unit the size reaches, with one decimal; plain bytes below 1 KB,
      negative sizes included. */
  function FormatSize(n: int): (r: string)
    ensures |r| >= 2 && r[|r| - 1] == 'B'
    ensures r[|r| - 2] == 'G' <==> n >= GB
    ensures r[|r| - 2] == 'M' <==> MB <= n < GB
    ensures r[|r| - 2] == 'K' <==> KB <= n < MB
    ensures IsDigit(r[|r| - 2]) <==> n < KB
  {
    if n >= GB then TenthsText(Tenths(n, GB)) + "GB"
    else if n >= MB then TenthsText(Tenths(n, MB)) + "MB"
    else if n >= KB then TenthsText(Tenths(n, KB)) + "KB"
    else
      var ds := IntToString(n);
      assert (ds + "B")[|ds| - 1] == ds[|ds| - 1];
      assert n < 0 ==> ds[|ds| - 1] == NatToString(-n)[|NatToString(-n)| - 1];
      ds + "B"
  }

  /** An exact multiple k of a unit is k whole units: the tenths shown are 10 k. */
  lemma TenthsOfMultiple(k: nat, unit: nat)
    requires unit == KB || unit == MB || unit == GB
    requires k * unit <= MaxInt64
    ensures Tenths(k * unit, unit) == 10 * k
  {
    var n := k * unit;
    if unit == KB {
      Float64OfKbMultiple(k);
    } else if unit == MB {
      assert n == (k * 1024) * KB;
      Float64OfKbMultiple(k * 1024);
    } else {
      assert n == (k * MB) * KB;
      Float64OfKbMultiple(k * MB);
    }
    assert Tenths(n, unit) == RoundHalfEven(10 * n, unit);
    assert 10 * n == (10 * k) * unit;
    RoundExact(10 * k, unit);
  }

  lemma TenthsTextWhole(k: nat)
    ensures TenthsText(10 * k) == NatToString(k) + ".0"
  {
    assert (10 * k) / 10 == k && (10 * k) % 10 == 0;
  }

  /** Below 1 KB the text is the decimal count followed by "B", and reads back as the count. */
  lemma FormatSizeBytes(n: int)
    requires MinInt64 <= n < KB
    ensures FormatSize(n) == IntToString(n) + "B"
    ensures Atoi(FormatSize(n)[..|FormatSize(n)| - 1]) == Some(n)
  {
    var ds := IntToString(n);
    assert (ds + "B")[..|ds|] == ds;
    AtoiIntToString(n);
  }

  /** k whole KB, for k below 1024, render as "k.0KB": 1024 is "1.0KB". */
  lemma FormatSizeWholeKb(k: nat)
    requires 1 <= k < 1024
    ensures FormatSize(k * KB) == NatToString(k) + ".0KB"
  {
    TenthsOfMultiple(k, KB);
    TenthsTextWhole(k);
  }

  /** k whole MB, for k below 1024, render as "k.0MB". */
  lemma FormatSizeWholeMb(k: nat)
    requires 1 <= k < 1024
    ensures FormatSize(k * MB) == NatToString(k) + ".0MB"
  {
    TenthsOfMultiple(k, MB);
    TenthsTextWhole(k);
    assert MB <= k * MB < GB;
    assert FormatSize(k * MB) == TenthsText(Tenths(k * MB, MB)) + "MB";
  }

  /** k whole GB render as "k.0GB", for every k the int64 range allows: 2 GB is "2.0GB". */
  lemma FormatSizeWholeGb(k: nat)
    requires 1 <= k && k * GB <= MaxInt64
    ensures FormatSize(k * GB) == NatToString(k) + ".0GB"
  {
    TenthsOfMultiple(k, GB);
    TenthsTextWhole(k);
  }

  /** Below 2^53 the conversion is exact and the shown value is the size in the unit to the
      nearest tenth: the error is at most half a tenth. */
  lemma FormatSizeNearest(n: nat)
    requires KB <= n < TwoTo53
    ensures var unit := if n >= GB then GB else if n >= MB then MB else KB;
      var t := Tenths(n, unit);
      2 * (10 * n - t * unit) <= unit && 2 * (t * unit - 10 * n) <= unit
  {
    var unit := if n >= GB then GB else if n >= MB then MB else KB;
    assert Float64Of(n) == n;
    RoundHalfEvenNearest(10 * n, unit);
  }

  // ---------------------------------------------------------------------------
  // Reading an answer

  /** `bufio.Reader.ReadString('\n')`: the text up to and including the first newline; None
      when the input ends first (the reader then reports io.EOF). */
  function ReadLine(input: string): (r: Option<string>)
    ensures r.Some? <==> '\n' in input
    ensures r.Some? ==> r.value <= input && r.value != [] && r.value[|r.value| - 1] == '\n'
    ensures r.Some? ==> '\n' !in r.value[..|r.value| - 1]
  {
    if input == [] then None
    else if input[0] == '\n' then Some("\n")
    else
      match ReadLine(input[1..])
      case None => None
      case Some(line) =>
        assert ([input[0]] + line)[1..] == line;
        Some([input[0]] + line)
  }

  /** The answer predicate of `Confirm`: a yes needs a 'y' or a 'Y' on the line. */
  predicate Answer(line: string)
    ensures Answer(line) ==> exists i :: 0 <= i < |line| && (line[i] == 'y' || line[i] == 'Y')
  {
    var a := TrimSpace(Lower(line));
    YesLetter(line);
    a == "y" || a == "yes"
  }

  /** The first character left by trimming the lowered line is a lowered character of the line. */
  lemma YesLetter(line: string)
    ensures var a := TrimSpace(Lower(line));
      a != [] && a[0] == 'y' ==> exists i :: 0 <= i < |line| && (line[i] == 'y' || line[i] == 'Y')
  {
    var low := Lower(line);
    var t := TrimLeft(low);
    var a := TrimRight(t);
    assert a == TrimSpace(low);
    if a != [] && a[0] == 'y' {
      var i := |low| - |t|;
      assert t[0] == a[0];
      assert low[i] == t[0];
      assert LowerChar(line[i]) == 'y';
    }
  }

  /** `Confirm`: the answer on the first line of input; an input without a full line is an error. */
  function Confirm(input: string): (r: Result<bool, string>)
    ensures r.Err? <==> '\n' !in input
  {
    match ReadLine(input)
    case None => Err("EOF")
    case Some(line) => Ok(Answer(line))
  }

  /** A line that is one word between white space is a yes exactly when the word, in lower
      case, is "y" or "yes". */
  lemma AnswerWord(a: string, w: string, b: string)
    requires AllSpace(a) && AllSpace(b)
    requires w != [] && !IsSpace(w[0]) && !IsSpace(w[|w| - 1])
    ensures Answer(a + w + b) <==> Lower(w) == "y" || Lower(w) == "yes"
  {
    LowerAppend(a + w, b);
    LowerAppend(a, w);
    LowerKeepsSpace(a);
    LowerKeepsSpace(w);
    LowerKeepsSpace(b);
    TrimSpacePadded(Lower(a), Lower(w), Lower(b));
  }

  /** A line of white space alone, the empty line included, is a no. */
  lemma AnswerBlank(line: string)
    requires AllSpace(line)
    ensures !Answer(line)
  {
    LowerKeepsSpace(line);
  }

  /** `PickEntry`: the entry whose number is on the first line of input. */
  function PickEntry(entries: seq<Entry>, input: string): (r: Result<Entry, string>)
    ensures r.Ok? ==> r.value in entries
  {
    match ReadLine(input)
    case None => Err("EOF")
    case Some(line) =>
      match Atoi(TrimSpace(line))
      case None => Err("invalid selection")
      case Some(n) =>
        if n < 1 || n > |entries| then Err("invalid selection") else Ok(entries[n - 1])
  }

  /** The choice succeeds exactly for a number between 1 and the count of entries. */
  lemma PickEntrySpec(entries: seq<Entry>, input: string)
    requires '\n' in input
    ensures PickEntry(entries, input).Ok? <==>
      var n := Atoi(TrimSpace(ReadLine(input).value));
      n.Some? && 1 <= n.value <= |entries|
  {
  }

  lemma {:induction false} ReadLineFirst(s: string, rest: string)
    requires '\n' !in s
    ensures ReadLine(s + "\n" + rest) == Some(s + "\n")
  {
    var t := s + "\n" + rest;
    if s == [] {
      assert t == "\n" + rest && t[0] == '\n';
      assert s + "\n" == "\n";
    } else {
      var tail := s[1..] + "\n" + rest;
      assert t[0] == s[0] && s[0] != '\n';
      assert t[1..] == tail;
      ReadLineFirst(s[1..], rest);
      assert ReadLine(t) == Some([s[0]] + (s[1..] + "\n"));
      assert [s[0]] + (s[1..] + "\n") == s + "\n";
    }
  }

  /** A one-word line: the word, trimmed, is what Atoi sees. */
  lemma PickWord(entries: seq<Entry>, w: string, rest: string)
    requires w != [] && '\n' !in w && !IsSpace(w[0]) && !IsSpace(w[|w| - 1])
    ensures PickEntry(entries, w + "\n" + rest) ==
      match Atoi(w)
      case None => Err("invalid selection")
      case Some(n) => if n < 1 || n > |entries| then Err("invalid selection") else Ok(entries[n - 1])
  {
    ReadLineFirst(w, rest);
    TrimSpaceNewline(w);
  }

  lemma NumberWord(n: int)
    ensures IntToString(n) != [] && '\n' !in IntToString(n)
    ensures !IsSpace(IntToString(n)[0]) && !IsSpace(IntToString(n)[|IntToString(n)| - 1])
  {
    var ds := IntToString(n);
    assert ds[0] in ds && ds[|ds| - 1] in ds;
    if n >= 0 {
      assert IsDigit(ds[0]) && IsDigit(ds[|ds| - 1]);
    } else {
      assert ds[|ds| - 1] == NatToString(-n)[|NatToString(-n)| - 1];
    }
  }

  /** Typing the number shown in front of an entry picks that entry. */
  lemma PickEntryByNumber(entries: seq<Entry>, k: nat, rest: string)
    requires 1 <= k <= |entries| && k <= MaxInt64
    ensures PickEntry(entries, IntToString(k) + "\n" + rest) == Ok(entries[k - 1])
  {
    NumberWord(k);
    PickWord(entries, IntToString(k), rest);
    AtoiIntToString(k);
  }

  /** 0 is refused. */
  lemma PickEntryRejectsZero(entries: seq<Entry>, rest: string)
    ensures PickEntry(entries, "0\n" + rest).Err?
  {
    assert "0\n" + rest == "0" + "\n" + rest;
    PickWord(entries, "0", rest);
    AtoiIntToString(0);
    assert IntToString(0) == "0";
  }

  /** A number past the last entry is refused. */
  lemma PickEntryRejectsPastEnd(entries: seq<Entry>, rest: string)
    requires |entries| < MaxInt64
    ensures PickEntry(entries, IntToString(|entries| + 1) + "\n" + rest).Err?
  {
    NumberWord(|entries| + 1);
    PickWord(entries, IntToString(|entries| + 1), rest);
    AtoiIntToString(|entries| + 1);
  }

  lemma AtoiRejectsLetter(s: string)
    requires s != [] && 'a' <= s[0] <= 'z'
    ensures Atoi(s) == None
  {
    assert !IsDigit(s[0]);
  }

  /** Text that is not a number is refused. */
  lemma PickEntryRejectsText(entries: seq<Entry>, rest: string)
    ensures PickEntry(entries, "abc\n" + rest).Err?
  {
    assert "abc\n" + rest == "abc" + "\n" + rest;
    var w := "abc";
    assert w[0] == 'a' && w[|w| - 1] == 'c' && '\n' !in w;
    PickWord(entries, w, rest);
    AtoiRejectsLetter(w);
  }

  // ---------------------------------------------------------------------------
  // The listing table

  const Header: seq<string> := ["NO.", "TOSSED AT", "SIZE", "PATH"]

  /** The path column: directories are marked. */
  function PathCell(e: Entry): (c: string)
    ensures e.isDir ==> c == e.originalPath + " [dir]"
    ensures !e.isDir ==> c == e.originalPath
  {
    if e.isDir then e.originalPath + " [dir]" else e.originalPath
  }

  /** The cells of the row for the entry numbered `no`; `stamp` stands for the local-time
      "2006-01-02 15:04" rendering of the instant. */
  function TableRow(no: nat, e: Entry, stamp: int -> string): seq<string> {
    [IntToString(no), stamp(e.tossedAt), FormatSize(e.sizeBytes), PathCell(e)]
  }

  /** `PrintTable`: the header row, then one row per entry numbered from 1, as cells. */
  method PrintTable(entries: seq<Entry>, stamp: int -> string) returns (rows: seq<seq<string>>)
    ensures |rows| == |entries| + 1 && rows[0] == Header
    ensures forall i :: 0 <= i < |entries| ==> rows[i + 1] == TableRow(i + 1, entries[i], stamp)
  {
    rows := [Header];
    var i := 0;
    while i < |entries|
      invariant 0 <= i <= |entries|
      invariant |rows| == i + 1 && rows[0] == Header
      invariant forall k :: 0 <= k < i ==> rows[k + 1] == TableRow(k + 1, entries[k], stamp)
    {
      rows := rows + [TableRow(i + 1, entries[i], stamp)];
      i := i + 1;
    }
  }

  /** The number printed in front of an entry is the one that picks it. */
  lemma TableNumberPicks(entries: seq<Entry>, stamp: int -> string, i: nat, rest: string)
    requires i < |entries| && i < MaxInt64
    ensures PickEntry(entries, TableRow(i + 1, entries[i], stamp)[0] + "\n" + rest) == Ok(entries[i])
  {
    PickEntryByNumber(entries, i + 1, rest);
  }
}
