/**
 * The identifier generator of internal/db/db.go (`NewID`): sixteen random bytes
 * become an RFC 4122 version-4 UUID in its 8-4-4-4-12 hexadecimal text form.
 * The random source is outside the model: the sixteen bytes are a parameter.
 */
module Uuid {
  import opened Wrappers
  import opened Text

  type Byte = bv8

  /** The characters Go's `%x` writes: '0' to '9' and 'a' to 'f'. */
  predicate IsHexDigit(c: char) {
    '0' <= c <= '9' || 'a' <= c <= 'f'
  }

  /** The lowercase hexadecimal digit for a nibble, as Go's `%x` writes it. */
  function HexDigit(n: nat): (c: char)
    requires n < 16
    ensures IsHexDigit(c) && DigitValue(c) == Some(n)
  {
    if n < 10 then ('0' as int + n) as char else ('a' as int + (n - 10)) as char
  }

  /** The value of a lowercase hexadecimal digit, None for any other character. */
  function DigitValue(c: char): (r: Option<nat>)
    ensures r.Some? <==> IsHexDigit(c)
    ensures r.Some? ==> r.value < 16
  {
    if '0' <= c <= '9' then Some(c as nat - '0' as nat)
    else if 'a' <= c <= 'f' then Some(c as nat - 'a' as nat + 10)
    else None
  }

  /** The two digits of one byte, high nibble first. */
  function ByteHex(b: Byte): (s: string)
    ensures |s| == 2
  {
    [HexDigit(b as nat / 16), HexDigit(b as nat % 16)]
  }

  /** Two digits per byte: the `%x` rendering of a byte slice. */
  function Hex(bs: seq<Byte>): (s: string)
    ensures |s| == 2 * |bs|
  {
    if bs == [] then [] else ByteHex(bs[0]) + Hex(bs[1..])
  }

  /** Reads `%x` text back into bytes; None if the length is odd or a character is not a digit. */
  function Unhex(s: string): (r: Option<seq<Byte>>)
    ensures r.Some? ==> 2 * |r.value| == |s|
  {
    if s == [] then Some([])
    else if |s| == 1 then None
    else match (DigitValue(s[0]), DigitValue(s[1]), Unhex(s[2..]))
      case (Some(hi), Some(lo), Some(rest)) => Some([(hi * 16 + lo) as Byte] + rest)
      case _ => None
  }

  lemma NibblesRebuildByte(b: Byte, h: nat, l: nat)
    requires h == b as nat / 16 && l == b as nat % 16
    ensures h < 16 && l < 16 && (h * 16 + l) as Byte == b
  {
  }

  /** Hex is injective and Unhex is its left inverse. */
  lemma {:induction false} UnhexHex(bs: seq<Byte>)
    ensures Unhex(Hex(bs)) == Some(bs)
  {
    if bs != [] {
      UnhexHex(bs[1..]);
      UnhexByte(bs[0], Hex(bs[1..]));
      assert [bs[0]] + bs[1..] == bs;
    }
  }

  /** Unhex reads the two digits of one byte back, then goes on with the rest. */
  lemma UnhexByte(x: Byte, s: string)
    ensures Unhex(ByteHex(x) + s) == (if Unhex(s).Some? then Some([x] + Unhex(s).value) else None)
  {
    var h, l := x as nat / 16, x as nat % 16;
    assert ByteHex(x) == [HexDigit(h), HexDigit(l)];
    UnhexDigits(h, l, s);
    NibblesRebuildByte(x, h, l);
  }

  lemma UnhexDigits(h: nat, l: nat, s: string)
    requires h < 16 && l < 16
    ensures Unhex([HexDigit(h), HexDigit(l)] + s)
         == (if Unhex(s).Some? then Some([(h * 16 + l) as Byte] + Unhex(s).value) else None)
  {
    var t := [HexDigit(h), HexDigit(l)] + s;
    assert t[0] == HexDigit(h) && t[1] == HexDigit(l) && t[2..] == s;
  }

  /** Every character of Hex(bs) is a lowercase hexadecimal digit, and the digits at
      2k and 2k+1 are the two nibbles of bs[k]. */
  lemma HexAt(bs: seq<Byte>, k: nat)
    requires k < |bs|
    ensures Hex(bs)[2 * k] == HexDigit(bs[k] as nat / 16)
    ensures Hex(bs)[2 * k + 1] == HexDigit(bs[k] as nat % 16)
  {
    HexPair(bs, k);
  }

  lemma {:induction false} HexPair(bs: seq<Byte>, k: nat)
    requires k < |bs|
    ensures Hex(bs)[2 * k] == ByteHex(bs[k])[0] && Hex(bs)[2 * k + 1] == ByteHex(bs[k])[1]
  {
    var d := ByteHex(bs[0]);
    var t := Hex(bs[1..]);
    assert Hex(bs) == d + t;
    if k > 0 {
      HexPair(bs[1..], k - 1);
      assert bs[1..][k - 1] == bs[k];
      ConcatAt(d, t, 2 * (k - 1));
      ConcatAt(d, t, 2 * (k - 1) + 1);
    }
  }

  lemma ConcatAt(d: string, t: string, i: nat)
    requires |d| == 2 && i < |t|
    ensures (d + t)[i + 2] == t[i]
  {
  }

  lemma HexChars(bs: seq<Byte>, i: nat)
    requires i < |Hex(bs)|
    ensures IsHexDigit(Hex(bs)[i])
  {
    var k := i / 2;
    assert i == 2 * k || i == 2 * k + 1;
    HexAt(bs, k);
  }

  /**
   * The bytes after the version and variant are written in (lines 52-53 of db.go):
   * the high nibble of byte 6 becomes 4, the two high bits of byte 8 become 10,
   * and every other bit of the input is kept.
   */
  function Stamp(b: seq<Byte>): (r: seq<Byte>)
    requires |b| == 16
    ensures |r| == 16
    ensures r[6] as nat / 16 == 4 && r[6] as nat % 16 == b[6] as nat % 16
    ensures r[8] as nat / 64 == 2 && r[8] as nat % 64 == b[8] as nat % 64
    ensures forall i :: 0 <= i < 16 && i != 6 && i != 8 ==> r[i] == b[i]
  {
    MaskVersion(b[6]);
    MaskVariant(b[8]);
    b[6 := (b[6] & 0x0F) | 0x40][8 := (b[8] & 0x3F) | 0x80]
  }

  lemma MaskVersion(x: Byte)
    ensures ((x & 0x0F) | 0x40) as nat == x as nat % 16 + 0x40
  {
  }

  lemma MaskVariant(x: Byte)
    ensures ((x & 0x3F) | 0x80) as nat == x as nat % 64 + 0x80
  {
  }

  /** `NewID` with the sixteen random bytes as a parameter. */
  function NewID(b: seq<Byte>): (id: string)
    requires |b| == 16
    ensures |id| == 36 && id[8] == '-' && id[13] == '-' && id[18] == '-' && id[23] == '-'
  {
    var s := Stamp(b);
    GroupSlices(Hex(s[0..4]), Hex(s[4..6]), Hex(s[6..8]), Hex(s[8..10]), Hex(s[10..]));
    Join([Hex(s[0..4]), Hex(s[4..6]), Hex(s[6..8]), Hex(s[8..10]), Hex(s[10..])], '-')
  }

  /** Where each group of a five-group identifier sits in its text. */
  lemma GroupSlices(g0: string, g1: string, g2: string, g3: string, g4: string)
    requires |g0| == 8 && |g1| == 4 && |g2| == 4 && |g3| == 4 && |g4| == 12
    ensures var id := Join([g0, g1, g2, g3, g4], '-');
      && |id| == 36
      && id[8] == '-' && id[13] == '-' && id[18] == '-' && id[23] == '-'
      && id[0..8] == g0 && id[9..13] == g1 && id[14..18] == g2 && id[19..23] == g3 && id[24..] == g4
  {
    assert [g3, g4][1..] == [g4];
    assert Join([g4], '-') == g4;
    var j3 := Join([g3, g4], '-');
    assert j3 == g3 + ['-'] + g4;
    assert [g2, g3, g4][1..] == [g3, g4];
    var j2 := Join([g2, g3, g4], '-');
    assert j2 == g2 + ['-'] + j3;
    assert [g1, g2, g3, g4][1..] == [g2, g3, g4];
    var j1 := Join([g1, g2, g3, g4], '-');
    assert j1 == g1 + ['-'] + j2;
    assert [g0, g1, g2, g3, g4][1..] == [g1, g2, g3, g4];
    var id := Join([g0, g1, g2, g3, g4], '-');
    assert id == g0 + ['-'] + j1;
    Around(g0, '-', j1);
    Around(g1, '-', j2);
    Around(g2, '-', j3);
    Around(g3, '-', g4);
    assert id[9..13] == j1[0..4];
    assert id[14..18] == j2[0..4];
    assert id[19..23] == j3[0..4];
    assert id[24..] == g4;
  }

  lemma Around(x: string, c: char, y: string)
    ensures (x + [c] + y)[..|x|] == x && (x + [c] + y)[|x|] == c && (x + [c] + y)[|x| + 1..] == y
  {
  }

  /** Positions of the four hyphens in the 36-character form. */
  predicate IsHyphenPosition(i: int) {
    i == 8 || i == 13 || i == 18 || i == 23
  }

  /** The identifier is 36 characters: hyphens at 8, 13, 18 and 23, lowercase hex digits elsewhere. */
  lemma NewIdShape(b: seq<Byte>)
    requires |b| == 16
    ensures |NewID(b)| == 36
    ensures forall i :: 0 <= i < 36 ==> (NewID(b)[i] == '-' <==> IsHyphenPosition(i))
    ensures forall i :: 0 <= i < 36 && !IsHyphenPosition(i) ==> IsHexDigit(NewID(b)[i])
  {
    var s := Stamp(b);
    var id := NewID(b);
    GroupSlices(Hex(s[0..4]), Hex(s[4..6]), Hex(s[6..8]), Hex(s[8..10]), Hex(s[10..]));
    forall i | 0 <= i < 36 && !IsHyphenPosition(i)
      ensures IsHexDigit(id[i])
    {
      if i < 8 { assert id[i] == id[0..8][i]; HexChars(s[0..4], i); }
      else if i < 13 { assert id[i] == id[9..13][i - 9]; HexChars(s[4..6], i - 9); }
      else if i < 18 { assert id[i] == id[14..18][i - 14]; HexChars(s[6..8], i - 14); }
      else if i < 23 { assert id[i] == id[19..23][i - 19]; HexChars(s[8..10], i - 19); }
      else { assert id[i] == id[24..][i - 24]; HexChars(s[10..], i - 24); }
    }
  }

  /** The third group starts with the version digit '4'. */
  lemma NewIdVersion(b: seq<Byte>)
    requires |b| == 16
    ensures |NewID(b)| == 36 && NewID(b)[14] == '4'
  {
    var s := Stamp(b);
    var id := NewID(b);
    GroupSlices(Hex(s[0..4]), Hex(s[4..6]), Hex(s[6..8]), Hex(s[8..10]), Hex(s[10..]));
    assert id[14] == id[14..18][0];
    HexAt(s[6..8], 0);
  }

  /** The fourth group starts with a variant digit: one of 8, 9, a, b. */
  lemma NewIdVariant(b: seq<Byte>)
    requires |b| == 16
    ensures |NewID(b)| == 36 && NewID(b)[19] in "89ab"
  {
    var s := Stamp(b);
    var id := NewID(b);
    GroupSlices(Hex(s[0..4]), Hex(s[4..6]), Hex(s[6..8]), Hex(s[8..10]), Hex(s[10..]));
    assert id[19] == id[19..23][0];
    HexAt(s[8..10], 0);
    var hi := s[8] as nat / 16;
    assert 8 <= hi < 12;
  }

  /** Reads the hexadecimal groups of an identifier back into its sixteen bytes. */
  function ParseId(id: string): (r: Option<seq<Byte>>)
    ensures r.Some? ==> |r.value| == 16
  {
    if |id| != 36 || id[8] != '-' || id[13] != '-' || id[18] != '-' || id[23] != '-' then None
    else match Unhex(id[0..8] + id[9..13] + id[14..18] + id[19..23] + id[24..])
      case Some(bs) => Some(bs)
      case None => None
  }

  /** The identifier encodes the stamped bytes and nothing else: parsing it gives back
      every input byte in order, with only the version and variant bits replaced. */
  lemma ParseNewId(b: seq<Byte>)
    requires |b| == 16
    ensures ParseId(NewID(b)) == Some(Stamp(b))
  {
    var s := Stamp(b);
    GroupSlices(Hex(s[0..4]), Hex(s[4..6]), Hex(s[6..8]), Hex(s[8..10]), Hex(s[10..]));
    HexOfSlices(s);
    UnhexHex(s);
  }

  lemma HexOfSlices(s: seq<Byte>)
    requires |s| == 16
    ensures Hex(s[0..4]) + Hex(s[4..6]) + Hex(s[6..8]) + Hex(s[8..10]) + Hex(s[10..]) == Hex(s)
  {
    HexAppend(s[0..4], s[4..6]);
    assert s[0..4] + s[4..6] == s[0..6];
    HexAppend(s[0..6], s[6..8]);
    assert s[0..6] + s[6..8] == s[0..8];
    HexAppend(s[0..8], s[8..10]);
    assert s[0..8] + s[8..10] == s[0..10];
    HexAppend(s[0..10], s[10..]);
    assert s[0..10] + s[10..] == s;
  }

  lemma {:induction false} HexAppend(a: seq<Byte>, b: seq<Byte>)
    ensures Hex(a + b) == Hex(a) + Hex(b)
  {
    if a != [] {
      var d := ByteHex(a[0]);
      assert Hex(a) == d + Hex(a[1..]);
      assert (a + b)[0] == a[0];
      assert (a + b)[1..] == a[1..] + b;
      assert Hex(a + b) == d + Hex(a[1..] + b);
      HexAppend(a[1..], b);
    } else {
      assert a + b == b;
    }
  }

  lemma HexHasNoHyphen(bs: seq<Byte>)
    ensures '-' !in Hex(bs)
  {
    forall i | 0 <= i < |Hex(bs)| ensures Hex(bs)[i] != '-' {
      HexChars(bs, i);
    }
  }

  /** Splitting the identifier at its hyphens gives five groups of 8, 4, 4, 4 and 12 characters. */
  lemma NewIdGroups(b: seq<Byte>)
    requires |b| == 16
    ensures |Split(NewID(b), '-')| == 5
    ensures |Split(NewID(b), '-')[0]| == 8 && |Split(NewID(b), '-')[1]| == 4
    ensures |Split(NewID(b), '-')[2]| == 4 && |Split(NewID(b), '-')[3]| == 4
    ensures |Split(NewID(b), '-')[4]| == 12
  {
    var s := Stamp(b);
    var gs := [Hex(s[0..4]), Hex(s[4..6]), Hex(s[6..8]), Hex(s[8..10]), Hex(s[10..])];
    forall g | g in gs ensures '-' !in g {
      var k :| 0 <= k < 5 && gs[k] == g;
      if k == 0 { HexHasNoHyphen(s[0..4]); }
      else if k == 1 { HexHasNoHyphen(s[4..6]); }
      else if k == 2 { HexHasNoHyphen(s[6..8]); }
      else if k == 3 { HexHasNoHyphen(s[8..10]); }
      else { HexHasNoHyphen(s[10..]); }
    }
    SplitJoin(gs, '-');
  }
}
