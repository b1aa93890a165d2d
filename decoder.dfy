/**
 * A reader for the dump text: it recovers, from the characters alone, the
 * offset printed at the head of every row and the bytes spelled by the hex
 * digits after it. Its lemmas show that the text print_hexdump writes reads
 * back as exactly the buffer it was given.
 */
module Decoder {
  import opened Basics
  import opened Hex
  import opened Layout

  type Nibble = d: nat | d < 16

  datatype Field = OffsetField | DataField

  /**
   * Where the reader is: in the offset column (digits read so far) or among
   * the groups (a pending high nibble, if any), plus everything read before.
   */
  datatype Reader =
    | Reading(field: Field, digits: HexString, pending: Option<Nibble>, offsets: seq<nat>, bytes: seq<byte>)
    | Malformed

  /** The result of reading a whole dump: one offset per row, and the bytes. */
  datatype Listing = Listing(offsets: seq<nat>, bytes: seq<byte>)

  function LineStart(offsets: seq<nat>, bytes: seq<byte>): Reader
  {
    Reading(OffsetField, [], None, offsets, bytes)
  }

  function InData(offsets: seq<nat>, bytes: seq<byte>): Reader
  {
    Reading(DataField, [], None, offsets, bytes)
  }

  function Step(r: Reader, c: char): Reader
  {
    match r
    case Malformed => Malformed
    case Reading(field, digits, pending, offsets, bytes) =>
      match field
      case OffsetField =>
        if IsHexDigit(c) then Reading(OffsetField, digits + [c], None, offsets, bytes)
        else if c == ' ' && digits != [] then InData(offsets + [ValueOf(digits)], bytes)
        else Malformed
      case DataField =>
        if IsHexDigit(c) then
          match pending
          case None => Reading(DataField, [], Some(DigitValue(c)), offsets, bytes)
          case Some(high) => InData(offsets, bytes + [(16 * high + DigitValue(c)) as byte])
        else if pending.Some? then Malformed
        else if c == ' ' then InData(offsets, bytes)
        else if c == '\n' then LineStart(offsets, bytes)
        else Malformed
  }

  function Scan(r: Reader, s: string): Reader
    decreases |s|
  {
    if |s| == 0 then r else Scan(Step(r, s[0]), s[1..])
  }

  /** Reads a dump; None unless it is a sequence of complete, well-formed rows. */
  function Decode(text: string): Option<Listing>
  {
    match Scan(LineStart([], []), text)
    case Reading(OffsetField, digits, _, offsets, bytes) =>
      if digits == [] then Some(Listing(offsets, bytes)) else None
    case _ => None
  }

  // ---------------------------------------------------------------------
  // Reading pieces of text

  lemma {:induction false} ScanAppend(r: Reader, a: string, b: string)
    ensures Scan(r, a + b) == Scan(Scan(r, a), b)
    decreases |a|
  {
    if a == [] {
      assert a + b == b;
    } else {
      assert (a + b)[0] == a[0];
      assert (a + b)[1..] == a[1..] + b;
      ScanAppend(Step(r, a[0]), a[1..], b);
    }
  }

  /** Reading a + b in two legs. */
  lemma {:induction false} ScanThen(r: Reader, a: string, b: string, mid: Reader, end: Reader)
    requires Scan(r, a) == mid && Scan(mid, b) == end
    ensures Scan(r, a + b) == end
  {
    ScanAppend(r, a, b);
  }

  lemma {:induction false} ScanDigits(offsets: seq<nat>, bytes: seq<byte>, ds: HexString, s: HexString)
    ensures Scan(Reading(OffsetField, ds, None, offsets, bytes), s) ==
            Reading(OffsetField, ds + s, None, offsets, bytes)
    decreases |s|
  {
    if s == [] {
      assert ds + s == ds;
    } else {
      var ds': HexString := ds + [s[0]];
      var rest: HexString := s[1..];
      assert ds' + rest == ds + s;
      ScanDigits(offsets, bytes, ds', rest);
    }
  }

  /** The offset column and its space read back as the offset. */
  lemma {:induction false} ScanOffsetColumn(offsets: seq<nat>, bytes: seq<byte>, n: nat)
    ensures Scan(LineStart(offsets, bytes), Padded(n, OffsetWidth) + " ") == InData(offsets + [n], bytes)
  {
    var p := Padded(n, OffsetWidth);
    PaddedDenotes(n, OffsetWidth);
    ScanAppend(LineStart(offsets, bytes), p, " ");
    ScanDigits(offsets, bytes, [], p);
    assert [] + p == p;
  }

  /** A byte's two digits read back as the byte. */
  lemma {:induction false} ScanByte(offsets: seq<nat>, bytes: seq<byte>, b: byte)
    ensures Scan(InData(offsets, bytes), ByteHex(b)) == InData(offsets, bytes + [b])
  {
    var s := ByteHex(b);
    ByteHexDenotes(b);
    var high := DigitValue(s[0]);
    var r1 := Reading(DataField, [], Some(high), offsets, bytes);
    assert Step(InData(offsets, bytes), s[0]) == r1;
    assert Step(r1, s[1]) == InData(offsets, bytes + [b]);
    assert s[1..][1..] == [];
    assert Scan(r1, s[1..]) == Scan(InData(offsets, bytes + [b]), []);
  }

  lemma {:induction false} ScanBytes(offsets: seq<nat>, bytes: seq<byte>, x: byte, y: byte)
    ensures Scan(InData(offsets, bytes), ByteHex(x) + ByteHex(y)) == InData(offsets, bytes + [x, y])
  {
    ScanAppend(InData(offsets, bytes), ByteHex(x), ByteHex(y));
    ScanByte(offsets, bytes, x);
    ScanByte(offsets, bytes + [x], y);
    assert bytes + [x] + [y] == bytes + [x, y];
  }

  lemma {:induction false} ScanSpaces(offsets: seq<nat>, bytes: seq<byte>, s: string)
    requires forall i | 0 <= i < |s| :: s[i] == ' '
    ensures Scan(InData(offsets, bytes), s) == InData(offsets, bytes)
    decreases |s|
  {
    if s != [] {
      ScanSpaces(offsets, bytes, s[1..]);
    }
  }

  /** A group reads back as the (zero, one or two) bytes it shows. */
  lemma {:induction false} ScanGroup(d: Dialect, row: seq<byte>, j: nat, offsets: seq<nat>, bytes: seq<byte>)
    ensures Scan(InData(offsets, bytes), Group(d, row, j)) ==
            InData(offsets, bytes + row[Min(j, |row|)..Min(j + 2, |row|)])
  {
    var r := InData(offsets, bytes);
    if |row| <= j {
      ScanSpaces(offsets, bytes, Blank);
      assert row[Min(j, |row|)..Min(j + 2, |row|)] == [];
    } else if j + 1 < |row| {
      var pair := ByteHex(row[j]) + ByteHex(row[j + 1]);
      assert Group(d, row, j) == pair + " ";
      ScanAppend(r, pair, " ");
      ScanBytes(offsets, bytes, row[j], row[j + 1]);
      assert row[j..j + 2] == [row[j], row[j + 1]];
    } else {
      var lone := ByteHex(row[j]);
      ScanByte(offsets, bytes, row[j]);
      assert row[j..j + 1] == [row[j]];
      match d
      case Cpp =>
        assert Group(d, row, j) == lone + " ";
        ScanAppend(r, lone, " ");
      case Rust =>
        assert Group(d, row, j) == lone;
    }
  }

  lemma {:induction false} ScanGroups(d: Dialect, row: seq<byte>, k: nat, offsets: seq<nat>, bytes: seq<byte>)
    ensures Scan(InData(offsets, bytes), Groups(d, row, k)) ==
            InData(offsets, bytes + row[..Min(2 * k, |row|)])
    decreases k, 1
  {
    if k == 0 {
      assert bytes + row[..0] == bytes;
    } else {
      ScanGroupsStep(d, row, k, offsets, bytes);
    }
  }

  lemma {:induction false} ScanGroupsStep(d: Dialect, row: seq<byte>, k: nat, offsets: seq<nat>, bytes: seq<byte>)
    requires k > 0
    ensures Scan(InData(offsets, bytes), Groups(d, row, k)) ==
            InData(offsets, bytes + row[..Min(2 * k, |row|)])
    decreases k, 0
  {
    var j := 2 * (k - 1);
    ScanGroups(d, row, k - 1, offsets, bytes);
    ScanNextGroup(d, row, k, offsets, bytes);
    ScanThen(InData(offsets, bytes), Groups(d, row, k - 1), Group(d, row, j),
             InData(offsets, bytes + row[..Min(j, |row|)]), InData(offsets, bytes + row[..Min(2 * k, |row|)]));
  }

  /** Group k - 1 of a row adds its one or two bytes after those of the groups before it. */
  lemma {:induction false} ScanNextGroup(d: Dialect, row: seq<byte>, k: nat, offsets: seq<nat>, bytes: seq<byte>)
    requires k > 0
    ensures Scan(InData(offsets, bytes + row[..Min(2 * (k - 1), |row|)]), Group(d, row, 2 * (k - 1))) ==
            InData(offsets, bytes + row[..Min(2 * k, |row|)])
  {
    var j := 2 * (k - 1);
    assert Min(j + 2, |row|) == Min(2 * k, |row|);
    PrefixStep(bytes, row, j);
    ScanGroup(d, row, j, offsets, bytes + row[..Min(j, |row|)]);
  }

  lemma {:induction false} PrefixStep(bytes: seq<byte>, row: seq<byte>, j: nat)
    ensures bytes + row[..Min(j, |row|)] + row[Min(j, |row|)..Min(j + 2, |row|)] == bytes + row[..Min(j + 2, |row|)]
  {
    assert row[..Min(j, |row|)] + row[Min(j, |row|)..Min(j + 2, |row|)] == row[..Min(j + 2, |row|)];
  }

  /** A row reads back as its offset and its bytes, leaving the reader at the next line. */
  lemma {:induction false} ScanRow(d: Dialect, offset: nat, row: seq<byte>, offsets: seq<nat>, bytes: seq<byte>)
    requires |row| <= BytesPerLine
    ensures Scan(LineStart(offsets, bytes), Row(d, offset, row)) == LineStart(offsets + [offset], bytes + row)
  {
    var head := Head(offset);
    var groups := Groups(d, row, BytesPerLine / 2);
    var r := LineStart(offsets, bytes);
    RowParts(d, offset, row);
    ScanAppend(r, head + groups, "\n");
    ScanAppend(r, head, groups);
    ScanOffsetColumn(offsets, bytes, offset);
    ScanGroups(d, row, BytesPerLine / 2, offsets + [offset], bytes);
    assert row[..Min(BytesPerLine, |row|)] == row;
  }

  lemma {:induction false} ScanText(d: Dialect, lines: seq<Line>, offsets: seq<nat>, bytes: seq<byte>)
    requires forall k | 0 <= k < |lines| :: |lines[k].bytes| <= BytesPerLine
    ensures Scan(LineStart(offsets, bytes), Text(d, lines)) ==
            LineStart(offsets + OffsetsOf(lines), bytes + BytesOf(lines))
  {
    if lines == [] {
      assert offsets + [] == offsets && bytes + [] == bytes;
    } else {
      var line, rest := lines[0], lines[1..];
      var offsets', bytes' := offsets + [line.offset], bytes + line.bytes;
      assert offsets' + OffsetsOf(rest) == offsets + OffsetsOf(lines) by {
        assert OffsetsOf(lines) == [line.offset] + OffsetsOf(rest);
      }
      assert bytes' + BytesOf(rest) == bytes + BytesOf(lines) by {
        assert BytesOf(lines) == line.bytes + BytesOf(rest);
      }
      ScanRow(d, line.offset, line.bytes, offsets, bytes);
      ScanText(d, rest, offsets', bytes');
      ScanThen(LineStart(offsets, bytes), Row(d, line.offset, line.bytes), Text(d, rest),
               LineStart(offsets', bytes'), LineStart(offsets' + OffsetsOf(rest), bytes' + BytesOf(rest)));
    }
  }

  lemma {:induction false} ScanRows(d: Dialect, start: nat, buffer: seq<byte>, offsets: seq<nat>, bytes: seq<byte>)
    ensures Scan(LineStart(offsets, bytes), Rows(d, start, buffer)) ==
            LineStart(offsets + RowOffsets(start, |buffer|), bytes + buffer)
  {
    LinesShape(start, buffer);
    LinesCover(start, buffer);
    ScanText(d, Lines(start, buffer), offsets, bytes);
  }

  // ---------------------------------------------------------------------
  // Round trips

  /**
   * What print_hexdump writes for a buffer reads back as exactly that
   * buffer, with one row per 16 bytes whose offsets are start, start+16, ...
   */
  lemma {:induction false} RowsRoundTrip(d: Dialect, start: nat, buffer: seq<byte>)
    ensures Decode(Rows(d, start, buffer)) == Some(Listing(RowOffsets(start, |buffer|), buffer))
  {
    ScanRows(d, start, buffer, [], []);
    assert [] + RowOffsets(start, |buffer|) == RowOffsets(start, |buffer|);
    assert [] + buffer == buffer;
  }

  lemma {:induction false} ScanChunked(d: Dialect, file: seq<byte>, lengths: seq<nat>)
    requires Sum(lengths) <= |file|
    ensures Scan(LineStart([], []), Chunked(d, file, lengths)) ==
            LineStart(ChunkOffsets(lengths), file[..Sum(lengths)])
  {
    if lengths == [] {
      assert file[..0] == [];
    } else {
      var front := lengths[..|lengths| - 1];
      var s, t := Sum(front), Sum(lengths);
      assert s <= t;
      var piece := file[s..t];
      assert file[..s] + piece == file[..t];
      assert ChunkOffsets(front) + RowOffsets(s, |piece|) == ChunkOffsets(lengths);
      assert Chunked(d, file, lengths) == Chunked(d, file, front) + Rows(d, s, piece);
      ScanChunked(d, file, front);
      ScanRows(d, s, piece, ChunkOffsets(front), file[..s]);
      ScanThen(LineStart([], []), Chunked(d, file, front), Rows(d, s, piece),
               LineStart(ChunkOffsets(front), file[..s]),
               LineStart(ChunkOffsets(lengths), file[..t]));
    }
  }

  /**
   * Successive print_hexdump calls over consecutive pieces of a file read
   * back as the file's prefix they covered, whatever the piece lengths.
   */
  lemma {:induction false} ChunkedRoundTrip(d: Dialect, file: seq<byte>, lengths: seq<nat>)
    requires Sum(lengths) <= |file|
    ensures Decode(Chunked(d, file, lengths)) == Some(Listing(ChunkOffsets(lengths), file[..Sum(lengths)]))
  {
    ScanChunked(d, file, lengths);
  }
}
