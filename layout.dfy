/**
 * The text that `print_hexdump` writes for one buffer, in both programs.
 * The two differ in one place only: after the lone first byte of an
 * incomplete pair HexDump.cpp writes a space and Rust/Hexdump.rs does not.
 */
module Layout {
  import opened Basics
  import opened Hex

  datatype Dialect = Cpp | Rust

  const BytesPerLine: nat := 16
  const OffsetWidth: nat := 8
  /** What an absent group prints: five spaces. */
  const Blank: string := "     "

  /** The group for the pair that starts at position j of a row (j is even). */
  function Group(d: Dialect, row: seq<byte>, j: nat): string
  {
    if j < |row| then
      match d
      case Cpp => ByteHex(row[j]) + (if j + 1 < |row| then ByteHex(row[j + 1]) else "") + " "
      case Rust => ByteHex(row[j]) + (if j + 1 < |row| then ByteHex(row[j + 1]) + " " else "")
    else Blank
  }

  /** The first k groups of a row, left to right. */
  function Groups(d: Dialect, row: seq<byte>, k: nat): string
  {
    if k == 0 then "" else Groups(d, row, k - 1) + Group(d, row, 2 * (k - 1))
  }

  /** The offset column and the space after it, with which every row begins. */
  function Head(offset: nat): string
  {
    Padded(offset, OffsetWidth) + " "
  }

  /** What print_hexdump has written of a row after k turns of its inner loop. */
  function RowSoFar(d: Dialect, offset: nat, row: seq<byte>, k: nat): string
  {
    if k == 0 then Head(offset) else RowSoFar(d, offset, row, k - 1) + Group(d, row, 2 * (k - 1))
  }

  /** One output line: offset column, a space, eight groups, a newline. */
  function Row(d: Dialect, offset: nat, row: seq<byte>): string
  {
    RowSoFar(d, offset, row, BytesPerLine / 2) + "\n"
  }

  /** The row so far is the head followed by the first k groups. */
  lemma {:induction false} RowSoFarParts(d: Dialect, offset: nat, row: seq<byte>, k: nat)
    ensures RowSoFar(d, offset, row, k) == Head(offset) + Groups(d, row, k)
  {
    if k > 0 {
      RowSoFarParts(d, offset, row, k - 1);
      AppendAssoc(Head(offset), Groups(d, row, k - 1), Group(d, row, 2 * (k - 1)));
    }
  }

  lemma {:induction false} AppendAssoc(a: string, b: string, c: string)
    ensures a + (b + c) == (a + b) + c
  {
  }

  lemma {:induction false} RowParts(d: Dialect, offset: nat, row: seq<byte>)
    ensures Row(d, offset, row) == Head(offset) + Groups(d, row, BytesPerLine / 2) + "\n"
  {
    RowSoFarParts(d, offset, row, BytesPerLine / 2);
  }

  /** A row of the dump before it is rendered: its offset and its (at most 16) bytes. */
  datatype Line = Line(offset: nat, bytes: seq<byte>)

  /** How print_hexdump cuts a buffer into rows: 16 bytes each, the last one possibly shorter. */
  function Lines(start: nat, bytes: seq<byte>): seq<Line>
    decreases |bytes|
  {
    if |bytes| == 0 then []
    else
      var n := Min(BytesPerLine, |bytes|);
      [Line(start, bytes[..n])] + Lines(start + BytesPerLine, bytes[n..])
  }

  /** The rendered rows, one after the other. */
  function Text(d: Dialect, lines: seq<Line>): string
  {
    if |lines| == 0 then "" else Row(d, lines[0].offset, lines[0].bytes) + Text(d, lines[1..])
  }

  /** The bytes the lines hold, in order. */
  function BytesOf(lines: seq<Line>): seq<byte>
  {
    if |lines| == 0 then [] else lines[0].bytes + BytesOf(lines[1..])
  }

  /** The offsets of the lines, in order. */
  function OffsetsOf(lines: seq<Line>): seq<nat>
  {
    if |lines| == 0 then [] else [lines[0].offset] + OffsetsOf(lines[1..])
  }

  /** What print_hexdump(buffer, |bytes|, start) writes for bytes == buffer[..length]. */
  function Rows(d: Dialect, start: nat, bytes: seq<byte>): string
  {
    Text(d, Lines(start, bytes))
  }

  /** The offsets printed by Rows(d, start, bytes) when |bytes| == length. */
  function RowOffsets(start: nat, length: nat): seq<nat>
  {
    seq((length + BytesPerLine - 1) / BytesPerLine, k => start + BytesPerLine * k)
  }

  function Sum(lengths: seq<nat>): nat
  {
    if |lengths| == 0 then 0 else Sum(lengths[..|lengths| - 1]) + lengths[|lengths| - 1]
  }

  /**
   * The text of successive print_hexdump calls over consecutive pieces of a
   * file, piece k being lengths[k] bytes long and starting where piece k-1 ended.
   */
  function Chunked(d: Dialect, file: seq<byte>, lengths: seq<nat>): string
    requires Sum(lengths) <= |file|
  {
    if |lengths| == 0 then ""
    else
      var front := lengths[..|lengths| - 1];
      Chunked(d, file, front) + Rows(d, Sum(front), file[Sum(front)..Sum(lengths)])
  }

  /** The offsets that Chunked prints, call after call. */
  function ChunkOffsets(lengths: seq<nat>): seq<nat>
  {
    if |lengths| == 0 then []
    else
      var front := lengths[..|lengths| - 1];
      ChunkOffsets(front) + RowOffsets(Sum(front), lengths[|lengths| - 1])
  }

  function InsertAt(s: string, k: nat, c: char): string
    requires k <= |s|
  {
    s[..k] + [c] + s[k..]
  }

  lemma {:induction false} InsertAtAppend(s: string, t: string, k: nat, c: char)
    requires k <= |s|
    ensures InsertAt(s, k, c) + t == InsertAt(s + t, k, c)
  {
    assert (s + t)[..k] == s[..k];
    assert (s + t)[k..] == s[k..] + t;
  }

  lemma {:induction false} InsertAtPrefix(h: string, s: string, k: nat, c: char)
    requires k <= |s|
    ensures h + InsertAt(s, k, c) == InsertAt(h + s, |h| + k, c)
  {
    assert (h + s)[..|h| + k] == h + s[..k];
    assert (h + s)[|h| + k..] == s[k..];
  }

  lemma {:induction false} Halves(n: nat)
    requires n % 2 == 1
    ensures n == 2 * (n / 2) + 1
  {
  }

  /** How much shorter than five characters the group of a lone byte is. */
  function LoneShortfall(d: Dialect): nat
  {
    match d
    case Cpp => 2
    case Rust => 3
  }

  // ---------------------------------------------------------------------
  // Shape of a row

  /**
   * A full pair and an absent pair take five characters; the lone byte of a
   * row of odd length takes three in C++ and two in Rust.
   */
  lemma {:induction false} GroupLength(d: Dialect, row: seq<byte>, j: nat)
    ensures |Group(d, row, j)| == if j < |row| && |row| <= j + 1 then 5 - LoneShortfall(d) else 5
  {
  }

  lemma {:induction false} GroupsLength(d: Dialect, row: seq<byte>, k: nat)
    ensures |Groups(d, row, k)| ==
              5 * k - (if |row| % 2 == 1 && |row| / 2 < k then LoneShortfall(d) else 0)
  {
    if k > 0 {
      GroupsLength(d, row, k - 1);
      GroupLength(d, row, 2 * (k - 1));
    }
  }

  /** A row is the offset column, a space, 40 characters of groups (less for a lone byte) and a newline. */
  lemma {:induction false} RowLength(d: Dialect, offset: nat, row: seq<byte>)
    requires 1 <= |row| <= BytesPerLine
    ensures |Row(d, offset, row)| ==
              |Padded(offset, OffsetWidth)| + 42 - (if |row| % 2 == 1 then LoneShortfall(d) else 0)
  {
    GroupsLength(d, row, BytesPerLine / 2);
    RowParts(d, offset, row);
  }

  /** The offset column is exactly eight characters for every offset below 2^32, wider above. */
  lemma {:induction false} OffsetColumn(offset: nat)
    ensures |Padded(offset, OffsetWidth)| >= OffsetWidth
    ensures |Padded(offset, OffsetWidth)| == OffsetWidth <==> offset < 0x1_0000_0000
  {
    assert Pow16(8) == 0x1_0000_0000;
    PaddedDenotes(offset, OffsetWidth);
    PaddedWidth(offset, OffsetWidth);
  }

  // ---------------------------------------------------------------------
  // The two dialects

  lemma {:induction false} GroupDialects(row: seq<byte>, j: nat)
    ensures Group(Cpp, row, j) ==
              if j < |row| && |row| <= j + 1 then Group(Rust, row, j) + " " else Group(Rust, row, j)
  {
  }

  lemma {:induction false} EvenNotOdd(n: nat, h: nat)
    requires n % 2 == 0
    ensures n != 2 * h + 1
  {
  }

  /** Before the lone byte of a row the groups of both programs agree. */
  lemma {:induction false} GroupsAgree(row: seq<byte>, k: nat)
    requires 2 * k <= |row| || |row| % 2 == 0
    ensures Groups(Cpp, row, k) == Groups(Rust, row, k)
  {
    if k > 0 {
      var j := 2 * (k - 1);
      if 2 * k > |row| {
        EvenNotOdd(|row|, k - 1);
      }
      GroupsAgree(row, k - 1);
      GroupDialects(row, j);
    }
  }

  /** At the lone byte of a row of odd length 2h+1 the C++ text gains one space. */
  lemma {:induction false} GroupsAtLone(row: seq<byte>, h: nat)
    requires |row| == 2 * h + 1
    ensures |Groups(Rust, row, h + 1)| == 5 * h + 2
    ensures Groups(Cpp, row, h + 1) == Groups(Rust, row, h + 1) + " "
  {
    var j := 2 * h;
    var prev := Groups(Rust, row, h);
    var lone := Group(Rust, row, j);
    assert |prev| == 5 * h by {
      GroupsLength(Rust, row, h);
    }
    assert |lone| == 2 by {
      GroupLength(Rust, row, j);
    }
    assert Groups(Cpp, row, h) == prev by {
      GroupsAgree(row, h);
    }
    assert Group(Cpp, row, j) == lone + " " by {
      GroupDialects(row, j);
    }
    calc {
      Groups(Cpp, row, h + 1);
      Groups(Cpp, row, h) + Group(Cpp, row, j);
      prev + (lone + " ");
      (prev + lone) + " ";
      Groups(Rust, row, h + 1) + " ";
    }
  }

  /**
   * In a row of odd length 2h+1, from the lone byte on the C++ groups carry
   * one extra space, right after the lone byte's two digits.
   */
  lemma {:induction false} GroupsDiffer(row: seq<byte>, h: nat, k: nat)
    requires |row| == 2 * h + 1 && h < k
    ensures 5 * h + 2 <= |Groups(Rust, row, k)|
    ensures Groups(Cpp, row, k) == InsertAt(Groups(Rust, row, k), 5 * h + 2, ' ')
    decreases k, 1
  {
    if k == h + 1 {
      GroupsInsertAtLone(row, h, k);
    } else {
      GroupsPastLone(row, h, k);
    }
  }

  lemma {:induction false} GroupsInsertAtLone(row: seq<byte>, h: nat, k: nat)
    requires |row| == 2 * h + 1 && k == h + 1
    ensures 5 * h + 2 <= |Groups(Rust, row, k)|
    ensures Groups(Cpp, row, k) == InsertAt(Groups(Rust, row, k), 5 * h + 2, ' ')
  {
    GroupsAtLone(row, h);
    var rust := Groups(Rust, row, h + 1);
    assert InsertAt(rust, 5 * h + 2, ' ') == rust + " ";
  }

  /** Past the lone byte every group is blank in both programs, so the extra space stays where it is. */
  lemma {:induction false} GroupsPastLone(row: seq<byte>, h: nat, k: nat)
    requires |row| == 2 * h + 1 && h + 1 < k
    ensures 5 * h + 2 <= |Groups(Rust, row, k)|
    ensures Groups(Cpp, row, k) == InsertAt(Groups(Rust, row, k), 5 * h + 2, ' ')
    decreases k, 0
  {
    GroupsDiffer(row, h, k - 1);
    var p := 5 * h + 2;
    var j := 2 * (k - 1);
    var prev := Groups(Rust, row, k - 1);
    assert Group(Cpp, row, j) == Blank && Group(Rust, row, j) == Blank by {
      assert |row| <= j;
    }
    InsertAtAppend(prev, Blank, p, ' ');
  }

  /**
   * Rows of even length are the same text in both programs; a row of odd
   * length differs by the one space C++ writes after the lone byte.
   */
  lemma {:induction false} RowDialects(offset: nat, row: seq<byte>)
    requires 1 <= |row| <= BytesPerLine
    ensures |row| % 2 == 0 ==> Row(Cpp, offset, row) == Row(Rust, offset, row)
    ensures |row| % 2 == 1 ==>
              var k := |Padded(offset, OffsetWidth)| + 1 + 5 * (|row| / 2) + 2;
              k <= |Row(Rust, offset, row)| &&
              Row(Cpp, offset, row) == InsertAt(Row(Rust, offset, row), k, ' ')
  {
    if |row| % 2 == 0 {
      GroupsAgree(row, BytesPerLine / 2);
      RowParts(Cpp, offset, row);
      RowParts(Rust, offset, row);
    } else {
      Halves(|row|);
      RowAtLone(offset, row, |row| / 2);
    }
  }

  lemma {:induction false} RowAtLone(offset: nat, row: seq<byte>, h: nat)
    requires |row| == 2 * h + 1 && h < BytesPerLine / 2
    ensures var k := |Padded(offset, OffsetWidth)| + 1 + 5 * h + 2;
              k <= |Row(Rust, offset, row)| &&
              Row(Cpp, offset, row) == InsertAt(Row(Rust, offset, row), k, ' ')
  {
    var head := Head(offset);
    var g := Groups(Rust, row, 8);
    var p := 5 * h + 2;
    GroupsDiffer(row, h, 8);
    RowParts(Cpp, offset, row);
    RowParts(Rust, offset, row);
    assert Row(Cpp, offset, row) == (head + InsertAt(g, p, ' ')) + "\n";
    assert Row(Rust, offset, row) == (head + g) + "\n";
    assert |head| == |Padded(offset, OffsetWidth)| + 1;
    InsertAtPrefix(head, g, p, ' ');
    InsertAtAppend(head + g, "\n", |head| + p, ' ');
  }

  /**
   * The lines of a buffer hold exactly its bytes, in order, and start at
   * start, start+16, start+32, ...: ceil(|bytes|/16) of them.
   */
  lemma {:induction false} LinesCover(start: nat, bytes: seq<byte>)
    ensures BytesOf(Lines(start, bytes)) == bytes
    ensures OffsetsOf(Lines(start, bytes)) == RowOffsets(start, |bytes|)
    decreases |bytes|
  {
    if bytes != [] {
      var n := Min(BytesPerLine, |bytes|);
      var rest := Lines(start + BytesPerLine, bytes[n..]);
      LinesCover(start + BytesPerLine, bytes[n..]);
      assert Lines(start, bytes) == [Line(start, bytes[..n])] + rest;
      assert ([Line(start, bytes[..n])] + rest)[1..] == rest;
      assert bytes[..n] + bytes[n..] == bytes;
      RowOffsetsStep(start, |bytes|);
    }
  }

  /**
   * The row print_hexdump writes for the counter i, a multiple of 16, is
   * the (i / 16)-th of Lines: at offset start + i, holding the bytes from i
   * to the next multiple of 16 or the end.
   */
  lemma {:induction false} LinesAt(start: nat, bytes: seq<byte>, i: nat)
    requires i % BytesPerLine == 0 && i < |bytes|
    ensures i / BytesPerLine < |Lines(start, bytes)|
    ensures Lines(start, bytes)[i / BytesPerLine] == Line(start + i, bytes[i..Min(i + BytesPerLine, |bytes|)])
    decreases i
  {
    var n := Min(BytesPerLine, |bytes|);
    var rest := Lines(start + BytesPerLine, bytes[n..]);
    assert Lines(start, bytes) == [Line(start, bytes[..n])] + rest;
    if BytesPerLine <= i {
      var j := i - BytesPerLine;
      LinesAt(start + BytesPerLine, bytes[n..], j);
      var m := Min(i + BytesPerLine, |bytes|);
      assert n == BytesPerLine && j / BytesPerLine == i / BytesPerLine - 1;
      assert Min(j + BytesPerLine, |bytes| - n) == m - n;
      assert bytes[n..][j..m - n] == bytes[i..m] by {
        forall t | 0 <= t < m - i
          ensures bytes[n..][j..m - n][t] == bytes[i..m][t]
        {
          assert bytes[n..][j..m - n][t] == bytes[n + j + t];
        }
      }
    }
  }

  lemma {:induction false} RowOffsetsStep(start: nat, length: nat)
    requires 0 < length
    ensures RowOffsets(start, length) ==
              [start] + RowOffsets(start + BytesPerLine, length - Min(BytesPerLine, length))
  {
    var r := RowOffsets(start, length);
    var t := RowOffsets(start + BytesPerLine, length - Min(BytesPerLine, length));
    assert |r| == 1 + |t|;
    forall k | 0 <= k < |r|
      ensures r[k] == ([start] + t)[k]
    {
      if k > 0 {
        assert t[k - 1] == start + BytesPerLine + BytesPerLine * (k - 1);
      }
    }
  }

  /** Every line holds 1 to 16 bytes, and only the last may hold fewer than 16. */
  lemma {:induction false} LinesShape(start: nat, bytes: seq<byte>)
    ensures forall k | 0 <= k < |Lines(start, bytes)| ::
              1 <= |Lines(start, bytes)[k].bytes| <= BytesPerLine &&
              (k < |Lines(start, bytes)| - 1 ==> |Lines(start, bytes)[k].bytes| == BytesPerLine)
    ensures |bytes| % 2 == 0 ==>
              forall k | 0 <= k < |Lines(start, bytes)| :: |Lines(start, bytes)[k].bytes| % 2 == 0
    decreases |bytes|
  {
    if bytes != [] {
      var n := Min(BytesPerLine, |bytes|);
      LinesShape(start + BytesPerLine, bytes[n..]);
      assert Lines(start, bytes) == [Line(start, bytes[..n])] + Lines(start + BytesPerLine, bytes[n..]);
      assert n < |bytes| ==> n == BytesPerLine;
    }
  }

  lemma {:induction false} TextDialects(lines: seq<Line>)
    requires forall k | 0 <= k < |lines| :: 1 <= |lines[k].bytes| <= BytesPerLine && |lines[k].bytes| % 2 == 0
    ensures Text(Cpp, lines) == Text(Rust, lines)
  {
    if lines != [] {
      RowDialects(lines[0].offset, lines[0].bytes);
      TextDialects(lines[1..]);
    }
  }

  /** A buffer of even length is dumped identically by both programs. */
  lemma {:induction false} RowsDialects(start: nat, bytes: seq<byte>)
    requires |bytes| % 2 == 0
    ensures Rows(Cpp, start, bytes) == Rows(Rust, start, bytes)
  {
    LinesShape(start, bytes);
    TextDialects(Lines(start, bytes));
  }

  // ---------------------------------------------------------------------
  // Composition of calls

  lemma {:induction false} LinesAppend(start: nat, a: seq<byte>, b: seq<byte>)
    requires |a| % BytesPerLine == 0
    ensures Lines(start, a + b) == Lines(start, a) + Lines(start + |a|, b)
    decreases |a|
  {
    if a == [] {
      assert a + b == b;
    } else {
      var ab := a + b;
      assert ab[..BytesPerLine] == a[..BytesPerLine];
      assert ab[BytesPerLine..] == a[BytesPerLine..] + b;
      LinesAppend(start + BytesPerLine, a[BytesPerLine..], b);
    }
  }

  lemma {:induction false} TextAppend(d: Dialect, x: seq<Line>, y: seq<Line>)
    ensures Text(d, x + y) == Text(d, x) + Text(d, y)
  {
    if x == [] {
      assert x + y == y;
    } else {
      assert (x + y)[0] == x[0];
      assert (x + y)[1..] == x[1..] + y;
      TextAppend(d, x[1..], y);
    }
  }

  /** A buffer of at most one row prints as that single row. */
  lemma {:induction false} RowsOne(d: Dialect, start: nat, row: seq<byte>)
    requires 1 <= |row| <= BytesPerLine
    ensures Rows(d, start, row) == Row(d, start, row)
  {
    assert row[..|row|] == row && row[|row|..] == [];
    var lines := [Line(start, row)];
    assert Lines(start, row) == lines;
    assert lines[1..] == [];
    assert Text(d, lines) == Row(d, start, row) + "";
    assert Row(d, start, row) + "" == Row(d, start, row);
  }

  /** One more call of print_hexdump, on the next m bytes of the file. */
  lemma {:induction false} ChunkedStep(d: Dialect, file: seq<byte>, lengths: seq<nat>, m: nat)
    requires Sum(lengths) + m <= |file|
    ensures Sum(lengths + [m]) == Sum(lengths) + m
    ensures Chunked(d, file, lengths + [m]) ==
            Chunked(d, file, lengths) + Rows(d, Sum(lengths), file[Sum(lengths)..Sum(lengths) + m])
  {
    var all := lengths + [m];
    assert all[..|all| - 1] == lengths && all[|all| - 1] == m;
    assert Sum(all) == Sum(lengths) + m;
  }

  /** Dumping a+b equals dumping a, then b from where a ended, when a is whole rows. */
  lemma {:induction false} RowsAppend(d: Dialect, start: nat, a: seq<byte>, b: seq<byte>)
    requires |a| % BytesPerLine == 0
    ensures Rows(d, start, a + b) == Rows(d, start, a) + Rows(d, start + |a|, b)
  {
    LinesAppend(start, a, b);
    TextAppend(d, Lines(start, a), Lines(start + |a|, b));
  }

  /** The sum of a length in front of others. */
  lemma {:induction false} SumCons(n: nat, lengths: seq<nat>)
    ensures Sum([n] + lengths) == n + Sum(lengths)
    decreases |lengths|
  {
    if lengths != [] {
      var front := lengths[..|lengths| - 1];
      assert ([n] + lengths)[..|lengths|] == [n] + front;
      SumCons(n, front);
    }
  }

  lemma {:induction false} SumOfMultiples(lengths: seq<nat>)
    requires forall k | 0 <= k < |lengths| :: lengths[k] % BytesPerLine == 0
    ensures Sum(lengths) % BytesPerLine == 0
  {
    if lengths != [] {
      SumOfMultiples(lengths[..|lengths| - 1]);
    }
  }

  /**
   * When every piece but the last is a whole number of rows, the successive
   * calls print exactly what one call on the whole prefix would print.
   */
  lemma {:induction false} ChunkedAligned(d: Dialect, file: seq<byte>, lengths: seq<nat>)
    requires Sum(lengths) <= |file|
    requires forall k | 0 <= k < |lengths| - 1 :: lengths[k] % BytesPerLine == 0
    ensures Chunked(d, file, lengths) == Rows(d, 0, file[..Sum(lengths)])
    decreases |lengths|, 1
  {
    if lengths == [] {
      assert file[..0] == [];
    } else {
      ChunkedAlignedStep(d, file, lengths);
    }
  }

  lemma {:induction false} ChunkedAlignedStep(d: Dialect, file: seq<byte>, lengths: seq<nat>)
    requires lengths != [] && Sum(lengths) <= |file|
    requires forall k | 0 <= k < |lengths| - 1 :: lengths[k] % BytesPerLine == 0
    ensures Chunked(d, file, lengths) == Rows(d, 0, file[..Sum(lengths)])
    decreases |lengths|, 0
  {
    var front := lengths[..|lengths| - 1];
    FrontAligned(lengths, front);
    ChunkedAligned(d, file, front);
    SumOfMultiples(front);
    PrefixSplit(d, file, Sum(front), Sum(lengths));
  }

  lemma {:induction false} FrontAligned(lengths: seq<nat>, front: seq<nat>)
    requires lengths != [] && front == lengths[..|lengths| - 1]
    requires forall k | 0 <= k < |lengths| - 1 :: lengths[k] % BytesPerLine == 0
    ensures forall k | 0 <= k < |front| :: front[k] % BytesPerLine == 0
  {
  }

  /** The rows of a prefix of the data, split at a line-aligned position. */
  lemma {:induction false} RowsSplit(d: Dialect, start: nat, file: seq<byte>, s: nat, e: nat)
    requires s % BytesPerLine == 0 && s <= e <= |file|
    ensures Rows(d, start, file[..e]) == Rows(d, start, file[..s]) + Rows(d, start + s, file[s..e])
  {
    SplitAt(file, 0, s, e);
    assert file[0..s] == file[..s] && file[0..e] == file[..e];
    RowsAppend(d, start, file[..s], file[s..e]);
  }

  /** The same split for a dump that starts at offset 0. */
  lemma {:induction false} PrefixSplit(d: Dialect, file: seq<byte>, s: nat, e: nat)
    requires s % BytesPerLine == 0 && s <= e <= |file|
    ensures Rows(d, 0, file[..e]) == Rows(d, 0, file[..s]) + Rows(d, s, file[s..e])
  {
    RowsSplit(d, 0, file, s, e);
  }
}
