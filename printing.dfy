/**
 * Facts both print_hexdump loops rely on, relating what is written so far
 * to the rows of Layout: the rows of a buffer one at a time, and a row as a
 * window of the shared buffer.
 */
module Printing {
  import opened Basics
  import opened Hex
  import opened Layout

  /** row is the window buffer[i..min(i + 16, length)] of the first length bytes of buffer. */
  ghost predicate IsRow(row: seq<byte>, buffer: array<byte>, length: nat, i: nat)
    reads buffer
  {
    i < length <= buffer.Length && |row| == Min(i + BytesPerLine, length) - i &&
    forall t | 0 <= t < |row| :: row[t] == buffer[i + t]
  }

  /**
   * The window of the buffer the loop's turn at i prints: at a multiple of
   * 16 it is the bytes of the (i / 16)-th row of the dump numbered from start.
   */
  lemma {:induction false} RowAt(buffer: array<byte>, length: nat, start: nat, i: nat) returns (row: seq<byte>)
    requires i < length <= buffer.Length
    ensures IsRow(row, buffer, length, i)
    ensures row == buffer[..length][i..Min(i + BytesPerLine, length)]
    ensures i % BytesPerLine == 0 ==>
              i / BytesPerLine < |Lines(start, buffer[..length])| &&
              Lines(start, buffer[..length])[i / BytesPerLine] == Line(start + i, row)
  {
    row := buffer[..length][i..Min(i + BytesPerLine, length)];
    if i % BytesPerLine == 0 {
      LinesAt(start, buffer[..length], i);
    }
  }

  /** The loop counter i of print_hexdump steps by 16, so it stays a multiple of 16. */
  lemma {:induction false} LineAligned(r: nat)
    ensures (BytesPerLine * r) % BytesPerLine == 0
  {
  }

  /** The rows up to the end of the row at i are those before it and that row. */
  lemma {:induction false} RowStep(d: Dialect, start: nat, data: seq<byte>, i: nat)
    requires i % BytesPerLine == 0 && i < |data|
    ensures Rows(d, start, data[..Min(i + BytesPerLine, |data|)])
      == Rows(d, start, data[..i]) + Row(d, start + i, data[i..Min(i + BytesPerLine, |data|)])
  {
    var m := Min(i + BytesPerLine, |data|);
    RowsSplit(d, start, data, i, m);
    RowsOne(d, start + i, data[i..m]);
  }
}
