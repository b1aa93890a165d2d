/**
 * HexDump.cpp: print_hexdump writing rows to standard output, the main
 * loop reading the file through a 4096-byte buffer, and the argument loop.
 * Standard output and standard error are the strings the methods return.
 */
module CppHexDump {
  import opened Basics
  import opened Hex
  import opened Layout
  import opened Args
  import opened Stream
  import opened Printing

  /** The size of the buffer main reads the file into. */
  const BufferSize: nat := 4096

  /**
   * One two-byte group of print_hexdump at column j of the row at i: both
   * bytes and a space, the lone last byte and a space, or five blanks past
   * the end of the buffer.
   */
  method PrintGroup(buffer: array<byte>, length: nat, i: nat, j: nat, ghost row: seq<byte>) returns (group: string)
    requires IsRow(row, buffer, length, i) && j + 1 < BytesPerLine
    ensures group == Group(Cpp, row, j)
  {
    if i + j < length {
      group := ByteHex(buffer[i + j]);
      if i + j + 1 < length {
        group := group + ByteHex(buffer[i + j + 1]);
      }
      group := group + " ";
    } else {
      group := Blank;
    }
  }

  /** One row of print_hexdump: the offset, eight groups, the end of line. */
  method PrintLine(buffer: array<byte>, length: nat, i: nat, startOffset: nat, ghost row: seq<byte>) returns (line: string)
    requires IsRow(row, buffer, length, i)
    ensures line == Row(Cpp, startOffset + i, row)
  {
    line := Padded(startOffset + i, OffsetWidth) + " ";
    var j: nat := 0;
    ghost var k: nat := 0;
    while j < BytesPerLine
      invariant j == 2 * k && k <= BytesPerLine / 2
      invariant line == RowSoFar(Cpp, startOffset + i, row, k)
    {
      var group := PrintGroup(buffer, length, i, j, row);
      assert RowSoFar(Cpp, startOffset + i, row, k + 1) == line + group;
      line := line + group;
      j, k := j + 2, k + 1;
    }
    line := line + "\n";
  }

  /**
   * print_hexdump(buffer, length, start_offset): one row per 16 bytes of
   * buffer[..length], the first numbered start_offset.
   */
  method PrintHexdump(buffer: array<byte>, length: nat, startOffset: nat) returns (text: string)
    requires length <= buffer.Length
    ensures text == Rows(Cpp, startOffset, buffer[..length])
  {
    ghost var data := buffer[..length];
    text := "";
    var i: nat := 0;
    ghost var r: nat := 0;
    assert data[..0] == [];
    while i < length
      invariant i == BytesPerLine * r
      invariant text == Rows(Cpp, startOffset, data[..Min(i, length)])
      decreases length - i
    {
      ghost var row := RowAt(buffer, length, startOffset, i);
      var line := PrintLine(buffer, length, i, startOffset, row);
      LineAligned(r);
      RowStep(Cpp, startOffset, data, i);
      text := text + line;
      i, r := i + BytesPerLine, r + 1;
    }
    assert data[..length] == data;
  }

  /** Every read but the last is a full buffer, so the offset stays a multiple of 16. */
  lemma {:induction false} BlockAligned(blocks: nat)
    ensures (BufferSize * blocks) % BytesPerLine == 0
  {
  }

  /**
   * The arithmetic of one turn of the read loop: a read at a block boundary
   * that delivered `delivered` bytes, cut to n by the limit, ends at the
   * next block boundary, at the end of the file or at the limit.
   */
  lemma {:induction false} ClampStep(contents: seq<byte>, maxBytes: nat, offset: nat, blocks: nat, delivered: nat, n: nat)
    requires offset == BufferSize * blocks
    requires offset <= maxBytes && 0 < delivered == Min(BufferSize, |contents| - offset)
    requires n == if offset + delivered > maxBytes then maxBytes - offset else delivered
    ensures offset % BytesPerLine == 0 && n <= delivered
    ensures offset + n <= maxBytes && offset + n <= |contents|
    ensures offset + n == BufferSize * (blocks + 1) || offset + n == |contents| || offset + n == maxBytes
  {
    BlockAligned(blocks);
  }

  /**
   * One turn of the read loop: the rows of the n bytes printed from the
   * buffer continue the rows printed so far.
   */
  lemma {:induction false} ReadStep(contents: seq<byte>, offset: nat, delivered: nat, n: nat, buffer: seq<byte>)
    requires offset % BytesPerLine == 0 && n <= delivered && offset + delivered <= |contents|
    requires delivered <= |buffer| && buffer[..delivered] == contents[offset..offset + delivered]
    ensures Rows(Cpp, 0, contents[..offset]) + Rows(Cpp, offset, buffer[..n]) == Rows(Cpp, 0, contents[..offset + n])
  {
    ChunkRows(contents, offset, delivered, n, buffer);
    PrefixSplit(Cpp, contents, offset, offset + n);
  }

  /** The first n delivered bytes print as the next n bytes of the file. */
  lemma {:induction false} ChunkRows(contents: seq<byte>, offset: nat, delivered: nat, n: nat, buffer: seq<byte>)
    requires n <= delivered && offset + delivered <= |contents|
    requires delivered <= |buffer| && buffer[..delivered] == contents[offset..offset + delivered]
    ensures Rows(Cpp, offset, buffer[..n]) == Rows(Cpp, offset, contents[offset..offset + n])
  {
    DeliveredPrefix(buffer, contents, offset, delivered, n);
  }

  /**
   * The read loop of main: read up to 4096 bytes, cut the chunk so that no
   * more than maxBytes bytes are printed in all, print it, stop at the
   * limit or when a read yields nothing.
   */
  method DumpFile(contents: seq<byte>, maxBytes: nat) returns (out: string)
    ensures out == Rows(Cpp, 0, contents[..Min(|contents|, maxBytes)])
  {
    var file := new FileStream.Open(contents);
    var buffer := new byte[BufferSize];
    var offset: nat := 0;
    ghost var blocks: nat := 0;
    ghost var shown: seq<byte> := [];
    out := "";
    var done := false;
    while !done
      invariant file.Valid() && file.contents == contents
      invariant offset <= maxBytes && offset <= |contents|
      invariant !done ==> offset == file.pos && (offset == BufferSize * blocks || offset == |contents|)
      invariant done ==> offset == Min(|contents|, maxBytes)
      invariant shown == contents[..offset] && out == Rows(Cpp, 0, shown)
      decreases !done, |contents| - offset
    {
      // the loop goes on while a read yields bytes
      var bytesRead := file.Read(buffer, BufferSize);
      if bytesRead == 0 {
        done := true;
      } else {
        // trim the chunk to what the limit still allows
        var bytesToPrint := if offset + bytesRead > maxBytes then maxBytes - offset else bytesRead;
        var text := PrintHexdump(buffer, bytesToPrint, offset);
        ClampStep(contents, maxBytes, offset, blocks, bytesRead, bytesToPrint);
        ReadStep(contents, offset, bytesRead, bytesToPrint, buffer[..]);
        shown := contents[..offset + bytesToPrint];
        out := out + text;
        offset := offset + bytesToPrint;
        blocks := blocks + 1;
        done := offset >= maxBytes;
      }
    }
  }

  /** The argument loop of main, over argv[1..]. */
  method ParseArguments(argv: seq<string>) returns (cmd: Command)
    ensures cmd == ParseCpp(Operands(argv))
  {
    var maxBytes: nat := SizeMax;
    var filePath: Option<string> := None;
    ghost var ts: seq<Token> := [];
    var i: nat := 1;
    while i < |argv|
      invariant 1 <= i && (argv == [] || ReadSoFar(argv, i, ts)) && (argv == [] ==> ts == [])
      invariant maxBytes == CppLimit(ts) && filePath == LastOperand(ts)
      decreases |argv| - i
    {
      if argv[i] == "-n" {
        if i + 1 < |argv| {
          maxBytes := CppLength(argv[i + 1]);
          LengthStep(argv, i, ts);
          ts := ts + [LengthOption(argv[i + 1])];
          i := i + 1;
        } else {
          ArgvDangling(argv, i, ts);
          return LengthError;
        }
      } else {
        filePath := Some(argv[i]);
        OperandStep(argv, i, ts);
        ts := ts + [Operand(argv[i])];
      }
      i := i + 1;
    }
    if argv != [] {
      ArgvDone(argv, ts);
    }
    if filePath == None {
      return PathError;
    }
    return Dump(maxBytes, filePath.value);
  }

  const LengthMessage: string := "Error: -n requires a length argument.\n"

  function UsageMessage(program: string): string
  {
    "Error! Use the below format: " + program + " [-n LEN] FILE\n"
  }

  function OpenMessage(path: string): string
  {
    "Error: Could not open file " + path + "\n"
  }

  /**
   * main: parse the arguments, open the file (files maps the paths that can
   * be opened to their contents), dump it; the exit status is 1 on every error.
   */
  method Run(argv: seq<string>, files: map<string, seq<byte>>) returns (stdout: string, stderr: string, status: int)
    requires 1 <= |argv|
    ensures status == 0 || status == 1
    ensures status == 1 <==> stdout == [] && stderr != []
    ensures ParseCpp(Operands(argv)) == LengthError ==> status == 1 && stdout == [] && stderr == LengthMessage
    ensures ParseCpp(Operands(argv)) == PathError ==> status == 1 && stdout == [] && stderr == UsageMessage(argv[0])
    ensures ParseCpp(Operands(argv)).Dump? ==>
              var cmd := ParseCpp(Operands(argv));
              if cmd.path in files then
                var shown := files[cmd.path][..Min(|files[cmd.path]|, cmd.limit)];
                status == 0 && stdout == Rows(Cpp, 0, shown) && stderr == []
              else status == 1 && stdout == [] && stderr == OpenMessage(cmd.path)
  {
    var cmd := ParseArguments(argv);
    stdout, stderr := "", "";
    match cmd
    case LengthError =>
      stderr, status := LengthMessage, 1;
    case PathError =>
      stderr, status := UsageMessage(argv[0]), 1;
    case Dump(limit, path) =>
      if path !in files {
        stderr, status := OpenMessage(path), 1;
      } else {
        stdout := DumpFile(files[path], limit);
        status := 0;
      }
  }
}
