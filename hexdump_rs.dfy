/**
 * Rust/Hexdump.rs: print_hexdump writing rows to standard output, the main
 * loop reading the file through a 2048-byte buffer, and the argument loop.
 * Standard output and standard error are the strings the methods return.
 *
 * A read of a Rust file may deliver fewer bytes than the buffer holds, or
 * fail. What the reads of one run do is a parameter: a schedule saying, read
 * by read, how many bytes at most the read delivers or that it fails.
 */
module RustHexdump {
  import opened Basics
  import opened Hex
  import opened Layout
  import opened Decoder
  import opened Args
  import opened Stream
  import opened Printing

  /** The size of the buffer main reads the file into. */
  const BufferSize: nat := 2048

  type Positive = n: nat | 0 < n witness 1

  /**
   * What one call of file.read does: deliver at least one byte (if any is
   * left) and at most atMost, or return an error.
   */
  datatype ReadResult = Delivers(atMost: Positive) | Fails

  /**
   * One two-byte group of print_hexdump at column j of the row at i: the
   * first byte, then, if there is one, the second byte and a space; or five
   * blanks past the end of the buffer.
   */
  method PrintGroup(buffer: array<byte>, length: nat, i: nat, j: nat, ghost row: seq<byte>) returns (group: string)
    requires IsRow(row, buffer, length, i) && j + 1 < BytesPerLine
    ensures group == Group(Rust, row, j)
  {
    if i + j < length {
      group := ByteHex(buffer[i + j]);
      if i + j + 1 < length {
        group := group + ByteHex(buffer[i + j + 1]) + " ";
      }
    } else {
      group := Blank;
    }
  }

  /** One row of print_hexdump: the offset, eight groups, the end of line. */
  method PrintLine(buffer: array<byte>, length: nat, i: nat, startOffset: nat, ghost row: seq<byte>) returns (line: string)
    requires IsRow(row, buffer, length, i)
    ensures line == Row(Rust, startOffset + i, row)
  {
    line := Padded(startOffset + i, OffsetWidth) + " ";
    var j: nat := 0;
    ghost var k: nat := 0;
    while j < BytesPerLine
      invariant j == 2 * k && k <= BytesPerLine / 2
      invariant line == RowSoFar(Rust, startOffset + i, row, k)
    {
      var group := PrintGroup(buffer, length, i, j, row);
      assert RowSoFar(Rust, startOffset + i, row, k + 1) == line + group;
      line := line + group;
      j, k := j + 2, k + 1;
    }
    line := line + "\n";
  }

  /**
   * print_hexdump(buffer, length, start_offset): one row per 16 bytes of
   * buffer[..length], the first numbered start_offset.
   */
  method PrintHexdump(buffer: array<byte>, length: nat, startOffset: nat) returns (text: string)
    requires length <= buffer.Length
    ensures text == Rows(Rust, startOffset, buffer[..length])
  {
    ghost var data := buffer[..length];
    text := "";
    var i: nat := 0;
    ghost var r: nat := 0;
    assert data[..0] == [];
    while i < length
      invariant i == BytesPerLine * r
      invariant text == Rows(Rust, startOffset, data[..Min(i, length)])
      decreases length - i
    {
      ghost var row := RowAt(buffer, length, startOffset, i);
      var line := PrintLine(buffer, length, i, startOffset, row);
      LineAligned(r);
      RowStep(Rust, startOffset, data, i);
      text := text + line;
      i, r := i + BytesPerLine, r + 1;
    }
    assert data[..length] == data;
  }

  /** The request the loop makes at its k-th read: the schedule's, or a full read once it has run out. */
  function Request(schedule: seq<ReadResult>, k: nat): ReadResult
  {
    if k < |schedule| then schedule[k] else Delivers(BufferSize)
  }

  /**
   * The lengths print_hexdump is called with from the k-th read on, once
   * offset of the size bytes of the file have been printed: a read that
   * fails or yields nothing ends the loop; otherwise its bytes are cut to
   * the limit and printed, and the loop ends when the limit is reached.
   */
  function Plan(schedule: seq<ReadResult>, k: nat, size: nat, maxBytes: nat, offset: nat): seq<nat>
    requires offset <= size && offset <= maxBytes
    decreases size - offset
  {
    match Request(schedule, k)
    case Fails => []
    case Delivers(most) =>
      var delivered := Min(Min(most, BufferSize), size - offset);
      if delivered == 0 then []
      else
        var n := if offset + delivered > maxBytes then maxBytes - offset else delivered;
        if offset + n >= maxBytes then [n]
        else [n] + Plan(schedule, k + 1, size, maxBytes, offset + n)
  }

  /** No read of the schedule fails. */
  predicate NoFailures(schedule: seq<ReadResult>)
  {
    forall k | 0 <= k < |schedule| :: schedule[k].Delivers?
  }

  /** Every read of the schedule succeeds and asks for a whole buffer. */
  predicate FullReads(schedule: seq<ReadResult>)
  {
    forall k | 0 <= k < |schedule| :: schedule[k].Delivers? && BufferSize <= schedule[k].atMost
  }

  /**
   * The chunks stay within the file and the limit and within the buffer; when
   * no read fails they cover the file up to the limit.
   */
  lemma {:induction false} PlanBounds(schedule: seq<ReadResult>, k: nat, size: nat, maxBytes: nat, offset: nat)
    requires offset <= size && offset <= maxBytes
    ensures offset + Sum(Plan(schedule, k, size, maxBytes, offset)) <= Min(size, maxBytes)
    ensures forall t | 0 <= t < |Plan(schedule, k, size, maxBytes, offset)| ::
              Plan(schedule, k, size, maxBytes, offset)[t] <= BufferSize
    ensures NoFailures(schedule) ==> offset + Sum(Plan(schedule, k, size, maxBytes, offset)) == Min(size, maxBytes)
    decreases size - offset
  {
    var p := Plan(schedule, k, size, maxBytes, offset);
    match Request(schedule, k)
    case Fails =>
      assert k < |schedule| && !schedule[k].Delivers?;
    case Delivers(most) =>
      var delivered := Min(Min(most, BufferSize), size - offset);
      if delivered != 0 {
        var n := if offset + delivered > maxBytes then maxBytes - offset else delivered;
        if offset + n >= maxBytes {
          SumCons(n, []);
        } else {
          var rest := Plan(schedule, k + 1, size, maxBytes, offset + n);
          PlanBounds(schedule, k + 1, size, maxBytes, offset + n);
          SumCons(n, rest);
          assert p == [n] + rest;
        }
      }
  }
  /** When every read asks for a whole buffer, every chunk but the last is a whole buffer. */
  lemma {:induction false} PlanFull(schedule: seq<ReadResult>, k: nat, size: nat, maxBytes: nat, offset: nat)
    requires offset <= size && offset <= maxBytes
    ensures FullReads(schedule) ==>
              forall t | 0 <= t < |Plan(schedule, k, size, maxBytes, offset)| - 1 ::
                Plan(schedule, k, size, maxBytes, offset)[t] == BufferSize
    decreases size - offset
  {
    if FullReads(schedule) {
      var p := Plan(schedule, k, size, maxBytes, offset);
      if k < |schedule| {
        assert schedule[k].Delivers? && BufferSize <= schedule[k].atMost;
      }
      var delivered := Min(BufferSize, size - offset);
      assert Request(schedule, k).Delivers? && Min(Request(schedule, k).atMost, BufferSize) == BufferSize;
      if delivered != 0 {
        var n := if offset + delivered > maxBytes then maxBytes - offset else delivered;
        if offset + n < maxBytes {
          var rest := Plan(schedule, k + 1, size, maxBytes, offset + n);
          assert p == [n] + rest;
          PlanFull(schedule, k + 1, size, maxBytes, offset + n);
          if rest != [] {
            assert offset + n < size;
            assert n == BufferSize;
          }
          forall t | 0 <= t < |p| - 1
            ensures p[t] == BufferSize
          {
            if t > 0 {
              assert p[t] == rest[t - 1];
            }
          }
        }
      }
    }
  }

  /** The chunk lengths of a whole run of the read loop. */
  function Chunks(contents: seq<byte>, maxBytes: nat, schedule: seq<ReadResult>): (lengths: seq<nat>)
    ensures Sum(lengths) <= Min(|contents|, maxBytes)
    ensures forall t | 0 <= t < |lengths| :: lengths[t] <= BufferSize
    ensures NoFailures(schedule) ==> Sum(lengths) == Min(|contents|, maxBytes)
    ensures FullReads(schedule) ==> forall t | 0 <= t < |lengths| - 1 :: lengths[t] == BufferSize
  {
    PlanBounds(schedule, 0, |contents|, maxBytes, 0);
    PlanFull(schedule, 0, |contents|, maxBytes, 0);
    Plan(schedule, 0, |contents|, maxBytes, 0)
  }

  /** What the read loop writes to standard output. */
  function Output(contents: seq<byte>, maxBytes: nat, schedule: seq<ReadResult>): string
  {
    Chunked(Rust, contents, Chunks(contents, maxBytes, schedule))
  }

  /**
   * The output reads back as a prefix of the file up to the limit, all of it
   * when no read fails; when every read asks for a whole buffer it is exactly
   * the dump of that prefix, as one print_hexdump call would write it.
   */
  lemma {:induction false} OutputReadsBack(contents: seq<byte>, maxBytes: nat, schedule: seq<ReadResult>)
    ensures var shown := contents[..Min(|contents|, maxBytes)];
      Decode(Output(contents, maxBytes, schedule)).Some? &&
      Decode(Output(contents, maxBytes, schedule)).value.bytes <= shown &&
      (NoFailures(schedule) ==> Decode(Output(contents, maxBytes, schedule)).value.bytes == shown)
    ensures FullReads(schedule) ==> Output(contents, maxBytes, schedule) == Rows(Rust, 0, contents[..Min(|contents|, maxBytes)])
  {
    var lengths := Chunks(contents, maxBytes, schedule);
    ChunkedRoundTrip(Rust, contents, lengths);
    assert contents[..Sum(lengths)] == contents[..Min(|contents|, maxBytes)][..Sum(lengths)];
    if FullReads(schedule) {
      forall t | 0 <= t < |lengths| - 1
        ensures lengths[t] % BytesPerLine == 0
      {
        assert lengths[t] == BufferSize;
      }
      ChunkedAligned(Rust, contents, lengths);
      assert NoFailures(schedule) by {
        forall t | 0 <= t < |schedule|
          ensures schedule[t].Delivers?
        {
          assert schedule[t].Delivers? && BufferSize <= schedule[t].atMost;
        }
      }
    }
  }

  /**
   * The arithmetic of one turn of the read loop: delivered bytes read at
   * offset, cut to n by the limit, stay within the file and the limit, and
   * are all printed unless the limit is reached.
   */
  lemma {:induction false} ClampStep(size: nat, maxBytes: nat, offset: nat, delivered: nat, n: nat)
    requires offset <= maxBytes && 0 < delivered && offset + delivered <= size
    requires n == if offset + delivered > maxBytes then maxBytes - offset else delivered
    ensures n <= delivered && offset + n <= maxBytes && offset + n <= size
    ensures offset + n < maxBytes ==> n == delivered
  {
  }

  /**
   * One turn of the read loop: the rows of the n bytes printed from the
   * buffer are the next chunk of the file.
   */
  lemma {:induction false} ReadStep(contents: seq<byte>, printed: seq<nat>, offset: nat, delivered: nat, n: nat,
                 buffer: seq<byte>)
    requires offset == Sum(printed) && n <= delivered && offset + delivered <= |contents|
    requires delivered <= |buffer| && buffer[..delivered] == contents[offset..offset + delivered]
    ensures Sum(printed + [n]) == offset + n
    ensures Chunked(Rust, contents, printed + [n]) == Chunked(Rust, contents, printed) + Rows(Rust, offset, buffer[..n])
  {
    DeliveredPrefix(buffer, contents, offset, delivered, n);
    assert buffer[..n] == contents[Sum(printed)..Sum(printed) + n];
    ChunkedStep(Rust, contents, printed, n);
  }

  /**
   * One turn of the read loop that prints: the delivered bytes, cut to n by
   * the limit, stay within the file and the limit; their rows continue the
   * output; and the run goes on from the next read at next, or ends at the
   * limit.
   */
  lemma {:induction false} Turn(contents: seq<byte>, maxBytes: nat, schedule: seq<ReadResult>, k: nat,
                                offset: nat, buffer: seq<byte>, delivered: nat, n: nat, next: nat, out: string, text: string)
    requires offset <= maxBytes && offset <= |contents| && (0 < k ==> offset < maxBytes)
    requires k <= |Plan(schedule, 0, |contents|, maxBytes, 0)| && offset == Sum(Plan(schedule, 0, |contents|, maxBytes, 0)[..k])
    requires Request(schedule, k).Delivers? && 0 < delivered
    requires delivered == Min(Min(Request(schedule, k).atMost, BufferSize), |contents| - offset)
    requires delivered <= |buffer| && buffer[..delivered] == contents[offset..offset + delivered]
    requires n == (if offset + delivered > maxBytes then maxBytes - offset else delivered) && next == offset + n
    requires out == Chunked(Rust, contents, Plan(schedule, 0, |contents|, maxBytes, 0)[..k])
    requires text == Rows(Rust, offset, buffer[..n])
    ensures next <= maxBytes && next <= |contents|
    ensures k < |Plan(schedule, 0, |contents|, maxBytes, 0)|
    ensures Sum(Plan(schedule, 0, |contents|, maxBytes, 0)[..k + 1]) == next
    ensures out + text == Chunked(Rust, contents, Plan(schedule, 0, |contents|, maxBytes, 0)[..k + 1])
    ensures maxBytes <= next ==> out + text == Output(contents, maxBytes, schedule)
  {
    var printed := Plan(schedule, 0, |contents|, maxBytes, 0)[..k];
    ClampStep(|contents|, maxBytes, offset, delivered, n);
    ReadStep(contents, printed, offset, delivered, n, buffer);
    PlanStep(schedule, |contents|, maxBytes, k, printed, offset, delivered, n, next);
  }

  /**
   * Partway through a run: once the first k reads have printed the first k
   * chunks of the plan without reaching the limit, the reads from k on print
   * the rest of the chunks.
   */
  lemma {:induction false} Resume(schedule: seq<ReadResult>, size: nat, maxBytes: nat, k: nat, printed: seq<nat>, offset: nat)
    requires offset <= size && offset <= maxBytes
    requires k <= |Plan(schedule, 0, size, maxBytes, 0)| && printed == Plan(schedule, 0, size, maxBytes, 0)[..k]
    requires offset == Sum(printed) && (0 < k ==> offset < maxBytes)
    ensures Plan(schedule, 0, size, maxBytes, 0)[k..] == Plan(schedule, k, size, maxBytes, offset)
    decreases k
  {
    if 0 < k {
      var p := Plan(schedule, 0, size, maxBytes, 0);
      var before := printed[..k - 1];
      var from := Sum(before);
      assert before == p[..k - 1];
      Resume(schedule, size, maxBytes, k - 1, before, from);
      var q := Plan(schedule, k - 1, size, maxBytes, from);
      assert q == p[k - 1..] && q != [] && q[0] == printed[k - 1];
      assert from + printed[k - 1] == offset;
      assert q[1..] == p[k..];
    }
  }

  /** A read that fails, or finds nothing left to read, ends the run: every chunk has been printed. */
  lemma {:induction false} PlanEnds(schedule: seq<ReadResult>, size: nat, maxBytes: nat, k: nat, printed: seq<nat>, offset: nat)
    requires offset <= size && offset <= maxBytes
    requires k <= |Plan(schedule, 0, size, maxBytes, 0)| && printed == Plan(schedule, 0, size, maxBytes, 0)[..k]
    requires offset == Sum(printed) && (0 < k ==> offset < maxBytes)
    requires Request(schedule, k).Fails? || offset == size
    ensures printed == Plan(schedule, 0, size, maxBytes, 0)
  {
    Resume(schedule, size, maxBytes, k, printed, offset);
  }

  /** When the run ends before the limit, what has been written is the whole output. */
  lemma {:induction false} TextEnds(contents: seq<byte>, maxBytes: nat, schedule: seq<ReadResult>, k: nat, offset: nat, out: string)
    requires offset <= |contents| && offset <= maxBytes && (0 < k ==> offset < maxBytes)
    requires k <= |Plan(schedule, 0, |contents|, maxBytes, 0)| && offset == Sum(Plan(schedule, 0, |contents|, maxBytes, 0)[..k])
    requires Request(schedule, k).Fails? || offset == |contents|
    requires out == Chunked(Rust, contents, Plan(schedule, 0, |contents|, maxBytes, 0)[..k])
    ensures out == Output(contents, maxBytes, schedule)
  {
    PlanEnds(schedule, |contents|, maxBytes, k, Plan(schedule, 0, |contents|, maxBytes, 0)[..k], offset);
  }

  /**
   * A read that delivers bytes prints the next chunk of the plan, the
   * delivered bytes cut to the limit; at the limit that chunk is the last.
   */
  lemma {:induction false} PlanStep(schedule: seq<ReadResult>, size: nat, maxBytes: nat, k: nat, printed: seq<nat>, offset: nat,
                                    delivered: nat, n: nat, next: nat)
    requires offset <= size && offset <= maxBytes
    requires k <= |Plan(schedule, 0, size, maxBytes, 0)| && printed == Plan(schedule, 0, size, maxBytes, 0)[..k]
    requires offset == Sum(printed) && (0 < k ==> offset < maxBytes)
    requires Request(schedule, k).Delivers?
    requires delivered == Min(Min(Request(schedule, k).atMost, BufferSize), size - offset) && 0 < delivered
    requires n == (if offset + delivered > maxBytes then maxBytes - offset else delivered) && next == offset + n
    ensures k < |Plan(schedule, 0, size, maxBytes, 0)| && printed + [n] == Plan(schedule, 0, size, maxBytes, 0)[..k + 1]
    ensures maxBytes <= next ==> printed + [n] == Plan(schedule, 0, size, maxBytes, 0)
  {
    var p := Plan(schedule, 0, size, maxBytes, 0);
    Resume(schedule, size, maxBytes, k, printed, offset);
    assert p[k..][0] == n;
    assert p[..k + 1] == p[..k] + [p[k]];
  }

  /**
   * Short reads move the rows: twenty bytes delivered as two reads of ten
   * are printed as rows at offsets 0 and 10 (of ten bytes each), where one
   * full read prints rows at 0 and 16. The bytes read back are the same.
   */
  lemma {:induction false} ShortReadsShiftRows(file: seq<byte>)
    requires |file| == 20
    ensures Chunks(file, SizeMax, [Delivers(10), Delivers(10)]) == [10, 10]
    ensures Decode(Output(file, SizeMax, [Delivers(10), Delivers(10)])) == Some(Listing([0, 10], file))
    ensures Output(file, SizeMax, []) == Rows(Rust, 0, file)
    ensures Decode(Output(file, SizeMax, [])) == Some(Listing([0, 16], file))
  {
    // one full read of all twenty bytes
    OutputReadsBack(file, SizeMax, []);
    assert file[..Min(|file|, SizeMax)] == file;
    RowsRoundTrip(Rust, 0, file);
    assert RowOffsets(0, 20) == [0, 16];
    // two reads of ten
    var lengths := Chunks(file, SizeMax, [Delivers(10), Delivers(10)]);
    assert lengths == [10, 10];
    assert Sum([10, 10]) == 20 by {
      assert [10, 10][..1] == [10];
      assert [10][..0] == [];
    }
    ChunkedRoundTrip(Rust, file, [10, 10]);
    assert ChunkOffsets([10, 10]) == [0, 10] by {
      assert [10, 10][..1] == [10];
      assert [10][..0] == [];
      assert RowOffsets(0, 10) == [0];
      assert RowOffsets(10, 10) == [10];
    }
    assert file[..20] == file;
  }

  /**
   * The printing half of a turn of the read loop: cut the bytes read to
   * what the limit still allows, print their rows, append them to the output.
   */
  method PrintChunk(contents: seq<byte>, maxBytes: nat, schedule: seq<ReadResult>, k: nat, offset: nat,
                    buffer: array<byte>, bytesRead: nat, out: string) returns (out': string, bytesToPrint: nat)
    requires offset <= maxBytes && offset <= |contents| && (0 < k ==> offset < maxBytes)
    requires k <= |Plan(schedule, 0, |contents|, maxBytes, 0)| && offset == Sum(Plan(schedule, 0, |contents|, maxBytes, 0)[..k])
    requires Request(schedule, k).Delivers? && 0 < bytesRead
    requires bytesRead == Min(Min(Request(schedule, k).atMost, BufferSize), |contents| - offset)
    requires bytesRead <= buffer.Length && buffer[..bytesRead] == contents[offset..offset + bytesRead]
    requires out == Chunked(Rust, contents, Plan(schedule, 0, |contents|, maxBytes, 0)[..k])
    ensures bytesToPrint == if offset + bytesRead > maxBytes then maxBytes - offset else bytesRead
    ensures offset + bytesToPrint <= maxBytes && offset + bytesToPrint <= |contents|
    ensures k < |Plan(schedule, 0, |contents|, maxBytes, 0)|
    ensures Sum(Plan(schedule, 0, |contents|, maxBytes, 0)[..k + 1]) == offset + bytesToPrint
    ensures out' == Chunked(Rust, contents, Plan(schedule, 0, |contents|, maxBytes, 0)[..k + 1])
    ensures maxBytes <= offset + bytesToPrint ==> out' == Output(contents, maxBytes, schedule)
  {
    bytesToPrint := if offset + bytesRead > maxBytes then maxBytes - offset else bytesRead;
    var text := PrintHexdump(buffer, bytesToPrint, offset);
    Turn(contents, maxBytes, schedule, k, offset, buffer[..], bytesRead, bytesToPrint, offset + bytesToPrint, out, text);
    out' := out + text;
  }

  /**
   * The read loop of main: read into the buffer, cut the chunk so that no
   * more than maxBytes bytes are printed in all, print it, stop at the
   * limit, at a read that yields nothing or at a read that fails.
   */
  method DumpFile(contents: seq<byte>, maxBytes: nat, schedule: seq<ReadResult>) returns (out: string)
    ensures out == Output(contents, maxBytes, schedule)
  {
    var file := new FileStream.Open(contents);
    var buffer := new byte[BufferSize];
    var offset: nat := 0;
    var k: nat := 0;
    out := "";
    while true
      invariant file.Valid() && file.contents == contents && offset == file.pos
      invariant offset <= maxBytes && offset <= |contents| && (0 < k ==> offset < maxBytes)
      invariant k <= |Plan(schedule, 0, |contents|, maxBytes, 0)| && offset == Sum(Plan(schedule, 0, |contents|, maxBytes, 0)[..k])
      invariant out == Chunked(Rust, contents, Plan(schedule, 0, |contents|, maxBytes, 0)[..k])
      decreases |contents| - offset
    {
      var request := Request(schedule, k);
      var bytesRead: nat := 0;
      if request.Delivers? {
        bytesRead := file.Read(buffer, request.atMost);
      }
      // a failed read and an empty one both end the loop
      if bytesRead == 0 {
        TextEnds(contents, maxBytes, schedule, k, offset, out);
        break;
      }
      var bytesToPrint;
      out, bytesToPrint := PrintChunk(contents, maxBytes, schedule, k, offset, buffer, bytesRead, out);
      offset := offset + bytesToPrint;
      k := k + 1;
      if offset >= maxBytes {
        break;
      }
    }
  }

  /** The argument loop of main, over args[1..]. */
  method ParseArguments(argv: seq<string>) returns (cmd: Command)
    ensures cmd == ParseRust(Operands(argv))
  {
    var maxBytes: nat := SizeMax;
    var filePath: Option<string> := None;
    ghost var ts: seq<Token> := [];
    var i: nat := 1;
    while i < |argv|
      invariant 1 <= i && (argv == [] || ReadSoFar(argv, i, ts)) && (argv == [] ==> ts == [])
      invariant LengthsParse(ts) && maxBytes == RustLimit(ts) && filePath == LastOperand(ts)
      decreases |argv| - i
    {
      if argv[i] == "-n" {
        if i + 1 < |argv| {
          var length := ParseUsize(argv[i + 1]);
          if length == None {
            ArgvBadLength(argv, i, ts);
            return LengthError;
          }
          maxBytes := length.value;
          LengthStep(argv, i, ts);
          ts := ts + [LengthOption(argv[i + 1])];
          i := i + 1;
        } else {
          ArgvDangling(argv, i, ts);
          return LengthError;
        }
      } else {
        filePath := Some(argv[i]);
        OperandStep(argv, i, ts);
        ts := ts + [Operand(argv[i])];
      }
      i := i + 1;
    }
    if argv != [] {
      ArgvDone(argv, ts);
    }
    if filePath == None {
      return PathError;
    }
    return Dump(maxBytes, filePath.value);
  }

  const LengthMessage: string := "Error: -n requires a length argument.\n"

  function UsageMessage(program: string): string
  {
    "Error! Use the format: " + program + " [-n LEN] FILE\n"
  }

  function OpenMessage(path: string): string
  {
    "Error: Could not open file " + path + "\n"
  }

  /**
   * main: parse the arguments, open the file (files maps the paths that can
   * be opened to their contents), dump it as the reads of schedule allow;
   * the exit status is 1 on every error.
   */
  method Run(argv: seq<string>, files: map<string, seq<byte>>, schedule: seq<ReadResult>)
    returns (stdout: string, stderr: string, status: int)
    requires 1 <= |argv|
    ensures status == 0 || status == 1
    ensures status == 1 <==> stdout == [] && stderr != []
    ensures ParseRust(Operands(argv)) == LengthError ==> status == 1 && stdout == [] && stderr == LengthMessage
    ensures ParseRust(Operands(argv)) == PathError ==> status == 1 && stdout == [] && stderr == UsageMessage(argv[0])
    ensures ParseRust(Operands(argv)).Dump? ==>
              var cmd := ParseRust(Operands(argv));
              if cmd.path in files then
                status == 0 && stderr == [] && stdout == Output(files[cmd.path], cmd.limit, schedule)
              else status == 1 && stdout == [] && stderr == OpenMessage(cmd.path)
  {
    var cmd := ParseArguments(argv);
    stdout, stderr := "", "";
    match cmd
    case LengthError =>
      stderr, status := LengthMessage, 1;
    case PathError =>
      stderr, status := UsageMessage(argv[0]), 1;
    case Dump(limit, path) =>
      if path !in files {
        stderr, status := OpenMessage(path), 1;
      } else {
        stdout := DumpFile(files[path], limit, schedule);
        status := 0;
      }
  }
}
