# HexTrace hexdump, modelled in Dafny

HexTrace ships one utility twice: `HexDump.cpp` and `Rust/Hexdump.rs`.
Both are run as `hexdump [-n LEN] FILE`. Each one:

- walks its arguments once;
- reads FILE through a fixed buffer: 4096 bytes in C++, 2048 in Rust;
- after each read, cuts the chunk so that no more than LEN bytes are shown in all;
- hands the chunk, with its starting offset, to `print_hexdump`.

`print_hexdump` writes one row per 16 bytes. A row is:

- the offset, zero-padded to at least 8 lowercase hex digits, then a space;
- eight two-byte groups;
- a newline.

A group is:

- four hex digits and a space when both bytes exist;
- five spaces past the end of the data;
- for a lone last byte, two digits and a space in C++ but only two digits in Rust.

The project models both programs and proves what their output means.

- `basics.dfy`: `Option`, `Min`, `Max`, and `SplitAt` (two adjacent slices of a sequence join into one).
- `hex.dfy`: hex digits, numerals, and the zero padding of `setw(n)`/`{:0nx}`.
- `layout.dfy`: the text of groups, rows and whole dumps as functions, for both dialects (`Cpp` and `Rust` differ only in the lone-byte group).
- `decoder.dfy`: an independent reader of that text. It recovers the offset column and the bytes of every row. Its lemmas are the round trips.
- `args.dfy`:
  - the argument grammar (tokens `-n LEN` and operands);
  - glibc's `atoi` (as `(int) strtol`, then the implicit conversion to `size_t`);
  - Rust's `str::parse::<usize>`;
  - the two reference parsers `ParseCpp` and `ParseRust`.
- `stream.dfy`: an open file as a class with a read position. `Read` copies into an `array`.
- `printing.dfy`: facts shared by the two `print_hexdump` loops.
- `hexdump_cpp.dfy` and `hexdump_rs.dfy`: `print_hexdump` as nested loops over an `array`, the read loop, the argument loop and `main`, each proved against the functions above.

Standard output and standard error are the strings a method returns. The exit code is a returned status. Files that can be opened form a map from path to contents. For Rust, what each `file.read` call delivers is a parameter: a schedule that says, read by read, either "at most k bytes" (k > 0) or "fails". Once the schedule runs out, every read is full. The chunk lengths of a run (`RustHexdump.Chunks`) follow from the schedule, the file's size and the limit, read by read. `RustHexdump.Output` is the text of their successive `print_hexdump` calls. The read loop is proved to write exactly that text.

Three facts about the code shape the model:

- **Offset width.** `setw(8)` (HexDump.cpp:38) and `{:08x}` (Rust/Hexdump.rs:33) pad to at least 8 hex digits and never cut. An offset of 2^32 or more prints with more digits. `Layout.OffsetColumn` proves at-least-8, and exactly-8 if and only if the offset is below 2^32.
- **Lone byte.** For a lone last byte of a row, C++ writes two digits and a space (HexDump.cpp:42-48). Rust writes `{:02x}` with no space (Rust/Hexdump.rs:37-41). Every later group on that row is therefore one column further left in Rust. `Layout.RowDialects` states the exact difference.
- **Row alignment.** In C++ every read but the last fills the 4096-byte buffer (HexDump.cpp:105-111). 4096 is a multiple of 16, so every row starts at a 16-aligned offset. A Rust read may deliver fewer bytes than its 2048-byte buffer holds, and each `print_hexdump` call starts a new row. `RustHexdump.ShortReadsShiftRows` shows rows at offsets 0 and 10.

## Model

| member | source | states |
|---|---|---|
| Hex.ByteHex | HexDump.cpp:42-45 | defines the two digits `setw(2) << setfill('0') << hex` (or `{:02x}`, Rust/Hexdump.rs:38-40) prints for a byte, high nibble first; always two characters; ByteHexDenotes states their value |
| Hex.ByteHexDenotes | HexDump.cpp:42-45 | a byte prints as two lowercase hex digits whose value is the byte; this is `Padded(b, 2)` |
| Hex.Numeral | HexDump.cpp:38 | defines the digits `hex <<` prints for n before padding: lowercase, no leading zero, `0` for zero; at least one digit; NumeralDenotes and NumeralFits state the rest |
| Hex.NumeralDenotes | HexDump.cpp:38 | the hex numeral of n is all hex digits, denotes n, and has no leading zero |
| Hex.Padded | HexDump.cpp:38 | defines `setw(width) << setfill('0') << hex` of n: the numeral of n, zero-filled on the left up to width, never cut; PaddedDenotes and PaddedWidth state this |
| Hex.PaddedDenotes | HexDump.cpp:38 | zero-padding to a width gives max(width, digits of n) characters denoting n; when longer than the width it is the bare numeral |
| Hex.PaddedWidth | HexDump.cpp:38 | the padded text is exactly the width iff n < 16^width |
| Hex.NumeralFits | HexDump.cpp:38 | the numeral of n fits w digits iff n < 16^w |
| Hex.FixedWidthValue | HexDump.cpp:38 | n written in w digits denotes n when n < 16^w |
| Layout.Head | HexDump.cpp:38 | defines the offset column with which every row begins: the offset zero-padded to 8 digits, then a space; OffsetColumn states its width |
| Layout.Group | HexDump.cpp:40-54 | defines one turn of the inner loop at column j: four hex digits and a space for two bytes, five spaces past the data, and for a lone last byte its two digits with the C++ space (Rust/Hexdump.rs:36-45 omits it); GroupLength and GroupDialects state its shape |
| Layout.Lines | HexDump.cpp:34 | defines how the outer loop `i += bytes_per_line` cuts the buffer: rows of 16 bytes at start, start+16, …, the last one shorter; LinesCover and LinesShape state this |
| Layout.Row | HexDump.cpp:38-56 | defines one turn of the outer loop: the offset column, the eight groups of the inner loop, and the newline of `endl` (`println!()` at Rust/Hexdump.rs:47); RowParts and RowLength state its shape |
| Layout.Rows | HexDump.cpp:28-58 | defines what `print_hexdump(buffer, length, start_offset)` writes in either dialect (Rust/Hexdump.rs:28-49): the rows of Lines, one after another; RowsRoundTrip states what it reads back as |
| Layout.Chunked | HexDump.cpp:124-129 | defines the output of the successive `print_hexdump` calls of a read loop (Rust/Hexdump.rs:109-111), each chunk numbered from the sum of the earlier lengths; ChunkedAligned and ChunkedRoundTrip state what it is |
| Layout.LinesAt | HexDump.cpp:34-42 | the outer loop's turn at i, a multiple of 16, is the (i/16)-th row: at offset start+i, holding the bytes from i to min(i+16, length) |
| Layout.OffsetColumn | HexDump.cpp:38 | the offset column has at least 8 digits, and exactly 8 iff the offset is below 2^32 |
| Layout.RowSoFarParts | HexDump.cpp:38-55 | after k turns of the inner loop the row is the offset column followed by the first k groups |
| Layout.RowParts | HexDump.cpp:38-56 | a row is the offset column, eight groups and a newline |
| Layout.GroupLength | HexDump.cpp:41-54 | a group is 5 characters, except the group of a lone last byte: 3 in C++, 2 in Rust |
| Layout.GroupsLength | Rust/Hexdump.rs:35-46 | k groups take 5k characters, less the lone-byte shortfall when the lone byte is among them |
| Layout.RowLength | HexDump.cpp:38-56 | a row of 1..16 bytes is the offset column plus 42 characters, less the lone-byte shortfall for an odd row |
| Layout.GroupDialects | Rust/Hexdump.rs:36-45 | the C++ group equals the Rust group plus a space at a lone byte, and equals it everywhere else |
| Layout.GroupsAgree | Rust/Hexdump.rs:35-46 | groups before the lone byte, or of an even row, are the same in both programs |
| Layout.GroupsAtLone | Rust/Hexdump.rs:36-41 | up to the lone byte, the C++ groups are the Rust groups plus one space |
| Layout.GroupsDiffer | Rust/Hexdump.rs:35-46 | past the lone byte, the C++ groups are the Rust groups with one space inserted right after the lone byte |
| Layout.RowDialects | Rust/Hexdump.rs:33-47 | an even row prints the same in both programs; an odd row differs by one space inserted after the lone byte at a stated column |
| Layout.RowAtLone | Rust/Hexdump.rs:33-47 | the odd-row case of RowDialects for a row of 2h+1 bytes |
| Layout.TextDialects | Rust/Hexdump.rs:31-48 | rows that all hold an even number of bytes print the same in both programs |
| Layout.RowsDialects | Rust/Hexdump.rs:31-48 | print_hexdump of an even number of bytes prints the same in both programs |
| Layout.LinesCover | HexDump.cpp:34-57 | the rows of a chunk hold exactly its bytes, at offsets start, start+16, … (one per started 16 bytes) |
| Layout.LinesShape | HexDump.cpp:34 | every row holds 1 to 16 bytes, all but the last exactly 16; all even when the chunk length is even |
| Layout.LinesAppend | HexDump.cpp:34-57 | rows of a+b are the rows of a then those of b continuing at start+\|a\|, when \|a\| is a multiple of 16 |
| Layout.TextAppend | HexDump.cpp:34-57 | the text of two row lists is the concatenation of their texts |
| Layout.RowsAppend | HexDump.cpp:34-57 | print_hexdump of a+b equals print_hexdump of a then of b at start+\|a\|, when \|a\| is a multiple of 16 |
| Layout.RowsOne | HexDump.cpp:34-57 | print_hexdump of 1..16 bytes is one row |
| Layout.RowsSplit | HexDump.cpp:124-129 | the rows of data[..e] are those of data[..s] and then of data[s..e], for s a multiple of 16 |
| Layout.PrefixSplit | HexDump.cpp:124-129 | RowsSplit for a dump starting at offset 0 |
| Layout.SumOfMultiples | HexDump.cpp:105 | chunk lengths that are multiples of 16 sum to a multiple of 16 |
| Layout.ChunkedAligned | HexDump.cpp:105-129 | when every chunk but the last is a multiple of 16 bytes, the successive calls print exactly one dump of the whole prefix |
| Decoder.ScanRow | HexDump.cpp:38-56 | reading one row back yields its offset and its bytes |
| Decoder.ScanText | HexDump.cpp:34-57 | reading rows of at most 16 bytes back yields their offsets and bytes, in order |
| Decoder.RowsRoundTrip | HexDump.cpp:28-58 | the text print_hexdump writes decodes to exactly the chunk and to offsets start, start+16, …, in either dialect |
| Decoder.ScanChunked | Rust/Hexdump.rs:98-119 | reading the output of successive calls yields every chunk's offsets and the bytes printed so far |
| Decoder.ChunkedRoundTrip | Rust/Hexdump.rs:98-119 | the output of successive calls decodes to the printed prefix of the file, with each call's own row offsets |
| Args.LastOperand | HexDump.cpp:81 | defines the path the argument loop ends with: the last operand, since each one overwrites `file_path`; it is one of the words |
| Args.LastLength | HexDump.cpp:71 | defines the length word the argument loop ends with: the value of the last `-n`, since each one overwrites `max_bytes`; it is one of the words |
| Args.Tokenize | HexDump.cpp:68-83 | defines how the argument loop reads the words: `-n` with the next word is a length, any other word an operand, and a final `-n` is an error; TokenizeFlatten and FlattenTokenize state this |
| Args.FlattenAppend | HexDump.cpp:68-83 | spelling tokens out distributes over concatenation |
| Args.TokenizeFlatten | HexDump.cpp:68-83 | a successful tokenization spells back to the arguments and is well formed |
| Args.FlattenTokenize | HexDump.cpp:68-83 | well-formed tokens spelled out tokenize back to themselves |
| Args.TokenizeAppend | HexDump.cpp:68-83 | after tokens spelled out, the rest of the words tokenizes on its own |
| Args.TokenizeFailsAtEnd | HexDump.cpp:70-76 | tokenization fails only when the last word is a dangling `-n` |
| Args.Strtol | HexDump.cpp:71 | the value strtol gives lies in the range of `long` |
| Args.ToInt | HexDump.cpp:71 | the cast to `int` keeps 32-bit values and always lands in the `int` range |
| Args.ToSize | HexDump.cpp:71 | the conversion to `size_t` keeps non-negative values and wraps negative ones modulo 2^64 |
| Args.CppLength | HexDump.cpp:71 | defines `atoi` of a length word as glibc computes it, `(int) strtol(word, NULL, 10)`, then converted to `size_t`; CppLengthDecimal, CppLengthNonNumeric and CppLengthNegative state its cases |
| Args.CppLengthDecimal | HexDump.cpp:71 | atoi of a decimal below 2^31, followed by anything that is not a digit, is that number |
| Args.CppLengthNonNumeric | HexDump.cpp:71 | a length starting with no space, sign or digit is 0 for atoi and refused by the Rust parse |
| Args.CppLengthNegative | HexDump.cpp:71 | atoi of `-n` becomes 2^64 - n as a `size_t` |
| Args.ParseUsize | Rust/Hexdump.rs:66 | a usize parse that succeeds gives a value below 2^64 |
| Args.ParseUsizeDecimal | Rust/Hexdump.rs:66 | every decimal up to 2^64-1 parses, with or without a leading `+` |
| Args.ParseUsizeRefuses | Rust/Hexdump.rs:66-69 | empty text, a bad first character or a non-digit last character does not parse |
| Args.ParseUsizeAgrees | Rust/Hexdump.rs:66 | where the Rust parse succeeds below 2^31, atoi gives the same length |
| Args.CppLimit | HexDump.cpp:61-71 | defines the C++ limit: `atoi` of the last length word, or SIZE_MAX when there is none |
| Args.ParseCpp | HexDump.cpp:68-91 | defines the outcome of the C++ argument loop: a length error for a final `-n`, a usage error without an operand, or else the last operand with the atoi of the last length (SIZE_MAX by default); the Args lemmas below state its cases |
| Args.RustLimit | Rust/Hexdump.rs:53-66 | defines the Rust limit: the parsed last length word, or usize::MAX when there is none |
| Args.ParseRust | Rust/Hexdump.rs:62-84 | defines the outcome of the Rust argument loop: a length error for a final `-n` or a length that `parse::<usize>` refuses, a usage error without an operand, or else the last operand with the last length (usize::MAX by default) |
| Args.DanglingLength | HexDump.cpp:70-76 | a trailing `-n` is a length error in both programs |
| Args.MissingPath | HexDump.cpp:88-91 | arguments made only of `-n LEN` pairs are a missing-path error in C++; in Rust also a missing-path error unless some length fails to parse, which is a length error |
| Args.OptionsOnly | HexDump.cpp:68-83 | `-n LEN` pairs tokenize as length options and carry no path |
| Args.LastPathWins | HexDump.cpp:77-82 | a final path is the one dumped, with the last length given before it |
| Args.LastLengthWins | HexDump.cpp:69-72 | a final `-n LEN` sets the limit to its value and keeps the last path |
| Args.NonNumericLength | HexDump.cpp:71 | a non-numeric length means limit 0 in C++ and a length error in Rust |
| Args.CppTakesLength | HexDump.cpp:69-72 | C++ accepts any length word and dumps with its atoi value |
| Args.RustRefusesLength | Rust/Hexdump.rs:66-69 | a length that does not parse is a length error in Rust, whatever follows |
| Args.OperandStep | HexDump.cpp:77-82 | a word other than `-n` becomes the path, leaving the limit alone |
| Args.LengthStep | HexDump.cpp:69-72 | `-n LEN` sets the limit to LEN's value, leaving the path alone |
| Args.ArgvDone | HexDump.cpp:68-83 | the loop's tokens are the tokenization of the arguments |
| Args.ArgvDangling | HexDump.cpp:73-76 | a `-n` as the last argument makes both parsers report a length error |
| Args.ArgvBadLength | Rust/Hexdump.rs:66-69 | a length word that does not parse makes the Rust parser report a length error |
| Stream.FileStream.Open | HexDump.cpp:96 | an opened file is read from its first byte |
| Stream.FileStream.Read | HexDump.cpp:111-112 | a read delivers min(request, buffer size, bytes left) bytes of the file from the position into the front of the buffer, advances the position by that many, and leaves the rest of the buffer as it was |
| Printing.RowAt | HexDump.cpp:34-42 | the window of the buffer the loop's turn at i prints is the bytes of the (i/16)-th row of the dump numbered from start_offset, at offset start_offset+i |
| Printing.RowStep | HexDump.cpp:34-57 | one more row extends the dump of data[..i] to the dump of data[..min(i+16, \|data\|)] |
| CppHexDump.PrintGroup | HexDump.cpp:41-54 | the inner-loop body writes the group at column j of the row |
| CppHexDump.PrintLine | HexDump.cpp:38-56 | one turn of the outer loop writes the row at offset start+i |
| CppHexDump.PrintHexdump | HexDump.cpp:28-58 | print_hexdump writes the rows of buffer[..length] numbered from start_offset |
| CppHexDump.ClampStep | HexDump.cpp:105-119 | a read starts 16-aligned, since whole 4096-byte blocks are a multiple of 16; the cut chunk is no longer than the read, stays within the limit and the file, and ends at a block boundary, at the end of the file or at the limit |
| CppHexDump.ReadStep | HexDump.cpp:111-129 | printing the cut chunk at the offset extends the dump of the file's first offset bytes to the first offset+n bytes |
| CppHexDump.ChunkRows | HexDump.cpp:124 | the n bytes printed from the buffer are the next n bytes of the file |
| CppHexDump.DumpFile | HexDump.cpp:105-137 | the read loop writes exactly the dump of the file's first min(size, max_bytes) bytes |
| CppHexDump.ParseArguments | HexDump.cpp:61-83 | the argument loop computes the reference C++ parse: the last path, the atoi value of the last length (2^64-1 by default), or a length error for a dangling `-n` |
| CppHexDump.UsageMessage | HexDump.cpp:89 | defines the usage message on standard error, with the program name; the length message (HexDump.cpp:74) is the constant CppHexDump.LengthMessage |
| CppHexDump.OpenMessage | HexDump.cpp:98 | defines the message on standard error for a file that will not open, with its path |
| CppHexDump.Run | HexDump.cpp:60-141 | exit status 0 with the dump of the limited file and nothing on standard error; otherwise status 1, no output, and the usage, length or open message for that error |
| RustHexdump.PrintGroup | Rust/Hexdump.rs:36-45 | the inner-loop body writes the Rust group at column j (no space after a lone byte) |
| RustHexdump.PrintLine | Rust/Hexdump.rs:33-47 | one turn of the outer loop writes the Rust row at offset start+i |
| RustHexdump.PrintHexdump | Rust/Hexdump.rs:28-49 | print_hexdump writes the Rust rows of buffer[..length] numbered from start_offset |
| RustHexdump.ClampStep | Rust/Hexdump.rs:100-106 | the cut chunk is no longer than the read and stays within the limit and the file; it is the whole read unless the limit is reached |
| RustHexdump.ReadStep | Rust/Hexdump.rs:102-111 | printing the cut chunk appends the next chunk of the file to the output, and the chunk lengths still sum to the offset |
| RustHexdump.Request | Rust/Hexdump.rs:99 | defines what the k-th `file.read(&mut buffer)` does: what the read schedule says, or a full read once the schedule has run out |
| RustHexdump.Plan | Rust/Hexdump.rs:98-119 | defines the chunk lengths the loop prints from its k-th read on: stop at `Err` or `Ok(0)`, else the bytes delivered cut to what the limit allows, and stop once the limit is reached; PlanBounds and PlanFull state its bounds |
| RustHexdump.PlanBounds | Rust/Hexdump.rs:98-119 | the chunk lengths from any read on never take the offset past the file or the limit, each is at most 2048, and they reach min(size, max_bytes) when no read fails |
| RustHexdump.PlanFull | Rust/Hexdump.rs:98-119 | when every read asks for a whole buffer, every chunk but the last is exactly 2048 bytes |
| RustHexdump.Chunks | Rust/Hexdump.rs:98-119 | the chunk lengths of a whole run sum to at most min(size, max_bytes), exactly that when no read fails; each is at most 2048, and all but the last are 2048 when every read is full |
| RustHexdump.Output | Rust/Hexdump.rs:92-119 | defines what the read loop writes to standard output: the successive `print_hexdump` calls for the chunk lengths of the run (Chunks); OutputReadsBack states what it reads back as |
| RustHexdump.OutputReadsBack | Rust/Hexdump.rs:92-119 | the loop's output decodes to a prefix of the file's first min(size, max_bytes) bytes, all of them when no read fails; with full reads it is exactly the one-call dump of that prefix |
| RustHexdump.Resume | Rust/Hexdump.rs:98-119 | after k reads have printed the first k chunks without reaching the limit, the reads from k on print exactly the remaining chunks |
| RustHexdump.PlanEnds | Rust/Hexdump.rs:99-117 | a read that fails, or finds the file exhausted, leaves every chunk of the run printed |
| RustHexdump.PlanStep | Rust/Hexdump.rs:100-115 | a read that delivers bytes prints the next chunk of the run, the delivered bytes cut to the limit; at the limit it is the last chunk |
| RustHexdump.TextEnds | Rust/Hexdump.rs:99-117 | when a read fails or the file is exhausted, the text written so far is the whole output |
| RustHexdump.Turn | Rust/Hexdump.rs:100-115 | one printing turn stays within the limit and the file, extends the output by the next chunk's rows, and completes the output when it reaches the limit |
| RustHexdump.PrintChunk | Rust/Hexdump.rs:102-109 | cutting the bytes read at the limit and printing them appends the next chunk of the run to the output, and the whole output at the limit |
| RustHexdump.ShortReadsShiftRows | Rust/Hexdump.rs:98-111 | for a twenty-byte file, reads that deliver ten bytes each print chunks [10, 10], with rows at offsets 0 and 10; full reads print one dump, with rows at 0 and 16; both read back to the same bytes |
| RustHexdump.DumpFile | Rust/Hexdump.rs:92-119 | the read loop writes exactly Output: the rows of the chunks that the read schedule and the bytes left determine, read by read |
| RustHexdump.ParseArguments | Rust/Hexdump.rs:53-79 | the argument loop computes the reference Rust parse: the last path, the last length (2^64-1 by default), or a length error for a dangling `-n` or a length that does not parse |
| RustHexdump.UsageMessage | Rust/Hexdump.rs:82 | defines the usage message on standard error, with the program name; the length message (Rust/Hexdump.rs:67, 72) is the constant RustHexdump.LengthMessage |
| RustHexdump.OpenMessage | Rust/Hexdump.rs:88 | defines the message on standard error for a file that will not open, with its path |
| RustHexdump.Run | Rust/Hexdump.rs:51-120 | exit status 0, nothing on standard error and exactly the loop's Output for the limited file; otherwise status 1, no output, and the usage, length or open message |

## Left out

- The output streams themselves: the text written to `cout`/`cerr` (C++) or by `print!`/`eprintln!` (Rust) is a returned string. Buffering, flushing (`endl`) and how the two streams interleave are not modelled.
- Opening a file is a lookup in a map. A path outside the map is a file that will not open. Later I/O errors on a C++ stream (`badbit`) are not modelled: a C++ read always delivers min(4096, bytes left).
- The Rust reads are a schedule given to `RustHexdump.Run`. A failing read ends the loop with status 0, as `_ => break` does. How often a real file returns short reads is not modelled.
- The file handle's closing and the buffers' lifetimes are not modelled. `file.close()` (HexDump.cpp:139) changes no output.
- CppHexDump.Run and RustHexdump.Run require a program name `argv[0]`, which the usage message prints. Without one, C++ streams a null `char*` to `cerr` (HexDump.cpp:89), whose behaviour is undefined. Rust panics when indexing `args[0]` (Rust/Hexdump.rs:82) and exits with status 101. Neither outcome is modelled.
- Integers are unbounded. `size_t`/`usize` is taken to be 64 bits wide. The model ignores overflow of `offset + bytes_read` because the offset never exceeds the file's size. The offset column of `start_offset + i` is likewise never wrapped. `atoi`'s 32-bit truncation and the conversion of a negative `int` to `size_t` are written out (`Args.ToInt`, `Args.ToSize`). Overflow inside `strtol` saturates as glibc does (`Args.Strtol`).
- Argument encoding: `argv` words are byte strings in C++, and Rust's `env::args()` (Rust/Hexdump.rs:56) panics, exiting with status 101, on a word that is not valid Unicode, before the argument loop runs. The model takes the arguments as Dafny strings of Unicode characters, so neither the raw bytes nor that panic is modelled.
- C strings: the model assumes that no argument holds a NUL character, as no C `argv` string can. Under that assumption `strcmp` (HexDump.cpp:69) is string equality. Arguments with a NUL are not excluded by a precondition; for them the model compares whole strings where `strcmp` would stop at the NUL.
- `print_hexdump` is modelled as three methods: the group, the row and the rows. The two nested loops keep their order and their variables.
- RustHexdump.PrintChunk: the trimming and printing half of the loop body is a method of its own, called from the loop. Its statements and their order are those of the loop body.
