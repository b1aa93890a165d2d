/**
 * The command line `hexdump [-n LEN] FILE` as both programs read it: the
 * words after the program name split into `-n LEN` options and operands,
 * the last operand is the file and the last `-n` the length. The two
 * programs differ only in how LEN becomes a number: C's atoi, which never
 * fails, against Rust's parse::<usize>, which can.
 */
module Args {
  import opened Basics

  /** SIZE_MAX of a 64-bit C++ target, and usize::MAX of a 64-bit Rust target. */
  const SizeMax: nat := 0xFFFF_FFFF_FFFF_FFFF

  // ---------------------------------------------------------------------
  // Words and tokens

  datatype Token = LengthOption(value: string) | Operand(path: string)

  /** Splits the words; None when a `-n` has no word after it. */
  function Tokenize(args: seq<string>): Option<seq<Token>>
    decreases |args|
  {
    if args == [] then Some([])
    else if args[0] == "-n" then
      if |args| == 1 then None
      else match Tokenize(args[2..])
        case None => None
        case Some(ts) => Some([LengthOption(args[1])] + ts)
    else match Tokenize(args[1..])
      case None => None
      case Some(ts) => Some([Operand(args[0])] + ts)
  }

  function Spell(t: Token): seq<string>
  {
    match t
    case LengthOption(v) => ["-n", v]
    case Operand(p) => [p]
  }

  /** The words a token sequence is spelled with. */
  function Flatten(ts: seq<Token>): seq<string>
  {
    if ts == [] then [] else Spell(ts[0]) + Flatten(ts[1..])
  }

  /** The word `-n` is never taken for a file name. */
  predicate WellFormed(ts: seq<Token>)
  {
    forall k | 0 <= k < |ts| :: ts[k] != Operand("-n")
  }

  lemma {:induction false} FlattenAppend(ts: seq<Token>, us: seq<Token>)
    ensures Flatten(ts + us) == Flatten(ts) + Flatten(us)
  {
    if ts != [] {
      assert (ts + us)[1..] == ts[1..] + us;
      FlattenAppend(ts[1..], us);
    } else {
      assert ts + us == us;
    }
  }

  /** Tokenizing loses nothing: the tokens spell the words back. */
  lemma {:induction false} TokenizeFlatten(args: seq<string>)
    ensures Tokenize(args).Some? ==> Flatten(Tokenize(args).value) == args && WellFormed(Tokenize(args).value)
    decreases |args|
  {
    if args != [] {
      if args[0] == "-n" {
        if |args| > 1 {
          TokenizeFlatten(args[2..]);
          assert args == ["-n", args[1]] + args[2..];
        }
      } else {
        TokenizeFlatten(args[1..]);
        assert args == [args[0]] + args[1..];
      }
    }
  }

  /** ... and spelling well-formed tokens tokenizes back to them. */
  lemma {:induction false} FlattenTokenize(ts: seq<Token>)
    requires WellFormed(ts)
    ensures Tokenize(Flatten(ts)) == Some(ts)
  {
    if ts != [] {
      var w := Flatten(ts);
      WellFormedTail(ts);
      FlattenTokenize(ts[1..]);
      match ts[0]
      case LengthOption(v) =>
        assert w == ["-n", v] + Flatten(ts[1..]);
        assert w[2..] == Flatten(ts[1..]);
        assert [ts[0]] + ts[1..] == ts;
      case Operand(p) =>
        assert w[1..] == Flatten(ts[1..]);
        assert [ts[0]] + ts[1..] == ts;
    }
  }

  /** One token in front of some words. */
  lemma {:induction false} TokenizeCons(t: Token, rest: seq<string>)
    requires t != Operand("-n")
    ensures Tokenize(Spell(t) + rest) ==
            match Tokenize(rest) case None => None case Some(us) => Some([t] + us)
  {
    var w := Spell(t) + rest;
    match t
    case LengthOption(v) =>
      assert w[0] == "-n" && w[1] == v && w[2..] == rest;
    case Operand(p) =>
      assert w[0] == p && w[1..] == rest;
  }

  /** Words after a complete prefix of tokens are tokenized on their own. */
  lemma {:induction false} TokenizeAppend(ts: seq<Token>, rest: seq<string>)
    requires WellFormed(ts)
    ensures Tokenize(Flatten(ts) + rest) ==
            match Tokenize(rest) case None => None case Some(us) => Some(ts + us)
  {
    if ts == [] {
      assert Flatten(ts) + rest == rest;
      if Tokenize(rest).Some? {
        assert ts + Tokenize(rest).value == Tokenize(rest).value;
      }
    } else {
      var tail := Flatten(ts[1..]) + rest;
      assert Flatten(ts) + rest == Spell(ts[0]) + tail;
      WellFormedTail(ts);
      TokenizeAppend(ts[1..], rest);
      TokenizeCons(ts[0], tail);
      if Tokenize(rest).Some? {
        assert [ts[0]] + (ts[1..] + Tokenize(rest).value) == ts + Tokenize(rest).value;
      }
    }
  }

  /** A single token's words tokenize back to it. */
  lemma {:induction false} TokenizeToken(t: Token)
    requires t != Operand("-n")
    ensures Tokenize(Spell(t)) == Some([t])
  {
    var w := Spell(t);
    assert [t] + [] == [t];
    match t
    case LengthOption(v) =>
      assert w[2..] == [];
    case Operand(p) =>
      assert w[1..] == [];
  }

  /** The only way to fail is a `-n` as the very last word. */
  lemma {:induction false} TokenizeFailsAtEnd(args: seq<string>)
    ensures Tokenize(args) == None ==> |args| >= 1 && args[|args| - 1] == "-n"
    decreases |args|
  {
    if args != [] {
      if args[0] == "-n" {
        if |args| > 1 {
          TokenizeFailsAtEnd(args[2..]);
        }
      } else {
        TokenizeFailsAtEnd(args[1..]);
      }
    }
  }

  /** The path of the last operand, if any. */
  function LastOperand(ts: seq<Token>): (r: Option<string>)
    ensures r.Some? ==> exists k | 0 <= k < |ts| :: ts[k] == Operand(r.value)
  {
    if ts == [] then None
    else match ts[|ts| - 1]
      case Operand(p) => Some(p)
      case LengthOption(_) => LastOperand(ts[..|ts| - 1])
  }

  /** The value of the last `-n`, if any. */
  function LastLength(ts: seq<Token>): (r: Option<string>)
    ensures r.Some? ==> exists k | 0 <= k < |ts| :: ts[k] == LengthOption(r.value)
  {
    if ts == [] then None
    else match ts[|ts| - 1]
      case LengthOption(v) => Some(v)
      case Operand(_) => LastLength(ts[..|ts| - 1])
  }

  // ---------------------------------------------------------------------
  // Decimal numerals

  predicate IsDecimalDigit(c: char)
  {
    '0' <= c <= '9'
  }

  type Digits = s: string | forall i | 0 <= i < |s| :: IsDecimalDigit(s[i])

  function DecimalValue(s: Digits): nat
  {
    if s == [] then 0 else 10 * DecimalValue(s[..|s| - 1]) + (s[|s| - 1] - '0') as nat
  }

  /** The shortest decimal numeral of n. */
  function Decimal(n: nat): (s: Digits)
    ensures 1 <= |s| && DecimalValue(s) == n
  {
    var last: char := '0' + (n % 10) as char;
    if n < 10 then [last]
    else
      var s := Decimal(n / 10) + [last];
      assert s[..|s| - 1] == Decimal(n / 10);
      s
  }

  /** The longest prefix of s made of decimal digits. */
  function DigitRun(s: string): (r: Digits)
    ensures r <= s
    ensures |r| < |s| ==> !IsDecimalDigit(s[|r|])
  {
    if s != [] && IsDecimalDigit(s[0]) then [s[0]] + DigitRun(s[1..]) else []
  }

  lemma {:induction false} DigitRunPrefix(d: Digits, rest: string)
    requires rest == [] || !IsDecimalDigit(rest[0])
    ensures DigitRun(d + rest) == d
  {
    if d == [] {
      assert d + rest == rest;
    } else {
      assert (d + rest)[1..] == d[1..] + rest;
      DigitRunPrefix(d[1..], rest);
    }
  }

  // ---------------------------------------------------------------------
  // C++: max_bytes = atoi(argv[i + 1])

  /** isspace in the C locale. */
  predicate IsSpace(c: char)
  {
    c == ' ' || c == '\t' || c == '\n' || c == '\r' || c as int == 11 || c as int == 12
  }

  function SkipSpaces(s: string): (r: string)
    ensures r == [] || !IsSpace(r[0])
    decreases |s|
  {
    if s != [] && IsSpace(s[0]) then SkipSpaces(s[1..]) else s
  }

  const LongMin: int := -0x8000_0000_0000_0000
  const LongMax: int := 0x7FFF_FFFF_FFFF_FFFF

  /**
   * strtol(s, NULL, 10): leading white space, an optional sign, the longest
   * run of digits; 0 when there is none; saturated to the range of long.
   */
  function Strtol(s: string): (v: int)
    ensures LongMin <= v <= LongMax
  {
    var t := SkipSpaces(s);
    var negative := t != [] && t[0] == '-';
    var body := if t != [] && (t[0] == '-' || t[0] == '+') then t[1..] else t;
    var magnitude := DecimalValue(DigitRun(body));
    var v: int := if negative then -(magnitude as int) else magnitude;
    if v < LongMin then LongMin else if v > LongMax then LongMax else v
  }

  /** A long converted to a 32-bit int: the low 32 bits, read as two's complement. */
  function ToInt(v: int): (r: int)
    ensures -0x8000_0000 <= r < 0x8000_0000
    ensures -0x8000_0000 <= v < 0x8000_0000 ==> r == v
  {
    (v + 0x8000_0000) % 0x1_0000_0000 - 0x8000_0000
  }

  /** An int assigned to a 64-bit size_t: taken modulo 2^64. */
  function ToSize(v: int): (r: nat)
    ensures r <= SizeMax
    ensures 0 <= v <= SizeMax ==> r == v
    ensures -(SizeMax as int) <= v < 0 ==> r == SizeMax + 1 + v
  {
    v % (SizeMax + 1)
  }

  /** The limit C++ stores for `-n s`: glibc's atoi is (int) strtol(s, NULL, 10). */
  function CppLength(s: string): nat
  {
    ToSize(ToInt(Strtol(s)))
  }

  /** A numeral in int's range, followed by anything but a digit, is read as its value. */
  lemma {:induction false} CppLengthDecimal(n: nat, rest: string)
    requires n < 0x8000_0000
    requires rest == [] || !IsDecimalDigit(rest[0])
    ensures CppLength(Decimal(n) + rest) == n
  {
    var s := Decimal(n) + rest;
    assert s[0] == Decimal(n)[0];
    assert SkipSpaces(s) == s;
    DigitRunPrefix(Decimal(n), rest);
  }

  /** A length that does not start like a number is read as 0. */
  lemma {:induction false} CppLengthNonNumeric(s: string)
    requires s != [] && !IsSpace(s[0]) && !IsDecimalDigit(s[0]) && s[0] != '-' && s[0] != '+'
    ensures CppLength(s) == 0
    ensures ParseUsize(s) == None
  {
    ParseUsizeRefuses(s);
  }

  /** A negative numeral wraps around: `-n -1` becomes SIZE_MAX. */
  lemma {:induction false} CppLengthNegative(n: nat)
    requires 0 < n <= 0x8000_0000
    ensures CppLength("-" + Decimal(n)) == SizeMax + 1 - n
  {
    var s := "-" + Decimal(n);
    var v: int := -(n as int);
    assert Strtol(s) == v by {
      assert SkipSpaces(s) == s;
      assert s[1..] == Decimal(n) + [];
      DigitRunPrefix(Decimal(n), []);
    }
    assert ToInt(v) == v;
  }

  // ---------------------------------------------------------------------
  // Rust: args[i + 1].parse::<usize>()

  /** The text after an optional leading '+'. */
  function Unsigned(s: string): string
  {
    if s != [] && s[0] == '+' then s[1..] else s
  }

  predicate AllDigits(s: string)
  {
    forall i | 0 <= i < |s| :: IsDecimalDigit(s[i])
  }

  /** An optional '+', then one or more digits, of value at most usize::MAX. */
  function ParseUsize(s: string): (r: Option<nat>)
    ensures r.Some? ==> r.value <= SizeMax
  {
    var body := Unsigned(s);
    if body == [] || !AllDigits(body) then None
    else if DecimalValue(body) > SizeMax then None
    else Some(DecimalValue(body))
  }

  lemma {:induction false} ParseUsizeDecimal(n: nat)
    requires n <= SizeMax
    ensures ParseUsize(Decimal(n)) == Some(n)
    ensures ParseUsize("+" + Decimal(n)) == Some(n)
  {
    assert ("+" + Decimal(n))[1..] == Decimal(n);
  }

  /** Signs other than '+', blanks and trailing text are all refused. */
  lemma {:induction false} ParseUsizeRefuses(s: string)
    requires s == [] || (s[0] != '+' && !IsDecimalDigit(s[0])) || !IsDecimalDigit(s[|s| - 1])
    ensures ParseUsize(s) == None
  {
    var body := Unsigned(s);
    if body != [] {
      if !IsDecimalDigit(body[0]) {
        assert !AllDigits(body);
      } else {
        assert body[|body| - 1] == s[|s| - 1];
        assert !AllDigits(body);
      }
    }
  }

  /** Where Rust accepts a length below 2^31, C++ reads the same number from it. */
  lemma {:induction false} ParseUsizeAgrees(s: string)
    requires ParseUsize(s).Some? && ParseUsize(s).value < 0x8000_0000
    ensures CppLength(s) == ParseUsize(s).value
  {
    var v := ParseUsize(s).value;
    assert Strtol(s) == v by {
      var body := Unsigned(s);
      assert AllDigits(body);
      var digits: Digits := body;
      assert s[0] == '+' || s[0] == body[0];
      assert SkipSpaces(s) == s;
      DigitRunPrefix(digits, []);
      assert digits + [] == digits;
    }
    assert ToInt(v) == v;
  }

  // ---------------------------------------------------------------------
  // What the command line asks for

  datatype Command =
    | Dump(limit: nat, path: string)
    | LengthError  // "-n requires a length argument."
    | PathError    // the usage message

  /** The words after the program name; argv[0] is the program itself. */
  function Operands(argv: seq<string>): seq<string>
  {
    if argv == [] then [] else argv[1..]
  }

  function CppLimit(ts: seq<Token>): nat
  {
    match LastLength(ts)
    case None => SizeMax
    case Some(v) => CppLength(v)
  }

  /** How the C++ program understands its words (the argument loop and the path check). */
  function ParseCpp(args: seq<string>): Command
  {
    match Tokenize(args)
    case None => LengthError
    case Some(ts) =>
      match LastOperand(ts)
      case None => PathError
      case Some(p) => Dump(CppLimit(ts), p)
  }

  predicate LengthsParse(ts: seq<Token>)
  {
    forall k | 0 <= k < |ts| :: ts[k].LengthOption? ==> ParseUsize(ts[k].value).Some?
  }

  function RustLimit(ts: seq<Token>): nat
    requires LengthsParse(ts)
  {
    match LastLength(ts)
    case None => SizeMax
    case Some(v) => ParseUsize(v).value
  }

  /** How the Rust program understands its words. */
  function ParseRust(args: seq<string>): Command
  {
    match Tokenize(args)
    case None => LengthError
    case Some(ts) =>
      if !LengthsParse(ts) then LengthError
      else match LastOperand(ts)
        case None => PathError
        case Some(p) => Dump(RustLimit(ts), p)
  }

  // ---------------------------------------------------------------------
  // Properties of the command line

  /** A `-n` with nothing after it is an error in both programs. */
  lemma {:induction false} DanglingLength(ts: seq<Token>)
    requires WellFormed(ts)
    ensures ParseCpp(Flatten(ts) + ["-n"]) == LengthError
    ensures ParseRust(Flatten(ts) + ["-n"]) == LengthError
  {
    TokenizeAppend(ts, ["-n"]);
  }

  /** A command line made of `-n` options only, with these values. */
  function OptionWords(values: seq<string>): seq<string>
  {
    if values == [] then [] else OptionWords(values[..|values| - 1]) + ["-n", values[|values| - 1]]
  }

  /**
   * Without an operand there is nothing to open: both programs print the
   * usage, except that Rust stops first at a value that is not a number.
   */
  lemma {:induction false} MissingPath(values: seq<string>)
    ensures ParseCpp(OptionWords(values)) == PathError
    ensures ParseRust(OptionWords(values)) ==
            if forall k | 0 <= k < |values| :: ParseUsize(values[k]).Some? then PathError else LengthError
  {
    var ts := OptionsOnly(values);
    FlattenTokenize(ts);
    if !LengthsParse(ts) {
      var k :| 0 <= k < |ts| && ts[k].LengthOption? && ParseUsize(ts[k].value).None?;
      assert ParseUsize(values[k]).None?;
    }
  }

  /** The tokens of a command line of options only: one length option per value. */
  lemma {:induction false} OptionsOnly(values: seq<string>) returns (ts: seq<Token>)
    ensures |ts| == |values| && forall k | 0 <= k < |ts| :: ts[k] == LengthOption(values[k])
    ensures WellFormed(ts) && Flatten(ts) == OptionWords(values) && LastOperand(ts) == None
    decreases |values|
  {
    if values == [] {
      ts := [];
    } else {
      var n := |values|;
      var t := LengthOption(values[n - 1]);
      var us := OptionsOnly(values[..n - 1]);
      ts := us + [t];
      FlattenAppend(us, [t]);
      assert Flatten([t]) == ["-n", values[n - 1]];
      assert ts[..|ts| - 1] == us;
    }
  }

  /** The last operand names the file, however many come before it. */
  lemma {:induction false} LastPathWins(ts: seq<Token>, p: string)
    requires WellFormed(ts) && p != "-n"
    ensures ParseCpp(Flatten(ts) + [p]) == Dump(CppLimit(ts), p)
    ensures LengthsParse(ts) ==> ParseRust(Flatten(ts) + [p]) == Dump(RustLimit(ts), p)
  {
    var ts' := ts + [Operand(p)];
    assert Tokenize(Flatten(ts) + [p]) == Some(ts') by {
      TokenizeToken(Operand(p));
      TokenizeAppend(ts, [p]);
    }
    assert ts'[..|ts'| - 1] == ts;
    assert LastLength(ts') == LastLength(ts);
    if LengthsParse(ts) {
      assert LengthsParse(ts') by {
        forall k | 0 <= k < |ts'| && ts'[k].LengthOption? ensures ParseUsize(ts'[k].value).Some? {
          assert ts'[k] == ts[k];
        }
      }
    }
  }

  /** The last `-n` sets the length; in Rust every earlier one must still be a number. */
  lemma {:induction false} LastLengthWins(ts: seq<Token>, v: string)
    requires WellFormed(ts)
    ensures ParseCpp(Flatten(ts) + ["-n", v]) ==
            (if LastOperand(ts).Some? then Dump(CppLength(v), LastOperand(ts).value) else PathError)
    ensures LengthsParse(ts) && ParseUsize(v).Some? ==>
            ParseRust(Flatten(ts) + ["-n", v]) ==
            (if LastOperand(ts).Some? then Dump(ParseUsize(v).value, LastOperand(ts).value) else PathError)
  {
    var ts' := ts + [LengthOption(v)];
    assert Tokenize(Flatten(ts) + ["-n", v]) == Some(ts') by {
      TokenizeToken(LengthOption(v));
      TokenizeAppend(ts, ["-n", v]);
    }
    assert ts'[..|ts'| - 1] == ts;
    if LengthsParse(ts) && ParseUsize(v).Some? {
      assert LengthsParse(ts') by {
        forall k | 0 <= k < |ts'| && ts'[k].LengthOption? ensures ParseUsize(ts'[k].value).Some? {
          if k < |ts| {
            assert ts'[k] == ts[k];
          }
        }
      }
    }
  }

  lemma {:induction false} WellFormedTail(ts: seq<Token>)
    requires WellFormed(ts) && ts != []
    ensures WellFormed(ts[1..]) && ts[0] != Operand("-n")
  {
    forall k | 0 <= k < |ts| - 1 ensures ts[1..][k] != Operand("-n") {
      assert ts[1..][k] == ts[k + 1];
    }
  }

  lemma {:induction false} WellFormedAppend(ts: seq<Token>, t: Token)
    requires WellFormed(ts) && t != Operand("-n")
    ensures WellFormed(ts + [t])
  {
    var ts' := ts + [t];
    forall k | 0 <= k < |ts'| ensures ts'[k] != Operand("-n") {
      if k < |ts| {
        assert ts'[k] == ts[k];
      }
    }
  }

  /** A non-numeric length: C++ takes it as 0 and dumps nothing, Rust stops with the length error. */
  lemma {:induction false} NonNumericLength(ts: seq<Token>, v: string, p: string, rest: seq<string>)
    requires WellFormed(ts) && p != "-n"
    requires v != [] && !IsSpace(v[0]) && !IsDecimalDigit(v[0]) && v[0] != '-' && v[0] != '+'
    ensures ParseCpp(Flatten(ts) + ["-n", v] + [p]) == Dump(0, p)
    ensures ParseRust(Flatten(ts) + (["-n", v] + rest)) == LengthError
  {
    CppLengthNonNumeric(v);
    RustRefusesLength(ts, v, rest);
    CppTakesLength(ts, v, p);
  }

  /** In C++, the last `-n` before the path gives the limit, whatever its text. */
  lemma {:induction false} CppTakesLength(ts: seq<Token>, v: string, p: string)
    requires WellFormed(ts) && p != "-n"
    ensures ParseCpp(Flatten(ts) + ["-n", v] + [p]) == Dump(CppLength(v), p)
  {
    var ts' := ts + [LengthOption(v)];
    WellFormedAppend(ts, LengthOption(v));
    LastPathWins(ts', p);
    assert ts'[..|ts'| - 1] == ts;
    assert Flatten(ts') == Flatten(ts) + ["-n", v] by {
      FlattenAppend(ts, [LengthOption(v)]);
      assert Flatten([LengthOption(v)]) == ["-n", v];
    }
  }

  /** In Rust, one `-n` whose value does not parse is enough to stop. */
  lemma {:induction false} RustRefusesLength(ts: seq<Token>, v: string, rest: seq<string>)
    requires WellFormed(ts) && ParseUsize(v) == None
    ensures ParseRust(Flatten(ts) + (["-n", v] + rest)) == LengthError
  {
    TokenizeAppend(ts, ["-n", v] + rest);
    var tail := ["-n", v] + rest;
    assert tail[2..] == rest;
    if Tokenize(rest).Some? {
      var all := ts + ([LengthOption(v)] + Tokenize(rest).value);
      assert all[|ts|] == LengthOption(v);
    }
  }

  // ---------------------------------------------------------------------
  // The argument loop, one word or one `-n` pair at a time

  /** The loop of main has read argv[1..i] as the tokens ts. */
  predicate ReadSoFar(argv: seq<string>, i: nat, ts: seq<Token>)
  {
    1 <= i <= |argv| && WellFormed(ts) && Flatten(ts) == argv[1..i]
  }

  /** A word other than `-n` is the path. */
  lemma {:induction false} OperandStep(argv: seq<string>, i: nat, ts: seq<Token>)
    requires ReadSoFar(argv, i, ts) && i < |argv| && argv[i] != "-n"
    ensures var ts' := ts + [Operand(argv[i])];
      ReadSoFar(argv, i + 1, ts') && LastOperand(ts') == Some(argv[i]) && LastLength(ts') == LastLength(ts) &&
      CppLimit(ts') == CppLimit(ts) && (LengthsParse(ts) ==> LengthsParse(ts') && RustLimit(ts') == RustLimit(ts))
  {
    var t := Operand(argv[i]);
    var ts' := ts + [t];
    FlattenAppend(ts, [t]);
    WellFormedAppend(ts, t);
    assert argv[1..i + 1] == argv[1..i] + Spell(t);
    assert ts'[..|ts|] == ts;
    if LengthsParse(ts) {
      assert LengthsParse(ts') by {
        forall k | 0 <= k < |ts'| && ts'[k].LengthOption? ensures ParseUsize(ts'[k].value).Some? {
          assert ts'[k] == ts[k];
        }
      }
    }
  }

  /** `-n` takes the next word as the length. */
  lemma {:induction false} LengthStep(argv: seq<string>, i: nat, ts: seq<Token>)
    requires ReadSoFar(argv, i, ts) && i + 1 < |argv| && argv[i] == "-n"
    ensures var ts' := ts + [LengthOption(argv[i + 1])];
      ReadSoFar(argv, i + 2, ts') && LastOperand(ts') == LastOperand(ts) && LastLength(ts') == Some(argv[i + 1]) &&
      CppLimit(ts') == CppLength(argv[i + 1]) &&
      (LengthsParse(ts) && ParseUsize(argv[i + 1]).Some? ==>
        LengthsParse(ts') && RustLimit(ts') == ParseUsize(argv[i + 1]).value)
  {
    var t := LengthOption(argv[i + 1]);
    var ts' := ts + [t];
    FlattenAppend(ts, [t]);
    WellFormedAppend(ts, t);
    assert argv[1..i + 2] == argv[1..i] + Spell(t);
    assert ts'[..|ts|] == ts;
    if LengthsParse(ts) && ParseUsize(argv[i + 1]).Some? {
      assert LengthsParse(ts') by {
        forall k | 0 <= k < |ts'| && ts'[k].LengthOption? ensures ParseUsize(ts'[k].value).Some? {
          if k < |ts| {
            assert ts'[k] == ts[k];
          }
        }
      }
    }
  }

  /** Once the loop has read every word, the tokens it read are those of the command line. */
  lemma {:induction false} ArgvDone(argv: seq<string>, ts: seq<Token>)
    requires ReadSoFar(argv, |argv|, ts)
    ensures Tokenize(Operands(argv)) == Some(ts)
  {
    assert argv[1..|argv|] == argv[1..];
    FlattenTokenize(ts);
  }

  /** A `-n` as the last word stops both programs with the length error. */
  lemma {:induction false} ArgvDangling(argv: seq<string>, i: nat, ts: seq<Token>)
    requires ReadSoFar(argv, i, ts) && i + 1 == |argv| && argv[i] == "-n"
    ensures ParseCpp(Operands(argv)) == LengthError
    ensures ParseRust(Operands(argv)) == LengthError
  {
    assert Operands(argv) == Flatten(ts) + ["-n"];
    DanglingLength(ts);
  }

  /** In Rust, a length that does not parse stops the loop with the length error. */
  lemma {:induction false} ArgvBadLength(argv: seq<string>, i: nat, ts: seq<Token>)
    requires ReadSoFar(argv, i, ts) && i + 1 < |argv| && argv[i] == "-n" && ParseUsize(argv[i + 1]) == None
    ensures ParseRust(Operands(argv)) == LengthError
  {
    assert Operands(argv) == Flatten(ts) + (["-n", argv[i + 1]] + argv[i + 2..]);
    RustRefusesLength(ts, argv[i + 1], argv[i + 2..]);
  }
}
