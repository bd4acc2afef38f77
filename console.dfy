/** The interactive consoles of the two host tools that steer a running
    tester: the AVB tester's `e`/`x`/`d` commands and the traffic generator
    controller's mode, packet-control and generation-control commands.

    A console line is read into a NUL-terminated C buffer; here it is the
    sequence of characters before the terminator, and `At` reads the buffer
    the way the C pointer walks do, giving NUL at and past the end. The
    `isspace` and `tolower` of the C locale are written out, and `atoi` is
    the decimal-prefix parse of section 7.22.1.2 of ISO C11, on unbounded
    integers. */
module Console {
  import opened Common

  const NUL: char := '\0'
  /** The console reads at most this many characters of a line. */
  const LINE_LENGTH: nat := 1024

  /** `isspace` in the C locale: space, tab, newline, vertical tab, form
      feed and carriage return. */
  predicate IsSpace(c: char)
  {
    c == ' ' || '\t' <= c <= '\r'
  }

  predicate IsDigit(c: char)
  {
    '0' <= c <= '9'
  }

  function DigitValue(c: char): (d: nat)
    requires IsDigit(c)
    ensures d < 10
  {
    c as int - '0' as int
  }

  function DigitChar(d: nat): (c: char)
    requires d < 10
    ensures IsDigit(c) && DigitValue(c) == d
  {
    (d + '0' as int) as char
  }

  /** `tolower` in the C locale: only A-Z change. */
  function ToLower(c: char): (r: char)
    ensures 'A' <= c <= 'Z' ==> r as int == c as int + 32
    ensures !('A' <= c <= 'Z') ==> r == c
  {
    if 'A' <= c <= 'Z' then (c as int + 32) as char else c
  }

  /** The character a C pointer to `line[i]` sees: NUL at and past the end. */
  function At(line: seq<char>, i: nat): char
  {
    if i < |line| then line[i] else NUL
  }

  predicate SpaceAt(line: seq<char>, k: nat)
  {
    At(line, k) != NUL && IsSpace(At(line, k))
  }

  predicate WordCharAt(line: seq<char>, k: nat)
  {
    At(line, k) != NUL && !IsSpace(At(line, k))
  }

  // ---------------------------------------------------------------------
  // Reading a console line

  /** How many characters of `input` the line-reading loop stores: it stops
      at end of input, at a newline, or after `LINE_LENGTH` characters. */
  function LineEnd(input: seq<char>, i: nat): (e: nat)
    requires i <= |input|
    decreases |input| - i
    ensures i <= e <= |input|
  {
    if i < LINE_LENGTH && i < |input| && input[i] != '\n' then LineEnd(input, i + 1) else i
  }

  /** The line read from `input`, lower-cased. */
  function LineOf(input: seq<char>): seq<char>
  {
    var e := LineEnd(input, 0);
    seq(e, k requires 0 <= k < e => ToLower(input[k]))
  }

  lemma {:induction false} LineEndStops(input: seq<char>, i: nat)
    requires i <= |input| && i <= LINE_LENGTH
    requires forall k :: 0 <= k < i ==> input[k] != '\n'
    ensures var e := LineEnd(input, i);
            && e <= LINE_LENGTH
            && (forall k :: 0 <= k < e ==> input[k] != '\n')
            && (e == LINE_LENGTH || e == |input| || input[e] == '\n')
    decreases |input| - i
  {
    if i < LINE_LENGTH && i < |input| && input[i] != '\n' {
      LineEndStops(input, i + 1);
    }
  }

  /** A line is at most `LINE_LENGTH` characters, holds no newline, is the
      lower-cased start of the input, and ends where the input, a newline
      or the length cap does. */
  lemma LineOfFacts(input: seq<char>)
    ensures var line := LineOf(input);
            && |line| <= LINE_LENGTH && |line| <= |input|
            && (forall k :: 0 <= k < |line| ==> line[k] == ToLower(input[k]) && line[k] != '\n')
            && (|line| == LINE_LENGTH || |line| == |input| || input[|line|] == '\n')
  {
    LineEndStops(input, 0);
  }

  /** The `for` loop of both console threads that copies lower-cased
      characters into the line buffer until end of input, a newline or
      `LINE_LENGTH` characters. */
  method ReadLine(input: seq<char>) returns (line: seq<char>)
    ensures line == LineOf(input)
  {
    var i := 0;
    line := [];
    while i < LINE_LENGTH && i < |input| && input[i] != '\n'
      invariant i <= |input| && |line| == i
      invariant LineEnd(input, i) == LineEnd(input, 0)
      invariant forall k :: 0 <= k < i ==> line[k] == ToLower(input[k])
      decreases |input| - i
    {
      line := line + [ToLower(input[i])];
      i := i + 1;
    }
  }

  // ---------------------------------------------------------------------
  // Pointer walks over a C string

  /** Where a walk that skips whitespace from `i` stops. */
  function SkipSpaces(line: seq<char>, i: nat): (j: nat)
    decreases |line| - i
    ensures i <= j
    ensures !SpaceAt(line, j)
    ensures forall k :: i <= k < j ==> SpaceAt(line, k)
  {
    if SpaceAt(line, i) then SkipSpaces(line, i + 1) else i
  }

  /** Where a walk over non-whitespace characters from `i` stops. */
  function WordEnd(line: seq<char>, i: nat): (j: nat)
    decreases |line| - i
    ensures i <= j
    ensures !WordCharAt(line, j)
    ensures forall k :: i <= k < j ==> WordCharAt(line, k)
  {
    if WordCharAt(line, i) then WordEnd(line, i + 1) else i
  }

  /** `get_next_char`: the first character from `i` on that is not
      whitespace, or NUL when only whitespace is left. */
  function NextChar(line: seq<char>, i: nat): (c: char)
  {
    At(line, SkipSpaces(line, i))
  }

  /** What `NextChar` returns is NUL or a non-space character, and every
      character it skipped is whitespace. */
  lemma NextCharFacts(line: seq<char>, i: nat)
    ensures var c := NextChar(line, i);
            && (c == NUL || !IsSpace(c))
            && (!SpaceAt(line, i) ==> c == At(line, i))
  {
  }

  /** Any run of whitespace in front of a character is skipped. */
  lemma {:induction false} NextCharAfterSpaces(spaces: seq<char>, c: char, rest: seq<char>)
    requires forall k :: 0 <= k < |spaces| ==> spaces[k] != NUL && IsSpace(spaces[k])
    requires c == NUL || !IsSpace(c)
    ensures NextChar(spaces + [c] + rest, 0) == c
    decreases |spaces|
  {
    var line := spaces + [c] + rest;
    if spaces == [] {
      assert At(line, 0) == c;
    } else {
      assert SpaceAt(line, 0);
      NextCharAfterSpaces(spaces[1..], c, rest);
      ShiftedWalk(line, spaces[1..] + [c] + rest);
    }
  }

  /** Dropping a leading whitespace character does not change where the
      skip lands, counted from the character after it. */
  lemma ShiftedWalk(line: seq<char>, tail: seq<char>)
    requires |line| > 0 && tail == line[1..] && SpaceAt(line, 0)
    ensures SkipSpaces(line, 0) == 1 + SkipSpaces(tail, 0)
    ensures NextChar(line, 0) == NextChar(tail, 0)
  {
    ShiftedSkip(line, tail, 1);
  }

  lemma {:induction false} ShiftedSkip(line: seq<char>, tail: seq<char>, i: nat)
    requires |line| > 0 && tail == line[1..] && i >= 1
    ensures SkipSpaces(line, i) == 1 + SkipSpaces(tail, i - 1)
    decreases |line| - i
  {
    assert At(line, i) == At(tail, i - 1);
    if SpaceAt(line, i) {
      ShiftedSkip(line, tail, i + 1);
    }
  }

  /** `get_next_string`: the first non-space character from `start`, and
      the number of non-space characters counted from `start` itself, not
      from that character. */
  method GetNextString(line: seq<char>, start: nat) returns (c: char, len: nat)
    ensures c == NextChar(line, start)
    ensures len == WordEnd(line, start) - start
    ensures SpaceAt(line, start) ==> len == 0
    ensures c != NUL && !SpaceAt(line, start) ==> len >= 1
  {
    var s := start;
    while SpaceAt(line, s)
      invariant start <= s <= SkipSpaces(line, start)
      invariant SkipSpaces(line, s) == SkipSpaces(line, start)
      decreases |line| - s
    {
      s := s + 1;
    }
    var p := start;
    len := 0;
    while WordCharAt(line, p)
      invariant start <= p <= WordEnd(line, start)
      invariant WordEnd(line, p) == WordEnd(line, start)
      invariant len == p - start
      decreases |line| - p
    {
      p := p + 1;
      len := len + 1;
    }
    c := At(line, s);
  }

  // ---------------------------------------------------------------------
  // atoi

  /** Where the run of decimal digits starting at `i` ends. */
  function DigitsEnd(line: seq<char>, i: nat): (j: nat)
    decreases |line| - i
    ensures i <= j <= |line| || j == i
    ensures forall k :: i <= k < j ==> k < |line| && IsDigit(line[k])
    ensures !IsDigit(At(line, j))
  {
    if i < |line| && IsDigit(line[i]) then DigitsEnd(line, i + 1) else i
  }

  /** The value of the digits `line[i..j]`, most significant first. */
  function DigitsValue(line: seq<char>, i: nat, j: nat): (v: nat)
    requires i <= j <= |line|
    requires forall k :: i <= k < j ==> IsDigit(line[k])
    decreases j - i
  {
    if j == i then 0 else DigitsValue(line, i, j - 1) * 10 + DigitValue(line[j - 1])
  }

  /** `atoi(&line[i])`: leading whitespace, an optional sign, then the
      longest run of decimal digits; no digits give 0. */
  function Atoi(line: seq<char>, i: nat): int
  {
    var p := SkipSpaces(line, i);
    var sign := At(line, p);
    var d := if sign == '-' || sign == '+' then p + 1 else p;
    var e := DigitsEnd(line, d);
    var v := if d <= |line| then DigitsValue(line, d, e) else 0;
    if sign == '-' then -v else v
  }

  /** `atoi` skips whitespace itself, so starting it on the whitespace or
      after it gives the same value. */
  lemma {:induction false} AtoiSkipsSpaces(line: seq<char>, i: nat)
    ensures Atoi(line, SkipSpaces(line, i)) == Atoi(line, i)
    decreases |line| - i
  {
    if SpaceAt(line, i) {
      AtoiSkipsSpaces(line, i + 1);
    }
  }

  /** `convert_atoi_substr`: the `atoi` value of the field at `start` once
      its leading whitespace is skipped, and the count of non-space
      characters from `start` itself. */
  method ConvertAtoiSubstr(line: seq<char>, start: nat) returns (value: int, len: nat)
    ensures value == Atoi(line, start)
    ensures len == WordEnd(line, start) - start
    ensures SpaceAt(line, start) ==> len == 0
  {
    var i := 0;
    while SpaceAt(line, start + i)
      invariant start <= start + i <= SkipSpaces(line, start)
      invariant SkipSpaces(line, start + i) == SkipSpaces(line, start)
      decreases |line| - (start + i)
    {
      i := i + 1;
    }
    var j := 0;
    while WordCharAt(line, start + j)
      invariant start + j <= WordEnd(line, start)
      invariant WordEnd(line, start + j) == WordEnd(line, start)
      decreases |line| - (start + j)
    {
      j := j + 1;
    }
    len := j;
    AtoiSkipsSpaces(line, start);
    value := Atoi(line, start + i);
  }

  // ---------------------------------------------------------------------
  // Decimal text, the inverse of atoi on naturals

  /** The shortest decimal text of `n`. */
  function Decimal(n: nat): (r: seq<char>)
    decreases n
    ensures |r| >= 1
    ensures forall k :: 0 <= k < |r| ==> IsDigit(r[k])
  {
    if n < 10 then [DigitChar(n)] else Decimal(n / 10) + [DigitChar(n % 10)]
  }

  /** The digits of `Decimal(n)`, wherever they stand in a line, have the
      value `n`. */
  lemma {:induction false} DecimalValue(line: seq<char>, i: nat, n: nat)
    requires i + |Decimal(n)| <= |line|
    requires line[i..i + |Decimal(n)|] == Decimal(n)
    ensures forall k :: i <= k < i + |Decimal(n)| ==> IsDigit(line[k])
    ensures DigitsValue(line, i, i + |Decimal(n)|) == n
    decreases n
  {
    var s := Decimal(n);
    DecimalDigits(line, i, s);
    if n < 10 {
      assert line[i] == s[0];
    } else {
      var h := Decimal(n / 10);
      assert s == h + [DigitChar(n % 10)];
      SliceOfSlice(line, i, s, |h|);
      assert s[..|h|] == h;
      DecimalValue(line, i, n / 10);
      assert line[i + |s| - 1] == s[|s| - 1];
    }
  }

  lemma DecimalDigits(line: seq<char>, i: nat, s: seq<char>)
    requires i + |s| <= |line| && line[i..i + |s|] == s
    requires forall k :: 0 <= k < |s| ==> IsDigit(s[k])
    ensures forall k :: i <= k < i + |s| ==> IsDigit(line[k])
  {
    forall k | i <= k < i + |s|
      ensures IsDigit(line[k])
    {
      assert line[k] == s[k - i];
    }
  }

  lemma SliceOfSlice(line: seq<char>, i: nat, s: seq<char>, m: nat)
    requires i + |s| <= |line| && line[i..i + |s|] == s && m <= |s|
    ensures line[i..i + m] == s[..m]
  {
    assert forall k :: 0 <= k < m ==> line[i..i + m][k] == line[i + k] == s[k];
  }

  /** `atoi` reads back the decimal text of a natural, whatever follows it
      as long as that is not another digit. */
  lemma AtoiOfDecimal(line: seq<char>, i: nat, n: nat)
    requires i + |Decimal(n)| <= |line|
    requires line[i..i + |Decimal(n)|] == Decimal(n)
    requires !IsDigit(At(line, i + |Decimal(n)|))
    ensures Atoi(line, i) == n
  {
    var j := i + |Decimal(n)|;
    DecimalValue(line, i, n);
    assert line[i] == Decimal(n)[0];
    assert !SpaceAt(line, i);
    DigitsEndAt(line, i, j);
  }

  lemma {:induction false} DigitsEndAt(line: seq<char>, i: nat, j: nat)
    requires i <= j <= |line|
    requires forall k :: i <= k < j ==> IsDigit(line[k])
    requires !IsDigit(At(line, j))
    ensures DigitsEnd(line, i) == j
    decreases j - i
  {
    if i < j {
      DigitsEndAt(line, i + 1, j);
    }
  }

  /** The decimal text of a natural is one word: it ends where the digits do. */
  lemma WordEndOfDecimal(line: seq<char>, i: nat, n: nat)
    requires i + |Decimal(n)| <= |line|
    requires line[i..i + |Decimal(n)|] == Decimal(n)
    requires !WordCharAt(line, i + |Decimal(n)|)
    ensures WordEnd(line, i) == i + |Decimal(n)|
  {
    var j := i + |Decimal(n)|;
    forall k | i <= k < j
      ensures WordCharAt(line, k)
    {
      assert line[k] == Decimal(n)[k - i];
    }
    WordEndAt(line, i, j);
  }

  lemma {:induction false} WordEndAt(line: seq<char>, i: nat, j: nat)
    requires i <= j
    requires forall k :: i <= k < j ==> WordCharAt(line, k)
    requires !WordCharAt(line, j)
    ensures WordEnd(line, i) == j
    decreases j - i
  {
    if i < j {
      WordEndAt(line, i + 1, j);
    }
  }

  // ---------------------------------------------------------------------
  // The AVB tester console

  /** The commands the AVB tester console sends to the target. */
  datatype TesterCommand =
    | ExpectNormal | ExpectOversubscribed
    | XscopePacketsEnable | XscopePacketsDisable
    | PrintDebugEnable | PrintDebugDisable

  datatype AvbAction = Quit | AvbHelp | Send(command: TesterCommand) | AvbUnrecognised

  /** What the AVB tester does with a console line: `e`, `x` and `d` each
      pick one of two commands by the next non-space character, the other
      letters quit, print help or complain. */
  function AvbCommand(line: seq<char>): (a: AvbAction)
    ensures a.Send? <==> At(line, 0) in {'e', 'x', 'd'}
    ensures a == Send(ExpectOversubscribed) <==> At(line, 0) == 'e' && NextChar(line, 1) == 'o'
    ensures a == Send(ExpectNormal) <==> At(line, 0) == 'e' && NextChar(line, 1) != 'o'
    ensures a == Send(XscopePacketsEnable) <==> At(line, 0) == 'x' && NextChar(line, 1) == 'e'
    ensures a == Send(XscopePacketsDisable) <==> At(line, 0) == 'x' && NextChar(line, 1) != 'e'
    ensures a == Send(PrintDebugEnable) <==> At(line, 0) == 'd' && NextChar(line, 1) == 'e'
    ensures a == Send(PrintDebugDisable) <==> At(line, 0) == 'd' && NextChar(line, 1) != 'e'
    ensures a == Quit <==> At(line, 0) == 'q'
    ensures a == AvbHelp <==> At(line, 0) in {'h', '?'}
    ensures a == AvbUnrecognised <==> At(line, 0) !in {'q', 'e', 'x', 'd', 'h', '?'}
  {
    var option := NextChar(line, 1);
    match At(line, 0)
    case 'q' => Quit
    case 'e' => Send(if option == 'o' then ExpectOversubscribed else ExpectNormal)
    case 'x' => Send(if option == 'e' then XscopePacketsEnable else XscopePacketsDisable)
    case 'd' => Send(if option == 'e' then PrintDebugEnable else PrintDebugDisable)
    case 'h' => AvbHelp
    case '?' => AvbHelp
    case _ => AvbUnrecognised
  }

  /** The shortest line that selects each command. */
  function CommandLine(c: TesterCommand): seq<char>
  {
    match c
    case ExpectNormal => "e n"
    case ExpectOversubscribed => "e o"
    case XscopePacketsEnable => "x e"
    case XscopePacketsDisable => "x d"
    case PrintDebugEnable => "d e"
    case PrintDebugDisable => "d d"
  }

  /** Every command is reachable: its line, with any whitespace between the
      letters, selects exactly it. */
  lemma CommandLineSelects(c: TesterCommand, spaces: seq<char>)
    requires forall k :: 0 <= k < |spaces| ==> spaces[k] != NUL && IsSpace(spaces[k])
    ensures var text := CommandLine(c);
            AvbCommand([text[0]] + spaces + [text[2]]) == Send(c)
  {
    var text := CommandLine(c);
    var line := [text[0]] + spaces + [text[2]];
    NextCharAfterSpaces(spaces, text[2], []);
    assert line[1..] == spaces + [text[2]] + [];
    NextCharFrom(line, 1);
  }

  /** Reading from position 1 of a line is reading its tail from 0. */
  lemma NextCharFrom(line: seq<char>, i: nat)
    requires i <= |line|
    ensures NextChar(line, i) == NextChar(line[i..], 0)
  {
    SkipFrom(line, i, i);
  }

  lemma {:induction false} SkipFrom(line: seq<char>, i: nat, p: nat)
    requires i <= p
    requires i <= |line|
    ensures SkipSpaces(line, p) == i + SkipSpaces(line[i..], p - i)
    decreases |line| - p
  {
    assert At(line, p) == At(line[i..], p - i);
    if SpaceAt(line, p) {
      SkipFrom(line, i, p + 1);
    }
  }

  // ---------------------------------------------------------------------
  // The traffic generator controller console

  /** The fields of a `c <type> <weight> <min> <max>` command as the
      validator reads them. */
  datatype PacketControl = PacketControl(packetType: char, weight: int, minSize: int, maxSize: int)

  /** The fields of a `g <type> <weight> <rate>` command. */
  datatype GenerationControl = GenerationControl(packetType: char, weight: int, lineRate: int)

  predicate IsPacketType(c: char)
  {
    c == 'u' || c == 'm' || c == 'b'
  }

  /** The field after the one at `index`: `index` moves past the counted
      characters and one separator. */
  function NextField(line: seq<char>, index: nat): nat
  {
    WordEnd(line, index) + 1
  }

  /** The fields a packet-control line yields, read the way
      `validate_pkt_ctrl_setting` advances its index. */
  function ParsePacketControl(line: seq<char>): PacketControl
  {
    var i1 := NextField(line, 2);
    var i2 := NextField(line, i1);
    var i3 := NextField(line, i2);
    PacketControl(NextChar(line, 2), Atoi(line, i1), Atoi(line, i2), Atoi(line, i3))
  }

  function ParseGenerationControl(line: seq<char>): GenerationControl
  {
    var i1 := NextField(line, 2);
    var i2 := NextField(line, i1);
    GenerationControl(NextChar(line, 2), Atoi(line, i1), Atoi(line, i2))
  }

  /** The ranges the packet-control validator accepts; the weight limit is
      100 although the message says 99. */
  predicate PacketControlValid(p: PacketControl)
  {
    && IsPacketType(p.packetType)
    && 1 <= p.weight <= 100
    && 1 <= p.minSize <= 1500
    && 1 <= p.maxSize <= 1500
    && p.minSize <= p.maxSize
  }

  predicate GenerationControlValid(g: GenerationControl)
  {
    && IsPacketType(g.packetType)
    && 1 <= g.weight <= 100
    && 1 <= g.lineRate <= 100
  }

  /** The canonical text of a packet-control command. */
  function PacketControlLine(t: char, weight: nat, minSize: nat, maxSize: nat): seq<char>
  {
    "c " + [t] + " " + Decimal(weight) + " " + Decimal(minSize) + " " + Decimal(maxSize)
  }

  function GenerationControlLine(t: char, weight: nat, rate: nat): seq<char>
  {
    "g " + [t] + " " + Decimal(weight) + " " + Decimal(rate)
  }

  /** A decimal field followed by a separator or the end of the line. */
  lemma FieldAt(line: seq<char>, i: nat, n: nat)
    requires i + |Decimal(n)| <= |line|
    requires line[i..i + |Decimal(n)|] == Decimal(n)
    requires i + |Decimal(n)| == |line| || line[i + |Decimal(n)|] == ' '
    ensures Atoi(line, i) == n
    ensures NextField(line, i) == i + |Decimal(n)| + 1
  {
    AtoiOfDecimal(line, i, n);
    WordEndOfDecimal(line, i, n);
  }

  /** The same, for a line built as text, the field, and text that is empty
      or starts with a space. */
  lemma FieldIn(line: seq<char>, before: seq<char>, n: nat, after: seq<char>)
    requires line == before + Decimal(n) + after
    requires after == [] || after[0] == ' '
    ensures Atoi(line, |before|) == n
    ensures NextField(line, |before|) == |before| + |Decimal(n)| + 1
  {
    var i := |before|;
    assert line[i..i + |Decimal(n)|] == Decimal(n);
    assert after != [] ==> line[i + |Decimal(n)|] == after[0];
    FieldAt(line, i, n);
  }

  /** The packet type at index 2 is read as one character. */
  lemma TypeAt(line: seq<char>, t: char)
    requires |line| >= 4 && line[2] == t && line[3] == ' '
    requires t != NUL && !IsSpace(t)
    ensures NextChar(line, 2) == t
    ensures NextField(line, 2) == 4
  {
    assert WordCharAt(line, 2) && !WordCharAt(line, 3);
    WordEndAt(line, 2, 3);
  }

  /** Parsing the canonical text of a packet-control command gives back its
      fields. */
  lemma PacketControlRoundTrip(t: char, weight: nat, minSize: nat, maxSize: nat)
    requires t != NUL && !IsSpace(t)
    ensures ParsePacketControl(PacketControlLine(t, weight, minSize, maxSize))
            == PacketControl(t, weight, minSize, maxSize)
  {
    var w, a, b := Decimal(weight), Decimal(minSize), Decimal(maxSize);
    var line := PacketControlLine(t, weight, minSize, maxSize);
    var p1 := "c " + [t] + " ";
    var p2 := p1 + w + " ";
    var p3 := p2 + a + " ";
    assert line == p3 + b;
    TypeAt(line, t);
    FieldIn(line, p1, weight, " " + a + " " + b);
    FieldIn(line, p2, minSize, " " + b);
    FieldIn(line, p3, maxSize, []);
    var i1 := NextField(line, 2);
    var i2 := NextField(line, i1);
    assert i1 == |p1| && i2 == |p2| && NextField(line, i2) == |p3|;
  }

  lemma GenerationControlRoundTrip(t: char, weight: nat, rate: nat)
    requires t != NUL && !IsSpace(t)
    ensures ParseGenerationControl(GenerationControlLine(t, weight, rate))
            == GenerationControl(t, weight, rate)
  {
    var w, r := Decimal(weight), Decimal(rate);
    var line := GenerationControlLine(t, weight, rate);
    var p1 := "g " + [t] + " ";
    var p2 := p1 + w + " ";
    assert line == p2 + r;
    TypeAt(line, t);
    FieldIn(line, p1, weight, " " + r);
    FieldIn(line, p2, rate, []);
    assert NextField(line, 2) == |p1| && NextField(line, |p1|) == |p2|;
  }

  /** Because a field's length is counted from its own start, a second
      space in front of the weight makes the index land on the weight again:
      the weight is read twice and the sizes shift by one field. */
  lemma DoubleSpaceRereadsWeight(t: char, weight: nat, minSize: nat, maxSize: nat)
    requires t != NUL && !IsSpace(t)
    ensures var line := "c " + [t] + "  " + Decimal(weight) + " " + Decimal(minSize) + " " + Decimal(maxSize);
            ParsePacketControl(line) == PacketControl(t, weight, weight, minSize)
  {
    var w, a, b := Decimal(weight), Decimal(minSize), Decimal(maxSize);
    var line := "c " + [t] + "  " + w + " " + a + " " + b;
    var p1 := "c " + [t] + "  ";
    var p2 := p1 + w + " ";
    Associative(p2 + a, " ", b);
    Associative(p2, a, " " + b);
    Associative(p1 + w, " ", a + (" " + b));
    TypeAt(line, t);
    // The weight field starts on the second space: no character is counted.
    assert line[4] == p1[4] == ' ';
    assert !WordCharAt(line, 4) && WordEnd(line, 4) == 4;
    FieldIn(line, p1, weight, " " + (a + (" " + b)));
    assert SpaceAt(line, 4) && SkipSpaces(line, 4) == SkipSpaces(line, 5);
    AtoiSkipsSpaces(line, 4);
    AtoiSkipsSpaces(line, 5);
    FieldIn(line, p2, minSize, " " + b);
    assert NextField(line, 2) == 4 && NextField(line, 4) == |p1| && NextField(line, |p1|) == |p2|;
  }

  lemma Associative<T>(x: seq<T>, y: seq<T>, z: seq<T>)
    ensures x + y + z == x + (y + z)
  {
  }

  /** The letters of the traffic generator console, as its usage text
      lists them. */
  const SET_GENERATOR_MODE: char := 'm'
  const PKT_CONTROL: char := 'c'
  const PKT_GENERATION_CONTROL: char := 'g'
  const PRINT_PKT_CONFIGURATION: char := 'p'
  const END_OF_CMD: char := 'e'

  datatype TrafficAction =
    | Upload(bytes: seq<char>)   // the bytes handed to the upload request
    | Rejected                   // a validator refused the line
    | Exit
    | Help
    | Unrecognised

  /** The zero-filled line buffer's first `n` characters. */
  function BufferPrefix(line: seq<char>, n: nat): (r: seq<char>)
    ensures |r| == n
    ensures forall k :: 0 <= k < n ==> r[k] == At(line, k)
  {
    seq(n, k requires 0 <= k < n => At(line, k))
  }

  /** The controller's state: the generator mode it believes the target is
      in, silent at start. */
  class TrafficGenController {
    var generatorMode: char

    constructor ()
      ensures generatorMode == 's'
    {
      generatorMode := 's';
    }

    /** `validate_directed_mode_setting`. */
    method ValidateDirected() returns (ok: bool)
      ensures ok <==> generatorMode != 'd'
    {
      ok := generatorMode != 'd';
    }

    /** `validate_pkt_ctrl_setting`: rejected in directed mode, otherwise
        accepted exactly when every field is in range. */
    method ValidatePacketControl(line: seq<char>) returns (ok: bool)
      ensures ok <==> generatorMode != 'd' && PacketControlValid(ParsePacketControl(line))
    {
      ok := ValidateDirected();
      if !ok {
        return;
      }
      ghost var fields := ParsePacketControl(line);
      var index := 2;
      var packetType, len := GetNextString(line, 2);
      assert packetType == fields.packetType;
      if packetType != 'u' && packetType != 'm' && packetType != 'b' {
        return false;
      }
      index := index + len + 1;
      ghost var i1 := index;
      assert i1 == NextField(line, 2);
      var weight;
      weight, len := ConvertAtoiSubstr(line, index);
      assert weight == fields.weight;
      if weight <= 0 || weight > 100 {
        return false;
      }
      index := index + len + 1;
      ghost var i2 := index;
      assert i2 == NextField(line, i1);
      var minSize;
      minSize, len := ConvertAtoiSubstr(line, index);
      assert minSize == fields.minSize;
      if minSize <= 0 || minSize > 1500 {
        return false;
      }
      index := index + len + 1;
      assert index == NextField(line, i2);
      var maxSize;
      maxSize, len := ConvertAtoiSubstr(line, index);
      assert maxSize == fields.maxSize;
      if maxSize < 1 || maxSize > 1500 {
        return false;
      }
      if minSize > maxSize {
        return false;
      }
      return true;
    }

    /** `validate_pkt_generation_ctrl_setting`. */
    method ValidateGenerationControl(line: seq<char>) returns (ok: bool)
      ensures ok <==> generatorMode != 'd' && GenerationControlValid(ParseGenerationControl(line))
    {
      ok := ValidateDirected();
      if !ok {
        return;
      }
      ghost var fields := ParseGenerationControl(line);
      var index := 2;
      var packetType, len := GetNextString(line, 2);
      assert packetType == fields.packetType;
      if packetType != 'u' && packetType != 'm' && packetType != 'b' {
        return false;
      }
      index := index + len + 1;
      ghost var i1 := index;
      assert i1 == NextField(line, 2);
      var weight;
      weight, len := ConvertAtoiSubstr(line, index);
      assert weight == fields.weight;
      if weight <= 0 || weight > 100 {
        return false;
      }
      index := index + len + 1;
      assert index == NextField(line, i1);
      var rate;
      rate, len := ConvertAtoiSubstr(line, index);
      assert rate == fields.lineRate;
      if rate <= 0 || rate > 100 {
        return false;
      }
      return true;
    }

    /** `validate_mode`: the first non-space character from index 2 must be
        s, r or d, and only then does it become the generator mode. */
    method ValidateMode(line: seq<char>) returns (ok: bool)
      modifies this
      ensures ok <==> NextChar(line, 2) in {'s', 'r', 'd'}
      ensures generatorMode == if ok then NextChar(line, 2) else old(generatorMode)
    {
      var mode := NextChar(line, 2);
      if mode != 's' && mode != 'r' && mode != 'd' {
        return false;
      }
      generatorMode := mode;
      return true;
    }

    /** One pass of the console loop once a line is read: the command letter
        selects a validator and how many buffer bytes are uploaded. */
    method Command(line: seq<char>) returns (action: TrafficAction)
      modifies this
      ensures At(line, 0) != SET_GENERATOR_MODE ==> generatorMode == old(generatorMode)
      ensures At(line, 0) == SET_GENERATOR_MODE ==>
        var mode := NextChar(line, 2);
        && generatorMode == (if mode in {'s', 'r', 'd'} then mode else old(generatorMode))
        && action == if mode in {'s', 'r', 'd'} then Upload(BufferPrefix(line, 3)) else Rejected
      ensures At(line, 0) == PKT_CONTROL ==>
        action == if old(generatorMode) != 'd' && PacketControlValid(ParsePacketControl(line))
                  then Upload(line) else Rejected
      ensures At(line, 0) == PKT_GENERATION_CONTROL ==>
        action == if old(generatorMode) != 'd' && GenerationControlValid(ParseGenerationControl(line))
                  then Upload(line) else Rejected
      ensures At(line, 0) in {PRINT_PKT_CONFIGURATION, END_OF_CMD} ==> action == Upload(BufferPrefix(line, 1))
      ensures At(line, 0) == 'q' ==> action == Exit
      ensures At(line, 0) in {'h', '?'} ==> action == Help
      ensures At(line, 0) !in {SET_GENERATOR_MODE, PKT_CONTROL, PKT_GENERATION_CONTROL, PRINT_PKT_CONFIGURATION, END_OF_CMD, 'q', 'h', '?'} ==>
        action == Unrecognised
    {
      var c := At(line, 0);
      if c == SET_GENERATOR_MODE {
        var ok := ValidateMode(line);
        action := if ok then Upload(BufferPrefix(line, 3)) else Rejected;
      } else if c == PKT_CONTROL {
        var ok := ValidatePacketControl(line);
        action := if ok then Upload(line) else Rejected;
      } else if c == PKT_GENERATION_CONTROL {
        var ok := ValidateGenerationControl(line);
        action := if ok then Upload(line) else Rejected;
      } else if c == PRINT_PKT_CONFIGURATION || c == END_OF_CMD {
        action := Upload(BufferPrefix(line, 1));
      } else if c == 'q' {
        action := Exit;
      } else if c == 'h' || c == '?' {
        action := Help;
      } else {
        action := Unrecognised;
      }
    }
  }
}
