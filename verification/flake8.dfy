/**
 * The flake8 half of the assistant: turning the lines flake8 prints,
 * `path:line[:column]: message`, into warnings and errors, in the order
 * flake8 printed them.
 */
module Flake8 {
  import opened Wrappers
  import opened Text

  /** The two record kinds `run_flake8` produces; both carry the same fields. */
  datatype Alert =
    | LinterWarning(lineno: nat, offset: Option<nat>, message: string)
    | LinterError(lineno: nat, offset: Option<nat>, message: string)

  /**
   * `ERROR_RE.match(msg)`: `E`, the longest run of digits after it, which
   * must not be empty, and a whitespace character right after that run.
   */
  predicate IsErrorMessage(msg: string) {
    0 < |msg| && msg[0] == 'E' &&
    var e := RunEnd(msg, 1, Digit);
    1 < e < |msg| && IsSpace(msg[e])
  }

  /** The pattern's own reading: `E`, one or more digits, then a whitespace character. */
  lemma {:induction false} ErrorMessageShape(msg: string)
    ensures IsErrorMessage(msg) <==>
      0 < |msg| && msg[0] == 'E' &&
      exists k | 1 < k < |msg| :: All(msg[1..k], Digit) && IsSpace(msg[k])
  {
    if 0 < |msg| && msg[0] == 'E' {
      var e := RunEnd(msg, 1, Digit);
      RunEndSpec(msg, 1, Digit);
      if exists k | 1 < k < |msg| :: All(msg[1..k], Digit) && IsSpace(msg[k]) {
        var k :| 1 < k < |msg| && All(msg[1..k], Digit) && IsSpace(msg[k]);
        WordAndSpaceDisjoint(msg[k]);
        RunEndUnique(msg, 1, k, Digit);
      }
    }
  }

  /** A bare code, with nothing after it, is a warning, and so is a message not opening with `E`. */
  lemma BareCodeIsWarning()
    ensures !IsErrorMessage("E501")
    ensures !IsErrorMessage("W291 trailing whitespace")
  {
    ErrorMessageShape("E501");
  }

  /** A code followed by a blank and text is an error. */
  lemma CodeWithTextIsError()
    ensures IsErrorMessage("E501 line too long")
  {
    var m := "E501 line too long";
    SpaceIsSpace();
    assert All(m[1..4], Digit) && IsSpace(m[4]);
    ErrorMessageShape(m);
  }

  /** The record of lines 45-47: an error when the message reads as one, otherwise a warning. */
  function Classify(lineno: nat, offset: Option<nat>, msg: string): (a: Alert)
    ensures a.lineno == lineno && a.offset == offset && a.message == msg
    ensures a.LinterError? <==> IsErrorMessage(msg)
  {
    if IsErrorMessage(msg) then LinterError(lineno, offset, msg)
    else LinterWarning(lineno, offset, msg)
  }

  /**
   * The front of a line FLAKE8_RE accepts: a non-empty run without colons,
   * a colon, one or more digits and a colon.
   */
  ghost predicate HasLinePrefix(l: string) {
    exists i, j | 0 < i && i + 1 < j < |l| ::
      All(l[..i], NotColon) && l[i] == ':' && All(l[i + 1..j], Digit) && l[j] == ':'
  }

  /**
   * What `FLAKE8_RE` reads before the message: the line number, the column
   * when its optional group is taken, and the index where the rest of the
   * line, from which the message is taken, begins.
   */
  datatype Prefix = Prefix(lineno: nat, offset: Option<nat>, rest: nat)

  /**
   * `^[^:]+:(?P<lineno>\d+):(?:(?P<col>\d+):)?` at the front of `l`. The
   * path stops at the first colon and must not be empty. The line number is
   * the whole digit run after it and must be followed by a colon. The column
   * group is taken when a non-empty digit run followed by a colon comes
   * next, and skipped otherwise.
   */
  function ParsePrefix(l: string): (p: Option<Prefix>)
    ensures p.Some? ==> p.value.rest <= |l|
  {
    var i := RunEnd(l, 0, NotColon);
    if !(0 < i < |l|) then None
    else
      var j := RunEnd(l, i + 1, Digit);
      if !(i + 1 < j < |l| && l[j] == ':') then None
      else
        RunEndSpec(l, i + 1, Digit);
        var lineno := DecimalValue(l[i + 1..j]);
        var k := RunEnd(l, j + 1, Digit);
        if j + 1 < k < |l| && l[k] == ':' then
          RunEndSpec(l, j + 1, Digit);
          Some(Prefix(lineno, Some(DecimalValue(l[j + 1..k])), k + 1))
        else
          Some(Prefix(lineno, None, j + 1))
  }

  /**
   * `\s*(?P<msg>.*?)\s*$` on the rest of the line: the message is the rest
   * with whitespace trimmed; `.` does not match a line break, so a message
   * with one inside fails the match.
   */
  function Message(lineno: nat, offset: Option<nat>, rest: string): Option<Alert> {
    var msg := Strip(rest);
    if Occurs('\n', msg) then None else Some(Classify(lineno, offset, msg))
  }

  /** `FLAKE8_RE.match(l)` and the record built from its groups. */
  function ParseLine(l: string): Option<Alert> {
    match ParsePrefix(l)
    case None => None
    case Some(p) => Message(p.lineno, p.offset, l[p.rest..])
  }

  /** What a well-formed record looks like: a trimmed message without line breaks, classified by ERROR_RE. */
  predicate WellFormed(a: Alert) {
    IsTrimmed(a.message) && '\n' !in a.message && (a.LinterError? <==> IsErrorMessage(a.message))
  }

  /**
   * Message succeeds exactly when the trimmed rest holds no line break,
   * and then carries the given fields and the trimmed rest as its message.
   */
  lemma {:induction false} MessageSpec(lineno: nat, offset: Option<nat>, rest: string)
    ensures Message(lineno, offset, rest).Some? <==> '\n' !in Strip(rest)
    ensures Message(lineno, offset, rest).Some? ==>
      var a := Message(lineno, offset, rest).value;
      a.lineno == lineno && a.offset == offset && a.message == Strip(rest) && WellFormed(a)
  {
    StripSpec(rest);
    OccursIsMembership('\n', Strip(rest));
  }

  /** Every record ParseLine produces is well-formed. */
  lemma {:induction false} ParsedMessage(l: string)
    ensures ParseLine(l).Some? ==> WellFormed(ParseLine(l).value)
  {
    var p := ParsePrefix(l);
    if p.Some? {
      MessageSpec(p.value.lineno, p.value.offset, l[p.value.rest..]);
    }
  }

  /** Trimming cannot bring in a line break. */
  lemma {:induction false} NoBreakInStrip(s: string)
    requires '\n' !in s
    ensures '\n' !in Strip(s)
  {
    StripSpec(s);
  }

  /** The front is read exactly when the line opens with a non-empty colon-free path, a colon, digits and a colon. */
  lemma {:induction false} ParsePrefixIff(l: string)
    ensures ParsePrefix(l).Some? <==> HasLinePrefix(l)
  {
    var i := RunEnd(l, 0, NotColon);
    RunEndSpec(l, 0, NotColon);
    if 0 < i < |l| {
      var j := RunEnd(l, i + 1, Digit);
      RunEndSpec(l, i + 1, Digit);
      if i + 1 < j < |l| && l[j] == ':' {
        assert All(l[..i], NotColon) && l[i] == ':' && All(l[i + 1..j], Digit);
      }
    }
    if HasLinePrefix(l) {
      var i', j' :| 0 < i' && i' + 1 < j' < |l| &&
        All(l[..i'], NotColon) && l[i'] == ':' && All(l[i' + 1..j'], Digit) && l[j'] == ':';
      RunEndUnique(l, 0, i', NotColon);
      RunEndUnique(l, i' + 1, j', Digit);
    }
  }

  /** A line yields a record only when it has the prefix shape. */
  lemma {:induction false} ParseLineNeedsPrefix(l: string)
    ensures ParseLine(l).Some? ==> HasLinePrefix(l)
  {
    ParsePrefixIff(l);
  }

  /** Every line with the prefix shape and no line break yields a record. */
  lemma {:induction false} ParseLineAcceptsPrefix(l: string)
    requires HasLinePrefix(l) && '\n' !in l
    ensures ParseLine(l).Some?
  {
    ParsePrefixIff(l);
    var p := ParsePrefix(l).value;
    var rest := l[p.rest..];
    assert '\n' !in rest by {
      forall n | 0 <= n < |rest| ensures rest[n] != '\n' {
        assert rest[n] == l[p.rest + n];
      }
    }
    NoBreakInStrip(rest);
    MessageSpec(p.lineno, p.offset, rest);
  }

  /**
   * `path:line:column:rest`: the line number is the value of the first digit
   * run, the column that of the second, and the message part starts after
   * the third colon.
   */
  lemma {:induction false} PrefixWithColumn(l: string, i: nat, j: nat, k: nat)
    requires 0 < i && i + 1 < j && j + 1 < k < |l|
    requires All(l[..i], NotColon) && l[i] == ':' && All(l[i + 1..j], Digit) && l[j] == ':'
    requires All(l[j + 1..k], Digit) && l[k] == ':'
    ensures ParsePrefix(l) == Some(Prefix(DecimalValue(l[i + 1..j]), Some(DecimalValue(l[j + 1..k])), k + 1))
  {
    RunEndUnique(l, 0, i, NotColon);
    RunEndUnique(l, i + 1, j, Digit);
    RunEndUnique(l, j + 1, k, Digit);
  }

  /**
   * `path:line:tail` where the tail does not open with digits and a colon:
   * there is no column and the message part is the whole tail.
   */
  lemma {:induction false} PrefixWithoutColumn(l: string, i: nat, j: nat)
    requires 0 < i && i + 1 < j < |l|
    requires All(l[..i], NotColon) && l[i] == ':' && All(l[i + 1..j], Digit) && l[j] == ':'
    requires forall e | j + 1 < e < |l| && All(l[j + 1..e], Digit) :: l[e] != ':'
    ensures ParsePrefix(l) == Some(Prefix(DecimalValue(l[i + 1..j]), None, j + 1))
  {
    RunEndUnique(l, 0, i, NotColon);
    RunEndUnique(l, i + 1, j, Digit);
    RunEndSpec(l, j + 1, Digit);
  }

  /** With a column: the record comes from the rest after the third colon, with both numbers read. */
  lemma {:induction false} ParseWithColumn(l: string, i: nat, j: nat, k: nat)
    requires 0 < i && i + 1 < j && j + 1 < k < |l|
    requires All(l[..i], NotColon) && l[i] == ':' && All(l[i + 1..j], Digit) && l[j] == ':'
    requires All(l[j + 1..k], Digit) && l[k] == ':'
    ensures ParseLine(l) == Message(DecimalValue(l[i + 1..j]), Some(DecimalValue(l[j + 1..k])), l[k + 1..])
  {
    PrefixWithColumn(l, i, j, k);
  }

  /** Without a column: the offset is `None` and the record comes from the whole tail after the line number. */
  lemma {:induction false} ParseWithoutColumn(l: string, i: nat, j: nat)
    requires 0 < i && i + 1 < j < |l|
    requires All(l[..i], NotColon) && l[i] == ':' && All(l[i + 1..j], Digit) && l[j] == ':'
    requires forall e | j + 1 < e < |l| && All(l[j + 1..e], Digit) :: l[e] != ':'
    ensures ParseLine(l) == Message(DecimalValue(l[i + 1..j]), None, l[j + 1..])
  {
    PrefixWithoutColumn(l, i, j);
  }

  /** A message surrounded by whitespace and free of line breaks is taken as it stands. */
  lemma {:induction false} MessageBetweenBlanks(lineno: nat, offset: Option<nat>, before: string, msg: string, after: string)
    requires All(before, Space) && All(after, Space) && IsTrimmed(msg) && '\n' !in msg
    ensures Message(lineno, offset, before + msg + after) == Some(Classify(lineno, offset, msg))
  {
    StripSurrounded(before, msg, after);
    OccursIsMembership('\n', msg);
  }

  // The worked examples below take the line as a parameter fixed by
  // `requires l == "..."` rather than writing the literal into the `ensures`:
  // given a literal, the verifier unrolls the parser over every character of
  // it at once, while a parameter lets each step be proved on its own.

  /** The message part of `a.py:3: W6 x`: the leading blank is dropped and the text is a warning. */
  lemma MessageWithoutColumn()
    ensures Message(3, None, " W6 x") == Some(LinterWarning(3, None, "W6 x"))
  {
    SpaceIsSpace();
    WordAndSpaceDisjoint('W');
    WordAndSpaceDisjoint('x');
    assert " W6 x" == " " + "W6 x" + "";
    MessageBetweenBlanks(3, None, " ", "W6 x", "");
  }

  /** `a.py:3: W6 x` has line 3, no column, and its message part starts at index 7. */
  lemma {:induction false} PrefixWithoutColumnExample(l: string)
    requires l == "a.py:3: W6 x"
    ensures ParsePrefix(l) == Some(Prefix(3, None, 7))
  {
    assert l[0] == 'a' && l[1] == '.' && l[2] == 'p' && l[3] == 'y';
    assert l[4] == ':' && l[5] == '3' && l[6] == ':' && l[7] == ' ';
    assert All(l[..4], NotColon);
    RunEndUnique(l, 0, 4, NotColon);
    assert l[5..6][0] == '3';
    SingleDigit(l[5..6]);
    RunEndUnique(l, 5, 6, Digit);
    RunEndUnique(l, 7, 7, Digit);
  }

  /** A line without a column: the offset is `None` and the message is what follows the line number, trimmed. */
  lemma {:induction false} ExampleWithoutColumn(l: string)
    requires l == "a.py:3: W6 x"
    ensures ParseLine(l) == Some(LinterWarning(3, None, "W6 x"))
  {
    PrefixWithoutColumnExample(l);
    assert l[7..] == " W6 x";
    MessageWithoutColumn();
  }

  /** A line opening with `a.py:3:5:` has line 3, column 5, and its message part starts at index 9. */
  lemma {:induction false} PrefixWithColumnExample(l: string)
    requires 9 <= |l| && l[..9] == "a.py:3:5:"
    ensures ParsePrefix(l) == Some(Prefix(3, Some(5), 9))
  {
    assert l[0] == 'a' && l[1] == '.' && l[2] == 'p' && l[3] == 'y';
    assert l[4] == ':' && l[5] == '3' && l[6] == ':' && l[7] == '5' && l[8] == ':';
    assert All(l[..4], NotColon);
    RunEndUnique(l, 0, 4, NotColon);
    assert l[5..6][0] == '3';
    SingleDigit(l[5..6]);
    RunEndUnique(l, 5, 6, Digit);
    assert l[7..8][0] == '5';
    SingleDigit(l[7..8]);
    RunEndUnique(l, 7, 8, Digit);
  }

  /** The message part of `a.py:3:5: E501`: a bare code, with nothing after it, is a warning. */
  lemma MessageBareCode()
    ensures Message(3, Some(5), " E501") == Some(LinterWarning(3, Some(5), "E501"))
  {
    SpaceIsSpace();
    WordAndSpaceDisjoint('E');
    WordAndSpaceDisjoint('1');
    assert " E501" == " " + "E501" + "";
    MessageBetweenBlanks(3, Some(5), " ", "E501", "");
    BareCodeIsWarning();
  }

  /** A bare error code with nothing after it is classified as a warning. */
  lemma {:induction false} ExampleBareCode(l: string)
    requires l == "a.py:3:5: E501"
    ensures ParseLine(l) == Some(LinterWarning(3, Some(5), "E501"))
  {
    PrefixWithColumnExample(l);
    assert l[9..] == " E501";
    MessageBareCode();
  }

  /** The message part of `a.py:3:5: E501 line too long `: trimmed at both ends, and an error. */
  lemma MessageError()
    ensures Message(3, Some(5), " E501 line too long ") == Some(LinterError(3, Some(5), "E501 line too long"))
  {
    SpaceIsSpace();
    WordAndSpaceDisjoint('E');
    WordAndSpaceDisjoint('g');
    assert " E501 line too long " == " " + "E501 line too long" + " ";
    MessageBetweenBlanks(3, Some(5), " ", "E501 line too long", " ");
    CodeWithTextIsError();
  }

  /** A column and an error code followed by text; the trailing blank is dropped. */
  lemma {:induction false} ExampleError(l: string)
    requires l == "a.py:3:5: E501 line too long "
    ensures ParseLine(l) == Some(LinterError(3, Some(5), "E501 line too long"))
  {
    PrefixWithColumnExample(l);
    assert l[9..] == " E501 line too long ";
    MessageError();
  }

  /** A line that opens with a colon has an empty path and gives no record. */
  lemma {:induction false} ExampleEmptyPath(l: string)
    requires l == ":3: W6 x"
    ensures ParseLine(l) == None
  {
    assert l[0] == ':';
    RunEndUnique(l, 0, 0, NotColon);
  }

  /** A line whose line number is not made of digits gives no record. */
  lemma {:induction false} ExampleNoLineNumber(l: string)
    requires l == "a.py:x: W6 x"
    ensures ParseLine(l) == None
  {
    assert l[0] == 'a' && l[1] == '.' && l[2] == 'p' && l[3] == 'y' && l[4] == ':' && l[5] == 'x';
    assert All(l[..4], NotColon);
    RunEndUnique(l, 0, 4, NotColon);
    RunEndUnique(l, 5, 5, Digit);
  }

  /** The records of one line: none or one. */
  function LineAlerts(l: string): seq<Alert> {
    match ParseLine(l)
    case Some(a) => [a]
    case None => []
  }

  /** The records of every line, in line order; at most one per line. */
  function ParseAll(lines: seq<string>): (alerts: seq<Alert>)
    ensures |alerts| <= |lines|
  {
    if lines == [] then []
    else ParseAll(lines[..|lines| - 1]) + LineAlerts(lines[|lines| - 1])
  }

  /** Parsing two runs of lines one after the other gives their records one after the other. */
  lemma {:induction false} ParseAllAppend(xs: seq<string>, ys: seq<string>)
    ensures ParseAll(xs + ys) == ParseAll(xs) + ParseAll(ys)
    decreases |ys|
  {
    if ys == [] {
      assert xs + ys == xs;
    } else {
      var init := ys[..|ys| - 1];
      assert (xs + ys)[..|xs + ys| - 1] == xs + init;
      assert (xs + ys)[|xs + ys| - 1] == ys[|ys| - 1];
      ParseAllAppend(xs, init);
    }
  }

  /** Every record in the result comes from some line. */
  lemma {:induction false} ParseAllSource(lines: seq<string>, a: Alert) returns (n: nat)
    requires a in ParseAll(lines)
    ensures n < |lines| && ParseLine(lines[n]) == Some(a)
  {
    var init := lines[..|lines| - 1];
    var last := lines[|lines| - 1];
    assert ParseAll(lines) == ParseAll(init) + LineAlerts(last);
    if a in ParseAll(init) {
      n := ParseAllSource(init, a);
      assert lines[n] == init[n];
    } else {
      n := |lines| - 1;
      assert a in LineAlerts(last);
    }
  }

  /** Every line that parses contributes its record, after the records of all earlier lines. */
  lemma {:induction false} ParseAllContains(lines: seq<string>, n: nat, a: Alert)
    requires n < |lines| && ParseLine(lines[n]) == Some(a)
    ensures ParseAll(lines) == ParseAll(lines[..n]) + [a] + ParseAll(lines[n + 1..])
  {
    assert ParseAll(lines[..n + 1]) == ParseAll(lines[..n]) + [a] by {
      assert lines[..n + 1][..n] == lines[..n];
    }
    assert ParseAll(lines) == ParseAll(lines[..n + 1]) + ParseAll(lines[n + 1..]) by {
      assert lines == lines[..n + 1] + lines[n + 1..];
      ParseAllAppend(lines[..n + 1], lines[n + 1..]);
    }
  }

  /** The loop of `run_flake8`: one record per matching line, appended in line order. */
  method ParseFlake8Output(output: seq<string>) returns (messages: seq<Alert>)
    ensures messages == ParseAll(output)
  {
    messages := [];
    for n := 0 to |output|
      invariant messages == ParseAll(output[..n])
    {
      assert output[..n + 1][..n] == output[..n];
      var mo := ParseLine(output[n]);
      if mo.Some? {
        messages := messages + [mo.value];
      }
    }
    assert output[..|output|] == output;
  }
}
