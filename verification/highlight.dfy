/**
 * Where the assistant underlines an alert in the editor: the whole line
 * when the alert has no column, otherwise the token that starts at the
 * column, as `updateAlertsView` finds it with one regular expression.
 */
module Highlight {
  import opened Wrappers
  import opened Text
  import opened Flake8

  /**
   * Python's `s[start:]`: a negative start counts from the end (and is
   * clamped at the front), a start past the end gives the empty string.
   */
  function SliceFrom(s: string, start: int): string {
    if start < 0 then (if |s| + start >= 0 then s[|s| + start..] else s)
    else if start <= |s| then s[start..]
    else []
  }

  /**
   * A slice is always a suffix of the text: from a start within the text,
   * everything from there on; past the end, nothing; from a negative start,
   * that many characters from the end, or the whole text when it is shorter.
   */
  lemma {:induction false} SliceFromSuffix(s: string, start: int)
    ensures var r := SliceFrom(s, start);
      |r| <= |s| && r == s[|s| - |r|..] &&
      |r| == (if start >= 0 then (if start <= |s| then |s| - start else 0)
              else (if -start <= |s| then -start else |s|))
  {
  }

  /**
   * The end of `re.match(r'\w+|\s+|[<=>]=|\*\*|\W', s)`, or `None` when it
   * fails. The alternatives are tried in order: a word, a whitespace run, a
   * two-character comparison, the power operator, and one character that
   * is not a word character.
   */
  function MatchToken(s: string): (m: Option<nat>)
    ensures m.None? <==> s == []
    ensures m.Some? ==> 0 < m.value <= |s|
  {
    if s == [] then None
    else if IsWordChar(s[0]) then Some(RunEnd(s, 0, Word))
    else if IsSpace(s[0]) then Some(RunEnd(s, 0, Space))
    else if 2 <= |s| && s[0] in "<=>" && s[1] == '=' then Some(2)
    else if 2 <= |s| && s[0] == '*' && s[1] == '*' then Some(2)
    else Some(1)
  }

  /** A word character starts a token that runs to the end of the word. */
  lemma {:induction false} MatchWord(s: string)
    requires 0 < |s| && IsWordChar(s[0])
    ensures MatchToken(s).Some?
    ensures var k := MatchToken(s).value;
      All(s[..k], Word) && (k == |s| || !IsWordChar(s[k]))
  {
    RunEndSpec(s, 0, Word);
  }

  /** Whitespace starts a token that runs to the end of the whitespace. */
  lemma {:induction false} MatchSpace(s: string)
    requires 0 < |s| && IsSpace(s[0])
    ensures MatchToken(s).Some?
    ensures var k := MatchToken(s).value;
      All(s[..k], Space) && (k == |s| || !IsSpace(s[k]))
  {
    WordAndSpaceDisjoint(s[0]);
    RunEndSpec(s, 0, Space);
  }

  /** `<=`, `==`, `>=` and `**` are taken as two-character tokens. */
  lemma {:induction false} MatchOperator(s: string)
    requires 2 <= |s| && s[0] in "<=>*" && s[1] == (if s[0] == '*' then '*' else '=')
    ensures MatchToken(s) == Some(2)
  {
    OccursIsMembership(s[0], SpaceChars);
  }

  /** Any other character is a token by itself. */
  lemma {:induction false} MatchOther(s: string)
    requires 0 < |s| && !IsWordChar(s[0]) && !IsSpace(s[0])
    requires |s| < 2 || !(s[0] in "<=>*" && s[1] == (if s[0] == '*' then '*' else '='))
    ensures MatchToken(s) == Some(1)
  {
  }

  /** The stretch of a line to underline: from `start` up to, not including, `end`. */
  datatype Span = Span(start: int, end: int)

  /**
   * The span `updateAlertsView` underlines for an alert on `line`: the whole
   * line without a column; otherwise the token at the one-based column,
   * or up to the end of the line when nothing matches there. An empty span
   * is widened to start at the front of the line.
   */
  function HighlightSpan(line: string, offset: Option<nat>): (sp: Span)
    ensures offset.None? ==> sp == Span(0, |line|)
    ensures offset.Some? && 1 <= offset.value <= |line| ==>
      sp.start == offset.value - 1 < sp.end <= |line|
    ensures offset == Some(0) ==> sp == Span(-1, 0)
    ensures offset == Some(|line| + 1) ==> sp == Span(0, |line|)
    ensures offset.Some? && offset.value > |line| + 1 ==> sp == Span(offset.value - 1, |line|)
  {
    match offset
    case None => Span(0, |line|)
    case Some(c) =>
      var startpos := c - 1;
      var rest := SliceFrom(line, startpos);
      var endpos := match MatchToken(rest)
        case Some(k) => startpos + k
        case None => |line|;
      if startpos == endpos then Span(0, endpos) else Span(startpos, endpos)
  }

  /** The span at a column inside the line covers exactly the token that starts there. */
  lemma {:induction false} SpanIsToken(line: string, c: nat)
    requires 1 <= c <= |line|
    ensures HighlightSpan(line, Some(c)) ==
      Span(c - 1, c - 1 + MatchToken(line[c - 1..]).value)
  {
  }

  /** A column on a word underlines the rest of that word and nothing after it. */
  lemma {:induction false} HighlightWord(line: string, c: nat)
    requires 1 <= c <= |line| && IsWordChar(line[c - 1])
    ensures var sp := HighlightSpan(line, Some(c));
      All(line[sp.start..sp.end], Word) && (sp.end == |line| || !IsWordChar(line[sp.end]))
  {
    SpanIsToken(line, c);
    var s := line[c - 1..];
    MatchWord(s);
    var k := MatchToken(s).value;
    assert line[c - 1..c - 1 + k] == s[..k];
  }

  /**
   * The text of the editor's line with zero-based number `n`, end-of-line
   * characters included; an editor gives an empty text for a line it does not have.
   */
  function LineText(lines: seq<string>, n: int): string {
    if 0 <= n < |lines| then lines[n] else []
  }

  /** An underline the editor draws: a zero-based line and a span on it. */
  datatype Indicator = Indicator(line: int, span: Span)

  /** The underline for one alert: its line, counted from zero, and the span on that line's text. */
  function IndicatorFor(lines: seq<string>, a: Alert): (ind: Indicator)
    ensures ind.line == a.lineno - 1
    ensures a.offset.None? ==> ind.span == Span(0, |LineText(lines, a.lineno - 1)|)
  {
    var line := a.lineno - 1;
    Indicator(line, HighlightSpan(LineText(lines, line), a.offset))
  }

  /** The loop of `updateAlertsView`: one underline per alert, in the order of the alerts. */
  method MarkAlerts(lines: seq<string>, alerts: seq<Alert>) returns (marks: seq<Indicator>)
    ensures |marks| == |alerts|
    ensures forall n | 0 <= n < |alerts| :: marks[n] == IndicatorFor(lines, alerts[n])
  {
    marks := [];
    for n := 0 to |alerts|
      invariant |marks| == n
      invariant forall m | 0 <= m < n :: marks[m] == IndicatorFor(lines, alerts[m])
    {
      var a := alerts[n];
      var lineno := a.lineno - 1;
      var line := LineText(lines, lineno);
      var span := HighlightSpan(line, a.offset);
      assert Indicator(lineno, span) == IndicatorFor(lines, a);
      marks := marks + [Indicator(lineno, span)];
    }
  }
}
