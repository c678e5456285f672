/**
 * Character classes of Python's `re` module as the two patterns of the
 * assistant use them, runs of characters of one class, whitespace
 * trimming and decimal numerals.
 */
module Text {

  /** `\d`: a decimal digit (ASCII digits only, see README). */
  predicate IsDigit(c: char) {
    '0' <= c <= '9'
  }

  /** `\w`: a word character (ASCII letters, digits and underscore, see README). */
  predicate IsWordChar(c: char) {
    'a' <= c <= 'z' || 'A' <= c <= 'Z' || IsDigit(c) || c == '_'
  }

  /** The characters for which Python's `str.isspace` holds, which is what `\s` matches. */
  const SpaceChars: string :=
    "\t\n\U{b}\U{c}\r\U{1c}\U{1d}\U{1e}\U{1f} \U{85}\U{a0}\U{1680}" +
    "\U{2000}\U{2001}\U{2002}\U{2003}\U{2004}\U{2005}\U{2006}\U{2007}\U{2008}\U{2009}\U{200a}" +
    "\U{2028}\U{2029}\U{202f}\U{205f}\U{3000}"

  /**
   * `c` occurs in `table`, searched from the front. Written as a recursive
   * search so that the verifier looks into the table only when a proof needs it.
   */
  predicate Occurs(c: char, table: string) {
    0 < |table| && (table[0] == c || Occurs(c, table[1..]))
  }

  lemma {:induction false} OccursIsMembership(c: char, table: string)
    ensures Occurs(c, table) <==> c in table
  {
    if 0 < |table| {
      OccursIsMembership(c, table[1..]);
      assert table == [table[0]] + table[1..];
    }
  }

  /** `\s`: a whitespace character. */
  predicate IsSpace(c: char) {
    Occurs(c, SpaceChars)
  }

  /** The character classes the patterns repeat: `\d`, `\w`, `\s` and `[^:]`. */
  datatype CharClass = Digit | Word | Space | NotColon

  predicate In(c: char, k: CharClass) {
    match k
    case Digit => IsDigit(c)
    case Word => IsWordChar(c)
    case Space => IsSpace(c)
    case NotColon => c != ':'
  }

  /** No word character, and so no digit, is whitespace. */
  lemma {:induction false} WordAndSpaceDisjoint(c: char)
    ensures !(IsWordChar(c) && IsSpace(c))
    ensures IsDigit(c) ==> IsWordChar(c) && !IsSpace(c)
  {
    OccursIsMembership(c, SpaceChars);
  }

  /** The blank is whitespace. */
  lemma SpaceIsSpace()
    ensures IsSpace(' ')
  {
    OccursIsMembership(' ', SpaceChars);
    assert SpaceChars[9] == ' ';
  }

  /** Every character of `s` belongs to the class. */
  predicate All(s: string, k: CharClass) {
    forall i | 0 <= i < |s| :: In(s[i], k)
  }

  /**
   * The end of the longest run of characters of class `k` that starts at
   * `from`: what a greedy `X+` or `X*` consumes there. RunEndSpec says so.
   */
  function RunEnd(s: string, from: nat, k: CharClass): (e: nat)
    requires from <= |s|
    ensures from <= e <= |s|
    decreases |s| - from
  {
    if from < |s| && In(s[from], k) then RunEnd(s, from + 1, k) else from
  }

  /** RunEnd stops at the first character outside the class, and only there. */
  lemma {:induction false} RunEndSpec(s: string, from: nat, k: CharClass)
    requires from <= |s|
    ensures All(s[from..RunEnd(s, from, k)], k)
    ensures RunEnd(s, from, k) == |s| || !In(s[RunEnd(s, from, k)], k)
    decreases |s| - from
  {
    if from < |s| && In(s[from], k) {
      RunEndSpec(s, from + 1, k);
      var e := RunEnd(s, from, k);
      assert s[from..e] == [s[from]] + s[from + 1..e];
    }
  }

  /** A run that is all of the class and stops at a character outside it is the one RunEnd finds. */
  lemma {:induction false} RunEndUnique(s: string, from: nat, e: nat, k: CharClass)
    requires from <= e <= |s|
    requires All(s[from..e], k)
    requires e == |s| || !In(s[e], k)
    ensures RunEnd(s, from, k) == e
    decreases e - from
  {
    if from < e {
      assert In(s[from..e][0], k);
      assert s[from + 1..e] == s[from..e][1..];
      RunEndUnique(s, from + 1, e, k);
    }
  }

  /** A text with no whitespace at either end. */
  predicate IsTrimmed(m: string) {
    |m| > 0 ==> !IsSpace(m[0]) && !IsSpace(m[|m| - 1])
  }

  /** The text without its leading whitespace: what a greedy leading `\s*` skips. */
  function StripFront(s: string): (r: string)
    ensures |r| <= |s|
  {
    if 0 < |s| && IsSpace(s[0]) then StripFront(s[1..]) else s
  }

  /** The text without its trailing whitespace: what a lazy `.*?` before `\s*$` leaves. */
  function StripBack(s: string): (r: string)
    ensures |r| <= |s|
  {
    if 0 < |s| && IsSpace(s[|s| - 1]) then StripBack(s[..|s| - 1]) else s
  }

  /**
   * What `\s*(.*?)\s*$` leaves in its middle group: the text with all
   * leading and trailing whitespace removed. StripSpec says so.
   */
  function Strip(s: string): (r: string)
    ensures |r| <= |s|
  {
    StripBack(StripFront(s))
  }

  /** StripFront drops the longest whitespace prefix and nothing else. */
  lemma {:induction false} StripFrontSpec(s: string)
    ensures var a := |s| - |StripFront(s)|;
      StripFront(s) == s[a..] && All(s[..a], Space) && (a == |s| || !IsSpace(s[a]))
  {
    if 0 < |s| && IsSpace(s[0]) {
      StripFrontSpec(s[1..]);
      var a := |s| - |StripFront(s)|;
      assert s[..a] == [s[0]] + s[1..][..a - 1];
    }
  }

  /** StripBack drops the longest whitespace suffix and nothing else. */
  lemma {:induction false} StripBackSpec(s: string)
    ensures var b := |StripBack(s)|;
      StripBack(s) == s[..b] && All(s[b..], Space) && (b == 0 || !IsSpace(s[b - 1]))
  {
    if 0 < |s| && IsSpace(s[|s| - 1]) {
      var init := s[..|s| - 1];
      StripBackSpec(init);
      var b := |StripBack(s)|;
      assert s[b..] == init[b..] + [s[|s| - 1]];
    }
  }

  /** Strip keeps a trimmed middle part of the text and drops only whitespace around it. */
  lemma {:induction false} StripSpec(s: string)
    ensures IsTrimmed(Strip(s))
    ensures var a := |s| - |StripFront(s)|;
      a + |Strip(s)| <= |s| && Strip(s) == s[a..a + |Strip(s)|] &&
      All(s[..a], Space) && All(s[a + |Strip(s)|..], Space)
  {
    var f := StripFront(s);
    var a := |s| - |f|;
    StripFrontSpec(s);
    StripBackSpec(f);
    var r := Strip(s);
    assert s[a + |r|..] == f[|r|..];
    if 0 < |r| {
      assert r[0] == f[0] == s[a];
    }
  }

  /** A whitespace prefix ending before a non-space is exactly what StripFront drops. */
  lemma {:induction false} StripFrontUnique(s: string, a: nat)
    requires a <= |s| && All(s[..a], Space) && (a == |s| || !IsSpace(s[a]))
    ensures StripFront(s) == s[a..]
  {
    if 0 < a {
      assert s[..a][0] == s[0];
      assert s[1..][..a - 1] == s[..a][1..];
      StripFrontUnique(s[1..], a - 1);
      assert s[1..][a - 1..] == s[a..];
    }
  }

  /** A whitespace suffix starting after a non-space is exactly what StripBack drops. */
  lemma {:induction false} StripBackUnique(s: string, b: nat)
    requires b <= |s| && All(s[b..], Space) && (b == 0 || !IsSpace(s[b - 1]))
    ensures StripBack(s) == s[..b]
    decreases |s|
  {
    if b < |s| {
      assert s[b..][|s| - 1 - b] == s[|s| - 1];
      var init := s[..|s| - 1];
      assert init[b..] == s[b..][..|s| - 1 - b];
      StripBackUnique(init, b);
      assert init[..b] == s[..b];
    }
  }

  /** Whitespace around a trimmed text is exactly what Strip removes. */
  lemma {:induction false} StripSurrounded(a: string, m: string, b: string)
    requires All(a, Space) && All(b, Space)
    requires IsTrimmed(m)
    ensures Strip(a + m + b) == m
  {
    var s := a + m + b;
    if m == [] {
      assert All(s, Space) by {
        forall i | 0 <= i < |s| ensures In(s[i], Space) {
          if i < |a| { assert s[i] == a[i]; } else { assert s[i] == b[i - |a|]; }
        }
      }
      assert s[..|s|] == s;
      StripFrontUnique(s, |s|);
    } else {
      assert s[..|a|] == a;
      assert s[|a|] == m[0];
      StripFrontUnique(s, |a|);
      var t := s[|a|..];
      assert t == m + b;
      assert t[..|m|] == m;
      assert t[|m|..] == b;
      assert t[|m| - 1] == m[|m| - 1];
      StripBackUnique(t, |m|);
    }
  }

  /** Strip is idempotent: a trimmed text has nothing left to trim. */
  lemma {:induction false} StripIdempotent(s: string)
    ensures Strip(Strip(s)) == Strip(s)
  {
    StripSpec(s);
    StripSurrounded([], Strip(s), []);
    assert [] + Strip(s) + [] == Strip(s);
  }

  /** The value of one decimal digit. */
  function DigitValue(c: char): (v: nat)
    requires IsDigit(c)
    ensures v < 10
  {
    c as int - '0' as int
  }

  /** The digit whose value is `v`. */
  function DigitChar(v: nat): (c: char)
    requires v < 10
    ensures IsDigit(c) && DigitValue(c) == v
  {
    ('0' as int + v) as char
  }

  /** What Python's `int()` gives for a numeral made of decimal digits. */
  function DecimalValue(s: string): nat
    requires All(s, Digit)
  {
    if s == [] then 0 else DecimalValue(s[..|s| - 1]) * 10 + DigitValue(s[|s| - 1])
  }

  /** A single digit reads as its own value. */
  lemma {:induction false} SingleDigit(s: string)
    requires |s| == 1 && IsDigit(s[0])
    ensures DecimalValue(s) == DigitValue(s[0])
  {
    assert s[..0] == [];
  }

  /**
   * The decimal numeral of `n` as `str(n)` writes it: no leading zero,
   * except for zero itself, which is the single digit `0`.
   */
  function DecimalDigits(n: nat): (s: string)
    ensures |s| > 0 && All(s, Digit)
    ensures DecimalValue(s) == n
    ensures s[0] == '0' <==> n == 0
    ensures n == 0 ==> s == "0"
  {
    if n < 10 then [DigitChar(n)]
    else
      var s := DecimalDigits(n / 10) + [DigitChar(n % 10)];
      assert s[..|s| - 1] == DecimalDigits(n / 10);
      s
  }
}
