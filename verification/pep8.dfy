/**
 * The pep8 side of the assistant: the report entries kept for display,
 * the table of codes autopep8 can fix, and the fixable mark on each entry.
 */
module Pep8 {
  import opened Wrappers

  /**
   * One entry the pep8 report collects: file name, line, column, code and
   * text. The code is `None` for a check the style guide ignores.
   */
  datatype ReportEntry = ReportEntry(fname: string, lineno: int, offset: int, code: Option<string>, text: string)

  /** The entries that have a code, in report order. */
  function Coded(report: seq<ReportEntry>): (kept: seq<ReportEntry>)
    ensures |kept| <= |report|
    ensures forall n | 0 <= n < |kept| :: kept[n].code.Some?
  {
    if report == [] then []
    else
      var last := report[|report| - 1];
      Coded(report[..|report| - 1]) + (if last.code.Some? then [last] else [])
  }

  /** Filtering two runs of entries one after the other keeps their entries one after the other. */
  lemma {:induction false} CodedAppend(xs: seq<ReportEntry>, ys: seq<ReportEntry>)
    ensures Coded(xs + ys) == Coded(xs) + Coded(ys)
    decreases |ys|
  {
    if ys == [] {
      assert xs + ys == xs;
    } else {
      var init := ys[..|ys| - 1];
      assert (xs + ys)[..|xs + ys| - 1] == xs + init;
      assert (xs + ys)[|xs + ys| - 1] == ys[|ys| - 1];
      CodedAppend(xs, init);
    }
  }

  /** An entry is kept exactly when it is in the report and has a code. */
  lemma {:induction false} CodedMembers(report: seq<ReportEntry>, e: ReportEntry)
    ensures e in Coded(report) <==> e in report && e.code.Some?
  {
    if report != [] {
      var init := report[..|report| - 1];
      CodedMembers(init, e);
      assert report == init + [report[|report| - 1]];
    }
  }

  /** A report in which every entry has a code is kept whole. */
  lemma {:induction false} CodedKeepsAll(report: seq<ReportEntry>)
    requires forall n | 0 <= n < |report| :: report[n].code.Some?
    ensures Coded(report) == report
  {
    if report != [] {
      CodedKeepsAll(report[..|report| - 1]);
    }
  }

  /** A report in which no entry has a code gives nothing. */
  lemma {:induction false} CodedDropsAll(report: seq<ReportEntry>)
    requires forall n | 0 <= n < |report| :: report[n].code.None?
    ensures Coded(report) == []
  {
    if report != [] {
      CodedDropsAll(report[..|report| - 1]);
    }
  }

  /** Filtering twice keeps the same entries as filtering once. */
  lemma {:induction false} CodedIdempotent(report: seq<ReportEntry>)
    ensures Coded(Coded(report)) == Coded(report)
  {
    CodedKeepsAll(Coded(report));
  }

  /** The loop of `Pep8CheckerThread.run`: skip the entries without a code, append the others in order. */
  method CollectChecks(report: seq<ReportEntry>) returns (checkList: seq<ReportEntry>)
    ensures checkList == Coded(report)
  {
    checkList := [];
    for n := 0 to |report|
      invariant checkList == Coded(report[..n])
    {
      assert report[..n + 1][..n] == report[..n];
      var entry := report[n];
      if entry.code.None? {
        continue;
      }
      checkList := checkList + [entry];
    }
    assert report[..|report|] == report;
  }

  /** A fix autopep8 supports: its code and its description. */
  type Fix = (string, string)

  /** The codes of the supported fixes. */
  ghost function FixCodes(fixes: seq<Fix>): set<string> {
    set n | 0 <= n < |fixes| :: fixes[n].0
  }

  /**
   * `autopep8SupportDict`: each supported fix's code mapped to its
   * description, filled in list order so that a later fix with the same
   * code replaces an earlier one.
   */
  function SupportDict(fixes: seq<Fix>): (d: map<string, string>)
    ensures d.Keys == FixCodes(fixes)
  {
    if fixes == [] then map[]
    else
      var init := fixes[..|fixes| - 1];
      var last := fixes[|fixes| - 1];
      var d := SupportDict(init);
      assert FixCodes(fixes) == FixCodes(init) + {last.0} by {
        forall c | c in FixCodes(fixes) ensures c in FixCodes(init) + {last.0} {
          var n :| 0 <= n < |fixes| && fixes[n].0 == c;
          if n < |init| {
            assert init[n] == fixes[n];
          }
        }
        forall c | c in FixCodes(init) ensures c in FixCodes(fixes) {
          var n :| 0 <= n < |init| && init[n].0 == c;
          assert fixes[n] == init[n];
        }
      }
      d[last.0 := last.1]
  }

  /** Each code maps to the description of the last supported fix with that code. */
  lemma {:induction false} SupportDictLastWins(fixes: seq<Fix>, code: string) returns (n: nat)
    requires code in SupportDict(fixes)
    ensures n < |fixes| && fixes[n] == (code, SupportDict(fixes)[code])
    ensures forall m | n < m < |fixes| :: fixes[m].0 != code
  {
    var last := fixes[|fixes| - 1];
    if last.0 == code {
      n := |fixes| - 1;
    } else {
      var init := fixes[..|fixes| - 1];
      n := SupportDictLastWins(init, code);
      assert fixes[n] == init[n];
      forall m | n < m < |fixes| ensures fixes[m].0 != code {
        if m < |init| {
          assert fixes[m] == init[m];
        }
      }
    }
  }

  /** The loop of `Assistant.__init__` that fills `autopep8SupportDict` from the supported fixes. */
  method BuildSupportDict(supportedFixes: seq<Fix>) returns (supportDict: map<string, string>)
    ensures supportDict == SupportDict(supportedFixes)
  {
    supportDict := map[];
    for n := 0 to |supportedFixes|
      invariant supportDict == SupportDict(supportedFixes[..n])
    {
      assert supportedFixes[..n + 1][..n] == supportedFixes[..n];
      var fix := supportedFixes[n];
      supportDict := supportDict[fix.0 := fix.1];
    }
    assert supportedFixes[..|supportedFixes|] == supportedFixes;
  }

  /** An entry autopep8 can fix: its code is a key of the support table. */
  predicate Fixable(e: ReportEntry, supportDict: map<string, string>) {
    e.code.Some? && e.code.value in supportDict
  }

  /** An entry is fixable exactly when some supported fix carries its code. */
  lemma {:induction false} FixableIff(e: ReportEntry, fixes: seq<Fix>)
    ensures Fixable(e, SupportDict(fixes)) <==>
      e.code.Some? && exists n | 0 <= n < |fixes| :: fixes[n].0 == e.code.value
  {
  }

  /** A row of the pep8 view: line, text, column, code and the fixable mark. */
  datatype Pep8Item = Pep8Item(lineno: int, text: string, offset: int, code: Option<string>, fixable: bool)

  /** The row `updatePep8View` shows for one entry. */
  function ItemFor(e: ReportEntry, supportDict: map<string, string>): (item: Pep8Item)
    ensures item.lineno == e.lineno && item.text == e.text && item.offset == e.offset && item.code == e.code
    ensures item.fixable <==> Fixable(e, supportDict)
  {
    Pep8Item(e.lineno, e.text, e.offset, e.code, e.code.Some? && e.code.value in supportDict)
  }

  /** The loop of `updatePep8View`: one row per kept entry, in order, each marked fixable or not. */
  method Pep8Items(checkList: seq<ReportEntry>, supportDict: map<string, string>) returns (items: seq<Pep8Item>)
    ensures |items| == |checkList|
    ensures forall n | 0 <= n < |checkList| :: items[n] == ItemFor(checkList[n], supportDict)
  {
    items := [];
    for n := 0 to |checkList|
      invariant |items| == n
      invariant forall m | 0 <= m < n :: items[m] == ItemFor(checkList[m], supportDict)
    {
      var i := checkList[n];
      var fixable := i.code.Some? && i.code.value in supportDict;
      items := items + [Pep8Item(i.lineno, i.text, i.offset, i.code, fixable)];
    }
  }

  /**
   * From report to rows: the rows are the coded entries in report order,
   * and a row is marked fixable exactly when a supported fix has its code.
   */
  lemma {:induction false} RowsOfReport(report: seq<ReportEntry>, fixes: seq<Fix>, n: nat)
    requires n < |Coded(report)|
    ensures var e := Coded(report)[n];
      e in report && e.code.Some? &&
      (ItemFor(e, SupportDict(fixes)).fixable <==> exists m | 0 <= m < |fixes| :: fixes[m].0 == e.code.value)
  {
    var e := Coded(report)[n];
    CodedMembers(report, e);
    FixableIff(e, fixes);
  }
}
