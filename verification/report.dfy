/** The report, `internals.printResults`, without colours: for every file
    of the engine's result, in key order, a file that has diagnostics gets a
    header line with its path and then one line per diagnostic, in the order
    the engine reported them. The lines are returned instead of logged. */
module Report {

  import opened Outcomes
  import opened Text
  import opened Sequences

  /** `errorRange`: the column where the problem starts and its length. */
  datatype Range = Range(column: nat, length: nat)

  /** One diagnostic as the engine reports it. `errorDetail` and
      `errorContext` may be absent or empty; both count as missing. */
  datatype Diagnostic = Diagnostic(
    lineNumber: nat,
    ruleName: string,
    ruleAlias: string,
    ruleDescription: string,
    errorDetail: Option<string>,
    errorContext: Option<string>,
    errorRange: Option<Range>)

  /** One key of the engine's result object and its diagnostics. */
  datatype FileResult = FileResult(path: string, issues: seq<Diagnostic>)

  /** The engine's result object, in the order of its keys. */
  type LintResults = seq<FileResult>

  const RulesUrl: string := "https://github.com/DavidAnson/markdownlint/blob/master/doc/Rules.md"

  /** JavaScript truthiness of an optional string: present and non-empty. */
  predicate Truthy(s: Option<string>)
  {
    s.Some? && s.value != ""
  }

  /** `:<column>` when there is a range. */
  function ColumnSegment(d: Diagnostic): (s: string)
    ensures s == "" <==> d.errorRange.None?
  {
    if d.errorRange.Some? then ":" + Decimal(d.errorRange.value.column) else ""
  }

  /** ` [<detail>]` when there is a detail. */
  function DetailSegment(d: Diagnostic): (s: string)
    ensures s == "" <==> !Truthy(d.errorDetail)
  {
    if Truthy(d.errorDetail) then " [" + d.errorDetail.value + "]" else ""
  }

  /** ` "<context>"` when there is a context. */
  function ContextSegment(d: Diagnostic): (s: string)
    ensures s == "" <==> !Truthy(d.errorContext)
  {
    if Truthy(d.errorContext) then " \"" + d.errorContext.value + "\"" else ""
  }

  /** ` <rules url>#<rule name, lower-cased>` in verbose mode. */
  function UrlSegment(d: Diagnostic, verbose: bool): (s: string)
    ensures s == "" <==> !verbose
  {
    if verbose then " " + RulesUrl + "#" + ToLower(d.ruleName) else ""
  }

  /** The seven pieces the source joins into the line of one diagnostic,
      each optional one empty when its field is missing. */
  function LinePieces(d: Diagnostic, verbose: bool): (pieces: seq<string>)
  {
    ["  " + Decimal(d.lineNumber), ColumnSegment(d), " " + d.ruleAlias, " " + d.ruleDescription,
     DetailSegment(d), ContextSegment(d), UrlSegment(d, verbose)]
  }

  /** The line printed for one diagnostic: its pieces joined with nothing
      between them. */
  function DiagnosticLine(d: Diagnostic, verbose: bool): string
  {
    Concat(LinePieces(d, verbose))
  }

  /** Every diagnostic line starts with two spaces and the line number, and
      a `:` follows the number exactly when there is a range. */
  lemma DiagnosticLineStart(d: Diagnostic, verbose: bool)
    ensures var line := DiagnosticLine(d, verbose); var n := |Decimal(d.lineNumber)|;
      |line| > n + 2 && line[..n + 2] == "  " + Decimal(d.lineNumber)
      && (line[n + 2] == ':' <==> d.errorRange.Some?)
  {
    var p := LinePieces(d, verbose);
    var rest := Concat(p[3..]);
    assert Concat(p) == p[0] + Concat(p[1..]);
    assert Concat(p[1..]) == p[1] + Concat(p[2..]);
    assert Concat(p[2..]) == p[2] + rest;
    var tail := ColumnSegment(d) + (" " + d.ruleAlias + rest);
    assert DiagnosticLine(d, verbose) == ("  " + Decimal(d.lineNumber)) + tail;
    assert |tail| > 0 && (tail[0] == ':' <==> d.errorRange.Some?);
  }

  /** The line without the verbose link: the first six pieces. */
  lemma LineWithoutLink(d: Diagnostic, verbose: bool)
    ensures DiagnosticLine(d, verbose) == Concat(LinePieces(d, verbose)[..6]) + UrlSegment(d, verbose)
  {
    var p := LinePieces(d, verbose);
    assert p == p[..6] + [UrlSegment(d, verbose)];
    ConcatAppend(p[..6], [UrlSegment(d, verbose)]);
    assert Concat([UrlSegment(d, verbose)]) == UrlSegment(d, verbose) + Concat([]);
  }

  /** In verbose mode the line ends with the documentation anchor of the
      rule, its name lower-cased. */
  lemma VerboseLineEnd(d: Diagnostic)
    ensures EndsWith(DiagnosticLine(d, true), "#" + ToLower(d.ruleName))
  {
    LineWithoutLink(d, true);
    var anchor := "#" + ToLower(d.ruleName);
    assert DiagnosticLine(d, true) == (Concat(LinePieces(d, true)[..6]) + " " + RulesUrl) + anchor;
  }

  /** The lines of a file's diagnostics, one per diagnostic, in order. */
  function DiagnosticLines(issues: seq<Diagnostic>, verbose: bool): (lines: seq<string>)
    ensures |lines| == |issues|
  {
    if issues == [] then []
    else DiagnosticLines(issues[..|issues| - 1], verbose) + [DiagnosticLine(issues[|issues| - 1], verbose)]
  }

  lemma DiagnosticLinesSnoc(issues: seq<Diagnostic>, d: Diagnostic, verbose: bool)
    ensures DiagnosticLines(issues + [d], verbose) == DiagnosticLines(issues, verbose) + [DiagnosticLine(d, verbose)]
  {
    var extended := issues + [d];
    assert extended[..|extended| - 1] == issues;
  }

  /** The k-th line of a file's diagnostic lines is the line of its k-th
      diagnostic: the engine's order is kept, nothing is sorted. */
  lemma {:induction false} DiagnosticLinesAt(issues: seq<Diagnostic>, verbose: bool, k: nat)
    requires k < |issues|
    ensures DiagnosticLines(issues, verbose)[k] == DiagnosticLine(issues[k], verbose)
    decreases |issues|
  {
    var init := issues[..|issues| - 1];
    if k < |init| {
      DiagnosticLinesAt(init, verbose, k);
    }
  }

  /** What one file contributes to the report. */
  function FileSection(file: FileResult, verbose: bool): (section: seq<string>)
    ensures |section| == if |file.issues| == 0 then 0 else 1 + |file.issues|
  {
    if |file.issues| == 0 then [] else [file.path] + DiagnosticLines(file.issues, verbose)
  }

  /** The whole report: the sections of the files in key order. */
  function ReportLines(results: LintResults, verbose: bool): seq<string>
  {
    if results == [] then []
    else ReportLines(results[..|results| - 1], verbose) + FileSection(results[|results| - 1], verbose)
  }

  /** The inner `forEach` of `printResults`: one line per diagnostic, in
      the order the engine reported them. */
  method PrintDiagnostics(issues: seq<Diagnostic>, verbose: bool) returns (lines: seq<string>)
    ensures lines == DiagnosticLines(issues, verbose)
  {
    lines := [];
    var j := 0;
    while j < |issues|
      invariant 0 <= j <= |issues|
      invariant lines == DiagnosticLines(issues[..j], verbose)
    {
      TakeOneMore(issues, j);
      DiagnosticLinesSnoc(issues[..j], issues[j], verbose);
      var line := DiagnosticLine(issues[j], verbose);
      lines := lines + [line];
      j := j + 1;
    }
    assert issues[..j] == issues;
  }

  /** One key of the result: the header and the diagnostic lines when the
      file has diagnostics, nothing otherwise. */
  method PrintFile(file: FileResult, verbose: bool) returns (section: seq<string>)
    ensures section == FileSection(file, verbose)
  {
    section := [];
    if |file.issues| > 0 {
      var lines := PrintDiagnostics(file.issues, verbose);
      section := [file.path] + lines;
    }
  }

  /** `printResults`: the outer `forEach` over the keys of the result,
      appending each file's lines to the output instead of logging them. */
  method PrintResults(results: LintResults, verbose: bool) returns (lines: seq<string>)
    ensures lines == ReportLines(results, verbose)
  {
    lines := [];
    var i := 0;
    while i < |results|
      invariant 0 <= i <= |results|
      invariant lines == ReportLines(results[..i], verbose)
    {
      var section := PrintFile(results[i], verbose);
      TakeOneMore(results, i);
      ReportSnoc(results[..i], results[i], verbose);
      lines := lines + section;
      i := i + 1;
    }
    assert results[..i] == results;
  }

  /** A file with diagnostics prints its path, then exactly one line per
      diagnostic in the engine's order; a file without prints nothing. */
  lemma SectionLayout(file: FileResult, verbose: bool)
    ensures |file.issues| == 0 ==> FileSection(file, verbose) == []
    ensures |file.issues| > 0 ==>
      var section := FileSection(file, verbose);
      |section| == 1 + |file.issues| && section[0] == file.path
      && forall k :: 0 <= k < |file.issues| ==> section[k + 1] == DiagnosticLine(file.issues[k], verbose)
  {
    forall k | 0 <= k < |file.issues|
      ensures FileSection(file, verbose)[k + 1] == DiagnosticLine(file.issues[k], verbose)
    {
      DiagnosticLinesAt(file.issues, verbose, k);
    }
  }

  /** Adding one file at the end adds its section at the end. */
  lemma ReportSnoc(results: LintResults, file: FileResult, verbose: bool)
    ensures ReportLines(results + [file], verbose) == ReportLines(results, verbose) + FileSection(file, verbose)
  {
    var extended := results + [file];
    assert extended[..|extended| - 1] == results;
    assert extended[|extended| - 1] == file;
  }

  /** The report keeps the files in key order: the report of two runs of
      keys is the report of the first followed by that of the second. */
  lemma {:induction false} ReportAppend(a: LintResults, b: LintResults, verbose: bool)
    ensures ReportLines(a + b, verbose) == ReportLines(a, verbose) + ReportLines(b, verbose)
    decreases |b|
  {
    if b == [] {
      assert a + b == a;
    } else {
      var b', last := b[..|b| - 1], b[|b| - 1];
      assert b == b' + [last];
      assert a + b == (a + b') + [last];
      ReportAppend(a, b', verbose);
      ReportSnoc(a + b', last, verbose);
      ReportSnoc(b', last, verbose);
      AppendAssociative(ReportLines(a, verbose), ReportLines(b', verbose), FileSection(last, verbose));
    }
  }

  /** The files that have at least one diagnostic, in key order. */
  function WithIssues(results: LintResults): (kept: LintResults)
  {
    if results == [] then []
    else
      var last := results[|results| - 1];
      WithIssues(results[..|results| - 1]) + (if |last.issues| > 0 then [last] else [])
  }

  /** Files without diagnostics leave no trace: the report equals the report
      of only the files that have some. */
  lemma {:induction false} EmptyFilesSilent(results: LintResults, verbose: bool)
    ensures ReportLines(results, verbose) == ReportLines(WithIssues(results), verbose)
    decreases |results|
  {
    if results != [] {
      var init := results[..|results| - 1];
      var last := results[|results| - 1];
      EmptyFilesSilent(init, verbose);
      assert ReportLines(results, verbose) == ReportLines(init, verbose) + FileSection(last, verbose) by {
        assert results == init + [last];
        ReportSnoc(init, last, verbose);
      }
      if |last.issues| > 0 {
        assert WithIssues(results) == WithIssues(init) + [last];
        ReportSnoc(WithIssues(init), last, verbose);
      } else {
        assert WithIssues(results) == WithIssues(init) by {
          assert WithIssues(init) + [] == WithIssues(init);
        }
        assert ReportLines(init, verbose) + FileSection(last, verbose) == ReportLines(init, verbose);
      }
    }
  }

  /** The number of lines printed: one header plus one line per diagnostic
      for each file that has diagnostics. */
  function PrintedLineCount(results: LintResults): nat
  {
    if results == [] then 0
    else
      var f := results[0];
      (if |f.issues| > 0 then 1 + |f.issues| else 0) + PrintedLineCount(results[1..])
  }

  lemma {:induction false} ReportLineCount(results: LintResults, verbose: bool)
    ensures |ReportLines(results, verbose)| == PrintedLineCount(results)
    decreases |results|
  {
    if results != [] {
      var first := [results[0]];
      var rest := results[1..];
      assert results == first + rest;
      ReportAppend(first, rest, verbose);
      ReportLineCount(rest, verbose);
      assert first[..0] == [];
    }
  }

  /** A report over files that all came back clean is empty. */
  lemma CleanRunPrintsNothing(results: LintResults, verbose: bool)
    requires forall k :: 0 <= k < |results| ==> |results[k].issues| == 0
    ensures ReportLines(results, verbose) == []
  {
    ReportLineCount(results, verbose);
    assert PrintedLineCount(results) == 0 by {
      CleanCountsZero(results);
    }
  }

  lemma {:induction false} CleanCountsZero(results: LintResults)
    requires forall k :: 0 <= k < |results| ==> |results[k].issues| == 0
    ensures PrintedLineCount(results) == 0
    decreases |results|
  {
    if results != [] {
      CleanCountsZero(results[1..]);
    }
  }

  /** Verbose mode only appends the documentation link; the rest of the
      line is the same. */
  lemma VerboseOnlyAppends(d: Diagnostic)
    ensures DiagnosticLine(d, true) == DiagnosticLine(d, false) + " " + RulesUrl + "#" + ToLower(d.ruleName)
  {
    LineWithoutLink(d, true);
    LineWithoutLink(d, false);
    assert LinePieces(d, true)[..6] == LinePieces(d, false)[..6];
  }

  /** Changing the range changes the second piece of the line only. */
  lemma ColumnPieces(d: Diagnostic, verbose: bool, range: Option<Range>)
    ensures var changed := d.(errorRange := range);
      LinePieces(changed, verbose) == LinePieces(d.(errorRange := None), verbose)[1 := ColumnSegment(changed)]
  {
  }

  /** With a range, `:` and the decimal text of its column (`errorRange[0]`)
      are printed right after the line number; nothing else of the line
      changes. */
  lemma ColumnSegmentAlone(d: Diagnostic, verbose: bool, range: Range)
    ensures var bare := d.(errorRange := None); var p := LinePieces(bare, verbose);
      DiagnosticLine(d.(errorRange := Some(range)), verbose) == Concat(p[..1]) + (":" + Decimal(range.column)) + Concat(p[2..])
  {
    var bare, shown := d.(errorRange := None), d.(errorRange := Some(range));
    var p := LinePieces(bare, verbose);
    ColumnPieces(d, verbose, Some(range));
    ConcatReplace(p, 1, ColumnSegment(shown));
  }

  /** Changing the detail changes the fifth piece of the line only. */
  lemma DetailPieces(d: Diagnostic, verbose: bool, detail: Option<string>)
    ensures var changed := d.(errorDetail := detail);
      LinePieces(changed, verbose) == LinePieces(d.(errorDetail := None), verbose)[4 := DetailSegment(changed)]
  {
  }

  /** ` [<detail>]` is printed when the detail is present and non-empty,
      between the description and the context; nothing else of the line
      changes. */
  lemma DetailSegmentAlone(d: Diagnostic, verbose: bool, x: string)
    requires x != ""
    ensures var bare := d.(errorDetail := None); var p := LinePieces(bare, verbose);
      DiagnosticLine(d.(errorDetail := Some(x)), verbose) == Concat(p[..4]) + (" [" + x + "]") + Concat(p[5..])
  {
    var bare, shown := d.(errorDetail := None), d.(errorDetail := Some(x));
    var p := LinePieces(bare, verbose);
    DetailPieces(d, verbose, Some(x));
    ConcatReplace(p, 4, DetailSegment(shown));
  }

  /** A detail that is absent or empty (falsy) prints nothing: the line is
      that of the same diagnostic without a detail. */
  lemma FalsyDetailOmitted(d: Diagnostic, verbose: bool)
    requires !Truthy(d.errorDetail)
    ensures DiagnosticLine(d, verbose) == DiagnosticLine(d.(errorDetail := None), verbose)
  {
    DetailPieces(d, verbose, None);
    DetailPieces(d, verbose, d.errorDetail);
  }

  /** Changing the context changes the sixth piece of the line only. */
  lemma ContextPieces(d: Diagnostic, verbose: bool, context: Option<string>)
    ensures var changed := d.(errorContext := context);
      LinePieces(changed, verbose) == LinePieces(d.(errorContext := None), verbose)[5 := ContextSegment(changed)]
  {
  }

  /** ` "<context>"` is printed when the context is present and non-empty,
      between the detail and the verbose link; nothing else of the line
      changes. */
  lemma ContextSegmentAlone(d: Diagnostic, verbose: bool, x: string)
    requires x != ""
    ensures var bare := d.(errorContext := None); var p := LinePieces(bare, verbose);
      DiagnosticLine(d.(errorContext := Some(x)), verbose) == Concat(p[..5]) + (" \"" + x + "\"") + Concat(p[6..])
  {
    var bare, shown := d.(errorContext := None), d.(errorContext := Some(x));
    var p := LinePieces(bare, verbose);
    ContextPieces(d, verbose, Some(x));
    ConcatReplace(p, 5, ContextSegment(shown));
  }

  /** A context that is absent or empty (falsy) prints nothing: the line is
      that of the same diagnostic without a context. */
  lemma FalsyContextOmitted(d: Diagnostic, verbose: bool)
    requires !Truthy(d.errorContext)
    ensures DiagnosticLine(d, verbose) == DiagnosticLine(d.(errorContext := None), verbose)
  {
    ContextPieces(d, verbose, None);
    ContextPieces(d, verbose, d.errorContext);
  }

  /** A diagnostic with no range, detail or context and no verbose link prints
      just its line number, rule alias and description. */
  lemma MissingSegmentsOmitted(d: Diagnostic)
    requires d.errorRange.None? && !Truthy(d.errorDetail) && !Truthy(d.errorContext)
    ensures DiagnosticLine(d, false) == "  " + Decimal(d.lineNumber) + " " + d.ruleAlias + " " + d.ruleDescription
  {
    var p := LinePieces(d, false);
    assert Concat(p[6..]) == "" + Concat([]);
    assert Concat(p[5..]) == "" + Concat(p[6..]);
    assert Concat(p[4..]) == "" + Concat(p[5..]);
    assert Concat(p[3..]) == p[3] + Concat(p[4..]);
    assert Concat(p[2..]) == p[2] + Concat(p[3..]);
    assert Concat(p[1..]) == "" + Concat(p[2..]);
    assert Concat(p) == p[0] + Concat(p[1..]);
  }
}
