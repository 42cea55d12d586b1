/** Day 2: a report (a line of levels) is safe when it moves in one direction
    by 1 to 3 at every step. */
module Day2 {
  import opened Text

  const MinimumVariation := 1
  const MaximumVariation := 3

  /** The levels of one report line, as `i32`. */
  function ReportLine(line: string): Option<seq<int>> {
    ParseNumbers(line, I32)
  }

  /** The reports of `lines`, one per line. */
  function Reports(lines: seq<string>): Option<seq<seq<int>>> {
    EachLine(ReportLine, lines)
  }

  /** The input is read exactly when every line parses, and report `x` is
      then the numbers of line `x`. */
  lemma ReportsLines(lines: seq<string>)
    ensures Reports(lines).Some? <==> forall x :: 0 <= x < |lines| ==> ParseNumbers(lines[x], I32).Some?
    ensures Reports(lines).Some? ==> |Reports(lines).value| == |lines|
    ensures Reports(lines).Some? ==> forall x :: 0 <= x < |lines| ==> ParseNumbers(lines[x], I32) == Some(Reports(lines).value[x])
  {
    EachLineParses(ReportLine, lines);
  }

  /** The reading loop: one report per line, the words of the line parsed as
      `i32`; `None` (the program aborts) if any word of any line does not parse. */
  method ReadReports(lines: seq<string>) returns (r: Option<seq<seq<int>>>)
    ensures r == Reports(lines)
  {
    var reports: seq<seq<int>> := [];
    for x := 0 to |lines|
      invariant EachLine(ReportLine, lines[..x]) == Some(reports)
    {
      var levels := ParseNumbers(lines[x], I32);
      EachLineStep(ReportLine, lines, x);
      if levels.None? {
        r := None;
        EachLineStaysNone(ReportLine, lines, x + 1);
        return;
      }
      reports := reports + [levels.value];
    }
    assert lines[..|lines|] == lines;
    r := Some(reports);
  }

  /** Every step rises by 1 to 3. */
  predicate AllIncreasing(report: seq<int>) {
    forall i :: 0 <= i < |report| - 1 ==> MinimumVariation <= report[i + 1] - report[i] <= MaximumVariation
  }

  /** Every step falls by 1 to 3. */
  predicate AllDecreasing(report: seq<int>) {
    forall i :: 0 <= i < |report| - 1 ==> MinimumVariation <= report[i] - report[i + 1] <= MaximumVariation
  }

  /** Whether step `i` passes, for the direction fixed by the first two levels. */
  predicate StepPasses(report: seq<int>, increasing: bool, i: nat)
    requires i < |report| - 1
  {
    if increasing && report[i] > report[i + 1] then false
    else
      var difference := if increasing then report[i + 1] - report[i] else report[i] - report[i + 1];
      MinimumVariation <= difference <= MaximumVariation
  }

  /** The safety loop for one report: the direction is fixed by the first two
      levels and the scan stops at the first failing step. A report with
      fewer than two levels makes the program abort, hence the precondition. */
  method CheckReport(report: seq<int>) returns (isSafe: bool, failingLevelCount: nat)
    requires |report| >= 2
    ensures isSafe <==> AllIncreasing(report) || AllDecreasing(report)
    ensures failingLevelCount <= 1
    ensures failingLevelCount == 0 <==> isSafe
  {
    isSafe := false;
    var increasing := report[0] < report[1];
    failingLevelCount := 0;
    var i := 0;
    while i < |report| - 1
      invariant 0 <= i <= |report| - 1
      invariant failingLevelCount == 0
      invariant forall k :: 0 <= k < i ==> StepPasses(report, increasing, k)
      invariant isSafe <==> i > 0
    {
      if increasing && report[i] > report[i + 1] {
        isSafe := false;
        failingLevelCount := failingLevelCount + 1;
        break;
      }
      var difference := if increasing then report[i + 1] - report[i] else report[i] - report[i + 1];
      if difference < MinimumVariation || difference > MaximumVariation {
        isSafe := false;
        failingLevelCount := failingLevelCount + 1;
        break;
      }
      isSafe := true;
      i := i + 1;
    }
    DirectionDecides(report, increasing);
    if failingLevelCount == 0 {
      assert i == |report| - 1;
    } else {
      assert !StepPasses(report, increasing, i);
    }
  }

  /** Judging every step by the direction of the first step is the same as
      asking for a uniform direction. */
  lemma DirectionDecides(report: seq<int>, increasing: bool)
    requires |report| >= 2 && increasing == (report[0] < report[1])
    ensures (forall k :: 0 <= k < |report| - 1 ==> StepPasses(report, increasing, k))
      <==> AllIncreasing(report) || AllDecreasing(report)
  {
    if forall k :: 0 <= k < |report| - 1 ==> StepPasses(report, increasing, k) {
      if increasing {
        forall k | 0 <= k < |report| - 1 ensures MinimumVariation <= report[k + 1] - report[k] <= MaximumVariation {
          assert StepPasses(report, increasing, k);
        }
      } else {
        forall k | 0 <= k < |report| - 1 ensures MinimumVariation <= report[k] - report[k + 1] <= MaximumVariation {
          assert StepPasses(report, increasing, k);
        }
      }
    }
    if AllIncreasing(report) {
      assert report[0] < report[1];
    } else if AllDecreasing(report) {
      assert report[0] > report[1];
    }
  }

  /** Equal first levels fix the direction as falling, and the first step
      then fails: such a report is never safe. */
  lemma EqualStartUnsafe(report: seq<int>)
    requires |report| >= 2 && report[0] == report[1]
    ensures !AllIncreasing(report) && !AllDecreasing(report)
  {
    assert !(MinimumVariation <= report[1] - report[0]);
  }

  /** The number of safe reports. */
  function SafeCount(reports: seq<seq<int>>): (n: nat)
    ensures n <= |reports|
  {
    if reports == [] then 0
    else
      var last := reports[|reports| - 1];
      SafeCount(reports[..|reports| - 1]) + (if AllIncreasing(last) || AllDecreasing(last) then 1 else 0)
  }

  /** The outer loop: the count of reports the inner check calls safe. */
  method CountSafeReports(reports: seq<seq<int>>) returns (safeReportCount: nat)
    requires forall x :: 0 <= x < |reports| ==> |reports[x]| >= 2
    ensures safeReportCount == SafeCount(reports)
    ensures safeReportCount <= |reports|
  {
    safeReportCount := 0;
    for x := 0 to |reports|
      invariant safeReportCount == SafeCount(reports[..x])
    {
      var isSafe, _ := CheckReport(reports[x]);
      assert reports[..x + 1][..x] == reports[..x];
      if isSafe {
        safeReportCount := safeReportCount + 1;
      }
    }
    assert reports[..|reports|] == reports;
  }

  /** Safe reports count once each: appending a report adds one exactly when it is safe. */
  lemma SafeCountAppend(reports: seq<seq<int>>, report: seq<int>)
    ensures SafeCount(reports + [report]) == SafeCount(reports) + (if AllIncreasing(report) || AllDecreasing(report) then 1 else 0)
  {
    assert (reports + [report])[..|reports|] == reports;
  }
}
