/** The layout of `PayoutReport.format`: per department its name, a dashed
    underline, a right-aligned row per employee, a `Total` row and a blank
    line, all joined with newlines. How a number is written is left
    abstract: `show` stands for `str()` of a number, `fixed2` for its
    two-decimal rendering. */
module PayoutFormat {
  import opened Strings
  import opened PayoutReport

  /** The pieces of a row, concatenated. */
  function Concat(parts: seq<string>): string {
    if |parts| == 0 then "" else parts[0] + Concat(parts[1..])
  }

  /** `f"{name:>20} {hours:>10} {rate:>10} ${payout:>10.2f}"`. */
  function EmployeeRow(l: PayoutLine, show: real -> string, fixed2: real -> string): string {
    Concat([PadLeft(l.name, 20), " ", PadLeft(show(l.hours), 10), " ",
            PadLeft(show(l.rate), 10), " $", PadLeft(fixed2(l.payout), 10)])
  }

  /** `f"{'Total':>20} {total_hours:>10} {'':>10} ${total_payout:>10.2f}"`. */
  function TotalRow(p: PayoutDept, show: real -> string, fixed2: real -> string): string {
    Concat([PadLeft("Total", 20), " ", PadLeft(show(p.totalHours), 10), " ",
            PadLeft("", 10), " $", PadLeft(fixed2(p.totalPayout), 10)])
  }

  /** One row per employee line. */
  function EmployeeRows(ls: seq<PayoutLine>, row: PayoutLine -> string): (r: seq<string>)
    ensures |r| == |ls|
    ensures forall k :: 0 <= k < |ls| ==> r[k] == row(ls[k])
  {
    if |ls| == 0 then []
    else EmployeeRows(ls[..|ls| - 1], row) + [row(ls[|ls| - 1])]
  }

  /** The lines of one department. */
  function Block(d: string, p: PayoutDept, row: PayoutLine -> string, total: PayoutDept -> string): seq<string> {
    [d, Repeat('-', |d|)] + EmployeeRows(p.employees, row) + [total(p), ""]
  }

  /** The department's block: its name, an underline of `-` as long as the
      name, one row per employee, the total row, a blank line. */
  lemma BlockShape(d: string, p: PayoutDept, row: PayoutLine -> string, total: PayoutDept -> string)
    ensures var b := Block(d, p, row, total);
            && |b| == |p.employees| + 4
            && b[0] == d
            && |b[1]| == |d| && (forall c :: 0 <= c < |d| ==> b[1][c] == '-')
            && (forall k :: 0 <= k < |p.employees| ==> b[2 + k] == row(p.employees[k]))
            && b[|b| - 2] == total(p)
            && b[|b| - 1] == ""
  {
  }

  /** The list of output lines, department after department. */
  function FormatLines(report: PayoutData, row: PayoutLine -> string, total: PayoutDept -> string): seq<string> {
    if |report| == 0 then []
    else
      var n := |report| - 1;
      FormatLines(report[..n], row, total) + Block(report[n].0, report[n].1, row, total)
  }

  lemma EmployeeRowsSnoc(ls: seq<PayoutLine>, row: PayoutLine -> string, j: nat)
    requires j < |ls|
    ensures EmployeeRows(ls[..j + 1], row) == EmployeeRows(ls[..j], row) + [row(ls[j])]
  {
    assert ls[..j + 1][..j] == ls[..j];
  }

  /** Appending a department's lines to those of the departments before it
      gives the lines of one more department. */
  lemma FormatLinesSnoc(report: PayoutData, row: PayoutLine -> string, total: PayoutDept -> string, i: nat,
                        head: seq<string>, output: seq<string>)
    requires i < |report|
    requires head == FormatLines(report[..i], row, total) + [report[i].0, Repeat('-', |report[i].0|)]
    requires output == head + EmployeeRows(report[i].1.employees, row) + [total(report[i].1)] + [""]
    ensures output == FormatLines(report[..i + 1], row, total)
  {
    assert report[..i + 1][..i] == report[..i];
  }

  /** `PayoutReport.format`: appends the lines department by department and
      joins them with newlines. */
  method Format(report: PayoutData, row: PayoutLine -> string, total: PayoutDept -> string) returns (text: string)
    ensures text == Join(FormatLines(report, row, total), '\n')
  {
    var output: seq<string> := [];
    var i := 0;
    while i < |report|
      invariant 0 <= i <= |report|
      invariant output == FormatLines(report[..i], row, total)
    {
      var department := report[i].0;
      var data := report[i].1;
      output := output + [department, Repeat('-', |department|)];
      var head := output;
      var j := 0;
      while j < |data.employees|
        invariant 0 <= j <= |data.employees|
        invariant output == head + EmployeeRows(data.employees[..j], row)
      {
        EmployeeRowsSnoc(data.employees, row, j);
        output := output + [row(data.employees[j])];
        j := j + 1;
      }
      assert data.employees[..j] == data.employees;
      output := output + [total(data)];
      output := output + [""];
      FormatLinesSnoc(report, row, total, i, head, output);
      i := i + 1;
    }
    assert report[..i] == report;
    text := Join(output, '\n');
  }

  /** The number of output lines: four per department plus one per
      employee. */
  lemma {:induction false} FormatLineCount(report: PayoutData, row: PayoutLine -> string, total: PayoutDept -> string)
    ensures |FormatLines(report, row, total)| == 4 * |report| + LineCount(report)
  {
    if |report| > 0 {
      FormatLineCount(report[..|report| - 1], row, total);
    }
  }

  /** Where department `i`'s block starts in the output lines. */
  function Start(report: PayoutData, row: PayoutLine -> string, total: PayoutDept -> string, i: nat): nat
    requires i <= |report|
  {
    |FormatLines(report[..i], row, total)|
  }

  /** The lines of the first `m` departments begin the lines of all. */
  lemma {:induction false} FormatLinesPrefix(report: PayoutData, row: PayoutLine -> string, total: PayoutDept -> string, m: nat)
    requires m <= |report|
    ensures FormatLines(report[..m], row, total) <= FormatLines(report, row, total)
    decreases |report| - m
  {
    if m < |report| {
      FormatLinesPrefix(report, row, total, m + 1);
      assert report[..m + 1][..m] == report[..m];
      assert FormatLines(report[..m + 1], row, total)
          == FormatLines(report[..m], row, total) + Block(report[m].0, report[m].1, row, total);
    } else {
      assert report[..m] == report;
    }
  }

  /** Department `i`'s block sits in the output lines at `Start`. */
  lemma BlockInFormat(report: PayoutData, row: PayoutLine -> string, total: PayoutDept -> string, i: nat)
    requires i < |report|
    ensures var b := Block(report[i].0, report[i].1, row, total);
            && Start(report, row, total, i) + |b| <= |FormatLines(report, row, total)|
            && forall j :: 0 <= j < |b| ==>
                 FormatLines(report, row, total)[Start(report, row, total, i) + j] == b[j]
  {
    var pre := FormatLines(report[..i], row, total);
    var b := Block(report[i].0, report[i].1, row, total);
    var whole := FormatLines(report, row, total);
    FormatLinesPrefix(report, row, total, i + 1);
    assert report[..i + 1][..i] == report[..i];
    assert FormatLines(report[..i + 1], row, total) == pre + b;
    forall j | 0 <= j < |b| ensures whole[|pre| + j] == b[j] {
      assert (pre + b)[|pre| + j] == b[j];
    }
  }

  /** A padded cell holds the text it pads. */
  lemma PadLeftContains(s: string, w: nat)
    ensures Contains(PadLeft(s, w), s)
  {
    var r := PadLeft(s, w);
    assert OccursAt(r, s, |r| - |s|);
  }

  lemma ConcatFirst(parts: seq<string>)
    requires |parts| > 0
    ensures Contains(Concat(parts), parts[0])
  {
    ContainsParts(parts[0], Concat(parts[1..]));
  }

  lemma {:induction false} ConcatLast(parts: seq<string>)
    requires |parts| > 0
    ensures Contains(Concat(parts), parts[|parts| - 1])
  {
    if |parts| == 1 {
      ContainsParts(parts[0], "");
      assert parts[0] + "" == parts[0];
    } else {
      ConcatLast(parts[1..]);
      ContainsParts(parts[0], Concat(parts[1..]));
      ContainsTrans(Concat(parts), Concat(parts[1..]), parts[|parts| - 1]);
    }
  }

  /** An employee row shows the employee's name. */
  lemma EmployeeRowShowsName(l: PayoutLine, show: real -> string, fixed2: real -> string)
    ensures Contains(EmployeeRow(l, show, fixed2), l.name)
  {
    var parts := [PadLeft(l.name, 20), " ", PadLeft(show(l.hours), 10), " ",
                  PadLeft(show(l.rate), 10), " $", PadLeft(fixed2(l.payout), 10)];
    ConcatFirst(parts);
    PadLeftContains(l.name, 20);
    ContainsTrans(Concat(parts), parts[0], l.name);
  }

  /** A total row shows the rendered total payout. */
  lemma TotalRowShowsPayout(p: PayoutDept, show: real -> string, fixed2: real -> string)
    ensures Contains(TotalRow(p, show, fixed2), fixed2(p.totalPayout))
  {
    var parts := [PadLeft("Total", 20), " ", PadLeft(show(p.totalHours), 10), " ",
                  PadLeft("", 10), " $", PadLeft(fixed2(p.totalPayout), 10)];
    ConcatLast(parts);
    PadLeftContains(fixed2(p.totalPayout), 10);
    ContainsTrans(Concat(parts), parts[6], fixed2(p.totalPayout));
  }

  /** Whatever a row shows, the joined text shows: every employee row and
      every total row is a line of it. */
  lemma RowsInText(report: PayoutData, row: PayoutLine -> string, total: PayoutDept -> string, i: nat)
    requires i < |report|
    ensures forall k :: 0 <= k < |report[i].1.employees| ==>
              Contains(Join(FormatLines(report, row, total), '\n'), row(report[i].1.employees[k]))
    ensures Contains(Join(FormatLines(report, row, total), '\n'), total(report[i].1))
  {
    var p := report[i].1;
    var b := Block(report[i].0, p, row, total);
    BlockShape(report[i].0, p, row, total);
    forall k | 0 <= k < |p.employees|
      ensures Contains(Join(FormatLines(report, row, total), '\n'), row(p.employees[k]))
    {
      BlockLineInText(report, row, total, i, 2 + k);
    }
    BlockLineInText(report, row, total, i, |b| - 2);
  }

  /** Every line of a department's block is part of the joined text. */
  lemma BlockLineInText(report: PayoutData, row: PayoutLine -> string, total: PayoutDept -> string, i: nat, j: nat)
    requires i < |report| && j < |Block(report[i].0, report[i].1, row, total)|
    ensures Contains(Join(FormatLines(report, row, total), '\n'), Block(report[i].0, report[i].1, row, total)[j])
  {
    BlockInFormat(report, row, total, i);
    JoinContains(FormatLines(report, row, total), '\n', Start(report, row, total, i) + j);
  }

  /** The text the source renders holds every employee's name (`'Alice
      Johnson' in formatted`) and every department's rendered total payout
      (`'8000' in formatted`). */
  lemma FormattedTextContains(report: PayoutData, show: real -> string, fixed2: real -> string, i: nat)
    requires i < |report|
    ensures var text := Join(FormatLines(report, l => EmployeeRow(l, show, fixed2), p => TotalRow(p, show, fixed2)), '\n');
            && (forall k :: 0 <= k < |report[i].1.employees| ==> Contains(text, report[i].1.employees[k].name))
            && Contains(text, fixed2(report[i].1.totalPayout))
  {
    var row := l => EmployeeRow(l, show, fixed2);
    var total := p => TotalRow(p, show, fixed2);
    var text := Join(FormatLines(report, row, total), '\n');
    var p := report[i].1;
    RowsInText(report, row, total, i);
    forall k | 0 <= k < |p.employees| ensures Contains(text, p.employees[k].name) {
      EmployeeRowShowsName(p.employees[k], show, fixed2);
      ContainsTrans(text, row(p.employees[k]), p.employees[k].name);
    }
    TotalRowShowsPayout(p, show, fixed2);
    ContainsTrans(text, total(p), fixed2(p.totalPayout));
  }
}
