/** `AvgRateReport.generate`: per department, the number of employees, the
    sum and the mean of their rates, and their names in input order. */
module AvgRateReport {
  import opened Common
  import opened Employees
  import opened Departments

  /** One department's entry in the report. */
  datatype AvgRateDept = AvgRateDept(employeeCount: nat, totalRate: real, avgRate: real, employees: seq<string>)

  /** The report: departments with their entries, in insertion order. */
  type AvgRateData = seq<(string, AvgRateDept)>

  /** `[emp.name for emp in emps]`. */
  function Names(es: seq<Employee>): (r: seq<string>)
    ensures |r| == |es|
  {
    seq(|es|, k requires 0 <= k < |es| => es[k].name)
  }

  /** A department's entry; an empty group (which grouping never makes) would
      get a mean of 0. */
  function Stats(members: seq<Employee>): AvgRateDept {
    var totalRate := SumOf(members, Rate);
    AvgRateDept(|members|, totalRate,
                if |members| > 0 then totalRate / (|members| as real) else 0.0,
                Names(members))
  }

  function Summarize(gs: seq<Group>): (r: AvgRateData)
    ensures |r| == |gs|
  {
    seq(|gs|, i requires 0 <= i < |gs| => (gs[i].0, Stats(gs[i].1)))
  }

  /** What `AvgRateReport.generate` returns for `es`. */
  function AvgRateOf(es: seq<Employee>): AvgRateData {
    Summarize(GroupBy(es))
  }

  lemma SummarizeSnoc(gs: seq<Group>, i: nat)
    requires i < |gs|
    ensures Summarize(gs[..i + 1]) == Summarize(gs[..i]) + [(gs[i].0, Stats(gs[i].1))]
  {
    assert gs[..i + 1][..i] == gs[..i];
  }

  /** `AvgRateReport.generate`: groups, then fills the report department by
      department. */
  method Generate(es: seq<Employee>) returns (report: AvgRateData)
    ensures report == AvgRateOf(es)
  {
    var departments := GroupByDepartment(es);
    report := [];
    var i := 0;
    while i < |departments|
      invariant 0 <= i <= |departments|
      invariant report == Summarize(departments[..i])
    {
      var dept := departments[i].0;
      var emps := departments[i].1;
      var totalRate := SumOf(emps, Rate);
      var avgRate := if |emps| > 0 then totalRate / (|emps| as real) else 0.0;
      SummarizeSnoc(departments, i);
      report := report + [(dept, AvgRateDept(|emps|, totalRate, avgRate, Names(emps)))];
      i := i + 1;
    }
    assert departments[..i] == departments;
  }

  /** Each department's entry: the count is the number of its members (at
      least one), the total is the sum of their rates, the mean is the total
      over the count, and the names are theirs in input order. */
  lemma AvgRateDepartment(es: seq<Employee>, i: nat)
    requires i < |AvgRateOf(es)|
    ensures var d := AvgRateOf(es)[i].0;
            var m := FilterDept(es, d);
            var s := AvgRateOf(es)[i].1;
            && (exists k :: 0 <= k < |es| && es[k].department == d)
            && s.employeeCount == |m| >= 1
            && s.totalRate == SumOf(m, Rate)
            && s.avgRate == s.totalRate / (s.employeeCount as real)
            && |s.employees| == |m|
            && (forall k :: 0 <= k < |m| ==> s.employees[k] == m[k].name)
  {
    var gs := GroupBy(es);
    var d := gs[i].0;
    var m := FilterDept(es, d);
    GroupByGroups(es);
    assert AvgRateOf(es)[i] == (d, Stats(m));
    GroupByDepartments(es, d);
    assert 0 <= i < |gs| && gs[i].0 == d;
  }

  /** The departments of the report are those of the grouping, in the same
      order (so each occurs once, all occur, first-seen order). */
  lemma AvgRateDepartments(es: seq<Employee>)
    ensures |AvgRateOf(es)| == |GroupBy(es)|
    ensures forall i :: 0 <= i < |AvgRateOf(es)| ==> AvgRateOf(es)[i].0 == GroupBy(es)[i].0
  {
  }

  const Dave := Employee("4", "dave@example.com", "Dave Brown", "IT", 120.0, 30.0)
  const Eve := Employee("5", "eve@example.com", "Eve Davis", "IT", 140.0, 35.0)

  /** Two IT employees at rates 30 and 35: two employees, total 65, mean
      32.5. */
  lemma SampleAvgRate()
    ensures var r := AvgRateOf([Dave, Eve]);
            && |r| == 1 && r[0].0 == "IT"
            && r[0].1.employeeCount == 2 && r[0].1.totalRate == 65.0 && r[0].1.avgRate == 32.5
            && r[0].1.employees == ["Dave Brown", "Eve Davis"]
  {
    assert [Dave, Eve][..1] == [Dave] && [Dave][..0] == [];
    var g1 := GroupBy([Dave]);
    assert g1 == AddEmployee(GroupBy([]), Dave);
    assert FindDept([], "IT") == None;
    assert g1 == [("IT", [Dave])];
    assert FindDept(g1, "IT") == Some(0);
    assert GroupBy([Dave, Eve]) == AddEmployee(g1, Eve);
    assert [Dave] + [Eve] == [Dave, Eve];
    assert SumOf([Dave], Rate) == 30.0;
  }
}
