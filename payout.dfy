/** `PayoutReport`: per department, the employees sorted by name with their
    hours, rate and payout, and the department's total hours and payout. */
module PayoutReport {
  import opened Common
  import opened Strings
  import opened Employees
  import opened Departments

  /** One employee's entry in the report. */
  datatype PayoutLine = PayoutLine(name: string, email: string, hours: real, rate: real, payout: real)

  /** One department's entry in the report. */
  datatype PayoutDept = PayoutDept(employees: seq<PayoutLine>, totalHours: real, totalPayout: real)

  /** The report: departments with their entries, in insertion order. */
  type PayoutData = seq<(string, PayoutDept)>

  function LineOf(e: Employee): PayoutLine {
    PayoutLine(e.name, e.email, e.hoursWorked, e.rate, Payout(e))
  }

  function LinesOf(es: seq<Employee>): (r: seq<PayoutLine>)
    ensures |r| == |es|
  {
    seq(|es|, k requires 0 <= k < |es| => LineOf(es[k]))
  }

  /** A department's entry: its members' lines in name order, and the sums of
      their hours and payouts. */
  function Summary(members: seq<Employee>): PayoutDept {
    PayoutDept(LinesOf(SortByName(members)), SumOf(members, Hours), SumOf(members, Payout))
  }

  function Summarize(gs: seq<Group>): (r: PayoutData)
    ensures |r| == |gs|
  {
    seq(|gs|, i requires 0 <= i < |gs| => (gs[i].0, Summary(gs[i].1)))
  }

  lemma SummarizeSnoc(gs: seq<Group>, i: nat)
    requires i < |gs|
    ensures Summarize(gs[..i + 1]) == Summarize(gs[..i]) + [(gs[i].0, Summary(gs[i].1))]
  {
    assert gs[..i + 1][..i] == gs[..i];
  }

  lemma LinesOfSnoc(es: seq<Employee>, j: nat)
    requires j < |es|
    ensures LinesOf(es[..j + 1]) == LinesOf(es[..j]) + [LineOf(es[j])]
  {
    assert es[..j + 1][..j] == es[..j];
  }

  /** What `PayoutReport.generate` returns for `es`. */
  function PayoutOf(es: seq<Employee>): PayoutData {
    Summarize(GroupBy(es))
  }

  /** `PayoutReport.generate`: groups, then walks each group in name order
      adding up hours and payouts. */
  method Generate(es: seq<Employee>) returns (report: PayoutData)
    ensures report == PayoutOf(es)
  {
    var departments := GroupByDepartment(es);
    report := [];
    var i := 0;
    while i < |departments|
      invariant 0 <= i <= |departments|
      invariant report == Summarize(departments[..i])
    {
      var department := departments[i].0;
      var members := departments[i].1;
      var lines: seq<PayoutLine> := [];
      var totalHours := 0.0;
      var totalPayout := 0.0;
      var sorted := SortByName(members);
      var j := 0;
      while j < |sorted|
        invariant 0 <= j <= |sorted|
        invariant lines == LinesOf(sorted[..j])
        invariant totalHours == SumOf(sorted[..j], Hours)
        invariant totalPayout == SumOf(sorted[..j], Payout)
      {
        var e := sorted[j];
        assert sorted[..j + 1][..j] == sorted[..j];
        LinesOfSnoc(sorted, j);
        lines := lines + [LineOf(e)];
        totalHours := totalHours + e.hoursWorked;
        totalPayout := totalPayout + Payout(e);
        j := j + 1;
      }
      assert sorted[..j] == sorted;
      SumOfSort(members, Hours);
      SumOfSort(members, Payout);
      SummarizeSnoc(departments, i);
      report := report + [(department, PayoutDept(lines, totalHours, totalPayout))];
      i := i + 1;
    }
    assert departments[..i] == departments;
  }

  /** Each department's entry: its employees are that department's members
      (at least one), as a permutation sorted by name, stable among equal
      names; the totals are the sums over those members. */
  lemma PayoutDepartment(es: seq<Employee>, i: nat)
    requires i < |PayoutOf(es)|
    ensures var d := PayoutOf(es)[i].0;
            var m := FilterDept(es, d);
            var p := PayoutOf(es)[i].1;
            && |m| >= 1
            && (exists k :: 0 <= k < |es| && es[k].department == d)
            && p.employees == LinesOf(SortByName(m))
            && multiset(SortByName(m)) == multiset(m)
            && (forall a, b :: 0 <= a < b < |p.employees| ==> NameLe(p.employees[a].name, p.employees[b].name))
            && (forall n :: Named(SortByName(m), n) == Named(m, n))
            && p.totalHours == SumOf(m, Hours)
            && p.totalPayout == SumOf(m, Payout)
  {
    var gs := GroupBy(es);
    var d := gs[i].0;
    var m := FilterDept(es, d);
    GroupByDepartments(es, d);
    GroupByGroups(es);
    assert 0 <= i < |gs| && gs[i].0 == d;
    var sorted := SortByName(m);
    SortByNamePerm(m);
    SortByNameSorted(m);
    forall a, b | 0 <= a < b < |sorted| ensures NameLe(LinesOf(sorted)[a].name, LinesOf(sorted)[b].name) {
    }
    forall n ensures Named(SortByName(m), n) == Named(m, n) {
      SortByNameStable(m, n);
    }
  }

  /** The departments of the report are those of the grouping, in the same
      order (so each occurs once, all occur, first-seen order). */
  lemma PayoutDepartments(es: seq<Employee>)
    ensures |PayoutOf(es)| == |GroupBy(es)|
    ensures forall i :: 0 <= i < |PayoutOf(es)| ==> PayoutOf(es)[i].0 == GroupBy(es)[i].0
  {
  }

  /** Number of employee entries over the report. */
  function LineCount(report: PayoutData): nat {
    if |report| == 0 then 0 else LineCount(report[..|report| - 1]) + |report[|report| - 1].1.employees|
  }

  lemma {:induction false} LineCountSummarize(gs: seq<Group>)
    ensures LineCount(Summarize(gs)) == MemberCount(gs)
  {
    if |gs| > 0 {
      var n := |gs| - 1;
      LineCountSummarize(gs[..n]);
      assert Summarize(gs)[..n] == Summarize(gs[..n]);
    }
  }

  /** Every employee appears in exactly one department entry: the entry
      lengths add up to the number of employees. */
  lemma PayoutSize(es: seq<Employee>)
    ensures LineCount(PayoutOf(es)) == |es|
  {
    LineCountSummarize(GroupBy(es));
    GroupBySize(es);
  }

  /** The employees of the report test: Alice (Marketing, 160 h at 50), Bob
      and Carol (Design, 150 h at 40 and 170 h at 60). */
  const Alice := Employee("1", "alice@example.com", "Alice Johnson", "Marketing", 160.0, 50.0)
  const Bob := Employee("2", "bob@example.com", "Bob Smith", "Design", 150.0, 40.0)
  const Carol := Employee("3", "carol@example.com", "Carol Williams", "Design", 170.0, 60.0)

  lemma SampleGroups()
    ensures GroupBy([Alice, Bob, Carol]) == [("Marketing", [Alice]), ("Design", [Bob, Carol])]
  {
    assert [Alice, Bob, Carol][..2] == [Alice, Bob];
    assert [Alice, Bob][..1] == [Alice];
    assert [Alice][..0] == [];
    var g1 := GroupBy([Alice]);
    assert g1 == AddEmployee(GroupBy([]), Alice);
    assert FindDept([], "Marketing") == None;
    assert g1 == [("Marketing", [Alice])];
    assert FindDept(g1, "Design") == None;
    var g2 := GroupBy([Alice, Bob]);
    assert g2 == AddEmployee(g1, Bob);
    assert g2 == [("Marketing", [Alice]), ("Design", [Bob])];
    assert FindDept(g2, "Design") == Some(1);
    assert GroupBy([Alice, Bob, Carol]) == AddEmployee(g2, Carol);
    assert [Bob] + [Carol] == [Bob, Carol];
  }

  lemma SampleSort()
    ensures SortByName([Bob, Carol]) == [Bob, Carol]
  {
    assert [Bob, Carol][1..] == [Carol];
    assert [Carol][1..] == [];
    assert SortByName([Carol]) == [Carol];
    assert NameLe(Bob.name, Carol.name);
  }

  /** The report test: Marketing pays 8000, Design pays 150 * 40 + 170 * 60
      = 16200 to its two employees, listed by name. */
  lemma SamplePayout()
    ensures var r := PayoutOf([Alice, Bob, Carol]);
            && |r| == 2
            && r[0].0 == "Marketing" && r[0].1.totalPayout == 8000.0
            && r[1].0 == "Design" && r[1].1.totalPayout == 16200.0
            && |r[1].1.employees| == 2
            && r[1].1.employees[0].name == "Bob Smith" && r[1].1.employees[1].name == "Carol Williams"
  {
    SampleGroups();
    assert PayoutOf([Alice, Bob, Carol])
        == [("Marketing", Summary([Alice])), ("Design", Summary([Bob, Carol]))];
    SampleSums();
    SampleSort();
    assert LinesOf([Bob, Carol]) == [LineOf(Bob), LineOf(Carol)];
  }

  lemma SampleSums()
    ensures SumOf([Alice], Payout) == 8000.0
    ensures SumOf([Bob, Carol], Payout) == 16200.0
  {
    assert [Alice][..0] == [] && [Bob, Carol][..1] == [Bob] && [Bob][..0] == [];
    assert SumOf([Bob], Payout) == 6000.0;
  }
}
