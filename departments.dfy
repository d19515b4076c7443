/** What both reports share: grouping employees by department into an
    insertion-ordered association list (the `defaultdict(list)` loops), the
    stable sort by name (`sorted(..., key=lambda x: x.name)`) and sums over
    a group. */
module Departments {
  import opened Common
  import opened Strings
  import opened Employees

  /** A department and its members, in the order they were met. */
  type Group = (string, seq<Employee>)

  /** The members of `es` that belong to department `d`, in input order. */
  function FilterDept(es: seq<Employee>, d: string): seq<Employee> {
    if |es| == 0 then []
    else
      var last := es[|es| - 1];
      FilterDept(es[..|es| - 1], d) + (if last.department == d then [last] else [])
  }

  /** Where department `d` sits in `gs`, if it is there. */
  function FindDept(gs: seq<Group>, d: string): (r: Option<nat>)
    ensures r.Some? ==> r.value < |gs| && gs[r.value].0 == d
    ensures r.None? ==> forall i :: 0 <= i < |gs| ==> gs[i].0 != d
  {
    if |gs| == 0 then None
    else if gs[|gs| - 1].0 == d then Some(|gs| - 1)
    else FindDept(gs[..|gs| - 1], d)
  }

  /** `departments[e.department].append(e)`. */
  function AddEmployee(gs: seq<Group>, e: Employee): seq<Group> {
    match FindDept(gs, e.department)
    case Some(i) => gs[i := (gs[i].0, gs[i].1 + [e])]
    case None => gs + [(e.department, [e])]
  }

  /** No department appears twice. */
  ghost predicate DistinctDepts(gs: seq<Group>) {
    forall i, j :: 0 <= i < j < |gs| ==> gs[i].0 != gs[j].0
  }

  /** `gs` groups `es`: each department once, each group non-empty and
      holding exactly that department's employees in input order, and no
      department of `es` left without a group. */
  ghost predicate GroupsOf(es: seq<Employee>, gs: seq<Group>) {
    && DistinctDepts(gs)
    && (forall i :: 0 <= i < |gs| ==> gs[i].1 == FilterDept(es, gs[i].0) && |gs[i].1| >= 1)
    && (forall d :: FindDept(gs, d).None? ==> FilterDept(es, d) == [])
  }

  /** The `defaultdict(list)` after appending every employee of `es`. */
  function GroupBy(es: seq<Employee>): seq<Group> {
    if |es| == 0 then [] else AddEmployee(GroupBy(es[..|es| - 1]), es[|es| - 1])
  }

  /** The grouping is exact: one group per department that occurs, holding
      exactly that department's employees in input order. */
  lemma {:induction false} GroupByGroups(es: seq<Employee>)
    ensures GroupsOf(es, GroupBy(es))
  {
    if |es| > 0 {
      GroupByGroups(es[..|es| - 1]);
      AddEmployeeGroups(es, GroupBy(es[..|es| - 1]));
    }
  }

  lemma FilterDeptSnoc(es: seq<Employee>, d: string)
    requires |es| > 0
    ensures FilterDept(es, d)
         == FilterDept(es[..|es| - 1], d) + (if es[|es| - 1].department == d then [es[|es| - 1]] else [])
  {
  }

  /** Appending the last employee keeps the grouping exact. */
  lemma AddEmployeeGroups(es: seq<Employee>, gs: seq<Group>)
    requires |es| > 0 && GroupsOf(es[..|es| - 1], gs)
    ensures GroupsOf(es, AddEmployee(gs, es[|es| - 1]))
  {
    var e := es[|es| - 1];
    match FindDept(gs, e.department)
    case Some(i) => AddToGroup(es, gs, i);
    case None => AddNewGroup(es, gs);
  }

  /** Appending to the group of an existing department. */
  lemma AddToGroup(es: seq<Employee>, gs: seq<Group>, i: nat)
    requires |es| > 0 && GroupsOf(es[..|es| - 1], gs)
    requires i < |gs| && gs[i].0 == es[|es| - 1].department
    ensures GroupsOf(es, gs[i := (gs[i].0, gs[i].1 + [es[|es| - 1]])])
  {
    var n := |es| - 1;
    var e := es[n];
    var gs' := gs[i := (gs[i].0, gs[i].1 + [e])];
    assert |gs'| == |gs| && forall j :: 0 <= j < |gs| ==> gs'[j].0 == gs[j].0;
    assert DistinctDepts(gs');
    forall j | 0 <= j < |gs'|
      ensures gs'[j].1 == FilterDept(es, gs'[j].0) && |gs'[j].1| >= 1
    {
      FilterDeptSnoc(es, gs[j].0);
      if j != i {
        assert gs'[j] == gs[j] && gs[j].0 != e.department;
      }
    }
    forall d | FindDept(gs', d).None? ensures FilterDept(es, d) == [] {
      assert forall j :: 0 <= j < |gs| ==> gs[j].0 != d;
      assert FindDept(gs, d).None?;
      FilterDeptSnoc(es, d);
    }
  }

  /** Opening a group for a department not seen before. */
  lemma AddNewGroup(es: seq<Employee>, gs: seq<Group>)
    requires |es| > 0 && GroupsOf(es[..|es| - 1], gs)
    requires FindDept(gs, es[|es| - 1].department).None?
    ensures GroupsOf(es, gs + [(es[|es| - 1].department, [es[|es| - 1]])])
  {
    var n := |es| - 1;
    var e := es[n];
    var gs' := gs + [(e.department, [e])];
    assert DistinctDepts(gs');
    forall j | 0 <= j < |gs'|
      ensures gs'[j].1 == FilterDept(es, gs'[j].0) && |gs'[j].1| >= 1
    {
      FilterDeptSnoc(es, gs'[j].0);
      if j < |gs| {
        assert gs'[j] == gs[j] && gs[j].0 != e.department;
      } else {
        assert gs'[j] == (e.department, [e]);
        assert FilterDept(es[..n], e.department) == [];
      }
    }
    forall d | FindDept(gs', d).None? ensures FilterDept(es, d) == [] {
      assert gs'[|gs|].0 == e.department;
      assert forall j :: 0 <= j < |gs| ==> gs[j].0 != d;
      assert FindDept(gs, d).None?;
      FilterDeptSnoc(es, d);
    }
  }

  /** Index of the first employee of department `d` in `es`. */
  function FirstSeen(es: seq<Employee>, d: string): (r: nat)
    requires exists k :: 0 <= k < |es| && es[k].department == d
    ensures r < |es| && es[r].department == d
    ensures forall k :: 0 <= k < r ==> es[k].department != d
  {
    if es[0].department == d then 0
    else
      assert exists k :: 0 <= k < |es[1..]| && es[1..][k].department == d by {
        var k :| 0 <= k < |es| && es[k].department == d;
        assert es[1..][k - 1] == es[k];
      }
      1 + FirstSeen(es[1..], d)
  }

  /** A department's members are empty exactly when no employee has it. */
  lemma {:induction false} FilterDeptEmpty(es: seq<Employee>, d: string)
    ensures FilterDept(es, d) == [] <==> forall k :: 0 <= k < |es| ==> es[k].department != d
  {
    if |es| > 0 {
      FilterDeptEmpty(es[..|es| - 1], d);
    }
  }

  /** The groups name exactly the departments that occur in the input. */
  lemma GroupByDepartments(es: seq<Employee>, d: string)
    ensures (exists i :: 0 <= i < |GroupBy(es)| && GroupBy(es)[i].0 == d)
        <==> (exists k :: 0 <= k < |es| && es[k].department == d)
  {
    var gs := GroupBy(es);
    if exists i :: 0 <= i < |gs| && gs[i].0 == d {
      var i :| 0 <= i < |gs| && gs[i].0 == d;
      GroupHasMember(es, i);
    }
    if exists k :: 0 <= k < |es| && es[k].department == d {
      var k :| 0 <= k < |es| && es[k].department == d;
      MemberHasGroup(es, k);
    }
  }

  /** Every group's department is that of some employee. */
  lemma GroupHasMember(es: seq<Employee>, i: nat)
    requires i < |GroupBy(es)|
    ensures exists k :: 0 <= k < |es| && es[k].department == GroupBy(es)[i].0
  {
    var gs := GroupBy(es);
    GroupByGroups(es);
    FilterDeptEmpty(es, gs[i].0);
    assert gs[i].1 == FilterDept(es, gs[i].0) && |gs[i].1| >= 1;
  }

  /** Every employee's department has a group. */
  lemma MemberHasGroup(es: seq<Employee>, k: nat)
    requires k < |es|
    ensures exists i :: 0 <= i < |GroupBy(es)| && GroupBy(es)[i].0 == es[k].department
  {
    var gs := GroupBy(es);
    var d := es[k].department;
    GroupByGroups(es);
    FilterDeptEmpty(es, d);
    assert FilterDept(es, d) != [];
    assert FindDept(gs, d).Some?;
    var i := FindDept(gs, d).value;
    assert gs[i].0 == d;
  }

  /** Groups are listed in the order their departments are first met. */
  lemma {:induction false} GroupByOrder(es: seq<Employee>, i: nat, j: nat)
    requires i < j < |GroupBy(es)|
    ensures exists k :: 0 <= k < |es| && es[k].department == GroupBy(es)[i].0
    ensures exists k :: 0 <= k < |es| && es[k].department == GroupBy(es)[j].0
    ensures FirstSeen(es, GroupBy(es)[i].0) < FirstSeen(es, GroupBy(es)[j].0)
  {
    var gs := GroupBy(es);
    GroupByDepartments(es, gs[i].0);
    GroupByDepartments(es, gs[j].0);
    var n := |es| - 1;
    var prev := GroupBy(es[..n]);
    var e := es[n];
    GroupByStep(es);
    if j < |prev| {
      GroupByOrder(es[..n], i, j);
      FirstSeenPrefix(es, n, gs[i].0);
      FirstSeenPrefix(es, n, gs[j].0);
    } else {
      assert prev[i].0 == gs[i].0;
      GroupByDepartments(es[..n], gs[i].0);
      FirstSeenPrefix(es, n, gs[i].0);
      GroupByDepartments(es[..n], e.department);
      forall k | 0 <= k < n ensures es[k].department != e.department {
        assert es[..n][k] == es[k];
      }
    }
  }

  /** One more employee keeps the groups there were, in place, and opens a
      group at the end only for a department not seen before. */
  lemma GroupByStep(es: seq<Employee>)
    requires |es| > 0
    ensures var prev := GroupBy(es[..|es| - 1]);
            var gs := GroupBy(es);
            var d := es[|es| - 1].department;
            && |prev| <= |gs| <= |prev| + 1
            && (forall i :: 0 <= i < |prev| ==> gs[i].0 == prev[i].0)
            && (|gs| == |prev| + 1 ==> gs[|prev|].0 == d && FindDept(prev, d).None?)
  {
    var prev := GroupBy(es[..|es| - 1]);
    var e := es[|es| - 1];
    var gs := GroupBy(es);
    assert gs == AddEmployee(prev, e);
    match FindDept(prev, e.department)
    case Some(i) =>
      assert gs == prev[i := (prev[i].0, prev[i].1 + [e])];
    case None =>
      assert gs == prev + [(e.department, [e])];
  }

  /** The first occurrence of a department in a prefix that holds it is its
      first occurrence in the whole sequence. */
  lemma FirstSeenPrefix(es: seq<Employee>, n: nat, d: string)
    requires n <= |es|
    requires exists k :: 0 <= k < n && es[..n][k].department == d
    ensures exists k :: 0 <= k < |es| && es[k].department == d
    ensures FirstSeen(es, d) == FirstSeen(es[..n], d)
  {
    var k :| 0 <= k < n && es[..n][k].department == d;
    assert es[k].department == d;
    var a := FirstSeen(es, d);
    var b := FirstSeen(es[..n], d);
    assert es[..n][b] == es[b];
    assert a <= b;
    assert es[..n][a] == es[a];
  }

  /** Total number of members over all groups. */
  function MemberCount(gs: seq<Group>): nat {
    if |gs| == 0 then 0 else MemberCount(gs[..|gs| - 1]) + |gs[|gs| - 1].1|
  }

  /** Adding one member to group `i` adds one to the member count. */
  lemma {:induction false} MemberCountUpdate(gs: seq<Group>, i: nat, g: Group)
    requires i < |gs| && |g.1| == |gs[i].1| + 1
    ensures MemberCount(gs[i := g]) == MemberCount(gs) + 1
  {
    var n := |gs| - 1;
    if i < n {
      assert gs[i := g][..n] == gs[..n][i := g];
      MemberCountUpdate(gs[..n], i, g);
    } else {
      assert gs[i := g][..n] == gs[..n];
    }
  }

  /** Every employee lands in exactly one group: the group sizes add up to the
      number of employees. */
  lemma {:induction false} GroupBySize(es: seq<Employee>)
    ensures MemberCount(GroupBy(es)) == |es|
  {
    if |es| > 0 {
      var n := |es| - 1;
      var prev := GroupBy(es[..n]);
      GroupBySize(es[..n]);
      assert es[..n + 1] == es;
      match FindDept(prev, es[n].department)
      case Some(i) =>
        MemberCountUpdate(prev, i, (prev[i].0, prev[i].1 + [es[n]]));
      case None =>
        assert (prev + [(es[n].department, [es[n]])])[..|prev|] == prev;
    }
  }

  /** Sum of `f` over `es`. */
  function SumOf(es: seq<Employee>, f: Employee -> real): real {
    if |es| == 0 then 0.0 else SumOf(es[..|es| - 1], f) + f(es[|es| - 1])
  }

  lemma {:induction false} SumOfConcat(a: seq<Employee>, b: seq<Employee>, f: Employee -> real)
    ensures SumOf(a + b, f) == SumOf(a, f) + SumOf(b, f)
  {
    if |b| == 0 {
      assert a + b == a;
    } else {
      var n := |b| - 1;
      SumOfConcat(a, b[..n], f);
      assert (a + b)[..|a + b| - 1] == a + b[..n];
    }
  }

  /** Every employee in `s` is named no earlier than the one before. */
  ghost predicate SortedByName(s: seq<Employee>) {
    forall i, j :: 0 <= i < j < |s| ==> NameLe(s[i].name, s[j].name)
  }

  /** Places `x` before the first employee whose name is not smaller. */
  function Insert(x: Employee, s: seq<Employee>): (r: seq<Employee>)
    ensures |r| == |s| + 1
  {
    if |s| == 0 then [x]
    else if NameLe(x.name, s[0].name) then [x] + s
    else [s[0]] + Insert(x, s[1..])
  }

  /** Inserting adds exactly `x`. */
  lemma {:induction false} InsertPerm(x: Employee, s: seq<Employee>)
    ensures multiset(Insert(x, s)) == multiset(s) + multiset{x}
  {
    if |s| > 0 && !NameLe(x.name, s[0].name) {
      InsertPerm(x, s[1..]);
      assert s == [s[0]] + s[1..];
    }
  }

  /** Inserting into a sorted sequence keeps it sorted. */
  lemma {:induction false} InsertSorted(x: Employee, s: seq<Employee>)
    requires SortedByName(s)
    ensures SortedByName(Insert(x, s))
  {
    if |s| == 0 {
    } else if NameLe(x.name, s[0].name) {
      forall j | 0 < j < |s| + 1 ensures NameLe(x.name, ([x] + s)[j].name) {
        if j > 1 { NameLeTrans(x.name, s[0].name, s[j - 1].name); }
      }
    } else {
      var t := Insert(x, s[1..]);
      assert SortedByName(s[1..]) by {
        forall i, j | 0 <= i < j < |s| - 1 ensures NameLe(s[1..][i].name, s[1..][j].name) {
          assert s[1..][i] == s[i + 1] && s[1..][j] == s[j + 1];
        }
      }
      InsertSorted(x, s[1..]);
      InsertPerm(x, s[1..]);
      NameLeTotal(x.name, s[0].name);
      forall j | 0 <= j < |t| ensures NameLe(s[0].name, t[j].name) {
        assert t[j] in multiset(t);
        assert t[j] == x || t[j] in multiset(s[1..]);
        if t[j] != x {
          var k :| 0 <= k < |s[1..]| && s[1..][k] == t[j];
          assert s[k + 1] == t[j];
        }
      }
      assert Insert(x, s) == [s[0]] + t;
    }
  }

  /** Python's `sorted(..., key=name)`: a stable sort by name. */
  function SortByName(es: seq<Employee>): (r: seq<Employee>)
    ensures |r| == |es|
  {
    if |es| == 0 then [] else Insert(es[0], SortByName(es[1..]))
  }

  /** The sort returns a permutation of its input. */
  lemma {:induction false} SortByNamePerm(es: seq<Employee>)
    ensures multiset(SortByName(es)) == multiset(es)
  {
    if |es| > 0 {
      SortByNamePerm(es[1..]);
      InsertPerm(es[0], SortByName(es[1..]));
      assert es == [es[0]] + es[1..];
    }
  }

  /** The sort returns its input ordered by name. */
  lemma {:induction false} SortByNameSorted(es: seq<Employee>)
    ensures SortedByName(SortByName(es))
  {
    if |es| > 0 {
      SortByNameSorted(es[1..]);
      InsertSorted(es[0], SortByName(es[1..]));
    }
  }

  /** The employees of `s` named `n`, in order. */
  function Named(s: seq<Employee>, n: string): seq<Employee> {
    if |s| == 0 then [] else (if s[0].name == n then [s[0]] else []) + Named(s[1..], n)
  }

  lemma NamedCons(y: Employee, s: seq<Employee>, n: string)
    ensures Named([y] + s, n) == (if y.name == n then [y] else []) + Named(s, n)
  {
    assert ([y] + s)[0] == y && ([y] + s)[1..] == s;
  }

  /** Inserting an employee puts it before the employees of the same name
      already in the list. */
  lemma {:induction false} NamedInsert(x: Employee, s: seq<Employee>, n: string)
    ensures Named(Insert(x, s), n) == (if x.name == n then [x] else []) + Named(s, n)
  {
    if |s| == 0 {
      NamedCons(x, s, n);
    } else if NameLe(x.name, s[0].name) {
      NamedCons(x, s, n);
    } else {
      var t := Insert(x, s[1..]);
      NamedInsert(x, s[1..], n);
      NameLeRefl(x.name);
      assert x.name != s[0].name;
      var hx := if x.name == n then [x] else [];
      var hs := if s[0].name == n then [s[0]] else [];
      assert Insert(x, s) == [s[0]] + t;
      NamedCons(s[0], t, n);
      assert s == [s[0]] + s[1..];
      NamedCons(s[0], s[1..], n);
      if x.name == n {
        assert hs == [];
      } else {
        assert hx == [];
      }
      assert hs + (hx + Named(s[1..], n)) == hx + (hs + Named(s[1..], n));
    }
  }

  /** The sort is stable: employees sharing a name keep their input order. */
  lemma {:induction false} SortByNameStable(es: seq<Employee>, n: string)
    ensures Named(SortByName(es), n) == Named(es, n)
  {
    if |es| > 0 {
      SortByNameStable(es[1..], n);
      NamedInsert(es[0], SortByName(es[1..]), n);
    }
  }

  lemma {:induction false} SumOfInsert(x: Employee, s: seq<Employee>, f: Employee -> real)
    ensures SumOf(Insert(x, s), f) == f(x) + SumOf(s, f)
  {
    if |s| == 0 {
      SumOfConcat([], [x], f);
    } else if NameLe(x.name, s[0].name) {
      SumOfConcat([x], s, f);
      SumOfConcat([], [x], f);
    } else {
      SumOfInsert(x, s[1..], f);
      SumOfConcat([s[0]], Insert(x, s[1..]), f);
      SumOfConcat([s[0]], s[1..], f);
      SumOfConcat([], [s[0]], f);
      assert [s[0]] + s[1..] == s;
    }
  }

  /** Sorting does not change a sum. */
  lemma {:induction false} SumOfSort(es: seq<Employee>, f: Employee -> real)
    ensures SumOf(SortByName(es), f) == SumOf(es, f)
  {
    if |es| > 0 {
      SumOfSort(es[1..], f);
      SumOfInsert(es[0], SortByName(es[1..]), f);
      SumOfConcat([es[0]], es[1..], f);
      SumOfConcat([], [es[0]], f);
      assert [es[0]] + es[1..] == es;
    }
  }

  /** `departments` filled by the source's first loop. */
  method GroupByDepartment(es: seq<Employee>) returns (gs: seq<Group>)
    ensures gs == GroupBy(es)
  {
    gs := [];
    var i := 0;
    while i < |es|
      invariant 0 <= i <= |es|
      invariant gs == GroupBy(es[..i])
    {
      var e := es[i];
      assert es[..i + 1][..i] == es[..i];
      var found := FindDept(gs, e.department);
      if found.Some? {
        var j := found.value;
        gs := gs[j := (gs[j].0, gs[j].1 + [e])];
      } else {
        gs := gs + [(e.department, [e])];
      }
      i := i + 1;
    }
    assert es[..i] == es;
  }
}
