/** The `Employee` record: identity fields read from a row with `""` as the
    default, hours and rate converted to numbers, and the derived payout. */
module Employees {
  import opened Common

  /** Python's `float()` on a field's text, left abstract: any conversion
      that either yields a number or fails. */
  type Parser = string -> Option<real>

  /** An employee once constructed; the source never updates one. */
  datatype Employee = Employee(
    id: string,
    email: string,
    name: string,
    department: string,
    hoursWorked: real,
    rate: real)

  function Hours(e: Employee): real { e.hoursWorked }

  function Rate(e: Employee): real { e.rate }

  /** The `payout` property: hours worked times the rate. */
  function Payout(e: Employee): real { e.hoursWorked * e.rate }

  /** The keys that may hold the rate, highest priority first. */
  const RateKeys: seq<string> := ["hourly_rate", "rate", "salary"]

  const HoursKey: string := "hours_worked"

  /** `row.get(key, '')`. */
  function Get(row: Row, key: string): (r: string)
    ensures key in row ==> r == row[key]
    ensures key !in row ==> r == ""
  {
    if key in row then row[key] else ""
  }

  /** The position in `keys` of the first key that `row` holds, if any. */
  function FirstPresent(keys: seq<string>, row: Row): (r: Option<nat>)
    ensures r.Some? ==> r.value < |keys| && keys[r.value] in row
                        && forall j :: 0 <= j < r.value ==> keys[j] !in row
    ensures r.None? ==> forall j :: 0 <= j < |keys| ==> keys[j] !in row
  {
    if |keys| == 0 then None
    else if keys[0] in row then Some(0)
    else match FirstPresent(keys[1..], row)
      case None => None
      case Some(i) => Some(i + 1)
  }

  /** What `Employee(row)` yields: the hours are converted first, then the
      value of the first rate key present; the first failing conversion is
      the error. */
  function FromRow(row: Row, num: Parser): Result<Employee> {
    var hours := if HoursKey in row then num(row[HoursKey]) else Some(0.0);
    if hours.None? then Err(ConversionError(row[HoursKey]))
    else
      var make := (rate: real) =>
        Employee(Get(row, "id"), Get(row, "email"), Get(row, "name"),
                 Get(row, "department"), hours.value, rate);
      match FirstPresent(RateKeys, row)
      case None => Ok(make(0.0))
      case Some(i) =>
        match num(row[RateKeys[i]])
        case None => Err(ConversionError(row[RateKeys[i]]))
        case Some(v) => Ok(make(v))
  }

  /** `Employee.__init__`: assigns the fields, then scans the rate keys in
      priority order and stops at the first one present. */
  method NewEmployee(row: Row, num: Parser) returns (r: Result<Employee>)
    ensures r == FromRow(row, num)
  {
    var id := Get(row, "id");
    var email := Get(row, "email");
    var name := Get(row, "name");
    var department := Get(row, "department");
    var hours := 0.0;
    if HoursKey in row {
      var h := num(row[HoursKey]);
      if h.None? {
        return Err(ConversionError(row[HoursKey]));
      }
      hours := h.value;
    }
    var rate := 0.0;
    var i := 0;
    while i < |RateKeys|
      invariant 0 <= i <= |RateKeys|
      invariant forall j :: 0 <= j < i ==> RateKeys[j] !in row
      invariant rate == 0.0
    {
      var key := RateKeys[i];
      if key in row {
        var v := num(row[key]);
        if v.None? {
          return Err(ConversionError(row[key]));
        }
        rate := v.value;
        assert FirstPresent(RateKeys, row) == Some(i);
        break;
      }
      i := i + 1;
    }
    r := Ok(Employee(id, email, name, department, hours, rate));
  }

  /** The rate is the value under the first rate key the row holds, whatever
      the later keys hold. */
  lemma RateFromFirstKey(row: Row, num: Parser, k: nat)
    requires k < |RateKeys| && RateKeys[k] in row
    requires forall j :: 0 <= j < k ==> RateKeys[j] !in row
    requires HoursKey in row ==> num(row[HoursKey]).Some?
    requires num(row[RateKeys[k]]).Some?
    ensures FromRow(row, num).Ok?
    ensures FromRow(row, num).value.rate == num(row[RateKeys[k]]).value
  {
    assert FirstPresent(RateKeys, row) == Some(k);
  }

  /** With none of the rate keys present, construction fails only if the
      hours do not convert, and otherwise the rate is 0. */
  lemma RateDefault(row: Row, num: Parser)
    requires forall j :: 0 <= j < |RateKeys| ==> RateKeys[j] !in row
    ensures FromRow(row, num).Ok? <==> (HoursKey !in row || num(row[HoursKey]).Some?)
    ensures FromRow(row, num).Ok? ==> FromRow(row, num).value.rate == 0.0
  {
  }

  /** The hours are the converted `hours_worked` field, or 0 when the row
      has none. */
  lemma HoursDefault(row: Row, num: Parser)
    ensures FromRow(row, num).Ok? ==>
      FromRow(row, num).value.hoursWorked == if HoursKey in row then num(row[HoursKey]).value else 0.0
  {
  }

  /** The text fields are read with `""` as the default. */
  lemma FieldDefaults(row: Row, num: Parser)
    ensures var r := FromRow(row, num);
            r.Ok? ==> && r.value.id == Get(row, "id") && r.value.email == Get(row, "email")
                      && r.value.name == Get(row, "name") && r.value.department == Get(row, "department")
  {
  }

  /** Construction fails exactly when the hours, or the first rate key
      present, do not convert. */
  lemma ConversionFailure(row: Row, num: Parser)
    ensures FromRow(row, num).Err? <==>
      (HoursKey in row && num(row[HoursKey]).None?)
      || (exists k :: 0 <= k < |RateKeys| && RateKeys[k] in row
                       && (forall j :: 0 <= j < k ==> RateKeys[j] !in row)
                       && num(row[RateKeys[k]]).None?)
  {
    var fp := FirstPresent(RateKeys, row);
    if fp.Some? {
      var k := fp.value;
      forall k' | 0 <= k' < |RateKeys| && RateKeys[k'] in row
                  && (forall j :: 0 <= j < k' ==> RateKeys[j] !in row)
        ensures k' == k
      {
      }
    }
  }

  /** The constructor's test case: 160 hours at a rate of 50 pay 8000. */
  lemma SampleEmployee(num: Parser)
    requires num("160") == Some(160.0) && num("50") == Some(50.0)
    ensures var row := map["id" := "1", "email" := "test@example.com", "name" := "Test User",
                           "department" := "Test Dept", "hours_worked" := "160", "rate" := "50"];
            var r := FromRow(row, num);
            r.Ok? && r.value.name == "Test User" && r.value.department == "Test Dept"
            && r.value.hoursWorked == 160.0 && r.value.rate == 50.0 && Payout(r.value) == 8000.0
  {
    var row := map["id" := "1", "email" := "test@example.com", "name" := "Test User",
                   "department" := "Test Dept", "hours_worked" := "160", "rate" := "50"];
    assert "hourly_rate" !in row;
    assert FirstPresent(RateKeys, row) == Some(1);
  }
}
