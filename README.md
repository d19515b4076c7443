# Timesheet reports, modelled in Dafny

The program reads CSV timesheets of employees and prints one of two
reports. The payout report gives each department its employees, ordered by
name, with their hours, rate and payout, plus the department's total hours
and total payout. The average-rate report gives each department its
employee count, the sum and the mean of their rates, and their names.
This project models the core of that pipeline and proves what each step
promises:

- `Csv`: `ReportGenerator.check_csv_file` once the lines of the file are
  in hand. The header line and every data line are split on commas and
  their fields stripped. A data line with as many fields as the header
  becomes a row (`dict(zip(headers, values))`); any other data line is
  skipped. The append loop is the method `ParseCsv`, proved equal to the
  function `CsvRows`.
- `Employees`: `Employee.__init__` as the method `NewEmployee` (the field
  assignments and the loop with `break` over the rate keys), proved equal
  to the function `FromRow`, together with the `payout` property.
- `Departments`: what both reports share.
  - Grouping by department: the `defaultdict(list)` loop becomes the
    method `GroupByDepartment` over an insertion-ordered association list,
    proved equal to the function `GroupBy`.
  - Python's `sorted(..., key=name)`, modelled as a stable insertion sort.
  - Sums over a group.
- `PayoutReport`: `PayoutReport.generate`. The method `Generate` keeps
  the source's nested loops, which add up the totals in name order. It is
  proved equal to the function `PayoutOf`.
- `PayoutFormat`: the line structure of `PayoutReport.format`, as the
  method `Format`. How an employee row or a total row is rendered is a
  parameter. The f-string rows themselves are given as `EmployeeRow` and
  `TotalRow`, with the numbers left abstract.
- `AvgRateReport`: `AvgRateReport.generate`, as the method `Generate`,
  proved equal to `AvgRateOf`.
- `Registry`: `ReportGenerator.get_report`, a closed lookup that returns a
  `Result`.
- `Strings`: the Python string operations the core uses, with their
  properties proved:
  - `str.split`, `str.strip` and `'\n'.join`;
  - right alignment in a field;
  - comparison of strings.

Numbers are exact `real`s. Python's `float()` on a field is a parameter
`num: string -> Option<real>`; `None` stands for the `ValueError` it
raises.

The tests at `test.py:65` and `test.py:78-79` call
`ReportGenerator.crt_payout_report` and
`ReportGenerator.format_of_report`, and neither exists in `Main.py`. The
model reads them as `PayoutReport.generate` and `PayoutReport.format`.
The values asserted at `test.py:65-71` are proved as the `Sample…`
lemmas. For `test.py:74-85`, `FormattedTextContains` proves for every
report that the text contains each employee's name and each department's
rendered total; the digits of that rendering are not modelled.

## Model

| member | source | states |
|---|---|---|
| Strings.Split | Main.py:132-136 | `split(',')` yields one piece more than the line has commas; `SplitPieces`, `JoinSplit` and `SplitJoin` below fix the pieces |
| Strings.Strip | Main.py:132-136 | `str.strip()`, defined by trimming both ends; `StripSpec` below states what it leaves |
| Strings.StripSpec | Main.py:132-136 | `strip()` leaves a slice of its input that neither starts nor ends with white space; everything it removed from either end is white space (Python's `isspace` set) |
| Strings.SplitPieces | Main.py:132-136 | no piece of `split(',')` contains a comma |
| Strings.JoinSplit | Main.py:132-136 | joining the pieces of a split with the separator gives back the original line |
| Strings.SplitJoin | Main.py:132-136 | splitting pieces that contain no separator, once they are joined, gives back exactly those pieces |
| Strings.Join | Main.py:84 | `"\n".join`: the parts with the separator between each two; `JoinSplit`, `SplitJoin` and `JoinContains` state its properties |
| Strings.JoinContains | Main.py:84 | every line passed to `"\n".join` is a substring of the result |
| Strings.PadLeft | Main.py:76 | right alignment (`>w`) gives a text of length max(w, len) that ends with the original text and has only spaces before it |
| Strings.NameLeTotal | Main.py:53 | any two names are comparable in the order `sorted` uses |
| Strings.NameLeTrans | Main.py:53 | the name order is transitive |
| Strings.NameLeAntisym | Main.py:53 | two names ordered both ways are equal |
| Csv.Fields | Main.py:132-136 | a line yields one field more than it has commas |
| Csv.Zip | Main.py:139 | `dict(zip(headers, values))` for equally long lists, built by updating a map pair by pair; `ZipSpec` below states its keys and values |
| Csv.ZipSpec | Main.py:139 | the row's keys are exactly the header names, and a repeated name keeps the value at its last position |
| Csv.ParseCsv | Main.py:129-141 | the append loop computes `CsvRows`; an empty file or a header-only file yields no rows; there are at most `len(lines) - 1` rows; every row's key set is the set of header names |
| Csv.RowsOfKeys | Main.py:135-139 | every row built under a header has exactly the header names as keys |
| Csv.RowsOfConcat | Main.py:135-139 | lines are parsed independently: the rows of two consecutive blocks of lines are the rows of each block, in order |
| Csv.CsvSplice | Main.py:135-139 | a data line contributes a row exactly when it has as many commas as the header line; the row is the zip of the header fields with its fields, placed between the rows of the lines before and after it |
| Csv.CsvAllKept | Main.py:135-139 | when every data line has as many commas as the header, the rows correspond one to one with the data lines, in order |
| Employees.Get | Main.py:10-13 | a missing field reads as `""` and a present one as its value |
| Employees.FromRow | Main.py:9-21 | the employee `Employee(row)` constructs, or the conversion error it raises; `RateFromFirstKey`, the default lemmas and `ConversionFailure` below state its behaviour |
| Employees.Payout | Main.py:24-25 | the `payout` property: hours worked times the rate (its test value is in `SampleEmployee`) |
| Employees.FirstPresent | Main.py:16-21 | finds the first rate key that the row holds, with no earlier key present; otherwise no key is present |
| Employees.NewEmployee | Main.py:9-21 | the constructor's loop with `break` computes `FromRow`, including its conversion errors |
| Employees.RateFromFirstKey | Main.py:16-21 | the rate is the converted value of the first present key among `hourly_rate`, `rate`, `salary`, whatever later keys hold |
| Employees.RateDefault | Main.py:14-21 | with none of the rate keys present, construction succeeds exactly when the hours convert (or are absent), and the rate is then 0 |
| Employees.HoursDefault | Main.py:14 | the hours are the converted `hours_worked` field, or 0 when the row has none |
| Employees.FieldDefaults | Main.py:10-13 | `id`, `email`, `name` and `department` are the row's fields, `""` when absent |
| Employees.ConversionFailure | Main.py:14-20 | construction fails exactly when `hours_worked` is present and does not convert, or the first present rate key does not convert |
| Employees.SampleEmployee | test.py:22-36 | the test row gives name `Test User`, department `Test Dept`, hours 160, rate 50 and payout 8000 |
| Departments.FindDept | Main.py:43 | the lookup returns a position holding the department, or it answers that no group holds it |
| Departments.AddEmployeeGroups | Main.py:42-43 | appending one more employee to its department's list keeps the grouping exact |
| Departments.GroupByGroups | Main.py:41-43 | each department occurs once; each group is non-empty and holds exactly that department's employees, in input order; no department of the input is missing |
| Departments.GroupByDepartments | Main.py:41-43 | a department has a group if and only if some employee belongs to it |
| Departments.GroupByOrder | Main.py:41-46 | groups are listed in the order in which their departments are first met in the input |
| Departments.GroupByStep | Main.py:42-43 | one more employee leaves the existing groups in place and opens a group at the end only for a department not seen before |
| Departments.GroupBySize | Main.py:41-43 | the group sizes add up to the number of employees |
| Departments.GroupByDepartment | Main.py:41-43 | the `defaultdict` loop builds `GroupBy` of the input |
| Departments.InsertPerm | Main.py:53 | inserting adds exactly the inserted employee |
| Departments.InsertSorted | Main.py:53 | inserting into a name-sorted list keeps it sorted |
| Departments.SortByName | Main.py:53 | `sorted(..., key=name)` as an insertion sort; the result has the input's length, and the three lemmas below make it a stable, sorted permutation |
| Departments.SortByNamePerm | Main.py:53 | `sorted` returns a permutation of its input |
| Departments.SortByNameSorted | Main.py:53 | `sorted` returns its input in name order |
| Departments.SortByNameStable | Main.py:53 | the sort is stable: employees who share a name keep their input order |
| Departments.NamedInsert | Main.py:53 | inserting an employee puts it before the employees of the same name already in the list, which keeps equal names in input order, since the sort inserts each employee into the already sorted employees that follow it |
| Departments.SumOfConcat | Main.py:61-62 | a sum over two consecutive lists is the sum of the two sums |
| Departments.SumOfSort | Main.py:53-62 | summing in name order gives the same total as summing in input order |
| PayoutReport.Generate | Main.py:40-66 | the nested loops compute `PayoutOf`: each department's lines in name order and its totals |
| PayoutReport.PayoutDepartment | Main.py:45-64 | each entry's employees are that department's members (at least one); they are a permutation of them, sorted by name and stable among equal names; `total_hours` and `total_payout` are the sums of the members' hours and payouts |
| PayoutReport.PayoutDepartments | Main.py:45-64 | the report's departments are the groups' departments, in the same order |
| PayoutReport.PayoutSize | Main.py:41-64 | the employee lists of all departments together have as many entries as there were employees |
| PayoutReport.SampleGroups | test.py:61-69 | the test's three employees group as Marketing: Alice, Design: Bob and Carol |
| PayoutReport.SampleSort | test.py:61-69 | Bob and Carol stay in that order when sorted by name |
| PayoutReport.SampleSums | test.py:70-71 | Marketing pays 8000 and Design 16200 |
| PayoutReport.SamplePayout | test.py:61-71 | the payout report of the test has Marketing (8000) and then Design (16200), and Design has two employees, Bob then Carol |
| PayoutFormat.EmployeeRow | Main.py:76 | the employee row: name right-aligned to 20, hours and rate to 10, `$` and the two-decimal payout right-aligned to 10, separated by spaces |
| PayoutFormat.TotalRow | Main.py:80 | the total row: `Total` right-aligned to 20, total hours to 10, an empty cell of 10, `$` and the two-decimal total payout right-aligned to 10 |
| PayoutFormat.EmployeeRows | Main.py:74-77 | one row per employee entry, in order |
| PayoutFormat.BlockShape | Main.py:70-82 | a department's block is its name, an underline of `-` as long as the name, one row per employee, the total row and an empty line |
| PayoutFormat.Format | Main.py:68-84 | the loop joins, with newlines, the blocks of all departments in report order |
| PayoutFormat.FormatLineCount | Main.py:69-82 | the output has four lines per department plus one per employee |
| PayoutFormat.FormatLinesPrefix | Main.py:69-82 | the lines of the first departments begin the lines of all |
| PayoutFormat.BlockInFormat | Main.py:69-82 | each department's block appears intact in the output lines, at its start position |
| PayoutFormat.RowsInText | Main.py:74-84 | every employee row and every total row is a substring of the formatted text |
| PayoutFormat.BlockLineInText | Main.py:69-84 | every line of every block is a substring of the formatted text |
| PayoutFormat.PadLeftContains | Main.py:76 | a padded cell contains the text it pads |
| PayoutFormat.EmployeeRowShowsName | Main.py:76 | an employee row contains the employee's name |
| PayoutFormat.TotalRowShowsPayout | Main.py:80 | a total row contains the rendered total payout |
| PayoutFormat.FormattedTextContains | test.py:74-85 | the formatted text contains every employee's name and every department's rendered total payout |
| AvgRateReport.Generate | Main.py:89-106 | the loop computes `AvgRateOf` |
| AvgRateReport.AvgRateDepartment | Main.py:95-104 | `employee_count` is the number of members (at least 1); `total_rate` is the sum of their rates; `avg_rate` is `total_rate / employee_count`; `employees` are their names in input order |
| AvgRateReport.AvgRateDepartments | Main.py:95-104 | the report's departments are the groups' departments, in the same order |
| AvgRateReport.SampleAvgRate | test.py:15-19 | the IT sample with rates 30 and 35 gives two employees, total 65 and mean 32.5 |
| Registry.GetReport | Main.py:144-154 | succeeds exactly for `payout` and `avg_rate`, with the kind registered under that name; otherwise the error message names the unknown type and both available reports |
| Registry.GetReportName | Main.py:145-148 | each report kind is found under its own name |

## Left out

- `main()` (Main.py:157-185) is command-line and output plumbing: argument
  parsing, printing, the per-file `try`/`except` and `json.dumps`.
- Opening the file, `seek` and `readlines` (Main.py:122-127) are I/O. The
  model starts from the sequence of lines.
- Python's `float()` (Main.py:14, Main.py:20) is an abstract parameter.
  IEEE-754 rounding is not modelled: sums, products and the mean are exact
  over `real`. So the order in which `PayoutReport.generate` adds up its
  totals does not matter in the model, and `SumOfSort` proves that.
- The integer `0` default of `rate` (Main.py:17) is the real `0.0`.
- The text of a number (`str()` of a float, and `.2f`) in both `format`
  methods is presentation. `PayoutFormat` takes it as the functions `show`
  and `fixed2`; the right alignment to a width (`:>20`, `:>10`) is
  modelled by `Strings.PadLeft`. So `FormattedTextContains` proves the text
  holds `fixed2` of each total payout, but not that this rendering contains
  the digits `8000` or `16200` (test.py:84-85).
- `AvgRateReport.format` (Main.py:108-116) is fixed Russian-language text
  around numbers rendered with `.2f`.
- The `Report` abstract base class (Main.py:28-35) becomes the
  two-constructor datatype `Registry.ReportKind`.
- `Strings.IsSpace` follows Python's `str.isspace` for the characters it
  lists. Other code points that Unicode classes as white space in later
  versions are not tracked.
