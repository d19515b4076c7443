/** `ReportGenerator.check_csv_file` once the lines have been read: the first
    line names the columns, every later line with as many fields becomes a
    row mapping column names to values, and every other line is dropped. */
module Csv {
  import opened Common
  import opened Strings

  /** A line split on commas with every field stripped. */
  function Fields(line: string): (r: seq<string>)
    ensures |r| == Count(line, ',') + 1
  {
    var parts := Split(line, ',');
    seq(|parts|, i requires 0 <= i < |parts| => Strip(parts[i]))
  }

  /** The last position at which `k` occurs in `ks`. */
  function LastIndex(ks: seq<string>, k: string): (r: nat)
    requires k in ks
    ensures r < |ks| && ks[r] == k
    ensures forall j :: r < j < |ks| ==> ks[j] != k
  {
    if ks[|ks| - 1] == k then |ks| - 1 else LastIndex(ks[..|ks| - 1], k)
  }

  /** Python's `dict(zip(ks, vs))` for sequences of equal length. */
  function Zip(ks: seq<string>, vs: seq<string>): Row
    requires |ks| == |vs|
  {
    if |ks| == 0 then map[]
    else
      var n := |ks| - 1;
      Zip(ks[..n], vs[..n])[ks[n] := vs[n]]
  }

  /** The keys of `dict(zip(ks, vs))` are the names in `ks`, and a repeated
      name keeps its last value. */
  lemma {:induction false} ZipSpec(ks: seq<string>, vs: seq<string>)
    requires |ks| == |vs|
    ensures Zip(ks, vs).Keys == set k | k in ks
    ensures forall k :: k in ks ==> Zip(ks, vs)[k] == vs[LastIndex(ks, k)]
  {
    if |ks| > 0 {
      var n := |ks| - 1;
      ZipSpec(ks[..n], vs[..n]);
      assert forall k :: k in ks ==> k in ks[..n] || k == ks[n];
      forall k | k in ks ensures Zip(ks, vs)[k] == vs[LastIndex(ks, k)] {
        if k != ks[n] {
          assert LastIndex(ks, k) == LastIndex(ks[..n], k);
        }
      }
    }
  }

  /** The fields of each of the lines `ls`, in order. */
  function FieldsOf(ls: seq<string>): (r: seq<seq<string>>)
    ensures |r| == |ls|
    ensures forall k :: 0 <= k < |ls| ==> r[k] == Fields(ls[k])
  {
    seq(|ls|, k requires 0 <= k < |ls| => Fields(ls[k]))
  }

  /** The rows made, under the column names `header`, from data lines already
      split into their fields `vss`: a line with as many fields as there are
      columns becomes a row, any other line is skipped. */
  function RowsOf(header: seq<string>, vss: seq<seq<string>>): (r: seq<Row>)
    ensures |r| <= |vss|
  {
    if |vss| == 0 then []
    else
      var values := vss[|vss| - 1];
      RowsOf(header, vss[..|vss| - 1]) + (if |values| == |header| then [Zip(header, values)] else [])
  }

  /** Every row has exactly the column names as keys. */
  lemma {:induction false} RowsOfKeys(header: seq<string>, vss: seq<seq<string>>)
    ensures forall k :: 0 <= k < |RowsOf(header, vss)| ==> RowsOf(header, vss)[k].Keys == set h | h in header
  {
    if |vss| > 0 {
      var n := |vss| - 1;
      RowsOfKeys(header, vss[..n]);
      if |vss[n]| == |header| {
        ZipSpec(header, vss[n]);
      }
    }
  }

  /** One more data line adds its row, if it has as many fields as the
      header. */
  lemma RowsOfSnoc(header: seq<string>, vss: seq<seq<string>>, values: seq<string>)
    ensures RowsOf(header, vss + [values])
         == RowsOf(header, vss) + (if |values| == |header| then [Zip(header, values)] else [])
  {
    assert (vss + [values])[..|vss|] == vss;
  }

  /** The rows of a whole file given as its lines. */
  function CsvRows(lines: seq<string>): seq<Row> {
    if |lines| == 0 then [] else RowsOf(Fields(lines[0]), FieldsOf(lines[1..]))
  }

  /** Parses the lines of a file; the loop mirrors the source's append loop. */
  method ParseCsv(lines: seq<string>) returns (rows: seq<Row>)
    ensures rows == CsvRows(lines)
    ensures |lines| <= 1 ==> rows == []
    ensures |lines| > 0 ==> |rows| <= |lines| - 1
    ensures |lines| > 0 ==> forall k :: 0 <= k < |rows| ==> rows[k].Keys == set h | h in Fields(lines[0])
  {
    if |lines| == 0 {
      return [];
    }
    var headers := Fields(lines[0]);
    rows := [];
    var i := 1;
    while i < |lines|
      invariant 1 <= i <= |lines|
      invariant rows == RowsOf(headers, FieldsOf(lines[1..i]))
    {
      var values := Fields(lines[i]);
      assert lines[1..i + 1] == lines[1..i] + [lines[i]];
      FieldsOfSnoc(lines[1..i], lines[i]);
      RowsOfSnoc(headers, FieldsOf(lines[1..i]), values);
      if |values| != |headers| {
        i := i + 1;
        continue;
      }
      rows := rows + [Zip(headers, values)];
      i := i + 1;
    }
    assert lines[1..i] == lines[1..];
    RowsOfKeys(headers, FieldsOf(lines[1..]));
  }

  lemma FieldsOfSnoc(ls: seq<string>, line: string)
    ensures FieldsOf(ls + [line]) == FieldsOf(ls) + [Fields(line)]
  {
    FieldsOfConcat(ls, [line]);
  }

  /** The fields of consecutive blocks of lines are those of each block. */
  lemma FieldsOfConcat(a: seq<string>, b: seq<string>)
    ensures FieldsOf(a + b) == FieldsOf(a) + FieldsOf(b)
  {
    forall k | 0 <= k < |a + b| ensures FieldsOf(a + b)[k] == (FieldsOf(a) + FieldsOf(b))[k] {
      if k < |a| {
        assert (a + b)[k] == a[k];
      } else {
        assert (a + b)[k] == b[k - |a|];
      }
    }
  }

  /** Rows of consecutive blocks of lines are the rows of each block, in
      order. */
  lemma {:induction false} RowsOfConcat(header: seq<string>, a: seq<seq<string>>, b: seq<seq<string>>)
    ensures RowsOf(header, a + b) == RowsOf(header, a) + RowsOf(header, b)
  {
    if |b| > 0 {
      var n := |b| - 1;
      RowsOfConcat(header, a, b[..n]);
      assert a + b == (a + b[..n]) + [b[n]];
      RowsOfSnoc(header, a + b[..n], b[n]);
      assert b == b[..n] + [b[n]];
      RowsOfSnoc(header, b[..n], b[n]);
    } else {
      assert a + b == a;
    }
  }

  /** The rows of a file are those of its data lines under its header. */
  lemma CsvRowsCons(headerLine: string, ls: seq<string>)
    ensures CsvRows([headerLine] + ls) == RowsOf(Fields(headerLine), FieldsOf(ls))
  {
    assert ([headerLine] + ls)[0] == headerLine;
    assert ([headerLine] + ls)[1..] == ls;
  }

  /** The rows of a block of data lines with one line in the middle. */
  lemma RowsOfSplice(h: seq<string>, a: seq<string>, line: string, b: seq<string>)
    ensures RowsOf(h, FieldsOf(a + [line] + b))
         == RowsOf(h, FieldsOf(a))
          + (if |Fields(line)| == |h| then [Zip(h, Fields(line))] else [])
          + RowsOf(h, FieldsOf(b))
  {
    var vs := FieldsOf(a);
    var v := Fields(line);
    FieldsOfConcat(a + [line], b);
    FieldsOfSnoc(a, line);
    assert FieldsOf(a + [line] + b) == (vs + [v]) + FieldsOf(b);
    RowsOfConcat(h, vs + [v], FieldsOf(b));
    RowsOfSnoc(h, vs, v);
  }

  /** One data line, with lines before and after it: it yields a row exactly
      when it has as many commas as the header line, and the lines around it
      are parsed as if it were not there. */
  lemma CsvSplice(headerLine: string, a: seq<string>, line: string, b: seq<string>)
    ensures CsvRows([headerLine] + a + [line] + b)
         == CsvRows([headerLine] + a)
          + (if Count(line, ',') == Count(headerLine, ',')
             then [Zip(Fields(headerLine), Fields(line))] else [])
          + RowsOf(Fields(headerLine), FieldsOf(b))
  {
    assert [headerLine] + a + [line] + b == [headerLine] + (a + [line] + b);
    CsvRowsCons(headerLine, a + [line] + b);
    CsvRowsCons(headerLine, a);
    RowsOfSplice(Fields(headerLine), a, line, b);
  }

  /** When every data line has as many fields as the header, each one becomes
      a row, at the same position. */
  lemma {:induction false} RowsOfAllKept(header: seq<string>, vss: seq<seq<string>>)
    requires forall k :: 0 <= k < |vss| ==> |vss[k]| == |header|
    ensures |RowsOf(header, vss)| == |vss|
    ensures forall k :: 0 <= k < |vss| ==> RowsOf(header, vss)[k] == Zip(header, vss[k])
  {
    if |vss| > 0 {
      var n := |vss| - 1;
      RowsOfAllKept(header, vss[..n]);
      var r := RowsOf(header, vss[..n]) + [Zip(header, vss[n])];
      assert RowsOf(header, vss) == r;
      forall k | 0 <= k < |vss| ensures r[k] == Zip(header, vss[k]) {
        if k < n {
          assert vss[..n][k] == vss[k];
        }
      }
    }
  }

  /** A file whose every data line has as many commas as its header line
      yields one row per data line, in order. */
  lemma CsvAllKept(lines: seq<string>)
    requires |lines| > 0
    requires forall k :: 1 <= k < |lines| ==> Count(lines[k], ',') == Count(lines[0], ',')
    ensures |CsvRows(lines)| == |lines| - 1
    ensures forall k :: 1 <= k < |lines| ==> CsvRows(lines)[k - 1] == Zip(Fields(lines[0]), Fields(lines[k]))
  {
    var vss := FieldsOf(lines[1..]);
    forall k | 0 <= k < |vss| ensures |vss[k]| == |Fields(lines[0])| {
      assert lines[1..][k] == lines[k + 1];
    }
    RowsOfAllKept(Fields(lines[0]), vss);
    forall k | 1 <= k < |lines| ensures CsvRows(lines)[k - 1] == Zip(Fields(lines[0]), Fields(lines[k])) {
      assert lines[1..][k - 1] == lines[k];
    }
  }
}
