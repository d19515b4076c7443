/** The string operations of Python that the report core relies on:
    `str.split(',')`, `str.strip()`, `"\n".join`, right alignment in an
    f-string field (`{x:>w}`), string repetition (`'-' * n`) and
    lexicographic comparison. */
module Strings {

  /** Python's `str.isspace()` on a single character: ASCII tab to carriage
      return, the four information separators, space, NEL, no-break space and
      the Unicode space separators. */
  predicate IsSpace(c: char) {
    || ('\t' <= c && c <= '\r')
    || ('\U{1c}' <= c && c <= ' ')
    || c == '\U{85}' || c == '\U{a0}' || c == '\U{1680}'
    || ('\U{2000}' <= c && c <= '\U{200a}')
    || c == '\U{2028}' || c == '\U{2029}' || c == '\U{202f}'
    || c == '\U{205f}' || c == '\U{3000}'
  }

  /** Every character of `s` is white space. */
  predicate AllSpace(s: string) {
    forall k :: 0 <= k < |s| ==> IsSpace(s[k])
  }

  /** Drops the leading white space of `s`. */
  function TrimLeft(s: string): string {
    if |s| > 0 && IsSpace(s[0]) then TrimLeft(s[1..]) else s
  }

  /** What `TrimLeft` leaves is a suffix of `s` that does not start with
      white space, and all it drops is white space. */
  lemma {:induction false} TrimLeftSpec(s: string)
    ensures |TrimLeft(s)| <= |s| && TrimLeft(s) == s[|s| - |TrimLeft(s)|..]
    ensures AllSpace(s[..|s| - |TrimLeft(s)|])
    ensures TrimLeft(s) == [] || !IsSpace(TrimLeft(s)[0])
  {
    if |s| > 0 && IsSpace(s[0]) {
      TrimLeftSpec(s[1..]);
      var r := TrimLeft(s[1..]);
      assert s[..|s| - |r|] == [s[0]] + s[1..][..|s| - 1 - |r|];
    }
  }

  /** Drops the trailing white space of `s`. */
  function TrimRight(s: string): string {
    if |s| > 0 && IsSpace(s[|s| - 1]) then TrimRight(s[..|s| - 1]) else s
  }

  /** What `TrimRight` leaves is a prefix of `s` that does not end with
      white space, and all it drops is white space. */
  lemma {:induction false} TrimRightSpec(s: string)
    ensures |TrimRight(s)| <= |s| && TrimRight(s) == s[..|TrimRight(s)|]
    ensures AllSpace(s[|TrimRight(s)|..])
    ensures TrimRight(s) == [] || !IsSpace(TrimRight(s)[|TrimRight(s)| - 1])
  {
    if |s| > 0 && IsSpace(s[|s| - 1]) {
      TrimRightSpec(s[..|s| - 1]);
      var r := TrimRight(s[..|s| - 1]);
      assert s[|r|..] == s[..|s| - 1][|r|..] + [s[|s| - 1]];
    }
  }

  /** `r` is the slice of `s` at `i`, and only white space lies around it. */
  predicate StrippedAt(s: string, r: string, i: int) {
    && 0 <= i <= |s| - |r| && r == s[i..i + |r|]
    && AllSpace(s[..i]) && AllSpace(s[i + |r|..])
  }

  /** Python's `str.strip()`. */
  function Strip(s: string): string {
    TrimRight(TrimLeft(s))
  }

  /** `Strip` leaves the slice of `s` that remains once the white space at
      both ends is gone: it neither starts nor ends with white space. */
  lemma StripSpec(s: string)
    ensures exists i :: StrippedAt(s, Strip(s), i)
    ensures Strip(s) == [] || (!IsSpace(Strip(s)[0]) && !IsSpace(Strip(s)[|Strip(s)| - 1]))
  {
    var t := TrimLeft(s);
    var r := TrimRight(t);
    var i := |s| - |t|;
    TrimLeftSpec(s);
    TrimRightSpec(t);
    assert r == s[i..i + |r|];
    assert s[i + |r|..] == t[|r|..];
    assert StrippedAt(s, Strip(s), i);
    if r != [] {
      assert r[0] == t[0];
    }
  }

  /** Number of occurrences of `c` in `s`. */
  function Count(s: string, c: char): nat {
    if |s| == 0 then 0 else (if s[0] == c then 1 else 0) + Count(s[1..], c)
  }

  /** Python's `s.split(sep)` for a one-character separator: one piece more
      than there are separators, and no piece holds the separator. */
  function Split(s: string, sep: char): (r: seq<string>)
    ensures |r| == Count(s, sep) + 1
  {
    if |s| == 0 then [""]
    else if s[0] == sep then [""] + Split(s[1..], sep)
    else
      var t := Split(s[1..], sep);
      [[s[0]] + t[0]] + t[1..]
  }

  /** No piece of a split holds the separator. */
  lemma {:induction false} SplitPieces(s: string, sep: char)
    ensures forall k :: 0 <= k < |Split(s, sep)| ==> sep !in Split(s, sep)[k]
  {
    if |s| > 0 {
      SplitPieces(s[1..], sep);
    }
  }

  /** Python's `sep.join(parts)` for a one-character separator. */
  function Join(parts: seq<string>, sep: char): string {
    if |parts| == 0 then ""
    else if |parts| == 1 then parts[0]
    else parts[0] + [sep] + Join(parts[1..], sep)
  }

  /** Joining the pieces of a split gives back the string. */
  lemma {:induction false} JoinSplit(s: string, sep: char)
    ensures Join(Split(s, sep), sep) == s
  {
    if |s| == 0 {
    } else if s[0] == sep {
      JoinSplit(s[1..], sep);
      var t := Split(s[1..], sep);
      assert Split(s, sep) == [""] + t;
      assert ([""] + t)[1..] == t;
      assert s == [s[0]] + s[1..];
    } else {
      JoinSplit(s[1..], sep);
      var t := Split(s[1..], sep);
      var u := [[s[0]] + t[0]] + t[1..];
      assert Split(s, sep) == u;
      assert u[1..] == t[1..];
      if |t| == 1 {
        assert s == [s[0]] + t[0];
      } else {
        assert Join(t, sep) == t[0] + [sep] + Join(t[1..], sep);
        assert s == [s[0]] + s[1..];
      }
    }
  }

  /** Splitting a string that starts with a separator-free prefix `p` glues
      `p` to the first piece of the rest. */
  lemma {:induction false} SplitPrefix(p: string, t: string, sep: char)
    requires sep !in p
    ensures Split(p + t, sep) == [p + Split(t, sep)[0]] + Split(t, sep)[1..]
  {
    if |p| > 0 {
      SplitPrefix(p[1..], t, sep);
      var u := Split(t, sep);
      var w := Split(p[1..] + t, sep);
      assert w == [p[1..] + u[0]] + u[1..];
      assert w[0] == p[1..] + u[0] && w[1..] == u[1..];
      assert Split(p + t, sep) == [[p[0]] + w[0]] + w[1..] by {
        assert (p + t)[0] == p[0] != sep;
        assert (p + t)[1..] == p[1..] + t;
      }
      assert [p[0]] + (p[1..] + u[0]) == p + u[0] by {
        assert p == [p[0]] + p[1..];
      }
    } else {
      var u := Split(t, sep);
      assert p + t == t;
      assert u == [u[0]] + u[1..];
      assert p + u[0] == u[0];
    }
  }

  /** Splitting pieces joined by a separator none of them holds gives back
      the pieces. */
  lemma {:induction false} SplitJoin(parts: seq<string>, sep: char)
    requires |parts| >= 1
    requires forall k :: 0 <= k < |parts| ==> sep !in parts[k]
    ensures Split(Join(parts, sep), sep) == parts
  {
    if |parts| == 1 {
      SplitPrefix(parts[0], "", sep);
      assert parts[0] + "" == parts[0];
    } else {
      var rest := Join(parts[1..], sep);
      SplitJoin(parts[1..], sep);
      SplitPrefix(parts[0], [sep] + rest, sep);
      assert parts[0] + [sep] + rest == parts[0] + ([sep] + rest);
      assert ([sep] + rest)[1..] == rest;
      assert Split([sep] + rest, sep) == [""] + parts[1..];
      assert parts[0] + "" == parts[0];
    }
  }

  /** `p` occurs in `s` as a contiguous substring (Python's `p in s`). */
  ghost predicate Contains(s: string, p: string) {
    exists i :: OccursAt(s, p, i)
  }

  /** `p` occurs in `s` starting at index `i`. */
  predicate OccursAt(s: string, p: string, i: int) {
    0 <= i <= |s| - |p| && s[i..i + |p|] == p
  }

  /** A substring of a substring is a substring. */
  lemma ContainsTrans(s: string, t: string, p: string)
    requires Contains(s, t) && Contains(t, p)
    ensures Contains(s, p)
  {
    var i :| OccursAt(s, t, i);
    var j :| OccursAt(t, p, j);
    forall k | 0 <= k < |p|
      ensures s[i + j..i + j + |p|][k] == p[k]
    {
      assert s[i + j + k] == s[i..i + |t|][j + k] == t[j..j + |p|][k];
    }
    assert OccursAt(s, p, i + j);
  }

  /** A string contains both of the parts it is made of. */
  lemma ContainsParts(a: string, b: string)
    ensures Contains(a + b, a) && Contains(a + b, b)
  {
    assert (a + b)[0..|a|] == a;
    assert (a + b)[|a|..|a| + |b|] == b;
    assert OccursAt(a + b, a, 0) && OccursAt(a + b, b, |a|);
  }

  /** Every part is a substring of the joined text. */
  lemma {:induction false} JoinContains(parts: seq<string>, sep: char, k: nat)
    requires k < |parts|
    ensures Contains(Join(parts, sep), parts[k])
  {
    if |parts| == 1 {
      ContainsParts(parts[0], "");
      assert parts[0] + "" == parts[0];
    } else {
      var rest := Join(parts[1..], sep);
      assert Join(parts, sep) == parts[0] + ([sep] + rest);
      ContainsParts(parts[0], [sep] + rest);
      if k > 0 {
        JoinContains(parts[1..], sep, k - 1);
        ContainsParts([sep], rest);
        ContainsTrans([sep] + rest, rest, parts[k]);
        ContainsTrans(Join(parts, sep), [sep] + rest, parts[k]);
      }
    }
  }

  /** `n` copies of `c` (Python's `c * n`). */
  function Repeat(c: char, n: nat): (r: string)
    ensures |r| == n && forall k :: 0 <= k < n ==> r[k] == c
  {
    seq(n, _ => c)
  }

  /** Python's `format(s, '>w')`: `s` right-aligned in a field of width `w`;
      a longer `s` is kept whole. */
  function PadLeft(s: string, w: nat): (r: string)
    ensures |r| == if |s| < w then w else |s|
    ensures r[|r| - |s|..] == s
    ensures forall k :: 0 <= k < |r| - |s| ==> r[k] == ' '
  {
    if |s| < w then Repeat(' ', w - |s|) + s else s
  }

  /** Python's `<=` on strings: lexicographic by code point, a prefix
      ordered first. */
  predicate NameLe(a: string, b: string) {
    |a| == 0 || (|b| > 0 && (a[0] < b[0] || (a[0] == b[0] && NameLe(a[1..], b[1..]))))
  }

  lemma {:induction false} NameLeRefl(a: string)
    ensures NameLe(a, a)
  {
    if |a| > 0 { NameLeRefl(a[1..]); }
  }

  lemma {:induction false} NameLeTotal(a: string, b: string)
    ensures NameLe(a, b) || NameLe(b, a)
  {
    if |a| > 0 && |b| > 0 && a[0] == b[0] { NameLeTotal(a[1..], b[1..]); }
  }

  lemma {:induction false} NameLeTrans(a: string, b: string, c: string)
    requires NameLe(a, b) && NameLe(b, c)
    ensures NameLe(a, c)
  {
    if |a| > 0 && a[0] == b[0] && b[0] == c[0] { NameLeTrans(a[1..], b[1..], c[1..]); }
  }

  lemma {:induction false} NameLeAntisym(a: string, b: string)
    requires NameLe(a, b) && NameLe(b, a)
    ensures a == b
  {
    if |a| > 0 {
      NameLeAntisym(a[1..], b[1..]);
      assert a == [a[0]] + a[1..] && b == [b[0]] + b[1..];
    }
  }
}
