/** The padded CSV that fig7/parse.py prints and fig7/filter.py reads back. */
module CsvText {
  import opened Common

  // ---------------------------------------------------------------- strings

  /** `s.split(c)` for a one-character separator. */
  function Split(s: string, c: char): (r: seq<string>)
    ensures |r| > 0
  {
    if s == "" then [""]
    else
      var rest := Split(s[1..], c);
      if s[0] == c then [""] + rest else [[s[0]] + rest[0]] + rest[1..]
  }

  function RStrip(s: string): string {
    if s != "" && IsSpace(s[|s| - 1]) then RStrip(s[..|s| - 1]) else s
  }

  function Strip(s: string): string {
    RStrip(LStrip(s))
  }

  /** `"%<w>s" % s`. */
  function Pad(s: string, w: nat): string
    decreases w - |s|
  {
    if |s| >= w then s else Pad([' '] + s, w)
  }

  /** Splitting at a separator splits both sides. */
  lemma {:induction false} SplitBoth(a: string, c: char, b: string)
    ensures Split(a + [c] + b, c) == Split(a, c) + Split(b, c)
  {
    var t := a + [c] + b;
    if a == "" {
      assert t[1..] == b;
    } else {
      assert t[1..] == a[1..] + [c] + b;
      SplitBoth(a[1..], c, b);
    }
  }

  function Front(r: seq<string>): seq<string>
    requires r != []
  {
    r[..|r| - 1]
  }

  function Last(r: seq<string>): string
    requires r != []
  {
    r[|r| - 1]
  }

  /** Text without a separator goes to the end of the last piece. */
  function Extend(r: seq<string>, x: string): seq<string>
    requires r != []
  {
    Front(r) + [Last(r) + x]
  }

  lemma ExtendMore(a: string, r: seq<string>, x: string)
    requires r != []
    ensures Extend([a] + r, x) == [a] + Extend(r, x)
  {
  }

  lemma ExtendFirst(c: char, r: seq<string>, x: string)
    requires r != []
    ensures
      var t := Extend(r, x);
      Extend([[c] + r[0]] + r[1..], x) == [[c] + t[0]] + t[1..]
  {
    if |r| == 1 {
      assert [c] + (r[0] + x) == [c] + r[0] + x;
    } else {
      ExtendMore([c] + r[0], r[1..], x);
      ExtendMore(r[0], r[1..], x);
      assert [r[0]] + r[1..] == r;
    }
  }

  lemma {:induction false} SplitMore(s: string, c: char, x: string)
    requires c !in x
    ensures Split(s + x, c) == Extend(Split(s, c), x)
  {
    if s == "" {
      assert s + x == x;
      SplitNone(x, c);
    } else {
      assert (s + x)[1..] == s[1..] + x;
      SplitMore(s[1..], c, x);
      ExtendMore("", Split(s[1..], c), x);
      ExtendFirst(s[0], Split(s[1..], c), x);
    }
  }

  lemma SplitPiece(s: string, x: string, c: char, y: string)
    requires c !in x && c !in y
    ensures Split(s + x + [c] + y, c) == Front(Split(s, c)) + [Last(Split(s, c)) + x, y]
  {
    SplitBoth(s + x, c, y);
    SplitMore(s, c, x);
    SplitNone(y, c);
  }

  lemma {:induction false} SplitNone(x: string, c: char)
    requires c !in x
    ensures Split(x, c) == [x]
  {
    if x != "" {
      SplitNone(x[1..], c);
      assert [x[0]] + x[1..] == x;
    }
  }

  lemma {:induction false} StripPad(s: string, w: nat)
    ensures LStrip(Pad(s, w)) == LStrip(s)
    decreases w - |s|
  {
    if |s| < w {
      StripPad([' '] + s, w);
      assert ([' '] + s)[1..] == s;
    }
  }

  lemma StripBlank()
    ensures Strip(" ") == ""
  {
    assert LStrip(" "[1..]) == "";
  }

  /** A padded field gives its text back. */
  lemma StripField(s: string, w: nat)
    requires Strip(s) == s
    ensures Strip([' '] + Pad(s, w)) == s
  {
    assert ([' '] + Pad(s, w))[1..] == Pad(s, w);
    StripPad(s, w);
  }

  lemma {:induction false} PadKeeps(s: string, w: nat, c: char)
    requires c != ' ' && c !in s
    ensures c !in Pad(s, w)
    decreases w - |s|
  {
    if |s| < w {
      PadKeeps([' '] + s, w, c);
    }
  }

  /** Blanks in front fill the text up to the width. */
  lemma {:induction false} PadIs(s: string, w: nat)
    ensures
      var k := if |s| >= w then 0 else w - |s|;
      && |Pad(s, w)| == k + |s|
      && Pad(s, w)[k..] == s
      && forall i :: 0 <= i < k ==> Pad(s, w)[i] == ' '
    decreases w - |s|
  {
    if |s| < w {
      var t := [' '] + s;
      PadIs(t, w);
      var p, k := Pad(t, w), w - |s|;
      assert p[k - 1..][1..] == p[k..] && t[1..] == s;
      assert p[k - 1] == p[k - 1..][0];
    }
  }

  lemma {:induction false} RStripIs(s: string) returns (b: string)
    ensures s == RStrip(s) + b && Blank(b)
    ensures RStrip(s) != "" ==> !IsSpace(RStrip(s)[|RStrip(s)| - 1])
  {
    b := "";
    if s != "" && IsSpace(s[|s| - 1]) {
      var n := |s| - 1;
      var c := RStripIs(s[..n]);
      b := c + [s[n]];
      assert RStrip(s) == RStrip(s[..n]);
      Ending(s, n, RStrip(s), c);
    }
  }

  lemma Ending(s: string, n: nat, t: string, c: string)
    requires n + 1 == |s| && s[..n] == t + c
    ensures s == t + (c + [s[n]])
  {
  }

  /** Exactly the white space at both ends is gone. */
  lemma StripIs(s: string) returns (a: string, b: string)
    ensures s == a + Strip(s) + b && Blank(a) && Blank(b)
    ensures Strip(s) != "" ==> !Blank(Strip(s)[..1]) && !Blank(Strip(s)[|Strip(s)| - 1..])
  {
    a := LStripIs(s);
    b := RStripIs(LStrip(s));
    var t := Strip(s);
    if t != "" {
      assert LStrip(s)[..1][0] == t[0] && t[..1][0] == t[0] && t[|t| - 1..][0] == t[|t| - 1];
    }
  }

  // ---------------------------------------------------------------- the printer

  /** Every row has a cell for every column of the first. */
  predicate Table(csv: seq<seq<string>>) {
    |csv| > 0 && forall i :: 0 <= i < |csv| ==> |csv[i]| >= |csv[0]|
  }

  function Column(csv: seq<seq<string>>, j: nat): (r: seq<string>)
    requires Table(csv) && j < |csv[0]|
    ensures |r| == |csv|
  {
    seq(|csv|, i requires 0 <= i < |csv| => csv[i][j])
  }

  function Longest(cells: seq<string>): (n: nat)
    ensures forall i :: 0 <= i < |cells| ==> |cells[i]| <= n
  {
    if cells == [] then 0
    else
      var n := Longest(cells[..|cells| - 1]);
      var m := |cells[|cells| - 1]|;
      if m > n then m else n
  }

  /** The length is that of some cell, or 0 when there are none. */
  lemma {:induction false} LongestIs(cells: seq<string>) returns (i: nat)
    ensures if cells == [] then Longest(cells) == 0 else i < |cells| && |cells[i]| == Longest(cells)
  {
    i := 0;
    if cells != [] {
      var last := |cells| - 1;
      i := LongestIs(cells[..last]);
      if Longest(cells) == |cells[last]| {
        i := last;
      }
    }
  }

  function Widths(csv: seq<seq<string>>): (r: seq<nat>)
    requires Table(csv)
    ensures |r| == |csv[0]|
    ensures forall j :: 0 <= j < |r| ==> r[j] == Longest(Column(csv, j)) + 1
  {
    seq(|csv[0]|, j requires 0 <= j < |csv[0]| => Longest(Column(csv, j)) + 1)
  }

  /** A column is one wider than its longest cell. */
  lemma WidthIs(csv: seq<seq<string>>, j: nat)
    requires Table(csv) && j < |csv[0]|
    ensures forall i :: 0 <= i < |csv| ==> |csv[i][j]| < Widths(csv)[j]
    ensures exists i :: 0 <= i < |csv| && |csv[i][j]| + 1 == Widths(csv)[j]
  {
    var i := LongestIs(Column(csv, j));
    assert csv[i][j] == Column(csv, j)[i];
    forall i | 0 <= i < |csv| ensures |csv[i][j]| < Widths(csv)[j] {
      assert csv[i][j] == Column(csv, j)[i];
    }
  }

  /** The first n cells of a row, each followed by a comma and a blank. */
  function Cells(row: seq<string>, ws: seq<nat>, n: nat): string
    requires n <= |row| && n <= |ws|
  {
    if n == 0 then "" else Cells(row, ws, n - 1) + Pad(row[n - 1], ws[n - 1]) + ", "
  }

  /** A row's cells under the columns of the first row; what it has beyond them is not printed. */
  function Line(row: seq<string>, ws: seq<nat>): string
    requires |row| >= |ws|
  {
    Cells(row, ws, |ws|)
  }

  function Text(csv: seq<seq<string>>, n: nat): string
    requires Table(csv) && n <= |csv|
  {
    if n == 0 then "" else Text(csv, n - 1) + Line(csv[n - 1], Widths(csv)) + "\n"
  }

  /** A table without rows, or with a row shorter than the first, is an IndexError. */
  method Transpose(csv: seq<seq<string>>) returns (csvt: Option<seq<seq<string>>>)
    ensures csvt.Some? <==> Table(csv)
    ensures csvt.Some? ==>
      |csvt.value| == |csv[0]| && forall j :: 0 <= j < |csvt.value| ==> csvt.value[j] == Column(csv, j)
  {
    if csv == [] {
      return None;
    }
    var cols: seq<seq<string>> := [];
    for j := 0 to |csv[0]|
      invariant |cols| == j && forall i :: 0 <= i < |csv| ==> |csv[i]| >= j
      invariant forall k :: 0 <= k < j ==> |cols[k]| == |csv| && forall i :: 0 <= i < |csv| ==> cols[k][i] == csv[i][k]
    {
      var col: seq<string> := [];
      for i := 0 to |csv|
        invariant |col| == i && forall k :: 0 <= k < i ==> |csv[k]| > j && col[k] == csv[k][j]
      {
        if |csv[i]| <= j {
          return None;
        }
        col := col + [csv[i][j]];
      }
      cols := cols + [col];
    }
    csvt := Some(cols);
  }

  method PrintRow(row: seq<string>, widths: seq<nat>) returns (l: string)
    requires |row| >= |widths|
    ensures l == Line(row, widths) + "\n"
  {
    l := "";
    for j := 0 to |widths|
      invariant l == Cells(row, widths, j)
    {
      l := l + Pad(row[j], widths[j]) + ", ";
    }
    l := l + "\n";
  }

  lemma TextNext(csv: seq<seq<string>>, n: nat)
    requires Table(csv) && n < |csv|
    ensures Text(csv, n + 1) == Text(csv, n) + (Line(csv[n], Widths(csv)) + "\n")
  {
  }

  method PrettyCsv(csv: seq<seq<string>>) returns (r: Option<string>)
    ensures r == if Table(csv) then Some(Text(csv, |csv|)) else None
    ensures r.None? <==> csv == [] || exists i :: 0 <= i < |csv| && |csv[i]| < |csv[0]|
  {
    var t := Transpose(csv);
    if t.None? {
      return None;
    }
    var csvt := t.value;
    var widths: seq<nat> := [];
    for j := 0 to |csvt|
      invariant |widths| == j && forall k :: 0 <= k < j ==> widths[k] == Widths(csv)[k]
    {
      widths := widths + [Longest(csvt[j]) + 1];
    }
    assert widths == Widths(csv);
    var out := "";
    for i := 0 to |csv|
      invariant out == Text(csv, i)
    {
      var l := PrintRow(csv[i], widths);
      TextNext(csv, i);
      out := out + l;
    }
    r := Some(out);
  }

  type Results = map<string, map<string, string>>

  /** A dictionary's keys in the order in which they are iterated. */
  ghost predicate Lists(s: seq<string>, keys: set<string>) {
    && (forall i :: 0 <= i < |s| ==> s[i] in keys)
    && (forall k :: k in keys ==> k in s)
    && (forall i, j :: 0 <= i < j < |s| ==> s[i] != s[j])
  }

  ghost function Columns(res: Results): set<string> {
    set t, c | t in res && c in res[t] :: c
  }

  function Cell(res: Results, t: string, c: string): string
    requires t in res
  {
    if c in res[t] then res[t][c] else "0"
  }

  function Row(name: string, res: Results, cols: seq<string>, t: string): (r: seq<string>)
    requires t in res
    ensures |r| == |cols| + 2 && r[0] == name && r[1] == t
    ensures forall j :: 0 <= j < |cols| && cols[j] in res[t] ==> r[j + 2] == res[t][cols[j]]
    ensures forall j :: 0 <= j < |cols| && cols[j] !in res[t] ==> r[j + 2] == "0"
  {
    [name, t] + seq(|cols|, j requires 0 <= j < |cols| => Cell(res, t, cols[j]))
  }

  function Sheet(name: string, res: Results, tests: seq<string>, cols: seq<string>): (r: seq<seq<string>>)
    requires forall i :: 0 <= i < |tests| ==> tests[i] in res
    ensures |r| == |tests| + 1 && Table(r) && r[0] == ["name", "test"] + cols
    ensures forall i :: 0 <= i < |tests| ==> r[i + 1] == Row(name, res, cols, tests[i])
  {
    [["name", "test"] + cols]
    + seq(|tests|, i requires 0 <= i < |tests| => Row(name, res, cols, tests[i]))
  }

  method FillRow(name: string, res: Results, cols: seq<string>, t: string) returns (row: seq<string>)
    requires t in res
    ensures row == Row(name, res, cols, t)
  {
    row := [name, t];
    for j := 0 to |cols|
      invariant |row| == j + 2 && row[0] == name && row[1] == t
      invariant forall k :: 2 <= k < j + 2 ==> row[k] == Cell(res, t, cols[k - 2])
    {
      if cols[j] in res[t] {
        row := row + [res[t][cols[j]]];
      } else {
        row := row + ["0"];
      }
    }
  }

  method HashToCsv(name: string, res: Results, tests: seq<string>, cols: seq<string>) returns (out: string)
    requires Lists(tests, res.Keys) && Lists(cols, Columns(res))
    ensures out == Text(Sheet(name, res, tests, cols), |tests| + 1)
  {
    var csv := [["name", "test"] + cols];
    for i := 0 to |tests|
      invariant |csv| == i + 1 && csv[0] == ["name", "test"] + cols
      invariant forall k :: 0 < k <= i ==> csv[k] == Row(name, res, cols, tests[k - 1])
    {
      var row := FillRow(name, res, cols, tests[i]);
      csv := csv + [row];
    }
    assert csv == Sheet(name, res, tests, cols);
    var r := PrettyCsv(csv);
    out := r.value;
  }

  // ---------------------------------------------------------------- the parser

  function NonEmpty(fs: seq<string>): seq<string> {
    if fs == [] then [] else NonEmpty(fs[..|fs| - 1]) + if fs[|fs| - 1] == "" then [] else [fs[|fs| - 1]]
  }

  /** The header's non-empty fields past the first two. */
  function Keys(header: seq<string>): seq<string> {
    var fs := NonEmpty(header);
    if |fs| < 2 then [] else fs[2..]
  }

  /** The first n keys of a row with their values. */
  function Entry(keys: seq<string>, values: seq<string>, n: nat): map<string, string>
    requires n <= |keys| && (n > 0 ==> n + 2 <= |values|)
  {
    if n == 0 then map[]
    else
      var m := Entry(keys, values, n - 1);
      var k := Strip(keys[n - 1]);
      if k != "" then m[k := Strip(values[n + 1])] else m
  }

  /** The fields of every line. */
  function Fields(lines: seq<string>): (r: seq<seq<string>>)
    ensures |r| == |lines|
  {
    seq(|lines|, i requires 0 <= i < |lines| => Split(lines[i], ','))
  }

  /** Whether every field that is asked for exists; otherwise indexing raises. */
  predicate Readable(rows: seq<seq<string>>, keys: seq<string>) {
    && (forall i :: 0 <= i < |rows| - 1 ==> |rows[i]| >= 2)
    && (forall i :: 0 < i < |rows| - 1 ==> |rows[i]| >= |keys| + 2)
  }

  /** The table after the first n rows. */
  function Rows(rows: seq<seq<string>>, keys: seq<string>, n: nat): Results
    requires n == 0 || n < |rows|
    requires forall k :: 0 < k <= n ==> |rows[k]| >= |keys| + 2
  {
    if n == 0 then map[]
    else Rows(rows, keys, n - 1)[rows[n][1] := Entry(keys, rows[n], |keys|)]
  }

  function ParseFields(rows: seq<seq<string>>): Option<Results>
    requires |rows| > 0
  {
    var keys := Keys(rows[0]);
    if !Readable(rows, keys) then None else Some(Rows(rows, keys, if |rows| < 2 then 0 else |rows| - 2))
  }

  function Parse(data: string): Option<Results> {
    ParseFields(Fields(Split(data, '\n')))
  }

  // ---------------------------------------------------------------- what it parses to

  /** The header field j is named and no later one has its name. */
  ghost predicate LastOf(keys: seq<string>, j: nat)
    requires j < |keys|
  {
    Strip(keys[j]) != "" && forall i :: j < i < |keys| ==> Strip(keys[i]) != Strip(keys[j])
  }

  /** m holds the stripped value of every name, the last one where a name is repeated, and nothing else. */
  ghost predicate Holds(keys: seq<string>, values: seq<string>, m: map<string, string>)
    requires |values| >= |keys| + 2
  {
    && (forall j :: 0 <= j < |keys| && LastOf(keys, j) ==> Strip(keys[j]) in m && m[Strip(keys[j])] == Strip(values[j + 2]))
    && (forall c :: c in m ==> exists j :: 0 <= j < |keys| && Strip(keys[j]) == c != "")
  }

  lemma {:induction false} EntryAt(keys: seq<string>, values: seq<string>, n: nat, j: nat)
    requires j < n <= |keys| && n + 2 <= |values| && Strip(keys[j]) != ""
    requires forall i :: j < i < n ==> Strip(keys[i]) != Strip(keys[j])
    ensures
      var m := Entry(keys, values, n);
      Strip(keys[j]) in m && m[Strip(keys[j])] == Strip(values[j + 2])
  {
    if j < n - 1 {
      EntryAt(keys, values, n - 1, j);
    }
  }

  lemma {:induction false} EntryFrom(keys: seq<string>, values: seq<string>, n: nat, c: string) returns (j: nat)
    requires n <= |keys| && n + 2 <= |values| && c in Entry(keys, values, n)
    ensures j < n && Strip(keys[j]) == c != ""
  {
    if c != "" && c == Strip(keys[n - 1]) {
      j := n - 1;
    } else {
      j := EntryFrom(keys, values, n - 1, c);
    }
  }

  lemma EntryIs(keys: seq<string>, values: seq<string>)
    requires |values| >= |keys| + 2
    ensures Holds(keys, values, Entry(keys, values, |keys|))
  {
    var m := Entry(keys, values, |keys|);
    forall j | 0 <= j < |keys| && LastOf(keys, j) ensures Strip(keys[j]) in m && m[Strip(keys[j])] == Strip(values[j + 2]) {
      EntryAt(keys, values, |keys|, j);
    }
    forall c | c in m ensures exists j :: 0 <= j < |keys| && Strip(keys[j]) == c != "" {
      var j := EntryFrom(keys, values, |keys|, c);
    }
  }

  /** Row k is the last of the first n with its test's name. */
  ghost predicate LastRow(rows: seq<seq<string>>, n: nat, k: nat)
    requires n < |rows| && k <= n && forall i :: 0 < i <= n ==> |rows[i]| >= 2
  {
    k > 0 && forall i :: k < i <= n ==> rows[i][1] != rows[k][1]
  }

  lemma {:induction false} RowsAt(rows: seq<seq<string>>, keys: seq<string>, n: nat, k: nat)
    requires n < |rows| && k <= n && forall k :: 0 < k <= n ==> |rows[k]| >= |keys| + 2
    requires LastRow(rows, n, k)
    ensures rows[k][1] in Rows(rows, keys, n) && Rows(rows, keys, n)[rows[k][1]] == Entry(keys, rows[k], |keys|)
  {
    if k < n {
      RowsAt(rows, keys, n - 1, k);
    }
  }

  lemma {:induction false} RowsFrom(rows: seq<seq<string>>, keys: seq<string>, n: nat, c: string) returns (k: nat)
    requires n < |rows| && forall k :: 0 < k <= n ==> |rows[k]| >= |keys| + 2
    requires c in Rows(rows, keys, n)
    ensures 0 < k <= n && rows[k][1] == c
  {
    if c == rows[n][1] {
      k := n;
    } else {
      k := RowsFrom(rows, keys, n - 1, c);
    }
  }

  /** The table of n rows: for each name in the second column its last row, and nothing else. */
  ghost predicate Tabulates(rows: seq<seq<string>>, keys: seq<string>, n: nat, r: Results)
    requires n < |rows| && forall i :: 0 < i <= n ==> |rows[i]| >= |keys| + 2
  {
    && (forall k :: 0 < k <= n && LastRow(rows, n, k) ==> rows[k][1] in r && Holds(keys, rows[k], r[rows[k][1]]))
    && (forall c :: c in r ==> exists k :: 0 < k <= n && rows[k][1] == c)
  }

  lemma RowsAre(rows: seq<seq<string>>, keys: seq<string>, n: nat)
    requires n < |rows| && forall k :: 0 < k <= n ==> |rows[k]| >= |keys| + 2
    ensures Tabulates(rows, keys, n, Rows(rows, keys, n))
  {
    var r := Rows(rows, keys, n);
    forall k | 0 < k <= n && LastRow(rows, n, k) ensures rows[k][1] in r && Holds(keys, rows[k], r[rows[k][1]]) {
      RowsAt(rows, keys, n, k);
      EntryIs(keys, rows[k]);
    }
    forall c | c in r ensures exists k :: 0 < k <= n && rows[k][1] == c {
      var k := RowsFrom(rows, keys, n, c);
    }
  }

  /** The fields that are not empty, in order. */
  lemma {:induction false} NonEmptyBoth(a: seq<string>, x: string, b: seq<string>)
    ensures NonEmpty(a + [x] + b) == NonEmpty(a) + (if x == "" then [] else [x]) + NonEmpty(b)
    decreases |b|
  {
    if b == [] {
      assert a + [x] + b == a + [x];
      NonEmptyNext(a, x);
    } else {
      var front, y := b[..|b| - 1], b[|b| - 1];
      NonEmptyBoth(a, x, front);
      assert a + [x] + b == a + [x] + front + [y];
      NonEmptyNext(a + [x] + front, y);
    }
  }

  lemma NonEmptyNext(a: seq<string>, x: string)
    ensures NonEmpty(a + [x]) == NonEmpty(a) + if x == "" then [] else [x]
  {
    assert (a + [x])[..|a|] == a;
  }

  /** The last line is ignored; each other one must have a test's name, and each past the first a value for
      every header field. */
  lemma ParsesWhen(rows: seq<seq<string>>)
    requires |rows| > 0
    ensures ParseFields(rows).Some? <==>
      && (forall i :: 0 <= i < |rows| - 1 ==> |rows[i]| >= 2)
      && (forall i :: 0 < i < |rows| - 1 ==> |rows[i]| >= |Keys(rows[0])| + 2)
  {
  }

  /** ... and then the table is that of the rows in between. */
  lemma ParsesTo(rows: seq<seq<string>>, keys: seq<string>, n: nat)
    requires |rows| == n + 2 && keys == Keys(rows[0]) && |rows[0]| >= 2
    requires forall k :: 0 < k <= n ==> |rows[k]| >= |keys| + 2
    ensures ParseFields(rows) == Some(Rows(rows, keys, n))
  {
  }

  // ---------------------------------------------------------------- the parser's loops

  method TestNames(rows: seq<seq<string>>) returns (tests: Option<seq<string>>)
    requires |rows| > 0
    ensures tests.Some? <==> forall i :: 0 <= i < |rows| - 1 ==> |rows[i]| >= 2
    ensures tests.Some? ==> |tests.value| == |rows| - 1
    ensures tests.Some? ==> forall i :: 0 <= i < |rows| - 1 ==> tests.value[i] == rows[i][1]
  {
    var out := [];
    for i := 0 to |rows| - 1
      invariant |out| == i && forall k :: 0 <= k < i ==> |rows[k]| >= 2 && out[k] == rows[k][1]
    {
      if |rows[i]| < 2 {
        return None;
      }
      out := out + [rows[i][1]];
    }
    return Some(out);
  }

  method ParseRow(keys: seq<string>, values: seq<string>) returns (row: Option<map<string, string>>)
    requires |values| >= 2
    ensures row == if |values| >= |keys| + 2 then Some(Entry(keys, values, |keys|)) else None
  {
    var m: map<string, string> := map[];
    for j := 0 to |keys|
      invariant j + 2 <= |values| && m == Entry(keys, values, j)
    {
      if j + 2 >= |values| {
        return None;
      }
      var k := Strip(keys[j]);
      var v := Strip(values[j + 2]);
      if k != "" {
        m := m[k := v];
      }
    }
    return Some(m);
  }

  method ParseCsv(data: string) returns (r: Option<Results>)
    ensures r == Parse(data)
  {
    var rows := Fields(Split(data, '\n'));
    r := FillTable(rows);
  }

  method FillTable(rows: seq<seq<string>>) returns (r: Option<Results>)
    requires |rows| > 0
    ensures r == ParseFields(rows)
  {
    var res: Results := map[];
    var keys := Keys(rows[0]);
    var tests := TestNames(rows);
    if tests == None {
      return None;
    }
    for i := 0 to if |rows| < 2 then 0 else |rows| - 2
      invariant forall k :: 0 < k <= i ==> |rows[k]| >= |keys| + 2
      invariant res == Rows(rows, keys, i)
    {
      var row := ParseRow(keys, rows[i + 1]);
      if row == None {
        return None;
      }
      res := res[tests.value[i + 1] := row.value];
    }
    return Some(res);
  }

  // ---------------------------------------------------------------- the round trip

  /** A field that splitting and stripping leave alone. */
  predicate Plain(s: string) {
    ',' !in s && '\n' !in s && Strip(s) == s
  }

  predicate PlainRow(row: seq<string>) {
    forall j :: 0 <= j < |row| ==> Plain(row[j])
  }

  /** What splitting a printed row at the commas gives. */
  function FieldsOf(row: seq<string>, ws: seq<nat>, n: nat): (r: seq<string>)
    requires n <= |row| && n <= |ws|
    ensures |r| == n + 1 && Last(r) == if n == 0 then "" else " "
    ensures forall j :: 0 <= j < n ==> r[j] == (if j == 0 then "" else " ") + Pad(row[j], ws[j])
  {
    if n == 0 then [""]
    else
      var r := FieldsOf(row, ws, n - 1);
      Front(r) + [Last(r) + Pad(row[n - 1], ws[n - 1]), " "]
  }

  lemma CommaBlank(s: string)
    ensures s + ", " == s + [','] + " "
  {
  }

  lemma LineBreak(s: string)
    ensures s + "\n" == s + ['\n'] + ""
  {
  }

  lemma {:induction false} SplitCells(row: seq<string>, ws: seq<nat>, n: nat)
    requires n <= |row| && n <= |ws| && PlainRow(row)
    ensures Split(Cells(row, ws, n), ',') == FieldsOf(row, ws, n)
  {
    if n > 0 {
      SplitCells(row, ws, n - 1);
      var front, cell := Cells(row, ws, n - 1), Pad(row[n - 1], ws[n - 1]);
      PadKeeps(row[n - 1], ws[n - 1], ',');
      CommaBlank(front + cell);
      SplitPiece(front, cell, ',', " ");
    }
  }

  lemma {:induction false} OneLine(row: seq<string>, ws: seq<nat>, n: nat)
    requires n <= |row| && n <= |ws| && PlainRow(row)
    ensures '\n' !in Cells(row, ws, n)
  {
    if n > 0 {
      OneLine(row, ws, n - 1);
      PadKeeps(row[n - 1], ws[n - 1], '\n');
    }
  }

  /** The printed rows and, after the last line break, nothing. */
  function LinesOf(csv: seq<seq<string>>, n: nat): (r: seq<string>)
    requires Table(csv) && n <= |csv|
    ensures |r| == n + 1 && Last(r) == ""
    ensures forall i :: 0 <= i < n ==> r[i] == Line(csv[i], Widths(csv))
  {
    if n == 0 then [""] else Front(LinesOf(csv, n - 1)) + [Line(csv[n - 1], Widths(csv)), ""]
  }

  lemma SplitLine(front: string, line: string)
    requires '\n' !in line && Last(Split(front, '\n')) == ""
    ensures Split(front + line + "\n", '\n') == Front(Split(front, '\n')) + [line, ""]
  {
    assert "" + line == line;
    LineBreak(front + line);
    SplitPiece(front, line, '\n', "");
  }

  lemma {:induction false} SplitText(csv: seq<seq<string>>, n: nat)
    requires Table(csv) && n <= |csv| && forall i :: 0 <= i < |csv| ==> PlainRow(csv[i])
    ensures Split(Text(csv, n), '\n') == LinesOf(csv, n)
  {
    if n > 0 {
      SplitText(csv, n - 1);
      OneLine(csv[n - 1], Widths(csv), |csv[0]|);
      SplitLine(Text(csv, n - 1), Line(csv[n - 1], Widths(csv)));
    }
  }

  lemma {:induction false} AllNonEmpty(fs: seq<string>)
    requires forall j :: 0 <= j < |fs| ==> fs[j] != ""
    ensures NonEmpty(fs) == fs
  {
    if fs != [] {
      AllNonEmpty(fs[..|fs| - 1]);
    }
  }

  /** Tables that survive printing: plain names and cells, and no column without a name. */
  predicate Printable(name: string, res: Results) {
    && Plain(name)
    && forall t :: t in res ==> Plain(t) && PlainCells(res[t])
  }

  predicate PlainCells(m: map<string, string>) {
    forall c :: c in m ==> c != "" && Plain(c) && Plain(m[c])
  }

  /** A test's name as the parser sees it: not stripped. */
  function Shown(t: string, w: nat): string {
    " " + Pad(t, w)
  }

  /** The parser never sees a test under its own name. */
  lemma NeverItself(t: string, w: nat)
    ensures Shown(t, w) != t
  {
    PadIs(t, w);
    assert |Shown(t, w)| == 1 + |Pad(t, w)|;
  }

  lemma ShownOnce(t: string, u: string, w: nat)
    requires Plain(t) && Plain(u) && Shown(t, w) == Shown(u, w)
    ensures t == u
  {
    StripField(t, w);
    StripField(u, w);
  }

  lemma PlainColumns(name: string, res: Results, cols: seq<string>)
    requires Lists(cols, Columns(res)) && Printable(name, res)
    ensures forall j :: 0 <= j < |cols| ==> cols[j] != "" && Plain(cols[j])
  {
    forall j | 0 <= j < |cols| ensures cols[j] != "" && Plain(cols[j]) {
      assert cols[j] in Columns(res);
      var t :| t in res && cols[j] in res[t];
      assert PlainCells(res[t]);
    }
  }

  lemma PlainRows(name: string, res: Results, cols: seq<string>, t: string)
    requires Printable(name, res) && t in res
    ensures PlainRow(Row(name, res, cols, t))
  {
    assert Plain("0");
    assert PlainCells(res[t]);
  }

  lemma PlainSheet(name: string, res: Results, tests: seq<string>, cols: seq<string>)
    requires Lists(tests, res.Keys) && Lists(cols, Columns(res)) && Printable(name, res)
    ensures forall i :: 0 <= i <= |tests| ==> PlainRow(Sheet(name, res, tests, cols)[i])
  {
    var csv := Sheet(name, res, tests, cols);
    PlainColumns(name, res, cols);
    PlainHeader(cols);
    forall i | 0 <= i <= |tests| ensures PlainRow(csv[i]) {
      if i > 0 {
        assert csv[i] == Row(name, res, cols, tests[i - 1]);
        PlainRows(name, res, cols, tests[i - 1]);
      }
    }
  }

  lemma PlainHeader(cols: seq<string>)
    requires forall j :: 0 <= j < |cols| ==> Plain(cols[j])
    ensures PlainRow(["name", "test"] + cols)
  {
    assert Plain("name") && Plain("test");
  }

  /** The header's keys are the padded column names and, after the last comma, a blank. */
  lemma HeaderKeys(header: seq<string>, ws: seq<nat>, cols: seq<string>)
    requires header == ["name", "test"] + cols && |ws| == |header|
    ensures var keys := Keys(FieldsOf(header, ws, |header|));
      && |keys| == |cols| + 1 && keys[|cols|] == " "
      && forall j :: 0 <= j < |cols| ==> keys[j] == " " + Pad(cols[j], ws[j + 2])
  {
    var fs := FieldsOf(header, ws, |header|);
    PadIs("name", ws[0]);
    assert fs[0] == "" + Pad("name", ws[0]);
    assert fs[|header|] == " ";
    AllNonEmpty(fs);
  }

  /** Keys and values that strip to distinct columns and their cells. */
  predicate Strips(keys: seq<string>, values: seq<string>, cols: seq<string>, cells: seq<string>) {
    && |cols| == |cells| && |keys| == |cols| + 1 && |values| == |cols| + 3
    && (forall j :: 0 <= j < |cols| ==> Strip(keys[j]) == cols[j] && Strip(values[j + 2]) == cells[j])
    && (forall j :: 0 <= j < |cols| ==> cols[j] != "")
    && (forall i, j :: 0 <= i < j < |cols| ==> cols[i] != cols[j])
  }

  lemma WholeEntry(keys: seq<string>, values: seq<string>, cols: seq<string>, cells: seq<string>)
    requires Strips(keys, values, cols, cells) && Strip(keys[|cols|]) == ""
    ensures forall c :: c in Entry(keys, values, |keys|) <==> c in cols
    ensures forall j :: 0 <= j < |cols| ==> cols[j] in cols && Entry(keys, values, |keys|)[cols[j]] == cells[j]
  {
    var m := Entry(keys, values, |keys|);
    forall j | 0 <= j < |cols| ensures cols[j] in m && m[cols[j]] == cells[j] {
      EntryAt(keys, values, |keys|, j);
    }
    forall c | c in m ensures c in cols {
      var j := EntryFrom(keys, values, |keys|, c);
      assert cols[j] == c;
    }
  }

  lemma RowStrips(keys: seq<string>, ws: seq<nat>, cols: seq<string>, row: seq<string>)
    requires |ws| == |row| == |cols| + 2 && |keys| == |cols| + 1 && PlainRow(row)
    requires forall j :: 0 <= j < |cols| ==> keys[j] == " " + Pad(cols[j], ws[j + 2])
    requires forall j :: 0 <= j < |cols| ==> cols[j] != "" && Plain(cols[j])
    requires forall i, j :: 0 <= i < j < |cols| ==> cols[i] != cols[j]
    ensures Strips(keys, FieldsOf(row, ws, |row|), cols, row[2..])
  {
    var fs := FieldsOf(row, ws, |row|);
    forall j | 0 <= j < |cols| ensures Strip(keys[j]) == cols[j] && Strip(fs[j + 2]) == row[j + 2] {
      StripField(cols[j], ws[j + 2]);
      assert fs[j + 2] == " " + Pad(row[j + 2], ws[j + 2]);
      StripField(row[j + 2], ws[j + 2]);
    }
  }

  ghost predicate DistinctNames(rows: seq<seq<string>>, n: nat) {
    && n < |rows| && (forall k :: 0 < k <= n ==> |rows[k]| >= 2)
    && (forall i, k :: 0 < i < k <= n ==> rows[i][1] != rows[k][1])
  }

  /** What the parser makes of a printed table. */
  lemma PrintedRows(csv: seq<seq<string>>)
    requires Table(csv) && |csv[0]| >= 2 && forall i :: 0 <= i < |csv| ==> PlainRow(csv[i])
    ensures var rows := Fields(Split(Text(csv, |csv|), '\n'));
      && |rows| == |csv| + 1
      && forall i :: 0 <= i < |csv| ==> rows[i] == FieldsOf(csv[i], Widths(csv), |csv[0]|)
  {
    SplitText(csv, |csv|);
    var lines := LinesOf(csv, |csv|);
    forall i | 0 <= i < |csv| ensures Fields(lines)[i] == FieldsOf(csv[i], Widths(csv), |csv[0]|) {
      LineFields(csv, i);
    }
  }

  lemma LineFields(csv: seq<seq<string>>, i: nat)
    requires Table(csv) && i < |csv| && PlainRow(csv[i])
    ensures Fields(LinesOf(csv, |csv|))[i] == FieldsOf(csv[i], Widths(csv), |csv[0]|)
  {
    SplitCells(csv[i], Widths(csv), |csv[0]|);
  }

  /** What reading a test back means: its padded name holds every column and nothing else. */
  ghost predicate ReadsBack(r: Results, w: nat, res: Results, t: string)
    requires t in res
  {
    && Shown(t, w) in r
    && r[Shown(t, w)].Keys == Columns(res)
    && (forall c :: c in Columns(res) && c in res[t] ==> r[Shown(t, w)][c] == res[t][c])
    && (forall c :: c in Columns(res) && c !in res[t] ==> r[Shown(t, w)][c] == "0")
  }

  lemma TestReadsBack(rows: seq<seq<string>>, keys: seq<string>, ws: seq<nat>, name: string, res: Results,
                      tests: seq<string>, cols: seq<string>, i: nat)
    requires Lists(tests, res.Keys) && Lists(cols, Columns(res)) && i < |tests| && |ws| == |cols| + 2
    requires |rows| == |tests| + 2 && DistinctNames(rows, |tests|)
    requires |keys| == |cols| + 1 && (forall k :: 0 < k <= |tests| ==> |rows[k]| >= |keys| + 2)
    requires rows[i + 1] == FieldsOf(Row(name, res, cols, tests[i]), ws, |ws|)
    requires Strips(keys, rows[i + 1], cols, Row(name, res, cols, tests[i])[2..]) && Strip(keys[|cols|]) == ""
    ensures ReadsBack(Rows(rows, keys, |tests|), ws[1], res, tests[i])
  {
    var row := Row(name, res, cols, tests[i]);
    assert rows[i + 1][1] == " " + Pad(row[1], ws[1]);
    assert LastRow(rows, |tests|, i + 1);
    RowsAt(rows, keys, |tests|, i + 1);
    WholeEntry(keys, rows[i + 1], cols, row[2..]);
    CellsBack(Entry(keys, rows[i + 1], |keys|), name, res, cols, tests[i]);
  }

  lemma CellsBack(m: map<string, string>, name: string, res: Results, cols: seq<string>, t: string)
    requires Lists(cols, Columns(res)) && t in res && forall c :: c in m <==> c in cols
    requires forall j :: 0 <= j < |cols| ==> cols[j] in m && m[cols[j]] == Row(name, res, cols, t)[2..][j]
    ensures m.Keys == Columns(res)
    ensures forall c :: c in Columns(res) && c in res[t] ==> m[c] == res[t][c]
    ensures forall c :: c in Columns(res) && c !in res[t] ==> m[c] == "0"
  {
    var row := Row(name, res, cols, t);
    forall c | c in Columns(res) ensures c in m && m[c] == if c in res[t] then res[t][c] else "0" {
      var j :| 0 <= j < |cols| && cols[j] == c;
      assert row[2..][j] == row[j + 2];
    }
    assert m.Keys == Columns(res);
  }

  /** The facts about a printed sheet that the round trip needs. */
  ghost predicate Prints(rows: seq<seq<string>>, keys: seq<string>, ws: seq<nat>, name: string, res: Results,
                         tests: seq<string>, cols: seq<string>)
    requires Lists(tests, res.Keys)
  {
    && |ws| == |cols| + 2 && |keys| == |cols| + 1 && keys[|cols|] == " "
    && |rows| == |tests| + 2 && |rows[0]| == |cols| + 3 && keys == Keys(rows[0])
    && (forall j :: 0 <= j < |cols| ==> keys[j] == " " + Pad(cols[j], ws[j + 2]))
    && (forall k :: 0 < k <= |tests| ==> rows[k] == FieldsOf(Row(name, res, cols, tests[k - 1]), ws, |ws|))
  }

  lemma SheetPrints(name: string, res: Results, tests: seq<string>, cols: seq<string>,
                    csv: seq<seq<string>>, rows: seq<seq<string>>)
    requires Lists(tests, res.Keys) && Table(csv) && |csv| == |tests| + 1 && |rows| == |tests| + 2
    requires csv[0] == ["name", "test"] + cols
    requires forall k :: 0 < k <= |tests| ==> csv[k] == Row(name, res, cols, tests[k - 1])
    requires forall i :: 0 <= i < |csv| ==> rows[i] == FieldsOf(csv[i], Widths(csv), |csv[0]|)
    ensures Prints(rows, Keys(rows[0]), Widths(csv), name, res, tests, cols)
  {
    HeaderKeys(csv[0], Widths(csv), cols);
  }

  lemma NamesDistinct(rows: seq<seq<string>>, keys: seq<string>, ws: seq<nat>, name: string, res: Results,
                      tests: seq<string>, cols: seq<string>)
    requires Lists(tests, res.Keys) && Printable(name, res) && Prints(rows, keys, ws, name, res, tests, cols)
    ensures forall k :: 0 < k <= |tests| ==> |rows[k]| == |cols| + 3 && rows[k][1] == Shown(tests[k - 1], ws[1])
    ensures DistinctNames(rows, |tests|)
  {
    forall k | 0 < k <= |tests| ensures |rows[k]| == |cols| + 3 && rows[k][1] == Shown(tests[k - 1], ws[1]) {
      assert FieldsOf(Row(name, res, cols, tests[k - 1]), ws, |ws|)[1] == " " + Pad(tests[k - 1], ws[1]);
    }
    forall i, k | 0 < i < k <= |tests| ensures rows[i][1] != rows[k][1] {
      if rows[i][1] == rows[k][1] {
        ShownOnce(tests[i - 1], tests[k - 1], ws[1]);
      }
    }
  }

  /** hash2csv, then parse_csv: every test comes back under its padded name with the printed value of every
      column, "0" where it had none, and nothing else comes back. */
  lemma RoundTrip(name: string, res: Results, tests: seq<string>, cols: seq<string>)
    requires Lists(tests, res.Keys) && Lists(cols, Columns(res)) && Printable(name, res)
    ensures
      var csv := Sheet(name, res, tests, cols);
      var r := Parse(Text(csv, |csv|));
      && r.Some?
      && (forall t :: t in res ==> ReadsBack(r.value, Widths(csv)[1], res, t))
      && (forall k :: k in r.value ==> exists t :: t in res && k == Shown(t, Widths(csv)[1]))
  {
    var csv := Sheet(name, res, tests, cols);
    var rows := Fields(Split(Text(csv, |csv|), '\n'));
    PlainSheet(name, res, tests, cols);
    PrintedRows(csv);
    SheetPrints(name, res, tests, cols, csv, rows);
    AllReadBack(rows, Keys(rows[0]), Widths(csv), name, res, tests, cols);
  }

  lemma AllReadBack(rows: seq<seq<string>>, keys: seq<string>, ws: seq<nat>, name: string, res: Results,
                    tests: seq<string>, cols: seq<string>)
    requires Lists(tests, res.Keys) && Lists(cols, Columns(res)) && Printable(name, res)
    requires Prints(rows, keys, ws, name, res, tests, cols)
    ensures
      var r := ParseFields(rows);
      && r.Some?
      && (forall t :: t in res ==> ReadsBack(r.value, ws[1], res, t))
      && (forall k :: k in r.value ==> exists t :: t in res && k == Shown(t, ws[1]))
  {
    NamesDistinct(rows, keys, ws, name, res, tests, cols);
    ParsesTo(rows, keys, |tests|);
    var r := Rows(rows, keys, |tests|);
    forall t | t in res ensures ReadsBack(r, ws[1], res, t) {
      var i :| 0 <= i < |tests| && tests[i] == t;
      RowReadsBack(rows, keys, ws, name, res, tests, cols, i);
    }
    forall k | k in r ensures exists t :: t in res && k == Shown(t, ws[1]) {
      var i := RowsFrom(rows, keys, |tests|, k);
      assert tests[i - 1] in res;
    }
  }

  lemma RowReadsBack(rows: seq<seq<string>>, keys: seq<string>, ws: seq<nat>, name: string, res: Results,
                     tests: seq<string>, cols: seq<string>, i: nat)
    requires Lists(tests, res.Keys) && Lists(cols, Columns(res)) && Printable(name, res) && i < |tests|
    requires Prints(rows, keys, ws, name, res, tests, cols) && DistinctNames(rows, |tests|)
    requires forall k :: 0 < k <= |tests| ==> |rows[k]| == |cols| + 3
    ensures ReadsBack(Rows(rows, keys, |tests|), ws[1], res, tests[i])
  {
    PlainColumns(name, res, cols);
    PlainRows(name, res, cols, tests[i]);
    RowStrips(keys, ws, cols, Row(name, res, cols, tests[i]));
    assert rows[i + 1] == FieldsOf(Row(name, res, cols, tests[i]), ws, |ws|);
    StripBlank();
    TestReadsBack(rows, keys, ws, name, res, tests, cols, i);
  }
}
