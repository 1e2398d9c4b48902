/** The text form of direct routes in libibmad/portid.c. */
module DrPathText {
  import opened Common

  type Short = x: nat | x < 0x1_0000

  // ---------------------------------------------------------------- numbers

  predicate IsDigit(c: char) {
    '0' <= c <= '9'
  }

  /** `%u`, and `%d` of what is not negative. */
  function Decimal(n: nat): (s: string)
    ensures s != "" && forall i :: 0 <= i < |s| ==> IsDigit(s[i])
  {
    var digit := ['0' + (n % 10) as char];
    if n < 10 then digit else Decimal(n / 10) + digit
  }

  /** The digits at the start of s, added to a number already read. */
  function Number(s: string, n: nat): nat {
    if s != "" && IsDigit(s[0]) then Number(s[1..], 10 * n + (s[0] - '0') as nat) else n
  }

  function Atoi(s: string): int {
    var t := LStrip(s);
    if t != "" && t[0] == '-' then 0 - Number(t[1..], 0)
    else if t != "" && t[0] == '+' then Number(t[1..], 0)
    else Number(t, 0)
  }

  lemma {:induction false} NumberMore(s: string, t: string, n: nat)
    requires forall i :: 0 <= i < |s| ==> IsDigit(s[i])
    ensures Number(s + t, n) == Number(t, Number(s, n))
  {
    if s == "" {
      assert s + t == t;
    } else {
      assert (s + t)[1..] == s[1..] + t;
      NumberMore(s[1..], t, 10 * n + (s[0] - '0') as nat);
    }
  }

  lemma {:induction false} NumberOfDecimal(n: nat)
    ensures Number(Decimal(n), 0) == n
  {
    var digit := ['0' + (n % 10) as char];
    assert digit[1..] == "";
    if n >= 10 {
      NumberMore(Decimal(n / 10), digit, 0);
      NumberOfDecimal(n / 10);
    }
  }

  /** Reading a printed number gives it back. */
  lemma AtoiOfDecimal(n: nat)
    ensures Atoi(Decimal(n)) == n
  {
    assert IsDigit(Decimal(n)[0]);
    NumberOfDecimal(n);
  }

  /** What digits mean: each counts by its power of ten. */
  ghost function Value(s: string): int {
    if s == "" then 0 else (s[0] as int - '0' as int) * Pow10(|s| - 1) + Value(s[1..])
  }

  ghost function Pow10(n: nat): nat {
    if n == 0 then 1 else 10 * Pow10(n - 1)
  }

  ghost predicate Digits(s: string) {
    forall i :: 0 <= i < |s| ==> '0' <= s[i] <= '9'
  }

  lemma {:induction false} NumberIs(s: string, rest: string, n: nat)
    requires Digits(s) && (rest == "" || !('0' <= rest[0] <= '9'))
    ensures Number(s + rest, n) == n * Pow10(|s|) + Value(s)
  {
    if s == "" {
      assert s + rest == rest;
    } else {
      var d := (s[0] - '0') as nat;
      assert (s + rest)[1..] == s[1..] + rest;
      NumberIs(s[1..], rest, 10 * n + d);
      Carry(n, d, Pow10(|s| - 1));
    }
  }

  lemma Carry(n: nat, d: nat, p: nat)
    ensures (10 * n + d) * p == n * (10 * p) + d * p
  {
  }

  /** atoi of white space, at most one sign, digits and anything else: the signed value of the digits. */
  lemma AtoiIs(blanks: string, sign: string, digits: string, rest: string)
    requires Blank(blanks) && sign in {"", "+", "-"} && Digits(digits)
    requires rest == "" || !('0' <= rest[0] <= '9')
    requires sign + digits == "" && rest != "" ==> !Blank(rest[..1]) && rest[0] != '+' && rest[0] != '-'
    ensures Atoi(blanks + sign + digits + rest) == if sign == "-" then 0 - Value(digits) else Value(digits)
  {
    var t := sign + digits + rest;
    assert blanks + sign + digits + rest == blanks + t;
    LStripBlank(blanks, t);
    SignedIs(blanks + t, sign, digits, rest);
  }

  lemma SignedIs(s: string, sign: string, digits: string, rest: string)
    requires LStrip(s) == sign + digits + rest && sign in {"", "+", "-"} && Digits(digits)
    requires rest == "" || !('0' <= rest[0] <= '9')
    requires sign + digits == "" && rest != "" ==> rest[0] != '+' && rest[0] != '-'
    ensures Atoi(s) == if sign == "-" then 0 - Value(digits) else Value(digits)
  {
    var t := LStrip(s);
    NumberIs(digits, rest, 0);
    if sign == "" {
      assert t == digits + rest;
    } else {
      assert t[1..] == digits + rest;
    }
  }

  lemma {:induction false} LStripBlank(a: string, t: string)
    requires Blank(a) && (t == "" || !IsSpace(t[0]))
    ensures LStrip(a + t) == t
  {
    if a == "" {
      assert a + t == t;
    } else {
      assert (a + t)[1..] == a[1..] + t;
      LStripBlank(a[1..], t);
    }
  }

  /** What is printed is the decimal form, without a zero in front. */
  lemma {:induction false} DecimalIs(n: nat)
    ensures Digits(Decimal(n)) && Value(Decimal(n)) == n && (n > 0 ==> Decimal(n)[0] != '0')
  {
    NumberOfDecimal(n);
    assert Decimal(n) + "" == Decimal(n);
    NumberIs(Decimal(n), "", 0);
    if n >= 10 {
      DecimalIs(n / 10);
    }
  }

  // ---------------------------------------------------------------- the hop list

  /** `strchr(s, ',')`, or the length when there is none. */
  function Comma(s: string): (k: nat)
    ensures k <= |s| && (forall i :: 0 <= i < k ==> s[i] != ',') && (k < |s| ==> s[k] == ',')
  {
    if s == "" || s[0] == ',' then 0 else 1 + Comma(s[1..])
  }

  /** The text between the commas; what follows the last comma counts only when there is something. */
  function Pieces(s: string): seq<string> {
    if s == "" then []
    else
      var k := Comma(s);
      if k == |s| then [s] else [s[..k]] + Pieces(s[k + 1..])
  }

  ghost function Joined(pieces: seq<string>): string {
    if pieces == [] then "" else if |pieces| == 1 then pieces[0] else pieces[0] + "," + Joined(pieces[1..])
  }

  lemma Rejoin(head: string, pieces: seq<string>, tail: string)
    requires pieces != []
    ensures head + "," + (Joined(pieces) + tail) == Joined([head] + pieces) + tail
  {
    assert ([head] + pieces)[1..] == pieces;
  }

  function Tail(s: string): string {
    if s != "" && s[|s| - 1] == ',' then "," else ""
  }

  lemma TailOf(s: string, head: string, rest: string)
    requires s == head + "," + rest
    ensures Tail(s) == if rest == "" then "," else Tail(rest)
  {
    var n := |s| - 1;
    assert rest == "" ==> s[n] == ',';
    assert rest != "" ==> s[n] == rest[|rest| - 1];
  }

  lemma RejoinAll(s: string, head: string, rest: string, pieces: seq<string>)
    requires s == head + "," + rest && rest == Joined(pieces) + Tail(rest) && (rest == "" <==> pieces == [])
    ensures s == Joined([head] + pieces) + Tail(s)
  {
    TailOf(s, head, rest);
    if rest == "" {
      assert [head] + pieces == [head];
      assert s == head + ",";
    } else {
      Rejoin(head, pieces, Tail(rest));
    }
  }

  lemma {:induction false} NoCommas(s: string, i: nat)
    requires i < |Pieces(s)|
    ensures ',' !in Pieces(s)[i]
    decreases |s|
  {
    var k := Comma(s);
    if k < |s| {
      PiecesStep(s, k);
      if i > 0 {
        NoCommas(s[k + 1..], i - 1);
      }
    }
  }

  /** The pieces have no commas, and joined by commas they are the text, but for a comma at its end. */
  lemma {:induction false} PiecesAre(s: string)
    ensures s != "" ==> Pieces(s) != []
    ensures forall i :: 0 <= i < |Pieces(s)| ==> ',' !in Pieces(s)[i]
    ensures s == Joined(Pieces(s)) + Tail(s)
    decreases |s|
  {
    forall i | 0 <= i < |Pieces(s)| ensures ',' !in Pieces(s)[i] {
      NoCommas(s, i);
    }
    var k := Comma(s);
    if s != "" && k < |s| {
      var rest := s[k + 1..];
      PiecesAre(rest);
      PiecesStep(s, k);
      RejoinAll(s, s[..k], rest, Pieces(rest));
    }
  }

  /** What is left after the first piece. */
  function Rest(s: string): string {
    if Comma(s) == |s| then "" else s[Comma(s) + 1..]
  }

  lemma NextPiece(done: seq<string>, s: string, all: seq<string>)
    requires s != "" && done + Pieces(s) == all
    ensures done + [s[..Comma(s)]] + Pieces(Rest(s)) == all && |done| < |all|
  {
    if Comma(s) == |s| {
      assert s[..|s|] == s;
    } else {
      assert done + [s[..Comma(s)]] + Pieces(Rest(s)) == done + ([s[..Comma(s)]] + Pieces(Rest(s)));
    }
  }

  function Hop(piece: string): Byte {
    Atoi(piece) % 256
  }

  function Hops(pieces: seq<string>): (r: seq<Byte>)
    ensures |r| == |pieces| && forall i :: 0 <= i < |pieces| ==> r[i] == Atoi(pieces[i]) % 256
  {
    seq(|pieces|, i requires 0 <= i < |pieces| => Hop(pieces[i]))
  }

  lemma HopsMore(done: seq<string>, piece: string)
    ensures Hops(done + [piece]) == Hops(done) + [Hop(piece)]
  {
  }

  lemma HopsFront(pieces: seq<string>, done: seq<string>)
    requires done <= pieces
    ensures Hops(pieces)[..|done|] == Hops(done)
  {
  }

  function List(hops: seq<Byte>): string {
    if hops == [] then ""
    else if |hops| == 1 then Decimal(hops[0])
    else List(hops[..|hops| - 1]) + "," + Decimal(hops[|hops| - 1])
  }

  lemma CommaMore(a: string, b: string)
    ensures Comma(a + "," + b) == Comma(a)
  {
    var t := a + "," + b;
    assert forall i :: 0 <= i < |a| ==> t[i] == a[i];
    assert t[|a|] == ',';
  }

  lemma SliceMore(a: string, b: string, k: nat)
    requires k < |a|
    ensures (a + "," + b)[..k] == a[..k] && (a + "," + b)[k + 1..] == a[k + 1..] + "," + b
  {
  }

  lemma OnePiece(b: string)
    requires b != "" && ',' !in b
    ensures Pieces(b) == [b]
  {
  }

  lemma SliceAll(a: string, b: string)
    ensures (a + "," + b)[..|a|] == a && (a + "," + b)[|a| + 1..] == b
  {
  }

  lemma PiecesStep(s: string, k: nat)
    requires k == Comma(s) < |s|
    ensures Pieces(s) == [s[..k]] + Pieces(s[k + 1..])
  {
  }

  lemma {:induction false} PiecesMore(a: string, b: string)
    requires a != "" && a[|a| - 1] != ',' && b != "" && ',' !in b
    ensures Pieces(a + "," + b) == Pieces(a) + [b]
    decreases |a|
  {
    var k := Comma(a);
    CommaMore(a, b);
    PiecesStep(a + "," + b, k);
    if k == |a| {
      SliceAll(a, b);
      OnePiece(b);
    } else {
      SliceMore(a, b, k);
      PiecesMore(a[k + 1..], b);
      PiecesStep(a, k);
    }
  }

  lemma {:induction false} ListEnds(hops: seq<Byte>)
    requires hops != []
    ensures List(hops) != "" && List(hops)[|List(hops)| - 1] != ','
  {
    var last := Decimal(hops[|hops| - 1]);
    assert IsDigit(last[|last| - 1]);
  }

  lemma {:induction false} PiecesOfList(hops: seq<Byte>)
    ensures |Pieces(List(hops))| == |hops|
    ensures forall i :: 0 <= i < |hops| ==> Pieces(List(hops))[i] == Decimal(hops[i])
  {
    if |hops| == 1 {
      assert Comma(Decimal(hops[0])) == |Decimal(hops[0])|;
    } else if |hops| > 1 {
      var front := hops[..|hops| - 1];
      PiecesOfList(front);
      ListEnds(front);
      PiecesMore(List(front), Decimal(hops[|hops| - 1]));
    }
  }

  lemma HopOfDecimal(n: Byte)
    ensures Hop(Decimal(n)) == n
  {
    AtoiOfDecimal(n);
  }

  /** Reading a printed hop list gives the hops back. */
  lemma RoundTrip(hops: seq<Byte>)
    ensures Hops(Pieces(List(hops))) == hops
  {
    var pieces := Pieces(List(hops));
    PiecesOfList(hops);
    forall i | 0 <= i < |hops| ensures Hop(pieces[i]) == hops[i] {
      HopOfDecimal(hops[i]);
    }
  }

  // ---------------------------------------------------------------- what is lost when the text is cut

  /** The first digits of a number are a smaller number. */
  lemma {:induction false} FirstDigits(n: nat, j: nat)
    requires 0 < j < |Decimal(n)|
    ensures Atoi(Decimal(n)[..j]) < n
  {
    var front := Decimal(n / 10);
    if j == |front| {
      assert Decimal(n)[..j] == front;
      AtoiOfDecimal(n / 10);
    } else {
      assert Decimal(n)[..j] == front[..j];
      FirstDigits(n / 10, j);
    }
  }

  lemma HopOfDigits(n: Byte, j: nat)
    requires 0 < j < |Decimal(n)|
    ensures Hop(Decimal(n)[..j]) != n
  {
    FirstDigits(n, j);
    AtoiOfDigits(Decimal(n)[..j]);
  }

  lemma AtoiOfDigits(s: string)
    requires s != "" && forall i :: 0 <= i < |s| ==> IsDigit(s[i])
    ensures Atoi(s) >= 0
  {
    assert IsDigit(s[0]);
  }

  lemma FewPieces(s: string)
    requires ',' !in s
    ensures |Pieces(s)| <= 1
  {
    if s != "" {
      OnePiece(s);
    }
  }

  /** Less text has no more pieces. */
  lemma {:induction false} FewerPieces(s: string, m: nat)
    requires m <= |s|
    ensures |Pieces(s[..m])| <= |Pieces(s)|
    decreases |s|
  {
    var k := Comma(s);
    if m <= k {
      NotIn(s, k, m);
      FewPieces(s[..m]);
    } else {
      FirstPiece(s, k, m);
      PiecesStep(s, k);
      FewerPieces(s[k + 1..], m - k - 1);
    }
  }

  lemma NotIn(s: string, k: nat, m: nat)
    requires m <= k == Comma(s)
    ensures ',' !in s[..m]
  {
  }

  lemma FirstPiece(s: string, k: nat, m: nat)
    requires k == Comma(s) < m <= |s|
    ensures Pieces(s[..m]) == [s[..k]] + Pieces(s[k + 1..][..m - k - 1])
  {
    SameComma(s, k, m);
    PiecesStep(s[..m], k);
    SliceTwice(s, k, m);
  }

  lemma SameComma(s: string, k: nat, m: nat)
    requires k == Comma(s) < m <= |s|
    ensures Comma(s[..m]) == k
  {
    var t := s[..m];
    assert forall i :: 0 <= i < m ==> t[i] == s[i];
  }

  lemma SliceTwice(s: string, k: nat, m: nat)
    requires k < m <= |s|
    ensures s[..m][..k] == s[..k] && s[..m][k + 1..] == s[k + 1..][..m - k - 1]
  {
  }

  lemma CommaEnd(a: string)
    ensures Comma(a + ",") == Comma(a)
  {
    assert a + "," == a + "," + "";
    CommaMore(a, "");
  }

  lemma SliceEnd(a: string, k: nat)
    requires k < |a|
    ensures (a + ",")[..k] == a[..k] && (a + ",")[k + 1..] == a[k + 1..] + ","
  {
  }

  lemma SliceLast(a: string)
    ensures (a + ",")[..|a|] == a && (a + ",")[|a| + 1..] == ""
  {
  }

  /** A comma at the end adds no piece. */
  lemma {:induction false} TrailingComma(a: string)
    requires a != "" && a[|a| - 1] != ','
    ensures Pieces(a + ",") == Pieces(a)
    decreases |a|
  {
    var k := Comma(a);
    CommaEnd(a);
    PiecesStep(a + ",", k);
    if k == |a| {
      SliceLast(a);
    } else {
      SliceEnd(a, k);
      TrailingComma(a[k + 1..]);
      PiecesStep(a, k);
    }
  }

  /** A hop list that is cut anywhere reads back as something else. */
  lemma CutList(hops: seq<Byte>, m: nat)
    requires m < |List(hops)|
    ensures Hops(Pieces(List(hops)[..m])) != hops
  {
    var n := |hops| - 1;
    var last := Decimal(hops[n]);
    if n == 0 {
      CutNumber(hops[0], m);
    } else {
      var front := List(hops[..n]);
      PiecesOfList(hops[..n]);
      ListEnds(hops[..n]);
      if m <= |front| {
        assert List(hops)[..m] == front[..m];
        FewerPieces(front, m);
      } else if m == |front| + 1 {
        assert List(hops)[..m] == front + ",";
        TrailingComma(front);
      } else {
        var j := m - |front| - 1;
        assert List(hops)[..m] == front + "," + last[..j];
        PiecesMore(front, last[..j]);
        HopOfDigits(hops[n], j);
        assert Pieces(List(hops)[..m])[n] == last[..j];
      }
    }
  }

  lemma CutNumber(n: Byte, m: nat)
    requires m < |Decimal(n)|
    ensures Hops(Pieces(Decimal(n)[..m])) != [n]
  {
    var t := Decimal(n)[..m];
    if m > 0 {
      OnePiece(t);
      HopOfDigits(n, m);
      assert Hops(Pieces(t))[0] == Hop(t);
    }
  }

  // ---------------------------------------------------------------- printing into a buffer

  /** What snprintf leaves of s in a buffer of that size, which keeps a place for the terminator. */
  function Fit(s: string, size: nat): string {
    if size == 0 then "" else if |s| < size then s else s[..size - 1]
  }

  lemma FitBoth(a: string, b: string, size: nat)
    requires |a| < size
    ensures Fit(a + b, size) == a + Fit(b, size - |a|)
  {
  }

  lemma FitFull(a: string, b: string, size: nat)
    requires |a| >= size
    ensures Fit(a + b, size) == Fit(a, size)
  {
  }

  lemma {:induction false} ListBegins(hops: seq<Byte>, n: nat) returns (rest: string)
    requires 0 < n <= |hops|
    ensures List(hops) == List(hops[..n]) + rest
    ensures n == |hops| ==> rest == ""
    decreases |hops|
  {
    if n == |hops| {
      assert hops[..n] == hops;
      rest := "";
    } else {
      var front := hops[..|hops| - 1];
      var r := ListBegins(front, n);
      assert front[..n] == hops[..n];
      rest := r + "," + Decimal(hops[|hops| - 1]);
    }
  }

  lemma ListNext(hops: seq<Byte>, n: nat)
    requires 0 < n < |hops|
    ensures List(hops[..n + 1]) == List(hops[..n]) + "," + Decimal(hops[n])
  {
    assert hops[..n + 1][..n] == hops[..n];
  }

  /** Once the first n hops fill the buffer, the others do not matter. */
  lemma Cut(prefix: string, hops: seq<Byte>, n: nat, size: nat)
    requires 0 < n <= |hops| && |prefix + List(hops[..n])| >= size
    ensures Fit(prefix + List(hops), size) == Fit(prefix + List(hops[..n]), size)
  {
    var rest := ListBegins(hops, n);
    assert prefix + List(hops) == prefix + List(hops[..n]) + rest;
    FitFull(prefix + List(hops[..n]), rest, size);
  }

  lemma Regroup(a: string, b: string, c: string, d: string)
    ensures a + b + c + d == a + (b + c + d)
  {
  }

  /** Printing one more hop extends the list. */
  lemma PrintNext(prefix: string, hops: seq<Byte>, n: nat)
    requires 0 < n < |hops|
    ensures prefix + List(hops[..n]) + "," + Decimal(hops[n]) == prefix + List(hops[..n + 1])
  {
    ListNext(hops, n);
    Regroup(prefix, List(hops[..n]), ",", Decimal(hops[n]));
  }

  /** `rc += snprintf(dstr + rc, dstr_size - rc, ",%d", hop)`. */
  method Append(dstr: string, rc: nat, size: nat, hop: Byte) returns (next: string, count: nat)
    requires rc == |dstr| < size
    ensures next == Fit(dstr + "," + Decimal(hop), size) && count == |dstr + "," + Decimal(hop)|
  {
    var piece := "," + Decimal(hop);
    next := dstr + Fit(piece, size - rc);
    count := rc + |piece|;
    FitBoth(dstr, piece, size);
    assert dstr + piece == dstr + "," + Decimal(hop);
  }

  function Prefix(slid: Short, dlid: Short): string {
    "slid " + Decimal(slid) + "; dlid " + Decimal(dlid) + "; "
  }

  /** What a buffer shows after the prefix reads back as the hops in use exactly when there are some and
      the whole text fits; with none in use only a buffer that ends at the prefix hides the first hop. */
  lemma ReadBack(prefix: string, shown: seq<Byte>, used: seq<Byte>, size: nat)
    requires size > |prefix| && shown != [] && (used == shown || (used == [] && |shown| == 1))
    ensures
      var rest := Fit(prefix + List(shown), size)[|prefix|..];
      && |Pieces(rest)| <= |shown|
      && (Hops(Pieces(rest)) == used <==> if used == shown then |prefix + List(shown)| < size else size == |prefix| + 1)
  {
    var text := List(shown);
    PiecesOfList(shown);
    ListEnds(shown);
    var rest := Fit(prefix + text, size)[|prefix|..];
    if |prefix + text| < size {
      assert rest == text;
      RoundTrip(shown);
    } else {
      var m := size - 1 - |prefix|;
      assert rest == text[..m];
      FewerPieces(text, m);
      CutList(shown, m);
    }
    if used == [] && rest != "" {
      assert |Pieces(rest)| > 0;
    }
  }

  /** An empty path, printed whole, reads back as the one hop left over in its array. */
  lemma EmptyPathGainsHop(prefix: string, first: Byte, size: nat)
    requires size > |prefix + List([first])|
    ensures Hops(Pieces(Fit(prefix + List([first]), size)[|prefix|..])) == [first] != []
  {
    ReadBack(prefix, [first], [first], size);
  }

  /** A given LID, or the permissive one, in 16 bits. */
  function Lid(lid: int): Short {
    (if lid != 0 then lid else 0xffff) % 0x1_0000
  }

  /** Any other value is cut to 16 bits. */
  ghost predicate LidGiven(lid: int, stored: Short) {
    lid != 0 ==> exists k :: lid == stored + 0x1_0000 * k
  }

  lemma LidCut(lid: int)
    ensures LidGiven(lid, Lid(lid))
  {
    assert lid != 0 ==> lid == Lid(lid) + 0x1_0000 * (lid / 0x1_0000);
  }

  class DrPath {
    var cnt: int
    const p: array<Byte>
    var drslid: Short
    var drdlid: Short

    /** The hops that are in use. */
    ghost function Used(): seq<Byte>
      requires p.Length == PATH_BYTES && -1 <= cnt < PATH_BYTES
      reads this, p
    {
      p[..cnt + 1]
    }

    constructor ()
      ensures p.Length == PATH_BYTES && fresh(p)
    {
      p := new Byte[PATH_BYTES];
      cnt, drslid, drdlid := 0, 0, 0;
    }

    /** str2drpath. None stands for a store outside the hop array. */
    method Parse(routepath: string, slid: int, dlid: int) returns (r: Option<int>)
      requires p.Length == PATH_BYTES
      modifies this, p
      ensures r.None? <==> |Pieces(routepath)| > 64
      ensures r.None? ==> p[..] == Hops(Pieces(routepath))[..PATH_BYTES]
      ensures r.Some? ==> -1 <= cnt < PATH_BYTES && r.value == cnt == |Pieces(routepath)| - 1
      ensures r.Some? ==> Used() == Hops(Pieces(routepath)) && LidGiven(slid, drslid) && LidGiven(dlid, drdlid)
      ensures r.Some? && slid == 0 ==> drslid == 0xffff
      ensures r.Some? && 0 < slid < 0x1_0000 ==> drslid == slid
      ensures r.Some? && dlid == 0 ==> drdlid == 0xffff
      ensures r.Some? && 0 < dlid < 0x1_0000 ==> drdlid == dlid
    {
      cnt := -1;
      var str := routepath;
      ghost var done, all := [], Pieces(routepath);
      while str != ""
        invariant done + Pieces(str) == all && cnt == |done| - 1 < PATH_BYTES
        invariant p[..|done|] == Hops(done)
        decreases |str|
      {
        NextPiece(done, str, all);
        var piece := str[..Comma(str)];
        if cnt + 1 == PATH_BYTES {
          HopsFront(all, done);
          return None;
        }
        Store(piece, done);
        done := done + [piece];
        str := Rest(str);
      }
      drdlid := Lid(dlid);
      drslid := Lid(slid);
      LidCut(dlid);
      LidCut(slid);
      return Some(cnt);
    }

    /** `path->p[++path->cnt] = (uint8_t) atoi(str)`. */
    method Store(piece: string, ghost done: seq<string>)
      requires p.Length == PATH_BYTES && cnt + 1 == |done| < PATH_BYTES && p[..|done|] == Hops(done)
      modifies this`cnt, p
      ensures cnt == old(cnt) + 1 && p[..cnt + 1] == Hops(done + [piece])
    {
      cnt := cnt + 1;
      p[cnt] := Hop(piece);
      HopsMore(done, piece);
      assert p[..cnt] == old(p[..|done|]);
    }

    /** What is printed: with no hops in use the first one is printed all the same. */
    ghost function Shown(): (h: seq<Byte>)
      requires p.Length == PATH_BYTES && -1 <= cnt < PATH_BYTES
      reads this, p
      ensures h != [] && h[0] == p[0]
    {
      if cnt <= 0 then [p[0]] else p[..cnt + 1]
    }

    /** drpath2str: the text, cut to the buffer. */
    method Print(size: nat) returns (dstr: string)
      requires p.Length == PATH_BYTES && -1 <= cnt < PATH_BYTES
      ensures dstr == Fit("slid " + Decimal(drslid) + "; dlid " + Decimal(drdlid) + "; " + List(Shown()), size)
    {
      var prefix := Prefix(drslid, drdlid);
      dstr := PrintHops(prefix, size);
    }

    method PrintHops(prefix: string, size: nat) returns (dstr: string)
      requires p.Length == PATH_BYTES && -1 <= cnt < PATH_BYTES
      ensures dstr == Fit(prefix + List(Shown()), size)
    {
      ghost var hops := Shown();
      assert hops[..1] == [p[0]];
      var text := prefix + Decimal(p[0]);
      dstr := Fit(text, size);
      if |text| >= size {
        Cut(prefix, hops, 1, size);
      } else {
        dstr := PrintMore(prefix, dstr, size, hops);
      }
    }

    /** The loop over the further hops. */
    method PrintMore(ghost prefix: string, text: string, size: nat, ghost hops: seq<Byte>) returns (dstr: string)
      requires p.Length == PATH_BYTES && -1 <= cnt < PATH_BYTES && hops == Shown()
      requires text == prefix + List(hops[..1]) && |text| < size
      ensures dstr == Fit(prefix + List(hops), size)
    {
      dstr := text;
      var i, rc := 1, |text|;
      while i <= cnt
        invariant 1 <= i <= |hops| && rc == |dstr| < size && dstr == prefix + List(hops[..i])
      {
        PrintNext(prefix, hops, i);
        dstr, rc := Append(dstr, rc, size, p[i]);
        if rc >= size {
          Cut(prefix, hops, i + 1, size);
          return;
        }
        i := i + 1;
      }
      assert hops[..i] == hops;
    }

    /** When a printed path survives: some hop is in use and the whole text fits; or none is, and the
        buffer ends at the prefix. */
    ghost predicate Survives(prefix: string, size: nat)
      requires p.Length == PATH_BYTES && -1 <= cnt < PATH_BYTES
      reads this, p
    {
      if cnt >= 0 then |prefix + List(Shown())| < size else size == |prefix| + 1
    }

    /** Printing into a buffer and reading what follows the prefix back into another path. */
    method Reread(size: nat) returns (other: DrPath)
      requires p.Length == PATH_BYTES && -1 <= cnt < PATH_BYTES && size > |Prefix(drslid, drdlid)|
      ensures other.p.Length == PATH_BYTES && -1 <= other.cnt < PATH_BYTES
      ensures other.cnt == cnt && other.Used() == Used() <==> Survives(Prefix(drslid, drdlid), size)
    {
      var prefix := Prefix(drslid, drdlid);
      other := RereadHops(prefix, size);
    }

    method RereadHops(prefix: string, size: nat) returns (other: DrPath)
      requires p.Length == PATH_BYTES && -1 <= cnt < PATH_BYTES && size > |prefix|
      ensures other.p.Length == PATH_BYTES && -1 <= other.cnt < PATH_BYTES
      ensures other.cnt == cnt && other.Used() == Used() <==> Survives(prefix, size)
    {
      ReadBack(prefix, Shown(), Used(), size);
      var dstr := PrintHops(prefix, size);
      var text := dstr[|prefix|..];
      other := new DrPath();
      var _ := other.Parse(text, 0, 0);
      assert |other.Used()| == other.cnt + 1;
    }
  }
}
