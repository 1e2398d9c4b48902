/** What several models share. */
module Common {

  datatype Option<T> = None | Some(value: T)

  type Byte = x: nat | x < 256

  /** The size of the hop array of `ib_dr_path_t`. */
  const PATH_BYTES := 64

  /** White space as isspace and Python's strip see it. */
  predicate IsSpace(c: char) {
    c == ' ' || 9 as char <= c <= 13 as char
  }

  function LStrip(s: string): string {
    if s != "" && IsSpace(s[0]) then LStrip(s[1..]) else s
  }

  ghost predicate Blank(s: string) {
    forall i :: 0 <= i < |s| ==> s[i] == ' ' || 9 as char <= s[i] <= 13 as char
  }

  /** Exactly the white space in front is gone. */
  lemma {:induction false} LStripIs(s: string) returns (a: string)
    ensures s == a + LStrip(s) && Blank(a)
    ensures LStrip(s) != "" ==> !Blank(LStrip(s)[..1])
  {
    if s != "" && IsSpace(s[0]) {
      var b := LStripIs(s[1..]);
      a := [s[0]] + b;
      assert s == [s[0]] + s[1..];
    } else {
      a := "";
      assert s != "" ==> s[..1][0] == s[0];
    }
  }
}
