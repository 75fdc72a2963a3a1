/** Python's `str.strip()` with no argument, as used by the blank-resume
    test of the matcher: it removes leading and trailing characters for
    which `str.isspace()` holds. */
module PyStr {

  /** The characters for which Python's `str.isspace()` is true: the ASCII
      controls TAB..CR and FS..US, SPACE, NEL, NO-BREAK SPACE, OGHAM SPACE
      MARK, the spaces U+2000..U+200A, the line and paragraph separators,
      NARROW NO-BREAK SPACE, MEDIUM MATHEMATICAL SPACE and IDEOGRAPHIC SPACE. */
  predicate IsSpace(c: char) {
    var n := c as int;
    || (0x09 <= n <= 0x0D)
    || (0x1C <= n <= 0x20)
    || n == 0x85 || n == 0xA0 || n == 0x1680
    || (0x2000 <= n <= 0x200A)
    || n == 0x2028 || n == 0x2029 || n == 0x202F || n == 0x205F || n == 0x3000
  }

  /** Every character of `s` is white space (this includes the empty string). */
  predicate AllSpace(s: string) {
    forall i :: 0 <= i < |s| ==> IsSpace(s[i])
  }

  /** `s.lstrip()`: the suffix of `s` left after dropping its leading white space. */
  function LStrip(s: string): (r: string)
    ensures |r| <= |s| && r == s[|s| - |r|..]
    ensures AllSpace(s[..|s| - |r|])
    ensures r == [] || !IsSpace(r[0])
  {
    if s != [] && IsSpace(s[0]) then
      var r := LStrip(s[1..]);
      assert s[..|s| - |r|] == [s[0]] + s[1..][..|s| - 1 - |r|];
      r
    else
      s
  }

  /** `s.rstrip()`: the prefix of `s` left after dropping its trailing white space. */
  function RStrip(s: string): (r: string)
    ensures |r| <= |s| && r == s[..|r|]
    ensures AllSpace(s[|r|..])
    ensures r == [] || !IsSpace(r[|r| - 1])
  {
    if s != [] && IsSpace(s[|s| - 1]) then
      var r := RStrip(s[..|s| - 1]);
      assert s[|r|..] == s[..|s| - 1][|r|..] + [s[|s| - 1]];
      r
    else
      s
  }

  /** `s.strip()`: the piece of `s` left after dropping white space at both
      ends; it neither starts nor ends with white space. */
  function Strip(s: string): (r: string)
    ensures exists i :: && 0 <= i <= |s| - |r| && s[i..][..|r|] == r
                        && AllSpace(s[..i]) && AllSpace(s[i + |r|..])
    ensures r == [] || (!IsSpace(r[0]) && !IsSpace(r[|r| - 1]))
  {
    var l := LStrip(s);
    var r := RStrip(l);
    var i := |s| - |l|;
    assert s[i..] == l && l[..|r|] == r;
    assert s[i + |r|..] == l[|r|..];
    r
  }

  /** `not s.strip()` holds exactly when `s` consists of white space only. */
  lemma StripEmptyIff(s: string)
    ensures Strip(s) == [] <==> AllSpace(s)
  {
    var l := LStrip(s);
    assert s[..|s| - |l|] + l == s;
    assert l[0..] == l;
    assert l != [] ==> l[0] == s[|s| - |l|];
    assert AllSpace(s) <==> l == [];
  }
}
