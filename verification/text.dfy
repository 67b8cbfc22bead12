/**
 Python's `str.strip()` with no argument: removal of leading and trailing
 whitespace, where whitespace is exactly the set of characters for which
 Python's `str.isspace()` holds.
 */
module Text {

  /** The characters Python treats as whitespace. */
  predicate IsSpace(c: char)
  {
    var n := c as int;
    || (0x09 <= n <= 0x0D)
    || (0x1C <= n <= 0x20)
    || n == 0x85 || n == 0xA0 || n == 0x1680
    || (0x2000 <= n <= 0x200A)
    || n == 0x2028 || n == 0x2029 || n == 0x202F || n == 0x205F || n == 0x3000
  }

  predicate AllSpace(s: string)
  {
    forall i | 0 <= i < |s| :: IsSpace(s[i])
  }

  /** `s` without its leading whitespace. */
  function TrimStart(s: string): (r: string)
    ensures |r| <= |s| && r == s[|s| - |r|..]
    ensures AllSpace(s[..|s| - |r|])
    ensures r != [] ==> !IsSpace(r[0])
  {
    if s != [] && IsSpace(s[0]) then
      var r := TrimStart(s[1..]);
      assert s[..|s| - |r|] == [s[0]] + s[1..][..|s| - 1 - |r|];
      r
    else
      s
  }

  /** `s` without its trailing whitespace. */
  function TrimEnd(s: string): (r: string)
    ensures |r| <= |s| && r == s[..|r|]
    ensures AllSpace(s[|r|..])
    ensures r != [] ==> !IsSpace(r[|r| - 1])
  {
    if s != [] && IsSpace(s[|s| - 1]) then
      var r := TrimEnd(s[..|s| - 1]);
      assert s[|r|..] == s[..|s| - 1][|r|..] + [s[|s| - 1]];
      r
    else
      s
  }

  /** Python's `s.strip()`: the result is a contiguous piece of `s` that
      neither starts nor ends with whitespace, and everything cut away on
      either side is whitespace. */
  function Strip(s: string): (r: string)
    ensures |r| <= |s|
    ensures exists a | 0 <= a <= |s| - |r| ::
              && r == s[a..a + |r|]
              && AllSpace(s[..a])
              && AllSpace(s[a + |r|..])
    ensures r != [] ==> !IsSpace(r[0]) && !IsSpace(r[|r| - 1])
    ensures r == [] <==> AllSpace(s)
  {
    var t := TrimStart(s);
    var r := TrimEnd(t);
    StripPieces(s, t, r);
    r
  }

  lemma StripPieces(s: string, t: string, r: string)
    requires |t| <= |s| && t == s[|s| - |t|..] && AllSpace(s[..|s| - |t|])
    requires |r| <= |t| && r == t[..|r|] && AllSpace(t[|r|..])
    requires r != [] ==> !IsSpace(r[0])
    ensures exists a | 0 <= a <= |s| - |r| ::
              && r == s[a..a + |r|]
              && AllSpace(s[..a])
              && AllSpace(s[a + |r|..])
    ensures r == [] <==> AllSpace(s)
  {
    var a := |s| - |t|;
    assert s[a + |r|..] == t[|r|..];
    assert r == s[a..a + |r|];
    if r != [] {
      assert r[0] == s[a];
    } else {
      forall i | 0 <= i < |s|
        ensures IsSpace(s[i])
      {
        if i >= a {
          assert s[i] == t[i - a];
        } else {
          assert s[i] == s[..a][i];
        }
      }
    }
  }
}
