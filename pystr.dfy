/** The Python string operations the core relies on: `str.strip()` with no
    argument and `" ".join(parts)`, with `str.split(" ")` as the reference
    that shows the join loses nothing. */
module PyStr {

  /** The characters Python's `str.isspace` (and so `str.strip()`) treats as
      whitespace: tab to carriage return, the four ASCII separators, space,
      NEL, NBSP and the Unicode space separators. */
  predicate IsSpace(c: char)
  {
    || ('\t' <= c <= '\r')
    || ('\U{1C}' <= c <= '\U{1F}')
    || c == ' '
    || c == '\U{85}'
    || c == '\U{A0}'
    || c == '\U{1680}'
    || ('\U{2000}' <= c <= '\U{200A}')
    || c == '\U{2028}'
    || c == '\U{2029}'
    || c == '\U{202F}'
    || c == '\U{205F}'
    || c == '\U{3000}'
  }

  /** The code points for which Python's `str.isspace()` holds, listed one
      by one: a cross-check of the ranges in `IsSpace`, used only by
      `IsSpaceIsWhitespace`. */
  const Whitespace: set<char> := {
    '\t', '\n', '\U{0B}', '\U{0C}', '\r', '\U{1C}', '\U{1D}', '\U{1E}', '\U{1F}', ' ',
    '\U{85}', '\U{A0}', '\U{1680}',
    '\U{2000}', '\U{2001}', '\U{2002}', '\U{2003}', '\U{2004}', '\U{2005}',
    '\U{2006}', '\U{2007}', '\U{2008}', '\U{2009}', '\U{200A}',
    '\U{2028}', '\U{2029}', '\U{202F}', '\U{205F}', '\U{3000}'}

  /** The ranges in `IsSpace` cover exactly the 29 code points of `Whitespace`. */
  lemma IsSpaceIsWhitespace(c: char)
    ensures IsSpace(c) <==> c in Whitespace
  {
  }

  /** Every character of `s` is whitespace (the empty string included). */
  predicate IsBlank(s: string)
  {
    forall i | 0 <= i < |s| :: IsSpace(s[i])
  }

  /** `s` without its leading whitespace: a suffix of `s`, everything cut
      off is whitespace, and what remains does not start with whitespace. */
  function TrimStart(s: string): (r: string)
    ensures |r| <= |s| && r == s[|s| - |r|..]
    ensures IsBlank(s[..|s| - |r|])
    ensures r == [] || !IsSpace(r[0])
  {
    if |s| > 0 && IsSpace(s[0]) then
      var r := TrimStart(s[1..]);
      assert s[..|s| - |r|] == [s[0]] + s[1..][..|s| - 1 - |r|];
      r
    else s
  }

  /** `s` without its trailing whitespace: a prefix of `s`, everything cut
      off is whitespace, and what remains does not end with whitespace. */
  function TrimEnd(s: string): (r: string)
    ensures |r| <= |s| && r == s[..|r|]
    ensures IsBlank(s[|r|..])
    ensures r == [] || !IsSpace(r[|r| - 1])
  {
    if |s| > 0 && IsSpace(s[|s| - 1]) then
      var r := TrimEnd(s[..|s| - 1]);
      assert s[|r|..] == s[..|s| - 1][|r|..] + [s[|s| - 1]];
      r
    else s
  }

  /** Python's `s.strip()`: neither leading nor trailing whitespace remains. */
  function Strip(s: string): (r: string)
    ensures r == [] || (!IsSpace(r[0]) && !IsSpace(r[|r| - 1]))
  {
    TrimEnd(TrimStart(s))
  }

  /** `s.strip()` is a contiguous slice of `s`, and everything cut off on
      either side of it is whitespace. */
  lemma StripIsSlice(s: string)
    ensures exists i, j | 0 <= i <= j <= |s| :: Strip(s) == s[i..j] && IsBlank(s[..i]) && IsBlank(s[j..])
  {
    var t := TrimStart(s);
    var r := TrimEnd(t);
    var i := |s| - |t|;
    var j := i + |r|;
    assert r == s[i..j];
    assert s[j..] == t[|r|..];
  }

  /** `not s.strip()` holds exactly when `s` is all whitespace. */
  lemma StripEmptyIffBlank(s: string)
    ensures Strip(s) == [] <==> IsBlank(s)
  {
  }

  /** Python's `" ".join(parts)`. */
  function JoinSpace(parts: seq<string>): (r: string)
    ensures |parts| > 0 ==> parts[0] <= r
    ensures |parts| > 0 ==> |parts[|parts| - 1]| <= |r| && r[|r| - |parts[|parts| - 1]|..] == parts[|parts| - 1]
  {
    if |parts| == 0 then ""
    else if |parts| == 1 then parts[0]
    else parts[0] + " " + JoinSpace(parts[1..])
  }

  /** Python's `s.split(" ")`: the pieces between single spaces, never an
      empty list ("" splits into [""]). */
  function SplitSpace(s: string): (r: seq<string>)
    ensures |r| >= 1
  {
    if |s| == 0 then [""]
    else
      var rest := SplitSpace(s[1..]);
      if s[0] == ' ' then [""] + rest else [[s[0]] + rest[0]] + rest[1..]
  }

  lemma {:induction false} SplitNoSpace(a: string)
    requires ' ' !in a
    ensures SplitSpace(a) == [a]
  {
    if |a| > 0 {
      assert ' ' !in a[1..];
      SplitNoSpace(a[1..]);
      assert [a[0]] + a[1..] == a;
    }
  }

  lemma {:induction false} SplitAfterWord(a: string, rest: string)
    requires ' ' !in a
    ensures SplitSpace(a + " " + rest) == [a] + SplitSpace(rest)
  {
    if |a| == 0 {
      assert a + " " + rest == [' '] + rest;
      assert (a + " " + rest)[1..] == rest;
    } else {
      var s := a + " " + rest;
      assert s[1..] == a[1..] + " " + rest;
      assert ' ' !in a[1..];
      SplitAfterWord(a[1..], rest);
      assert [a[0]] + a[1..] == a;
    }
  }

  /** Joining space-free fragments and splitting the result on spaces gives
      the fragments back: none is dropped, merged or reordered. */
  lemma {:induction false} SplitJoin(parts: seq<string>)
    requires |parts| >= 1
    requires forall k | 0 <= k < |parts| :: ' ' !in parts[k]
    ensures SplitSpace(JoinSpace(parts)) == parts
  {
    if |parts| == 1 {
      SplitNoSpace(parts[0]);
    } else {
      SplitJoin(parts[1..]);
      SplitAfterWord(parts[0], JoinSpace(parts[1..]));
      assert [parts[0]] + parts[1..] == parts;
    }
  }

  /** Joining is compositional: the join of two non-empty runs of fragments
      is the two joins separated by one space, in order. */
  lemma {:induction false} JoinAppend(a: seq<string>, b: seq<string>)
    requires |a| > 0 && |b| > 0
    ensures JoinSpace(a + b) == JoinSpace(a) + " " + JoinSpace(b)
  {
    var ab := a + b;
    if |a| == 1 {
      assert ab[1..] == b;
    } else {
      assert ab[1..] == a[1..] + b;
      JoinAppend(a[1..], b);
      assert JoinSpace(ab) == a[0] + " " + (JoinSpace(a[1..]) + " " + JoinSpace(b));
    }
  }

  /** The empty list joins to "" and a single fragment is returned unchanged. */
  lemma JoinBaseCases(x: string)
    ensures JoinSpace([]) == ""
    ensures JoinSpace([x]) == x
  {
  }
}
