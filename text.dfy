/**
 * The two string operations the vocabulary answer check relies on, Python's
 * `str.strip()` and `str.lower()`, restricted to ASCII: whitespace is the set
 * of ASCII characters `str.isspace()` accepts, and only the letters A-Z are
 * folded to lower case.
 */
module Text {

  /** Tab, line feed, vertical tab, form feed, carriage return (9-13),
      the four information separators (28-31) and the space (32). */
  predicate IsSpace(c: char) {
    9 <= c as int <= 13 || 28 <= c as int <= 32
  }

  predicate AllSpace(s: string) {
    forall k :: 0 <= k < |s| ==> IsSpace(s[k])
  }

  predicate IsUpper(c: char) {
    'A' <= c <= 'Z'
  }

  /** One character of `str.lower()`: A-Z map to a-z, everything else is kept. */
  function LowerChar(c: char): (d: char)
    ensures IsUpper(c) ==> d as int == c as int + 32
    ensures !IsUpper(c) ==> d == c
    ensures !IsUpper(d)
    ensures IsSpace(d) <==> IsSpace(c)
  {
    if IsUpper(c) then (c as int + 32) as char else c
  }

  /** `str.lower()`: every character folded on its own, the length unchanged. */
  function Lower(s: string): (r: string)
    ensures |r| == |s|
    ensures forall k :: 0 <= k < |s| ==> r[k] == LowerChar(s[k])
  {
    if s == [] then [] else [LowerChar(s[0])] + Lower(s[1..])
  }

  /** `str.lstrip()`: drops the leading whitespace characters. */
  function StripLeft(s: string): string {
    if s != [] && IsSpace(s[0]) then StripLeft(s[1..]) else s
  }

  /** `str.rstrip()`: drops the trailing whitespace characters. */
  function StripRight(s: string): string {
    if s != [] && IsSpace(s[|s| - 1]) then StripRight(s[..|s| - 1]) else s
  }

  /** StripLeft keeps a suffix, drops only whitespace, and leaves no whitespace in front. */
  lemma {:induction false} StripLeftSpec(s: string)
    ensures var r := StripLeft(s);
      && |r| <= |s| && r == s[|s| - |r|..]
      && AllSpace(s[..|s| - |r|])
      && (r == [] || !IsSpace(r[0]))
  {
    if s != [] && IsSpace(s[0]) {
      StripLeftSpec(s[1..]);
      var r := StripLeft(s);
      assert s[..|s| - |r|] == [s[0]] + s[1..][..|s| - 1 - |r|];
      AllSpaceConcat([s[0]], s[1..][..|s| - 1 - |r|]);
    }
  }

  /** StripRight keeps a prefix, drops only whitespace, and leaves no whitespace at the end. */
  lemma {:induction false} StripRightSpec(s: string)
    ensures var r := StripRight(s);
      && |r| <= |s| && r == s[..|r|]
      && AllSpace(s[|r|..])
      && (r == [] || !IsSpace(r[|r| - 1]))
  {
    if s != [] && IsSpace(s[|s| - 1]) {
      var t := s[..|s| - 1];
      StripRightSpec(t);
      var r := StripRight(s);
      assert s[|r|..] == t[|r|..] + [s[|s| - 1]];
      AllSpaceConcat(t[|r|..], [s[|s| - 1]]);
    }
  }

  /** `str.strip()`: drops whitespace at both ends; neither end of the result is whitespace. */
  function Strip(s: string): (r: string)
    ensures |r| <= |s|
    ensures r == [] || (!IsSpace(r[0]) && !IsSpace(r[|r| - 1]))
  {
    StripLeftSpec(s);
    StripRightSpec(StripLeft(s));
    StripRight(StripLeft(s))
  }

  /** Two strings that differ at most in the case of ASCII letters. */
  predicate EqualIgnoringCase(s: string, t: string) {
    |s| == |t| && forall k :: 0 <= k < |s| ==> SameLetter(s[k], t[k])
  }

  predicate SameLetter(c: char, d: char) {
    c == d || (IsUpper(c) && d as int == c as int + 32) || (IsUpper(d) && c as int == d as int + 32)
  }

  lemma SameLetterIff(c: char, d: char)
    ensures LowerChar(c) == LowerChar(d) <==> SameLetter(c, d)
  {
  }

  /** Lower-casing identifies exactly the strings that are equal ignoring case. */
  lemma LowerEqualIff(s: string, t: string)
    ensures Lower(s) == Lower(t) <==> EqualIgnoringCase(s, t)
  {
    if Lower(s) == Lower(t) {
      forall k | 0 <= k < |s| ensures SameLetter(s[k], t[k]) {
        assert Lower(s)[k] == Lower(t)[k];
        SameLetterIff(s[k], t[k]);
      }
    }
    if EqualIgnoringCase(s, t) {
      forall k | 0 <= k < |s| ensures Lower(s)[k] == Lower(t)[k] {
        SameLetterIff(s[k], t[k]);
      }
    }
  }

  lemma AllSpaceConcat(a: string, b: string)
    ensures AllSpace(a + b) <==> AllSpace(a) && AllSpace(b)
  {
    if AllSpace(a + b) {
      forall k | 0 <= k < |a| ensures IsSpace(a[k]) { assert a[k] == (a + b)[k]; }
      forall k | 0 <= k < |b| ensures IsSpace(b[k]) { assert b[k] == (a + b)[|a| + k]; }
    }
  }

  lemma StripLeftExact(s: string, i: nat)
    requires i <= |s| && AllSpace(s[..i])
    requires i == |s| || !IsSpace(s[i])
    ensures StripLeft(s) == s[i..]
  {
    StripLeftSpec(s);
    var r := StripLeft(s);
    var k := |s| - |r|;
    assert k < |s| ==> r[0] == s[k];
    assert forall m :: 0 <= m < k ==> s[..k][m] == s[m];
    assert forall m :: 0 <= m < i ==> s[..i][m] == s[m];
  }

  lemma StripRightExact(s: string, j: nat)
    requires j <= |s| && AllSpace(s[j..])
    requires j == 0 || !IsSpace(s[j - 1])
    ensures StripRight(s) == s[..j]
  {
    StripRightSpec(s);
    var r := StripRight(s);
    var k := |r|;
    assert 0 < k ==> r[k - 1] == s[k - 1];
  }

  /**
   * The characterisation of `str.strip()`: if s[..i] and s[j..] are whitespace
   * and s[i..j] is empty or starts and ends with a non-whitespace character,
   * then stripping s gives exactly s[i..j].
   */
  lemma StripExact(s: string, i: nat, j: nat)
    requires i <= j <= |s|
    requires AllSpace(s[..i]) && AllSpace(s[j..])
    requires i == j || (!IsSpace(s[i]) && !IsSpace(s[j - 1]))
    ensures Strip(s) == s[i..j]
  {
    if i == j {
      StripBlank(s, i);
    } else {
      StripLeftExact(s, i);
      StripRightOfSuffix(s, i, j);
    }
  }

  lemma StripBlank(s: string, i: nat)
    requires i <= |s| && AllSpace(s[..i]) && AllSpace(s[i..])
    ensures Strip(s) == []
  {
    assert s[..i] + s[i..] == s[..|s|];
    AllSpaceConcat(s[..i], s[i..]);
    StripLeftExact(s, |s|);
  }

  lemma StripRightOfSuffix(s: string, i: nat, j: nat)
    requires i < j <= |s| && AllSpace(s[j..]) && !IsSpace(s[j - 1])
    ensures StripRight(s[i..]) == s[i..j]
  {
    var x := s[i..];
    assert x[j - i..] == s[j..];
    StripRightExact(x, j - i);
    assert x[..j - i] == s[i..j];
  }

  /** The bounds of the stripped part of s, satisfying the premises of StripExact. */
  lemma StripBounds(s: string) returns (i: nat, j: nat)
    ensures i <= j <= |s|
    ensures AllSpace(s[..i]) && AllSpace(s[j..])
    ensures i == j || (!IsSpace(s[i]) && !IsSpace(s[j - 1]))
    ensures Strip(s) == s[i..j]
  {
    var x := StripLeft(s);
    StripLeftSpec(s);
    i := |s| - |x|;
    var y := StripRight(x);
    StripRightSpec(x);
    j := i + |y|;
    SuffixPrefix(s, x, i, |y|);
  }

  lemma SuffixPrefix(s: string, x: string, i: nat, m: nat)
    requires i <= |s| && x == s[i..] && m <= |x|
    ensures x[..m] == s[i..i + m] && x[m..] == s[i + m..]
    ensures 0 < m ==> x[0] == s[i] && x[m - 1] == s[i + m - 1]
  {
  }

  /** Stripping ignores any whitespace added around the input. */
  lemma StripPadded(w1: string, u: string, w2: string)
    requires AllSpace(w1) && AllSpace(w2)
    ensures Strip(w1 + u + w2) == Strip(u)
  {
    var i, j := StripBounds(u);
    PaddedBounds(w1, u, w2, i, j);
    StripExact(w1 + u + w2, |w1| + i, |w1| + j);
  }

  /** Whitespace padding shifts the bounds of StripExact without breaking its premises. */
  lemma PaddedBounds(w1: string, u: string, w2: string, i: nat, j: nat)
    requires AllSpace(w1) && AllSpace(w2)
    requires i <= j <= |u|
    requires AllSpace(u[..i]) && AllSpace(u[j..])
    requires i == j || (!IsSpace(u[i]) && !IsSpace(u[j - 1]))
    ensures var s, n := w1 + u + w2, |w1|;
      && AllSpace(s[..n + i]) && AllSpace(s[n + j..])
      && (i == j || (!IsSpace(s[n + i]) && !IsSpace(s[n + j - 1])))
      && s[n + i..n + j] == u[i..j]
  {
    var s, n := w1 + u + w2, |w1|;
    assert s[..n + i] == w1 + u[..i];
    AllSpaceConcat(w1, u[..i]);
    assert s[n + j..] == u[j..] + w2;
    AllSpaceConcat(u[j..], w2);
  }

  lemma LowerSlice(s: string, a: nat, b: nat)
    requires a <= b <= |s|
    ensures Lower(s[a..b]) == Lower(s)[a..b]
  {
  }

  lemma AllSpaceLower(s: string)
    ensures AllSpace(Lower(s)) <==> AllSpace(s)
  {
  }

  /** Lower-casing never turns a character into whitespace or back, so it commutes with stripping. */
  lemma LowerStripCommute(s: string)
    ensures Lower(Strip(s)) == Strip(Lower(s))
  {
    var i, j := StripBounds(s);
    LowerBounds(s, i, j);
    StripExact(Lower(s), i, j);
  }

  /** Lower-casing keeps the premises of StripExact. */
  lemma LowerBounds(s: string, i: nat, j: nat)
    requires i <= j <= |s|
    requires AllSpace(s[..i]) && AllSpace(s[j..])
    requires i == j || (!IsSpace(s[i]) && !IsSpace(s[j - 1]))
    ensures var t := Lower(s);
      && AllSpace(t[..i]) && AllSpace(t[j..])
      && (i == j || (!IsSpace(t[i]) && !IsSpace(t[j - 1])))
      && t[i..j] == Lower(s[i..j])
  {
    var t := Lower(s);
    LowerSlice(s, 0, i);
    assert s[0..i] == s[..i] && t[0..i] == t[..i];
    AllSpaceLower(s[..i]);
    LowerSlice(s, j, |s|);
    assert s[j..|s|] == s[j..] && t[j..|s|] == t[j..];
    AllSpaceLower(s[j..]);
    LowerSlice(s, i, j);
  }
}
