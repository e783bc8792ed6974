/** Text helpers used by the scorer: the lower-casing that `str.lower()`
    performs, restricted to ASCII, and the substring test that Python's
    `sub in s` performs on two strings. */
module Strings {

  predicate IsUpper(c: char) {
    'A' <= c <= 'Z'
  }

  /** A string with no ASCII capital letter in it. */
  predicate IsLowerCase(s: string) {
    forall i :: 0 <= i < |s| ==> !IsUpper(s[i])
  }

  /** Lower-cases one character: the capitals 'A'..'Z' become 'a'..'z',
      every other character is left alone. */
  function LowerChar(c: char): (r: char)
    ensures !IsUpper(r)
    ensures r == c <==> !IsUpper(c)
  {
    if IsUpper(c) then (c as int + ('a' as int - 'A' as int)) as char else c
  }

  /** `s.lower()`, character by character. */
  function Lower(s: string): (r: string)
    ensures |r| == |s|
    ensures IsLowerCase(r)
  {
    seq(|s|, i requires 0 <= i < |s| => LowerChar(s[i]))
  }

  /** Lower-casing leaves a string that has no capitals unchanged. */
  lemma LowerOfLowerCase(s: string)
    requires IsLowerCase(s)
    ensures Lower(s) == s
  {
  }

  /** Lower-casing twice is lower-casing once. */
  lemma LowerIdempotent(s: string)
    ensures Lower(Lower(s)) == Lower(s)
  {
    LowerOfLowerCase(Lower(s));
  }

  /** Lower-casing commutes with taking a slice. */
  lemma LowerSlice(s: string, i: int, j: int)
    requires 0 <= i <= j <= |s|
    ensures Lower(s)[i..j] == Lower(s[i..j])
  {
  }

  predicate IsPrefix(p: string, s: string) {
    |p| <= |s| && s[..|p|] == p
  }

  /** `sub in s`: `sub` starts at some position of `s`.  The empty string
      is in every string, as in Python. */
  predicate IsSubstring(sub: string, s: string): (r: bool)
    ensures r ==> |sub| <= |s|
    decreases |s|
  {
    IsPrefix(sub, s) || (|s| > 0 && IsSubstring(sub, s[1..]))
  }

  /** `sub` occurs in `s` starting at index `i`. */
  ghost predicate OccursAt(sub: string, s: string, i: int) {
    0 <= i && i + |sub| <= |s| && s[i..i + |sub|] == sub
  }

  /** The recursive search finds `sub` exactly when it occurs at some index. */
  lemma {:induction false} IsSubstringIff(sub: string, s: string)
    ensures IsSubstring(sub, s) <==> exists i :: OccursAt(sub, s, i)
    decreases |s|
  {
    if IsPrefix(sub, s) {
      assert OccursAt(sub, s, 0);
    } else if |s| > 0 {
      IsSubstringIff(sub, s[1..]);
      if IsSubstring(sub, s[1..]) {
        var j :| OccursAt(sub, s[1..], j);
        assert s[1..][j..j + |sub|] == s[j + 1..j + 1 + |sub|];
        assert OccursAt(sub, s, j + 1);
      }
      if i :| OccursAt(sub, s, i) {
        assert i != 0;
        assert s[1..][i - 1..i - 1 + |sub|] == s[i..i + |sub|];
        assert OccursAt(sub, s[1..], i - 1);
      }
    }
  }

  /** A string longer than `s` is not in `s`; in particular a non-empty
      string is not in the empty string. */
  lemma {:induction false} LongerIsNotSubstring(sub: string, s: string)
    requires |sub| > |s|
    ensures !IsSubstring(sub, s)
  {
    IsSubstringIff(sub, s);
  }

  /** A string holding a character that `s` lacks is not in `s`. */
  lemma {:induction false} MissingCharIsNotSubstring(sub: string, s: string, c: char)
    requires c in sub && c !in s
    ensures !IsSubstring(sub, s)
  {
    IsSubstringIff(sub, s);
  }

  /** A substring of a substring of `s` is a substring of `s`. */
  lemma {:induction false} IsSubstringTransitive(a: string, b: string, c: string)
    requires IsSubstring(a, b) && IsSubstring(b, c)
    ensures IsSubstring(a, c)
  {
    IsSubstringIff(a, b);
    IsSubstringIff(b, c);
    IsSubstringIff(a, c);
    var i :| OccursAt(a, b, i);
    var j :| OccursAt(b, c, j);
    forall k | 0 <= k < |a|
      ensures c[j + i..j + i + |a|][k] == a[k]
    {
      assert a[k] == b[i + k] == c[j + i + k];
    }
    assert OccursAt(a, c, j + i);
  }

  /** `s` is in every string that extends it on either side. */
  lemma {:induction false} IsSubstringOfConcat(s: string, u: string)
    ensures IsSubstring(s, s + u) && IsSubstring(s, u + s)
  {
    IsSubstringIff(s, s + u);
    IsSubstringIff(s, u + s);
    assert (s + u)[0..|s|] == s;
    assert OccursAt(s, s + u, 0);
    assert (u + s)[|u|..|u| + |s|] == s;
    assert OccursAt(s, u + s, |u|);
  }

  /** Lower-casing both strings keeps a substring a substring. */
  lemma {:induction false} LowerKeepsSubstring(sub: string, s: string)
    requires IsSubstring(sub, s)
    ensures IsSubstring(Lower(sub), Lower(s))
  {
    IsSubstringIff(sub, s);
    IsSubstringIff(Lower(sub), Lower(s));
    var i :| OccursAt(sub, s, i);
    LowerSlice(s, i, i + |sub|);
    assert OccursAt(Lower(sub), Lower(s), i);
  }
}
