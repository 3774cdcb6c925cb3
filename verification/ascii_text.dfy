/**
  The two string primitives the SIEM rules rely on, restricted to ASCII:
  lower-casing (Python `str.lower`) and substring membership (Python `p in s`).

  `Lower` and `Contains` are the executable definitions; `EqualIgnoringCase`
  and `Occurs` are independent reference definitions, and the lemmas below
  connect the two.
 */
module AsciiText {

  predicate IsUpper(c: char) { 'A' <= c <= 'Z' }

  predicate IsLower(c: char) { 'a' <= c <= 'z' }

  /** ASCII lower-casing of one character: `A`..`Z` move to `a`..`z`. */
  function ToLower(c: char): (d: char)
    ensures !IsUpper(d)
    ensures !IsUpper(c) ==> d == c
    ensures IsUpper(c) ==> IsLower(d) && d as int - 'a' as int == c as int - 'A' as int
  {
    if IsUpper(c) then (c as int + 32) as char else c
  }

  /** ASCII upper-casing of one character: `a`..`z` move to `A`..`Z`. */
  function ToUpper(c: char): (d: char)
    ensures !IsLower(d)
    ensures !IsLower(c) ==> d == c
    ensures IsLower(c) ==> IsUpper(d) && ToLower(d) == c
  {
    if IsLower(c) then (c as int - 32) as char else c
  }

  /** Python's `s.lower()`, restricted to ASCII letters. */
  function Lower(s: string): (r: string)
    ensures |r| == |s|
    ensures forall i :: 0 <= i < |s| ==> r[i] == ToLower(s[i])
  {
    seq(|s|, i requires 0 <= i < |s| => ToLower(s[i]))
  }

  /** Python's `s.upper()`, restricted to ASCII letters. */
  function Upper(s: string): (r: string)
    ensures |r| == |s|
    ensures forall i :: 0 <= i < |s| ==> r[i] == ToUpper(s[i])
  {
    seq(|s|, i requires 0 <= i < |s| => ToUpper(s[i]))
  }

  /** Reference definition: the two strings agree letter by letter up to case. */
  ghost predicate EqualIgnoringCase(a: string, b: string)
  {
    |a| == |b| && forall i :: 0 <= i < |a| ==> ToLower(a[i]) == ToLower(b[i])
  }

  /** Lower-casing identifies exactly the strings that differ only in case. */
  lemma LowerEqualIff(a: string, b: string)
    ensures Lower(a) == Lower(b) <==> EqualIgnoringCase(a, b)
  {
    if EqualIgnoringCase(a, b) {
      assert forall i :: 0 <= i < |a| ==> Lower(a)[i] == Lower(b)[i];
    }
  }

  /** Upper-casing first does not change what lower-casing yields. */
  lemma LowerOfUpper(s: string)
    ensures Lower(Upper(s)) == Lower(s)
  {
    assert forall i :: 0 <= i < |s| ==> Lower(Upper(s))[i] == Lower(s)[i];
  }

  /** Case mapping leaves every non-letter where it was, so it finds and
      keeps the same occurrences of a separator such as `.`. */
  lemma CaseKeepsNonLetters(s: string, c: char)
    requires !IsUpper(c) && !IsLower(c)
    ensures forall i :: 0 <= i < |s| ==> (Lower(s)[i] == c <==> s[i] == c)
    ensures forall i :: 0 <= i < |s| ==> (Upper(s)[i] == c <==> s[i] == c)
  {
  }

  /** Reference definition: `p` occurs in `s` at index `i` up to case. */
  ghost predicate OccursIgnoringCaseAt(p: string, s: string, i: int)
  {
    0 <= i && i + |p| <= |s| && EqualIgnoringCase(s[i..i + |p|], p)
  }

  /** Reference definition: `p` occurs in `s` starting at index `i`. */
  ghost predicate OccursAt(p: string, s: string, i: int)
  {
    0 <= i && i + |p| <= |s| && s[i..i + |p|] == p
  }

  /** Reference definition of substring membership. */
  ghost predicate Occurs(p: string, s: string)
  {
    exists i :: OccursAt(p, s, i)
  }

  /** An occurrence is either at the front or somewhere in the tail. */
  lemma OccursStep(p: string, s: string)
    requires |p| <= |s|
    ensures Occurs(p, s) <==> (s[..|p|] == p || (|s| > 0 && Occurs(p, s[1..])))
  {
    if Occurs(p, s) {
      var i :| OccursAt(p, s, i);
      if i > 0 {
        assert s[1..][i - 1..i - 1 + |p|] == s[i..i + |p|];
        assert OccursAt(p, s[1..], i - 1);
      }
    }
    if |s| > 0 && Occurs(p, s[1..]) {
      var j :| OccursAt(p, s[1..], j);
      assert s[j + 1..j + 1 + |p|] == s[1..][j..j + |p|];
      assert OccursAt(p, s, j + 1);
    }
    if s[..|p|] == p {
      assert OccursAt(p, s, 0);
    }
  }

  /** Python's `p in s` for strings: true exactly when `p` occurs in `s`. */
  function Contains(s: string, p: string): (b: bool)
    ensures b <==> Occurs(p, s)
    decreases |s|
  {
    if |p| > |s| then
      assert forall i :: !OccursAt(p, s, i);
      false
    else
      OccursStep(p, s);
      if s[..|p|] == p then true
      else if |s| == 0 then false
      else Contains(s[1..], p)
  }

  /** Searching the lower-cased text for a lower-cased pattern finds exactly
      the occurrences of the pattern up to case. */
  lemma OccursLowerIff(p: string, s: string, i: int)
    ensures OccursAt(Lower(p), Lower(s), i) <==> OccursIgnoringCaseAt(p, s, i)
  {
    if 0 <= i && i + |p| <= |s| {
      assert Lower(s)[i..i + |p|] == Lower(s[i..i + |p|]);
      LowerEqualIff(s[i..i + |p|], p);
    }
  }

}
