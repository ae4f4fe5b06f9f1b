/** The java.lang.String operations the pages rely on. */
module Text {
  import opened Wrappers

  /** String.trim removes every leading and trailing character whose code is at most U+0020. */
  predicate IsTrimmed(c: char)
  {
    c <= ' '
  }

  /** A string that trims to nothing. */
  predicate Blank(s: string)
  {
    forall i :: 0 <= i < |s| ==> IsTrimmed(s[i])
  }

  function TrimStart(s: string): (t: string)
    ensures |t| <= |s| && t == s[|s| - |t|..]
    ensures forall i :: 0 <= i < |s| - |t| ==> IsTrimmed(s[i])
    ensures t != [] ==> !IsTrimmed(t[0])
  {
    if s != [] && IsTrimmed(s[0]) then TrimStart(s[1..]) else s
  }

  function TrimEnd(s: string): (t: string)
    ensures |t| <= |s| && t == s[..|t|]
    ensures forall i :: |t| <= i < |s| ==> IsTrimmed(s[i])
    ensures t != [] ==> !IsTrimmed(t[|t| - 1])
  {
    if s != [] && IsTrimmed(s[|s| - 1]) then TrimEnd(s[..|s| - 1]) else s
  }

  /** t is s[lo..lo + |t|] and everything of s around it is trimmable. */
  ghost predicate TrimmedSlice(s: string, lo: int, t: string)
  {
    && 0 <= lo <= lo + |t| <= |s|
    && t == s[lo..lo + |t|]
    && (forall i :: 0 <= i < lo ==> IsTrimmed(s[i]))
    && (forall i :: lo + |t| <= i < |s| ==> IsTrimmed(s[i]))
  }

  /** String.trim: the slice of s left after dropping the trimmable characters at both ends. */
  function Trim(s: string): (t: string)
    ensures exists lo :: TrimmedSlice(s, lo, t)
    ensures t != [] ==> !IsTrimmed(t[0]) && !IsTrimmed(t[|t| - 1])
    ensures t == [] <==> Blank(s)
  {
    var front := TrimStart(s);
    var t := TrimEnd(front);
    TrimmedIsSlice(s, front, t);
    t
  }

  /** Trimming the end of what is left after trimming the start leaves a slice of s with only
      trimmable characters around it, non-trimmable ends, and nothing exactly for a blank s. */
  lemma TrimmedIsSlice(s: string, front: string, t: string)
    requires |front| <= |s| && front == s[|s| - |front|..]
    requires forall i :: 0 <= i < |s| - |front| ==> IsTrimmed(s[i])
    requires front != [] ==> !IsTrimmed(front[0])
    requires |t| <= |front| && t == front[..|t|]
    requires forall i :: |t| <= i < |front| ==> IsTrimmed(front[i])
    requires t != [] ==> !IsTrimmed(t[|t| - 1])
    ensures TrimmedSlice(s, |s| - |front|, t)
    ensures t != [] ==> !IsTrimmed(t[0])
    ensures t == [] <==> Blank(s)
  {
    var lo := |s| - |front|;
    assert forall i :: lo <= i < |s| ==> s[i] == front[i - lo];
    assert t == s[lo..lo + |t|];
    if t != [] {
      assert t[0] == s[lo];
    }
  }

  /** StringUtils.isEmpty: a null reference or a string that trims to nothing. */
  predicate IsEmpty(s: Option<string>): (empty: bool)
    ensures s.None? ==> empty
    ensures s.Some? ==> (empty <==> Blank(s.value))
  {
    s.None? || |Trim(s.value)| == 0
  }

  /** Case folding used by equalsIgnoreCase, restricted to ASCII letters. */
  function FoldCase(c: char): (d: char)
    ensures 'A' <= c <= 'Z' ==> 'a' <= d <= 'z'
    ensures !('A' <= c <= 'Z') ==> d == c
  {
    if 'A' <= c <= 'Z' then (c as int + 32) as char else c
  }

  /** Two characters that are equal, or the upper- and lower-case forms of one ASCII letter. */
  predicate CaseVariants(c: char, d: char)
  {
    || c == d
    || ('A' <= c <= 'Z' && d as int == c as int + 32)
    || ('A' <= d <= 'Z' && c as int == d as int + 32)
  }

  /** Two characters fold alike exactly when they are case variants of each other. */
  lemma FoldAlike()
    ensures forall c, d :: FoldCase(c) == FoldCase(d) <==> CaseVariants(c, d)
  {
    forall c, d
      ensures FoldCase(c) == FoldCase(d) <==> CaseVariants(c, d)
    {
      if 'A' <= d <= 'Z' && !('A' <= c <= 'Z') {
        assert FoldCase(d) as int == d as int + 32;
      }
    }
  }

  /** String.equalsIgnoreCase: same length and pairwise equal characters after case folding. */
  predicate EqualsIgnoreCase(a: string, b: string): (equal: bool)
    ensures equal <==> |a| == |b| && forall i :: 0 <= i < |a| ==> CaseVariants(a[i], b[i])
  {
    FoldAlike();
    |a| == |b| && forall i :: 0 <= i < |a| ==> FoldCase(a[i]) == FoldCase(b[i])
  }

  /** String.indexOf(char): the position of the first occurrence of c, or -1 when there is none. */
  function IndexOf(s: string, c: char): (k: int)
    ensures -1 <= k < |s|
    ensures k == -1 <==> c !in s
    ensures k >= 0 ==> s[k] == c && c !in s[..k]
  {
    if s == [] then -1
    else if s[0] == c then 0
    else
      var k := IndexOf(s[1..], c);
      if k == -1 then -1 else k + 1
  }
}
