/** Python's string primitives used by redhat.py: whitespace and str.strip(). */
module Text {

  /** The characters str.strip() and the regex class \s treat as whitespace. */
  predicate IsSpace(c: char)
  {
    c == ' ' || c == '\t' || c == '\n' || c == '\r' || c == '\U{0B}' || c == '\U{0C}'
  }

  predicate AllSpace(s: string)
  {
    forall i :: 0 <= i < |s| ==> IsSpace(s[i])
  }

  predicate NoSpace(s: string)
  {
    forall i :: 0 <= i < |s| ==> !IsSpace(s[i])
  }

  predicate EndsWith(s: string, suffix: string)
  {
    |suffix| <= |s| && s[|s| - |suffix|..] == suffix
  }

  /** The index of the first non-whitespace character of `s` at or after `i`, or |s|. */
  function SkipSpace(s: string, i: nat): (k: nat)
    requires i <= |s|
    ensures i <= k <= |s|
    ensures forall m :: i <= m < k ==> IsSpace(s[m])
    ensures k < |s| ==> !IsSpace(s[k])
    decreases |s| - i
  {
    if i < |s| && IsSpace(s[i]) then SkipSpace(s, i + 1) else i
  }

  /** The end of `s[lo..j]` once its trailing whitespace is dropped. */
  function SkipSpaceBack(s: string, lo: nat, j: nat): (k: nat)
    requires lo <= j <= |s|
    ensures lo <= k <= j
    ensures forall m :: k <= m < j ==> IsSpace(s[m])
    ensures k > lo ==> !IsSpace(s[k - 1])
    decreases j
  {
    if j > lo && IsSpace(s[j - 1]) then SkipSpaceBack(s, lo, j - 1) else j
  }

  /** The bounds of the slice str.strip() keeps. */
  function StripRange(s: string): (b: (nat, nat))
    ensures b.0 <= b.1 <= |s|
    ensures forall m :: 0 <= m < b.0 ==> IsSpace(s[m])
    ensures forall m :: b.1 <= m < |s| ==> IsSpace(s[m])
    ensures b.0 < b.1 ==> !IsSpace(s[b.0]) && !IsSpace(s[b.1 - 1])
  {
    var i := SkipSpace(s, 0);
    (i, SkipSpaceBack(s, i, |s|))
  }

  /** str.strip(): the slice of `s` left once whitespace is dropped at both ends. */
  function Strip(s: string): (r: string)
    ensures r == s[StripRange(s).0..StripRange(s).1]
    ensures r == [] <==> AllSpace(s)
    ensures r != [] ==> !IsSpace(r[0]) && !IsSpace(r[|r| - 1])
  {
    var b := StripRange(s);
    if b.0 == b.1 then
      assert AllSpace(s);
      []
    else
      assert !IsSpace(s[b.0]);
      s[b.0..b.1]
  }

  /** str.strip() removes exactly the surrounding whitespace: padding a word with blanks is undone. */
  lemma StripPadded(pre: string, s: string, post: string)
    requires s != [] && !IsSpace(s[0]) && !IsSpace(s[|s| - 1])
    requires AllSpace(pre) && AllSpace(post)
    ensures Strip(pre + s + post) == s
  {
    var t := pre + s + post;
    assert t[|pre|] == s[0] && t[|pre| + |s| - 1] == s[|s| - 1];
    var b := StripRange(t);
    assert forall m :: 0 <= m < |pre| ==> t[m] == pre[m];
    assert forall m :: |pre| + |s| <= m < |t| ==> t[m] == post[m - |pre| - |s|];
    assert b.0 == |pre|;
    assert b.1 == |pre| + |s|;
    assert t[b.0..b.1] == s;
  }
}
