/**
 * String helpers the annotator relies on: Python's `str.strip()` with no
 * argument and the substring test `pat in text`.
 */
module Text {

  /** Whitespace as `str.isspace` sees it, restricted to the ASCII range. */
  predicate IsSpace(c: char)
  {
    c == ' ' || c == '\t' || c == '\n' || c == '\r' || c == '\U{0B}' || c == '\U{0C}'
    || ('\U{1C}' <= c <= '\U{1F}')
  }

  /** `s.lstrip()`: drops the leading whitespace run, keeps everything after it. */
  function LStrip(s: string): (r: string)
    ensures |r| <= |s| && r == s[|s| - |r|..]
    ensures forall k :: 0 <= k < |s| - |r| ==> IsSpace(s[k])
    ensures r != [] ==> !IsSpace(r[0])
    decreases |s|
  {
    if s != [] && IsSpace(s[0]) then LStrip(s[1..]) else s
  }

  /** `s.rstrip()`: drops the trailing whitespace run, keeps everything before it. */
  function RStrip(s: string): (r: string)
    ensures |r| <= |s| && r == s[..|r|]
    ensures forall k :: |r| <= k < |s| ==> IsSpace(s[k])
    ensures r != [] ==> !IsSpace(r[|r| - 1])
    decreases |s|
  {
    if s != [] && IsSpace(s[|s| - 1]) then RStrip(s[..|s| - 1]) else s
  }

  /**
   * `s.strip()`: the result is the slice of `s` left after removing the
   * leading and the trailing whitespace; it neither begins nor ends with
   * whitespace and its interior is `s`'s own characters, unchanged.
   */
  function Strip(s: string): (r: string)
    ensures r != [] ==> !IsSpace(r[0]) && !IsSpace(r[|r| - 1])
    ensures exists i, j :: 0 <= i <= j <= |s| && r == s[i..j]
                           && (forall k :: 0 <= k < i ==> IsSpace(s[k]))
                           && (forall k :: j <= k < |s| ==> IsSpace(s[k]))
  {
    var l := LStrip(s);
    var r := RStrip(l);
    TrimmedSlice(s, l, r, |s| - |l|);
    r
  }

  /**
   * A prefix `r` of the suffix `l == s[i..]` is a slice of `s`; when what
   * precedes `l` and what follows `r` inside `l` is whitespace, everything
   * outside that slice is whitespace.
   */
  lemma {:induction false} TrimmedSlice(s: string, l: string, r: string, i: nat)
    requires i <= |s| && l == s[i..] && |r| <= |l| && r == l[..|r|]
    requires forall k :: 0 <= k < i ==> IsSpace(s[k])
    requires forall k :: |r| <= k < |l| ==> IsSpace(l[k])
    ensures exists i, j :: 0 <= i <= j <= |s| && r == s[i..j]
                           && (forall k :: 0 <= k < i ==> IsSpace(s[k]))
                           && (forall k :: j <= k < |s| ==> IsSpace(s[k]))
  {
    var j := i + |r|;
    assert r == s[i..j];
    forall k | j <= k < |s|
      ensures IsSpace(s[k])
    {
      assert s[k] == l[k - i];
    }
  }

  /** A string with no whitespace at either end is left as it is. */
  lemma {:induction false} StripKeepsTrimmed(s: string)
    requires s != [] ==> !IsSpace(s[0]) && !IsSpace(s[|s| - 1])
    ensures Strip(s) == s
  {
    assert LStrip(s) == s;
    assert RStrip(s) == s;
  }

  /** Stripping twice is stripping once. */
  lemma StripIdempotent(s: string)
    ensures Strip(Strip(s)) == Strip(s)
  {
    StripKeepsTrimmed(Strip(s));
  }

  /** `pat` occurs in `text` starting at position `i`. */
  predicate OccursAt(text: string, pat: string, i: nat)
  {
    i + |pat| <= |text| && text[i..i + |pat|] == pat
  }

  /** Python's `pat in text`: a case-sensitive substring test. */
  function Contains(text: string, pat: string): (r: bool)
    ensures r <==> exists i: nat :: OccursAt(text, pat, i)
    decreases |text|
  {
    if |text| < |pat| then
      false
    else if text[..|pat|] == pat then
      assert OccursAt(text, pat, 0);
      true
    else
      var rest := Contains(text[1..], pat);
      assert forall i: nat :: OccursAt(text[1..], pat, i) ==> OccursAt(text, pat, i + 1) by {
        forall i: nat | OccursAt(text[1..], pat, i) ensures OccursAt(text, pat, i + 1) {
          assert text[i + 1..i + 1 + |pat|] == text[1..][i..i + |pat|];
        }
      }
      assert forall i: nat :: OccursAt(text, pat, i) ==> i >= 1 && OccursAt(text[1..], pat, i - 1) by {
        forall i: nat | OccursAt(text, pat, i) ensures i >= 1 && OccursAt(text[1..], pat, i - 1) {
          assert text[1..][i - 1..i - 1 + |pat|] == text[i..i + |pat|];
        }
      }
      rest
  }

  /** Whatever sits between `prefix` and `suffix` is a substring of the whole. */
  lemma InfixIsContained(prefix: string, pat: string, suffix: string)
    ensures Contains(prefix + pat + suffix, pat)
  {
    var s := prefix + pat + suffix;
    assert s[|prefix|..|prefix| + |pat|] == pat;
    assert OccursAt(s, pat, |prefix|);
  }
}
