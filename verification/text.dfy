/** Substring search, character counting and whitespace trimming on strings,
    the string primitives the catalog code relies on (`in`, `str.contains`
    on a literal token, `str.strip()`). */
module Text {

  import opened Options

  /** `pat` occurs in `s` starting at index `i`. */
  predicate At(s: string, pat: string, i: int) {
    0 <= i <= |s| && pat <= s[i..]
  }

  /** Python's `pat in s`: `pat` occurs somewhere in `s` (the empty string
      occurs everywhere). */
  predicate Contains(s: string, pat: string)
    ensures Contains(s, pat) ==> |pat| <= |s|
    decreases |s|
  {
    pat <= s || (|s| > 0 && Contains(s[1..], pat))
  }

  /** Substring containment agrees with the existence of an occurrence index. */
  lemma {:induction false} ContainsIffOccurrence(s: string, pat: string)
    ensures Contains(s, pat) <==> exists i :: At(s, pat, i)
    decreases |s|
  {
    if pat <= s {
      assert At(s, pat, 0);
    } else if |s| == 0 {
      forall i | At(s, pat, i) ensures false {
      }
    } else {
      ContainsIffOccurrence(s[1..], pat);
      if Contains(s[1..], pat) {
        var i :| At(s[1..], pat, i);
        assert s[1..][i..] == s[i + 1..];
        assert At(s, pat, i + 1);
      } else {
        forall i | At(s, pat, i) ensures false {
          assert i != 0;
          assert s[1..][i - 1..] == s[i..];
          assert At(s[1..], pat, i - 1);
        }
      }
    }
  }

  /** A pattern longer than the text does not occur in it. */
  lemma {:induction false} TooShortNotContained(s: string, pat: string)
    requires |pat| > |s|
    ensures !Contains(s, pat)
    decreases |s|
  {
    if |s| > 0 {
      TooShortNotContained(s[1..], pat);
    }
  }

  /** A text that does not begin with the pattern's first character contains
      the pattern iff its tail does. */
  lemma ContainsSkip(s: string, pat: string)
    requires |s| > 0 && |pat| > 0 && s[0] != pat[0]
    ensures Contains(s, pat) == Contains(s[1..], pat)
  {
  }

  /** Containment is transitive: an occurrence of `mid` in `s` holds every
      occurrence of `pat` in `mid`. */
  lemma {:induction false} ContainsTrans(s: string, mid: string, pat: string)
    requires Contains(s, mid) && Contains(mid, pat)
    ensures Contains(s, pat)
  {
    ContainsIffOccurrence(s, mid);
    ContainsIffOccurrence(mid, pat);
    var i :| At(s, mid, i);
    var j :| At(mid, pat, j);
    assert s[i + j..][..|pat|] == mid[j..][..|pat|];
    assert At(s, pat, i + j);
    ContainsIffOccurrence(s, pat);
  }

  /** The first occurrence of `pat` in `s` at an index no smaller than `k`. */
  function FindFrom(s: string, pat: string, k: nat): (r: Option<nat>)
    ensures r.Some? ==> k <= r.value && At(s, pat, r.value)
    ensures r.Some? ==> forall q :: k <= q < r.value ==> !At(s, pat, q)
    ensures r.None? ==> forall q :: k <= q ==> !At(s, pat, q)
    decreases |s| - k
  {
    if k > |s| then None
    else if pat <= s[k..] then Some(k)
    else FindFrom(s, pat, k + 1)
  }

  /** Number of occurrences of character `c` in `s`. */
  function Count(s: string, c: char): (n: nat)
    decreases |s|
  {
    if |s| == 0 then 0
    else (if s[0] == c then 1 else 0) + Count(s[1..], c)
  }

  lemma {:induction false} CountConcat(a: string, b: string, c: char)
    ensures Count(a + b, c) == Count(a, c) + Count(b, c)
    decreases |a|
  {
    if |a| == 0 {
      assert a + b == b;
    } else {
      assert (a + b)[1..] == a[1..] + b;
      CountConcat(a[1..], b, c);
    }
  }

  /** A string has no occurrence of `c` exactly when its count of `c` is zero. */
  lemma {:induction false} CountZeroIffAbsent(s: string, c: char)
    ensures Count(s, c) == 0 <==> c !in s
    decreases |s|
  {
    if |s| > 0 {
      CountZeroIffAbsent(s[1..], c);
      assert s == [s[0]] + s[1..];
    }
  }

  /** The characters Python's `str.isspace()` accepts, hence the ones
      `str.strip()` removes: the ASCII controls TAB..CR and FS..US, SPACE,
      NEL, NO-BREAK SPACE and the Unicode space and line/paragraph separators. */
  predicate IsSpace(c: char) {
    || c == '\t' || c == '\n' || c == '\U{000B}' || c == '\U{000C}' || c == '\r'
    || ('\U{001C}' <= c <= '\U{001F}')
    || c == ' ' || c == '\U{0085}' || c == '\U{00A0}' || c == '\U{1680}'
    || ('\U{2000}' <= c <= '\U{200A}')
    || c == '\U{2028}' || c == '\U{2029}' || c == '\U{202F}' || c == '\U{205F}'
    || c == '\U{3000}'
  }

  predicate AllSpace(s: string) {
    forall i :: 0 <= i < |s| ==> IsSpace(s[i])
  }

  /** Neither end of `s` is whitespace. */
  predicate Trimmed(s: string) {
    |s| == 0 || (!IsSpace(s[0]) && !IsSpace(s[|s| - 1]))
  }

  /** Python's `s.strip()`: the result is the slice of `s` left after cutting
      whitespace off both ends, and it begins and ends with a non-space. */
  function Strip(s: string): (r: string)
    ensures Trimmed(r)
    ensures exists a, b :: 0 <= a <= b <= |s| && r == s[a..b] && AllSpace(s[..a]) && AllSpace(s[b..])
  {
    var a := LeadingSpaces(s, 0);
    var b := TrailingEnd(s, a);
    assert Trimmed(s[a..b]);
    s[a..b]
  }

  /** The first index at or after `k` that holds a non-space (or `|s|`). */
  function LeadingSpaces(s: string, k: nat): (a: nat)
    requires k <= |s|
    requires AllSpace(s[..k])
    ensures k <= a <= |s| && AllSpace(s[..a])
    ensures a < |s| ==> !IsSpace(s[a])
    decreases |s| - k
  {
    if k < |s| && IsSpace(s[k]) then
      assert s[..k + 1] == s[..k] + [s[k]];
      LeadingSpaces(s, k + 1)
    else k
  }

  /** The end of `s` once trailing spaces are cut, never below `a`. */
  function TrailingEnd(s: string, a: nat): (b: nat)
    requires a <= |s|
    requires a < |s| ==> !IsSpace(s[a])
    ensures a <= b <= |s| && AllSpace(s[b..])
    ensures a < b ==> !IsSpace(s[b - 1])
    ensures a == b ==> a == |s|
    decreases |s|
  {
    if a < |s| && IsSpace(s[|s| - 1]) then
      var b := TrailingEnd(s[..|s| - 1], a);
      assert s[b..] == s[..|s| - 1][b..] + [s[|s| - 1]];
      b
    else |s|
  }

  /** Cutting whitespace never removes a non-space character, so `Strip`
      keeps the count of every non-space character. */
  lemma StripKeepsCount(s: string, c: char)
    requires !IsSpace(c)
    ensures Count(Strip(s), c) == Count(s, c)
  {
    var a, b :| 0 <= a <= b <= |s| && Strip(s) == s[a..b] && AllSpace(s[..a]) && AllSpace(s[b..]);
    assert s == s[..a] + s[a..b] + s[b..];
    CountConcat(s[..a] + s[a..b], s[b..], c);
    CountConcat(s[..a], s[a..b], c);
    AllSpaceCountZero(s[..a], c);
    AllSpaceCountZero(s[b..], c);
  }

  lemma {:induction false} AllSpaceCountZero(s: string, c: char)
    requires AllSpace(s) && !IsSpace(c)
    ensures Count(s, c) == 0
    decreases |s|
  {
    if |s| > 0 {
      AllSpaceCountZero(s[1..], c);
    }
  }

  /** A string that already begins and ends with a non-space is left alone. */
  lemma StripTrimmed(s: string)
    requires Trimmed(s)
    ensures Strip(s) == s
  {
  }

  lemma AtTail(s: string, pat: string, i: nat)
    requires |s| > 0
    ensures At(s[1..], pat, i) <==> At(s, pat, i + 1)
  {
    if i + 1 <= |s| {
      assert s[1..][i..] == s[i + 1..];
    }
  }

  lemma NotAtOnFirstChar(s: string, pat: string, i: int)
    requires |pat| > 0 && 0 <= i < |s| && s[i] != pat[0]
    ensures !At(s, pat, i)
  {
  }

  lemma AllSpaceAt(s: string, i: int)
    requires AllSpace(s) && 0 <= i < |s|
    ensures IsSpace(s[i])
  {
  }
}
