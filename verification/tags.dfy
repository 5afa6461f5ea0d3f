/** Second pass of the cleaner: `re.sub(r'<.*?>', '', text)` without
    DOTALL, so `.` never matches a newline and a tag cannot span two lines. */
module Tags {

  /** The first index at or after `k` holding `>` or a newline, or `|s|`. */
  function FirstStop(s: string, k: nat): (j: nat)
    requires k <= |s|
    ensures k <= j <= |s|
    ensures j < |s| ==> s[j] == '>' || s[j] == '\n'
    ensures forall q :: k <= q < j ==> s[q] != '>' && s[q] != '\n'
    decreases |s| - k
  {
    if k == |s| || s[k] == '>' || s[k] == '\n' then k else FirstStop(s, k + 1)
  }

  /** `FirstStop` is pinned down by its contract. */
  lemma FirstStopIs(s: string, k: nat, j: nat)
    requires k <= j <= |s|
    requires forall q :: k <= q < j ==> s[q] != '>' && s[q] != '\n'
    requires j == |s| || s[j] == '>' || s[j] == '\n'
    ensures FirstStop(s, k) == j
  {
  }

  /** `s` starts with a `<` whose nearest `>` comes before any newline. */
  predicate ClosesOnLine(s: string) {
    |s| > 0 && s[0] == '<' && FirstStop(s, 1) < |s| && s[FirstStop(s, 1)] == '>'
  }

  /** Leftmost, shortest-match removal of tags that close on their own
      line: a `<` goes together with the nearest `>` after it unless a newline
      (or the end of the text) comes first, in which case the `<` stays and
      the scan moves on by one character. */
  function RemoveTags(s: string): (r: string)
    ensures |r| <= |s|
    decreases |s|
  {
    if |s| == 0 then []
    else if ClosesOnLine(s) then RemoveTags(s[FirstStop(s, 1) + 1..])
    else [s[0]] + RemoveTags(s[1..])
  }

  /** `s` has no `>` before its first newline. */
  predicate LineOpen(s: string)
    decreases |s|
  {
    |s| == 0 || s[0] == '\n' || (s[0] != '>' && LineOpen(s[1..]))
  }

  /** No `<` of `s` has a `>` after it on the same line. */
  predicate TagFree(s: string)
    decreases |s|
  {
    |s| == 0 || ((s[0] == '<' ==> LineOpen(s[1..])) && TagFree(s[1..]))
  }

  /** The same property stated over positions. */
  ghost predicate NoSameLineTag(s: string) {
    forall i, j :: 0 <= i < j < |s| && s[i] == '<' && s[j] == '>' ==>
      exists p :: i < p < j && s[p] == '\n'
  }

  lemma {:induction false} LineOpenStop(s: string, k: nat)
    requires k <= |s|
    ensures LineOpen(s[k..]) <==> (FirstStop(s, k) == |s| || s[FirstStop(s, k)] == '\n')
    decreases |s| - k
  {
    if k < |s| && s[k] != '\n' && s[k] != '>' {
      assert s[k..][1..] == s[k + 1..];
      LineOpenStop(s, k + 1);
    }
  }

  /** A `<` is removed as a tag exactly when the rest of its line holds a `>`. */
  lemma ClosesIff(s: string)
    requires |s| > 0
    ensures ClosesOnLine(s) <==> s[0] == '<' && !LineOpen(s[1..])
  {
    LineOpenStop(s, 1);
  }

  /** Every `<` of `s` meets a `>` or a newline inside `s`, so the scan
      settles each of them without looking past the end of `s`. */
  predicate StopsWithin(s: string)
    decreases |s|
  {
    |s| == 0 || ((s[0] == '<' ==> FirstStop(s, 1) < |s|) && StopsWithin(s[1..]))
  }

  lemma {:induction false} StopsWithinSuffix(s: string, m: nat)
    requires StopsWithin(s) && m <= |s|
    ensures StopsWithin(s[m..])
    decreases m
  {
    if m > 0 {
      StopsWithinSuffix(s[1..], m - 1);
      assert s[1..][m - 1..] == s[m..];
    }
  }

  /** Inside a settled text the scan for the end of a leading `<` stops
      before the end, at the same index whatever follows. */
  lemma FirstStopInPrefix(pre: string, t: string)
    requires StopsWithin(pre) && |pre| > 0 && pre[0] == '<'
    ensures FirstStop(pre, 1) < |pre|
    ensures FirstStop(pre + t, 1) == FirstStop(pre, 1)
  {
    var s := pre + t;
    var j := FirstStop(pre, 1);
    forall q | 1 <= q < j ensures s[q] != '>' && s[q] != '\n' {
      assert s[q] == pre[q];
    }
    assert s[j] == pre[j];
    FirstStopIs(s, 1, j);
  }

  /** The tag pass works piece by piece once every `<` of the first piece
      has met a `>` or a newline inside it. */
  lemma {:induction false} RemoveTagsConcat(pre: string, t: string)
    requires StopsWithin(pre)
    ensures RemoveTags(pre + t) == RemoveTags(pre) + RemoveTags(t)
    decreases |pre|
  {
    if |pre| == 0 {
      assert pre + t == t;
    } else if ClosesOnLine(pre) {
      var j := FirstStop(pre, 1);
      StopsWithinSuffix(pre, j + 1);
      RemoveTagsConcat(pre[j + 1..], t);
      ConcatStepTag(pre, t);
    } else {
      StopsWithinSuffix(pre, 1);
      RemoveTagsConcat(pre[1..], t);
      ConcatStepChar(pre, t);
    }
  }

  lemma ConcatStepTag(pre: string, t: string)
    requires StopsWithin(pre) && ClosesOnLine(pre)
    requires RemoveTags(pre[FirstStop(pre, 1) + 1..] + t)
             == RemoveTags(pre[FirstStop(pre, 1) + 1..]) + RemoveTags(t)
    ensures RemoveTags(pre + t) == RemoveTags(pre) + RemoveTags(t)
  {
    var s := pre + t;
    FirstStopInPrefix(pre, t);
    var j := FirstStop(pre, 1);
    assert s[j] == pre[j] && s[0] == pre[0];
    assert ClosesOnLine(s);
    assert s[j + 1..] == pre[j + 1..] + t;
  }

  lemma ConcatStepChar(pre: string, t: string)
    requires StopsWithin(pre) && |pre| > 0 && !ClosesOnLine(pre)
    requires RemoveTags(pre[1..] + t) == RemoveTags(pre[1..]) + RemoveTags(t)
    ensures RemoveTags(pre + t) == RemoveTags(pre) + RemoveTags(t)
  {
    var s := pre + t;
    if pre[0] == '<' {
      FirstStopInPrefix(pre, t);
      assert s[FirstStop(pre, 1)] == pre[FirstStop(pre, 1)];
    }
    assert s[0] == pre[0];
    assert !ClosesOnLine(s);
    assert s[1..] == pre[1..] + t;
  }

  /** A tag at the very start is removed with everything inside it. */
  lemma TagAtStartRemoved(mid: string, post: string)
    requires '>' !in mid && '\n' !in mid
    ensures RemoveTags("<" + mid + ">" + post) == RemoveTags(post)
  {
    var s := "<" + mid + ">" + post;
    forall q | 1 <= q < |mid| + 1 ensures s[q] != '>' && s[q] != '\n' {
      assert s[q] == mid[q - 1];
    }
    FirstStopIs(s, 1, |mid| + 1);
    assert s[|mid| + 2..] == post;
  }

  /** A `<` whose nearest `>` comes before any newline is removed with that
      `>` and everything between, wherever it stands: the text before it is
      cleaned on its own (every `<` there already settled) and the text after
      it is scanned afresh. */
  lemma TagRemoved(pre: string, mid: string, post: string)
    requires StopsWithin(pre)
    requires '>' !in mid && '\n' !in mid
    ensures RemoveTags(pre + ("<" + mid + ">" + post)) == RemoveTags(pre) + RemoveTags(post)
  {
    TagAtStartRemoved(mid, post);
    RemoveTagsConcat(pre, "<" + mid + ">" + post);
  }

  /** A line segment without `>` followed by a newline (or nothing) has no
      `>` on its line, and keeps the tag-freedom of what follows. */
  lemma {:induction false} SegmentTagFree(seg: string, r: string)
    requires '>' !in seg && '\n' !in seg
    requires r == [] || r[0] == '\n'
    ensures LineOpen(seg + r)
    ensures TagFree(r) ==> TagFree(seg + r)
    decreases |seg|
  {
    if |seg| == 0 {
      assert seg + r == r;
    } else {
      assert (seg + r)[1..] == seg[1..] + r;
      SegmentTagFree(seg[1..], r);
    }
  }

  lemma SegmentNotClosing(seg: string, rest: string)
    requires '>' !in seg && '\n' !in seg && |seg| > 0
    requires rest == [] || rest[0] == '\n'
    ensures !ClosesOnLine(seg + rest)
  {
    var s := seg + rest;
    assert s[1..] == seg[1..] + rest;
    SegmentTagFree(seg[1..], rest);
    ClosesIff(s);
  }

  /** A line segment without `>` that runs to a newline or to the end is kept
      verbatim, including any `<` in it: an unclosed tag is not an error. */
  lemma {:induction false} UnclosedLineKept(seg: string, rest: string)
    requires '>' !in seg && '\n' !in seg
    requires rest == [] || rest[0] == '\n'
    ensures RemoveTags(seg + rest) == seg + RemoveTags(rest)
    decreases |seg|
  {
    var s := seg + rest;
    if |seg| == 0 {
      assert s == rest;
    } else {
      SegmentNotClosing(seg, rest);
      assert s[1..] == seg[1..] + rest;
      assert RemoveTags(s) == [s[0]] + RemoveTags(seg[1..] + rest);
      UnclosedLineKept(seg[1..], rest);
      assert s[0] == seg[0];
      assert seg == [seg[0]] + seg[1..];
    }
  }

  /** The same anywhere in the text: after a settled prefix, a line segment
      without `>` (holding `<`s or not) survives verbatim up to its newline. */
  lemma UnclosedKeptInContext(pre: string, seg: string, rest: string)
    requires StopsWithin(pre)
    requires '>' !in seg && '\n' !in seg
    requires rest == [] || rest[0] == '\n'
    ensures RemoveTags(pre + (seg + rest)) == RemoveTags(pre) + (seg + RemoveTags(rest))
  {
    UnclosedLineKept(seg, rest);
    RemoveTagsConcat(pre, seg + rest);
  }

  /** The tag pass leaves no tag behind. */
  lemma {:induction false} RemoveTagsTagFree(s: string)
    ensures TagFree(RemoveTags(s))
    decreases |s|
  {
    if |s| == 0 {
    } else if ClosesOnLine(s) {
      RemoveTagsTagFree(s[FirstStop(s, 1) + 1..]);
    } else if s[0] == '<' {
      var j := FirstStop(s, 1);
      var seg, rest := s[1..j], s[j..];
      assert s[1..] == seg + rest;
      forall q | 0 <= q < |seg| ensures seg[q] != '>' && seg[q] != '\n' {
        assert seg[q] == s[q + 1];
      }
      UnclosedLineKept(seg, rest);
      RemoveTagsTagFree(rest);
      var r := RemoveTags(rest);
      if |rest| > 0 {
        assert r == ['\n'] + RemoveTags(rest[1..]);
      }
      SegmentTagFree(seg, r);
      assert RemoveTags(s) == ['<'] + (seg + r);
      assert (['<'] + (seg + r))[1..] == seg + r;
    } else {
      RemoveTagsTagFree(s[1..]);
      assert ([s[0]] + RemoveTags(s[1..]))[1..] == RemoveTags(s[1..]);
    }
  }

  /** A tag-free text passes through the tag pass unchanged. */
  lemma {:induction false} TagFreeUnchanged(s: string)
    requires TagFree(s)
    ensures RemoveTags(s) == s
    decreases |s|
  {
    if |s| > 0 {
      ClosesIff(s);
      TagFreeUnchanged(s[1..]);
      assert s == [s[0]] + s[1..];
    }
  }

  /** The tag pass changes a text exactly when some tag closes on its line,
      and running it twice is the same as running it once. */
  lemma RemoveTagsFixpoint(s: string)
    ensures RemoveTags(s) == s <==> TagFree(s)
    ensures RemoveTags(RemoveTags(s)) == RemoveTags(s)
  {
    RemoveTagsTagFree(s);
    if TagFree(s) {
      TagFreeUnchanged(s);
    }
    TagFreeUnchanged(RemoveTags(s));
  }

  /** A text without `<` is tag-free. */
  lemma {:induction false} NoOpenTagFree(s: string)
    requires '<' !in s
    ensures TagFree(s)
    decreases |s|
  {
    if |s| > 0 {
      assert forall q :: 0 <= q < |s[1..]| ==> s[1..][q] == s[q + 1];
      NoOpenTagFree(s[1..]);
    }
  }

  lemma {:induction false} LineOpenIff(s: string)
    ensures LineOpen(s) <==>
      forall j :: 0 <= j < |s| && s[j] == '>' ==> exists p :: 0 <= p < j && s[p] == '\n'
    decreases |s|
  {
    if |s| > 0 && s[0] != '\n' && s[0] != '>' {
      LineOpenIff(s[1..]);
      if LineOpen(s[1..]) {
        forall j | 0 <= j < |s| && s[j] == '>'
          ensures exists p :: 0 <= p < j && s[p] == '\n'
        {
          assert s[1..][j - 1] == '>';
          var p :| 0 <= p < j - 1 && s[1..][p] == '\n';
          assert s[p + 1] == '\n';
        }
      } else {
        var j :| 0 <= j < |s[1..]| && s[1..][j] == '>' &&
          !(exists p :: 0 <= p < j && s[1..][p] == '\n');
        assert s[j + 1] == '>';
        forall p | 0 <= p < j + 1 ensures s[p] != '\n' {
          if p > 0 {
            assert s[p] == s[1..][p - 1];
          }
        }
      }
    } else if |s| > 0 && s[0] == '\n' {
      forall j | 0 <= j < |s| && s[j] == '>'
        ensures exists p :: 0 <= p < j && s[p] == '\n'
      {
        assert s[0] == '\n';
      }
    }
  }

  lemma NoSameLineTagCons(c: char, r: string)
    ensures NoSameLineTag([c] + r) <==> NoSameLineTag(r) && (c == '<' ==> LineOpen(r))
  {
    var s := [c] + r;
    LineOpenIff(r);
    if NoSameLineTag(r) && (c == '<' ==> LineOpen(r)) {
      forall i, j | 0 <= i < j < |s| && s[i] == '<' && s[j] == '>'
        ensures exists p :: i < p < j && s[p] == '\n'
      {
        assert r[j - 1] == '>';
        if i > 0 {
          assert r[i - 1] == '<';
          var p :| i - 1 < p < j - 1 && r[p] == '\n';
          assert s[p + 1] == '\n';
        } else {
          var p :| 0 <= p < j - 1 && r[p] == '\n';
          assert s[p + 1] == '\n';
        }
      }
    }
    if NoSameLineTag(s) {
      forall i, j | 0 <= i < j < |r| && r[i] == '<' && r[j] == '>'
        ensures exists p :: i < p < j && r[p] == '\n'
      {
        assert s[i + 1] == '<' && s[j + 1] == '>';
        var p :| i + 1 < p < j + 1 && s[p] == '\n';
        assert r[p - 1] == '\n';
      }
      if c == '<' {
        forall j | 0 <= j < |r| && r[j] == '>'
          ensures exists p :: 0 <= p < j && r[p] == '\n'
        {
          assert s[0] == '<' && s[j + 1] == '>';
          var p :| 0 < p < j + 1 && s[p] == '\n';
          assert r[p - 1] == '\n';
        }
      }
    }
  }

  /** Tag-freedom means: between any `<` and a later `>` there is a newline. */
  lemma {:induction false} TagFreeMeaning(s: string)
    ensures TagFree(s) <==> NoSameLineTag(s)
    decreases |s|
  {
    if |s| > 0 {
      TagFreeMeaning(s[1..]);
      assert s == [s[0]] + s[1..];
      NoSameLineTagCons(s[0], s[1..]);
    }
  }

  /** Every slice of a tag-free text is tag-free. */
  lemma TagFreeSlice(e: string, a: nat, b: nat)
    requires a <= b <= |e| && TagFree(e)
    ensures TagFree(e[a..b])
  {
    TagFreeMeaning(e);
    var r := e[a..b];
    forall i, j | 0 <= i < j < |r| && r[i] == '<' && r[j] == '>'
      ensures exists p :: i < p < j && r[p] == '\n'
    {
      assert e[a + i] == '<' && e[a + j] == '>';
      var p :| a + i < p < a + j && e[p] == '\n';
      assert r[p - a] == '\n';
    }
    TagFreeMeaning(r);
  }
}
