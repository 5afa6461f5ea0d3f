/** `advanced_clean`, the text cleaner applied to the efficacy, usage and
    precaution columns: it drops the regulator's deleted-content spans
    (`<del>…</del>`, then `<s>…</s>`), drops every other tag that closes on
    its line, escapes `~` as `\~` for the Markdown renderer, and strips
    surrounding whitespace. */
module Cleaner {

  import opened Options
  import opened Text
  import opened Spans
  import opened Tags
  import opened Tilde

  const DelOpen: string := "<del>"
  const DelClose: string := "</del>"
  const StrikeOpen: string := "<s>"
  const StrikeClose: string := "</s>"

  /** The two span passes and the tag pass: everything before escaping. */
  function StripMarkup(t: string): (r: string) {
    RemoveTags(RemoveSpans(RemoveSpans(t, DelOpen, DelClose), StrikeOpen, StrikeClose))
  }

  /** `advanced_clean`: a missing value becomes the empty string; otherwise
      the markup passes, the tilde escape and `strip()` run in that order.
      The result has no surrounding whitespace, no unescaped `~`, no tag
      closing on its line, and exactly as many `~` as survived markup
      removal. It never fails. */
  function Clean(text: Option<string>): (r: string)
    ensures text.None? ==> r == ""
    ensures Trimmed(r)
    ensures TildesEscaped(r)
    ensures TagFree(r)
    ensures text.Some? ==> Count(r, '~') == Count(StripMarkup(text.value), '~')
  {
    match text
    case None => ""
    case Some(t) =>
      var m := StripMarkup(t);
      var e := Escape(m);
      RemoveTagsTagFree(RemoveSpans(RemoveSpans(t, DelOpen, DelClose), StrikeOpen, StrikeClose));
      EscapeKeepsTagFree(m);
      StripKeepsCount(e, '~');
      StripKeepsTildes(e);
      StripKeepsTagFree(e);
      Strip(e)
  }

  /** The backslash in front of a `~` is not whitespace, so trimming never
      separates the two. */
  lemma StripKeepsTildes(e: string)
    requires TildesEscaped(e)
    ensures TildesEscaped(Strip(e))
  {
    var r := Strip(e);
    var a, b :| 0 <= a <= b <= |e| && r == e[a..b] && AllSpace(e[..a]) && AllSpace(e[b..]);
    forall k | 0 <= k < |r| && r[k] == '~' ensures 0 < k && r[k - 1] == '\\' {
      assert e[a + k] == '~';
      if k == 0 {
        AllSpaceAt(e[..a], a - 1);
      }
    }
  }

  lemma StripKeepsTagFree(e: string)
    requires TagFree(e)
    ensures TagFree(Strip(e))
  {
    var a, b :| 0 <= a <= b <= |e| && Strip(e) == e[a..b] && AllSpace(e[..a]) && AllSpace(e[b..]);
    TagFreeSlice(e, a, b);
  }

  /** A tag-free text holds no `<del>` or `<s>` opening tag, hence no span. */
  lemma TagFreeHasNoSpan(s: string, open: string, close: string)
    requires TagFree(s)
    requires |open| > 1 && open[0] == '<' && open[|open| - 1] == '>'
    requires forall q :: 0 <= q < |open| ==> open[q] != '\n'
    ensures !HasCompleteSpan(s, open, close)
  {
    TagFreeMeaning(s);
  }

  /** Markup removal does nothing to an already cleaned text. */
  lemma CleanedHasNoMarkup(c: string)
    requires TagFree(c)
    ensures StripMarkup(c) == c
  {
    TagFreeHasNoSpan(c, DelOpen, DelClose);
    NoSpanUnchanged(c, DelOpen, DelClose);
    TagFreeHasNoSpan(c, StrikeOpen, StrikeClose);
    NoSpanUnchanged(c, StrikeOpen, StrikeClose);
    TagFreeUnchanged(c);
  }

  /** Cleaning is idempotent exactly on the texts whose cleaned form has no
      `~`: any other text gains one backslash per `~` on a second pass. */
  lemma CleanIdempotentIff(x: Option<string>)
    ensures Clean(Some(Clean(x))) == Escape(Clean(x))
    ensures Clean(Some(Clean(x))) == Clean(x) <==> '~' !in Clean(x)
  {
    var c := Clean(x);
    CleanedHasNoMarkup(c);
    var e := Escape(c);
    if |c| > 0 {
      EscapeEnds(c);
    }
    StripTrimmed(e);
    assert Clean(Some(c)) == e;
    EscapeIdentity(c);
  }

  /** Text without `<` carries no markup to remove. */
  lemma NoOpenNoMarkup(t: string)
    requires '<' !in t
    ensures StripMarkup(t) == t
  {
    NoOpenNoSpan(t, DelOpen, DelClose);
    NoSpanUnchanged(t, DelOpen, DelClose);
    NoOpenNoSpan(t, StrikeOpen, StrikeClose);
    NoSpanUnchanged(t, StrikeOpen, StrikeClose);
    NoOpenTagFree(t);
    TagFreeUnchanged(t);
  }

  /** Text without any `<` or `~` is only trimmed. */
  lemma PlainTextOnlyTrimmed(t: string)
    requires '<' !in t && '~' !in t
    ensures Clean(Some(t)) == Strip(t)
  {
    NoOpenNoMarkup(t);
    EscapeIdentity(t);
  }

  lemma CleanPipeline(t: string)
    ensures Clean(Some(t)) == Strip(Escape(StripMarkup(t)))
  {
  }

  lemma ExampleMarkup(t: string)
    requires t == "1~2정씩 <del>과거정보</del>복용"
    ensures StripMarkup(t) == "1~2정씩 복용"
  {
    ExampleDeleted(t);
    var d := "1~2정씩 복용";
    NoOpenNoSpan(d, StrikeOpen, StrikeClose);
    NoSpanUnchanged(d, StrikeOpen, StrikeClose);
    NoOpenTagFree(d);
    TagFreeUnchanged(d);
  }

  lemma ExampleDeleted(t: string)
    requires t == "1~2정씩 <del>과거정보</del>복용"
    ensures RemoveSpans(t, DelOpen, DelClose) == "1~2정씩 복용"
  {
    var pre, mid, post := "1~2정씩 ", "과거정보", "복용";
    assert t == pre + DelOpen + mid + DelClose + post;
    forall i | 0 <= i < |pre| ensures !At(pre + DelOpen, DelOpen, i) {
      NotAtOnFirstChar(pre + DelOpen, DelOpen, i);
    }
    forall q | |DelOpen| <= q < |DelOpen| + |mid| ensures !At(DelOpen + mid + DelClose, DelClose, q) {
      NotAtOnFirstChar(DelOpen + mid + DelClose, DelClose, q);
    }
    DeleteSpanRemoved(pre, mid, post, DelOpen, DelClose);
    NoOpenNoSpan(post, DelOpen, DelClose);
    NoSpanUnchanged(post, DelOpen, DelClose);
  }

  lemma ExampleEscape(d: string)
    requires d == "1~2정씩 복용"
    ensures Escape(d) == "1\\~2정씩 복용"
  {
    var a, b := "1~", "2정씩 복용";
    ExampleSplit(d, a, b);
    EscapeConcat(a, b);
    ExampleEscapeParts(a, b);
  }

  lemma ExampleSplit(d: string, a: string, b: string)
    requires d == "1~2정씩 복용" && a == "1~" && b == "2정씩 복용"
    ensures d == a + b
  {
  }

  lemma ExampleEscapeParts(a: string, b: string)
    requires a == "1~" && b == "2정씩 복용"
    ensures Escape(a) + Escape(b) == "1\\~2정씩 복용"
  {
    assert Escape(a) == "1\\~";
    assert '~' !in b;
    EscapeIdentity(b);
  }

  /** A usage line with a tilde and a deleted passage: the tilde is escaped
      and the passage is gone. */
  lemma CleanExample(t: string)
    requires t == "1~2정씩 <del>과거정보</del>복용"
    ensures Clean(Some(t)) == "1\\~2정씩 복용"
  {
    CleanPipeline(t);
    ExampleMarkup(t);
    ExampleEscape(StripMarkup(t));
    StripTrimmed(Escape(StripMarkup(t)));
  }

  /** The example of the comment at app.py:44: `1~2정` cleans to `1\~2정`. */
  lemma CommentExample(t: string)
    requires t == "1~2정"
    ensures Clean(Some(t)) == "1\\~2정"
  {
    CleanPipeline(t);
    NoOpenNoMarkup(t);
    CommentEscape(t);
    CommentStrip(Escape(t));
  }

  lemma CommentStrip(e: string)
    requires e == "1\\~2정"
    ensures Strip(e) == e
  {
    StripTrimmed(e);
  }

  lemma CommentEscape(t: string)
    requires t == "1~2정"
    ensures Escape(t) == "1\\~2정"
  {
    var a, b := "1~", "2정";
    CommentSplit(t, a, b);
    EscapeConcat(a, b);
    assert Escape(a) == "1\\~";
    assert '~' !in b;
    EscapeIdentity(b);
  }

  lemma CommentSplit(t: string, a: string, b: string)
    requires t == "1~2정" && a == "1~" && b == "2정"
    ensures t == a + b
  {
  }

  /** A second cleaning of a text with a tilde is not a no-op. */
  lemma CleanTwiceExample()
    ensures Clean(Some("~")) == "\\~"
    ensures Clean(Some("\\~")) == "\\\\~"
  {
    CleanPipeline("~");
    NoOpenNoMarkup("~");
    assert Escape("~") == "\\~";
    StripTrimmed("\\~");
    CleanPipeline("\\~");
    NoOpenNoMarkup("\\~");
    assert Escape("\\~") == "\\\\~";
    StripTrimmed("\\\\~");
  }
}
