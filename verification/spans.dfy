/** First pass of the cleaner: `re.sub(open + '.*?' + close, '', s,
    flags=re.DOTALL)`, used with `<del>`/`</del>` and then `<s>`/`</s>` to
    drop the passages the regulator's export marks as deleted. */
module Spans {

  import opened Options
  import opened Text

  /** `s` holds an `open` with some `close` after it: a span the pass removes. */
  ghost predicate HasCompleteSpan(s: string, open: string, close: string) {
    exists i, j :: At(s, open, i) && i + |open| <= j && At(s, close, j)
  }

  /** Leftmost, shortest-match removal of `open … close` spans, newlines
      included. At each position: if `open` starts there and a `close` follows
      it, everything through the first such `close` goes; otherwise the
      character is kept and the scan moves on by one. */
  function RemoveSpans(s: string, open: string, close: string): (r: string)
    requires |open| > 0
    ensures |r| <= |s|
    decreases |s|
  {
    if |s| == 0 then []
    else if open <= s && FindFrom(s, close, |open|).Some? then
      RemoveSpans(s[FindFrom(s, close, |open|).value + |close|..], open, close)
    else [s[0]] + RemoveSpans(s[1..], open, close)
  }

  /** Characters of `pre` are kept verbatim when no `open` starts inside `pre`. */
  lemma {:induction false} SpansKeepPrefix(pre: string, t: string, open: string, close: string)
    requires |open| > 0
    requires forall i :: 0 <= i < |pre| ==> !At(pre + t, open, i)
    ensures RemoveSpans(pre + t, open, close) == pre + RemoveSpans(t, open, close)
    decreases |pre|
  {
    if |pre| == 0 {
      assert pre + t == t;
    } else {
      var s := pre + t;
      assert !At(s, open, 0);
      assert !(open <= s);
      assert RemoveSpans(s, open, close) == [s[0]] + RemoveSpans(s[1..], open, close);
      assert s[1..] == pre[1..] + t;
      forall i | 0 <= i < |pre[1..]| ensures !At(pre[1..] + t, open, i) {
        AtTail(s, open, i);
      }
      SpansKeepPrefix(pre[1..], t, open, close);
      assert s[0] == pre[0];
      assert pre == [pre[0]] + pre[1..];
    }
  }

  /** A span whose `close` is the first one after its `open` is removed
      entirely, whatever it holds (newlines included), and the scan resumes
      right after it. */
  lemma SpanRemovedAtStart(open: string, mid: string, close: string, post: string)
    requires |open| > 0
    requires forall q :: |open| <= q < |open| + |mid| ==> !At(open + mid + close, close, q)
    ensures RemoveSpans(open + mid + close + post, open, close) == RemoveSpans(post, open, close)
  {
    var span := open + mid + close;
    var s := span + post;
    var e := |open| + |mid|;
    assert open <= s;
    assert s[e..] == close + post;
    assert At(s, close, e);
    forall q | |open| <= q < e ensures !At(s, close, q) {
      assert !At(span, close, q);
      assert s[q..q + |close|] == span[q..q + |close|];
      assert close <= s[q..] <==> close == s[q..q + |close|];
      assert close <= span[q..] <==> close == span[q..q + |close|];
    }
    var f := FindFrom(s, close, |open|);
    assert f == Some(e);
    assert s[e + |close|..] == post;
  }

  /** Removal of one deleted-content span in context: the text before it
      survives, the span itself (through the first `close` after its `open`)
      disappears, and the rest is scanned afresh. */
  lemma DeleteSpanRemoved(pre: string, mid: string, post: string, open: string, close: string)
    requires |open| > 0
    requires forall i :: 0 <= i < |pre| ==> !At(pre + open, open, i)
    requires forall q :: |open| <= q < |open| + |mid| ==> !At(open + mid + close, close, q)
    ensures RemoveSpans(pre + open + mid + close + post, open, close)
         == pre + RemoveSpans(post, open, close)
  {
    var t := open + mid + close + post;
    assert pre + open + mid + close + post == pre + t;
    forall i | 0 <= i < |pre| ensures !At(pre + t, open, i) {
      if At(pre + t, open, i) {
        assert (pre + t)[i..i + |open|] == (pre + open)[i..i + |open|];
        assert At(pre + open, open, i);
      }
    }
    SpansKeepPrefix(pre, t, open, close);
    SpanRemovedAtStart(open, mid, close, post);
  }

  /** With a complete span present the pass strictly shortens the text. */
  lemma {:induction false} SpanShortens(s: string, open: string, close: string)
    requires |open| > 0
    requires HasCompleteSpan(s, open, close)
    ensures |RemoveSpans(s, open, close)| < |s|
    decreases |s|
  {
    var i, j :| At(s, open, i) && i + |open| <= j && At(s, close, j);
    if !(open <= s && FindFrom(s, close, |open|).Some?) {
      assert i != 0;
      AtTail(s, open, i - 1);
      AtTail(s, close, j - 1);
      assert HasCompleteSpan(s[1..], open, close);
      SpanShortens(s[1..], open, close);
    }
  }

  /** Without a complete span the pass changes nothing. */
  lemma {:induction false} NoSpanUnchanged(s: string, open: string, close: string)
    requires |open| > 0
    requires !HasCompleteSpan(s, open, close)
    ensures RemoveSpans(s, open, close) == s
    decreases |s|
  {
    if |s| > 0 {
      if open <= s {
        var f := FindFrom(s, close, |open|);
        if f.Some? {
          assert At(s, open, 0);
          assert false;
        }
      }
      if HasCompleteSpan(s[1..], open, close) {
        var i, j :| At(s[1..], open, i) && i + |open| <= j && At(s[1..], close, j);
        AtTail(s, open, i);
        AtTail(s, close, j);
        assert false;
      }
      NoSpanUnchanged(s[1..], open, close);
      assert s == [s[0]] + s[1..];
    }
  }

  /** The span pass leaves a text unchanged exactly when it holds no
      complete span; an `open` with no `close` after it is left as it is. */
  lemma SpansUnchangedIff(s: string, open: string, close: string)
    requires |open| > 0
    ensures RemoveSpans(s, open, close) == s <==> !HasCompleteSpan(s, open, close)
  {
    if HasCompleteSpan(s, open, close) {
      SpanShortens(s, open, close);
    } else {
      NoSpanUnchanged(s, open, close);
    }
  }

  /** A text without `<` holds no span whose opening tag starts with `<`. */
  lemma NoOpenNoSpan(t: string, open: string, close: string)
    requires '<' !in t && |open| > 0 && open[0] == '<'
    ensures !HasCompleteSpan(t, open, close)
  {
  }
}
