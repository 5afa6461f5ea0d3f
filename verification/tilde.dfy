/** Third pass of the cleaner: `text.replace('~', '\~')`. Streamlit's
    Markdown reads `~` as strike-through, so every tilde is written as the
    two characters backslash, tilde. */
module Tilde {

  import opened Text
  import opened Tags

  /** Every `~` sits right after a backslash. */
  predicate TildesEscaped(s: string) {
    forall i :: 0 <= i < |s| && s[i] == '~' ==> 0 < i && s[i - 1] == '\\'
  }

  /** Each `~` becomes the two characters `\~`; all else is copied. */
  function Escape(s: string): (r: string)
    ensures |r| == |s| + Count(s, '~')
    ensures Count(r, '~') == Count(s, '~')
    ensures TildesEscaped(r)
    decreases |s|
  {
    if |s| == 0 then []
    else
      var rest := Escape(s[1..]);
      var head := if s[0] == '~' then "\\~" else [s[0]];
      CountConcat(head, rest, '~');
      head + rest
  }

  /** Drops the backslash of every `\~` pair (the reading the renderer makes). */
  function Unescape(s: string): (r: string)
    decreases |s|
  {
    if |s| == 0 then []
    else if |s| >= 2 && s[0] == '\\' && s[1] == '~' then ['~'] + Unescape(s[2..])
    else [s[0]] + Unescape(s[1..])
  }

  /** Escaping loses nothing: the renderer's reading gives back the input. */
  lemma {:induction false} EscapeRoundTrip(s: string)
    ensures Unescape(Escape(s)) == s
    decreases |s|
  {
    if |s| > 0 {
      var rest := Escape(s[1..]);
      EscapeRoundTrip(s[1..]);
      if s[0] == '~' {
        assert Escape(s) == "\\~" + rest;
        assert Escape(s)[2..] == rest;
      } else {
        assert Escape(s) == [s[0]] + rest;
        assert Escape(s)[1..] == rest;
        if s[0] == '\\' && |rest| > 0 {
          assert rest[0] != '~';
        }
      }
      assert s == [s[0]] + s[1..];
    }
  }

  /** Escaping keeps the last character and changes the first only when it
      is a `~` (to the backslash in front of it). */
  lemma {:induction false} EscapeEnds(s: string)
    requires |s| > 0
    ensures Escape(s)[0] == (if s[0] == '~' then '\\' else s[0])
    ensures Escape(s)[|Escape(s)| - 1] == s[|s| - 1]
    decreases |s|
  {
    var rest := Escape(s[1..]);
    var head := if s[0] == '~' then "\\~" else [s[0]];
    assert Escape(s) == head + rest;
    if |s| > 1 {
      EscapeEnds(s[1..]);
      assert s[1..][|s| - 2] == s[|s| - 1];
    } else {
      assert rest == [];
    }
  }

  /** Escaping works piece by piece. */
  lemma {:induction false} EscapeConcat(a: string, b: string)
    ensures Escape(a + b) == Escape(a) + Escape(b)
    decreases |a|
  {
    if |a| == 0 {
      assert a + b == b;
    } else {
      assert (a + b)[1..] == a[1..] + b;
      EscapeConcat(a[1..], b);
    }
  }

  lemma {:induction false} EscapeKeepsLineOpen(s: string)
    requires LineOpen(s)
    ensures LineOpen(Escape(s))
    decreases |s|
  {
    if |s| > 0 && s[0] != '\n' {
      EscapeKeepsLineOpen(s[1..]);
      var rest := Escape(s[1..]);
      if s[0] == '~' {
        assert Escape(s) == ['\\'] + (['~'] + rest);
        assert (['~'] + rest)[1..] == rest;
        assert (['\\'] + (['~'] + rest))[1..] == ['~'] + rest;
      } else {
        assert Escape(s) == [s[0]] + rest;
        assert Escape(s)[1..] == rest;
      }
    }
  }

  /** Escaping adds only backslashes, so it cannot create a tag. */
  lemma {:induction false} EscapeKeepsTagFree(s: string)
    requires TagFree(s)
    ensures TagFree(Escape(s))
    decreases |s|
  {
    if |s| > 0 {
      var rest := Escape(s[1..]);
      EscapeKeepsTagFree(s[1..]);
      if s[0] == '~' {
        assert Escape(s) == ['\\'] + (['~'] + rest);
        assert (['~'] + rest)[1..] == rest;
        assert (['\\'] + (['~'] + rest))[1..] == ['~'] + rest;
      } else {
        assert Escape(s) == [s[0]] + rest;
        assert Escape(s)[1..] == rest;
        if s[0] == '<' {
          EscapeKeepsLineOpen(s[1..]);
        }
      }
    }
  }

  /** A text without `~` is left alone by the escaping pass. */
  lemma {:induction false} EscapeIdentity(s: string)
    ensures Escape(s) == s <==> '~' !in s
    decreases |s|
  {
    CountZeroIffAbsent(s, '~');
    if |s| > 0 && '~' !in s {
      EscapeIdentity(s[1..]);
      assert s == [s[0]] + s[1..];
    }
  }
}
