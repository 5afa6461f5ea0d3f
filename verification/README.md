# 쵸비상약 (Cho-Bi-Sang-Yak) — a Dafny model of the drug finder's core

The application reads a table of over-the-counter drugs (name, manufacturer,
efficacy, usage, precautions, purchase channel, image URL). It drops the rows
whose efficacy or usage text is missing and cleans the three text columns
with `advanced_clean`. It then lets the user pick one of eight symptoms. The
drugs whose efficacy mentions that symptom are split into a
"convenience store" tab and a "pharmacy only" tab, and each convenience-store
drug gets a picture from a hand-made override table, falling back to the
record's own image URL.

The model covers that logic as pure functions over immutable datatypes:

- `Text`: substring containment, character counts and Python's
  `str.strip()` with the exact `str.isspace()` character set.
- `Spans`: the `re.sub(r'<del>.*?</del>', '', …, flags=re.DOTALL)` pass, and
  the same pass for `<s>…</s>`. It is written as a leftmost, shortest-match
  scanner.
- `Tags`: the `re.sub(r'<.*?>', '', …)` pass. Without `DOTALL` a tag
  cannot run across a newline.
- `Tilde`: `replace('~', '\~')`. The source literal `'\~'` is not a known
  escape, so Python keeps it as the two characters backslash and tilde.
- `Cleaner`: `advanced_clean` as the composition of the passes.
- `Selection`: order-preserving selection (pandas `dropna` and boolean-mask
  indexing).
- `Catalog`: the load-and-clean step.
- `Retrieval`: the symptom search and the two tabs.
- `Images`: the picture lookup.

## Model

| member | source | states |
|---|---|---|
| Text.Contains | app.py:113 | `key in name` can hold only when the key is no longer than the name |
| Text.ContainsIffOccurrence | app.py:113 | `key in name` holds exactly when the key occurs at some index of the name |
| Text.ContainsTrans | app.py:113 | a name holding a key holds every substring of that key |
| Text.Strip | app.py:47 | `strip()` returns the slice left after cutting only whitespace (Python's `isspace` set) off both ends, and the slice neither starts nor ends with whitespace |
| Text.StripKeepsCount | app.py:47 | `strip()` never removes a non-whitespace character |
| Text.StripTrimmed | app.py:47 | a text with non-whitespace at both ends is returned unchanged |
| Spans.RemoveSpans | app.py:37-38 | the pass never makes the text longer |
| Spans.DeleteSpanRemoved | app.py:37-38 | a deleted-content span is removed from its opening tag through the first closing tag after it, whatever lies between (newlines included); the text before it is kept and the rest is scanned afresh, so separate spans are each removed |
| Spans.SpanRemovedAtStart | app.py:37-38 | a span at the start of the text goes through its first closing tag, and the scan resumes right after it |
| Spans.SpansKeepPrefix | app.py:37-38 | text in which no opening tag starts passes through unchanged |
| Spans.SpanShortens | app.py:37-38 | when an opening tag has a closing tag after it, the pass removes something |
| Spans.SpansUnchangedIff | app.py:37-38 | the pass leaves a text unchanged exactly when no opening tag has a closing tag after it; an unterminated `<del>` is kept |
| Tags.RemoveTags | app.py:41 | the pass never makes the text longer |
| Tags.RemoveTagsConcat | app.py:41 | after a prefix in which every `<` finds its stop (a `>` or a newline) inside the prefix, the pass works on the prefix and the rest separately |
| Tags.TagRemoved | app.py:41 | after any such prefix, a `<` whose nearest `>` comes before any newline is removed with that `>` and everything between, and the scan resumes after the `>` |
| Tags.UnclosedLineKept | app.py:41 | a `<` with no `>` before the next newline or the end of the text is kept verbatim, and the pass never fails |
| Tags.UnclosedKeptInContext | app.py:41 | the same holds after any prefix in which every `<` finds its stop inside the prefix |
| Tags.ClosesIff | app.py:41 | a `<` starts a removed tag exactly when a `>` follows it on the same line |
| Tags.RemoveTagsTagFree | app.py:41 | after the pass no `<` has a `>` after it on its line |
| Tags.RemoveTagsFixpoint | app.py:41 | the pass changes a text exactly when some tag closes on its line, and running it twice equals running it once |
| Tags.TagFreeMeaning | app.py:41 | the recursive tag-freedom predicate means that between every `<` and every later `>` there is a newline |
| Tilde.Escape | app.py:43-45 | each `~` becomes `\~`: the length grows by the number of tildes, the tilde count is kept, and every `~` of the result follows a backslash |
| Tilde.EscapeRoundTrip | app.py:43-45 | reading `\~` back as `~` gives back the text before escaping |
| Tilde.EscapeIdentity | app.py:45 | escaping changes a text exactly when it holds a `~` |
| Tilde.EscapeKeepsTagFree | app.py:45 | escaping adds only backslashes, so it cannot create a tag |
| Cleaner.Clean | app.py:32-47 | a missing value cleans to `""`; any other result has no surrounding whitespace, no `~` without a backslash in front, no tag closing on its line, and as many `~` as remained after markup removal |
| Cleaner.CleanedHasNoMarkup | app.py:37-41 | markup removal does nothing to a text that is already tag-free |
| Cleaner.CleanIdempotentIff | app.py:32-47 | cleaning a cleaned text again changes nothing exactly when it holds no `~`; otherwise each `\~` becomes `\\~` |
| Cleaner.PlainTextOnlyTrimmed | app.py:32-47 | a text without `<` or `~` is only stripped |
| Cleaner.CleanExample | app.py:37-45 | `1~2정씩 <del>과거정보</del>복용` cleans to `1\~2정씩 복용` |
| Cleaner.CommentExample | app.py:44 | the example of the source comment: `1~2정` cleans to `1\~2정` |
| Cleaner.CleanTwiceExample | app.py:45 | `~` cleans to `\~`, and `\~` cleans to `\\~` |
| Selection.Filter | app.py:88 | the selected elements are exactly those satisfying the condition |
| Selection.Positions | app.py:88 | the selected indices are exactly those whose element satisfies the condition, and they increase |
| Selection.FilterAtPositions | app.py:88 | the selection is the input read at the selected indices, in their order |
| Selection.FilterFilter | app.py:88-90 | selecting by one condition and then by another is selecting by both |
| Selection.FilterPartition | app.py:90-91 | selecting by a condition and by its negation splits the input into two parts with no loss and no duplication |
| Catalog.Normalize | app.py:50-52 | name, manufacturer, purchase channel and image URL are carried over; the three text columns are trimmed (the body applies `Cleaner.Clean` to each), and a missing precaution text becomes `""` |
| Catalog.Ingest | app.py:29-52 | the cleaned table has no more records than the input has rows |
| Catalog.IngestKeepsCompleteRows | app.py:29-52 | record `k` of the table is the cleaned form of the `k`-th row whose efficacy and usage were present, so the complete rows are kept in their order |
| Catalog.IncompleteRowDropped | app.py:29 | a row whose efficacy or usage cell is missing is not among the rows the table is built from |
| Catalog.IngestCount | app.py:29 | there are as many records as rows with both efficacy and usage present |
| Catalog.EmptiedEfficacy | app.py:32-47 | a text that is one `<del>…</del>` span and nothing else cleans to `""` |
| Catalog.EmptiedRowKept | app.py:29-52 | presence is checked before cleaning: in any row list, a row at any position whose efficacy is one deleted-content span and nothing else still yields its record, and that record's efficacy is `""` |
| Catalog.Load | app.py:24-56 | an unreadable table gives no table; otherwise one record per complete row |
| Retrieval.Token | app.py:83 | every picker word is a non-empty run of precomposed Hangul syllables |
| Retrieval.TokensDistinct | app.py:83 | two picker entries search for the same word exactly when they are the same entry |
| Retrieval.PatternsAreLiteral | app.py:83-91 | the symptom words and `편의점` contain no regular-expression metacharacter, so `str.contains` is substring search |
| Retrieval.Matches | app.py:88 | a record matches exactly when its efficacy contains the symptom word |
| Retrieval.MatchesInTableOrder | app.py:88 | the matches are the table records at the increasing indices of the records that mention the symptom |
| Retrieval.Search | app.py:88-93 | the convenience tab holds exactly the matches whose channel contains `편의점` and the pharmacy tab exactly the other matches; together they are the matches with no loss or duplication, and the reported total is the sum of the two tab sizes |
| Retrieval.TabsInTableOrder | app.py:90-91 | each tab lists its records in table order |
| Retrieval.NoMatchNoResult | app.py:88-93 | when no record mentions the symptom (for instance an empty table), both tabs are empty and the total is 0 |
| Retrieval.ScenarioConvenience | app.py:88-93 | a headache drug sold at `편의점, 약국` lands in the convenience tab, with a total of 1 |
| Retrieval.ScenarioPharmacyOnly | app.py:88-93 | a headache drug sold at `약국 전용` lands in the pharmacy tab only |
| Images.OverridesIsDict | app.py:9-18 | the override table has eight entries whose keys are pairwise distinct, as in a dict literal |
| Images.FirstMatchFrom | app.py:111-115 | the scan returns the first entry, in table order, whose key occurs in the name, and nothing exactly when no key occurs |
| Images.MatchedImage | app.py:111-115 | `matched_img` is the URL of the first entry, in table order, whose key occurs in the name, and is `None` exactly when no key occurs |
| Images.Resolve | app.py:111-122 | the URL of the first matching entry wins; when no key occurs, the record's own image (or nothing) is used |
| Images.ResolveSpec | app.py:111-122 | the result is the first matching entry's URL; it ignores the record's image whenever a key occurs; it is empty exactly when no key occurs and the record has no image |
| Images.RecordImage | app.py:111-122 | the picture shown for a convenience-store record is the first matching entry's URL; with no matching key it is the record's own image URL, or none |
| Images.OverrideUrlsNonEmpty | app.py:9-18 | every override URL is non-empty, so the `if matched_img:` test never falls through on a match |
| Images.DoctorBeazeTakesEarlierKey | app.py:111-122 | `닥터베아제정` holds both the line-14 and the line-15 keys, and it gets the line-14 `베아제정` picture |
| Images.DoctorBeazeEntryUnreachable | app.py:14-15 | the line-15 entry is never chosen for any name |
| Images.ReorderedTableReachesLine15 | app.py:14-15 | listing the line-15 entry above the line-14 one is enough: the unchanged first-match scan then gives `닥터베아제정` its own picture |
| Images.ReorderedSameEntries | app.py:9-18 | the reordered table holds exactly the entries of the table as written |

## Left out

- The Streamlit UI (page setup, CSS, title, picker widget, tabs, cards, the
  `'선택하세요'` placeholder guard, table display) is presentation only.
  `Retrieval.Symptom` holds just the eight real choices.
- Reading the CSV file is I/O. `Catalog.Load` takes its outcome as an
  `Option`: `None` stands for any exception the `try` block catches.
- `@st.cache_data` is framework memoisation with no logic of its own.
- `pd.isna` on non-string cells and the `str()` coercion in
  `advanced_clean` are not modelled. Cells are `Option<string>`, and `None`
  is NaN.
- A missing purchase channel would make the channel filter raise, because
  that call has no `na=False`. The channel is a required `string` in
  `Catalog.RawRow` rather than a modelled exception.
- A missing product name would make `key in row['이름']` (app.py:113) raise
  a `TypeError`, because NaN is a float. The name is a required `string` in
  `Catalog.RawRow`, so that crash is not modelled.
- Only the three fixed regular expressions are modelled, by dedicated
  scanners. There is no general regex engine.
- The override URLs are external resources. Only their text is modelled, not
  whether they are valid or reachable.
- Spans.RemoveSpans: its own contract states only that the text does not
  grow. Its meaning is stated by the `Spans` lemmas in the table. The span
  pass is not idempotent: removing one span can join the pieces of a new
  opening tag. So no "the output has no span" claim is made.
- Tags.RemoveTags: its own contract states only that the text does not grow.
  Its meaning is stated by the `Tags` lemmas in the table.
- Catalog.Ingest: its own contract states only the length bound. Its meaning
  is `Catalog.IngestKeepsCompleteRows`.
- Text.Contains: its own contract states only the length bound. Its meaning
  is `Text.ContainsIffOccurrence`.
- Retrieval.Token: its contract states the shape of the words, not the words
  themselves; the eight words are the function's table, and
  `Retrieval.TokensDistinct` states that they differ.
- Images.OverridesIsDict: the keys and URLs themselves are the constant
  `Images.Overrides`; a constant has no contract, so the table appears here
  through this lemma, `Images.OverrideUrlsNonEmpty` and the lemmas about
  its line-14 and line-15 entries.

## Findings

| source | as written | input that shows it | evidently intended | confidence | as-written member | corrected member |
|---|---|---|---|---|---|---|
| app.py:14-15, 111-115 | the lookup takes the first key in table order that occurs in the product name; `베아제정` comes before `닥터베아제정` and occurs inside it | product name `닥터베아제정` gets the `bease_img01.jpg` picture, and the line-15 `dr_bease_img01.jpg` entry can never be chosen | the line-15 entry is reachable: `닥터베아제정` gets `dr_bease_img01.jpg` | medium, not executed | Images.DoctorBeazeEntryUnreachable | Images.ReorderedTableReachesLine15 |

The picture shown for a record, `Images.RecordImage`, models the code as
written: it uses the first-match lookup `Images.Resolve`. The correction
keeps that policy, ordered first match, and changes only the table:
`Images.ReorderedOverrides` lists the line-15 entry above the line-14 one.
`Images.ReorderedSameEntries` proves it holds the same entries, and
`Images.ReorderedTableReachesLine15` proves that the unchanged scan then
gives `닥터베아제정` its own picture. Entries may rely on their order, so
the lookup itself is not changed.
