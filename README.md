# hasami in Dafny

A model of hasami, a rule-based segmenter for Japanese text, and proofs of what it does.
hasami splits text into sentences with a few regular-expression passes. Each pass is written
out here as an explicit left-to-right scan that follows Python `re` semantics.

There are two segmenters:

- **`Hasami` (module `Hasami`, file `hasami.dfy`).** The configurable segmenter.
  - A marker pass puts a '\n' after sentence endings. It is `([markers]+(?!\n))` replaced by
    `\1\n`, and the scan reproduces the greedy run with backtracking.
  - The suppression stages then run in order: the user's exception patterns first, the
    enclosure pattern `open.*?close|…` (with DOTALL) last. Each stage deletes every '\n'
    inside its matches.
  - `segment_sentences` optionally strips the input. It returns `['']` for an empty text.
    Otherwise it splits the output of `insert_newlines` into lines and optionally strips each.
  - The segmenter is a `class` with immutable fields. `InsertNewlines` runs the stage list in a
    loop whose invariant ties it to the functional specification `InsertedNewlines`.
- **The older separator pipeline (module `Segmentation`, file `segmentation.dfy`).**
  - Every run of `。！？` is followed by the record separator `chr(30)`.
  - Separators inside `「」『』（）` enclosures are deleted. Here the dot does not match '\n'.
  - The text is then right-stripped of separators and split on them.

The shared pieces:

- `Util` (`util.dfy`): `make_enclosure_definitions`.
- `StrOps` (`str_ops.dfy`): the Python string methods used (`strip`, `rstrip(c)`, `split(c)`,
  `splitlines`, `replace(c, '')`).
- `Spans` (`spans.dfy`): the substitution `re.sub(p, lambda m: m.group(0).replace(c, ''), t)`.
  It works over a list of match spans and has a position-wise reference meaning, `Kept`.
- `Enclosures` (`enclosures.dfy`): the scanner for the lazy enclosure alternation. One flag
  selects DOTALL or not.
- `Wrappers` (`wrappers.dfy`): `Option` and `Result`.

The marker passes and the substitution are each proved equal to an independent reference
definition:

- the marker pass equals `WithBreaks`, which says exactly where a '\n' goes;
- the separator pass equals `WithSeparators`;
- the substitution equals `Kept`.

Inverse properties come in two kinds:

- Proved directly on the operations: joining the pieces of `split(c)` gives the text back
  (`StrOps.JoinSplit`); pairing and flattening enclosure strings are inverses
  (`Util.FlattenDefinitions`, `Util.DefinitionsOfFlatten`); deleting every '\n' from the
  input of the marker scan and from its output gives the same string (`Hasami.MarkErases`,
  proved on the scan).
- Proved on a reference and carried to the scan: deleting every separator from the
  separator pass gives separator-free text back (`Segmentation.MarkErases`, through
  `WithSeparators`).

`insert_newlines` is not idempotent. The default segmenter turns '。。' into '。。\n', and
applying `insert_newlines` again gives '。\n。\n' (`Hasami.InsertTwiceDiffersDefault`).
`Hasami.InsertTwiceDiffers` shows the same for every configuration whose markers include '。'
(and not '\n') and whose only stage is an enclosure stage with no opener '。' or '\n'. The
cause is the backtracking marker pass (`Hasami.MarkTwiceDiffers`). `Hasami.AlreadyBroken`
proves the case that does hold.

## Model

| member | source | states |
|---|---|---|
| Util.MakeEnclosureDefinitions | hasami/util.py:14-16 | Fails with the odd-length error exactly when the string has odd length. Otherwise gives len/2 pairs, the i-th being (s[2i], s[2i+1]); the empty string gives no pairs. |
| Util.FlattenDefinitions | hasami/util.py:16 | For an even-length string, pairing succeeds and flattening the pairs back gives the string. |
| Util.DefinitionsOfFlatten | hasami/util.py:14-16 | Every pair list is exactly what its flattened string defines (the other direction of the round trip). |
| StrOps.RemoveAll | hasami/hasami.py:63 | `replace(c, '')`: the result holds no c. Its meaning on concatenations and on text without c is proved in `RemoveAllAppend` and `RemoveAllAbsent`. |
| StrOps.Find | hasami/segmentation.py:35 | The first index at or after `from` that holds c, which is where `split(c)` cuts; none when no c lies there. |
| StrOps.Strip | hasami/hasami.py:80 | `strip()`: a slice of the input without surrounding whitespace; everything removed before and after it is whitespace. |
| StrOps.StripEmpty | hasami/hasami.py:80-85 | The strip is empty exactly when every character is whitespace, so such input is the `['']` case. |
| StrOps.StripIdempotent | hasami/hasami.py:80-90 | Stripping twice is stripping once. |
| StrOps.StripNothing | hasami/hasami.py:90 | A string with no surrounding whitespace is its own strip. |
| StrOps.RStripChar | hasami/segmentation.py:35 | `rstrip(c)`: a prefix of the input that does not end with c; everything removed is c. |
| StrOps.RemoveAllRStrip | hasami/segmentation.py:35 | `rstrip(c)` deletes only copies of c. |
| StrOps.Split | hasami/segmentation.py:35 | `split(c)`: at least one piece, and no piece holds c. |
| StrOps.JoinSplit | hasami/segmentation.py:35 | Joining the pieces with c gives the string back. |
| StrOps.ConcatSplit | hasami/segmentation.py:35 | Concatenating the pieces is the string with every c deleted. |
| StrOps.SplitLastNonEmpty | hasami/segmentation.py:35 | A string not ending with c has a non-empty last piece. |
| StrOps.SplitLines | hasami/hasami.py:87 | `splitlines()`: no line holds a line break, and there are no lines exactly when the text is empty. |
| StrOps.SplitLinesSingle | hasami/hasami.py:87 | A non-empty line without breaks, with or without a final '\n', is one line. |
| StrOps.SplitLinesBreak | hasami/hasami.py:87 | A '\n' after a break-free line ends exactly that line. |
| StrOps.ConcatSplitLines | hasami/hasami.py:87 | The lines concatenated are the text with every line-break character deleted. |
| StrOps.FirstBreakAfter | hasami/hasami.py:87 | In a break-free line followed by a break, the first break is at the end of the line. |
| StrOps.SplitLinesAnyBreak | hasami/hasami.py:87 | Any line-break character after a break-free line ends exactly that line (unless it is '\r' before '\n'); splitting continues after it. |
| StrOps.SplitLinesCRLF | hasami/hasami.py:87 | '\r\n' after a break-free line is one break: that line, then the lines after it, with no empty line between. |
| StrOps.RunEnd | hasami/hasami.py:40 | The end of the maximal run of characters from a class starting at i. |
| Spans.DeleteWithin | hasami/hasami.py:63 | The match-by-match substitution equals the reference `Kept`: c is deleted only inside a match; every other character keeps its place and order. |
| Spans.KeptInside | hasami/hasami.py:63 | Over a covered stretch exactly the copies of c are deleted. |
| Spans.KeptGap | hasami/hasami.py:63 | An uncovered stretch is kept unchanged. |
| Spans.KeptErases | hasami/hasami.py:63 | The substitution deletes nothing but c. |
| Spans.KeptAbsent | hasami/hasami.py:63 | Text without c passes unchanged. |
| Enclosures.LazyClose | hasami/hasami.py:48-51 | The lazy `.*?close` stops at the first closer it can reach. With DOTALL it can reach anything; without DOTALL it cannot cross a '\n'. If no closer is found, none is reachable. |
| Enclosures.PairMatchAt | hasami/hasami.py:48-51 | One alternative matches at p exactly when p holds its opener and a reachable closer follows. The match ends just after the first such closer and is at least two characters long. |
| Enclosures.MatchAt | hasami/hasami.py:48-51 | The alternation matches at p exactly when some pair does, and the result is that of a matching pair tried in order. |
| Enclosures.EmptyMatches | hasami/hasami.py:48-51 | An empty pair list (the empty pattern) matches empty spans that cover no position. |
| Enclosures.EnclosureSpans | hasami/hasami.py:47-63 | The spans are well-formed. For a non-empty pair list, each span is the match at its own start. No uncovered position has a match. |
| Enclosures.NoOpenerNoSpans | hasami/hasami.py:48-51 | Text without an opener has no spans. |
| Enclosures.PairMatchAvoidsNewline | hasami/segmentation.py:8-9 | Without DOTALL, a match of a pair not using '\n' holds no '\n'. |
| Enclosures.SpansAvoidNewline | hasami/segmentation.py:8-9 | Without DOTALL, no span holds a '\n'. |
| Hasami.MarkerMatchAt | hasami/hasami.py:40 | The match of `[markers]+(?!\n)` tried at i: greedy run, then backtracking. Its meaning is stated by `MarkerMatchLongest`. |
| Hasami.MarkerMatchLongest | hasami/hasami.py:40 | The match at i is the longest stretch of markers from i at whose end the lookahead holds; there is no match when no such stretch exists. |
| Hasami.MarkFrom | hasami/hasami.py:58 | The `re.sub` scan of the marker pattern from a position. `MarkFromBreaks` proves it equal to the reference `WithBreaks`. |
| Hasami.MarkSentenceEndings | hasami/hasami.py:40-58 | The marker pass over the whole text. `MarkSentenceEndingsBreaks` says where its '\n's go, and `MarkErases` that it only inserts '\n'. |
| Hasami.Backtrack | hasami/hasami.py:40 | The largest end inside the run at which `(?!\n)` holds, or none. |
| Hasami.MarkErases | hasami/hasami.py:58 | The marker pass only inserts '\n': deleting every '\n' before and after gives the same string. |
| Hasami.MarkNoMarkers | hasami/hasami.py:40-58 | Text without markers is unchanged by the marker pass. |
| Hasami.MarkFromBreaks | hasami/hasami.py:40-58 | The scan from any scan point equals the reference `WithBreaks`. |
| Hasami.MarkSentenceEndingsBreaks | hasami/hasami.py:40-58 | The marker pass is the reference: a '\n' after each maximal run not followed by '\n' (the end of the text included), none inside a run except the backtracking case, where a '\n' goes before the last marker of a run of two or more that '\n' follows. |
| Hasami.RunHasNoBreak | hasami/hasami.py:40 | The end of a match is a break, and no break lies inside the matched run. |
| Hasami.AlreadyBroken | hasami/hasami.py:38-40 | A single marker already followed by '\n' gets no extra '\n'. The text marks as if that '\n' were absent. |
| Hasami.MarkTwiceDiffers | hasami/hasami.py:40-58 | For any markers including '。' and not '\n', '。。' marks to '。。\n', which marks to '。\n。\n': the marker pass is not idempotent. |
| Hasami.StageSpans | hasami/hasami.py:51-63 | A stage's matches are well-formed. The enclosure stage uses DOTALL. |
| Hasami.ApplyStage | hasami/hasami.py:63 | A stage deletes exactly the '\n's inside its matches. |
| Hasami.ApplyStages | hasami/hasami.py:62-63 | The stage loop as a function: each stage on the output of the one before. `ApplyStagesAppend`, `ApplyStagesErase` and `ApplyStagesAbsent` state its meaning. |
| Hasami.ApplyStagesAppend | hasami/hasami.py:62-63 | Running a + b is running b on the output of a. |
| Hasami.ApplyStagesErase | hasami/hasami.py:62-63 | The stages delete nothing but '\n'. |
| Hasami.ApplyStagesAbsent | hasami/hasami.py:62-63 | Text without '\n' passes every stage unchanged. |
| Hasami.ApplyStagesFinalBreak | hasami/hasami.py:62-63 | The stages turn t + '\n', with t free of '\n', into itself or t. |
| Hasami.UserStages | hasami/hasami.py:33 | The user's patterns become stages in the order given. |
| Hasami.Configure | hasami/hasami.py:33-54 | Fails exactly when the markers are empty or the enclosure string is odd. An empty marker string is reported first. Otherwise it keeps the markers and builds the stages: the user's in order, then the enclosure pairs of the string. |
| Hasami.DefaultConfig | hasami/hasami.py:6-18 | The default configuration is valid. It has the default markers and one enclosure stage built from the default enclosures. |
| Hasami.DefaultSentenceEndingMarkers | hasami/hasami.py:6 | `DEFAULT_SENTENCE_ENDING_MARKERS`, character for character. `DefaultConfig` proves the default segmenter uses it. |
| Hasami.DefaultEnclosures | hasami/hasami.py:8 | `DEFAULT_ENCLOSURES`, character for character. `DefaultConfig` proves it has even length and gives the default enclosure stage. |
| Hasami.InsertedNewlines | hasami/hasami.py:56-65 | `insert_newlines` as a function: the marker pass, then the stages. `InsertErases` and `StageOrder` state its meaning. |
| Hasami.StripAll | hasami/hasami.py:90 | Each line stripped, in order, one result per line. |
| Hasami.Segmented | hasami/hasami.py:67-92 | `segment_sentences` as a function. `SegmentStripped`, `SegmentKept` and `SingleSentence` state its meaning. |
| Hasami.InsertErases | hasami/hasami.py:58-63 | `insert_newlines` only inserts or deletes '\n'. |
| Hasami.StageOrder | hasami/hasami.py:33-63 | The user stages run first on the marked text. The enclosure stage runs last on their output and deletes exactly the '\n's in its DOTALL spans. |
| Hasami.InsertedNotEmpty | hasami/hasami.py:58-63 | Text starting with something other than '\n' is not emptied. |
| Hasami.SegmentStripped | hasami/hasami.py:80-90 | With stripping: never an empty list; blank input gives `['']`; no sentence has surrounding whitespace or a line break. |
| Hasami.SegmentKept | hasami/hasami.py:80-92 | Without stripping: no sentence holds a line break, and input with a character other than '\n' gives at least one sentence. For input without line breaks, the sentences concatenated are the input. |
| Hasami.MarkFinalRun | hasami/hasami.py:40-58 | Marker-free text followed by a run of markers gets one '\n', after the run. |
| Hasami.SingleSentence | hasami/hasami.py:80-92 | A break-free text whose markers stand only at its end is one sentence, returned whole: without stripping always, with stripping when the text has no surrounding whitespace. |
| Hasami.InsertTwiceDiffers | hasami/hasami.py:56-65 | For markers including '。' (not '\n') and an enclosure stage alone whose openers are neither '。' nor '\n', `insert_newlines` takes '。。' to '。。\n' and that to '。\n。\n'. |
| Hasami.ConfiguredOpeners | hasami/hasami.py:33-54 | Built without user exceptions from an enclosure string free of '。' and '\n', a configuration keeps the markers and has one enclosure stage whose openers are neither. |
| Hasami.DefaultMarkersAvoid | hasami/hasami.py:6 | '。' is a default marker and '\n' is not. |
| Hasami.DefaultEnclosuresLackStop | hasami/hasami.py:8 | '。' is not a default enclosure character. |
| Hasami.DefaultEnclosuresLackBreak | hasami/hasami.py:8 | '\n' is not a default enclosure character. |
| Hasami.InsertTwiceDiffersDefault | hasami/hasami.py:6-65 | The default segmenter's `insert_newlines` takes '。。' to '。。\n' and that to '。\n。\n': it is not idempotent. |
| Hasami.PassesPairs | hasami/hasami.py:47-63 | Text holding no opener of the pairs passes their enclosure stage unchanged. |
| Hasami.ExampleConfig | hasami/hasami.py:33-54 | The configuration with marker '。' and pairs 「」『』 is valid and holds those pairs. |
| Hasami.MarkTwoStops | hasami/hasami.py:40-58 | The marker pass on the shape of both examples (two non-marker characters, '。', one, '。', one, 'x'): a '\n' after each '。'. |
| Hasami.OverlapFirstWins | hasami/hasami.py:47-63 | In overlapping enclosures the one that closes first wins, so the ending inside the second still breaks. |
| Hasami.OverlapSpans | hasami/hasami.py:47-51 | The overlap example has one span, from 「 to the first 」. |
| Hasami.OverlapDelete | hasami/hasami.py:63 | Deleting inside that span. |
| Hasami.NestedSameKind | hasami/hasami.py:42-63 | Nested enclosures of one kind are not balanced: the outer 「 closes at the inner 」, and the later ending still breaks. |
| Hasami.NestedSpans | hasami/hasami.py:47-51 | The nested example has one span, up to the inner 」. |
| Hasami.NestedDelete | hasami/hasami.py:63 | Deleting inside that span. |
| Hasami.Hasami.constructor | hasami/hasami.py:14-19 | Stores a valid configuration. |
| Hasami.Hasami.Create | hasami/hasami.py:14-54 | Builds a segmenter exactly when `Configure` succeeds, holding its configuration; otherwise reports the same error. |
| Hasami.Hasami.Default | hasami/__init__.py:5 | The default instance holds `DefaultConfig`. |
| Hasami.Hasami.InsertNewlines | hasami/hasami.py:56-65 | On a valid segmenter (every one `Create` and `Default` build is): the marker pass, then each stage in order on the previous output; equals `InsertedNewlines`. |
| Hasami.Hasami.SegmentSentences | hasami/hasami.py:67-92 | On a valid segmenter (every one `Create` and `Default` build is): equals `Segmented`, about which `SegmentStripped`, `SegmentKept` and `SingleSentence` are proved. |
| Segmentation.EnclosureDefinitions | hasami/segmentation.py:5-9 | `ENCLOSURES` defines the pairs 「」, 『』, （）, none using '\n'. |
| Segmentation.EnclosureChars | hasami/segmentation.py:5 | `ENCLOSURES`. `EnclosureDefinitions` proves it defines 「」, 『』 and （）. |
| Segmentation.SentenceEndings | hasami/segmentation.py:11 | The character class of `SENTENCE_ENDING_PATTERN`: 。！？. |
| Segmentation.Separator | hasami/segmentation.py:12 | `SENTENCE_SEPARATOR`, `chr(30)`. |
| Segmentation.MarkFrom | hasami/segmentation.py:11-19 | The `re.sub` scan of `[。！？]+` from a position: its length grows by at most one per character. `MarkFromSeparators` proves it equal to the reference `WithSeparators`, and `MarkErases` states its content for separator-free text. |
| Segmentation.MarkSentenceEndings | hasami/segmentation.py:15-19 | `mark_sentence_endings`: its length grows by at most one per character. `MarkSentenceEndingsSeparators` proves it equal to the reference `WithSeparators`, and `MarkErases` states its content for separator-free text. |
| Segmentation.MarkFromSeparators | hasami/segmentation.py:11-19 | The scan from any position equals the reference `WithSeparators`. |
| Segmentation.MarkSentenceEndingsSeparators | hasami/segmentation.py:11-19 | `mark_sentence_endings` puts one separator right after every maximal run of 。！？ and nowhere else. |
| Segmentation.WithSeparatorsErases | hasami/segmentation.py:19 | The reference only inserts separators. |
| Segmentation.MarkErases | hasami/segmentation.py:19 | For text without separators, deleting every separator from the marked text gives the text back. |
| Segmentation.EnclosedSpans | hasami/segmentation.py:8-30 | The enclosure matches are well-formed. |
| Segmentation.RemoveEnclosedSentenceEndings | hasami/segmentation.py:30 | Deletes separators only inside enclosure spans; every other character keeps its order (the reference `Kept`). |
| Segmentation.EnclosedSpansAvoidNewline | hasami/segmentation.py:8-9 | No enclosure span holds a '\n'. |
| Segmentation.RemoveEnclosedErases | hasami/segmentation.py:30 | Only separators are deleted. |
| Segmentation.MarkedText | hasami/segmentation.py:34 | The marked text with enclosed separators removed. `MarkedTextErases` states its meaning. |
| Segmentation.MarkedTextErases | hasami/segmentation.py:34 | For separator-free text, the two passes together only insert separators. |
| Segmentation.SegmentSentences | hasami/segmentation.py:33-35 | At least one sentence, none holding a separator. |
| Segmentation.SegmentConcat | hasami/segmentation.py:19-35 | For separator-free text, the sentences concatenated give the text back. |
| Segmentation.SegmentEmpty | hasami/segmentation.py:35 | The empty text is one empty sentence. |
| Segmentation.SegmentLastEmpty | hasami/segmentation.py:35 | For separator-free text, the last sentence is empty exactly when the text is empty. |

## Left out

- hasami/cli.py: reading files or stdin and printing. I/O is outside the model.
- setup.py: packaging metadata, no logic.
- hasami/__init__.py: the module functions that delegate to `DEFAULT_INSTANCE` are not modelled separately. The default instance is `Hasami.Hasami.Default`.
- User exception patterns: arbitrary Python regular expressions are not modelled. A user exception is a `SpanFinder`, any function that returns the in-order, non-overlapping, in-bounds match spans of a text. `re.compile` of a bad pattern, which raises before the marker check (hasami/hasami.py:33), is not modelled.
- `re.escape` and the building of pattern strings (hasami/hasami.py:40, 48): the model describes the matching behaviour directly, with markers and enclosure characters taken literally.
- Python's Unicode tables: whitespace is a fixed `IsSpace` set (the code points `str.isspace` accepts). Line breaks are the fixed `splitlines` set.
- Hasami.MarkSentenceEndingsBreaks: the characterisation by `WithBreaks` assumes '\n' is not itself a marker. The scan itself (`MarkFrom` with `Backtrack`, and `MarkerMatchLongest`) also follows the code when '\n' is a marker.
- Hasami.MarkFromBreaks: assumes '\n' is not a marker, as `MarkSentenceEndingsBreaks` does.
- Hasami.StepAgrees: assumes '\n' is not a marker, as `MarkSentenceEndingsBreaks` does.
- Hasami.RunHasNoBreak: assumes '\n' is not a marker, as `MarkSentenceEndingsBreaks` does.
- Hasami.AlreadyBroken: assumes '\n' is not a marker, as `MarkSentenceEndingsBreaks` does.
- Idempotence of `insert_newlines`: not claimed, because the code does not have it (`Hasami.InsertTwiceDiffersDefault` and `Hasami.InsertTwiceDiffers` prove the counterexample).
- The overlap and nested-enclosure examples are stated at the `insert_newlines` level with a two-pair configuration. That level says where the '\n's go, which fixes the lines `splitlines` returns.
