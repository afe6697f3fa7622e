/**
 * hasami/segmentation.py: the older segmenter. Every maximal run of
 * sentence-ending marks is followed by a record separator; separators inside
 * enclosures (matched without DOTALL) are deleted again; the text is split at
 * the separators that are left.
 */
module Segmentation {
  import opened Wrappers
  import opened StrOps
  import opened Util
  import opened Spans
  import opened Enclosures

  /** `SENTENCE_SEPARATOR`: `chr(30)`, the record separator. */
  const Separator: char := '\U{1E}'

  /** The characters of the marker class `[。！？]`. */
  const SentenceEndings: string := "。！？"

  /** `ENCLOSURES`: three pairs, written flat. */
  const EnclosureChars: string := "「」『』（）"

  /** The pairs `make_enclosure_definitions` makes of `ENCLOSURES`, in order. */
  const EnclosurePairs: seq<Pair> := Pairs(EnclosureChars)

  /** The enclosure pairs are 「」, 『』 and （）, none of them using '\n'. */
  lemma {:induction false} EnclosureDefinitions()
    ensures MakeEnclosureDefinitions(EnclosureChars) == Success(EnclosurePairs)
    ensures EnclosurePairs == [Pair('「', '」'), Pair('『', '』'), Pair('（', '）')]
    ensures forall k :: 0 <= k < |EnclosurePairs| ==> EnclosurePairs[k].open != '\n' && EnclosurePairs[k].close != '\n'
  {
    var ps := Pairs(EnclosureChars);
    assert |ps| == 3;
    assert ps[0] == Pair('「', '」') && ps[1] == Pair('『', '』') && ps[2] == Pair('（', '）');
    assert ps == [Pair('「', '」'), Pair('『', '』'), Pair('（', '）')];
  }

  // ---------------------------------------------------------------------
  // mark_sentence_endings: re.sub('([。！？]+)', r'\1' + SEP, text)
  // ---------------------------------------------------------------------

  /**
   * The substitution from `pos` on: a maximal run of marks is copied and
   * followed by the separator, and the scan resumes after it; any other
   * character is copied.
   */
  function MarkFrom(text: string, pos: nat): (r: string)
    requires pos <= |text|
    ensures |text| - pos <= |r| <= 2 * (|text| - pos)
    decreases |text| - pos
  {
    if pos == |text| then []
    else
      var j := RunEnd(SentenceEndings, text, pos);
      if j > pos then text[pos..j] + [Separator] + MarkFrom(text, j)
      else [text[pos]] + MarkFrom(text, pos + 1)
  }

  /** `mark_sentence_endings` (hasami/segmentation.py:15-19). */
  function MarkSentenceEndings(text: string): (r: string)
    ensures |text| <= |r| <= 2 * |text|
  {
    MarkFrom(text, 0)
  }

  /** A maximal run of marks ends at `e`: `text[e - 1]` is a mark and `text[e]` is none. */
  predicate EndsRunAt(text: string, e: nat) {
    0 < e <= |text| && text[e - 1] in SentenceEndings && (e == |text| || text[e] !in SentenceEndings)
  }

  /** The reference: every character of `text[k..]`, a separator right after each maximal run of marks and nowhere else. */
  function WithSeparators(text: string, k: nat): string
    requires k <= |text|
    decreases |text| - k
  {
    if k == |text| then []
    else [text[k]] + (if EndsRunAt(text, k + 1) then [Separator] else []) + WithSeparators(text, k + 1)
  }

  /** The scan is the reference: one separator after every maximal run of marks, and nowhere else. */
  lemma {:induction false} MarkFromSeparators(text: string, pos: nat)
    requires pos <= |text|
    ensures MarkFrom(text, pos) == WithSeparators(text, pos)
    decreases |text| - pos
  {
    if pos < |text| {
      var j := RunEnd(SentenceEndings, text, pos);
      if j > pos {
        MarkFromSeparators(text, j);
        RunStep(text, pos, j);
      } else {
        MarkFromSeparators(text, pos + 1);
        PlainStep(text, pos);
      }
    }
  }

  /** A scan step over a run of marks `[pos, j)` agrees with the reference when the rest does. */
  lemma {:induction false} RunStep(text: string, pos: nat, j: nat)
    requires pos <= |text| && pos < j == RunEnd(SentenceEndings, text, pos)
    requires MarkFrom(text, j) == WithSeparators(text, j)
    ensures MarkFrom(text, pos) == WithSeparators(text, pos)
  {
    calc {
      MarkFrom(text, pos);
    ==
      text[pos..j] + [Separator] + MarkFrom(text, j);
    ==
      text[pos..j] + [Separator] + WithSeparators(text, j);
    == { RunEndsRun(text, pos, j); RunUnroll(text, pos, j); }
      WithSeparators(text, pos);
    }
  }

  /** A scan step over a character that is no mark agrees with the reference when the rest does. */
  lemma {:induction false} PlainStep(text: string, pos: nat)
    requires pos < |text| && text[pos] !in SentenceEndings
    requires MarkFrom(text, pos + 1) == WithSeparators(text, pos + 1)
    ensures MarkFrom(text, pos) == WithSeparators(text, pos)
  {
    calc {
      MarkFrom(text, pos);
    == { assert RunEnd(SentenceEndings, text, pos) == pos; }
      [text[pos]] + MarkFrom(text, pos + 1);
    ==
      [text[pos]] + WithSeparators(text, pos + 1);
    == { assert !EndsRunAt(text, pos + 1); assert [text[pos]] + [] == [text[pos]]; }
      WithSeparators(text, pos);
    }
  }

  /** The greedy run from `pos` to `j` is a maximal run of marks that ends at `j`. */
  lemma {:induction false} RunEndsRun(text: string, pos: nat, j: nat)
    requires pos <= |text| && pos < j == RunEnd(SentenceEndings, text, pos)
    ensures EndsRunAt(text, j) && forall k :: pos <= k < j ==> text[k] in SentenceEndings
  {
  }

  /** Inside a run of marks `[a, b)` the reference copies the run whole. */
  lemma {:induction false} RunUnroll(text: string, a: nat, b: nat)
    requires a < b <= |text| && forall k :: a <= k < b ==> text[k] in SentenceEndings
    ensures WithSeparators(text, a)
            == text[a..b] + (if EndsRunAt(text, b) then [Separator] else []) + WithSeparators(text, b)
    decreases b - a
  {
    var sep := if EndsRunAt(text, b) then [Separator] else [];
    if a + 1 == b {
      assert text[a..b] == [text[a]];
    } else {
      var x, mid, rest := [text[a]], text[a + 1..b], WithSeparators(text, b);
      calc {
        WithSeparators(text, a);
      == { assert text[a + 1] in SentenceEndings; assert x + [] == x; }
        x + WithSeparators(text, a + 1);
      == { RunUnroll(text, a + 1, b); }
        x + (mid + sep + rest);
      ==
        (x + mid) + sep + rest;
      == { assert text[a..b] == x + mid; }
        text[a..b] + sep + rest;
      }
    }
  }

  /** `mark_sentence_endings` over a whole text is the reference. */
  lemma {:induction false} MarkSentenceEndingsSeparators(text: string)
    ensures MarkSentenceEndings(text) == WithSeparators(text, 0)
  {
    MarkFromSeparators(text, 0);
  }

  /** The marker pass only inserts separators: deleting them gives back what it was given, less its own separators. */
  lemma {:induction false} WithSeparatorsErases(text: string, k: nat)
    requires k <= |text|
    ensures RemoveAll(WithSeparators(text, k), Separator) == RemoveAll(text[k..], Separator)
    decreases |text| - k
  {
    if k < |text| {
      var x, sep, rest := [text[k]], if EndsRunAt(text, k + 1) then [Separator] else [], WithSeparators(text, k + 1);
      calc {
        RemoveAll(WithSeparators(text, k), Separator);
      ==
        RemoveAll(x + sep + rest, Separator);
      == { RemoveAllAppend(x + sep, rest, Separator); }
        RemoveAll(x + sep, Separator) + RemoveAll(rest, Separator);
      == { DropSeparator(x, sep); WithSeparatorsErases(text, k + 1); }
        RemoveAll(x, Separator) + RemoveAll(text[k + 1..], Separator);
      == { RemoveAllAppend(x, text[k + 1..], Separator); assert text[k..] == x + text[k + 1..]; }
        RemoveAll(text[k..], Separator);
      }
    }
  }

  /** An inserted separator, or nothing, vanishes when every separator is deleted. */
  lemma {:induction false} DropSeparator(x: string, sep: string)
    requires sep == [Separator] || sep == []
    ensures RemoveAll(x + sep, Separator) == RemoveAll(x, Separator)
  {
    if sep == [] {
      assert x + sep == x;
    } else {
      RemoveAllAppend(x, sep, Separator);
      assert RemoveAll(sep, Separator) == [] by {
        assert sep[1..] == [];
      }
      assert RemoveAll(x, Separator) + [] == RemoveAll(x, Separator);
    }
  }

  /** For text without separators, deleting every separator from `mark_sentence_endings(t)` gives back `t`. */
  lemma {:induction false} MarkErases(text: string)
    requires Separator !in text
    ensures RemoveAll(MarkSentenceEndings(text), Separator) == text
  {
    MarkSentenceEndingsSeparators(text);
    WithSeparatorsErases(text, 0);
    assert text[0..] == text;
    RemoveAllAbsent(text, Separator);
  }

  // ---------------------------------------------------------------------
  // remove_enclosed_sentence_endings: ENCLOSURE_PATTERN.sub(lambda m: ..., text)
  // ---------------------------------------------------------------------

  /** The enclosure matches of `ENCLOSURE_PATTERN`, whose dot does not match '\n'. */
  function EnclosedSpans(text: string): (r: seq<Span>)
    ensures WellFormed(r, 0, |text|)
  {
    EnclosureSpans(EnclosurePairs, text, 0, false)
  }

  /**
   * `remove_enclosed_sentence_endings`: the separators inside enclosure
   * matches deleted; everything else kept, in order.
   */
  function RemoveEnclosedSentenceEndings(text: string): (r: string)
    ensures r == Kept(text, EnclosedSpans(text), Separator, 0)
  {
    DeleteWithin(text, EnclosedSpans(text), Separator, 0)
  }

  /** No enclosure match holds a '\n': an opener whose closer lies beyond a '\n' opens no match. */
  lemma {:induction false} EnclosedSpansAvoidNewline(text: string)
    ensures var r := EnclosedSpans(text);
            forall i :: 0 <= i < |r| ==> '\n' !in text[r[i].start..r[i].end]
  {
    assert EnclosurePairs != [] && forall k :: 0 <= k < |EnclosurePairs| ==>
             EnclosurePairs[k].open != '\n' && EnclosurePairs[k].close != '\n' by {
      EnclosureDefinitions();
    }
    SpansAvoidNewline(EnclosurePairs, text, 0);
    assert EnclosedSpans(text) == EnclosureSpans(EnclosurePairs, text, 0, false);
  }

  /** `remove_enclosed_sentence_endings` deletes nothing but separators. */
  lemma {:induction false} RemoveEnclosedErases(text: string)
    ensures RemoveAll(RemoveEnclosedSentenceEndings(text), Separator) == RemoveAll(text, Separator)
  {
    KeptErases(text, EnclosedSpans(text), Separator, 0);
    assert text[0..] == text;
  }

  // ---------------------------------------------------------------------
  // segment_sentences
  // ---------------------------------------------------------------------

  /** The marked text with the enclosed separators removed, before it is split (hasami/segmentation.py:34). */
  function MarkedText(text: string): string {
    RemoveEnclosedSentenceEndings(MarkSentenceEndings(text))
  }

  /**
   * `segment_sentences`: trailing separators stripped, then split at the
   * rest; always at least one sentence, none holding a separator.
   */
  function SegmentSentences(text: string): (r: seq<string>)
    ensures |r| >= 1 && forall k :: 0 <= k < |r| ==> Separator !in r[k]
  {
    Split(RStripChar(MarkedText(text), Separator), Separator)
  }

  /** The passes before the split delete nothing but separators. */
  lemma {:induction false} MarkedTextErases(text: string)
    requires Separator !in text
    ensures RemoveAll(MarkedText(text), Separator) == text
  {
    RemoveEnclosedErases(MarkSentenceEndings(text));
    MarkErases(text);
  }

  /** For text without separators, the sentences concatenated give the text back. */
  lemma {:induction false} SegmentConcat(text: string)
    requires Separator !in text
    ensures Concat(SegmentSentences(text)) == text
  {
    var s := RStripChar(MarkedText(text), Separator);
    calc {
      Concat(SegmentSentences(text));
    ==
      Concat(Split(s, Separator));
    == { ConcatSplit(s, Separator); }
      RemoveAll(s, Separator);
    == { RemoveAllRStrip(MarkedText(text), Separator); }
      RemoveAll(MarkedText(text), Separator);
    == { MarkedTextErases(text); }
      text;
    }
  }

  /** The empty text is one empty sentence. */
  lemma {:induction false} SegmentEmpty()
    ensures SegmentSentences("") == [""]
  {
    assert MarkSentenceEndings("") == "";
    assert MarkedText("") == "";
    assert RStripChar("", Separator) == "";
  }

  /**
   * Trailing separators are dropped, so for text without separators the last
   * sentence is empty exactly when the text is.
   */
  lemma {:induction false} SegmentLastEmpty(text: string)
    requires Separator !in text
    ensures var r := SegmentSentences(text); r[|r| - 1] == [] <==> text == []
  {
    if text == [] {
      SegmentEmpty();
    } else {
      var s := RStripChar(MarkedText(text), Separator);
      assert RemoveAll(s, Separator) == text by {
        RemoveAllRStrip(MarkedText(text), Separator);
        MarkedTextErases(text);
      }
      assert s != [];
      SplitLastNonEmpty(s, Separator);
    }
  }
}
