/**
 * hasami/hasami.py: the configurable sentence segmenter. A marker pass puts
 * a '\n' after sentence endings; a pipeline of suppression stages (the user's
 * exceptions, then the enclosures) deletes the '\n's inside their matches; the
 * result is split into lines.
 */
module Hasami {
  import opened Wrappers
  import opened StrOps
  import opened Util
  import opened Spans
  import opened Enclosures

  /** The markers used when none are given. */
  const DefaultSentenceEndingMarkers: string := "。！？!?‼⁈⁈⁇"

  /** The enclosure pairs used when none are given, as a flat string. */
  const DefaultEnclosures: string := "〝〟「」『』（）〔〕［］｛｝｟｠〈〉《》【】〖〗〘〙〚〛‹›«»''\"\"()[]{}｢｣"

  // ---------------------------------------------------------------------
  // The marker pass: re.sub('([markers]+(?!\n))', r'\1\n', text)
  // ---------------------------------------------------------------------

  /** The lookahead `(?!\n)` holds at `e`: the text ends there or goes on with something other than '\n'. */
  predicate NotBeforeNewline(text: string, e: nat)
    requires e <= |text|
  {
    e == |text| || text[e] != '\n'
  }

  /**
   * Backtracking of the greedy `[markers]+` out of the run `[i, e)`: the
   * longest end in `(i, e]` at which the lookahead holds, if there is one.
   */
  function Backtrack(text: string, i: nat, e: nat): (r: Option<nat>)
    requires i <= e <= |text|
    ensures r.Some? ==> i < r.value <= e && NotBeforeNewline(text, r.value)
                        && forall e' :: r.value < e' <= e ==> !NotBeforeNewline(text, e')
    ensures r.None? ==> forall e' :: i < e' <= e ==> !NotBeforeNewline(text, e')
    decreases e
  {
    if e <= i then None
    else if NotBeforeNewline(text, e) then Some(e)
    else Backtrack(text, i, e - 1)
  }

  /** The marker pattern tried at `i`: the end of its match, if it matches there. */
  function MarkerMatchAt(markers: string, text: string, i: nat): Option<nat>
    requires i <= |text|
  {
    Backtrack(text, i, RunEnd(markers, text, i))
  }

  /**
   * The match at `i` is the longest stretch of markers from `i` at whose end
   * the lookahead holds; there is none when no such stretch exists.
   */
  lemma {:induction false} MarkerMatchLongest(markers: string, text: string, i: nat)
    requires i <= |text|
    ensures var r := MarkerMatchAt(markers, text, i);
            r.Some? ==> i < r.value <= |text| && (forall k :: i <= k < r.value ==> text[k] in markers)
                        && NotBeforeNewline(text, r.value)
                        && forall e :: r.value < e <= |text| && (forall k :: i <= k < e ==> text[k] in markers)
                                       ==> !NotBeforeNewline(text, e)
    ensures var r := MarkerMatchAt(markers, text, i);
            r.None? ==> forall e :: i < e <= |text| && (forall k :: i <= k < e ==> text[k] in markers)
                                    ==> !NotBeforeNewline(text, e)
  {
  }

  /**
   * The marker substitution from `pos` on, as `re.sub` scans: a match is
   * copied followed by '\n' and the scan resumes at its end; elsewhere one
   * character is copied.
   */
  function MarkFrom(markers: string, text: string, pos: nat): string
    requires pos <= |text|
    decreases |text| - pos
  {
    if pos == |text| then []
    else match MarkerMatchAt(markers, text, pos)
      case Some(e) => text[pos..e] + "\n" + MarkFrom(markers, text, e)
      case None => [text[pos]] + MarkFrom(markers, text, pos + 1)
  }

  /** The marker pass over the whole text (hasami/hasami.py:40, 58). */
  function MarkSentenceEndings(markers: string, text: string): string {
    MarkFrom(markers, text, 0)
  }

  /** The marker pass only inserts '\n': deleting every '\n' from input and output gives the same string. */
  lemma {:induction false} MarkErases(markers: string, text: string, pos: nat)
    requires pos <= |text|
    ensures RemoveAll(MarkFrom(markers, text, pos), '\n') == RemoveAll(text[pos..], '\n')
    decreases |text| - pos
  {
    if pos < |text| {
      var m := MarkerMatchAt(markers, text, pos);
      var e := if m.Some? then m.value else pos + 1;
      var sep := if m.Some? then "\n" else "";
      calc {
        RemoveAll(MarkFrom(markers, text, pos), '\n');
      == { MarkFromStep(markers, text, pos); }
        RemoveAll(text[pos..e] + sep + MarkFrom(markers, text, e), '\n');
      == { MarkErases(markers, text, e); ErasesStep(text[pos..e], sep, MarkFrom(markers, text, e), text[e..]); }
        RemoveAll(text[pos..e] + text[e..], '\n');
      == { assert text[pos..] == text[pos..e] + text[e..]; }
        RemoveAll(text[pos..], '\n');
      }
    }
  }

  /** One step of the scan at `pos`: the match and a '\n', or one character, then the scan from where it resumes. */
  lemma {:induction false} MarkFromStep(markers: string, text: string, pos: nat)
    requires pos < |text|
    ensures var m := MarkerMatchAt(markers, text, pos);
            var e := if m.Some? then m.value else pos + 1;
            pos < e <= |text|
            && MarkFrom(markers, text, pos) == text[pos..e] + (if m.Some? then "\n" else "") + MarkFrom(markers, text, e)
  {
    if MarkerMatchAt(markers, text, pos).None? {
      assert text[pos..pos + 1] + "" == [text[pos]];
    }
  }

  /** One step of `MarkErases`: a copied piece, an inserted '\n' or nothing, and a rest that erases alike. */
  lemma {:induction false} ErasesStep(head: string, sep: string, rest: string, orig: string)
    requires sep == "\n" || sep == ""
    requires RemoveAll(rest, '\n') == RemoveAll(orig, '\n')
    ensures RemoveAll(head + sep + rest, '\n') == RemoveAll(head + orig, '\n')
  {
    calc {
      RemoveAll(head + sep + rest, '\n');
    == { RemoveAllAppend(head + sep, rest, '\n'); }
      RemoveAll(head + sep, '\n') + RemoveAll(rest, '\n');
    == { DropInserted(head, sep); }
      RemoveAll(head, '\n') + RemoveAll(rest, '\n');
    ==
      RemoveAll(head, '\n') + RemoveAll(orig, '\n');
    == { RemoveAllAppend(head, orig, '\n'); }
      RemoveAll(head + orig, '\n');
    }
  }

  /** An inserted '\n', or nothing, vanishes when every '\n' is deleted. */
  lemma {:induction false} DropInserted(head: string, sep: string)
    requires sep == "\n" || sep == ""
    ensures RemoveAll(head + sep, '\n') == RemoveAll(head, '\n')
  {
    if sep == "" {
      assert head + sep == head;
    } else {
      RemoveAllAppend(head, sep, '\n');
      assert RemoveAll(sep, '\n') == [] by {
        assert sep[0] == '\n' && sep[1..] == [];
      }
      assert RemoveAll(head, '\n') + [] == RemoveAll(head, '\n');
    }
  }

  /** Text holding no marker passes the marker pass unchanged. */
  lemma {:induction false} MarkNoMarkers(markers: string, text: string, pos: nat)
    requires pos <= |text| && forall k :: 0 <= k < |text| ==> text[k] !in markers
    ensures MarkFrom(markers, text, pos) == text[pos..]
    decreases |text| - pos
  {
    if pos < |text| {
      assert RunEnd(markers, text, pos) == pos;
      MarkNoMarkers(markers, text, pos + 1);
      assert text[pos..] == [text[pos]] + text[pos + 1..];
    }
  }

  /** A maximal run of markers ends at `e`: the text ends there or holds no marker there. */
  predicate EndsRun(markers: string, text: string, e: nat)
    requires e <= |text|
  {
    e == |text| || text[e] !in markers
  }

  /**
   * Where the marker pass puts a '\n', namely right after `text[e - 1]`:
   * after a maximal run of markers not followed by '\n' (the end of the text
   * included); and, because the greedy run backtracks to satisfy the
   * lookahead, before the last marker of a run of two or more followed by '\n'.
   */
  predicate IsBreak(markers: string, text: string, e: nat) {
    0 < e <= |text| && text[e - 1] in markers
    && ((EndsRun(markers, text, e) && NotBeforeNewline(text, e))
        || (e + 1 < |text| && text[e] in markers && text[e + 1] == '\n'))
  }

  /** The reference marker pass: every character of `text[k..]`, each followed by '\n' where `IsBreak` says so. */
  function WithBreaks(markers: string, text: string, k: nat): string
    requires k <= |text|
    decreases |text| - k
  {
    if k == |text| then []
    else [text[k]] + (if IsBreak(markers, text, k + 1) then "\n" else "") + WithBreaks(markers, text, k + 1)
  }

  /** A position the marker scan can stand at: not inside a run of markers, unless a match has just ended there. */
  predicate ScanPoint(markers: string, text: string, pos: nat)
    requires pos <= |text|
  {
    pos == 0 || pos == |text| || text[pos - 1] !in markers || text[pos] !in markers || IsBreak(markers, text, pos)
  }

  /** No break falls strictly inside `(a, b)`. */
  predicate NoBreakIn(markers: string, text: string, a: nat, b: nat)
    decreases b - a
  {
    a + 1 >= b || (!IsBreak(markers, text, a + 1) && NoBreakIn(markers, text, a + 1, b))
  }

  lemma {:induction false} NoBreakInIntro(markers: string, text: string, a: nat, b: nat)
    requires forall k :: a < k < b ==> !IsBreak(markers, text, k)
    ensures NoBreakIn(markers, text, a, b)
    decreases b - a
  {
    if a + 1 < b {
      NoBreakInIntro(markers, text, a + 1, b);
    }
  }

  /** Where no break falls strictly inside `(a, b)`, the reference copies `text[a..b]` whole. */
  lemma {:induction false} WithBreaksUnroll(markers: string, text: string, a: nat, b: nat)
    requires a < b <= |text| && NoBreakIn(markers, text, a, b)
    ensures WithBreaks(markers, text, a)
            == text[a..b] + (if IsBreak(markers, text, b) then "\n" else "") + WithBreaks(markers, text, b)
    decreases b - a
  {
    var sep := if IsBreak(markers, text, b) then "\n" else "";
    if a + 1 == b {
      assert text[a..b] == [text[a]];
    } else {
      var x, mid, rest := [text[a]], text[a + 1..b], WithBreaks(markers, text, b);
      calc {
        WithBreaks(markers, text, a);
      == { assert !IsBreak(markers, text, a + 1); assert x + "" == x; }
        x + WithBreaks(markers, text, a + 1);
      == { WithBreaksUnroll(markers, text, a + 1, b); }
        x + (mid + sep + rest);
      ==
        (x + mid) + sep + rest;
      == { assert text[a..b] == x + mid; }
        text[a..b] + sep + rest;
      }
    }
  }

  /**
   * The marker pass is the reference: with '\n' not itself a marker, it
   * inserts exactly one '\n' after each maximal run of markers not followed by
   * '\n', before the last marker of a longer run followed by '\n', and nowhere else.
   */
  lemma {:induction false} MarkFromBreaks(markers: string, text: string, pos: nat)
    requires '\n' !in markers
    requires pos <= |text| && ScanPoint(markers, text, pos)
    ensures MarkFrom(markers, text, pos) == WithBreaks(markers, text, pos)
    decreases |text| - pos
  {
    if pos < |text| {
      var m := MarkerMatchAt(markers, text, pos);
      var e := if m.Some? then m.value else pos + 1;
      var sep := if m.Some? then "\n" else "";
      calc {
        MarkFrom(markers, text, pos);
      == { MarkFromStep(markers, text, pos); }
        text[pos..e] + sep + MarkFrom(markers, text, e);
      == { StepAgrees(markers, text, pos); MarkFromBreaks(markers, text, e); }
        text[pos..e] + sep + WithBreaks(markers, text, e);
      == { StepAgrees(markers, text, pos); }
        WithBreaks(markers, text, pos);
      }
    }
  }

  /**
   * One step of the scan agrees with the reference: what the scan writes for
   * `text[pos..e]` is what the reference writes for it, and the scan goes on
   * from a position it can stand at.
   */
  lemma {:induction false} StepAgrees(markers: string, text: string, pos: nat)
    requires '\n' !in markers
    requires pos < |text| && ScanPoint(markers, text, pos)
    ensures var m := MarkerMatchAt(markers, text, pos);
            var e := if m.Some? then m.value else pos + 1;
            pos < e <= |text| && ScanPoint(markers, text, e)
            && WithBreaks(markers, text, pos)
               == text[pos..e] + (if m.Some? then "\n" else "") + WithBreaks(markers, text, e)
  {
    var j := RunEnd(markers, text, pos);
    if text[pos] !in markers {
      assert MarkerMatchAt(markers, text, pos).None?;
      assert text[pos..pos + 1] == [text[pos]];
    } else if NotBeforeNewline(text, j) {
      assert MarkerMatchAt(markers, text, pos) == Some(j);
      RunHasNoBreak(markers, text, pos, j, j);
      NoBreakInIntro(markers, text, pos, j);
      WithBreaksUnroll(markers, text, pos, j);
    } else if j - pos >= 2 {
      assert text[j - 1] in markers;
      assert Backtrack(text, pos, j) == Backtrack(text, pos, j - 1) == Some(j - 1);
      RunHasNoBreak(markers, text, pos, j, j - 1);
      NoBreakInIntro(markers, text, pos, j - 1);
      WithBreaksUnroll(markers, text, pos, j - 1);
    } else {
      assert MarkerMatchAt(markers, text, pos).None?;
      assert text[pos..pos + 1] == [text[pos]];
    }
  }

  /**
   * Inside a maximal run `[pos, j)` of markers that the scan matches up to `e`
   * there is no break before `e`, and there is one at `e`.
   */
  lemma {:induction false} RunHasNoBreak(markers: string, text: string, pos: nat, j: nat, e: nat)
    requires '\n' !in markers
    requires pos < |text| && text[pos] in markers && j == RunEnd(markers, text, pos)
    requires (e == j && NotBeforeNewline(text, j)) || (e == j - 1 && pos < e && !NotBeforeNewline(text, j))
    ensures IsBreak(markers, text, e)
    ensures forall k :: pos < k < e ==> !IsBreak(markers, text, k)
  {
    forall k | pos < k < e ensures !IsBreak(markers, text, k) {
      assert text[k] in markers;
      assert k + 1 < j ==> text[k + 1] in markers;
    }
    if e == j - 1 {
      assert text[e - 1] in markers && text[e] in markers;
    }
  }

  /** The marker pass over a whole text is the reference. */
  lemma {:induction false} MarkSentenceEndingsBreaks(markers: string, text: string)
    requires '\n' !in markers
    ensures MarkSentenceEndings(markers, text) == WithBreaks(markers, text, 0)
  {
    MarkFromBreaks(markers, text, 0);
  }

  /**
   * Already-broken text is marked the same way: a single marker followed by
   * a '\n' the text already has gets no further '\n', so the text marks as if
   * the '\n' were not there and the marker pass had put it.
   */
  lemma {:induction false} AlreadyBroken(markers: string, x: string, y: string)
    requires '\n' !in markers
    requires x != [] && x[|x| - 1] in markers && (|x| == 1 || x[|x| - 2] !in markers)
    requires y == [] || (y[0] !in markers && y[0] != '\n')
    ensures MarkSentenceEndings(markers, x + "\n" + y) == MarkSentenceEndings(markers, x + y)
  {
    assert WithBreaks(markers, x + "\n" + y, 0) == WithBreaks(markers, x + y, 0) by {
      BrokenTail(markers, x, y);
      BrokenJoinAgrees(markers, x, y);
      BrokenHead(markers, x, y);
    }
    MarkSentenceEndingsBreaks(markers, x + "\n" + y);
    MarkSentenceEndingsBreaks(markers, x + y);
  }

  /** After the '\n' of `x + "\n" + y`, the reference output is that of `x + y` after `x`. */
  lemma {:induction false} BrokenTail(markers: string, x: string, y: string)
    requires '\n' !in markers
    requires y == [] || y[0] !in markers
    ensures WithBreaks(markers, x + "\n" + y, |x| + 1) == WithBreaks(markers, x + y, |x|)
  {
    BrokenTailAgrees(markers, x, y);
    WithBreaksAgree(markers, x + "\n" + y, |x| + 1, x + y, |x|, |y|);
  }

  /** Before the last marker of `x`, the reference outputs agree once they agree from that marker on. */
  lemma {:induction false} BrokenHead(markers: string, x: string, y: string)
    requires x != [] && x[|x| - 1] in markers && (|x| == 1 || x[|x| - 2] !in markers)
    requires WithBreaks(markers, x + "\n" + y, |x| - 1) == WithBreaks(markers, x + y, |x| - 1)
    ensures WithBreaks(markers, x + "\n" + y, 0) == WithBreaks(markers, x + y, 0)
  {
    BrokenHeadAgrees(markers, x, y);
    WithBreaksAgree(markers, x + "\n" + y, 0, x + y, 0, |x| - 1);
  }

  /** At the last marker of `x`: the '\n' that `x + "\n" + y` has, and the one `x + y` is given. */
  lemma {:induction false} BrokenJoinAgrees(markers: string, x: string, y: string)
    requires '\n' !in markers
    requires x != [] && x[|x| - 1] in markers && (|x| == 1 || x[|x| - 2] !in markers)
    requires y == [] || (y[0] !in markers && y[0] != '\n')
    requires WithBreaks(markers, x + "\n" + y, |x| + 1) == WithBreaks(markers, x + y, |x|)
    ensures WithBreaks(markers, x + "\n" + y, |x| - 1) == WithBreaks(markers, x + y, |x| - 1)
  {
    var t1, t2, n := x + "\n" + y, x + y, |x|;
    assert !IsBreak(markers, t1, n) && !IsBreak(markers, t1, n + 1);
    assert IsBreak(markers, t2, n);
    assert t1[n - 1] == t2[n - 1] == x[n - 1];
    assert WithBreaks(markers, t1, n - 1) == [x[n - 1]] + "\n" + WithBreaks(markers, t1, n + 1);
    assert WithBreaks(markers, t2, n - 1) == [x[n - 1]] + "\n" + WithBreaks(markers, t2, n);
  }

  /** After the '\n' of `x + "\n" + y`: the characters and breaks of `x + y`, one position further on. */
  lemma {:induction false} BrokenTailAgrees(markers: string, x: string, y: string)
    requires '\n' !in markers
    requires y == [] || y[0] !in markers
    ensures var t1, t2, n := x + "\n" + y, x + y, |x|;
            (forall k :: n + 1 <= k < |t1| ==> t1[k] == t2[k - (n + 1) + n])
            && (forall k :: n + 1 < k <= |t1| ==> IsBreak(markers, t1, k) == IsBreak(markers, t2, k - (n + 1) + n))
  {
    var t1, t2, n := x + "\n" + y, x + y, |x|;
    forall k | n + 1 <= k < |t1| ensures t1[k] == t2[k - 1] {
      assert t1[k] == y[k - n - 1] == t2[k - 1];
    }
    forall k | n + 1 < k <= |t1| ensures IsBreak(markers, t1, k) == IsBreak(markers, t2, k - 1) {
      assert t1[k - 1] == y[k - n - 2] == t2[k - 2];
      if k < |t1| {
        assert t1[k] == y[k - n - 1] == t2[k - 1];
      }
      if k + 1 < |t1| {
        assert t1[k + 1] == y[k - n] == t2[k];
      }
    }
  }

  /** Before the last marker of `x`, `x + "\n" + y` and `x + y` agree in characters and breaks. */
  lemma {:induction false} BrokenHeadAgrees(markers: string, x: string, y: string)
    requires x != [] && x[|x| - 1] in markers && (|x| == 1 || x[|x| - 2] !in markers)
    ensures var t1, t2, n := x + "\n" + y, x + y, |x|;
            (forall k :: 0 <= k < n - 1 ==> t1[k] == t2[k])
            && (forall k :: 0 < k <= n - 1 ==> IsBreak(markers, t1, k) == IsBreak(markers, t2, k))
  {
    var t1, t2, n := x + "\n" + y, x + y, |x|;
    forall k | 0 < k <= n - 1 ensures IsBreak(markers, t1, k) == IsBreak(markers, t2, k) {
      assert t1[k - 1] == x[k - 1] == t2[k - 1];
      assert t1[k] == x[k] == t2[k];
      if k + 1 < n {
        assert t1[k + 1] == x[k + 1] == t2[k + 1];
      }
    }
  }

  /**
   * Two stretches with the same characters and the same breaks get the same
   * reference output when what follows them does.
   */
  lemma {:induction false} WithBreaksAgree(markers: string, t1: string, a1: nat, t2: string, a2: nat, len: nat)
    requires a1 + len <= |t1| && a2 + len <= |t2|
    requires forall k :: a1 <= k < a1 + len ==> t1[k] == t2[k - a1 + a2]
    requires forall k :: a1 < k <= a1 + len ==> IsBreak(markers, t1, k) == IsBreak(markers, t2, k - a1 + a2)
    requires WithBreaks(markers, t1, a1 + len) == WithBreaks(markers, t2, a2 + len)
    ensures WithBreaks(markers, t1, a1) == WithBreaks(markers, t2, a2)
    decreases len
  {
    if len > 0 {
      WithBreaksAgree(markers, t1, a1 + 1, t2, a2 + 1, len - 1);
      assert t1[a1] == t2[a2];
      assert IsBreak(markers, t1, a1 + 1) == IsBreak(markers, t2, a2 + 1);
    }
  }

  /**
   * The marker pass is not idempotent: for any markers that include '。',
   * a run of two is broken up on a second pass.
   */
  lemma {:induction false} MarkTwiceDiffers(markers: string)
    requires '。' in markers && '\n' !in markers
    ensures MarkSentenceEndings(markers, "。。") == "。。\n"
    ensures MarkSentenceEndings(markers, "。。\n") == "。\n。\n"
  {
    MarkSentenceEndingsBreaks(markers, "。。");
    MarkSentenceEndingsBreaks(markers, "。。\n");
  }

  // ---------------------------------------------------------------------
  // Suppression stages: re.sub(e, lambda m: m.group(0).replace('\n', ''), text)
  // ---------------------------------------------------------------------

  /** A pattern that never matches. */
  function NoMatches(t: string): seq<Span> { [] }

  /**
   * A compiled user exception, seen only through the matches its pattern
   * reports on a text: in order, not overlapping, inside the text.
   */
  type SpanFinder = f: string -> seq<Span> | forall t :: WellFormed(f(t), 0, |t|) witness NoMatches

  /** One entry of the exception list: a user pattern, or the enclosure pattern appended last. */
  datatype Stage = UserException(find: SpanFinder) | EnclosureStage(pairs: seq<Pair>)

  /** The matches a stage's pattern has on `text`; the enclosure pattern runs with DOTALL. */
  function StageSpans(stage: Stage, text: string): (r: seq<Span>)
    ensures WellFormed(r, 0, |text|)
  {
    match stage
    case UserException(find) => find(text)
    case EnclosureStage(pairs) => EnclosureSpans(pairs, text, 0, true)
  }

  /** One stage: every '\n' inside one of its matches is deleted, and nothing else changes. */
  function ApplyStage(stage: Stage, text: string): (r: string)
    ensures r == Kept(text, StageSpans(stage, text), '\n', 0)
  {
    DeleteWithin(text, StageSpans(stage, text), '\n', 0)
  }

  /** The stages run in list order, each on the output of the one before. */
  function ApplyStages(stages: seq<Stage>, text: string): string
    decreases |stages|
  {
    if stages == [] then text
    else ApplyStage(stages[|stages| - 1], ApplyStages(stages[..|stages| - 1], text))
  }

  /** Running `a` and then `b` is running `a + b`: the first stage sees the marked text, the next its output. */
  lemma {:induction false} ApplyStagesAppend(a: seq<Stage>, b: seq<Stage>, text: string)
    ensures ApplyStages(a + b, text) == ApplyStages(b, ApplyStages(a, text))
    decreases |b|
  {
    if b == [] {
      assert a + b == a;
    } else {
      var ab, front := a + b, b[..|b| - 1];
      assert ApplyStages(ab, text) == ApplyStage(ab[|ab| - 1], ApplyStages(ab[..|ab| - 1], text));
      assert ab[..|ab| - 1] == a + front;
      assert ab[|ab| - 1] == b[|b| - 1];
      ApplyStagesAppend(a, front, text);
    }
  }

  /** The stages delete nothing but '\n'. */
  lemma {:induction false} ApplyStagesErase(stages: seq<Stage>, text: string)
    ensures RemoveAll(ApplyStages(stages, text), '\n') == RemoveAll(text, '\n')
    decreases |stages|
  {
    if stages != [] {
      var before := ApplyStages(stages[..|stages| - 1], text);
      ApplyStagesErase(stages[..|stages| - 1], text);
      KeptErases(before, StageSpans(stages[|stages| - 1], before), '\n', 0);
      assert before[0..] == before;
    }
  }

  /** Text without '\n' passes every stage unchanged. */
  lemma {:induction false} ApplyStagesAbsent(stages: seq<Stage>, text: string)
    requires '\n' !in text
    ensures ApplyStages(stages, text) == text
    decreases |stages|
  {
    if stages != [] {
      ApplyStagesAbsent(stages[..|stages| - 1], text);
      assert text[0..] == text;
      KeptAbsent(text, StageSpans(stages[|stages| - 1], text), '\n', 0);
    }
  }

  /** Over a text whose only '\n' is its last character, a stage at most deletes that '\n'. */
  lemma {:induction false} KeptFinalBreak(t: string, spans: seq<Span>, pos: nat)
    requires pos <= |t| && '\n' !in t
    ensures Kept(t + "\n", spans, '\n', pos) == t[pos..] + (if InSpan(spans, |t|) then "" else "\n")
    decreases |t| - pos
  {
    var s := t + "\n";
    if pos < |t| {
      assert s[pos] == t[pos] && t[pos] in t;
      KeptFinalBreak(t, spans, pos + 1);
      assert t[pos..] == [t[pos]] + t[pos + 1..];
    } else {
      assert s[pos] == '\n';
    }
  }

  /** The stages turn `t + "\n"`, for `t` without '\n', into `t + "\n"` or `t`. */
  lemma {:induction false} ApplyStagesFinalBreak(stages: seq<Stage>, t: string)
    requires '\n' !in t
    ensures ApplyStages(stages, t + "\n") == t + "\n" || ApplyStages(stages, t + "\n") == t
    decreases |stages|
  {
    if stages != [] {
      var before := ApplyStages(stages[..|stages| - 1], t + "\n");
      var last := stages[|stages| - 1];
      assert ApplyStages(stages, t + "\n") == ApplyStage(last, before);
      ApplyStagesFinalBreak(stages[..|stages| - 1], t);
      assert t[0..] == t;
      if before == t {
        KeptAbsent(t, StageSpans(last, t), '\n', 0);
        assert ApplyStage(last, before) == t;
      } else {
        var spans := StageSpans(last, before);
        KeptFinalBreak(t, spans, 0);
        assert ApplyStage(last, before) == t + (if InSpan(spans, |t|) then "" else "\n");
      }
    }
  }

  // ---------------------------------------------------------------------
  // Configuration (Hasami.__init__)
  // ---------------------------------------------------------------------

  /** What a constructed segmenter holds: its markers and its exception list, enclosures last. */
  datatype Config = Config(sentenceEndingMarkers: string, exceptions: seq<Stage>)

  /** A configuration the constructor can produce. */
  predicate ValidConfig(c: Config) {
    c.sentenceEndingMarkers != [] && |c.exceptions| >= 1
    && c.exceptions[|c.exceptions| - 1].EnclosureStage?
    && forall i :: 0 <= i < |c.exceptions| - 1 ==> c.exceptions[i].UserException?
  }

  /** The user's patterns as stages, in the order given. */
  function UserStages(userExceptions: seq<SpanFinder>): (r: seq<Stage>)
    ensures |r| == |userExceptions|
    ensures forall i :: 0 <= i < |r| ==> r[i] == UserException(userExceptions[i])
  {
    seq(|userExceptions|, i requires 0 <= i < |userExceptions| => UserException(userExceptions[i]))
  }

  /**
   * The constructor's checks and the configuration it builds: empty markers
   * are refused first, then an odd enclosure string; otherwise the exception
   * list is the user's patterns in order with the enclosure pattern appended.
   */
  function Configure(markers: string, enclosures: string, userExceptions: seq<SpanFinder>)
    : (r: Result<Config, ConfigError>)
    ensures r.Failure? <==> markers == [] || |enclosures| % 2 != 0
    ensures r.Failure? ==> (r.error == EmptyMarkers <==> markers == [])
    ensures r.Success? ==> ValidConfig(r.value) && r.value.sentenceEndingMarkers == markers
                           && |r.value.exceptions| == |userExceptions| + 1
                           && (forall i :: 0 <= i < |userExceptions| ==> r.value.exceptions[i] == UserException(userExceptions[i]))
                           && Flatten(r.value.exceptions[|userExceptions|].pairs) == enclosures
  {
    if markers == [] then Failure(EmptyMarkers)
    else match MakeEnclosureDefinitions(enclosures)
      case Failure(e) => Failure(e)
      case Success(pairs) =>
        FlattenDefinitions(enclosures);
        Success(Config(markers, UserStages(userExceptions) + [EnclosureStage(pairs)]))
  }

  /** The configuration of the module-level default instance. */
  function DefaultConfig(): (c: Config)
    ensures ValidConfig(c) && c.sentenceEndingMarkers == DefaultSentenceEndingMarkers
    ensures c.exceptions == [EnclosureStage(MakeEnclosureDefinitions(DefaultEnclosures).value)]
  {
    var r := Configure(DefaultSentenceEndingMarkers, DefaultEnclosures, []);
    assert r.Success?;
    r.value
  }

  // ---------------------------------------------------------------------
  // insert_newlines and segment_sentences
  // ---------------------------------------------------------------------

  /** `insert_newlines`: the marker pass, then every exception stage in list order. */
  function InsertedNewlines(c: Config, text: string): string {
    ApplyStages(c.exceptions, MarkSentenceEndings(c.sentenceEndingMarkers, text))
  }

  /** The strip of each line, in order. */
  function StripAll(lines: seq<string>): (r: seq<string>)
    ensures |r| == |lines| && forall i :: 0 <= i < |r| ==> r[i] == Strip(lines[i])
  {
    seq(|lines|, i requires 0 <= i < |lines| => Strip(lines[i]))
  }

  /**
   * `segment_sentences`: strip the input if asked; a text that is then
   * empty is one empty sentence; otherwise the lines of its
   * `insert_newlines`, each stripped if asked.
   */
  function Segmented(c: Config, text: string, stripWhitespace: bool): seq<string> {
    var t := if stripWhitespace then Strip(text) else text;
    if t == [] then [""]
    else
      var lines := SplitLines(InsertedNewlines(c, t));
      if stripWhitespace then StripAll(lines) else lines
  }

  /** `insert_newlines` only inserts or deletes '\n': deleting every '\n' before and after gives the same string. */
  lemma {:induction false} InsertErases(c: Config, text: string)
    ensures RemoveAll(InsertedNewlines(c, text), '\n') == RemoveAll(text, '\n')
  {
    var marked := MarkSentenceEndings(c.sentenceEndingMarkers, text);
    ApplyStagesErase(c.exceptions, marked);
    MarkErases(c.sentenceEndingMarkers, text, 0);
    assert text[0..] == text;
  }

  /**
   * The order of the exception list: the user's patterns run first, in the
   * order given, on the marked text, and the enclosure stage runs last on
   * what they leave, deleting exactly the '\n's inside its spans.
   */
  lemma {:induction false} StageOrder(markers: string, enclosures: string, userExceptions: seq<SpanFinder>, text: string)
    requires Configure(markers, enclosures, userExceptions).Success?
    ensures var c := Configure(markers, enclosures, userExceptions).value;
            var afterUser := ApplyStages(UserStages(userExceptions), MarkSentenceEndings(markers, text));
            var pairs := MakeEnclosureDefinitions(enclosures).value;
            InsertedNewlines(c, text)
            == Kept(afterUser, EnclosureSpans(pairs, afterUser, 0, true), '\n', 0)
  {
    var c := Configure(markers, enclosures, userExceptions).value;
    var pairs := MakeEnclosureDefinitions(enclosures).value;
    ApplyStagesAppend(UserStages(userExceptions), [EnclosureStage(pairs)], MarkSentenceEndings(markers, text));
    assert [EnclosureStage(pairs)][..0] == [];
  }

  /**
   * With stripping: never an empty list, a blank input is one empty
   * sentence, and no sentence has surrounding whitespace or a line break.
   */
  lemma {:induction false} SegmentStripped(c: Config, text: string)
    ensures var r := Segmented(c, text, true);
            r != []
            && ((forall k :: 0 <= k < |text| ==> IsSpace(text[k])) ==> r == [""])
            && forall i :: 0 <= i < |r| ==> NoSurroundingSpace(r[i]) && NoLineBreak(r[i])
  {
    var t := Strip(text);
    assert ((forall k :: 0 <= k < |text| ==> IsSpace(text[k])) ==> t == []) by {
      StripEmpty(text);
    }
    if t != [] {
      var lines := SplitLines(InsertedNewlines(c, t));
      assert lines != [] by {
        InsertedNotEmpty(c, t);
      }
      forall i | 0 <= i < |lines| ensures NoLineBreak(Strip(lines[i])) {
        StripNoLineBreak(lines[i]);
      }
    }
  }

  /** Text with a character other than '\n' keeps one after `insert_newlines`. */
  lemma {:induction false} InsertedNotEmpty(c: Config, t: string)
    requires t != [] && t[0] != '\n'
    ensures InsertedNewlines(c, t) != []
  {
    var ins := InsertedNewlines(c, t);
    InsertErases(c, t);
    assert RemoveAll(t, '\n') != [] by {
      assert t == [t[0]] + t[1..];
      RemoveAllAppend([t[0]], t[1..], '\n');
    }
  }

  /**
   * Without stripping: no sentence holds a line break; input with some
   * character other than '\n' gives at least one sentence; and input
   * without line breaks is given back whole by concatenating the sentences.
   */
  lemma {:induction false} SegmentKept(c: Config, text: string)
    ensures var r := Segmented(c, text, false);
            (forall i :: 0 <= i < |r| ==> NoLineBreak(r[i]))
            && (RemoveAll(text, '\n') != [] ==> r != [])
            && (NoLineBreak(text) ==> Concat(r) == text)
  {
    if text != [] {
      var ins := InsertedNewlines(c, text);
      InsertErases(c, text);
      if NoLineBreak(text) {
        assert '\n' !in text by {
          assert forall k :: 0 <= k < |text| ==> text[k] != '\n';
        }
        RemoveAllAbsent(text, '\n');
        RemoveLineBreaksOfNewlines(ins);
        ConcatSplitLines(ins);
      }
    }
  }

  /** The marker pass over markers-free text `x` followed by a run of markers: one '\n' after the run, if any. */
  lemma {:induction false} MarkFinalRun(markers: string, x: string, run: string, pos: nat)
    requires pos <= |x| && (forall k :: 0 <= k < |x| ==> x[k] !in markers)
    requires forall k :: 0 <= k < |run| ==> run[k] in markers
    ensures MarkFrom(markers, x + run, pos) == (x + run)[pos..] + (if run == [] then "" else "\n")
    decreases |x| - pos
  {
    var t := x + run;
    if pos < |x| {
      assert t[pos] == x[pos];
      assert RunEnd(markers, t, pos) == pos;
      MarkFinalRun(markers, x, run, pos + 1);
      assert t[pos..] == [t[pos]] + t[pos + 1..];
    } else if run != [] {
      assert forall k :: |x| <= k < |t| ==> t[k] == run[k - |x|];
      assert RunEnd(markers, t, pos) == |t|;
      assert MarkerMatchAt(markers, t, pos) == Some(|t|);
    }
  }

  /**
   * A single sentence comes back as it is: text without line breaks whose
   * markers all stand in one run at its end, with or without stripping
   * (for stripping, with no surrounding whitespace).
   */
  lemma {:induction false} SingleSentence(c: Config, x: string, run: string)
    requires x + run != [] && NoLineBreak(x + run)
    requires forall k :: 0 <= k < |x| ==> x[k] !in c.sentenceEndingMarkers
    requires forall k :: 0 <= k < |run| ==> run[k] in c.sentenceEndingMarkers
    ensures Segmented(c, x + run, false) == [x + run]
    ensures NoSurroundingSpace(x + run) ==> Segmented(c, x + run, true) == [x + run]
  {
    var t := x + run;
    var ins := InsertedNewlines(c, t);
    assert '\n' !in t by {
      assert forall k :: 0 <= k < |t| ==> t[k] != '\n';
    }
    var marked := MarkSentenceEndings(c.sentenceEndingMarkers, t);
    assert marked == t + (if run == [] then "" else "\n") by {
      MarkFinalRun(c.sentenceEndingMarkers, x, run, 0);
      assert t[0..] == t;
    }
    assert ins == t || ins == t + "\n" by {
      if run == [] {
        assert marked == t;
        ApplyStagesAbsent(c.exceptions, t);
      } else {
        ApplyStagesFinalBreak(c.exceptions, t);
      }
    }
    assert SplitLines(ins) == [t] by {
      SplitLinesSingle(t);
    }
    assert Segmented(c, t, false) == [t];
    if NoSurroundingSpace(t) {
      StripNothing(t);
      assert Segmented(c, t, true) == StripAll([t]);
    }
  }

  /**
   * `insert_newlines` is not idempotent: with '。' among the markers and
   * only an enclosure stage whose openers are neither '。' nor '\n',
   * '。。' becomes '。。\n', and inserting again gives '。\n。\n'.
   */
  lemma {:induction false} InsertTwiceDiffers(c: Config)
    requires '。' in c.sentenceEndingMarkers && '\n' !in c.sentenceEndingMarkers
    requires |c.exceptions| == 1 && c.exceptions[0].EnclosureStage?
    requires forall k :: 0 <= k < |c.exceptions[0].pairs| ==>
               c.exceptions[0].pairs[k].open != '。' && c.exceptions[0].pairs[k].open != '\n'
    ensures InsertedNewlines(c, "。。") == "。。\n" && InsertedNewlines(c, "。。\n") == "。\n。\n"
  {
    var pairs := c.exceptions[0].pairs;
    assert c.exceptions == [EnclosureStage(pairs)];
    MarkTwiceDiffers(c.sentenceEndingMarkers);
    PassesPairs(pairs, "。。\n");
    PassesPairs(pairs, "。\n。\n");
  }

  /** A configuration built without user exceptions from enclosures free of '。' and '\n' has only such openers. */
  lemma {:induction false} ConfiguredOpeners(markers: string, enclosures: string)
    requires Configure(markers, enclosures, []).Success?
    requires '。' !in enclosures && '\n' !in enclosures
    ensures var c := Configure(markers, enclosures, []).value;
            c.sentenceEndingMarkers == markers && |c.exceptions| == 1 && c.exceptions[0].EnclosureStage?
            && forall k :: 0 <= k < |c.exceptions[0].pairs| ==>
                 c.exceptions[0].pairs[k].open != '。' && c.exceptions[0].pairs[k].open != '\n'
  {
    var pairs := MakeEnclosureDefinitions(enclosures).value;
    assert Configure(markers, enclosures, []).value.exceptions == [EnclosureStage(pairs)];
    forall k | 0 <= k < |pairs| ensures pairs[k].open != '。' && pairs[k].open != '\n' {
      assert pairs[k].open == enclosures[2 * k];
    }
  }

  /** '。' is a default marker and '\n' is not. */
  lemma {:induction false} DefaultMarkersAvoid()
    ensures '。' in DefaultSentenceEndingMarkers && '\n' !in DefaultSentenceEndingMarkers
  {
  }

  /** '。' is not a default enclosure character. */
  lemma {:induction false} DefaultEnclosuresLackStop()
    ensures '。' !in DefaultEnclosures
  {
  }

  /** '\n' is not a default enclosure character. */
  lemma {:induction false} DefaultEnclosuresLackBreak()
    ensures '\n' !in DefaultEnclosures
  {
  }

  /** So the default segmenter is not idempotent: '。。' becomes '。。\n', then '。\n。\n'. */
  lemma {:induction false} InsertTwiceDiffersDefault()
    ensures InsertedNewlines(DefaultConfig(), "。。") == "。。\n"
    ensures InsertedNewlines(DefaultConfig(), "。。\n") == "。\n。\n"
  {
    DefaultMarkersAvoid();
    DefaultEnclosuresLackStop();
    DefaultEnclosuresLackBreak();
    ConfiguredOpeners(DefaultSentenceEndingMarkers, DefaultEnclosures);
    InsertTwiceDiffers(DefaultConfig());
  }

  /** Text holding no opener of `pairs` passes the enclosure stage of `pairs` unchanged. */
  lemma {:induction false} PassesPairs(pairs: seq<Pair>, t: string)
    requires forall q, k :: 0 <= q < |t| && 0 <= k < |pairs| ==> t[q] != pairs[k].open
    ensures ApplyStages([EnclosureStage(pairs)], t) == t
  {
    if pairs == [] {
      KeptGap(t, EmptyMatches(0, |t|), '\n', 0, |t|);
      assert t[0..|t|] == t;
    } else {
      NoOpenerNoSpans(pairs, t, 0, true);
    }
    assert [EnclosureStage(pairs)][..0] == [];
    assert t[0..] == t;
  }

  /** A small configuration for the examples below: the marker '。' and the pairs 「」 and 『』. */
  function ExampleConfig(): (c: Config)
    ensures ValidConfig(c) && c.sentenceEndingMarkers == "。"
    ensures c.exceptions == [EnclosureStage([Pair('「', '」'), Pair('『', '』')])]
  {
    var r := Configure("。", "「」『』", []);
    assert r.Success?;
    assert r.value.exceptions[0].pairs == [Pair('「', '」'), Pair('『', '』')];
    r.value
  }

  /**
   * The marker pass on the shape both examples below share: two openers,
   * '。', a closer, '。', a closer, 'x'. Each '。' gets a '\n' after it.
   */
  lemma {:induction false} MarkTwoStops(a: char, b: char, c: char, d: char)
    requires a != '。' && b != '。' && c != '。' && d != '。' && c != '\n' && d != '\n'
    ensures MarkSentenceEndings("。", [a, b, '。', c, '。', d, 'x']) == [a, b, '。', '\n', c, '。', '\n', d, 'x']
  {
    var t := [a, b, '。', c, '。', d, 'x'];
    assert MarkFrom("。", t, 6) == "x";
    assert MarkFrom("。", t, 5) == [d, 'x'];
    assert RunEnd("。", t, 4) == 5;
    assert MarkFrom("。", t, 4) == ['。', '\n', d, 'x'];
    assert MarkFrom("。", t, 3) == [c, '。', '\n', d, 'x'];
    assert RunEnd("。", t, 2) == 3;
    assert MarkFrom("。", t, 2) == ['。', '\n', c, '。', '\n', d, 'x'];
    assert MarkFrom("。", t, 1) == [b, '。', '\n', c, '。', '\n', d, 'x'];
  }

  /**
   * Overlapping enclosures: the enclosure that closes first wins, so the
   * ending inside 『…』 after 「…」 has closed still breaks the text.
   */
  lemma {:induction false} OverlapFirstWins()
    ensures InsertedNewlines(ExampleConfig(), "「『。」。』x") == "「『。」。\n』x"
  {
    var m := "「『。\n」。\n』x";
    MarkTwoStops('「', '『', '」', '』');
    assert "「『。」。』x" == ['「', '『', '。', '」', '。', '』', 'x'];
    assert m == ['「', '『', '。', '\n', '」', '。', '\n', '』', 'x'];
    var stage := EnclosureStage([Pair('「', '」'), Pair('『', '』')]);
    assert ApplyStage(stage, m) == "「『。」。\n』x" by {
      OverlapSpans();
      OverlapDelete();
    }
    assert [stage][..0] == [];
    assert ApplyStages([stage], m) == ApplyStage(stage, m);
    assert ExampleConfig().exceptions == [stage];
  }

  /** The enclosure spans of the marked overlap example: 「 up to the first 」, and nothing after it. */
  lemma {:induction false} OverlapSpans()
    ensures EnclosureSpans([Pair('「', '」'), Pair('『', '』')], "「『。\n」。\n』x", 0, true) == [Span(0, 5)]
  {
    var pairs, m := [Pair('「', '」'), Pair('『', '』')], "「『。\n」。\n』x";
    assert LazyClose(m, '」', 1, true) == Some(4);
    assert MatchAt(pairs, m, 0, true) == Some(5);
    NoOpenerNoSpans(pairs, m, 5, true);
  }

  /** Deleting the '\n's inside that one span. */
  lemma {:induction false} OverlapDelete()
    ensures DeleteWithin("「『。\n」。\n』x", [Span(0, 5)], '\n', 0) == "「『。」。\n』x"
  {
    DeleteOneAtStart("「『。", "」", "。\n』x", '\n');
    assert "「『。\n」。\n』x" == "「『。" + ['\n'] + "」" + "。\n』x";
    assert "「『。」。\n』x" == "「『。" + "」" + "。\n』x";
  }


  /**
   * Nested enclosures of one kind are not balanced: the outer 「 closes at
   * the inner 」, so the ending before the outer 」 still breaks the text.
   */
  lemma {:induction false} NestedSameKind()
    ensures InsertedNewlines(ExampleConfig(), "「「。」。」x") == "「「。」。\n」x"
  {
    var m := "「「。\n」。\n」x";
    MarkTwoStops('「', '「', '」', '」');
    assert "「「。」。」x" == ['「', '「', '。', '」', '。', '」', 'x'];
    assert m == ['「', '「', '。', '\n', '」', '。', '\n', '」', 'x'];
    var stage := EnclosureStage([Pair('「', '」'), Pair('『', '』')]);
    assert ApplyStage(stage, m) == "「「。」。\n」x" by {
      NestedSpans();
      NestedDelete();
    }
    assert [stage][..0] == [];
    assert ApplyStages([stage], m) == ApplyStage(stage, m);
    assert ExampleConfig().exceptions == [stage];
  }

  /** The enclosure spans of the marked nested example: the outer 「 up to the inner 」, and nothing after it. */
  lemma {:induction false} NestedSpans()
    ensures EnclosureSpans([Pair('「', '」'), Pair('『', '』')], "「「。\n」。\n」x", 0, true) == [Span(0, 5)]
  {
    var pairs, m := [Pair('「', '」'), Pair('『', '』')], "「「。\n」。\n」x";
    assert LazyClose(m, '」', 1, true) == Some(4);
    assert MatchAt(pairs, m, 0, true) == Some(5);
    NoOpenerNoSpans(pairs, m, 5, true);
  }

  /** Deleting the '\n's inside that one span. */
  lemma {:induction false} NestedDelete()
    ensures DeleteWithin("「「。\n」。\n」x", [Span(0, 5)], '\n', 0) == "「「。」。\n」x"
  {
    DeleteOneAtStart("「「。", "」", "。\n」x", '\n');
    assert "「「。\n」。\n」x" == "「「。" + ['\n'] + "」" + "。\n」x";
    assert "「「。」。\n」x" == "「「。" + "」" + "。\n」x";
  }


  // ---------------------------------------------------------------------
  // The segmenter object
  // ---------------------------------------------------------------------

  /** A configured segmenter: its settings are fixed when it is built. */
  class Hasami {
    const sentenceEndingMarkers: string
    const exceptions: seq<Stage>

    /** The settings as a value. */
    function Settings(): Config {
      Config(sentenceEndingMarkers, exceptions)
    }

    /** The object invariant: the settings are a configuration `Configure` can produce; `Create` and `Default` establish it, the operations require it. */
    ghost predicate Valid() {
      ValidConfig(Settings())
    }

    /** Stores an already checked configuration. */
    constructor (config: Config)
      requires ValidConfig(config)
      ensures Settings() == config && Valid()
    {
      sentenceEndingMarkers := config.sentenceEndingMarkers;
      exceptions := config.exceptions;
    }

    /** `Hasami(markers, enclosures, exceptions)`: the checks of `Configure`, or a new segmenter holding its result. */
    static method Create(markers: string, enclosures: string, userExceptions: seq<SpanFinder>)
      returns (r: Result<Hasami, ConfigError>)
      ensures r.Failure? <==> Configure(markers, enclosures, userExceptions).Failure?
      ensures r.Failure? ==> r.error == Configure(markers, enclosures, userExceptions).error
      ensures r.Success? ==> fresh(r.value) && r.value.Valid()
                             && r.value.Settings() == Configure(markers, enclosures, userExceptions).value
    {
      match Configure(markers, enclosures, userExceptions)
      case Failure(e) =>
        r := Failure(e);
      case Success(config) =>
        var h := new Hasami(config);
        r := Success(h);
    }

    /** `Hasami()`: a segmenter with the default markers and enclosures and no user exceptions. */
    static method Default() returns (h: Hasami)
      ensures fresh(h) && h.Valid() && h.Settings() == DefaultConfig()
    {
      h := new Hasami(DefaultConfig());
    }

    /** `insert_newlines`: the marker pass, then the exception stages one after another. */
    method InsertNewlines(text: string) returns (r: string)
      requires Valid()
      ensures r == InsertedNewlines(Settings(), text)
    {
      var marked := MarkSentenceEndings(sentenceEndingMarkers, text);
      var t := marked;
      for i := 0 to |exceptions|
        invariant t == ApplyStages(exceptions[..i], marked)
      {
        assert exceptions[..i + 1][..i] == exceptions[..i];
        t := ApplyStage(exceptions[i], t);
      }
      assert exceptions[..|exceptions|] == exceptions;
      r := t;
    }

    /** `segment_sentences`. */
    method SegmentSentences(text: string, stripWhitespace: bool) returns (r: seq<string>)
      requires Valid()
      ensures r == Segmented(Settings(), text, stripWhitespace)
    {
      var t := if stripWhitespace then Strip(text) else text;
      if t == [] {
        return [""];
      }
      var inserted := InsertNewlines(t);
      var sentences := SplitLines(inserted);
      if stripWhitespace {
        r := StripAll(sentences);
      } else {
        r := sentences;
      }
    }
  }
}
