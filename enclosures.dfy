/**
 * The enclosure pattern both segmenters build: the alternation
 * `o1.*?c1|o2.*?c2|...` of one lazy alternative per (open, close) pair, in
 * configuration order, scanned left to right as `re.sub` scans it. With
 * `dotAll` the dot also matches '\n' (hasami/hasami.py); without it, it does
 * not (hasami/segmentation.py).
 */
module Enclosures {
  import opened Wrappers
  import opened Util
  import opened Spans

  /** The lazy `.*?` can run over `text[from..k]`: always with DOTALL, else only if no '\n' lies in it. */
  predicate Reaches(text: string, from: nat, k: nat, dotAll: bool)
    requires from <= k <= |text|
  {
    dotAll || '\n' !in text[from..k]
  }

  /**
   * `.*?close` tried from `from`: the first position holding `close` that the
   * dot can reach, or nothing when there is none.
   */
  function LazyClose(text: string, close: char, from: nat, dotAll: bool): (r: Option<nat>)
    requires from <= |text|
    ensures r.Some? ==> from <= r.value < |text| && text[r.value] == close
                        && close !in text[from..r.value] && Reaches(text, from, r.value, dotAll)
    ensures r.None? ==> forall q :: from <= q < |text| && text[q] == close ==> !Reaches(text, from, q, dotAll)
    decreases |text| - from
  {
    if from == |text| then None
    else if text[from] == close then Some(from)
    else if !dotAll && text[from] == '\n' then
      assert forall q :: from < q <= |text| ==> text[from] in text[from..q];
      None
    else
      var r := LazyClose(text, close, from + 1, dotAll);
      assert forall q :: from < q <= |text| ==> text[from..q] == [text[from]] + text[from + 1..q];
      r
  }

  /** One alternative `open.*?close` tried at `p`: the end of its match, if it matches. */
  function PairMatchAt(pair: Pair, text: string, p: nat, dotAll: bool): (r: Option<nat>)
    requires p < |text|
    ensures r.Some? <==> text[p] == pair.open
                         && exists q :: p < q < |text| && text[q] == pair.close && Reaches(text, p + 1, q, dotAll)
    ensures r.Some? ==> p + 2 <= r.value <= |text| && text[r.value - 1] == pair.close
                        && pair.close !in text[p + 1..r.value - 1] && Reaches(text, p + 1, r.value - 1, dotAll)
  {
    if text[p] != pair.open then None
    else match LazyClose(text, pair.close, p + 1, dotAll)
      case Some(q) => Some(q + 1)
      case None => None
  }

  /**
   * The whole alternation tried at `p`: the match of the first pair, in
   * configuration order, whose alternative matches there.
   */
  function MatchAt(pairs: seq<Pair>, text: string, p: nat, dotAll: bool): (r: Option<nat>)
    requires p < |text|
    ensures r.Some? <==> exists k :: 0 <= k < |pairs| && PairMatchAt(pairs[k], text, p, dotAll).Some?
    ensures r.Some? ==> exists k :: 0 <= k < |pairs| && r == PairMatchAt(pairs[k], text, p, dotAll)
                                    && forall k' :: 0 <= k' < k ==> PairMatchAt(pairs[k'], text, p, dotAll).None?
    decreases |pairs|
  {
    if pairs == [] then None
    else
      var first := PairMatchAt(pairs[0], text, p, dotAll);
      if first.Some? then first
      else
        var r := MatchAt(pairs[1..], text, p, dotAll);
        assert forall k :: 1 <= k < |pairs| ==> pairs[1..][k - 1] == pairs[k];
        r
  }

  /**
   * The empty pattern (no pairs at all) matches the empty string at every
   * position from `pos` to `n`; such matches cover nothing.
   */
  function EmptyMatches(pos: nat, n: nat): (r: seq<Span>)
    requires pos <= n
    ensures WellFormed(r, pos, n)
    ensures forall k: nat :: !InSpan(r, k)
    decreases n - pos
  {
    if pos == n then [Span(n, n)] else [Span(pos, pos)] + EmptyMatches(pos + 1, n)
  }

  /**
   * The matches `re.sub` finds from `pos` on: at each position the
   * alternation is tried; on a match the scan resumes at its end, otherwise one
   * position further on. So every span is the match at its own start, and no
   * position outside the spans has a match.
   */
  function EnclosureSpans(pairs: seq<Pair>, text: string, pos: nat, dotAll: bool): (r: seq<Span>)
    requires pos <= |text|
    ensures WellFormed(r, pos, |text|)
    ensures pairs != [] ==> forall i :: 0 <= i < |r| ==>
              r[i].start < |text| && MatchAt(pairs, text, r[i].start, dotAll) == Some(r[i].end)
    ensures forall q: nat :: pos <= q < |text| && !InSpan(r, q) ==> MatchAt(pairs, text, q, dotAll).None?
    decreases |text| - pos
  {
    if pairs == [] then EmptyMatches(pos, |text|)
    else if pos == |text| then []
    else match MatchAt(pairs, text, pos, dotAll)
      case Some(e) =>
        var rest := EnclosureSpans(pairs, text, e, dotAll);
        SpansCons(pairs, text, pos, e, rest, dotAll, [Span(pos, e)] + rest);
        [Span(pos, e)] + rest
      case None =>
        var rest := EnclosureSpans(pairs, text, pos + 1, dotAll);
        SpansSkip(pairs, text, pos, rest, dotAll);
        rest
  }

  /** With no match at `pos`, the spans found from `pos + 1` have the properties `EnclosureSpans` promises from `pos`. */
  lemma {:induction false} SpansSkip(pairs: seq<Pair>, text: string, pos: nat, rest: seq<Span>, dotAll: bool)
    requires pos < |text| && MatchAt(pairs, text, pos, dotAll).None?
    requires WellFormed(rest, pos + 1, |text|)
    requires forall q: nat :: pos + 1 <= q < |text| && !InSpan(rest, q) ==> MatchAt(pairs, text, q, dotAll).None?
    ensures WellFormed(rest, pos, |text|)
    ensures forall q: nat :: pos <= q < |text| && !InSpan(rest, q) ==> MatchAt(pairs, text, q, dotAll).None?
  {
    WellFormedFrom(rest, pos, pos + 1, |text|);
  }

  /** A match at `pos` followed by the spans found from its end has the properties `EnclosureSpans` promises. */
  lemma {:induction false} SpansCons(pairs: seq<Pair>, text: string, pos: nat, e: nat, rest: seq<Span>, dotAll: bool, r: seq<Span>)
    requires pos < |text| && pairs != [] && MatchAt(pairs, text, pos, dotAll) == Some(e)
    requires WellFormed(rest, e, |text|)
    requires forall i :: 0 <= i < |rest| ==> rest[i].start < |text| && MatchAt(pairs, text, rest[i].start, dotAll) == Some(rest[i].end)
    requires forall q: nat :: e <= q < |text| && !InSpan(rest, q) ==> MatchAt(pairs, text, q, dotAll).None?
    requires r == [Span(pos, e)] + rest
    ensures WellFormed(r, pos, |text|)
    ensures forall i :: 0 <= i < |r| ==> r[i].start < |text| && MatchAt(pairs, text, r[i].start, dotAll) == Some(r[i].end)
    ensures forall q: nat :: pos <= q < |text| && !InSpan(r, q) ==> MatchAt(pairs, text, q, dotAll).None?
  {
    assert r[1..] == rest;
    assert forall i :: 0 < i < |r| ==> r[i] == rest[i - 1];
    assert forall q: nat :: !InSpan(r, q) ==> !(pos <= q < e) && !InSpan(rest, q);
  }

  /** Text with no opener from `pos` on has no enclosure spans there. */
  lemma {:induction false} NoOpenerNoSpans(pairs: seq<Pair>, text: string, pos: nat, dotAll: bool)
    requires pairs != [] && pos <= |text|
    requires forall q, k :: pos <= q < |text| && 0 <= k < |pairs| ==> text[q] != pairs[k].open
    ensures EnclosureSpans(pairs, text, pos, dotAll) == []
    decreases |text| - pos
  {
    if pos < |text| {
      assert MatchAt(pairs, text, pos, dotAll).None?;
      NoOpenerNoSpans(pairs, text, pos + 1, dotAll);
    }
  }

  /** Without DOTALL, a match of a pair that does not use '\n' itself holds no '\n'. */
  lemma {:induction false} PairMatchAvoidsNewline(pair: Pair, text: string, p: nat)
    requires p < |text| && pair.open != '\n' && pair.close != '\n'
    requires PairMatchAt(pair, text, p, false).Some?
    ensures '\n' !in text[p..PairMatchAt(pair, text, p, false).value]
  {
    var e := PairMatchAt(pair, text, p, false).value;
    assert text[p..e] == [text[p]] + text[p + 1..e - 1] + [text[e - 1]];
  }

  /**
   * Without DOTALL, and with no pair using '\n' itself, no enclosure span
   * holds a '\n': an opener whose closer lies beyond a '\n' starts no span.
   */
  lemma {:induction false} SpansAvoidNewline(pairs: seq<Pair>, text: string, pos: nat)
    requires pos <= |text| && pairs != []
    requires forall k :: 0 <= k < |pairs| ==> pairs[k].open != '\n' && pairs[k].close != '\n'
    ensures var r := EnclosureSpans(pairs, text, pos, false);
            forall i :: 0 <= i < |r| ==> '\n' !in text[r[i].start..r[i].end]
  {
    var r := EnclosureSpans(pairs, text, pos, false);
    forall i | 0 <= i < |r| ensures '\n' !in text[r[i].start..r[i].end] {
      var p := r[i].start;
      var k :| 0 <= k < |pairs| && MatchAt(pairs, text, p, false) == PairMatchAt(pairs[k], text, p, false);
      PairMatchAvoidsNewline(pairs[k], text, p);
    }
  }
}
