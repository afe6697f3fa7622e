/**
 * Match spans and the substitution both segmenters perform with them:
 * `re.sub(pattern, lambda m: m.group(0).replace(c, ''), text)` deletes the
 * character `c` inside every match and leaves the text between matches as it is.
 */
module Spans {
  import opened StrOps

  /** The half-open range `[start, end)` of one match. */
  datatype Span = Span(start: nat, end: nat)

  /**
   * What a scan from `pos` over a text of length `n` can report: matches in
   * order, none overlapping the next, all inside `[pos, n]`.
   */
  predicate WellFormed(spans: seq<Span>, pos: nat, n: nat)
    decreases |spans|
  {
    spans == [] || (pos <= spans[0].start <= spans[0].end <= n && WellFormed(spans[1..], spans[0].end, n))
  }

  /** Spans that fit from `b` on also fit from any earlier `a`. */
  lemma {:induction false} WellFormedFrom(spans: seq<Span>, a: nat, b: nat, n: nat)
    requires a <= b && WellFormed(spans, b, n)
    ensures WellFormed(spans, a, n)
  {
  }

  /** Some span covers position `k`. */
  predicate InSpan(spans: seq<Span>, k: nat)
    decreases |spans|
  {
    spans != [] && (spans[0].start <= k < spans[0].end || InSpan(spans[1..], k))
  }

  /**
   * The reference meaning of the substitution, position by position: the
   * characters of `text[pos..]` in order, except each `c` at a covered position.
   */
  function Kept(text: string, spans: seq<Span>, c: char, pos: nat): string
    decreases |text| - pos
  {
    if pos >= |text| then []
    else (if text[pos] == c && InSpan(spans, pos) then [] else [text[pos]]) + Kept(text, spans, c, pos + 1)
  }

  /**
   * The substitution itself, match by match as `re.sub` works: the gap before
   * the next match unchanged, the match with every `c` removed, then the rest.
   * It is the position-wise `Kept`: only `c` is deleted, only inside a match,
   * and every other character keeps its place in the order.
   */
  function DeleteWithin(text: string, spans: seq<Span>, c: char, pos: nat): (r: string)
    requires pos <= |text| && WellFormed(spans, pos, |text|)
    ensures r == Kept(text, spans, c, pos)
    decreases |spans|
  {
    if spans == [] then
      KeptGap(text, spans, c, pos, |text|);
      text[pos..]
    else
      var s := spans[0];
      var rest := DeleteWithin(text, spans[1..], c, s.end);
      KeptFirstSpan(text, spans, c, pos);
      text[pos..s.start] + RemoveAll(text[s.start..s.end], c) + rest
  }

  /** The reference over a first match `[start, end)`: the gap before it kept, its `c`s deleted, then the rest. */
  lemma {:induction false} KeptFirstSpan(text: string, spans: seq<Span>, c: char, pos: nat)
    requires pos <= |text| && WellFormed(spans, pos, |text|) && spans != []
    ensures var s := spans[0];
            Kept(text, spans, c, pos)
            == text[pos..s.start] + RemoveAll(text[s.start..s.end], c) + Kept(text, spans[1..], c, s.end)
  {
    var s := spans[0];
    assert forall k: nat :: k < s.end ==> !InSpan(spans[1..], k) by {
      NotInSpanBelow(spans[1..], s.end, |text|);
    }
    assert Kept(text, spans, c, pos) == text[pos..s.start] + Kept(text, spans, c, s.start) by {
      KeptGap(text, spans, c, pos, s.start);
    }
    assert Kept(text, spans, c, s.start) == RemoveAll(text[s.start..s.end], c) + Kept(text, spans, c, s.end) by {
      KeptInside(text, spans, c, s.start, s.end);
    }
    assert Kept(text, spans, c, s.end) == Kept(text, spans[1..], c, s.end) by {
      KeptAgree(text, spans, spans[1..], c, s.end);
    }
  }

  /** One match at the very start: what it covers loses its `c`s, the rest is kept. */
  lemma {:induction false} DeleteLeadingSpan(a: string, rest: string, c: char)
    ensures DeleteWithin(a + rest, [Span(0, |a|)], c, 0) == RemoveAll(a, c) + rest
  {
    var t := a + rest;
    assert [Span(0, |a|)][1..] == [];
    assert t[0..0] == [] && t[0..|a|] == a && t[|a|..] == rest;
  }

  /** A first match `a + [c] + b` at the very start, with no other `c` in it, loses just that `c`. */
  lemma {:induction false} DeleteOneAtStart(a: string, b: string, rest: string, c: char)
    requires c !in a && c !in b
    ensures DeleteWithin(a + [c] + b + rest, [Span(0, |a| + 1 + |b|)], c, 0) == a + b + rest
  {
    DeleteLeadingSpan(a + [c] + b, rest, c);
    RemoveAllOne(a, b, c);
  }

  /** No span of a well-formed list starting at `pos` covers a position before `pos`. */
  lemma {:induction false} NotInSpanBelow(spans: seq<Span>, pos: nat, n: nat)
    requires WellFormed(spans, pos, n)
    ensures forall k: nat :: k < pos ==> !InSpan(spans, k)
    decreases |spans|
  {
    if spans != [] {
      NotInSpanBelow(spans[1..], spans[0].end, n);
    }
  }

  /** Over an uncovered stretch `[a, b)` the text is kept as it is. */
  lemma {:induction false} KeptGap(text: string, spans: seq<Span>, c: char, a: nat, b: nat)
    requires a <= b <= |text|
    requires forall k :: a <= k < b ==> !InSpan(spans, k)
    ensures Kept(text, spans, c, a) == text[a..b] + Kept(text, spans, c, b)
    decreases b - a
  {
    if a < b {
      assert Kept(text, spans, c, a) == [text[a]] + Kept(text, spans, c, a + 1) by {
        assert !InSpan(spans, a);
      }
      KeptGap(text, spans, c, a + 1, b);
      assert text[a..b] == [text[a]] + text[a + 1..b];
    }
  }

  /** Over a covered stretch `[a, b)` exactly the copies of `c` go. */
  lemma {:induction false} KeptInside(text: string, spans: seq<Span>, c: char, a: nat, b: nat)
    requires a <= b <= |text|
    requires forall k :: a <= k < b ==> InSpan(spans, k)
    ensures Kept(text, spans, c, a) == RemoveAll(text[a..b], c) + Kept(text, spans, c, b)
    decreases b - a
  {
    if a < b {
      var head := if text[a] == c then "" else [text[a]];
      var rest := RemoveAll(text[a + 1..b], c);
      calc {
        Kept(text, spans, c, a);
      == { assert InSpan(spans, a); }
        head + Kept(text, spans, c, a + 1);
      == { KeptInside(text, spans, c, a + 1, b); }
        head + (rest + Kept(text, spans, c, b));
      ==
        (head + rest) + Kept(text, spans, c, b);
      == { assert text[a..b][0] == text[a] && text[a..b][1..] == text[a + 1..b]; }
        RemoveAll(text[a..b], c) + Kept(text, spans, c, b);
      }
    }
  }

  /** Two span lists that cover the same positions from `pos` on keep the same characters. */
  lemma {:induction false} KeptAgree(text: string, s1: seq<Span>, s2: seq<Span>, c: char, pos: nat)
    requires forall k :: pos <= k ==> (InSpan(s1, k) <==> InSpan(s2, k))
    ensures Kept(text, s1, c, pos) == Kept(text, s2, c, pos)
    decreases |text| - pos
  {
    if pos < |text| {
      KeptAgree(text, s1, s2, c, pos + 1);
    }
  }

  /** The substitution deletes nothing but `c`. */
  lemma {:induction false} KeptErases(text: string, spans: seq<Span>, c: char, pos: nat)
    requires pos <= |text|
    ensures RemoveAll(Kept(text, spans, c, pos), c) == RemoveAll(text[pos..], c)
    decreases |text| - pos
  {
    if pos < |text| {
      KeptErases(text, spans, c, pos + 1);
      var head := if text[pos] == c && InSpan(spans, pos) then [] else [text[pos]];
      RemoveAllAppend(head, Kept(text, spans, c, pos + 1), c);
      assert text[pos..][1..] == text[pos + 1..];
    }
  }

  /** A text without `c` comes out of the substitution unchanged. */
  lemma {:induction false} KeptAbsent(text: string, spans: seq<Span>, c: char, pos: nat)
    requires pos <= |text| && c !in text[pos..]
    ensures Kept(text, spans, c, pos) == text[pos..]
    decreases |text| - pos
  {
    if pos < |text| {
      assert text[pos] in text[pos..];
      assert text[pos..] == [text[pos]] + text[pos + 1..];
      KeptAbsent(text, spans, c, pos + 1);
    }
  }
}
