/**
 * The Python `str` operations the segmenters rely on, written out over
 * `seq<char>`: `isspace`, `strip`, `rstrip(c)`, `find(c)`, `replace(c, '')`,
 * `split(c)` and `splitlines`, plus the maximal run of characters drawn from
 * a set, which a `[...]+` character class matches greedily.
 */
module StrOps {
  import opened Wrappers

  /** `c.isspace()` in Python 3: the 29 code points Python treats as whitespace. */
  predicate IsSpace(c: char) {
    ('\t' <= c <= '\r') || ('\U{1C}' <= c <= ' ') || c == '\U{85}' || c == '\U{A0}'
    || c == '\U{1680}' || ('\U{2000}' <= c <= '\U{200A}') || c == '\U{2028}' || c == '\U{2029}'
    || c == '\U{202F}' || c == '\U{205F}' || c == '\U{3000}'
  }

  /** The characters `str.splitlines` ends a line at ('\r\n' counts once, see SplitLines). */
  predicate IsLineBreak(c: char) {
    ('\n' <= c <= '\r') || ('\U{1C}' <= c <= '\U{1E}') || c == '\U{85}'
    || c == '\U{2028}' || c == '\U{2029}'
  }

  predicate NoLineBreak(s: string) {
    forall k :: 0 <= k < |s| ==> !IsLineBreak(s[k])
  }

  /** Neither the first nor the last character of `s` is whitespace. */
  predicate NoSurroundingSpace(s: string) {
    s == [] || (!IsSpace(s[0]) && !IsSpace(s[|s| - 1]))
  }

  /** All strings of `ss` joined with nothing in between (`''.join(ss)`). */
  function Concat(ss: seq<string>): string {
    if ss == [] then [] else ss[0] + Concat(ss[1..])
  }

  lemma {:induction false} ConcatCons(x: string, ss: seq<string>)
    ensures Concat([x] + ss) == x + Concat(ss)
  {
    assert ([x] + ss)[0] == x && ([x] + ss)[1..] == ss;
  }

  /** `s.replace(c, '')`. */
  function RemoveAll(s: string, c: char): (r: string)
    ensures c !in r
  {
    if s == [] then [] else (if s[0] == c then [] else [s[0]]) + RemoveAll(s[1..], c)
  }

  /** Every line-break character of `s` deleted, the rest kept in order. */
  function RemoveLineBreaks(s: string): string
  {
    if s == [] then [] else (if IsLineBreak(s[0]) then [] else [s[0]]) + RemoveLineBreaks(s[1..])
  }

  lemma {:induction false} RemoveAllAppend(a: string, b: string, c: char)
    ensures RemoveAll(a + b, c) == RemoveAll(a, c) + RemoveAll(b, c)
  {
    if a == [] {
      assert a + b == b;
    } else {
      var h := if a[0] == c then [] else [a[0]];
      assert (a + b)[0] == a[0] && (a + b)[1..] == a[1..] + b;
      assert RemoveAll(a + b, c) == h + RemoveAll(a[1..] + b, c);
      RemoveAllAppend(a[1..], b, c);
      assert h + (RemoveAll(a[1..], c) + RemoveAll(b, c)) == (h + RemoveAll(a[1..], c)) + RemoveAll(b, c);
    }
  }

  lemma {:induction false} RemoveAllAbsent(s: string, c: char)
    requires c !in s
    ensures RemoveAll(s, c) == s
  {
    if s != [] {
      assert c !in s[1..];
      RemoveAllAbsent(s[1..], c);
    }
  }

  lemma {:induction false} RemoveLineBreaksAppend(a: string, b: string)
    ensures RemoveLineBreaks(a + b) == RemoveLineBreaks(a) + RemoveLineBreaks(b)
  {
    if a == [] {
      assert a + b == b;
    } else {
      var h := if IsLineBreak(a[0]) then [] else [a[0]];
      assert (a + b)[0] == a[0] && (a + b)[1..] == a[1..] + b;
      assert RemoveLineBreaks(a + b) == h + RemoveLineBreaks(a[1..] + b);
      RemoveLineBreaksAppend(a[1..], b);
      assert h + (RemoveLineBreaks(a[1..]) + RemoveLineBreaks(b)) == (h + RemoveLineBreaks(a[1..])) + RemoveLineBreaks(b);
    }
  }

  /**
   * If the only line break `s` may hold is '\n', deleting the line breaks and
   * deleting the '\n' characters are the same thing.
   */
  lemma {:induction false} RemoveLineBreaksOfNewlines(s: string)
    requires NoLineBreak(RemoveAll(s, '\n'))
    ensures RemoveLineBreaks(s) == RemoveAll(s, '\n')
  {
    if s != [] {
      if s[0] != '\n' {
        assert RemoveAll(s, '\n')[0] == s[0];
      }
      assert NoLineBreak(RemoveAll(s[1..], '\n')) by {
        assert RemoveAll(s, '\n') == (if s[0] == '\n' then [] else [s[0]]) + RemoveAll(s[1..], '\n');
        forall k | 0 <= k < |RemoveAll(s[1..], '\n')|
          ensures !IsLineBreak(RemoveAll(s[1..], '\n')[k])
        {
          var off := if s[0] == '\n' then 0 else 1;
          assert RemoveAll(s[1..], '\n')[k] == RemoveAll(s, '\n')[k + off];
        }
      }
      RemoveLineBreaksOfNewlines(s[1..]);
    }
  }

  /** Index of the first non-whitespace character of `s` at or after `i` (`|s|` if there is none). */
  function SkipSpace(s: string, i: nat): (a: nat)
    requires i <= |s|
    ensures i <= a <= |s|
    ensures a == |s| || !IsSpace(s[a])
    ensures forall k :: i <= k < a ==> IsSpace(s[k])
    decreases |s| - i
  {
    if i < |s| && IsSpace(s[i]) then SkipSpace(s, i + 1) else i
  }

  /** Index just past the last non-whitespace character of `s[a..j]` (`a` if there is none). */
  function SkipSpaceBack(s: string, a: nat, j: nat): (b: nat)
    requires a <= j <= |s|
    ensures a <= b <= j
    ensures b == a || !IsSpace(s[b - 1])
    ensures forall k :: b <= k < j ==> IsSpace(s[k])
  {
    if a < j && IsSpace(s[j - 1]) then SkipSpaceBack(s, a, j - 1) else j
  }

  /** How many whitespace characters `s.strip()` removes from the front of `s`. */
  function LeadingSpace(s: string): (a: nat)
    ensures a <= |s|
  {
    SkipSpace(s, 0)
  }

  /**
   * `s.strip()`: the slice of `s` from `LeadingSpace(s)` on that starts and
   * ends with a non-whitespace character, everything before and after it
   * being whitespace.
   */
  function Strip(s: string): (r: string)
    ensures NoSurroundingSpace(r)
    ensures LeadingSpace(s) + |r| <= |s| && r == s[LeadingSpace(s)..LeadingSpace(s) + |r|]
    ensures forall k :: 0 <= k < LeadingSpace(s) ==> IsSpace(s[k])
    ensures forall k :: LeadingSpace(s) + |r| <= k < |s| ==> IsSpace(s[k])
  {
    var a := LeadingSpace(s);
    s[a..SkipSpaceBack(s, a, |s|)]
  }

  /** Stripping a line without line breaks leaves it without line breaks. */
  lemma {:induction false} StripNoLineBreak(s: string)
    requires NoLineBreak(s)
    ensures NoLineBreak(Strip(s))
  {
    var r := Strip(s);
    var a := LeadingSpace(s);
    forall k | 0 <= k < |r| ensures !IsLineBreak(r[k]) {
      assert r[k] == s[a + k];
    }
  }

  /** A string with nothing to strip is its own strip, so stripping twice is stripping once. */
  lemma {:induction false} StripIdempotent(s: string)
    ensures Strip(Strip(s)) == Strip(s)
  {
    StripNothing(Strip(s));
  }

  /** `s.strip()` is empty exactly when every character of `s` is whitespace. */
  lemma {:induction false} StripEmpty(s: string)
    ensures Strip(s) == [] <==> forall k :: 0 <= k < |s| ==> IsSpace(s[k])
  {
    var r := Strip(s);
    var a := LeadingSpace(s);
    if r != [] {
      assert r[0] == s[a];
    }
  }

  /** A string with no whitespace at either end is its own strip. */
  lemma {:induction false} StripNothing(s: string)
    requires NoSurroundingSpace(s)
    ensures Strip(s) == s
  {
    assert LeadingSpace(s) == 0;
    assert SkipSpaceBack(s, 0, |s|) == |s|;
    assert s[0..|s|] == s;
  }

  /** `s.rstrip(c)`: trailing copies of `c` removed. */
  function RStripChar(s: string, c: char): (r: string)
    ensures |r| <= |s| && r == s[..|r|]
    ensures r == [] || r[|r| - 1] != c
    ensures forall k :: |r| <= k < |s| ==> s[k] == c
  {
    if s != [] && s[|s| - 1] == c then RStripChar(s[..|s| - 1], c) else s
  }

  /** `rstrip(c)` removes only copies of `c`: deleting every `c` before or after it gives the same string. */
  lemma {:induction false} RemoveAllRStrip(s: string, c: char)
    ensures RemoveAll(RStripChar(s, c), c) == RemoveAll(s, c)
  {
    var r := RStripChar(s, c);
    var tail := s[|r|..];
    calc {
      RemoveAll(s, c);
    == { assert s == r + tail; }
      RemoveAll(r + tail, c);
    == { RemoveAllAppend(r, tail, c); }
      RemoveAll(r, c) + RemoveAll(tail, c);
    == { assert forall k :: 0 <= k < |tail| ==> tail[k] == s[|r| + k];
         RemoveAllSame(tail, c);
         assert RemoveAll(r, c) + [] == RemoveAll(r, c); }
      RemoveAll(r, c);
    }
  }

  /** `s.find(c, from)`: the first index at or after `from` that holds `c`. */
  function Find(s: string, c: char, from: nat): (r: Option<nat>)
    requires from <= |s|
    ensures r.Some? ==> from <= r.value < |s| && s[r.value] == c
                        && forall k :: from <= k < r.value ==> s[k] != c
    ensures r.None? ==> forall k :: from <= k < |s| ==> s[k] != c
    decreases |s| - from
  {
    if from == |s| then None else if s[from] == c then Some(from) else Find(s, c, from + 1)
  }

  /**
   * The end of the longest run of characters of `cs` starting at `i`: what a
   * greedy `[cs]+` reaches before backtracking.
   */
  function RunEnd(cs: string, s: string, i: nat): (j: nat)
    requires i <= |s|
    ensures i <= j <= |s|
    ensures forall k :: i <= k < j ==> s[k] in cs
    ensures j == |s| || s[j] !in cs
    decreases |s| - i
  {
    if i < |s| && s[i] in cs then RunEnd(cs, s, i + 1) else i
  }

  /**
   * `s.split(sep)`: the pieces between consecutive occurrences of `sep`,
   * empty pieces included; always at least one piece.
   */
  function Split(s: string, sep: char): (r: seq<string>)
    ensures |r| >= 1
    ensures forall k :: 0 <= k < |r| ==> sep !in r[k]
    decreases |s|
  {
    match Find(s, sep, 0)
    case None => [s]
    case Some(i) => [s[..i]] + Split(s[i + 1..], sep)
  }

  /** `sep.join(parts)`. */
  function Join(parts: seq<string>, sep: char): string
    requires |parts| >= 1
  {
    if |parts| == 1 then parts[0] else parts[0] + [sep] + Join(parts[1..], sep)
  }

  /** Splitting on `sep` and joining with `sep` gives the string back. */
  lemma {:induction false} JoinSplit(s: string, sep: char)
    ensures Join(Split(s, sep), sep) == s
    decreases |s|
  {
    match Find(s, sep, 0)
    case None =>
    case Some(i) =>
      var parts := Split(s, sep);
      var tail := Split(s[i + 1..], sep);
      assert parts == [s[..i]] + tail;
      assert parts[0] == s[..i] && parts[1..] == tail;
      assert Join(parts, sep) == s[..i] + [sep] + Join(tail, sep);
      JoinSplit(s[i + 1..], sep);
      assert s == s[..i] + [sep] + s[i + 1..];
  }

  /** Concatenating the pieces of a split deletes every `sep`. */
  lemma {:induction false} ConcatSplit(s: string, sep: char)
    ensures Concat(Split(s, sep)) == RemoveAll(s, sep)
    decreases |s|
  {
    match Find(s, sep, 0)
    case None =>
      RemoveAllAbsent(s, sep);
    case Some(i) =>
      assert Split(s, sep) == [s[..i]] + Split(s[i + 1..], sep);
      ConcatCons(s[..i], Split(s[i + 1..], sep));
      ConcatSplit(s[i + 1..], sep);
      RemoveAllAround(s, i, 1, sep);
  }

  /**
   * Deleting `c` from `s`, where `s[..i]` holds no `c` and `s[i..i + w]` is
   * nothing but `c`, leaves `s[..i]` followed by what is left of `s[i + w..]`.
   */
  lemma {:induction false} RemoveAllAround(s: string, i: nat, w: nat, c: char)
    requires i + w <= |s| && c !in s[..i]
    requires forall k :: i <= k < i + w ==> s[k] == c
    ensures RemoveAll(s, c) == s[..i] + RemoveAll(s[i + w..], c)
  {
    var head, mid, tail := s[..i], s[i..i + w], s[i + w..];
    calc {
      RemoveAll(s, c);
    == { assert s == head + (mid + tail); }
      RemoveAll(head + (mid + tail), c);
    == { RemoveAllAppend(head, mid + tail, c); }
      RemoveAll(head, c) + RemoveAll(mid + tail, c);
    == { RemoveAllAppend(mid, tail, c);
         assert RemoveAll(mid, c) == [] by {
           assert forall k :: 0 <= k < |mid| ==> mid[k] == s[i + k];
           RemoveAllSame(mid, c);
         }
         assert [] + RemoveAll(tail, c) == RemoveAll(tail, c); }
      RemoveAll(head, c) + RemoveAll(tail, c);
    == { RemoveAllAbsent(head, c); }
      head + RemoveAll(tail, c);
    }
  }

  /** Deleting `c` from `a`, one `c` and `b`, none of `a` and `b` being `c`, leaves `a + b`. */
  lemma {:induction false} RemoveAllOne(a: string, b: string, c: char)
    requires c !in a && c !in b
    ensures RemoveAll(a + [c] + b, c) == a + b
  {
    calc {
      RemoveAll(a + [c] + b, c);
    == { RemoveAllAppend(a + [c], b, c); }
      RemoveAll(a + [c], c) + RemoveAll(b, c);
    == { RemoveAllAppend(a, [c], c);
         assert RemoveAll([c], c) == [] by { assert [c][1..] == []; }
         assert RemoveAll(a, c) + [] == RemoveAll(a, c); }
      RemoveAll(a, c) + RemoveAll(b, c);
    == { RemoveAllAbsent(a, c); RemoveAllAbsent(b, c); }
      a + b;
    }
  }

  lemma {:induction false} RemoveAllSame(s: string, c: char)
    requires forall k :: 0 <= k < |s| ==> s[k] == c
    ensures RemoveAll(s, c) == []
  {
    if s != [] {
      RemoveAllSame(s[1..], c);
    }
  }

  /** If `s` does not end with `sep`, the last piece of its split is not empty. */
  lemma {:induction false} SplitLastNonEmpty(s: string, sep: char)
    requires s != [] && s[|s| - 1] != sep
    ensures var r := Split(s, sep); r[|r| - 1] != []
    decreases |s|
  {
    match Find(s, sep, 0)
    case None =>
    case Some(i) =>
      assert s[i + 1..] != [];
      SplitLastNonEmpty(s[i + 1..], sep);
  }

  /** The first index at or after `from` that holds a line break, or `|s|`. */
  function FirstLineBreak(s: string, from: nat): (i: nat)
    requires from <= |s|
    ensures from <= i <= |s|
    ensures i < |s| ==> IsLineBreak(s[i])
    ensures forall k :: from <= k < i ==> !IsLineBreak(s[k])
    decreases |s| - from
  {
    if from == |s| || IsLineBreak(s[from]) then from else FirstLineBreak(s, from + 1)
  }

  /**
   * `s.splitlines()`: the lines of `s` without their line breaks, '\r\n'
   * being a single break; a break at the very end opens no further line,
   * so the empty string has no lines at all.
   */
  function SplitLines(s: string): (r: seq<string>)
    ensures forall k :: 0 <= k < |r| ==> NoLineBreak(r[k])
    ensures r == [] <==> s == []
    decreases |s|
  {
    if s == [] then []
    else
      var i := FirstLineBreak(s, 0);
      if i == |s| then [s]
      else
        var w := if s[i] == '\r' && i + 1 < |s| && s[i + 1] == '\n' then 2 else 1;
        [s[..i]] + SplitLines(s[i + w..])
  }

  /** A non-empty string without line breaks is a single line, with or without a final '\n'. */
  lemma {:induction false} SplitLinesSingle(s: string)
    requires s != [] && NoLineBreak(s)
    ensures SplitLines(s) == [s]
    ensures SplitLines(s + "\n") == [s]
  {
    assert FirstLineBreak(s, 0) == |s|;
    var t := s + "\n";
    assert forall k :: 0 <= k < |s| ==> t[k] == s[k];
    assert IsLineBreak(t[|s|]);
    var i := FirstLineBreak(t, 0);
    assert i == |s|;
    assert t[..i] == s && t[i + 1..] == [];
  }

  /** A '\n' after a line without breaks ends exactly that line. */
  lemma {:induction false} SplitLinesBreak(a: string, b: string)
    requires NoLineBreak(a)
    ensures SplitLines(a + "\n" + b) == [a] + SplitLines(b)
  {
    var s := a + "\n" + b;
    assert forall k :: 0 <= k < |a| ==> s[k] == a[k];
    assert IsLineBreak(s[|a|]);
    assert FirstLineBreak(s, 0) == |a|;
    assert s[..|a|] == a && s[|a| + 1..] == b;
  }

  /** After a line without breaks, the first line break is the one that ends it. */
  lemma {:induction false} FirstBreakAfter(a: string, rest: string)
    requires NoLineBreak(a) && rest != [] && IsLineBreak(rest[0])
    ensures FirstLineBreak(a + rest, 0) == |a|
  {
    var s := a + rest;
    assert forall k :: 0 <= k < |a| ==> s[k] == a[k];
    assert s[|a|] == rest[0];
  }

  /**
   * Any line-break character after a line without breaks ends exactly that
   * line, unless it is a '\r' that a '\n' follows.
   */
  lemma {:induction false} SplitLinesAnyBreak(a: string, c: char, b: string)
    requires NoLineBreak(a) && IsLineBreak(c)
    requires !(c == '\r' && b != [] && b[0] == '\n')
    ensures SplitLines(a + [c] + b) == [a] + SplitLines(b)
  {
    var s := a + [c] + b;
    FirstBreakAfter(a, [c] + b);
    assert s == a + ([c] + b);
    assert s[|a|] == c;
    assert s[..|a|] == a && s[|a| + 1..] == b;
  }

  /** A '\r\n' after a line without breaks is one break: it ends exactly that line. */
  lemma {:induction false} SplitLinesCRLF(a: string, b: string)
    requires NoLineBreak(a)
    ensures SplitLines(a + "\r\n" + b) == [a] + SplitLines(b)
  {
    var s := a + "\r\n" + b;
    FirstBreakAfter(a, "\r\n" + b);
    assert s == a + ("\r\n" + b);
    assert s[|a|] == '\r' && s[|a| + 1] == '\n';
    assert s[..|a|] == a && s[|a| + 2..] == b;
  }

  /** The lines of `s`, concatenated, are `s` with every line break deleted. */
  lemma {:induction false} ConcatSplitLines(s: string)
    ensures Concat(SplitLines(s)) == RemoveLineBreaks(s)
    decreases |s|
  {
    if s != [] {
      var i := FirstLineBreak(s, 0);
      if i == |s| {
        RemoveLineBreaksNone(s);
      } else {
        var w := if s[i] == '\r' && i + 1 < |s| && s[i + 1] == '\n' then 2 else 1;
        ConcatSplitLines(s[i + w..]);
        ConcatSplitLinesStep(s, i, w);
      }
    }
  }

  /** One line of `SplitLines`: its text, then the lines after its line break. */
  lemma {:induction false} ConcatSplitLinesStep(s: string, i: nat, w: nat)
    requires s != [] && i == FirstLineBreak(s, 0) < |s|
    requires w == if s[i] == '\r' && i + 1 < |s| && s[i + 1] == '\n' then 2 else 1
    requires Concat(SplitLines(s[i + w..])) == RemoveLineBreaks(s[i + w..])
    ensures Concat(SplitLines(s)) == RemoveLineBreaks(s)
  {
    var head, tail := s[..i], s[i + w..];
    calc {
      Concat(SplitLines(s));
    == { SplitLinesUnfold(s, i, w); }
      Concat([head] + SplitLines(tail));
    == { ConcatCons(head, SplitLines(tail)); }
      head + Concat(SplitLines(tail));
    ==
      head + RemoveLineBreaks(tail);
    == { BreakWidth(s, i, w); NoBreakBeforeFirst(s, i); RemoveLineBreaksAround(s, i, w); }
      RemoveLineBreaks(s);
    }
  }

  /** `SplitLines` on a string with a line break at `i`, `w` characters wide. */
  lemma {:induction false} SplitLinesUnfold(s: string, i: nat, w: nat)
    requires s != [] && i == FirstLineBreak(s, 0) < |s|
    requires w == if s[i] == '\r' && i + 1 < |s| && s[i + 1] == '\n' then 2 else 1
    ensures SplitLines(s) == [s[..i]] + SplitLines(s[i + w..])
  {
  }

  /** The `w` characters of the first line break are all line breaks. */
  lemma {:induction false} BreakWidth(s: string, i: nat, w: nat)
    requires i == FirstLineBreak(s, 0) < |s|
    requires w == if s[i] == '\r' && i + 1 < |s| && s[i + 1] == '\n' then 2 else 1
    ensures i + w <= |s| && forall k :: i <= k < i + w ==> IsLineBreak(s[k])
  {
  }

  /** Nothing before the first line break is one. */
  lemma {:induction false} NoBreakBeforeFirst(s: string, i: nat)
    requires i == FirstLineBreak(s, 0)
    ensures NoLineBreak(s[..i])
  {
  }

  lemma {:induction false} RemoveLineBreaksAround(s: string, i: nat, w: nat)
    requires i + w <= |s| && NoLineBreak(s[..i])
    requires forall k :: i <= k < i + w ==> IsLineBreak(s[k])
    ensures RemoveLineBreaks(s) == s[..i] + RemoveLineBreaks(s[i + w..])
  {
    var head, brk, tail := s[..i], s[i..i + w], s[i + w..];
    assert RemoveLineBreaks(s) == RemoveLineBreaks(head) + RemoveLineBreaks(brk + tail) by {
      assert s == head + (brk + tail);
      RemoveLineBreaksAppend(head, brk + tail);
    }
    assert RemoveLineBreaks(brk + tail) == RemoveLineBreaks(tail) by {
      RemoveLineBreaksAppend(brk, tail);
      RemoveLineBreaksAll(brk);
    }
    RemoveLineBreaksNone(head);
  }

  lemma {:induction false} RemoveLineBreaksAll(s: string)
    requires forall k :: 0 <= k < |s| ==> IsLineBreak(s[k])
    ensures RemoveLineBreaks(s) == []
  {
    if s != [] {
      RemoveLineBreaksAll(s[1..]);
    }
  }

  lemma {:induction false} RemoveLineBreaksNone(s: string)
    requires NoLineBreak(s)
    ensures RemoveLineBreaks(s) == s
  {
    if s != [] {
      RemoveLineBreaksNone(s[1..]);
    }
  }
}
