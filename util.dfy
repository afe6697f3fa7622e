/** hasami/util.py: enclosure definitions from a flat string of character pairs. */
module Util {
  import opened Wrappers

  /** The `ValueError`s configuration can raise. */
  datatype ConfigError =
    | EmptyMarkers   // no sentence-ending marker supplied
    | OddEnclosures  // the enclosure string has odd length

  /** An enclosure: its opening and its closing character. */
  datatype Pair = Pair(open: char, close: char)

  /** Consecutive characters of an even-length string grouped two by two, in order. */
  function Pairs(s: string): (r: seq<Pair>)
    requires |s| % 2 == 0
    ensures |r| == |s| / 2
    ensures forall i :: 0 <= i < |r| ==> r[i] == Pair(s[2 * i], s[2 * i + 1])
    decreases |s|
  {
    if s == [] then [] else [Pair(s[0], s[1])] + Pairs(s[2..])
  }

  /**
   * `make_enclosure_definitions`: an odd-length string is refused; otherwise
   * the i-th pair is `(s[2i], s[2i+1])`.
   */
  function MakeEnclosureDefinitions(enclosures: string): (r: Result<seq<Pair>, ConfigError>)
    ensures r.Failure? <==> |enclosures| % 2 != 0
    ensures r.Failure? ==> r.error == OddEnclosures
    ensures r.Success? ==> |r.value| == |enclosures| / 2
    ensures r.Success? ==> forall i :: 0 <= i < |r.value| ==>
                             r.value[i] == Pair(enclosures[2 * i], enclosures[2 * i + 1])
  {
    if |enclosures| % 2 != 0 then Failure(OddEnclosures) else Success(Pairs(enclosures))
  }

  /** The pairs written back as a flat string, opener before closer. */
  function Flatten(pairs: seq<Pair>): (s: string)
    ensures |s| == 2 * |pairs|
  {
    if pairs == [] then [] else [pairs[0].open, pairs[0].close] + Flatten(pairs[1..])
  }

  /** Grouping a string into pairs and flattening them gives the string back. */
  lemma {:induction false} FlattenDefinitions(enclosures: string)
    requires |enclosures| % 2 == 0
    ensures MakeEnclosureDefinitions(enclosures).Success?
    ensures Flatten(MakeEnclosureDefinitions(enclosures).value) == enclosures
    decreases |enclosures|
  {
    if enclosures != [] {
      FlattenDefinitions(enclosures[2..]);
      assert enclosures == [enclosures[0], enclosures[1]] + enclosures[2..];
    }
  }

  /** The i-th pair of a list sits at positions 2i and 2i+1 of its flattened string. */
  lemma {:induction false} FlattenAt(pairs: seq<Pair>, i: nat)
    requires i < |pairs|
    ensures Flatten(pairs)[2 * i] == pairs[i].open && Flatten(pairs)[2 * i + 1] == pairs[i].close
    decreases i
  {
    if i > 0 {
      FlattenAt(pairs[1..], i - 1);
      assert Flatten(pairs) == [pairs[0].open, pairs[0].close] + Flatten(pairs[1..]);
    }
  }

  /** Every list of pairs is what its flattened string defines. */
  lemma {:induction false} DefinitionsOfFlatten(pairs: seq<Pair>)
    ensures MakeEnclosureDefinitions(Flatten(pairs)) == Success(pairs)
  {
    var r := MakeEnclosureDefinitions(Flatten(pairs));
    forall i | 0 <= i < |pairs| ensures r.value[i] == pairs[i] {
      FlattenAt(pairs, i);
    }
    assert r.value == pairs;
  }
}
