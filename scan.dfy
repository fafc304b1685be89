/**
 * Leftmost search for fixed-length patterns in a string.
 *
 * Both regular expressions of bookit.py (`dDate=(\d\d\d\d-\d\d-\d\d)` and
 * `cDesc=(\d\d\d\d)-(\d\d\d\d)`) have no repetition or alternation: each is a
 * fixed sequence of literal characters and `\d` classes. For such a pattern,
 * `re.search` finds the smallest index at which every position matches, and a
 * capture group is a fixed slice of that match. Python's substring test
 * `sub in s` is the same search with a pattern made only of literals.
 */
module Scan {
  import opened Wrappers

  /** One position of a pattern: a literal character or the class `\d`. */
  datatype Atom = Lit(c: char) | Digit

  type Pattern = seq<Atom>

  predicate IsDigit(c: char) {
    '0' <= c <= '9'
  }

  predicate AtomMatches(a: Atom, c: char) {
    match a
    case Lit(l) => c == l
    case Digit => IsDigit(c)
  }

  /** The pattern matches `s` at index `i`, with every position inside `s`. */
  predicate MatchesAt(p: Pattern, s: string, i: nat) {
    i + |p| <= |s| && forall k :: 0 <= k < |p| ==> AtomMatches(p[k], s[i + k])
  }

  /** The leftmost index at or after `from` at which `p` matches `s`. */
  function FirstMatch(p: Pattern, s: string, from: nat): (r: Option<nat>)
    ensures r.Some? ==> from <= r.value && MatchesAt(p, s, r.value)
    ensures forall j: nat :: from <= j && (r.None? || j < r.value) ==> !MatchesAt(p, s, j)
    decreases |s| - from
  {
    if from + |p| > |s| then None
    else if MatchesAt(p, s, from) then Some(from)
    else FirstMatch(p, s, from + 1)
  }

  /**
   * `re.search(p, s)` followed by `.group(n)`, where group n covers the
   * pattern positions `lo` to `hi`: the matching slice of the leftmost match.
   */
  function Search(p: Pattern, s: string, lo: nat, hi: nat): (r: Option<string>)
    requires lo <= hi <= |p|
    ensures r.None? <==> forall i: nat :: !MatchesAt(p, s, i)
    ensures r.Some? ==> |r.value| == hi - lo
    ensures r.Some? ==> forall k :: lo <= k < hi ==> AtomMatches(p[k], r.value[k - lo])
  {
    match FirstMatch(p, s, 0)
    case None => None
    case Some(i) => Some(s[i + lo .. i + hi])
  }

  /** The group returned is the slice `[lo, hi)` of the leftmost match. */
  lemma SearchIsLeftmostGroup(p: Pattern, s: string, lo: nat, hi: nat, i: nat)
    requires lo <= hi <= |p|
    requires MatchesAt(p, s, i)
    requires forall j: nat :: j < i ==> !MatchesAt(p, s, j)
    ensures Search(p, s, lo, hi) == Some(s[i + lo .. i + hi])
  {
    var m := FirstMatch(p, s, 0);
    assert m == Some(i);
  }

  /** The pattern made of the characters of `sub`, all literal. */
  function Literal(sub: string): (p: Pattern)
    ensures |p| == |sub|
    ensures forall k :: 0 <= k < |sub| ==> p[k] == Lit(sub[k])
  {
    seq(|sub|, k requires 0 <= k < |sub| => Lit(sub[k]))
  }

  /** `sub` occurs in `s` at index `i`. */
  predicate OccursAt(sub: string, s: string, i: nat) {
    i + |sub| <= |s| && s[i .. i + |sub|] == sub
  }

  lemma LiteralMatchesAt(sub: string, s: string, i: nat)
    ensures MatchesAt(Literal(sub), s, i) <==> OccursAt(sub, s, i)
  {
    if MatchesAt(Literal(sub), s, i) {
      assert forall k :: 0 <= k < |sub| ==> s[i .. i + |sub|][k] == sub[k];
    }
    if OccursAt(sub, s, i) {
      forall k | 0 <= k < |sub| ensures AtomMatches(Literal(sub)[k], s[i + k]) {
        assert s[i .. i + |sub|][k] == s[i + k];
      }
    }
  }

  /** Python's `sub in s`. */
  function Contains(s: string, sub: string): (r: bool)
    ensures r <==> exists i: nat :: OccursAt(sub, s, i)
  {
    var m := FirstMatch(Literal(sub), s, 0);
    if m.Some? then
      LiteralMatchesAt(sub, s, m.value);
      true
    else
      assert forall i: nat :: !OccursAt(sub, s, i) by {
        forall i: nat ensures !OccursAt(sub, s, i) {
          LiteralMatchesAt(sub, s, i);
        }
      }
      false
  }
}
