/** Stage 1: making concatenation explicit. The pattern is scanned left to
    right with one character of lookback, and the marker `&` is placed between
    two adjacent characters when the first can end a unit and the second can
    start one. */
module Concat {
  import opened Syntax

  /** `prev` can end a concatenable unit. */
  predicate EndsUnit(prev: char)
  {
    IsLiteral(Some(prev)) || prev in {')', '*', '+', '?', '.'}
  }

  /** `c` can start a new unit. */
  predicate StartsUnit(c: char)
  {
    IsLiteral(Some(c)) || c == '(' || c == '.'
  }

  /** A marker goes in front of position `i` of `p`. */
  predicate MarkBefore(p: string, i: int)
  {
    0 < i < |p| && EndsUnit(p[i - 1]) && StartsUnit(p[i])
  }

  /** The inserted pattern, built as the scan builds it: one character at a
      time, each preceded by its marker when one is due. */
  function InsertConcat(p: string): string
  {
    if |p| == 0 then ""
    else InsertConcat(p[..|p| - 1]) + (if MarkBefore(p, |p| - 1) then "&" else "") + [p[|p| - 1]]
  }

  /** The number of markers due in front of the positions of `p`. */
  function Marks(p: string): nat
  {
    if |p| == 0 then 0
    else Marks(p[..|p| - 1]) + (if MarkBefore(p, |p| - 1) then 1 else 0)
  }

  /** The scan of `insert_concat_operators`, appending to a growing output. */
  method InsertConcatOperators(pattern: string) returns (r: string)
    ensures r == InsertConcat(pattern)
  {
    var tokens: string := [];
    var prev: Option<char> := None;
    for i := 0 to |pattern|
      invariant tokens == InsertConcat(pattern[..i])
      invariant prev == if i == 0 then None else Some(pattern[i - 1])
    {
      var c := pattern[i];
      if prev.Some? {
        var prevCanConcat := IsLiteral(prev) || prev.value in {')', '*', '+', '?', '.'};
        var startsToken := IsLiteral(Some(c)) || c == '(' || c == '.';
        if prevCanConcat && startsToken {
          tokens := tokens + ['&'];
        }
      }
      tokens := tokens + [c];
      prev := Some(c);
      assert pattern[..i + 1][..i] == pattern[..i];
    }
    assert pattern[..|pattern|] == pattern;
    r := tokens;
  }

  lemma {:induction false} MarkBeforePrefix(p: string, n: nat, i: int)
    requires n <= |p| && i < n
    ensures MarkBefore(p[..n], i) == MarkBefore(p, i)
  {
  }

  /** The inserted pattern is the pattern lengthened by one marker per due position. */
  lemma {:induction false} InsertConcatLength(p: string)
    ensures |InsertConcat(p)| == |p| + Marks(p)
    decreases |p|
  {
    if |p| > 0 {
      InsertConcatLength(p[..|p| - 1]);
    }
  }

  /** Exact insertion positions: character `i` of the pattern lands at
      `i + Marks(p[..i + 1])`, and the character just in front of it there is a
      marker exactly when one is due before position `i`, and `p[i - 1]`
      otherwise. */
  lemma {:induction false} InsertConcatAt(p: string, i: nat)
    requires i < |p|
    ensures Marks(p[..i + 1]) == (if i == 0 then 0 else Marks(p[..i])) + (if MarkBefore(p, i) then 1 else 0)
    ensures i + Marks(p[..i + 1]) < |InsertConcat(p)|
    ensures InsertConcat(p)[i + Marks(p[..i + 1])] == p[i]
    ensures 0 < i ==> InsertConcat(p)[i + Marks(p[..i + 1]) - 1] == if MarkBefore(p, i) then '&' else p[i - 1]
    decreases |p|
  {
    var q := p[..|p| - 1];
    var w := InsertConcat(q);
    var mid: string := if MarkBefore(p, |p| - 1) then "&" else "";
    assert InsertConcat(p) == w + mid + [p[|p| - 1]];
    assert p[..i + 1][..i] == p[..i];
    MarkBeforePrefix(p, i + 1, i);
    InsertConcatLength(q);
    if i < |p| - 1 {
      InsertConcatAt(q, i);
      assert q[..i + 1] == p[..i + 1];
      assert i > 0 ==> q[..i] == p[..i];
    } else {
      assert p[..i + 1] == p;
      assert q == p[..i];
      if 0 < i {
        InsertConcatAt(q, i - 1);
        assert q[..i] == q;
        InsertConcatLength(q);
        assert w[|w| - 1] == p[i - 1];
      }
      if i == 0 {
        assert q == [] && Marks(p) == 0;
      }
    }
  }

  /** The inserted pattern differs from the pattern only by the markers: every
      other character keeps its count, and `&` gains one per due position. */
  lemma {:induction false} InsertConcatCounts(p: string, x: char)
    ensures multiset(InsertConcat(p))[x] == multiset(p)[x] + if x == '&' then Marks(p) else 0
    decreases |p|
  {
    if |p| > 0 {
      var q := p[..|p| - 1];
      var l := p[|p| - 1];
      var mid: string := if MarkBefore(p, |p| - 1) then "&" else "";
      var w := InsertConcat(q);
      InsertConcatCounts(q, x);
      CountSplit(q, [l], x);
      LastSplit(p);
      InsertConcatSnoc(p);
      CountSplit(w + mid, [l], x);
      CountSplit(w, mid, x);
      assert Marks(p) == Marks(q) + if MarkBefore(p, |p| - 1) then 1 else 0;
      assert multiset(mid)[x] == if MarkBefore(p, |p| - 1) && x == '&' then 1 else 0;
    }
  }

  lemma InsertConcatSnoc(p: string)
    requires |p| > 0
    ensures InsertConcat(p) == InsertConcat(p[..|p| - 1]) + (if MarkBefore(p, |p| - 1) then "&" else "") + [p[|p| - 1]]
  {
  }

  lemma LastSplit(p: string)
    requires |p| > 0
    ensures p[..|p| - 1] + [p[|p| - 1]] == p
  {
  }

  lemma CountSplit(a: string, b: string, x: char)
    ensures multiset(a + b)[x] == multiset(a)[x] + multiset(b)[x]
  {
    assert multiset(a + b) == multiset(a) + multiset(b);
  }

  /** The empty pattern has nothing to separate. */
  lemma InsertConcatEmpty()
    ensures InsertConcat("") == ""
  {
  }
}
