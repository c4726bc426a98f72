/** The alternation checks of the module's own test block, carried through
    every stage for any plain letters: `x|y` accepts exactly the one-letter
    texts `x` and `y`, and `(ab|cd)e` accepts "abe" and "cde" and rejects
    "ace". */
module Alternation {
  import opened Syntax
  import opened Concat
  import opened Postfix
  import opened Thompson
  import opened Simulation
  import opened Pipeline

  /** A character every stage treats as a literal leaf: no metacharacter and
      not the concatenation marker. */
  predicate Plain(c: char)
  {
    c !in MetaChars && c != '&'
  }

  /** An edge labelled with the literal `c`. */
  function Lit(c: char, target: nat): Edge
  {
    Edge(Some(Char(c)), target)
  }

  /** An epsilon edge. */
  function Eps(target: nat): Edge
  {
    Edge(None, target)
  }

  // ---------------------------------------------------------------------
  // Steps of a concrete run

  /** One step of the converter's main loop. */
  lemma ScanOne(s: Shunt, q: string, t: Shunt, rest: string)
    requires |q| > 0 && q[1..] == rest && ShuntStep(s, q[0]) == Ok(t)
    ensures ScanFrom(s, q) == ScanFrom(t, rest)
  {
  }

  /** Nothing left to scan: the final loop. */
  lemma ScanEnd(s: Shunt, q: string)
    ensures ScanFrom(s, q[|q|..]) == Drain(s)
  {
    assert q[|q|..] == [];
  }

  /** The final loop with one operator left on the stack. */
  lemma DrainOne(out: seq<Token>, op: char)
    requires op !in {'(', ')'}
    ensures Drain(Shunt(out, [op])) == Ok(out + [Op(op)])
  {
    assert [op][..0] == [];
    assert Drain(Shunt(out + [Op(op)], [])) == Ok(out + [Op(op)]);
  }

  /** Step `k` of the builder's loop over `toks`. */
  lemma BuildAt(b: Builder, toks: seq<Token>, k: nat, b': Builder)
    requires k < |toks| && Apply(b, toks[k]) == Ok(b')
    ensures BuildFrom(b, toks[k..]) == BuildFrom(b', toks[k + 1..])
  {
    assert toks[k..][0] == toks[k] && toks[k..][1..] == toks[k + 1..];
  }

  /** Building continues from the builder a prefix of the tokens leaves. */
  lemma {:induction false} BuildFromSplit(b: Builder, a: seq<Token>, c: seq<Token>, mid: Builder)
    requires BuildFrom(b, a) == Ok(mid)
    ensures BuildFrom(b, a + c) == BuildFrom(mid, c)
    decreases |a|
  {
    if a != [] {
      assert (a + c)[0] == a[0] && (a + c)[1..] == a[1..] + c;
      BuildFromSplit(Apply(b, a[0]).value, a[1..], c, mid);
    } else {
      assert a + c == c;
    }
  }

  /** Two leaves, then `&` links the first leaf's accept to the second's start. */
  lemma PairBuild(b: Builder, x: char, y: char)
    ensures var s := |b.arena|;
      BuildFrom(b, [Char(x), Char(y), Op('&')]) ==
        Ok(Builder(b.arena + [[Lit(x, s + 1)], [Eps(s + 2)], [Lit(y, s + 3)], []], b.stack + [Fragment(s, [s + 3])]))
  {
    var s := |b.arena|;
    var toks := [Char(x), Char(y), Op('&')];
    var b1 := Leaf(b, Char(x));
    var b2 := Leaf(b1, Char(y));
    assert Apply(b, toks[0]) == Ok(b1);
    assert Apply(b1, toks[1]) == Ok(b2);
    assert b2.stack[|b2.stack| - 2] == Fragment(s, [s + 1]);
    assert b2.stack[|b2.stack| - 1] == Fragment(s + 2, [s + 3]);
    LinkOne(b2.arena, s + 1, [Eps(s + 2)]);
    var b3 := Join(b2);
    var leaves := b.arena + [[Lit(x, s + 1)], [], [Lit(y, s + 3)], []];
    assert b2.arena == leaves;
    assert leaves[s + 1] == [] && [] + [Eps(s + 2)] == [Eps(s + 2)];
    assert b3.arena == Link(b2.arena, [s + 1], [Eps(s + 2)]);
    assert b3.arena == leaves[s + 1 := [Eps(s + 2)]];
    assert b3.arena == b.arena + [[Lit(x, s + 1)], [Eps(s + 2)], [Lit(y, s + 3)], []];
    assert b2.stack[..|b2.stack| - 2] == b.stack;
    assert Apply(b2, toks[2]) == Ok(b3);
    assert toks[1..] == [Char(y), Op('&')] && toks[1..][1..] == [Op('&')] && [Op('&')][1..] == [];
    assert BuildFrom(b3, []) == Ok(b3);
    assert BuildFrom(b2, [Op('&')]) == Ok(b3);
    assert BuildFrom(b1, toks[1..]) == Ok(b3);
  }

  lemma TwoEps(arena: seq<seq<Edge>>, i: nat, j: nat, k: nat)
    requires EpsStep(arena, i, j) && EpsStep(arena, j, k)
    ensures Reaches(arena, {}, i, k)
  {
    assert Walk(arena, {}, [i, j, k]);
  }

  /** A state reached by a labelled edge and then by epsilon edges is active
      after the step. */
  lemma StepReaches(arena: seq<seq<Edge>>, states: set<nat>, i: nat, c: char, j: nat, k: nat)
    requires i in states && Lit(c, j) in EdgesOf(arena, i)
    requires Reaches(arena, {}, j, k)
    ensures k in StepSpec(arena, states, c)
  {
    assert j in Moved(arena, states, c);
    ClosureMember(arena, Moved(arena, states, c), k);
  }

  /** A state reached by a labelled edge is active after the step. */
  lemma StepLands(arena: seq<seq<Edge>>, states: set<nat>, i: nat, c: char, j: nat)
    requires i in states && Lit(c, j) in EdgesOf(arena, i)
    ensures j in StepSpec(arena, states, c)
  {
    ReachesSelf(arena, {}, j);
    StepReaches(arena, states, i, c, j, j);
  }

  /** A step out of states none of whose edges lets `c` through leaves
      nothing active. */
  lemma StepBlocked(arena: seq<seq<Edge>>, states: set<nat>, c: char)
    requires forall i, e :: i in states && e in EdgesOf(arena, i) ==> !Matches(e.symbol, c)
    ensures StepSpec(arena, states, c) == {}
  {
    assert Moved(arena, states, c) == {};
    ClosureEmpty(arena);
  }

  /** Three labelled edges, each followed by epsilon edges, carry a state
      through three steps. */
  lemma ThreeLetters(arena: seq<seq<Edge>>, states: set<nat>, i: nat,
                     x: char, j1: nat, j2: nat, y: char, j3: nat, j4: nat, z: char, j5: nat)
    requires i in states && Lit(x, j1) in EdgesOf(arena, i) && Reaches(arena, {}, j1, j2)
    requires Lit(y, j3) in EdgesOf(arena, j2) && Reaches(arena, {}, j3, j4)
    requires Lit(z, j5) in EdgesOf(arena, j4)
    ensures j5 in StepSpec(arena, StepSpec(arena, StepSpec(arena, states, x), y), z)
  {
    StepReaches(arena, states, i, x, j1, j2);
    StepReaches(arena, StepSpec(arena, states, x), j2, y, j3, j4);
    StepLands(arena, StepSpec(arena, StepSpec(arena, states, x), y), j4, z, j5);
  }

  /** When no state left by the first step lets the second character
      through, nothing is active after the third. */
  lemma DiesAtSecond(arena: seq<seq<Edge>>, states: set<nat>, x: char, y: char, z: char, V: set<nat>)
    requires StepSpec(arena, states, x) <= V
    requires forall i, e :: i in V && e in EdgesOf(arena, i) ==> !Matches(e.symbol, y)
    ensures StepSpec(arena, StepSpec(arena, StepSpec(arena, states, x), y), z) == {}
  {
    StepBlocked(arena, StepSpec(arena, states, x), y);
    StepBlocked(arena, {}, z);
  }

  /** The active set after three characters, one step at a time. */
  lemma ActiveThree(nfa: Nfa, text: string)
    requires |text| == 3
    ensures Active(nfa, text) ==
      StepSpec(nfa.arena, StepSpec(nfa.arena, StepSpec(nfa.arena, Closure(nfa.arena, {nfa.fragment.start}), text[0]), text[1]), text[2])
  {
    ActiveFirst(nfa, text);
    ActiveSnoc(nfa, text, 1);
    ActiveSnoc(nfa, text, 2);
    assert text[..3] == text;
  }

  /** The active set after the first character. */
  lemma ActiveFirst(nfa: Nfa, text: string)
    requires |text| > 0
    ensures Active(nfa, text[..1]) == StepSpec(nfa.arena, Closure(nfa.arena, {nfa.fragment.start}), text[0])
  {
    ActiveSnoc(nfa, text, 0);
    assert text[..0] == [];
  }

  // ---------------------------------------------------------------------
  // x|y

  /** The automaton of `x|y`: the branches are 0-1 and 2-3, the
      alternation's own start and accept are 4 and 5. */
  function EitherArena(x: char, y: char): seq<seq<Edge>>
  {
    [[Lit(x, 1)], [Eps(5)], [Lit(y, 3)], [Eps(5)], [Eps(0), Eps(2)], []]
  }

  /** No marker around `|`, and both leaves go out before it. */
  lemma EitherPostfix(x: char, y: char)
    requires Plain(x) && Plain(y)
    ensures ToPostfix([x, '|', y]) == Ok([Char(x), Char(y), Op('|')])
  {
    EitherInsert(x, y);
    EitherScan(x, y);
  }

  lemma EitherInsert(x: char, y: char)
    requires Plain(x) && Plain(y)
    ensures InsertConcat([x, '|', y]) == [x, '|', y]
  {
    assert [x, '|', y][..2] == [x, '|'] && [x, '|'][..1] == [x] && [x][..0] == [];
    assert InsertConcat([x]) == [x];
    assert InsertConcat([x, '|']) == [x, '|'];
  }

  lemma EitherScan(x: char, y: char)
    requires Plain(x) && Plain(y)
    ensures ScanFrom(Shunt([], []), [x, '|', y]) == Ok([Char(x), Char(y), Op('|')])
  {
    var s1 := Shunt([Char(x)], []);
    var s2 := Shunt([Char(x)], ['|']);
    var s3 := Shunt([Char(x), Char(y)], ['|']);
    assert [] + [Char(x)] == [Char(x)] && [] + ['|'] == ['|'];
    ScanOne(Shunt([], []), [x, '|', y], s1, ['|', y]);
    assert PopWhile(s1, '|') == s1;
    ScanOne(s1, ['|', y], s2, [y]);
    assert [Char(x)] + [Char(y)] == [Char(x), Char(y)];
    ScanOne(s2, [y], s3, []);
    DrainOne([Char(x), Char(y)], '|');
    assert [Char(x), Char(y)] + [Op('|')] == [Char(x), Char(y), Op('|')];
  }

  /** `|` gives a fresh start into both leaves and a fresh accept after both. */
  lemma EitherBuild(x: char, y: char)
    ensures Construct([Char(x), Char(y), Op('|')]) == Ok(Nfa(EitherArena(x, y), Fragment(4, [5])))
  {
    var toks := [Char(x), Char(y), Op('|')];
    var b1 := Builder([[Lit(x, 1)], []], [Fragment(0, [1])]);
    var b2 := Builder([[Lit(x, 1)], [], [Lit(y, 3)], []], [Fragment(0, [1]), Fragment(2, [3])]);
    var b3 := Builder(EitherArena(x, y), [Fragment(4, [5])]);
    assert [] + [[Lit(x, 1)], []] == b1.arena && [] + [Fragment(0, [1])] == b1.stack;
    BuildAt(Builder([], []), toks, 0, b1);
    assert toks[0..] == toks;
    assert b1.arena + [[Lit(y, 3)], []] == b2.arena;
    assert b1.stack + [Fragment(2, [3])] == b2.stack;
    BuildAt(b1, toks, 1, b2);
    EitherUnion(x, y);
    BuildAt(b2, toks, 2, b3);
    assert toks[3..] == [];
  }

  /** `|` over the two leaves: a fresh start into both, and both accepts into
      a fresh accept. */
  lemma EitherUnion(x: char, y: char)
    ensures Apply(Builder([[Lit(x, 1)], [], [Lit(y, 3)], []], [Fragment(0, [1]), Fragment(2, [3])]), Op('|')) ==
      Ok(Builder(EitherArena(x, y), [Fragment(4, [5])]))
  {
    var b2 := Builder([[Lit(x, 1)], [], [Lit(y, 3)], []], [Fragment(0, [1]), Fragment(2, [3])]);
    var base := b2.arena + [[Eps(0), Eps(2)], []];
    LinkOne(base, 1, [Eps(5)]);
    assert base[1] + [Eps(5)] == [Eps(5)];
    var mid := base[1 := [Eps(5)]];
    LinkOne(mid, 3, [Eps(5)]);
    assert mid[3] + [Eps(5)] == [Eps(5)];
    var b3 := Union(b2);
    assert b3.arena == mid[3 := [Eps(5)]];
    assert b3.arena == EitherArena(x, y);
    assert b3.stack == [Fragment(4, [5])];
  }

  /** The start state's closure: the alternation's start and both leaves'
      starts. */
  lemma EitherStart(x: char, y: char)
    ensures Closure(EitherArena(x, y), {4}) == {0, 2, 4}
  {
    var A := EitherArena(x, y);
    ClosureLeast(A, {4}, {0, 2, 4});
    ReachesSelf(A, {}, 4);
    ClosureMember(A, {4}, 4);
    ReachesEdge(A, 4, 0);
    ClosureMember(A, {4}, 0);
    ReachesEdge(A, 4, 2);
    ClosureMember(A, {4}, 2);
  }

  /** From the start closure, the accepting state is reached on exactly the
      two letters. */
  lemma EitherStep(x: char, y: char, t: char)
    ensures 5 in StepSpec(EitherArena(x, y), {0, 2, 4}, t) <==> t == x || t == y
  {
    var A := EitherArena(x, y);
    if t == x {
      ReachesEdge(A, 1, 5);
      StepReaches(A, {0, 2, 4}, 0, t, 1, 5);
    } else if t == y {
      ReachesEdge(A, 3, 5);
      StepReaches(A, {0, 2, 4}, 2, t, 3, 5);
    } else {
      StepBlocked(A, {0, 2, 4}, t);
    }
  }

  /** `x|y` matches a one-letter text exactly when the letter is `x` or `y`. */
  lemma EitherMatch(x: char, y: char, t: char)
    requires Plain(x) && Plain(y)
    ensures MatchOutcome([x, '|', y], [t]) == Ok(t == x || t == y)
  {
    EitherPostfix(x, y);
    EitherBuild(x, y);
    var nfa := Nfa(EitherArena(x, y), Fragment(4, [5]));
    assert [t][..0] == [];
    assert Active(nfa, [t]) == StepSpec(nfa.arena, Closure(nfa.arena, {4}), t);
    EitherStart(x, y);
    EitherStep(x, y, t);
  }

  /** The checks on `a|b`: "a" and "b" match, "c" does not. */
  lemma EitherExamples(text: string)
    requires text in {"a", "b", "c"}
    ensures MatchOutcome("a|b", text) == Ok(text != "c")
  {
    assert "a|b" == ['a', '|', 'b'] && text == [text[0]];
    EitherMatch('a', 'b', text[0]);
  }

  // ---------------------------------------------------------------------
  // (ab|cd)e

  /** The pattern `(ab|cd)e` spelled with any five plain letters. */
  function GroupedPattern(a: char, b: char, c: char, d: char, e: char): string
  {
    ['(', a, b, '|', c, d, ')', e]
  }

  /** Its postfix form: each branch's pair joined, the branches united,
      then joined with the last letter. */
  function GroupedPostfixForm(a: char, b: char, c: char, d: char, e: char): seq<Token>
  {
    GroupOutput(a, b, c, d) + [Char(e), Op('&')]
  }

  /** The output when the group closes. */
  function GroupOutput(a: char, b: char, c: char, d: char): seq<Token>
  {
    [Char(a), Char(b), Op('&'), Char(c), Char(d), Op('&'), Op('|')]
  }

  /** The automaton, state by state: the branch `ab` is 0-3, `cd` is 4-7,
      the alternation's own start and accept are 8 and 9, and `e` is 10-11. */
  function GroupedArena(a: char, b: char, c: char, d: char, e: char): seq<seq<Edge>>
  {
    GroupArena(a, b, c, d)[9 := [Eps(10)]] + [[Lit(e, 11)], []]
  }

  /** The automaton of the group alone. */
  function GroupArena(a: char, b: char, c: char, d: char): seq<seq<Edge>>
  {
    [[Lit(a, 1)], [Eps(2)], [Lit(b, 3)], [Eps(9)],
     [Lit(c, 5)], [Eps(6)], [Lit(d, 7)], [Eps(9)],
     [Eps(0), Eps(4)], []]
  }

  /** Markers go inside each branch and after the group, not around `|`. */
  lemma GroupedInsert(a: char, b: char, c: char, d: char, e: char)
    requires Plain(a) && Plain(b) && Plain(c) && Plain(d) && Plain(e)
    ensures InsertConcat(GroupedPattern(a, b, c, d, e)) == GroupedInserted(a, b, c, d, e)
  {
    GroupedInsertFirst(a, b, c);
    var p := GroupedPattern(a, b, c, d, e);
    InsertConcatSnoc(p[..6]);
    assert p[..6][..5] == ['(', a, b, '|', c];
    assert InsertConcat(p[..6]) == ['(', a, '&', b, '|', c, '&', d];
    InsertConcatSnoc(p[..7]);
    assert p[..7][..6] == p[..6];
    assert InsertConcat(p[..7]) == ['(', a, '&', b, '|', c, '&', d, ')'];
    InsertConcatSnoc(p);
    assert p[..7] == p[..|p| - 1];
  }

  lemma GroupedInsertFirst(a: char, b: char, c: char)
    requires Plain(a) && Plain(b) && Plain(c)
    ensures InsertConcat(['(', a, b, '|', c]) == ['(', a, '&', b, '|', c]
  {
    GroupedInsertOpen(a, b);
    InsertConcatSnoc(['(', a, b, '|']);
    assert ['(', a, b, '|'][..3] == ['(', a, b];
    assert InsertConcat(['(', a, b, '|']) == ['(', a, '&', b, '|'];
    InsertConcatSnoc(['(', a, b, '|', c]);
    assert ['(', a, b, '|', c][..4] == ['(', a, b, '|'];
  }

  lemma GroupedInsertOpen(a: char, b: char)
    requires Plain(a) && Plain(b)
    ensures InsertConcat(['(', a, b]) == ['(', a, '&', b]
  {
    InsertConcatSnoc(['(']);
    assert ['('][..0] == [];
    assert InsertConcat(['(']) == ['('];
    InsertConcatSnoc(['(', a]);
    assert ['(', a][..1] == ['('];
    assert InsertConcat(['(', a]) == ['(', a];
    InsertConcatSnoc(['(', a, b]);
    assert ['(', a, b][..2] == ['(', a];
  }

  /** The pattern with its markers. */
  function GroupedInserted(a: char, b: char, c: char, d: char, e: char): string
  {
    ['(', a, '&', b, '|', c, '&', d, ')', '&', e]
  }

  /** Step `k` of the converter's main loop over `q`. */
  lemma ScanAt(s: Shunt, q: string, k: nat, t: Shunt)
    requires k < |q| && ShuntStep(s, q[k]) == Ok(t)
    ensures ScanFrom(s, q[k..]) == ScanFrom(t, q[k + 1..])
  {
    assert q[k..][0] == q[k] && q[k..][1..] == q[k + 1..];
  }

  /** The group opens and the first letter goes out. */
  lemma GroupedScanOpen(a: char, b: char, c: char, d: char, e: char)
    requires Plain(a)
    ensures var q := GroupedInserted(a, b, c, d, e);
      ScanFrom(Shunt([], []), q) == ScanFrom(Shunt([Char(a)], ['(']), q[2..])
  {
    var q := GroupedInserted(a, b, c, d, e);
    var s1 := Shunt([], ['(']);
    assert [] + ['('] == ['('] && [] + [Char(a)] == [Char(a)];
    ScanAt(Shunt([], []), q, 0, s1);
    assert q[0..] == q;
    ScanAt(s1, q, 1, Shunt([Char(a)], ['(']));
  }

  /** The first branch: `ab` joined inside the open group. */
  lemma GroupedScanFirst(a: char, b: char, c: char, d: char, e: char)
    requires Plain(a) && Plain(b)
    ensures var q := GroupedInserted(a, b, c, d, e);
      ScanFrom(Shunt([], []), q) == ScanFrom(Shunt([Char(a), Char(b), Op('&')], ['(', '|']), q[5..])
  {
    var q := GroupedInserted(a, b, c, d, e);
    GroupedScanOpen(a, b, c, d, e);
    var s2 := Shunt([Char(a)], ['(']);
    var s3 := Shunt([Char(a)], ['(', '&']);
    var s4 := Shunt([Char(a), Char(b)], ['(', '&']);
    assert PopWhile(s2, '&') == s2;
    assert ['('] + ['&'] == ['(', '&'];
    ScanAt(s2, q, 2, s3);
    assert [Char(a)] + [Char(b)] == [Char(a), Char(b)];
    ScanAt(s3, q, 3, s4);
    GroupedScanBar(a, b, c, d, e);
  }

  /** The `|` pops the pending `&` of the first branch. */
  lemma GroupedScanBar(a: char, b: char, c: char, d: char, e: char)
    ensures var q := GroupedInserted(a, b, c, d, e);
      ScanFrom(Shunt([Char(a), Char(b)], ['(', '&']), q[4..]) ==
      ScanFrom(Shunt([Char(a), Char(b), Op('&')], ['(', '|']), q[5..])
  {
    var q := GroupedInserted(a, b, c, d, e);
    var s4 := Shunt([Char(a), Char(b)], ['(', '&']);
    var popped := Shunt([Char(a), Char(b), Op('&')], ['(']);
    assert [Char(a), Char(b)] + [Op('&')] == popped.output && ['(', '&'][..1] == ['('];
    assert PopWhile(popped, '|') == popped;
    assert PopWhile(s4, '|') == popped;
    assert ['('] + ['|'] == ['(', '|'];
    ScanAt(s4, q, 4, Shunt([Char(a), Char(b), Op('&')], ['(', '|']));
  }

  /** The second branch: `cd` joined above the pending `|`. */
  lemma GroupedScanSecond(a: char, b: char, c: char, d: char, e: char)
    requires Plain(c) && Plain(d)
    ensures var q := GroupedInserted(a, b, c, d, e);
      ScanFrom(Shunt([Char(a), Char(b), Op('&')], ['(', '|']), q[5..]) ==
      ScanFrom(Shunt([Char(a), Char(b), Op('&'), Char(c), Char(d)], ['(', '|', '&']), q[8..])
  {
    var q := GroupedInserted(a, b, c, d, e);
    var ab := [Char(a), Char(b), Op('&')];
    var s5 := Shunt(ab, ['(', '|']);
    var s6 := Shunt(ab + [Char(c)], ['(', '|']);
    var s7 := Shunt(ab + [Char(c)], ['(', '|', '&']);
    ScanAt(s5, q, 5, s6);
    assert PopWhile(s6, '&') == s6;
    assert ['(', '|'] + ['&'] == ['(', '|', '&'];
    ScanAt(s6, q, 6, s7);
    assert ab + [Char(c)] == [Char(a), Char(b), Op('&'), Char(c)];
    GroupedScanD(a, b, c, d, e);
  }

  /** The last letter of the second branch. */
  lemma GroupedScanD(a: char, b: char, c: char, d: char, e: char)
    requires Plain(d)
    ensures var q := GroupedInserted(a, b, c, d, e);
      ScanFrom(Shunt([Char(a), Char(b), Op('&'), Char(c)], ['(', '|', '&']), q[7..]) ==
      ScanFrom(Shunt([Char(a), Char(b), Op('&'), Char(c), Char(d)], ['(', '|', '&']), q[8..])
  {
    var q := GroupedInserted(a, b, c, d, e);
    var abc := [Char(a), Char(b), Op('&'), Char(c)];
    assert abc + [Char(d)] == [Char(a), Char(b), Op('&'), Char(c), Char(d)];
    ScanAt(Shunt(abc, ['(', '|', '&']), q, 7, Shunt(abc + [Char(d)], ['(', '|', '&']));
  }

  /** The group closes and pops both of its operators. */
  lemma GroupedScanClose(a: char, b: char, c: char, d: char, e: char)
    ensures var q := GroupedInserted(a, b, c, d, e);
      ScanFrom(Shunt([Char(a), Char(b), Op('&'), Char(c), Char(d)], ['(', '|', '&']), q[8..]) ==
      ScanFrom(Shunt(GroupOutput(a, b, c, d), []), q[9..])
  {
    var q := GroupedInserted(a, b, c, d, e);
    var s8 := Shunt([Char(a), Char(b), Op('&'), Char(c), Char(d)], ['(', '|', '&']);
    var p1 := Shunt(s8.output + [Op('&')], ['(', '|']);
    var p2 := Shunt(GroupOutput(a, b, c, d), ['(']);
    assert ['(', '|', '&'][..2] == ['(', '|'] && ['(', '|'][..1] == ['('] && ['('][..0] == [];
    assert p1.output + [Op('|')] == p2.output;
    assert PopWhile(p2, ')') == p2;
    assert PopWhile(p1, ')') == p2;
    assert PopWhile(s8, ')') == p2;
    ScanAt(s8, q, 8, Shunt(GroupOutput(a, b, c, d), []));
  }

  /** After the group: the last letter joined to it, emitted by the final loop. */
  lemma GroupedScanLast(a: char, b: char, c: char, d: char, e: char)
    requires Plain(e)
    ensures var q := GroupedInserted(a, b, c, d, e);
      ScanFrom(Shunt(GroupOutput(a, b, c, d), []), q[9..]) == Ok(GroupedPostfixForm(a, b, c, d, e))
  {
    var q := GroupedInserted(a, b, c, d, e);
    var g := GroupOutput(a, b, c, d);
    var s11 := Shunt(g + [Char(e)], ['&']);
    GroupedScanTail(a, b, c, d, e);
    ScanEnd(s11, q);
    DrainOne(g + [Char(e)], '&');
    assert g + [Char(e)] + [Op('&')] == GroupedPostfixForm(a, b, c, d, e);
  }

  lemma GroupedScanTail(a: char, b: char, c: char, d: char, e: char)
    requires Plain(e)
    ensures var q := GroupedInserted(a, b, c, d, e);
      ScanFrom(Shunt(GroupOutput(a, b, c, d), []), q[9..]) ==
      ScanFrom(Shunt(GroupOutput(a, b, c, d) + [Char(e)], ['&']), q[11..])
  {
    var q := GroupedInserted(a, b, c, d, e);
    var g := GroupOutput(a, b, c, d);
    var s10 := Shunt(g, ['&']);
    assert [] + ['&'] == ['&'];
    assert PopWhile(Shunt(g, []), '&') == Shunt(g, []);
    ScanAt(Shunt(g, []), q, 9, s10);
    ScanAt(s10, q, 10, Shunt(g + [Char(e)], ['&']));
  }

  lemma GroupedPostfix(a: char, b: char, c: char, d: char, e: char)
    requires Plain(a) && Plain(b) && Plain(c) && Plain(d) && Plain(e)
    ensures ToPostfix(GroupedPattern(a, b, c, d, e)) == Ok(GroupedPostfixForm(a, b, c, d, e))
  {
    GroupedInsert(a, b, c, d, e);
    GroupedScanFirst(a, b, c, d, e);
    GroupedScanSecond(a, b, c, d, e);
    GroupedScanClose(a, b, c, d, e);
    GroupedScanLast(a, b, c, d, e);
  }

  /** The builder after the first branch `ab`. */
  function FirstBranch(a: char, b: char): Builder
  {
    Builder([[Lit(a, 1)], [Eps(2)], [Lit(b, 3)], []], [Fragment(0, [3])])
  }

  /** The builder after both branches. */
  function BothBranches(a: char, b: char, c: char, d: char): Builder
  {
    Builder(FirstBranch(a, b).arena + [[Lit(c, 5)], [Eps(6)], [Lit(d, 7)], []],
            [Fragment(0, [3]), Fragment(4, [7])])
  }

  lemma GroupedBranches(a: char, b: char, c: char, d: char)
    ensures BuildFrom(Builder([], []), [Char(a), Char(b), Op('&'), Char(c), Char(d), Op('&')]) == Ok(BothBranches(a, b, c, d))
  {
    var b0 := Builder([], []);
    var first := [Char(a), Char(b), Op('&')];
    var second := [Char(c), Char(d), Op('&')];
    PairBuild(b0, a, b);
    assert [] + [[Lit(a, 1)], [Eps(2)], [Lit(b, 3)], []] == FirstBranch(a, b).arena;
    assert [] + [Fragment(0, [3])] == FirstBranch(a, b).stack;
    PairBuild(FirstBranch(a, b), c, d);
    assert FirstBranch(a, b).stack + [Fragment(4, [7])] == BothBranches(a, b, c, d).stack;
    assert [Char(a), Char(b), Op('&'), Char(c), Char(d), Op('&')] == first + second;
    BuildFromSplit(b0, first, second, FirstBranch(a, b));
  }

  /** `|` over the two branches: a fresh start into both, and both accepts
      into a fresh accept. */
  lemma GroupedUnion(a: char, b: char, c: char, d: char)
    ensures Apply(BothBranches(a, b, c, d), Op('|')) == Ok(Builder(GroupArena(a, b, c, d), [Fragment(8, [9])]))
  {
    var bb := BothBranches(a, b, c, d);
    var base := bb.arena + [[Eps(0), Eps(4)], []];
    LinkOne(base, 3, [Eps(9)]);
    assert base[3] + [Eps(9)] == [Eps(9)];
    var mid := base[3 := [Eps(9)]];
    LinkOne(mid, 7, [Eps(9)]);
    assert mid[7] + [Eps(9)] == [Eps(9)];
    var u := Union(bb);
    assert u.arena == mid[7 := [Eps(9)]];
    assert u.arena == GroupArena(a, b, c, d);
    assert bb.stack[..0] == [];
    assert u.stack == [Fragment(8, [9])];
  }

  /** The last letter after the group: a leaf, then `&` from the
      alternation's accept. */
  lemma GroupedTail(a: char, b: char, c: char, d: char, e: char)
    ensures BuildFrom(Builder(GroupArena(a, b, c, d), [Fragment(8, [9])]), [Char(e), Op('&')]) ==
      Ok(Builder(GroupedArena(a, b, c, d, e), [Fragment(8, [11])]))
  {
    var g := Builder(GroupArena(a, b, c, d), [Fragment(8, [9])]);
    var b1 := Leaf(g, Char(e));
    assert Apply(g, Char(e)) == Ok(b1);
    LinkOne(b1.arena, 9, [Eps(10)]);
    assert b1.arena[9] + [Eps(10)] == [Eps(10)];
    var b2 := Join(b1);
    assert b2.arena == GroupedArena(a, b, c, d, e);
    assert b1.stack[..0] == [];
    assert b2.stack == [Fragment(8, [11])];
    assert Apply(b1, Op('&')) == Ok(b2);
    assert [Char(e), Op('&')][1..] == [Op('&')] && [Op('&')][1..] == [];
    assert BuildFrom(b2, []) == Ok(b2);
    assert BuildFrom(b1, [Op('&')]) == Ok(b2);
  }

  lemma GroupedBuild(a: char, b: char, c: char, d: char, e: char)
    ensures Construct(GroupedPostfixForm(a, b, c, d, e)) == Ok(Nfa(GroupedArena(a, b, c, d, e), Fragment(8, [11])))
  {
    var pairs := [Char(a), Char(b), Op('&'), Char(c), Char(d), Op('&')];
    var g := Builder(GroupArena(a, b, c, d), [Fragment(8, [9])]);
    GroupedBranches(a, b, c, d);
    GroupedUnion(a, b, c, d);
    GroupedTail(a, b, c, d, e);
    assert [Op('|')][1..] == [];
    assert BuildFrom(g, []) == Ok(g);
    assert BuildFrom(BothBranches(a, b, c, d), [Op('|')]) == Ok(g);
    BuildFromSplit(Builder([], []), pairs, [Op('|')], BothBranches(a, b, c, d));
    assert pairs + [Op('|')] == GroupOutput(a, b, c, d);
    BuildFromSplit(Builder([], []), GroupOutput(a, b, c, d), [Char(e), Op('&')], g);
  }

  /** The start state's closure: the alternation's start and both branches'
      starts. */
  lemma GroupedStart(a: char, b: char, c: char, d: char, e: char)
    ensures Closure(GroupedArena(a, b, c, d, e), {8}) == {0, 4, 8}
  {
    var A := GroupedArena(a, b, c, d, e);
    ClosureLeast(A, {8}, {0, 4, 8});
    ReachesSelf(A, {}, 8);
    ClosureMember(A, {8}, 8);
    ReachesEdge(A, 8, 0);
    ClosureMember(A, {8}, 0);
    ReachesEdge(A, 8, 4);
    ClosureMember(A, {8}, 4);
  }

  /** The first branch's word, then the last letter, reaches the accepting
      state. */
  lemma GroupedFirstWord(a: char, b: char, c: char, d: char, e: char)
    ensures var A := GroupedArena(a, b, c, d, e);
      11 in StepSpec(A, StepSpec(A, StepSpec(A, {0, 4, 8}, a), b), e)
  {
    var A := GroupedArena(a, b, c, d, e);
    ReachesEdge(A, 1, 2);
    TwoEps(A, 3, 9, 10);
    ThreeLetters(A, {0, 4, 8}, 0, a, 1, 2, b, 3, 10, e, 11);
  }

  /** So does the second branch's word. */
  lemma GroupedSecondWord(a: char, b: char, c: char, d: char, e: char)
    ensures var A := GroupedArena(a, b, c, d, e);
      11 in StepSpec(A, StepSpec(A, StepSpec(A, {0, 4, 8}, c), d), e)
  {
    var A := GroupedArena(a, b, c, d, e);
    ReachesEdge(A, 5, 6);
    TwoEps(A, 7, 9, 10);
    ThreeLetters(A, {0, 4, 8}, 4, c, 5, 6, d, 7, 10, e, 11);
  }

  /** When the branches start with different letters, the first letter
      leaves only the first branch live. */
  lemma GroupedFirstLetter(a: char, b: char, c: char, d: char, e: char)
    requires a != c
    ensures StepSpec(GroupedArena(a, b, c, d, e), {0, 4, 8}, a) <= {1, 2}
  {
    var A := GroupedArena(a, b, c, d, e);
    forall j | j in Moved(A, {0, 4, 8}, a)
      ensures j == 1
    {
      var i, edge :| i in {0, 4, 8} && edge in EdgesOf(A, i) && Matches(edge.symbol, a) && edge.target == j;
    }
    ClosureLeast(A, Moved(A, {0, 4, 8}, a), {1, 2});
  }

  /** `c` does not continue the first branch when `b` is another letter, so
      nothing survives `ace`. */
  lemma GroupedDeadEnd(a: char, b: char, c: char, d: char, e: char)
    requires a != c && b != c
    ensures var A := GroupedArena(a, b, c, d, e);
      StepSpec(A, StepSpec(A, StepSpec(A, {0, 4, 8}, a), c), e) == {}
  {
    GroupedFirstLetter(a, b, c, d, e);
    DiesAtSecond(GroupedArena(a, b, c, d, e), {0, 4, 8}, a, c, e, {1, 2});
  }

  /** The automaton accepts "abe" and "cde", and, when the branches start
      with different letters and `b` is not `c`, rejects "ace". */
  lemma GroupedAccepts(a: char, b: char, c: char, d: char, e: char)
    ensures var nfa := Nfa(GroupedArena(a, b, c, d, e), Fragment(8, [11]));
      && Accepts(nfa, [a, b, e])
      && Accepts(nfa, [c, d, e])
      && (a != c && b != c ==> !Accepts(nfa, [a, c, e]))
  {
    var nfa := Nfa(GroupedArena(a, b, c, d, e), Fragment(8, [11]));
    GroupedStart(a, b, c, d, e);
    ActiveThree(nfa, [a, b, e]);
    GroupedFirstWord(a, b, c, d, e);
    ActiveThree(nfa, [c, d, e]);
    GroupedSecondWord(a, b, c, d, e);
    if a != c && b != c {
      ActiveThree(nfa, [a, c, e]);
      GroupedDeadEnd(a, b, c, d, e);
    }
  }

  /** `(ab|cd)e` matches "abe" and "cde", and, when the branches start with
      different letters and `b` is not `c`, rejects "ace". */
  lemma GroupedMatch(a: char, b: char, c: char, d: char, e: char)
    requires Plain(a) && Plain(b) && Plain(c) && Plain(d) && Plain(e)
    ensures MatchOutcome(GroupedPattern(a, b, c, d, e), [a, b, e]) == Ok(true)
    ensures MatchOutcome(GroupedPattern(a, b, c, d, e), [c, d, e]) == Ok(true)
    ensures a != c && b != c ==> MatchOutcome(GroupedPattern(a, b, c, d, e), [a, c, e]) == Ok(false)
  {
    GroupedPostfix(a, b, c, d, e);
    GroupedBuild(a, b, c, d, e);
    GroupedAccepts(a, b, c, d, e);
  }

  /** The checks on `(ab|cd)e`: "abe" and "cde" match, "ace" does not. */
  lemma GroupedExamples(text: string)
    requires text in {"abe", "cde", "ace"}
    ensures MatchOutcome("(ab|cd)e", text) == Ok(text != "ace")
  {
    assert "(ab|cd)e" == GroupedPattern('a', 'b', 'c', 'd', 'e');
    GroupedMatch('a', 'b', 'c', 'd', 'e');
    if text == "abe" {
      assert text == ['a', 'b', 'e'];
    } else if text == "cde" {
      assert text == ['c', 'd', 'e'];
    } else {
      assert text == ['a', 'c', 'e'];
    }
  }
}
