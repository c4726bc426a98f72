module Samples {
  import opened Syntax
  import opened Concat
  import opened Postfix
  import opened Thompson
  import opened Simulation
  import opened Pipeline

  /** The automaton for one literal under a quantifier, state by state. */
  function QuantifiedArena(c: char, q: char): seq<seq<Edge>>
  {
    [[Edge(Some(Char(c)), 1)], LoopEdges(q, 0, 3), StartEdges(q, 0, 3), []]
  }

  lemma QuantifiedPostfix(c: char, q: char)
    requires c !in MetaChars && c != '&' && q in Quantifiers
    ensures ToPostfix([c, q]) == Ok([Char(c), Op(q)])
  {
    QuantifiedInsert(c, q);
    QuantifiedScan(c, q);
  }

  /** No marker goes in front of a quantifier. */
  lemma QuantifiedInsert(c: char, q: char)
    requires q in Quantifiers
    ensures InsertConcat([c, q]) == [c, q]
  {
    var p := [c, q];
    assert !MarkBefore(p, 1);
    assert p[..1] == [c] && [c][..0] == [];
    assert InsertConcat([c]) == [c];
  }

  /** The literal goes straight out; the quantifier waits on the stack until
      the final loop. */
  lemma QuantifiedScan(c: char, q: char)
    requires c !in MetaChars && c != '&' && q in Quantifiers
    ensures ScanFrom(Shunt([], []), [c, q]) == Ok([Char(c), Op(q)])
  {
    var s0 := Shunt([], []);
    var s1 := Shunt([Char(c)], []);
    var s2 := Shunt([Char(c)], [q]);
    assert [] + [Char(c)] == [Char(c)] && [] + [q] == [q];
    assert ShuntStep(s0, c) == Ok(s1);
    assert PopWhile(s1, q) == s1;
    assert ShuntStep(s1, q) == Ok(s2);
    assert [c, q][1..] == [q] && [q][1..] == [];
    assert [q][..0] == [] && [Char(c)] + [Op(q)] == [Char(c), Op(q)];
    assert Drain(Shunt([Char(c), Op(q)], [])) == Ok([Char(c), Op(q)]);
    assert Drain(s2) == Ok([Char(c), Op(q)]);
    assert ScanFrom(s2, []) == Drain(s2);
    assert ScanFrom(s1, [q]) == ScanFrom(s2, []);
  }

  lemma QuantifiedBuild(c: char, q: char)
    requires q in Quantifiers
    ensures Construct([Char(c), Op(q)]) == Ok(Nfa(QuantifiedArena(c, q), Fragment(2, [3])))
  {
    var b0 := Builder([], []);
    var b1 := Leaf(b0, Char(c));
    assert Apply(b0, Char(c)) == Ok(b1);
    assert [Char(c), Op(q)][1..] == [Op(q)];
    assert b1.stack == [Fragment(0, [1])] && |b1.arena| == 2;
    var b2 := Quantify(b1, q);
    assert Apply(b1, Op(q)) == Ok(b2);
    assert [Op(q)][1..] == [];
    var grown := b1.arena + [StartEdges(q, 0, 3), []];
    LinkOne(grown, 1, LoopEdges(q, 0, 3));
    assert b2.arena[0] == QuantifiedArena(c, q)[0];
    assert b2.arena[1] == QuantifiedArena(c, q)[1];
    assert b2.arena[2] == QuantifiedArena(c, q)[2];
    assert b2.arena[3] == QuantifiedArena(c, q)[3];
    assert b2.arena == QuantifiedArena(c, q);
    assert b2.stack == [Fragment(2, [3])];
    assert BuildFrom(b2, []) == Ok(b2);
    assert BuildFrom(b1, [Op(q)]) == Ok(b2);
    assert BuildFrom(b0, [Char(c), Op(q)]) == Ok(b2);
  }

  /** Every character of `text` is `c`. */
  predicate AllAre(text: string, c: char)
  {
    forall k :: 0 <= k < |text| ==> text[k] == c
  }

  /** The texts a quantified literal stands for: any number of copies of it
      for `*`, at least one for `+`, at most one for `?`. */
  predicate InLanguage(c: char, q: char, text: string)
  {
    AllAre(text, c) && (q == '+' ==> |text| >= 1) && (q == '?' ==> |text| <= 1)
  }

  /** Only the literal edge out of state 0 lets a character through. */
  lemma QuantifiedMoved(c: char, q: char, states: set<nat>, d: char)
    requires q in Quantifiers
    ensures Moved(QuantifiedArena(c, q), states, d) == if 0 in states && d == c then {1} else {}
  {
    var A := QuantifiedArena(c, q);
    forall j | j in Moved(A, states, d)
      ensures 0 in states && d == c && j == 1
    {
      var i, e :| i in states && e in EdgesOf(A, i) && Matches(e.symbol, d) && e.target == j;
      assert i == 0;
    }
    if 0 in states && d == c {
      assert Edge(Some(Char(c)), 1) in EdgesOf(A, 0);
    }
  }

  /** The closure of the fresh start state: the operand's start, and the
      fresh accept unless at least one pass is required. */
  lemma QuantifiedStart(c: char, q: char)
    requires q in Quantifiers
    ensures Closure(QuantifiedArena(c, q), {2}) == if q == '+' then {0, 2} else {0, 2, 3}
  {
    var A := QuantifiedArena(c, q);
    var V: set<nat> := if q == '+' then {0, 2} else {0, 2, 3};
    ClosureLeast(A, {2}, V);
    ReachesSelf(A, {}, 2);
    ClosureMember(A, {2}, 2);
    ReachesEdge(A, 2, 0);
    ClosureMember(A, {2}, 0);
    if q != '+' {
      ReachesEdge(A, 2, 3);
      ClosureMember(A, {2}, 3);
    }
  }

  /** The closure after the literal: back to its start unless it may occur
      only once, and the fresh accept. */
  lemma QuantifiedAfter(c: char, q: char)
    requires q in Quantifiers
    ensures Closure(QuantifiedArena(c, q), {1}) == if q == '?' then {1, 3} else {0, 1, 3}
  {
    var A := QuantifiedArena(c, q);
    var V: set<nat> := if q == '?' then {1, 3} else {0, 1, 3};
    ClosureLeast(A, {1}, V);
    ReachesSelf(A, {}, 1);
    ClosureMember(A, {1}, 1);
    ReachesEdge(A, 1, 3);
    ClosureMember(A, {1}, 3);
    if q != '?' {
      ReachesEdge(A, 1, 0);
      ClosureMember(A, {1}, 0);
    }
  }

  /** The active set after each text, as the three automata run. */
  ghost function Expected(c: char, q: char, text: string): set<nat>
  {
    if text == [] then (if q == '+' then {0, 2} else {0, 2, 3})
    else if AllAre(text, c) && (q != '?' || |text| == 1) then (if q == '?' then {1, 3} else {0, 1, 3})
    else {}
  }

  /** How `Expected` grows by one character: the literal leaves state 0
      for state 1, and nothing else lets a character through. */
  lemma ExpectedStep(c: char, q: char, text: string)
    requires text != []
    ensures var prior := text[..|text| - 1];
      Expected(c, q, text) ==
        if 0 in Expected(c, q, prior) && text[|text| - 1] == c then (if q == '?' then {1, 3} else {0, 1, 3}) else {}
  {
    var prior := text[..|text| - 1];
    assert AllAre(text, c) <==> AllAre(prior, c) && text[|text| - 1] == c;
    assert 0 in Expected(c, q, prior) <==> prior == [] || (q != '?' && AllAre(prior, c));
  }

  lemma {:induction false} QuantifiedActive(c: char, q: char, text: string)
    requires q in Quantifiers
    ensures Active(Nfa(QuantifiedArena(c, q), Fragment(2, [3])), text) == Expected(c, q, text)
    decreases |text|
  {
    var A := QuantifiedArena(c, q);
    var nfa := Nfa(A, Fragment(2, [3]));
    if text == [] {
      QuantifiedStart(c, q);
    } else {
      var prior := text[..|text| - 1];
      var d := text[|text| - 1];
      QuantifiedActive(c, q, prior);
      var before := Active(nfa, prior);
      assert Active(nfa, text) == Closure(A, Moved(A, before, d));
      QuantifiedMoved(c, q, before, d);
      ExpectedStep(c, q, text);
      if 0 in before && d == c {
        QuantifiedAfter(c, q);
      } else {
        ClosureEmpty(A);
      }
    }
  }

  /** `full_match` on a literal under a quantifier answers exactly whether the
      text is in the quantified language. */
  lemma QuantifiedMatch(c: char, q: char, text: string)
    requires c !in MetaChars && c != '&' && q in Quantifiers
    ensures MatchOutcome([c, q], text) == Ok(InLanguage(c, q, text))
  {
    QuantifiedPostfix(c, q);
    QuantifiedBuild(c, q);
    QuantifiedActive(c, q, text);
  }

  /** The `*` checks of the module's own test block: "" and "aaaa" match,
      "b" does not. */
  lemma StarExamples(text: string)
    requires text in {"", "aaaa", "b"}
    ensures MatchOutcome("a*", text) == Ok(text != "b")
  {
    QuantifiedMatch('a', '*', text);
    if text == "b" {
      assert text[0] == 'b';
      assert !InLanguage('a', '*', text);
    } else {
      assert InLanguage('a', '*', text);
    }
  }

  /** The `+` checks of the module's own test block: "a" and "aaa" match,
      "" and "b" do not. */
  lemma PlusExamples(text: string)
    requires text in {"", "a", "aaa", "b"}
    ensures MatchOutcome("a+", text) == Ok(text in {"a", "aaa"})
  {
    QuantifiedMatch('a', '+', text);
    if text == "b" {
      assert text[0] == 'b';
      assert !InLanguage('a', '+', text);
    } else if text == "" {
      assert !InLanguage('a', '+', text);
    } else {
      assert InLanguage('a', '+', text);
    }
  }

  /** The `?` checks of the module's own test block: "" and "a" match, "aa"
      does not. */
  lemma OptionalExamples(text: string)
    requires text in {"", "a", "aa"}
    ensures MatchOutcome("a?", text) == Ok(text != "aa")
  {
    QuantifiedMatch('a', '?', text);
    if text == "aa" {
      assert !InLanguage('a', '?', text);
    } else {
      assert InLanguage('a', '?', text);
    }
  }

  /** The empty pattern leaves no fragment, whatever the text. */
  lemma EmptyPatternRejected(text: string)
    ensures MatchOutcome("", text) == Err(LeftoverFragments)
  {
    assert InsertConcat("") == "";
    assert ToPostfix("") == Ok([]);
    EmptyPostfixLeftover();
  }

  /** An unclosed parenthesis is reported, whatever the text. */
  lemma UnclosedRejected(text: string)
    ensures MatchOutcome("(a", text) == Err(MismatchedParentheses)
  {
    assert "(a"[..1] == "(" && "("[..0] == "";
    assert Depth("(a") == 1;
    MatchErrors("(a", text, text);
  }

  /** A quantifier with nothing in front of it has no operand. */
  lemma BareQuantifierRejected(text: string)
    ensures MatchOutcome("*", text) == Err(InsufficientOperands)
  {
    assert "*"[..0] == "";
    assert InsertConcat("*") == "*";
    var s1 := Shunt([], ['*']);
    assert PopWhile(Shunt([], []), '*') == Shunt([], []);
    assert ShuntStep(Shunt([], []), '*') == Ok(s1);
    assert "*"[1..] == "";
    assert s1.stack[..0] == [];
    assert [] + [Op('*')] == [Op('*')];
    assert Drain(Shunt([Op('*')], [])) == Ok([Op('*')]);
    assert Drain(s1) == Ok([Op('*')]);
    assert ScanFrom(s1, "") == Drain(s1);
    assert ScanFrom(Shunt([], []), "*") == ScanFrom(s1, "");
    assert ToPostfix("*") == Ok([Op('*')]);
    assert Height([Op('*')][..0]) < Arity([Op('*')][0]);
    ConstructErrors([Op('*')]);
  }
}
