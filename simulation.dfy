/** Stage 4: subset simulation of the automaton. The active set starts as
    the epsilon closure of the start state; each text character moves it
    along the edges that let the character through and closes it again; the
    text matches when the final active set holds an accepting state. */
module Simulation {
  import opened Syntax
  import opened Thompson

  /** The edge list of a state; a state outside the arena has none. */
  function EdgesOf(arena: seq<seq<Edge>>, i: nat): seq<Edge>
  {
    if i < |arena| then arena[i] else []
  }

  /** An epsilon edge leads from `i` to `j`. */
  predicate EpsStep(arena: seq<seq<Edge>>, i: nat, j: nat)
  {
    Edge(None, j) in EdgesOf(arena, i)
  }

  /** Whether an edge label lets `c` through: a literal leaf carrying `c`, or
      the wildcard. Epsilon edges and any other label do not. */
  predicate Matches(symbol: Option<Token>, c: char)
  {
    symbol == Some(Char(c)) || symbol == Some(Dot)
  }

  /** Every state some edge of the arena leads to. */
  function Targets(arena: seq<seq<Edge>>): set<nat>
  {
    set i, k | 0 <= i < |arena| && 0 <= k < |arena[i]| :: arena[i][k].target
  }

  /** `path` follows epsilon edges and never enters `avoid`. */
  ghost predicate Walk(arena: seq<seq<Edge>>, avoid: set<nat>, path: seq<nat>)
  {
    && (forall k :: 0 <= k < |path| ==> path[k] !in avoid)
    && (forall k :: 0 <= k < |path| - 1 ==> EpsStep(arena, path[k], path[k + 1]))
  }

  /** `j` can be reached from `s` by zero or more epsilon edges without
      entering `avoid`. */
  ghost predicate Reaches(arena: seq<seq<Edge>>, avoid: set<nat>, s: nat, j: nat)
  {
    exists path :: |path| >= 1 && path[0] == s && path[|path| - 1] == j && Walk(arena, avoid, path)
  }

  /** The epsilon closure of a set of states. */
  ghost function Closure(arena: seq<seq<Edge>>, seeds: set<nat>): set<nat>
  {
    set j | j in seeds + Targets(arena) && exists s :: s in seeds && Reaches(arena, {}, s, j)
  }

  /** The targets of the edges that let `c` through, leaving from `states`. */
  function Moved(arena: seq<seq<Edge>>, states: set<nat>, c: char): set<nat>
  {
    set i, e | i in states && e in EdgesOf(arena, i) && Matches(e.symbol, c) :: e.target
  }

  /** The targets of the edges of a list that let `c` through. */
  function MovedFrom(edges: seq<Edge>, c: char): set<nat>
  {
    if edges == [] then {}
    else MovedFrom(edges[..|edges| - 1], c) + (if Matches(edges[|edges| - 1].symbol, c) then {edges[|edges| - 1].target} else {})
  }

  /** What `step` returns: the closure of the moved states. */
  ghost function StepSpec(arena: seq<seq<Edge>>, states: set<nat>, c: char): set<nat>
  {
    Closure(arena, Moved(arena, states, c))
  }

  /** The active set after reading `text`. */
  ghost function Active(nfa: Nfa, text: string): set<nat>
  {
    if text == [] then Closure(nfa.arena, {nfa.fragment.start})
    else StepSpec(nfa.arena, Active(nfa, text[..|text| - 1]), text[|text| - 1])
  }

  /** The automaton accepts the whole text. */
  ghost predicate Accepts(nfa: Nfa, text: string)
  {
    exists s :: s in Active(nfa, text) && s in nfa.fragment.accepts
  }

  /** The targets of the epsilon edges of a list, in order. */
  function EpsTargets(edges: seq<Edge>): (r: seq<nat>)
    ensures forall j :: j in r <==> Edge(None, j) in edges
  {
    if edges == [] then []
    else EpsTargets(edges[..|edges| - 1]) + (if edges[|edges| - 1].symbol == None then [edges[|edges| - 1].target] else [])
  }

  // ---------------------------------------------------------------------
  // Epsilon paths

  lemma ReachesSelf(arena: seq<seq<Edge>>, avoid: set<nat>, s: nat)
    requires s !in avoid
    ensures Reaches(arena, avoid, s, s)
  {
    assert Walk(arena, avoid, [s]);
  }

  lemma ReachesStep(arena: seq<seq<Edge>>, avoid: set<nat>, s: nat, i: nat, j: nat)
    requires Reaches(arena, avoid, s, i) && EpsStep(arena, i, j) && j !in avoid
    ensures Reaches(arena, avoid, s, j)
  {
    var path :| |path| >= 1 && path[0] == s && path[|path| - 1] == i && Walk(arena, avoid, path);
    var longer := path + [j];
    assert Walk(arena, avoid, longer);
  }

  /** A single epsilon edge is a path. */
  lemma ReachesEdge(arena: seq<seq<Edge>>, i: nat, j: nat)
    requires EpsStep(arena, i, j)
    ensures Reaches(arena, {}, i, j)
  {
    assert Walk(arena, {}, [i, j]);
  }

  lemma ReachesFrom(arena: seq<seq<Edge>>, avoid: set<nat>, s: nat, j: nat)
    requires Reaches(arena, avoid, s, j)
    ensures s !in avoid && Reaches(arena, {}, s, j)
  {
    var path :| |path| >= 1 && path[0] == s && path[|path| - 1] == j && Walk(arena, avoid, path);
    assert Walk(arena, {}, path);
  }

  /** A reachable state is the start or the target of some edge. */
  lemma ReachesTarget(arena: seq<seq<Edge>>, avoid: set<nat>, s: nat, j: nat)
    requires Reaches(arena, avoid, s, j)
    ensures j == s || j in Targets(arena)
  {
    var path :| |path| >= 1 && path[0] == s && path[|path| - 1] == j && Walk(arena, avoid, path);
    if |path| > 1 {
      var p := path[|path| - 2];
      assert EpsStep(arena, p, j);
      var k :| 0 <= k < |arena[p]| && arena[p][k] == Edge(None, j);
      assert arena[p][k].target == j;
    }
  }

  /** A set containing `s` that every epsilon edge leaving it stays in (or
      enters `avoid`) contains every state reachable from `s` avoiding
      `avoid`. */
  lemma ClosedContains(arena: seq<seq<Edge>>, avoid: set<nat>, V: set<nat>, s: nat, j: nat)
    requires s in V
    requires forall i, m :: i in V && EpsStep(arena, i, m) && m !in avoid ==> m in V
    requires Reaches(arena, avoid, s, j)
    ensures j in V
  {
    var path :| |path| >= 1 && path[0] == s && path[|path| - 1] == j && Walk(arena, avoid, path);
    var k := 0;
    while k < |path| - 1
      invariant 0 <= k < |path| && path[k] in V
    {
      assert EpsStep(arena, path[k], path[k + 1]) && path[k + 1] !in avoid;
      k := k + 1;
    }
  }

  lemma ClosureMember(arena: seq<seq<Edge>>, seeds: set<nat>, j: nat)
    ensures j in Closure(arena, seeds) <==> exists s :: s in seeds && Reaches(arena, {}, s, j)
  {
    if exists s :: s in seeds && Reaches(arena, {}, s, j) {
      var s :| s in seeds && Reaches(arena, {}, s, j);
      ReachesTarget(arena, {}, s, j);
    }
  }

  /** A closure has no epsilon edge leaving it. */
  lemma ClosureClosed(arena: seq<seq<Edge>>, seeds: set<nat>)
    ensures forall i, m :: i in Closure(arena, seeds) && EpsStep(arena, i, m) ==> m in Closure(arena, seeds)
  {
    forall i, m | i in Closure(arena, seeds) && EpsStep(arena, i, m)
      ensures m in Closure(arena, seeds)
    {
      ClosureMember(arena, seeds, i);
      var s :| s in seeds && Reaches(arena, {}, s, i);
      ReachesStep(arena, {}, s, i, m);
      ClosureMember(arena, seeds, m);
    }
  }

  // ---------------------------------------------------------------------
  // The closure and the step

  /** Every pending state is one the closure may add: an edge target or the
      seed, and either visited before the call or reachable from the seed. */
  ghost predicate Pending(arena: seq<seq<Edge>>, visited: set<nat>, s: nat, work: seq<nat>)
  {
    forall k :: 0 <= k < |work| ==> work[k] in Targets(arena) + {s} && (work[k] in visited || Reaches(arena, visited, s, work[k]))
  }

  /** Every epsilon edge out of a newly visited state leads to a visited or a
      pending state. */
  ghost predicate Frontier(arena: seq<seq<Edge>>, visited: set<nat>, seen: set<nat>, work: seq<nat>)
  {
    forall i, m :: i in seen && i !in visited && EpsStep(arena, i, m) ==> m in seen || m in work
  }

  /** The worklist invariant of the closure routine: `seen` grows `visited`
      by states reachable from `s`, `added` is `states` grown by the same
      states, the seed is seen or pending, and the frontier is pending. */
  ghost predicate ClosureInv(arena: seq<seq<Edge>>, states: set<nat>, visited: set<nat>, s: nat,
                             added: set<nat>, seen: set<nat>, work: seq<nat>)
  {
    && visited <= seen
    && added == states + (seen - visited)
    && (forall j :: j in seen && j !in visited ==> Reaches(arena, visited, s, j))
    && Pending(arena, visited, s, work)
    && (s in seen || s in work)
    && Frontier(arena, visited, seen, work)
  }

  /** `add_empty_closure`: adds to `visited` (and to `states`) every state
      reachable from `s` by epsilon edges without passing through a state
      that was already visited. The recursion is an explicit worklist; the
      visited set makes it stop on epsilon cycles. */
  method AddEmptyClosure(arena: seq<seq<Edge>>, states: set<nat>, s: nat, visited: set<nat>)
    returns (states': set<nat>, visited': set<nat>)
    ensures forall j :: j in visited' <==> j in visited || Reaches(arena, visited, s, j)
    ensures states' == states + (visited' - visited)
  {
    ghost var U := Targets(arena) + {s};
    states', visited' := states, visited;
    var work := [s];
    ClosureStart(arena, states, visited, s);
    while work != []
      invariant ClosureInv(arena, states, visited, s, states', visited', work)
      decreases |U - visited'|, |work|
    {
      var w := work[|work| - 1];
      ghost var popped := work;
      work := work[..|work| - 1];
      assert popped == work + [w];
      if w !in visited' {
        VisitKeeps(arena, states, visited, s, states', visited', work, w);
        MeasureDrops(U, visited', w);
        visited' := visited' + {w};
        states' := states' + {w};
        work := work + EpsTargets(EdgesOf(arena, w));
      } else {
        SkipKeeps(arena, states, visited, s, states', visited', work, w);
      }
    }
    Complete(arena, visited, s, visited');
  }

  lemma ClosureStart(arena: seq<seq<Edge>>, states: set<nat>, visited: set<nat>, s: nat)
    ensures ClosureInv(arena, states, visited, s, states, visited, [s])
  {
    if s !in visited {
      ReachesSelf(arena, visited, s);
    }
  }

  lemma VisitKeeps(arena: seq<seq<Edge>>, states: set<nat>, visited: set<nat>, s: nat,
                   added: set<nat>, seen: set<nat>, work: seq<nat>, w: nat)
    requires ClosureInv(arena, states, visited, s, added, seen, work + [w])
    requires w !in seen
    ensures w in Targets(arena) + {s}
    ensures ClosureInv(arena, states, visited, s, added + {w}, seen + {w}, work + EpsTargets(EdgesOf(arena, w)))
  {
    var next := EpsTargets(EdgesOf(arena, w));
    var work' := work + next;
    assert (work + [w])[|work|] == w;
    assert Reaches(arena, visited, s, w);
    forall k | 0 <= k < |work'|
      ensures work'[k] in Targets(arena) + {s} && (work'[k] in visited || Reaches(arena, visited, s, work'[k]))
    {
      if k < |work| {
        assert work'[k] == (work + [w])[k];
      } else {
        var m := work'[k];
        assert m in next;
        assert EpsStep(arena, w, m);
        if m !in visited {
          ReachesStep(arena, visited, s, w, m);
        }
        ReachesFrom(arena, visited, s, w);
        ReachesStep(arena, {}, s, w, m);
        ReachesTarget(arena, {}, s, m);
      }
    }
    forall i, m | i in seen + {w} && i !in visited && EpsStep(arena, i, m)
      ensures m in seen + {w} || m in work'
    {
      if i == w {
        assert m in next;
      } else if m !in seen {
        assert m in work + [w];
      }
    }
    assert s in seen || s in work + [w];
  }

  lemma SkipKeeps(arena: seq<seq<Edge>>, states: set<nat>, visited: set<nat>, s: nat,
                  added: set<nat>, seen: set<nat>, work: seq<nat>, w: nat)
    requires ClosureInv(arena, states, visited, s, added, seen, work + [w])
    requires w in seen
    ensures ClosureInv(arena, states, visited, s, added, seen, work)
  {
    forall k | 0 <= k < |work|
      ensures work[k] in Targets(arena) + {s} && (work[k] in visited || Reaches(arena, visited, s, work[k]))
    {
      assert work[k] == (work + [w])[k];
    }
    forall i, m | i in seen && i !in visited && EpsStep(arena, i, m)
      ensures m in seen || m in work
    {
      assert m in seen || m in work + [w];
    }
    assert s in seen || s in work + [w];
  }

  /** With nothing pending, the visited states hold everything reachable. */
  lemma Complete(arena: seq<seq<Edge>>, visited: set<nat>, s: nat, seen: set<nat>)
    requires Frontier(arena, visited, seen, []) && s in seen
    requires visited <= seen
    requires forall j :: j in seen && j !in visited ==> Reaches(arena, visited, s, j)
    ensures forall j :: j in seen <==> j in visited || Reaches(arena, visited, s, j)
  {
    forall j | Reaches(arena, visited, s, j)
      ensures j in seen
    {
      ReachesFrom(arena, visited, s, j);
      ClosedContains(arena, visited, seen - visited, s, j);
    }
  }

  lemma MeasureDrops(U: set<nat>, seen: set<nat>, w: nat)
    requires w in U && w !in seen
    ensures |U - (seen + {w})| < |U - seen|
  {
    assert U - (seen + {w}) == (U - seen) - {w};
  }


  /** The closure of `done + {s}`, grown from the closure of `done` by one
      call of the closure routine. */
  lemma ClosureAdd(arena: seq<seq<Edge>>, done: set<nat>, s: nat, grown: set<nat>)
    requires forall j :: j in grown <==> j in Closure(arena, done) || Reaches(arena, Closure(arena, done), s, j)
    ensures grown == Closure(arena, done + {s})
  {
    var V := Closure(arena, done);
    ClosureClosed(arena, done);
    forall j
      ensures j in grown <==> j in Closure(arena, done + {s})
    {
      ClosureMember(arena, done, j);
      ClosureMember(arena, done + {s}, j);
      if Reaches(arena, V, s, j) {
        ReachesFrom(arena, V, s, j);
      }
      if Reaches(arena, {}, s, j) && j !in V {
        if s in V {
          ClosedContains(arena, {}, V, s, j);
        } else {
          ClosedAvoids(arena, V, s, j);
        }
      }
    }
  }

  /** Leaving a set with no epsilon edge out of it, a path never comes back. */
  lemma ClosedAvoids(arena: seq<seq<Edge>>, V: set<nat>, s: nat, j: nat)
    requires forall i, m :: i in V && EpsStep(arena, i, m) ==> m in V
    requires s !in V && j !in V && Reaches(arena, {}, s, j)
    ensures Reaches(arena, V, s, j)
  {
    var path :| |path| >= 1 && path[0] == s && path[|path| - 1] == j && Walk(arena, {}, path);
    forall k | 0 <= k < |path|
      ensures path[k] !in V
    {
      var n := k;
      while n < |path| - 1
        invariant k <= n < |path| && (path[k] in V ==> path[n] in V)
      {
        assert EpsStep(arena, path[n], path[n + 1]);
        n := n + 1;
      }
    }
    assert Walk(arena, V, path);
  }

  /** The inner loop of `step` over one state's edges: add the target of
      every edge that lets `c` through. */
  method AddMoves(edges: seq<Edge>, c: char, acc: set<nat>) returns (acc': set<nat>)
    ensures acc' == acc + MovedFrom(edges, c)
  {
    acc' := acc;
    for k := 0 to |edges|
      invariant acc' == acc + MovedFrom(edges[..k], c)
    {
      var ch := edges[k].symbol;
      assert edges[..k + 1][..k] == edges[..k];
      if ch.Some? {
        if ch.value.Char? && ch.value.c == c {
          acc' := acc' + {edges[k].target};
        } else if ch.value.Dot? {
          acc' := acc' + {edges[k].target};
        }
      }
    }
    assert edges[..|edges|] == edges;
  }

  /** `step`: collect the targets of the edges that let `c` through, then
      close them. */
  method Step(arena: seq<seq<Edge>>, states: set<nat>, c: char) returns (closure: set<nat>)
    ensures closure == StepSpec(arena, states, c)
  {
    var newStates: set<nat> := {};
    var rest := states;
    ghost var done: set<nat> := {};
    while rest != {}
      invariant done + rest == states
      invariant newStates == Moved(arena, done, c)
      decreases |rest|
    {
      var s :| s in rest;
      newStates := AddMoves(EdgesOf(arena, s), c, newStates);
      MovedAdd(arena, done, s, c);
      rest := rest - {s};
      done := done + {s};
    }
    assert done == states;
    closure := CloseAll(arena, newStates);
  }

  /** The closing loop of `step`: close the moved states one at a time,
      sharing one visited set. */
  method CloseAll(arena: seq<seq<Edge>>, seeds: set<nat>) returns (closure: set<nat>)
    ensures closure == Closure(arena, seeds)
  {
    closure := {};
    var visited: set<nat> := {};
    var todo := seeds;
    ghost var closed: set<nat> := {};
    ClosureEmpty(arena);
    while todo != {}
      invariant closed + todo == seeds
      invariant closure == visited == Closure(arena, closed)
      decreases |todo|
    {
      var s :| s in todo;
      closure, visited := AddEmptyClosure(arena, closure, s, visited);
      ClosureAdd(arena, closed, s, visited);
      todo := todo - {s};
      closed := closed + {s};
    }
    assert closed == seeds;
  }

  lemma {:induction false} MovedFromMember(edges: seq<Edge>, c: char, j: nat)
    ensures j in MovedFrom(edges, c) <==> exists e :: e in edges && Matches(e.symbol, c) && e.target == j
    decreases |edges|
  {
    if edges != [] {
      var init := edges[..|edges| - 1];
      MovedFromMember(init, c, j);
      assert edges == init + [edges[|edges| - 1]];
    }
  }

  lemma MovedAdd(arena: seq<seq<Edge>>, done: set<nat>, s: nat, c: char)
    ensures Moved(arena, done + {s}, c) == Moved(arena, done, c) + MovedFrom(EdgesOf(arena, s), c)
  {
    var edges := EdgesOf(arena, s);
    forall j
      ensures j in Moved(arena, done + {s}, c) <==> j in Moved(arena, done, c) + MovedFrom(edges, c)
    {
      MovedFromMember(edges, c, j);
      if j in Moved(arena, done + {s}, c) && j !in Moved(arena, done, c) {
        var i, e :| i in done + {s} && e in EdgesOf(arena, i) && Matches(e.symbol, c) && e.target == j;
      }
    }
  }

  lemma ClosureEmpty(arena: seq<seq<Edge>>)
    ensures Closure(arena, {}) == {}
  {
  }

  // ---------------------------------------------------------------------
  // Matching

  /** One more character of the text is one more step. */
  lemma ActiveSnoc(nfa: Nfa, text: string, i: nat)
    requires i < |text|
    ensures Active(nfa, text[..i + 1]) == StepSpec(nfa.arena, Active(nfa, text[..i]), text[i])
  {
    assert text[..i + 1][..i] == text[..i];
  }

  /** An empty active set stays empty. */
  lemma {:induction false} EmptyStaysEmpty(nfa: Nfa, text: string, n: nat)
    requires n <= |text| && Active(nfa, text[..n]) == {}
    ensures Active(nfa, text) == {}
    decreases |text| - n
  {
    if n < |text| {
      assert text[..n + 1][..n] == text[..n];
      assert Moved(nfa.arena, {}, text[n]) == {};
      ClosureEmpty(nfa.arena);
      EmptyStaysEmpty(nfa, text, n + 1);
    } else {
      assert text[..n] == text;
    }
  }

  /** `nfa_match`: close the start state, step once per character, giving up
      as soon as nothing is active, and finally look for an accepting state. */
  method NfaMatch(nfa: Nfa, text: string) returns (matched: bool)
    ensures matched <==> Accepts(nfa, text)
  {
    var currentStates, visited := AddEmptyClosure(nfa.arena, {}, nfa.fragment.start, {});
    assert currentStates == visited;
    ClosureAdd(nfa.arena, {}, nfa.fragment.start, visited);
    assert {} + {nfa.fragment.start} == {nfa.fragment.start};
    assert text[..0] == [];
    for i := 0 to |text|
      invariant currentStates == Active(nfa, text[..i])
    {
      currentStates := Step(nfa.arena, currentStates, text[i]);
      ActiveSnoc(nfa, text, i);
      if currentStates == {} {
        EmptyStaysEmpty(nfa, text, i + 1);
        return false;
      }
    }
    assert text[..|text|] == text;
    matched := exists s :: s in currentStates && s in nfa.fragment.accepts;
  }

  // ---------------------------------------------------------------------
  // Properties of the simulation

  /** The closure routine yields exactly the states reachable from `s` by
      epsilon edges, `s` included, when started on empty sets. */
  lemma AddEmptyClosureFromScratch(arena: seq<seq<Edge>>, s: nat, visited': set<nat>)
    requires forall j :: j in visited' <==> j in {} || Reaches(arena, {}, s, j)
    ensures visited' == Closure(arena, {s})
    ensures s in visited'
  {
    ReachesSelf(arena, {}, s);
    forall j
      ensures j in visited' <==> j in Closure(arena, {s})
    {
      ClosureMember(arena, {s}, j);
    }
  }

  /** A state is active after a step exactly when some edge leaving an
      active state lets `c` through to a state from which it is reachable by
      epsilon edges. */
  lemma StepMember(arena: seq<seq<Edge>>, states: set<nat>, c: char, j: nat)
    ensures j in StepSpec(arena, states, c) <==>
      exists i, e :: i in states && e in EdgesOf(arena, i) && Matches(e.symbol, c) && Reaches(arena, {}, e.target, j)
  {
    ClosureMember(arena, Moved(arena, states, c), j);
    if exists i, e :: i in states && e in EdgesOf(arena, i) && Matches(e.symbol, c) && Reaches(arena, {}, e.target, j) {
      var i, e :| i in states && e in EdgesOf(arena, i) && Matches(e.symbol, c) && Reaches(arena, {}, e.target, j);
      assert e.target in Moved(arena, states, c);
    }
  }

  /** The empty text is accepted exactly when the closure of the start state
      holds an accepting state. */
  lemma AcceptsEmpty(nfa: Nfa)
    ensures Accepts(nfa, "") <==> exists s :: s in nfa.fragment.accepts && Reaches(nfa.arena, {}, nfa.fragment.start, s)
  {
    forall s
      ensures s in Active(nfa, "") <==> Reaches(nfa.arena, {}, nfa.fragment.start, s)
    {
      ClosureMember(nfa.arena, {nfa.fragment.start}, s);
    }
  }

  /** The closure is the least epsilon-closed set holding the seeds. */
  lemma ClosureLeast(arena: seq<seq<Edge>>, seeds: set<nat>, V: set<nat>)
    requires seeds <= V
    requires forall i, m :: i in V && EpsStep(arena, i, m) ==> m in V
    ensures Closure(arena, seeds) <= V
  {
    forall j | j in Closure(arena, seeds)
      ensures j in V
    {
      ClosureMember(arena, seeds, j);
      var s :| s in seeds && Reaches(arena, {}, s, j);
      ClosedContains(arena, {}, V, s, j);
    }
  }

  /** Fewer active states never move to more states. */
  lemma StepMonotone(arena: seq<seq<Edge>>, A: set<nat>, B: set<nat>, c: char)
    requires A <= B
    ensures StepSpec(arena, A, c) <= StepSpec(arena, B, c)
  {
    assert Moved(arena, A, c) <= Moved(arena, B, c);
    forall j | j in StepSpec(arena, A, c)
      ensures j in StepSpec(arena, B, c)
    {
      ClosureMember(arena, Moved(arena, A, c), j);
      ClosureMember(arena, Moved(arena, B, c), j);
    }
  }
}
