/** Stage 3: Thompson's construction over the postfix tokens. Every `State`
    the builder creates is an index into an arena of edge lists, numbered in
    creation order; a fragment names its start state and its accepting
    states. Each operator pops its operands' fragments and wires them
    together with epsilon edges. */
module Thompson {
  import opened Syntax

  /** An edge of a state: `None` is an epsilon edge, otherwise the postfix
      token whose character it consumes. */
  datatype Edge = Edge(symbol: Option<Token>, target: nat)

  /** A partial automaton: a start state and its accepting states. */
  datatype Fragment = Fragment(start: nat, accepts: seq<nat>)

  /** The builder: the edge list of every state created so far, and the
      fragment stack (top last). */
  datatype Builder = Builder(arena: seq<seq<Edge>>, stack: seq<Fragment>)

  /** The finished automaton: the arena and the one fragment left. */
  datatype Nfa = Nfa(arena: seq<seq<Edge>>, fragment: Fragment)

  predicate IsBinary(t: Token)
  {
    t == Op('&') || t == Op('|')
  }

  predicate IsUnary(t: Token)
  {
    t == Op('*') || t == Op('+') || t == Op('?')
  }

  /** How many fragments a token pops; leaves pop none. */
  function Arity(t: Token): nat
  {
    if IsBinary(t) then 2 else if IsUnary(t) then 1 else 0
  }

  /** Append `extra` to the edge list of every state in `accs`, in order. An
      index outside the arena is skipped; in a well-formed builder there is
      none (see `ApplyGood`). */
  function Link(arena: seq<seq<Edge>>, accs: seq<nat>, extra: seq<Edge>): (r: seq<seq<Edge>>)
    ensures |r| == |arena|
    decreases |accs|
  {
    if accs == [] then arena
    else
      var prev := Link(arena, accs[..|accs| - 1], extra);
      var x := accs[|accs| - 1];
      if x < |prev| then prev[x := prev[x] + extra] else prev
  }

  /** `&`: the accepting states of the lower fragment get an epsilon edge to
      the start of the upper one; the result starts at the lower start and
      accepts where the upper one accepts. */
  function Join(b: Builder): Builder
    requires |b.stack| >= 2
  {
    var f2 := b.stack[|b.stack| - 1];
    var f1 := b.stack[|b.stack| - 2];
    Builder(Link(b.arena, f1.accepts, [Edge(None, f2.start)]),
            b.stack[..|b.stack| - 2] + [Fragment(f1.start, f2.accepts)])
  }

  /** `|`: a fresh start with epsilon edges to both operands' starts, and a
      fresh accepting state reached by epsilon from both operands' accepts. */
  function Union(b: Builder): Builder
    requires |b.stack| >= 2
  {
    var f2 := b.stack[|b.stack| - 1];
    var f1 := b.stack[|b.stack| - 2];
    var s := |b.arena|;
    var a := s + 1;
    var base := b.arena + [[Edge(None, f1.start), Edge(None, f2.start)], []];
    Builder(Link(Link(base, f1.accepts, [Edge(None, a)]), f2.accepts, [Edge(None, a)]),
            b.stack[..|b.stack| - 2] + [Fragment(s, [a])])
  }

  /** The edges of the fresh start state of a quantifier: into the operand,
      and straight to the fresh accept unless the operand is mandatory (`+`). */
  function StartEdges(q: char, entry: nat, exit: nat): seq<Edge>
  {
    if q == '+' then [Edge(None, entry)] else [Edge(None, entry), Edge(None, exit)]
  }

  /** The edges added to the operand's accepting states: back to its start
      unless it may occur only once (`?`), then to the fresh accept. */
  function LoopEdges(q: char, entry: nat, exit: nat): seq<Edge>
  {
    if q == '?' then [Edge(None, exit)] else [Edge(None, entry), Edge(None, exit)]
  }

  /** `*`, `+` or `?`: a fresh start and a fresh accept around the operand. */
  function Quantify(b: Builder, q: char): Builder
    requires |b.stack| >= 1
  {
    var f := b.stack[|b.stack| - 1];
    var s := |b.arena|;
    var a := s + 1;
    Builder(Link(b.arena + [StartEdges(q, f.start, a), []], f.accepts, LoopEdges(q, f.start, a)),
            b.stack[..|b.stack| - 1] + [Fragment(s, [a])])
  }

  /** A leaf token: two fresh states joined by one edge labelled with it. */
  function Leaf(b: Builder, t: Token): Builder
  {
    var s := |b.arena|;
    var a := s + 1;
    Builder(b.arena + [[Edge(Some(t), a)], []], b.stack + [Fragment(s, [a])])
  }

  /** The builder's handling of one postfix token. */
  function Apply(b: Builder, t: Token): Result<Builder>
  {
    if IsBinary(t) then
      if |b.stack| < 2 then Err(InsufficientOperands)
      else if t == Op('&') then Ok(Join(b)) else Ok(Union(b))
    else if IsUnary(t) then
      if |b.stack| < 1 then Err(InsufficientOperands) else Ok(Quantify(b, t.op))
    else Ok(Leaf(b, t))
  }

  /** The builder run from `b` over the remaining tokens. */
  function BuildFrom(b: Builder, toks: seq<Token>): Result<Builder>
    decreases |toks|
  {
    if |toks| == 0 then Ok(b)
    else
      match Apply(b, toks[0])
      case Err(e) => Err(e)
      case Ok(b') => BuildFrom(b', toks[1..])
  }

  /** What `thompson_construct` returns or raises for a postfix sequence. */
  function Construct(postfix: seq<Token>): Result<Nfa>
  {
    match BuildFrom(Builder([], []), postfix)
    case Err(e) => Err(e)
    case Ok(b) => if |b.stack| != 1 then Err(LeftoverFragments) else Ok(Nfa(b.arena, b.stack[0]))
  }

  // ---------------------------------------------------------------------
  // Well-formed builders

  /** Every edge points at a state of the arena. */
  predicate Closed(arena: seq<seq<Edge>>)
  {
    forall i, j :: 0 <= i < |arena| && 0 <= j < |arena[i]| ==> arena[i][j].target < |arena|
  }

  /** A fragment as the construction leaves it: its start in the arena and
      exactly one accepting state, which has no outgoing edge yet. */
  predicate SinkFragment(arena: seq<seq<Edge>>, f: Fragment)
  {
    f.start < |arena| && |f.accepts| == 1 && f.accepts[0] < |arena| && arena[f.accepts[0]] == []
  }

  /** The builder invariant: a closed arena, sink fragments, and no accepting
      state shared by two fragments of the stack. */
  predicate Good(b: Builder)
  {
    && Closed(b.arena)
    && (forall k :: 0 <= k < |b.stack| ==> SinkFragment(b.arena, b.stack[k]))
    && (forall k, l :: 0 <= k < l < |b.stack| ==> b.stack[k].accepts[0] != b.stack[l].accepts[0])
  }

  lemma LinkOne(arena: seq<seq<Edge>>, x: nat, extra: seq<Edge>)
    requires x < |arena|
    ensures Link(arena, [x], extra) == arena[x := arena[x] + extra]
  {
    assert [x][..0] == [];
  }

  /** Appending edges that point into the arena keeps it closed. */
  lemma AppendClosed(arena: seq<seq<Edge>>, x: nat, extra: seq<Edge>)
    requires Closed(arena) && x < |arena|
    requires forall j :: 0 <= j < |extra| ==> extra[j].target < |arena|
    ensures Closed(arena[x := arena[x] + extra])
  {
    var r: seq<seq<Edge>> := arena[x := arena[x] + extra];
    forall i: int, j: int | 0 <= i < |r| && 0 <= j < |r[i]|
      ensures r[i][j].target < |r|
    {
      if i == x && j >= |arena[x]| {
        assert r[i][j] == extra[j - |arena[x]|];
      }
    }
  }

  lemma FreshClosed(arena: seq<seq<Edge>>, start: seq<Edge>)
    requires Closed(arena)
    requires forall j :: 0 <= j < |start| ==> start[j].target < |arena| + 2
    ensures Closed(arena + [start, []])
  {
    var r: seq<seq<Edge>> := arena + [start, []];
    forall i: int, j: int | 0 <= i < |r| && 0 <= j < |r[i]|
      ensures r[i][j].target < |r|
    {
      if i < |arena| {
        assert r[i] == arena[i];
      }
    }
  }

  lemma FreshPair(arena: seq<seq<Edge>>, start: seq<Edge>, r: seq<seq<Edge>>)
    requires |r| == |arena| + 2 && r[..|arena|] == arena
    requires r[|arena|] == start && r[|arena| + 1] == []
    ensures r == arena + [start, []]
  {
    assert r == r[..|arena|] + [r[|arena|], r[|arena| + 1]];
  }

  /** The stack facts `Good` asks for, for a stack whose lower part is kept
      and whose accepting states are untouched. */
  lemma StackGood(prior: Builder, kept: nat, arena: seq<seq<Edge>>, top: Fragment)
    requires Good(prior) && kept <= |prior.stack| && Closed(arena)
    requires |arena| >= |prior.arena|
    requires forall k :: 0 <= k < kept ==> arena[prior.stack[k].accepts[0]] == []
    requires SinkFragment(arena, top)
    requires forall k :: 0 <= k < kept ==> prior.stack[k].accepts[0] != top.accepts[0]
    ensures Good(Builder(arena, prior.stack[..kept] + [top]))
  {
    var st := prior.stack[..kept] + [top];
    forall k | 0 <= k < |st|
      ensures SinkFragment(arena, st[k])
    {
      if k < kept {
        assert st[k] == prior.stack[k];
        assert SinkFragment(prior.arena, prior.stack[k]);
      }
    }
    forall k, l | 0 <= k < l < |st|
      ensures st[k].accepts[0] != st[l].accepts[0]
    {
      assert st[k] == prior.stack[k];
      if l < kept {
        assert st[l] == prior.stack[l];
      }
    }
  }

  lemma JoinGood(b: Builder)
    requires Good(b) && |b.stack| >= 2
    ensures Good(Join(b))
  {
    var n := |b.stack|;
    var f2 := b.stack[n - 1];
    var f1 := b.stack[n - 2];
    assert SinkFragment(b.arena, f1) && SinkFragment(b.arena, f2);
    var x := f1.accepts[0];
    assert f1.accepts == [x];
    LinkOne(b.arena, x, [Edge(None, f2.start)]);
    var arena := b.arena[x := b.arena[x] + [Edge(None, f2.start)]];
    AppendClosed(b.arena, x, [Edge(None, f2.start)]);
    forall k | 0 <= k < n - 2
      ensures arena[b.stack[k].accepts[0]] == []
    {
      assert SinkFragment(b.arena, b.stack[k]);
    }
    assert b.stack[n - 2].accepts[0] != b.stack[n - 1].accepts[0];
    StackGood(b, n - 2, arena, Fragment(f1.start, f2.accepts));
  }

  lemma UnionGood(b: Builder)
    requires Good(b) && |b.stack| >= 2
    ensures Good(Union(b))
  {
    var n := |b.stack|;
    var f2 := b.stack[n - 1];
    var f1 := b.stack[n - 2];
    assert SinkFragment(b.arena, f1) && SinkFragment(b.arena, f2);
    var s := |b.arena|;
    var a := s + 1;
    var base := b.arena + [[Edge(None, f1.start), Edge(None, f2.start)], []];
    FreshClosed(b.arena, [Edge(None, f1.start), Edge(None, f2.start)]);
    var x1 := f1.accepts[0];
    var x2 := f2.accepts[0];
    assert f1.accepts == [x1] && f2.accepts == [x2];
    LinkOne(base, x1, [Edge(None, a)]);
    var mid := base[x1 := base[x1] + [Edge(None, a)]];
    AppendClosed(base, x1, [Edge(None, a)]);
    LinkOne(mid, x2, [Edge(None, a)]);
    var arena := mid[x2 := mid[x2] + [Edge(None, a)]];
    AppendClosed(mid, x2, [Edge(None, a)]);
    assert Union(b).arena == arena;
    forall k | 0 <= k < n - 2
      ensures arena[b.stack[k].accepts[0]] == []
    {
      assert SinkFragment(b.arena, b.stack[k]);
      assert b.stack[k].accepts[0] != x1 && b.stack[k].accepts[0] != x2;
    }
    StackGood(b, n - 2, arena, Fragment(s, [a]));
  }

  lemma QuantifyGood(b: Builder, q: char)
    requires Good(b) && |b.stack| >= 1
    ensures Good(Quantify(b, q))
  {
    var n := |b.stack|;
    var f := b.stack[n - 1];
    assert SinkFragment(b.arena, f);
    var s := |b.arena|;
    var a := s + 1;
    var base := b.arena + [StartEdges(q, f.start, a), []];
    FreshClosed(b.arena, StartEdges(q, f.start, a));
    var x := f.accepts[0];
    assert f.accepts == [x];
    LinkOne(base, x, LoopEdges(q, f.start, a));
    var arena := base[x := base[x] + LoopEdges(q, f.start, a)];
    AppendClosed(base, x, LoopEdges(q, f.start, a));
    assert Quantify(b, q).arena == arena;
    forall k | 0 <= k < n - 1
      ensures arena[b.stack[k].accepts[0]] == []
    {
      assert SinkFragment(b.arena, b.stack[k]);
    }
    StackGood(b, n - 1, arena, Fragment(s, [a]));
  }

  lemma LeafGood(b: Builder, t: Token)
    requires Good(b)
    ensures Good(Leaf(b, t))
  {
    var n := |b.stack|;
    var s := |b.arena|;
    var arena := b.arena + [[Edge(Some(t), s + 1)], []];
    FreshClosed(b.arena, [Edge(Some(t), s + 1)]);
    forall k | 0 <= k < n
      ensures arena[b.stack[k].accepts[0]] == []
    {
      assert SinkFragment(b.arena, b.stack[k]);
    }
    assert b.stack[..n] == b.stack;
    StackGood(b, n, arena, Fragment(s, [s + 1]));
  }

  /** Every step keeps the builder invariant. */
  lemma ApplyGood(b: Builder, t: Token)
    requires Good(b)
    ensures Apply(b, t).Ok? ==> Good(Apply(b, t).value)
  {
    if IsBinary(t) {
      if |b.stack| >= 2 {
        if t == Op('&') { JoinGood(b); } else { UnionGood(b); }
      }
    } else if IsUnary(t) {
      if |b.stack| >= 1 { QuantifyGood(b, t.op); }
    } else {
      LeafGood(b, t);
    }
  }

  lemma {:induction false} BuildFromGood(b: Builder, toks: seq<Token>)
    requires Good(b)
    ensures BuildFrom(b, toks).Ok? ==> Good(BuildFrom(b, toks).value)
    decreases |toks|
  {
    if |toks| > 0 {
      ApplyGood(b, toks[0]);
      if Apply(b, toks[0]).Ok? {
        BuildFromGood(Apply(b, toks[0]).value, toks[1..]);
      }
    }
  }

  /** A finished automaton is closed, and its one accepting state has no
      outgoing edge. */
  lemma ConstructGood(postfix: seq<Token>)
    ensures Construct(postfix).Ok? ==>
      var m := Construct(postfix).value;
      Closed(m.arena) && SinkFragment(m.arena, m.fragment)
  {
    BuildFromGood(Builder([], []), postfix);
  }

  // ---------------------------------------------------------------------
  // Construction errors

  /** The number of fragments a token sequence leaves behind when run from an
      empty stack: a leaf pushes one, a quantifier replaces one, a binary
      operator replaces two by one. */
  function Height(toks: seq<Token>): int
  {
    if toks == [] then 0 else Height(toks[..|toks| - 1]) + 1 - Arity(toks[|toks| - 1])
  }

  /** Some operator finds fewer fragments on the stack than it pops. */
  predicate Underflows(toks: seq<Token>)
  {
    exists i :: 0 <= i < |toks| && Height(toks[..i]) < Arity(toks[i])
  }

  lemma ApplyHeight(b: Builder, t: Token)
    ensures Apply(b, t).Err? <==> |b.stack| < Arity(t)
    ensures Apply(b, t).Err? ==> Apply(b, t).error == InsufficientOperands
    ensures Apply(b, t).Ok? ==> |Apply(b, t).value.stack| == |b.stack| + 1 - Arity(t)
  {
  }

  lemma {:induction false} BuildFromHeight(done: seq<Token>, b: Builder, rest: seq<Token>)
    requires |b.stack| == Height(done) && !Underflows(done)
    ensures BuildFrom(b, rest).Err? <==> Underflows(done + rest)
    ensures BuildFrom(b, rest).Err? ==> BuildFrom(b, rest).error == InsufficientOperands
    ensures BuildFrom(b, rest).Ok? ==> |BuildFrom(b, rest).value.stack| == Height(done + rest)
    decreases |rest|
  {
    if |rest| == 0 {
      assert done + rest == done;
    } else {
      var t := rest[0];
      ApplyHeight(b, t);
      assert (done + rest)[..|done|] == done && (done + rest)[|done|] == t;
      if Apply(b, t).Ok? {
        var done' := done + [t];
        assert done'[..|done|] == done;
        assert !Underflows(done') by {
          forall i | 0 <= i < |done'|
            ensures Height(done'[..i]) >= Arity(done'[i])
          {
            if i < |done| {
              assert done'[..i] == done[..i];
            }
          }
        }
        assert done' + rest[1..] == done + rest;
        BuildFromHeight(done', Apply(b, t).value, rest[1..]);
      }
    }
  }

  /** `thompson_construct` fails for want of operands exactly when some
      operator finds too few fragments, fails with leftover fragments exactly
      when none does but the tokens leave other than one fragment, and
      succeeds otherwise. */
  lemma ConstructErrors(postfix: seq<Token>)
    ensures Construct(postfix) == Err(InsufficientOperands) <==> Underflows(postfix)
    ensures Construct(postfix) == Err(LeftoverFragments) <==> !Underflows(postfix) && Height(postfix) != 1
    ensures Construct(postfix).Ok? <==> !Underflows(postfix) && Height(postfix) == 1
  {
    assert !Underflows([]);
    BuildFromHeight([], Builder([], []), postfix);
    assert [] + postfix == postfix;
  }

  /** The empty postfix leaves no fragment at all. */
  lemma EmptyPostfixLeftover()
    ensures Construct([]) == Err(LeftoverFragments)
  {
    ConstructErrors([]);
  }

  // ---------------------------------------------------------------------
  // Append-only wiring

  predicate Epsilons(edges: seq<Edge>)
  {
    forall j :: 0 <= j < |edges| ==> edges[j].symbol == None
  }

  /** `after` grows `before` only by new states and by epsilon edges appended
      to existing ones: no edge is removed, reordered, retargeted or
      relabelled. */
  predicate Extends(before: seq<seq<Edge>>, after: seq<seq<Edge>>)
  {
    |before| <= |after| &&
    forall i :: 0 <= i < |before| ==> before[i] <= after[i] && Epsilons(after[i][|before[i]|..])
  }

  lemma ExtendsTrans(a: seq<seq<Edge>>, b: seq<seq<Edge>>, c: seq<seq<Edge>>)
    requires Extends(a, b) && Extends(b, c)
    ensures Extends(a, c)
  {
    forall i | 0 <= i < |a|
      ensures a[i] <= c[i] && Epsilons(c[i][|a[i]|..])
    {
      assert Epsilons(b[i][|a[i]|..]) && Epsilons(c[i][|b[i]|..]);
      forall j | 0 <= j < |c[i][|a[i]|..]|
        ensures c[i][|a[i]|..][j].symbol == None
      {
        var k := |a[i]| + j;
        if k < |b[i]| {
          assert c[i][k] == b[i][k] == b[i][|a[i]|..][j];
        } else {
          assert c[i][k] == c[i][|b[i]|..][k - |b[i]|];
        }
      }
    }
  }

  lemma AppendExtends(arena: seq<seq<Edge>>, x: nat, extra: seq<Edge>)
    requires x < |arena| && Epsilons(extra)
    ensures Extends(arena, arena[x := arena[x] + extra])
  {
    var r := arena[x := arena[x] + extra];
    assert r[x][|arena[x]|..] == extra;
    forall i | 0 <= i < |arena| && i != x
      ensures Epsilons(r[i][|arena[i]|..])
    {
      assert r[i][|arena[i]|..] == [];
    }
  }

  lemma {:induction false} LinkExtends(arena: seq<seq<Edge>>, accs: seq<nat>, extra: seq<Edge>)
    requires Epsilons(extra)
    ensures Extends(arena, Link(arena, accs, extra))
    decreases |accs|
  {
    if accs == [] {
      forall i | 0 <= i < |arena|
        ensures Epsilons(arena[i][|arena[i]|..])
      {
        assert arena[i][|arena[i]|..] == [];
      }
    } else {
      var prev := Link(arena, accs[..|accs| - 1], extra);
      LinkExtends(arena, accs[..|accs| - 1], extra);
      var x := accs[|accs| - 1];
      if x < |prev| {
        AppendExtends(prev, x, extra);
        ExtendsTrans(arena, prev, prev[x := prev[x] + extra]);
      }
    }
  }

  lemma FreshExtends(arena: seq<seq<Edge>>, start: seq<Edge>)
    ensures Extends(arena, arena + [start, []])
  {
    var r := arena + [start, []];
    forall i | 0 <= i < |arena|
      ensures arena[i] <= r[i] && Epsilons(r[i][|arena[i]|..])
    {
      assert r[i] == arena[i];
      assert r[i][|arena[i]|..] == [];
    }
  }

  /** Each construction step only creates states and appends epsilon edges to
      existing ones; a labelled edge is only ever put on a fresh state. */
  lemma ApplyExtends(b: Builder, t: Token)
    ensures Apply(b, t).Ok? ==> Extends(b.arena, Apply(b, t).value.arena)
  {
    if IsBinary(t) && |b.stack| >= 2 {
      var f2 := b.stack[|b.stack| - 1];
      var f1 := b.stack[|b.stack| - 2];
      if t == Op('&') {
        LinkExtends(b.arena, f1.accepts, [Edge(None, f2.start)]);
      } else {
        var a := |b.arena| + 1;
        var base := b.arena + [[Edge(None, f1.start), Edge(None, f2.start)], []];
        FreshExtends(b.arena, [Edge(None, f1.start), Edge(None, f2.start)]);
        LinkExtends(base, f1.accepts, [Edge(None, a)]);
        var mid := Link(base, f1.accepts, [Edge(None, a)]);
        LinkExtends(mid, f2.accepts, [Edge(None, a)]);
        ExtendsTrans(b.arena, base, mid);
        ExtendsTrans(b.arena, mid, Union(b).arena);
      }
    } else if IsUnary(t) && |b.stack| >= 1 {
      var f := b.stack[|b.stack| - 1];
      var a := |b.arena| + 1;
      var base := b.arena + [StartEdges(t.op, f.start, a), []];
      FreshExtends(b.arena, StartEdges(t.op, f.start, a));
      LinkExtends(base, f.accepts, LoopEdges(t.op, f.start, a));
      ExtendsTrans(b.arena, base, Quantify(b, t.op).arena);
    } else if !IsBinary(t) && !IsUnary(t) {
      FreshExtends(b.arena, [Edge(Some(t), |b.arena| + 1)]);
    }
  }

  /** The whole construction is append-only from any starting builder. */
  lemma {:induction false} BuildFromExtends(b: Builder, toks: seq<Token>)
    ensures BuildFrom(b, toks).Ok? ==> Extends(b.arena, BuildFrom(b, toks).value.arena)
    decreases |toks|
  {
    if |toks| == 0 {
      FreshExtends(b.arena, []);
      forall i | 0 <= i < |b.arena|
        ensures Epsilons(b.arena[i][|b.arena[i]|..])
      {
        assert b.arena[i][|b.arena[i]|..] == [];
      }
    } else {
      ApplyExtends(b, toks[0]);
      if Apply(b, toks[0]).Ok? {
        var b' := Apply(b, toks[0]).value;
        BuildFromExtends(b', toks[1..]);
        if BuildFrom(b', toks[1..]).Ok? {
          ExtendsTrans(b.arena, b'.arena, BuildFrom(b', toks[1..]).value.arena);
        }
      }
    }
  }

  // ---------------------------------------------------------------------
  // Fragment shapes

  /** A leaf yields two fresh states joined by one edge labelled with the
      token; the existing states and fragments are untouched. */
  lemma LeafShape(b: Builder, t: Token)
    requires Arity(t) == 0
    ensures Apply(b, t).Ok?
    ensures var r := Apply(b, t).value; var s := |b.arena|;
      && |r.arena| == s + 2 && r.arena[..s] == b.arena
      && r.arena[s] == [Edge(Some(t), s + 1)] && r.arena[s + 1] == []
      && r.stack == b.stack + [Fragment(s, [s + 1])]
  {
  }

  /** `&` creates no state: the lower fragment's accepting state gains one
      epsilon edge to the upper fragment's start, and the joined fragment
      runs from the lower start to the upper accept. */
  lemma JoinShape(b: Builder)
    requires Good(b) && |b.stack| >= 2
    ensures Apply(b, Op('&')).Ok?
    ensures var r := Apply(b, Op('&')).value;
      var f2 := b.stack[|b.stack| - 1]; var f1 := b.stack[|b.stack| - 2];
      var x := f1.accepts[0];
      && r.arena == b.arena[x := b.arena[x] + [Edge(None, f2.start)]]
      && r.stack == b.stack[..|b.stack| - 2] + [Fragment(f1.start, f2.accepts)]
  {
    var f1 := b.stack[|b.stack| - 2];
    assert SinkFragment(b.arena, f1);
    assert f1.accepts == [f1.accepts[0]];
    LinkOne(b.arena, f1.accepts[0], [Edge(None, b.stack[|b.stack| - 1].start)]);
  }

  /** `|`, `*`, `+` and `?` leave a fragment whose start and single accepting
      state are the two fresh states; the accepting state has no outgoing
      edge, and the start has a direct epsilon edge to it exactly for `*`
      and `?`. */
  lemma WrapShape(b: Builder, t: Token)
    requires Good(b) && (t == Op('|') || IsUnary(t))
    ensures Apply(b, t).Ok? ==>
      var r := Apply(b, t).value; var s := |b.arena|;
      && |r.arena| == s + 2 && r.stack != [] && r.stack[|r.stack| - 1] == Fragment(s, [s + 1])
      && r.arena[s + 1] == []
      && (Edge(None, s + 1) in r.arena[s] <==> t == Op('*') || t == Op('?'))
  {
    if Apply(b, t).Ok? {
      if t == Op('|') {
        UnionGood(b);
        UnionStart(b);
      } else {
        QuantifyGood(b, t.op);
        QuantifyStart(b, t.op);
      }
    }
  }

  lemma UnionStart(b: Builder)
    requires Good(b) && |b.stack| >= 2
    ensures Union(b).arena[|b.arena|] == [Edge(None, b.stack[|b.stack| - 2].start), Edge(None, b.stack[|b.stack| - 1].start)]
    ensures b.stack[|b.stack| - 2].start < |b.arena| && b.stack[|b.stack| - 1].start < |b.arena|
  {
    var n := |b.stack|;
    var f2 := b.stack[n - 1];
    var f1 := b.stack[n - 2];
    assert SinkFragment(b.arena, f1) && SinkFragment(b.arena, f2);
    var a := |b.arena| + 1;
    var base := b.arena + [[Edge(None, f1.start), Edge(None, f2.start)], []];
    assert f1.accepts == [f1.accepts[0]] && f2.accepts == [f2.accepts[0]];
    LinkOne(base, f1.accepts[0], [Edge(None, a)]);
    var mid := base[f1.accepts[0] := base[f1.accepts[0]] + [Edge(None, a)]];
    LinkOne(mid, f2.accepts[0], [Edge(None, a)]);
  }

  lemma QuantifyStart(b: Builder, q: char)
    requires Good(b) && |b.stack| >= 1
    ensures Quantify(b, q).arena[|b.arena|] == StartEdges(q, b.stack[|b.stack| - 1].start, |b.arena| + 1)
    ensures b.stack[|b.stack| - 1].start < |b.arena|
  {
    var f := b.stack[|b.stack| - 1];
    assert SinkFragment(b.arena, f);
    var a := |b.arena| + 1;
    assert f.accepts == [f.accepts[0]];
    LinkOne(b.arena + [StartEdges(q, f.start, a), []], f.accepts[0], LoopEdges(q, f.start, a));
  }

  // ---------------------------------------------------------------------
  // The imperative construction

  /** The `&` branch: pop two fragments, wire the lower one's accepting
      states to the upper one's start, push the joined fragment. */
  method ApplyJoin(arena: seq<seq<Edge>>, stack: seq<Fragment>) returns (arena': seq<seq<Edge>>, stack': seq<Fragment>)
    requires |stack| >= 2 && Good(Builder(arena, stack))
    ensures Builder(arena', stack') == Join(Builder(arena, stack))
  {
    stack' := stack;
    var frag2 := stack'[|stack'| - 1];
    stack' := stack'[..|stack'| - 1];
    var frag1 := stack'[|stack'| - 1];
    stack' := stack'[..|stack'| - 1];
    assert SinkFragment(arena, frag1);
    arena' := arena;
    for k := 0 to |frag1.accepts|
      invariant arena' == Link(arena, frag1.accepts[..k], [Edge(None, frag2.start)])
    {
      var a := frag1.accepts[k];
      arena' := arena'[a := arena'[a] + [Edge(None, frag2.start)]];
      assert frag1.accepts[..k + 1][..k] == frag1.accepts[..k];
    }
    assert frag1.accepts[..|frag1.accepts|] == frag1.accepts;
    stack' := stack' + [Fragment(frag1.start, frag2.accepts)];
  }

  /** The `|` branch: two fresh states, the start's two epsilon edges, then
      one loop per operand wiring its accepting states to the fresh accept. */
  method ApplyUnion(arena: seq<seq<Edge>>, stack: seq<Fragment>) returns (arena': seq<seq<Edge>>, stack': seq<Fragment>)
    requires |stack| >= 2 && Good(Builder(arena, stack))
    ensures Builder(arena', stack') == Union(Builder(arena, stack))
  {
    stack' := stack;
    var frag2 := stack'[|stack'| - 1];
    stack' := stack'[..|stack'| - 1];
    var frag1 := stack'[|stack'| - 1];
    stack' := stack'[..|stack'| - 1];
    assert SinkFragment(arena, frag1) && SinkFragment(arena, frag2);
    var s := |arena|;
    arena' := arena + [[]];
    var a := |arena'|;
    arena' := arena' + [[]];
    arena' := arena'[s := arena'[s] + [Edge(None, frag1.start)]];
    arena' := arena'[s := arena'[s] + [Edge(None, frag2.start)]];
    ghost var base := arena';
    FreshPair(arena, [Edge(None, frag1.start), Edge(None, frag2.start)], base);
    for k := 0 to |frag1.accepts|
      invariant arena' == Link(base, frag1.accepts[..k], [Edge(None, a)])
    {
      var acc := frag1.accepts[k];
      arena' := arena'[acc := arena'[acc] + [Edge(None, a)]];
      assert frag1.accepts[..k + 1][..k] == frag1.accepts[..k];
    }
    assert frag1.accepts[..|frag1.accepts|] == frag1.accepts;
    ghost var mid := arena';
    for k := 0 to |frag2.accepts|
      invariant arena' == Link(mid, frag2.accepts[..k], [Edge(None, a)])
    {
      var acc := frag2.accepts[k];
      arena' := arena'[acc := arena'[acc] + [Edge(None, a)]];
      assert frag2.accepts[..k + 1][..k] == frag2.accepts[..k];
    }
    assert frag2.accepts[..|frag2.accepts|] == frag2.accepts;
    stack' := stack' + [Fragment(s, [a])];
  }

  /** The `*`, `+` and `?` branches: two fresh states, the start's edges,
      then the loop over the operand's accepting states. */
  method ApplyQuantifier(arena: seq<seq<Edge>>, stack: seq<Fragment>, q: char) returns (arena': seq<seq<Edge>>, stack': seq<Fragment>)
    requires |stack| >= 1 && Good(Builder(arena, stack))
    requires q in Quantifiers
    ensures Builder(arena', stack') == Quantify(Builder(arena, stack), q)
  {
    stack' := stack;
    var frag := stack'[|stack'| - 1];
    stack' := stack'[..|stack'| - 1];
    assert SinkFragment(arena, frag);
    var s := |arena|;
    arena' := arena + [[]];
    var a := |arena'|;
    arena' := arena' + [[]];
    arena' := arena'[s := arena'[s] + [Edge(None, frag.start)]];
    if q != '+' {
      arena' := arena'[s := arena'[s] + [Edge(None, a)]];
    }
    ghost var base := arena';
    FreshPair(arena, StartEdges(q, frag.start, a), base);
    for k := 0 to |frag.accepts|
      invariant arena' == Link(base, frag.accepts[..k], LoopEdges(q, frag.start, a))
    {
      var acc := frag.accepts[k];
      ghost var prev := arena';
      if q != '?' {
        arena' := arena'[acc := arena'[acc] + [Edge(None, frag.start)]];
      }
      arena' := arena'[acc := arena'[acc] + [Edge(None, a)]];
      assert arena'[acc] == prev[acc] + LoopEdges(q, frag.start, a);
      assert arena' == prev[acc := prev[acc] + LoopEdges(q, frag.start, a)];
      assert frag.accepts[..k + 1][..k] == frag.accepts[..k];
    }
    assert frag.accepts[..|frag.accepts|] == frag.accepts;
    stack' := stack' + [Fragment(s, [a])];
  }

  /** The leaf branch: two fresh states and one labelled edge. */
  method ApplyLeaf(arena: seq<seq<Edge>>, stack: seq<Fragment>, token: Token) returns (arena': seq<seq<Edge>>, stack': seq<Fragment>)
    ensures Builder(arena', stack') == Leaf(Builder(arena, stack), token)
  {
    var s := |arena|;
    arena' := arena + [[]];
    var a := |arena'|;
    arena' := arena' + [[]];
    arena' := arena'[s := arena'[s] + [Edge(Some(token), a)]];
    FreshPair(arena, [Edge(Some(token), a)], arena');
    stack' := stack + [Fragment(s, [a])];
  }

  /** `thompson_construct`: one pass over the postfix tokens with the
      fragment stack, then the check that exactly one fragment is left. */
  method ThompsonConstruct(postfix: seq<Token>) returns (r: Result<Nfa>)
    ensures r == Construct(postfix)
  {
    var arena: seq<seq<Edge>> := [];
    var stack: seq<Fragment> := [];
    for i := 0 to |postfix|
      invariant Good(Builder(arena, stack))
      invariant BuildFrom(Builder(arena, stack), postfix[i..]) == BuildFrom(Builder([], []), postfix)
    {
      var token := postfix[i];
      assert postfix[i..][0] == token && postfix[i..][1..] == postfix[i + 1..];
      ApplyGood(Builder(arena, stack), token);
      if token == Op('&') || token == Op('|') {
        if |stack| < 2 {
          return Err(InsufficientOperands);
        }
        if token == Op('&') {
          arena, stack := ApplyJoin(arena, stack);
        } else {
          arena, stack := ApplyUnion(arena, stack);
        }
      } else if token == Op('*') || token == Op('+') || token == Op('?') {
        if |stack| == 0 {
          return Err(InsufficientOperands);
        }
        arena, stack := ApplyQuantifier(arena, stack, token.op);
      } else {
        arena, stack := ApplyLeaf(arena, stack, token);
      }
    }
    assert postfix[|postfix|..] == [];
    if |stack| != 1 {
      return Err(LeftoverFragments);
    }
    return Ok(Nfa(arena, stack[0]));
  }
}
