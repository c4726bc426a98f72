/** Stage 2: infix to postfix by the shunting-yard algorithm. The converter
    keeps an output sequence of tokens and a stack of characters (open
    parentheses and operators), scans the concat-inserted pattern once, and
    finally pops what is left on the stack. */
module Postfix {
  import opened Syntax
  import opened Concat

  /** The converter's two lists: its output and its operator stack (top last). */
  datatype Shunt = Shunt(output: seq<Token>, stack: seq<char>)

  /** Whether the inner loop run for the incoming character `c` pops `top`:
      `)` pops down to the open parenthesis, `&` and `|` pop operators of
      greater or equal precedence, a quantifier pops only strictly greater ones. */
  predicate KeepsPopping(top: char, c: char)
  {
    top != '(' &&
    (|| c == ')'
     || (c == '&' && Precedence(top) >= 2)
     || (c == '|' && Precedence(top) >= 1)
     || (c in Quantifiers && Precedence(top) > Precedence(c)))
  }

  /** The tokens emitted by popping every entry of `st`, top first. */
  function Popped(st: seq<char>): seq<Token>
  {
    if st == [] then [] else [Op(st[|st| - 1])] + Popped(st[..|st| - 1])
  }

  /** One of the converter's inner pop loops: pop while the top entry is one
      that `c` pops (see `PopWhileSpec`). */
  function PopWhile(s: Shunt, c: char): (r: Shunt)
    ensures |r.stack| <= |s.stack|
    decreases |s.stack|
  {
    if |s.stack| > 0 && KeepsPopping(s.stack[|s.stack| - 1], c) then
      PopWhile(Shunt(s.output + [Op(s.stack[|s.stack| - 1])], s.stack[..|s.stack| - 1]), c)
    else
      s
  }

  /** The converter's handling of one character of the concat-inserted pattern. */
  function ShuntStep(s: Shunt, c: char): Result<Shunt>
  {
    if c == '(' then Ok(Shunt(s.output, s.stack + ['(']))
    else if c == ')' then Close(s)
    else if c == '&' || c == '|' || c in Quantifiers then Ok(PushOperator(s, c))
    else Ok(EmitLeaf(s, c))
  }

  /** A `)`: pop down to the nearest open parenthesis and discard it; with
      none on the stack the parentheses are mismatched. */
  function Close(s: Shunt): Result<Shunt>
  {
    var t := PopWhile(s, ')');
    if |t.stack| == 0 then Err(MismatchedParentheses)
    else Ok(Shunt(t.output, t.stack[..|t.stack| - 1]))
  }

  /** `&`, `|` or a quantifier: run its pop loop, then push it. */
  function PushOperator(s: Shunt, c: char): Shunt
  {
    var t := PopWhile(s, c);
    Shunt(t.output, t.stack + [c])
  }

  /** Any other character is a leaf: `.` the wildcard, the rest literals. */
  function EmitLeaf(s: Shunt, c: char): Shunt
  {
    Shunt(s.output + [if c == '.' then Dot else Char(c)], s.stack)
  }

  /** The final loop: pop the rest of the stack, failing on a parenthesis. */
  function Drain(s: Shunt): Result<seq<Token>>
    decreases |s.stack|
  {
    if |s.stack| == 0 then Ok(s.output)
    else
      var top := s.stack[|s.stack| - 1];
      if top in {'(', ')'} then Err(MismatchedParentheses)
      else Drain(Shunt(s.output + [Op(top)], s.stack[..|s.stack| - 1]))
  }

  /** The converter run from configuration `s` over the remaining characters `q`. */
  function ScanFrom(s: Shunt, q: string): Result<seq<Token>>
    decreases |q|
  {
    if |q| == 0 then Drain(s)
    else
      match ShuntStep(s, q[0])
      case Err(e) => Err(e)
      case Ok(t) => ScanFrom(t, q[1..])
  }

  /** What `infix_to_postfix` returns or raises for `pattern`. */
  function ToPostfix(pattern: string): Result<seq<Token>>
  {
    ScanFrom(Shunt([], []), InsertConcat(pattern))
  }

  /** `infix_to_postfix`: insert the markers, then run the shunting-yard loop
      with its inner pop loops, then empty the stack. */
  method InfixToPostfix(pattern: string) returns (r: Result<seq<Token>>)
    ensures r == ToPostfix(pattern)
  {
    var inserted := InsertConcatOperators(pattern);
    var output: seq<Token> := [];
    var stack: seq<char> := [];
    var i := 0;
    while i < |inserted|
      invariant 0 <= i <= |inserted|
      invariant ScanFrom(Shunt(output, stack), inserted[i..]) == ToPostfix(pattern)
    {
      var c := inserted[i];
      assert inserted[i..][0] == c && inserted[i..][1..] == inserted[i + 1..];
      var next := ConvertChar(output, stack, c);
      if next.Err? {
        return Err(next.error);
      }
      output, stack := next.value.output, next.value.stack;
      i := i + 1;
    }
    while |stack| > 0
      invariant Drain(Shunt(output, stack)) == ToPostfix(pattern)
      decreases |stack|
    {
      var top := stack[|stack| - 1];
      stack := stack[..|stack| - 1];
      if top in {'(', ')'} {
        return Err(MismatchedParentheses);
      }
      output := output + [Op(top)];
    }
    r := Ok(output);
  }

  /** The body of the converter's main loop for one character `c`, with the
      inner pop loop of each operator branch. */
  method ConvertChar(output: seq<Token>, stack: seq<char>, c: char) returns (r: Result<Shunt>)
    ensures r == ShuntStep(Shunt(output, stack), c)
  {
    var output, stack := output, stack;
    ghost var before := Shunt(output, stack);
    if c == '(' {
      stack := stack + [c];
    } else if c == ')' {
      while |stack| > 0 && stack[|stack| - 1] != '('
        invariant PopWhile(Shunt(output, stack), c) == PopWhile(before, c)
        decreases |stack|
      {
        output := output + [Op(stack[|stack| - 1])];
        stack := stack[..|stack| - 1];
      }
      if |stack| == 0 {
        return Err(MismatchedParentheses);
      }
      stack := stack[..|stack| - 1];
    } else if c == '&' {
      while |stack| > 0 && stack[|stack| - 1] != '(' && Precedence(stack[|stack| - 1]) >= 2
        invariant PopWhile(Shunt(output, stack), c) == PopWhile(before, c)
        decreases |stack|
      {
        output := output + [Op(stack[|stack| - 1])];
        stack := stack[..|stack| - 1];
      }
      stack := stack + [c];
    } else if c == '|' {
      while |stack| > 0 && stack[|stack| - 1] != '(' && Precedence(stack[|stack| - 1]) >= 1
        invariant PopWhile(Shunt(output, stack), c) == PopWhile(before, c)
        decreases |stack|
      {
        output := output + [Op(stack[|stack| - 1])];
        stack := stack[..|stack| - 1];
      }
      stack := stack + [c];
    } else if c in {'*', '+', '?'} {
      // The pop loop of this branch only pops entries of precedence
      // strictly above 3, and there are none (QuantifierNeverPops).
      QuantifierNeverPops(before, c);
      stack := stack + [c];
    } else if c == '.' {
      output := output + [Dot];
    } else {
      output := output + [Char(c)];
    }
    return Ok(Shunt(output, stack));
  }

  // ---------------------------------------------------------------------
  // The pop loops

  /** A pop loop removes a run of entries from the top of the stack, every
      one of them an entry that `c` pops, emits them top first, and stops at
      the empty stack or at an entry that `c` does not pop. */
  lemma {:induction false} PopWhileSpec(s: Shunt, c: char)
    ensures var r := PopWhile(s, c);
      && |r.stack| <= |s.stack| && r.stack == s.stack[..|r.stack|]
      && r.output == s.output + Popped(s.stack[|r.stack|..])
      && (forall i :: |r.stack| <= i < |s.stack| ==> KeepsPopping(s.stack[i], c))
      && (|r.stack| > 0 ==> !KeepsPopping(r.stack[|r.stack| - 1], c))
    decreases |s.stack|
  {
    var st := s.stack;
    if |st| > 0 && KeepsPopping(st[|st| - 1], c) {
      var s' := Shunt(s.output + [Op(st[|st| - 1])], st[..|st| - 1]);
      PopWhileSpec(s', c);
      var r := PopWhile(s', c);
      assert PopWhile(s, c) == r;
      var k := |r.stack|;
      assert r.stack == st[..k];
      var gone := st[k..];
      assert gone[..|gone| - 1] == st[..|st| - 1][k..];
      assert Popped(gone) == [Op(st[|st| - 1])] + Popped(st[..|st| - 1][k..]);
      assert r.output == s.output + Popped(gone);
      forall i | k <= i < |st| ensures KeepsPopping(st[i], c) {
        if i < |st| - 1 {
          assert st[..|st| - 1][i] == st[i];
        }
      }
    }
  }

  /** The converter's stack holds only open parentheses and operators. */
  predicate StackOk(st: seq<char>)
  {
    forall i :: 0 <= i < |st| ==> st[i] == '(' || st[i] in OperatorChars
  }

  /** On a well-formed stack a pop loop removes operators only, and the one
      run for `)` empties the stack exactly when no open parenthesis is on it. */
  lemma PopWhileStack(s: Shunt, c: char)
    requires StackOk(s.stack)
    ensures var t := PopWhile(s, c);
      var gone := s.stack[|t.stack|..];
      && s.stack == t.stack + gone
      && StackOk(t.stack)
      && (forall i :: 0 <= i < |gone| ==> gone[i] in OperatorChars)
      && t.output == s.output + Popped(gone)
      && (c == ')' && |t.stack| > 0 ==> t.stack[|t.stack| - 1] == '(')
      && (c == ')' ==> (|t.stack| == 0 <==> multiset(s.stack)['('] == 0))
      && multiset(t.stack)['('] == multiset(s.stack)['(']
  {
    PopWhileShape(s, c);
    PopWhileRemovesOperators(s, c);
    if c == ')' {
      CloseStopsAtOpen(s);
    }
    var t := PopWhile(s, c);
    var gone := s.stack[|t.stack|..];
    assert s.stack == t.stack + gone;
    OpenCount(t.stack, gone, c == ')');
  }

  /** A pop loop keeps a prefix of the stack and emits the rest, top first. */
  lemma PopWhileShape(s: Shunt, c: char)
    ensures var t := PopWhile(s, c);
      && |t.stack| <= |s.stack| && t.stack == s.stack[..|t.stack|]
      && t.output == s.output + Popped(s.stack[|t.stack|..])
  {
    PopWhileSpec(s, c);
  }

  /** The loop run for `)` stops at an open parenthesis when it stops early. */
  lemma CloseStopsAtOpen(s: Shunt)
    ensures var t := PopWhile(s, ')');
      |t.stack| > 0 ==> t.stack[|t.stack| - 1] == '('
  {
    PopWhileSpec(s, ')');
  }

  /** On a well-formed stack a pop loop removes operators only. */
  lemma PopWhileRemovesOperators(s: Shunt, c: char)
    requires StackOk(s.stack)
    ensures var t := PopWhile(s, c);
      && StackOk(t.stack)
      && (forall i :: |t.stack| <= i < |s.stack| ==> s.stack[i] in OperatorChars)
  {
    PopWhileSpec(s, c);
    var t := PopWhile(s, c);
    PoppedOperators(s.stack, |t.stack|, c);
    forall i | |t.stack| <= i < |s.stack| ensures s.stack[i] in OperatorChars {
      assert s.stack[|t.stack|..][i - |t.stack|] == s.stack[i];
    }
  }

  /** What a pop loop removes from a well-formed stack is operators only. */
  lemma PoppedOperators(st: seq<char>, n: nat, c: char)
    requires StackOk(st) && n <= |st|
    requires forall i :: n <= i < |st| ==> KeepsPopping(st[i], c)
    ensures StackOk(st[..n])
    ensures forall i :: 0 <= i < |st[n..]| ==> st[n..][i] in OperatorChars
  {
    forall i | 0 <= i < |st[n..]| ensures st[n..][i] in OperatorChars {
      assert KeepsPopping(st[n + i], c);
    }
  }

  /** Removing operators keeps the open parentheses; when the loop stopped
      for `)` at a non-empty stack, its top is an open parenthesis. */
  lemma OpenCount(kept: seq<char>, gone: seq<char>, closing: bool)
    requires forall i :: 0 <= i < |gone| ==> gone[i] in OperatorChars
    requires StackOk(kept)
    requires closing && |kept| > 0 ==> kept[|kept| - 1] == '('
    ensures multiset(kept)['('] == multiset(kept + gone)['(']
    ensures closing ==> (|kept| == 0 <==> multiset(kept + gone)['('] == 0)
  {
    assert '(' !in gone;
    assert multiset(kept + gone) == multiset(kept) + multiset(gone);
    if closing && |kept| > 0 {
      assert kept[|kept| - 1] in multiset(kept);
    }
  }

  // ---------------------------------------------------------------------
  // Parenthesis errors

  /** Opened minus closed parentheses of `q`. */
  function Depth(q: string): int
  {
    if q == [] then 0
    else Depth(q[..|q| - 1]) + (if q[|q| - 1] == '(' then 1 else if q[|q| - 1] == ')' then -1 else 0)
  }

  /** No prefix of `q` closes more parentheses than it opens. */
  ghost predicate NeverNegative(q: string)
  {
    forall i :: 0 <= i <= |q| ==> Depth(q[..i]) >= 0
  }

  /** The condition under which the converter reports mismatched parentheses:
      some prefix has more `)` than `(`, or the whole has more `(` than `)`. */
  ghost predicate ParensMismatched(q: string)
  {
    (exists i :: 0 <= i <= |q| && Depth(q[..i]) < 0) || Depth(q) > 0
  }

  lemma {:induction false} NeverNegativeSnoc(q: string, c: char)
    ensures (q + [c])[..|q|] == q
    ensures NeverNegative(q + [c]) <==> NeverNegative(q) && Depth(q + [c]) >= 0
  {
    var q' := q + [c];
    assert q'[..|q|] == q;
    assert q'[..|q'|] == q';
    if NeverNegative(q') {
      forall i | 0 <= i <= |q| ensures Depth(q[..i]) >= 0 {
        assert q'[..i] == q[..i];
      }
    }
    if NeverNegative(q) && Depth(q') >= 0 {
      forall i | 0 <= i <= |q'| ensures Depth(q'[..i]) >= 0 {
        if i <= |q| {
          assert q'[..i] == q[..i];
        }
      }
    }
  }

  /** One step fails exactly on a `)` with no open parenthesis on the stack,
      and otherwise keeps the stack well formed and its count of open
      parentheses in step with the characters consumed. */
  lemma ShuntStepStack(s: Shunt, c: char)
    requires StackOk(s.stack)
    ensures ShuntStep(s, c).Err? <==> c == ')' && multiset(s.stack)['('] == 0
    ensures ShuntStep(s, c).Err? ==> ShuntStep(s, c).error == MismatchedParentheses
    ensures ShuntStep(s, c).Ok? ==>
      var t := ShuntStep(s, c).value;
      && StackOk(t.stack)
      && multiset(t.stack)['('] as int
         == multiset(s.stack)['('] as int + (if c == '(' then 1 else if c == ')' then -1 else 0)
  {
    if c == ')' {
      CloseStack(s);
    } else if c == '&' || c == '|' || c in Quantifiers {
      OperatorStack(s, c);
    } else if c == '(' {
      assert multiset(s.stack + [c]) == multiset(s.stack) + multiset{c};
    }
  }

  lemma CloseStack(s: Shunt)
    requires StackOk(s.stack)
    ensures Close(s).Err? <==> multiset(s.stack)['('] == 0
    ensures Close(s).Err? ==> Close(s).error == MismatchedParentheses
    ensures Close(s).Ok? ==>
      StackOk(Close(s).value.stack) && multiset(Close(s).value.stack)['('] as int == multiset(s.stack)['('] as int - 1
  {
    PopWhileStack(s, ')');
    var t := PopWhile(s, ')');
    if |t.stack| > 0 {
      var rest := t.stack[..|t.stack| - 1];
      assert t.stack == rest + ['('];
      assert multiset(t.stack) == multiset(rest) + multiset{'('};
    }
  }

  lemma OperatorStack(s: Shunt, c: char)
    requires StackOk(s.stack) && c in OperatorChars
    ensures StackOk(PushOperator(s, c).stack)
    ensures multiset(PushOperator(s, c).stack)['('] == multiset(s.stack)['(']
  {
    PopWhileStack(s, c);
    var t := PopWhile(s, c);
    assert multiset(t.stack + [c]) == multiset(t.stack) + multiset{c};
  }

  /** The pop loop of a quantifier never pops: it would need an operator of
      precedence above that of the quantifier, the highest there is. */
  lemma QuantifierNeverPops(s: Shunt, c: char)
    requires c in Quantifiers
    ensures PopWhile(s, c) == s
  {
  }

  /** The final loop fails exactly when an open parenthesis is left, and
      otherwise emits the whole stack, top first. */
  lemma {:induction false} DrainSpec(s: Shunt)
    requires StackOk(s.stack)
    ensures Drain(s).Err? <==> multiset(s.stack)['('] > 0
    ensures Drain(s).Err? ==> Drain(s).error == MismatchedParentheses
    ensures Drain(s).Ok? ==> Drain(s).value == s.output + Popped(s.stack)
    ensures Drain(s).Ok? ==> forall i :: 0 <= i < |s.stack| ==> s.stack[i] in OperatorChars
    decreases |s.stack|
  {
    if |s.stack| > 0 {
      var st := s.stack;
      var rest := st[..|st| - 1];
      assert st == rest + [st[|st| - 1]];
      assert multiset(st) == multiset(rest) + multiset{st[|st| - 1]};
      if st[|st| - 1] != '(' {
        DrainSpec(Shunt(s.output + [Op(st[|st| - 1])], rest));
      }
    }
  }

  /** The converter, run from a configuration reached after `done`, fails
      exactly when `done + rest` has mismatched parentheses. */
  lemma {:induction false} ScanFromErrors(done: string, s: Shunt, rest: string)
    requires StackOk(s.stack) && NeverNegative(done)
    requires multiset(s.stack)['('] as int == Depth(done)
    ensures ScanFrom(s, rest).Err? <==> ParensMismatched(done + rest)
    ensures ScanFrom(s, rest).Err? ==> ScanFrom(s, rest).error == MismatchedParentheses
    decreases |rest|
  {
    if |rest| == 0 {
      assert done + rest == done;
      assert done[..|done|] == done;
      DrainSpec(s);
    } else {
      var c := rest[0];
      var whole := done + rest;
      ShuntStepStack(s, c);
      NeverNegativeSnoc(done, c);
      assert whole == (done + [c]) + rest[1..];
      assert whole[..|done| + 1] == done + [c];
      if ShuntStep(s, c).Ok? {
        ScanFromErrors(done + [c], ShuntStep(s, c).value, rest[1..]);
      }
    }
  }

  lemma {:induction false} InsertConcatDepth(p: string)
    ensures Depth(InsertConcat(p)) == Depth(p)
    ensures NeverNegative(InsertConcat(p)) <==> NeverNegative(p)
    decreases |p|
  {
    if |p| > 0 {
      var q := p[..|p| - 1];
      var w := InsertConcat(q);
      var l := p[|p| - 1];
      InsertConcatDepth(q);
      LastSplit(p);
      NeverNegativeSnoc(q, l);
      DepthSnoc(q, l);
      var v: string := if MarkBefore(p, |p| - 1) then w + "&" else w;
      assert InsertConcat(p) == v + [l];
      MarkerKeepsDepth(w, v);
      NeverNegativeSnoc(v, l);
      DepthSnoc(v, l);
    }
  }

  lemma DepthSnoc(q: string, c: char)
    ensures Depth(q + [c]) == Depth(q) + if c == '(' then 1 else if c == ')' then -1 else 0
  {
    assert (q + [c])[..|q|] == q;
  }

  /** Appending a marker changes neither the depth nor whether it dips. */
  lemma MarkerKeepsDepth(w: string, v: string)
    requires v == w || v == w + "&"
    ensures Depth(v) == Depth(w)
    ensures NeverNegative(v) <==> NeverNegative(w)
  {
    if v != w {
      NeverNegativeSnoc(w, '&');
      assert w[..|w|] == w;
    }
  }

  /** Parenthesis errors, on the original pattern: the conversion fails, and
      only with `MismatchedParentheses`, exactly when some prefix of the
      pattern closes more parentheses than it opens or the whole pattern
      leaves one open. */
  lemma ToPostfixErrors(p: string)
    ensures ToPostfix(p).Err? <==> ParensMismatched(p)
    ensures ToPostfix(p).Err? ==> ToPostfix(p).error == MismatchedParentheses
  {
    var q := InsertConcat(p);
    assert NeverNegative("") by {
      assert forall i :: 0 <= i <= 0 ==> ""[..i] == "";
    }
    ScanFromErrors("", Shunt([], []), q);
    assert "" + q == q;
    InsertConcatDepth(p);
    assert q[..|q|] == q && p[..|p|] == p;
    assert NeverNegative(q) <==> !(exists i :: 0 <= i <= |q| && Depth(q[..i]) < 0);
    assert NeverNegative(p) <==> !(exists i :: 0 <= i <= |p| && Depth(p[..i]) < 0);
  }

  // ---------------------------------------------------------------------
  // Leaves keep their order

  /** The leaf token the converter emits for a pattern character, if any. */
  function LeafOf(c: char): seq<Token>
  {
    if c in {'(', ')'} || c in OperatorChars then [] else if c == '.' then [Dot] else [Char(c)]
  }

  /** The leaves of a pattern, in order. */
  function LeafTokens(q: string): seq<Token>
  {
    if q == [] then [] else LeafTokens(q[..|q| - 1]) + LeafOf(q[|q| - 1])
  }

  /** The non-operator tokens of a postfix sequence, in order. */
  function Leaves(out: seq<Token>): seq<Token>
  {
    if out == [] then []
    else Leaves(out[..|out| - 1]) + (if out[|out| - 1].Op? then [] else [out[|out| - 1]])
  }

  /** The operator characters of a postfix sequence, in order. */
  function OpsOf(out: seq<Token>): seq<char>
  {
    if out == [] then []
    else OpsOf(out[..|out| - 1]) + (if out[|out| - 1].Op? then [out[|out| - 1].op] else [])
  }

  lemma {:induction false} LeavesAppend(a: seq<Token>, b: seq<Token>)
    ensures Leaves(a + b) == Leaves(a) + Leaves(b)
    ensures OpsOf(a + b) == OpsOf(a) + OpsOf(b)
    decreases |b|
  {
    if b == [] {
      assert a + b == a;
    } else {
      assert (a + b)[..|a + b| - 1] == a + b[..|b| - 1];
      LeavesAppend(a, b[..|b| - 1]);
    }
  }

  /** Popping emits no leaves. */
  lemma {:induction false} PoppedLeaves(st: seq<char>)
    ensures Leaves(Popped(st)) == []
    decreases |st|
  {
    if st != [] {
      var x := st[|st| - 1];
      PoppedLeaves(st[..|st| - 1]);
      LeavesAppend([Op(x)], Popped(st[..|st| - 1]));
      assert [Op(x)][..0] == [];
    }
  }

  /** Popping emits each stack entry once. */
  lemma {:induction false} PoppedOps(st: seq<char>)
    ensures multiset(OpsOf(Popped(st))) == multiset(st)
    decreases |st|
  {
    if st != [] {
      var rest := st[..|st| - 1];
      var x := st[|st| - 1];
      PoppedOps(rest);
      LeavesAppend([Op(x)], Popped(rest));
      assert [Op(x)][..0] == [];
      assert OpsOf(Popped(st)) == [x] + OpsOf(Popped(rest));
      assert st == rest + [x];
    }
  }

  lemma ShuntStepLeaves(s: Shunt, c: char)
    ensures ShuntStep(s, c).Ok? ==> Leaves(ShuntStep(s, c).value.output) == Leaves(s.output) + LeafOf(c)
  {
    if c == ')' || c == '&' || c == '|' || c in Quantifiers {
      PopWhileLeaves(s, c);
    } else if c != '(' {
      var leaf: Token := if c == '.' then Dot else Char(c);
      assert (s.output + [leaf])[..|s.output|] == s.output;
    }
  }

  lemma PopWhileLeaves(s: Shunt, c: char)
    ensures Leaves(PopWhile(s, c).output) == Leaves(s.output)
  {
    PopWhileSpec(s, c);
    var t := PopWhile(s, c);
    PoppedLeaves(s.stack[|t.stack|..]);
    LeavesAppend(s.output, Popped(s.stack[|t.stack|..]));
  }

  lemma {:induction false} DrainLeaves(s: Shunt)
    ensures Drain(s).Ok? ==> Leaves(Drain(s).value) == Leaves(s.output)
    decreases |s.stack|
  {
    if |s.stack| > 0 {
      var top := s.stack[|s.stack| - 1];
      if top !in {'(', ')'} {
        DrainLeaves(Shunt(s.output + [Op(top)], s.stack[..|s.stack| - 1]));
        assert (s.output + [Op(top)])[..|s.output|] == s.output;
      }
    }
  }

  lemma {:induction false} ScanFromLeaves(done: string, s: Shunt, rest: string)
    requires Leaves(s.output) == LeafTokens(done)
    ensures ScanFrom(s, rest).Ok? ==> Leaves(ScanFrom(s, rest).value) == LeafTokens(done + rest)
    decreases |rest|
  {
    if |rest| == 0 {
      assert done + rest == done;
      DrainLeaves(s);
    } else {
      var c := rest[0];
      ShuntStepLeaves(s, c);
      assert done + rest == (done + [c]) + rest[1..];
      assert (done + [c])[..|done|] == done;
      if ShuntStep(s, c).Ok? {
        ScanFromLeaves(done + [c], ShuntStep(s, c).value, rest[1..]);
      }
    }
  }

  lemma {:induction false} InsertConcatLeaves(p: string)
    ensures LeafTokens(InsertConcat(p)) == LeafTokens(p)
    decreases |p|
  {
    if |p| > 0 {
      var q := p[..|p| - 1];
      var w := InsertConcat(q);
      var l := p[|p| - 1];
      InsertConcatLeaves(q);
      if MarkBefore(p, |p| - 1) {
        assert (w + "&")[..|w|] == w;
        assert ((w + "&") + [l])[..|w| + 1] == w + "&";
        assert InsertConcat(p) == (w + "&") + [l];
      } else {
        assert InsertConcat(p) == w + [l];
        assert (w + [l])[..|w|] == w;
      }
    }
  }

  /** Leaf order: on success the leaves of the postfix output are, in order,
      the literal and wildcard characters of the pattern (an `&` written in
      the pattern is an operator, not a leaf). */
  lemma ToPostfixLeaves(p: string)
    ensures ToPostfix(p).Ok? ==> Leaves(ToPostfix(p).value) == LeafTokens(p)
  {
    ScanFromLeaves("", Shunt([], []), InsertConcat(p));
    assert "" + InsertConcat(p) == InsertConcat(p);
    InsertConcatLeaves(p);
  }

  // ---------------------------------------------------------------------
  // Every operator is emitted exactly once

  /** The operator characters of a pattern, in order. */
  function OpsIn(q: string): seq<char>
  {
    if q == [] then []
    else OpsIn(q[..|q| - 1]) + (if q[|q| - 1] in OperatorChars then [q[|q| - 1]] else [])
  }

  lemma {:induction false} OpsInAppend(a: string, b: string)
    ensures OpsIn(a + b) == OpsIn(a) + OpsIn(b)
    decreases |b|
  {
    if b == [] {
      assert a + b == a;
    } else {
      assert (a + b)[..|a + b| - 1] == a + b[..|b| - 1];
      OpsInAppend(a, b[..|b| - 1]);
    }
  }

  lemma {:induction false} OpsInOperators(st: string)
    requires forall i :: 0 <= i < |st| ==> st[i] in OperatorChars
    ensures OpsIn(st) == st
    decreases |st|
  {
    if st != [] {
      OpsInOperators(st[..|st| - 1]);
    }
  }

  /** A pop loop moves operators from the stack to the output, losing none. */
  lemma PopWhileOps(s: Shunt, c: char)
    requires StackOk(s.stack)
    ensures var t := PopWhile(s, c);
      multiset(OpsOf(t.output)) + multiset(OpsIn(t.stack)) == multiset(OpsOf(s.output)) + multiset(OpsIn(s.stack))
  {
    PopWhileStack(s, c);
    var t := PopWhile(s, c);
    var gone := s.stack[|t.stack|..];
    PoppedOps(gone);
    LeavesAppend(s.output, Popped(gone));
    OpsInAppend(t.stack, gone);
    OpsInOperators(gone);
    assert multiset(OpsOf(t.output)) == multiset(OpsOf(s.output)) + multiset(gone);
    assert multiset(OpsIn(s.stack)) == multiset(OpsIn(t.stack)) + multiset(gone);
  }

  /** One converter step moves operators between the output and the stack,
      losing none, and adds the incoming character when it is an operator. */
  lemma ShuntStepOps(s: Shunt, c: char)
    requires StackOk(s.stack)
    ensures ShuntStep(s, c).Ok? ==>
      var t := ShuntStep(s, c).value;
      multiset(OpsOf(t.output)) + multiset(OpsIn(t.stack))
        == multiset(OpsOf(s.output)) + multiset(OpsIn(s.stack)) + (if c in OperatorChars then multiset{c} else multiset{})
  {
    if c in OperatorChars {
      OperatorStepOps(s, c);
    } else {
      OtherStepOps(s, c);
    }
  }

  lemma OperatorStepOps(s: Shunt, c: char)
    requires StackOk(s.stack) && c in OperatorChars
    ensures var t := ShuntStep(s, c).value;
      multiset(OpsOf(t.output)) + multiset(OpsIn(t.stack)) == multiset(OpsOf(s.output)) + multiset(OpsIn(s.stack)) + multiset{c}
  {
    assert ShuntStep(s, c) == Ok(PushOperator(s, c));
    OperatorOps(s, c);
  }

  lemma OtherStepOps(s: Shunt, c: char)
    requires StackOk(s.stack) && c !in OperatorChars
    ensures ShuntStep(s, c).Ok? ==>
      var t := ShuntStep(s, c).value;
      multiset(OpsOf(t.output)) + multiset(OpsIn(t.stack)) == multiset(OpsOf(s.output)) + multiset(OpsIn(s.stack))
  {
    if c == ')' {
      CloseOps(s);
    } else if c == '(' {
      OpenOps(s);
    } else {
      LeafOps(s, c);
    }
  }

  lemma OpsInSnoc(q: string, c: char)
    ensures multiset(OpsIn(q + [c])) == multiset(OpsIn(q)) + if c in OperatorChars then multiset{c} else multiset{}
  {
    assert (q + [c])[..|q|] == q;
  }

  lemma OpenOps(s: Shunt)
    ensures var t := Shunt(s.output, s.stack + ['(']);
      multiset(OpsOf(t.output)) + multiset(OpsIn(t.stack)) == multiset(OpsOf(s.output)) + multiset(OpsIn(s.stack))
  {
    assert (s.stack + ['('])[..|s.stack|] == s.stack;
  }

  lemma LeafOps(s: Shunt, c: char)
    requires c !in OperatorChars
    ensures var t := EmitLeaf(s, c);
      multiset(OpsOf(t.output)) + multiset(OpsIn(t.stack)) == multiset(OpsOf(s.output)) + multiset(OpsIn(s.stack))
  {
    var leaf: Token := if c == '.' then Dot else Char(c);
    assert (s.output + [leaf])[..|s.output|] == s.output;
  }

  lemma OpsInDropOpen(st: seq<char>)
    requires |st| > 0 && st[|st| - 1] == '('
    ensures OpsIn(st[..|st| - 1]) == OpsIn(st)
  {
  }

  lemma CloseOps(s: Shunt)
    requires StackOk(s.stack)
    ensures Close(s).Ok? ==>
      var t := Close(s).value;
      multiset(OpsOf(t.output)) + multiset(OpsIn(t.stack)) == multiset(OpsOf(s.output)) + multiset(OpsIn(s.stack))
  {
    PopWhileOps(s, ')');
    PopWhileStack(s, ')');
    var t := PopWhile(s, ')');
    if |t.stack| > 0 {
      OpsInDropOpen(t.stack);
    }
  }

  lemma OperatorOps(s: Shunt, c: char)
    requires StackOk(s.stack) && c in OperatorChars
    ensures var t := PushOperator(s, c);
      multiset(OpsOf(t.output)) + multiset(OpsIn(t.stack)) == multiset(OpsOf(s.output)) + multiset(OpsIn(s.stack)) + multiset{c}
  {
    PopWhileOps(s, c);
    var t := PopWhile(s, c);
    assert (t.stack + [c])[..|t.stack|] == t.stack;
    assert OpsIn(t.stack + [c]) == OpsIn(t.stack) + [c];
  }

  lemma {:induction false} ScanFromOps(done: string, s: Shunt, rest: string)
    requires StackOk(s.stack)
    requires multiset(OpsOf(s.output)) + multiset(OpsIn(s.stack)) == multiset(OpsIn(done))
    ensures ScanFrom(s, rest).Ok? ==> multiset(OpsOf(ScanFrom(s, rest).value)) == multiset(OpsIn(done + rest))
    decreases |rest|
  {
    if |rest| == 0 {
      assert done + rest == done;
      DrainOps(s);
    } else {
      var c := rest[0];
      assert done + rest == (done + [c]) + rest[1..];
      if ShuntStep(s, c).Ok? {
        var t := ShuntStep(s, c).value;
        assert ScanFrom(s, rest) == ScanFrom(t, rest[1..]);
        ShuntStepStack(s, c);
        ShuntStepOps(s, c);
        OpsInSnoc(done, c);
        ScanFromOps(done + [c], t, rest[1..]);
      }
    }
  }

  /** The final loop moves the stacked operators to the output. */
  lemma DrainOps(s: Shunt)
    requires StackOk(s.stack)
    ensures Drain(s).Ok? ==> multiset(OpsOf(Drain(s).value)) == multiset(OpsOf(s.output)) + multiset(OpsIn(s.stack))
  {
    DrainSpec(s);
    if Drain(s).Ok? {
      OpsInOperators(s.stack);
      PoppedOps(s.stack);
      LeavesAppend(s.output, Popped(s.stack));
    }
  }

  lemma {:induction false} OpsOfHas(out: seq<Token>, t: Token)
    requires t in out && t.Op?
    ensures t.op in OpsOf(out)
    decreases |out|
  {
    if out[|out| - 1] != t {
      assert out == out[..|out| - 1] + [out[|out| - 1]];
      OpsOfHas(out[..|out| - 1], t);
    }
  }

  lemma {:induction false} OpsInHas(q: string, x: char)
    requires x in OpsIn(q)
    ensures x in OperatorChars
    decreases |q|
  {
    if x !in OpsIn(q[..|q| - 1]) {
      assert x == q[|q| - 1];
    } else {
      OpsInHas(q[..|q| - 1], x);
    }
  }

  /** Operators: on success every `&`, `|`, `*`, `+` and `?` of the
      concat-inserted pattern occurs in the output exactly once (as a
      multiset), so no parenthesis or other character is ever emitted as an
      operator. */
  lemma ToPostfixOperators(p: string)
    ensures ToPostfix(p).Ok? ==> multiset(OpsOf(ToPostfix(p).value)) == multiset(OpsIn(InsertConcat(p)))
    ensures ToPostfix(p).Ok? ==> forall t :: t in ToPostfix(p).value && t.Op? ==> t.op in OperatorChars
  {
    var q := InsertConcat(p);
    ScanFromOps("", Shunt([], []), q);
    assert "" + q == q;
    if ToPostfix(p).Ok? {
      var out := ToPostfix(p).value;
      forall t | t in out && t.Op? ensures t.op in OperatorChars {
        OpsOfHas(out, t);
        assert t.op in multiset(OpsIn(q));
        OpsInHas(q, t.op);
      }
    }
  }

  lemma {:induction false} LeavesHas(out: seq<Token>, t: Token)
    requires t in out && !t.Op?
    ensures t in Leaves(out)
    decreases |out|
  {
    var last := out[|out| - 1];
    if t != last {
      assert t in out[..|out| - 1];
      LeavesHas(out[..|out| - 1], t);
    }
  }

  /** A leaf of a pattern is the wildcard or a literal that is neither a
      parenthesis nor an operator character. */
  lemma {:induction false} LeafTokensHas(q: string, t: Token)
    requires t in LeafTokens(q)
    ensures t == Dot || (t.Char? && t.c !in {'(', ')'} && t.c !in OperatorChars)
    decreases |q|
  {
    if t !in LeafOf(q[|q| - 1]) {
      LeafTokensHas(q[..|q| - 1], t);
    }
  }

  /** A successful conversion emits no parenthesis, neither as an operator
      nor as a literal. */
  lemma ToPostfixNoParens(p: string)
    ensures ToPostfix(p).Ok? ==>
      forall t :: t in ToPostfix(p).value ==> t !in {Op('('), Op(')'), Char('('), Char(')')}
  {
    if ToPostfix(p).Ok? {
      forall t | t in ToPostfix(p).value
        ensures t !in {Op('('), Op(')'), Char('('), Char(')')}
      {
        OutputToken(p, t);
      }
    }
  }

  /** Each token of a successful conversion is an operator character or a
      leaf of the pattern. */
  lemma OutputToken(p: string, t: Token)
    requires ToPostfix(p).Ok? && t in ToPostfix(p).value
    ensures t.Op? ==> t.op in OperatorChars
    ensures !t.Op? ==> t == Dot || (t.Char? && t.c !in {'(', ')'} && t.c !in OperatorChars)
  {
    var out := ToPostfix(p).value;
    if t.Op? {
      ToPostfixOperators(p);
    } else {
      ToPostfixLeaves(p);
      LeavesHas(out, t);
      LeafTokensHas(p, t);
    }
  }
}
