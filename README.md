# Regex full-match engine, modelled in Dafny

This project models `R1/r1main.py`, a small regular-expression engine that
decides whether a pattern matches a whole text. The engine runs four stages:

1. `insert_concat_operators` makes concatenation explicit. It inserts the
   marker `&` between two adjacent pattern characters when the first can end
   a unit and the second can start one.
2. `infix_to_postfix` converts the marked pattern to postfix with a
   shunting-yard operator stack, ordered by `precedence`. Literals become
   `('CHAR', c)` leaves and `.` becomes the `('DOT',)` leaf.
3. `thompson_construct` builds a nondeterministic automaton by Thompson's
   construction, over a stack of `Fragment`s whose `State`s own edge lists.
4. `add_empty_closure`, `step` and `nfa_match` run subset simulation with
   epsilon closures. `full_match` composes the stages.

Modules, one per stage, plus shared vocabulary and worked cases:

| module | file | contents |
|---|---|---|
| `Syntax` | `syntax.dfy` | `Precedence`, `IsLiteral`, the `Token`, `Error` and `Result` datatypes |
| `Concat` | `concat.dfy` | `InsertConcat` (the specification) and the loop `InsertConcatOperators` |
| `Postfix` | `postfix.dfy` | the converter as a fold `ToPostfix` and as the loop `InfixToPostfix` |
| `Thompson` | `thompson.dfy` | the construction as a fold `Construct` and as the loop `ThompsonConstruct` |
| `Simulation` | `simulation.dfy` | closure, step and match, each a method proved against a ghost specification |
| `Pipeline` | `pipeline.dfy` | `FullMatch` and the outcome `MatchOutcome` |
| `Samples` | `samples.dfy` | a literal under a quantifier, the module's own quantifier checks, rejected patterns |
| `Marker` | `marker.dfy` | a concatenation marker written in the pattern, through every stage |
| `Alternation` | `alternation.dfy` | `x\|y` and `(ab\|cd)e` for any plain letters, through every stage, and the module's own alternation checks |

Representation choices:

- A `State` is an index into an arena: the automaton is a
  `seq<seq<Edge>>`, where entry `i` is the edge list of state `i`. An edge
  is `Edge(symbol, target)`, and `symbol == None` is an epsilon edge.
  Creating a `State()` appends an empty list. `s.edges.append(...)` extends
  entry `s` in place.
- A `Fragment` is `Fragment(start, accepts)`, with state indices.
- A postfix token is `Char(c)`, `Dot` or `Op(c)`. `Op(c)` is the raw
  operator character the converter pops off its stack.
- The three exception messages become the error kinds
  `MismatchedParentheses`, `InsufficientOperands` and `LeftoverFragments`,
  returned in a `Result`.
- The closure is an iterative worklist over a `visited` set rather than a
  recursion. It is specified by path reachability over epsilon edges
  (`Reaches`, `Closure`).
- Each imperative stage is a method whose `ensures` ties its result to a
  pure specification function. The properties are proved as lemmas about
  those functions.

One quirk is mirrored rather than fixed. `IsLiteral('&')` holds, so the
inserter treats a pattern `&` as a literal and puts a marker on each side of
it. The converter and the builder treat every `&` as concatenation, so
`x&y` becomes `x&&&y`, converts to `x & & y &`, and is rejected with
`InsufficientOperands` whatever the text (`Marker.MarkerRejected`).

## Model

| member | source | states |
|---|---|---|
| Syntax.Precedence | R1/r1main.py:6-14 | the level is 3 exactly for `*`, `+`, `?`, 2 exactly for `&`, 1 exactly for `\|`, and 0 for every other character, so the quantifiers bind tightest and `\|` loosest |
| Syntax.IsLiteral | R1/r1main.py:16-18 | true exactly for a present character outside the seven metacharacters `( ) \| * + ? .` |
| Concat.InsertConcatOperators | R1/r1main.py:20-40 | the scan with one character of lookback returns exactly `InsertConcat(pattern)` |
| Concat.InsertConcatAt | R1/r1main.py:20-40 | character `i` of the pattern lands at `i` plus the markers due up to it; the character just in front of it is the marker `&` when one is due there (the predecessor ends a unit and `p[i]` starts one), and the pattern's previous character otherwise |
| Concat.InsertConcatLength | R1/r1main.py:20-40 | the output is the pattern lengthened by one per due marker |
| Concat.InsertConcatCounts | R1/r1main.py:20-40 | every character other than `&` keeps its count; `&` gains exactly one per due marker |
| Concat.InsertConcatEmpty | R1/r1main.py:20-40 | the empty pattern maps to the empty pattern |
| Postfix.InfixToPostfix | R1/r1main.py:42-94 | marking, the main loop and the final drain loop return exactly `ToPostfix(pattern)`, including its error |
| Postfix.ConvertChar | R1/r1main.py:53-85 | one pass of the main loop, with the inner pop loop of each operator branch, is one `ShuntStep` |
| Postfix.PopWhileSpec | R1/r1main.py:57-79 | a pop loop removes a run from the top of the stack, emits it top first, pops only entries the incoming character pops, and stops at an entry it does not pop |
| Postfix.PopWhileStack | R1/r1main.py:57-79 | on a stack of `(` and operators, a pop loop removes operators only and keeps every `(`; the loop for `)` stops at a `(` and empties the stack exactly when none is on it |
| Postfix.QuantifierNeverPops | R1/r1main.py:75-79 | the quantifier branch's pop loop never pops, since no entry has precedence above 3 |
| Postfix.ShuntStepStack | R1/r1main.py:53-85 | one character fails exactly when it is `)` with no `(` on the stack, and the failure is `MismatchedParentheses`; otherwise the count of `(` on the stack moves by +1, -1 or 0 |
| Postfix.DrainSpec | R1/r1main.py:88-92 | the drain loop fails exactly when a `(` is left on the stack; otherwise it appends the stack top first |
| Postfix.InsertConcatDepth | R1/r1main.py:45-45 | marking changes neither the parenthesis depth nor whether some prefix dips below zero |
| Postfix.ScanFromErrors | R1/r1main.py:50-92 | from any configuration reached on a prefix, the conversion fails exactly when the whole text is unbalanced |
| Postfix.ToPostfixErrors | R1/r1main.py:53-92 | conversion fails, and only with `MismatchedParentheses`, exactly when some prefix of the pattern has more `)` than `(` or the whole has more `(` than `)` |
| Postfix.ToPostfixNoParens | R1/r1main.py:88-94 | a successful output contains no parenthesis, as operator or as literal |
| Postfix.OutputToken | R1/r1main.py:57-94 | every output token is an operator character, the wildcard, or a literal that is neither a parenthesis nor an operator |
| Postfix.ToPostfixLeaves | R1/r1main.py:80-85 | the `Char`/`Dot` tokens of the output are, in order, the pattern's characters other than the parentheses and the five operator characters, with `.` as `Dot`; a pattern `&` is a literal to the classifier but yields no leaf |
| Postfix.ToPostfixOperators | R1/r1main.py:57-92 | the operator tokens of the output are exactly the operator characters of the marked pattern, counted with multiplicity |
| Postfix.ShuntStepOps | R1/r1main.py:53-85 | one character moves operators between stack and output without losing or duplicating any, and adds itself when it is an operator |
| Postfix.ScanFromOps | R1/r1main.py:50-92 | the operator multiset of stack plus output tracks the operators read so far |
| Thompson.ThompsonConstruct | R1/r1main.py:109-213 | the loop over the postfix tokens returns exactly `Construct(postfix)`, including its error |
| Thompson.ApplyJoin | R1/r1main.py:114-125 | the `&` branch pops two fragments, links the first's accepts to the second's start and pushes the joined fragment, as `Join` |
| Thompson.ApplyUnion | R1/r1main.py:127-147 | the `\|` branch adds a fresh start with two epsilon edges and a fresh accept both operands link to, as `Union` |
| Thompson.ApplyQuantifier | R1/r1main.py:149-197 | the `*`/`+`/`?` branches add a fresh start and accept and link the operand's accepts, as `Quantify` |
| Thompson.ApplyLeaf | R1/r1main.py:199-205 | a leaf token adds two fresh states joined by one edge labelled with the token, as `Leaf` |
| Thompson.ConstructErrors | R1/r1main.py:109-213 | construction fails with `InsufficientOperands` exactly when some operator meets fewer fragments than it pops, with `LeftoverFragments` exactly when none does and the final count is not one, and succeeds otherwise |
| Thompson.ApplyHeight | R1/r1main.py:113-207 | one token fails exactly when the stack holds fewer fragments than it pops; otherwise the stack grows by one minus its arity |
| Thompson.BuildFromHeight | R1/r1main.py:111-207 | over a token run, the first underflow is the error and the stack height follows the running arity count |
| Thompson.EmptyPostfixLeftover | R1/r1main.py:209-211 | the empty postfix is rejected with `LeftoverFragments` |
| Thompson.ConstructGood | R1/r1main.py:109-213 | every edge of a built automaton points into it, and its fragment has a start in the arena and a single accept with no outgoing edge |
| Thompson.ApplyExtends | R1/r1main.py:113-207 | one token keeps every existing edge list as a prefix and only appends epsilon edges to existing states, besides fresh states |
| Thompson.BuildFromExtends | R1/r1main.py:111-207 | the same holds over a whole token run: construction is append-only |
| Thompson.LeafShape | R1/r1main.py:199-205 | a leaf yields a two-state fragment with one labelled edge and an accept with no edges |
| Thompson.JoinShape | R1/r1main.py:114-125 | `&` adds no state and one epsilon edge, from the first operand's accept to the second's start |
| Thompson.WrapShape | R1/r1main.py:127-197 | `\|`, `*`, `+`, `?` push a fragment with one fresh accept that has no edges; the fresh start has an epsilon skip to it exactly for `*` and `?` |
| Thompson.UnionStart | R1/r1main.py:135-139 | the fresh start of `\|` has epsilon edges to both operand starts, in order |
| Thompson.QuantifyStart | R1/r1main.py:149-197 | the fresh start of a quantifier enters the operand, and also skips to the accept except for `+` |
| Simulation.EpsTargets | R1/r1main.py:223-225 | lists exactly the targets of the epsilon edges of an edge list |
| Simulation.AddEmptyClosure | R1/r1main.py:215-225 | terminates on any arena, cycles included; afterwards `visited` holds exactly the old visited states plus those reachable from `s` by epsilon edges without entering them, and `states` gains exactly the newly visited ones |
| Simulation.AddEmptyClosureFromScratch | R1/r1main.py:215-225 | from an empty visited set the result is the epsilon closure of `s`, and it contains `s` |
| Simulation.AddMoves | R1/r1main.py:232-239 | adds exactly the targets of the edges labelled `('CHAR', c)` or `('DOT',)` |
| Simulation.Step | R1/r1main.py:227-246 | returns the epsilon closure of the targets of the edges that let `c` through from the given states |
| Simulation.CloseAll | R1/r1main.py:241-246 | closing each seed with a shared visited set yields the epsilon closure of the seed set |
| Simulation.StepMember | R1/r1main.py:227-246 | a state is in the step result exactly when some active state has an edge letting `c` through to a state from which it is epsilon-reachable |
| Simulation.ClosureMember | R1/r1main.py:215-225 | a state is in the closure exactly when some seed reaches it by epsilon edges |
| Simulation.ClosureClosed | R1/r1main.py:215-225 | the closure is closed under epsilon edges |
| Simulation.ClosureLeast | R1/r1main.py:215-225 | the closure lies inside every epsilon-closed set holding the seeds |
| Simulation.ClosureEmpty | R1/r1main.py:241-246 | the closure of no states is empty |
| Simulation.StepMonotone | R1/r1main.py:227-246 | fewer active states never step to more states |
| Simulation.NfaMatch | R1/r1main.py:248-264 | returns true exactly when the active set after the whole text holds an accepting state, returning false early once the active set is empty |
| Simulation.EmptyStaysEmpty | R1/r1main.py:256-261 | once the active set is empty it stays empty, so the early return loses nothing |
| Simulation.AcceptsEmpty | R1/r1main.py:248-264 | the empty text is accepted exactly when the start state epsilon-reaches an accepting state |
| Pipeline.FullMatch | R1/r1main.py:266-272 | returns exactly the composed outcome: the first stage error, or whether the automaton accepts the text |
| Pipeline.MatchErrors | R1/r1main.py:266-272 | whether and how a pattern is rejected does not depend on the text, and `MismatchedParentheses` is returned exactly for unbalanced patterns |
| Pipeline.BuilderErrors | R1/r1main.py:266-272 | a balanced pattern fails with `InsufficientOperands` exactly when its postfix underflows, and with `LeftoverFragments` exactly when it does not underflow and leaves other than one fragment |
| Samples.QuantifiedPostfix | R1/r1main.py:75-92 | a literal followed by a quantifier converts to the literal leaf, then the quantifier |
| Samples.QuantifiedBuild | R1/r1main.py:149-205 | a literal followed by a quantifier builds the four-state automaton whose start is the fresh state 2 and whose accept is state 3 |
| Samples.QuantifiedActive | R1/r1main.py:248-261 | the active set after each text, for each of the three quantifiers |
| Samples.QuantifiedMatch | R1/r1main.py:266-272 | a literal under `*` matches exactly the texts made only of it, under `+` those of length at least one, under `?` those of length at most one |
| Samples.StarExamples | R1/r1main.py:287-289 | `a*` matches `""` and `"aaaa"` and not `"b"` |
| Samples.PlusExamples | R1/r1main.py:292-295 | `a+` matches `"a"` and `"aaa"` and not `""` or `"b"` |
| Samples.OptionalExamples | R1/r1main.py:298-300 | `a?` matches `""` and `"a"` and not `"aa"` |
| Samples.EmptyPatternRejected | R1/r1main.py:209-211 | the empty pattern is rejected with `LeftoverFragments`, whatever the text |
| Samples.UnclosedRejected | R1/r1main.py:88-92 | `(a` is rejected with `MismatchedParentheses`, whatever the text |
| Samples.BareQuantifierRejected | R1/r1main.py:149-152 | `*` alone is rejected with `InsufficientOperands`, whatever the text |
| Marker.MarkerInsert | R1/r1main.py:20-40 | for plain `x` and `y`, a pattern `&` between them counts as a literal, so a marker goes in before it and after it: `x&y` becomes `x&&&y` |
| Marker.MarkerPostfix | R1/r1main.py:42-94 | `x&y` converts to `x & & y &`: each marker pops the pending one, and the last is emitted by the final loop |
| Marker.MarkerBuild | R1/r1main.py:114-117 | that postfix form fails with `InsufficientOperands`, because its first `&` finds one fragment |
| Marker.MarkerRejected | R1/r1main.py:266-272 | `x&y` is rejected with `InsufficientOperands`, whatever the text |
| Marker.MarkerExample | R1/r1main.py:16-18 | `a&b` is marked to `a&&&b`, converts to `a & & b &`, and is rejected with `InsufficientOperands` for every text |
| Alternation.EitherPostfix | R1/r1main.py:42-94 | for plain letters `x` and `y`, `x\|y` gets no marker and converts to `x`, `y`, then `\|` |
| Alternation.EitherBuild | R1/r1main.py:127-147 | `x y \|` builds the two leaves, then a fresh start 4 with epsilon edges to both leaf starts and a fresh accept 5 both leaf accepts link to |
| Alternation.EitherStart | R1/r1main.py:215-225 | the closure of that start is the start and both leaf starts |
| Alternation.EitherStep | R1/r1main.py:227-246 | from that closure, a character reaches the accept exactly when it is `x` or `y` |
| Alternation.EitherMatch | R1/r1main.py:266-272 | `x\|y` matches a one-character text exactly when the character is `x` or `y` |
| Alternation.EitherExamples | R1/r1main.py:303-305 | `a\|b` matches `"a"` and `"b"` and not `"c"` |
| Alternation.GroupedInsert | R1/r1main.py:20-40 | `(ab\|cd)e` gets markers inside both branches and between `)` and `e`, and nowhere else |
| Alternation.GroupedPostfix | R1/r1main.py:42-94 | `(ab\|cd)e` converts to `a b & c d & \| e &`: the `\|` pops the first branch's `&`, and `)` pops the second's and the `\|` |
| Alternation.GroupedBuild | R1/r1main.py:109-213 | that postfix form builds the twelve-state automaton with start 8 and accept 11 |
| Alternation.GroupedStart | R1/r1main.py:215-225 | the closure of its start is the start and both branch starts |
| Alternation.GroupedDeadEnd | R1/r1main.py:227-246 | when `a` and `b` differ from `c`, stepping on `a`, `c`, `e` empties the active set |
| Alternation.GroupedAccepts | R1/r1main.py:248-264 | the automaton accepts `abe` and `cde`, and rejects `ace` when `a` and `b` differ from `c` |
| Alternation.GroupedMatch | R1/r1main.py:266-272 | for plain letters, `(ab\|cd)e` matches `abe` and `cde`, and not `ace` when `a` and `b` differ from `c` |
| Alternation.GroupedExamples | R1/r1main.py:308-310 | `(ab\|cd)e` matches `"abe"` and `"cde"` and not `"ace"` |

## Left out

- The `if __name__ == "__main__"` block (R1/r1main.py:276-360) is a test driver, not modelled code. Its quantifier checks are proved as lemmas in `Samples`, and its alternation checks in `Alternation`. Its literal, wildcard and composite-pattern checks are not restated.
- Exception types and messages are not modelled. Both "Invalid regex: need 2 fragments" and "applied to empty stack" become `InsufficientOperands`.
- Python object identity and the hashing of `State` objects in sets are replaced by arena indices. Aliasing between states therefore cannot arise in the model.
- The recursion of `add_empty_closure` is modelled as an explicit worklist. Its visiting order differs from the recursive depth-first order, but the resulting sets are the same. Recursion depth limits are not modelled.
- The quantifier branch's pop loop (R1/r1main.py:77-78) is not written as a loop, because its body can never run. `QuantifierNeverPops` proves that its condition is false on entry.
- Python's set iteration order in `step` and `nfa_match` is not modelled. Both iterate over a set in an unspecified order, and the results do not depend on it.
- Full language semantics is not modelled: there is no proof that the automaton accepts exactly the strings the regex denotes. `Samples.QuantifiedMatch` proves it for one literal under a quantifier.
- Thompson.Link: guards `x < |arena|` where the source indexes a live object. Construction only links accepts that are states of the arena (`ConstructGood`), so the guard never skips.
- Thompson.ApplyJoin, Thompson.ApplyUnion, Thompson.ApplyQuantifier: require the well-formedness the construction loop maintains (`Good`) and the operand count the loop has already checked. They are only meaningful as branches of `ThompsonConstruct`.
