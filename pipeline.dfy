/** The whole engine: `full_match` converts the pattern to postfix, builds
    the automaton and runs it over the text; a failure of either of the first
    two stages is the outcome, whatever the text. */
module Pipeline {
  import opened Syntax
  import opened Concat
  import opened Postfix
  import opened Thompson
  import opened Simulation

  /** What `full_match` returns or raises for a pattern and a text. */
  ghost function MatchOutcome(regex: string, text: string): Result<bool>
  {
    match ToPostfix(regex)
    case Err(e) => Err(e)
    case Ok(postfix) =>
      match Construct(postfix)
      case Err(e) => Err(e)
      case Ok(nfa) => Ok(Accepts(nfa, text))
  }

  /** `full_match`: the three stages in sequence. */
  method FullMatch(regex: string, text: string) returns (r: Result<bool>)
    ensures r == MatchOutcome(regex, text)
  {
    var postfix := InfixToPostfix(regex);
    if postfix.Err? {
      return Err(postfix.error);
    }
    var frag := ThompsonConstruct(postfix.value);
    if frag.Err? {
      return Err(frag.error);
    }
    var matched := NfaMatch(frag.value, text);
    return Ok(matched);
  }

  /** Whether the pattern is rejected does not depend on the text, and the
      parenthesis error is raised exactly for unbalanced patterns. */
  lemma MatchErrors(regex: string, text: string, other: string)
    ensures MatchOutcome(regex, text).Err? <==> MatchOutcome(regex, other).Err?
    ensures MatchOutcome(regex, text).Err? ==> MatchOutcome(regex, text) == MatchOutcome(regex, other)
    ensures MatchOutcome(regex, text) == Err(MismatchedParentheses) <==> ParensMismatched(regex)
  {
    ToPostfixErrors(regex);
    if ToPostfix(regex).Ok? {
      ConstructErrors(ToPostfix(regex).value);
    }
  }

  /** A balanced pattern is rejected by the builder exactly as its postfix
      form dictates: for want of operands when some operator finds too few
      fragments, and for leftover fragments when the form leaves other than
      one. */
  lemma BuilderErrors(regex: string, text: string)
    requires !ParensMismatched(regex)
    ensures ToPostfix(regex).Ok?
    ensures MatchOutcome(regex, text) == Err(InsufficientOperands) <==> Underflows(ToPostfix(regex).value)
    ensures MatchOutcome(regex, text) == Err(LeftoverFragments) <==>
      !Underflows(ToPostfix(regex).value) && Height(ToPostfix(regex).value) != 1
  {
    ToPostfixErrors(regex);
    ConstructErrors(ToPostfix(regex).value);
  }
}
