/** Shared vocabulary of the regex engine: pattern characters, postfix tokens,
    the operator classifiers and the three failure kinds of the pipeline. */
module Syntax {

  /** The seven characters that `IsLiteral` refuses. */
  const MetaChars: set<char> := {'(', ')', '|', '*', '+', '?', '.'}

  /** The operator characters that survive into postfix form. */
  const OperatorChars: set<char> := {'&', '|', '*', '+', '?'}

  const Quantifiers: set<char> := {'*', '+', '?'}

  datatype Option<T> = None | Some(value: T)

  /** A postfix token: a literal leaf ('CHAR', c), the wildcard leaf ('DOT',),
      or the raw operator character the converter popped off its stack. */
  datatype Token = Char(c: char) | Dot | Op(op: char)

  /** The failures the pipeline raises, one per kind of Python exception message. */
  datatype Error = MismatchedParentheses | InsufficientOperands | LeftoverFragments

  datatype Result<T> = Ok(value: T) | Err(error: Error)

  /** Precedence level of an operator character; every non-operator gets 0. */
  function Precedence(operator: char): (r: int)
    ensures 0 <= r <= 3
    ensures r > 0 <==> operator in OperatorChars
    ensures r == 3 <==> operator in Quantifiers
    ensures r == 2 <==> operator == '&'
    ensures r == 1 <==> operator == '|'
  {
    if operator in {'*', '+', '?'} then 3
    else if operator == '&' then 2
    else if operator == '|' then 1
    else 0
  }

  /** `None` stands for the missing predecessor of the first pattern character. */
  function IsLiteral(c: Option<char>): (r: bool)
    ensures r <==> c.Some? && c.value !in MetaChars
  {
    c.Some? && c.value !in {'(', ')', '|', '*', '+', '?', '.'}
  }
}
