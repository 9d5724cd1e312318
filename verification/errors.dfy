/** The fatal errors of the three stages and the result type that carries them. */
module Errors {
  import opened Options
  import opened Syntax

  datatype Error =
      /** Lexer: a character that starts no token, with the line counter before it. */
    | UnrecognizedCharacter(line: int, ch: char)
      /** Parser: a token was needed but the input ended. */
    | UnexpectedEndOfInput(line: int)
      /** Parser: a token that cannot start an expression. */
    | IllegalExpression(line: int, lexeme: string)
      /** Evaluator: an identifier with no binding, at the location of its `E` node. */
    | UndefinedVariable(at: Option<Loc>, name: string)
      /** Evaluator: a three-child node whose first child has an operator tag it does not know. */
    | UnknownOperator(tag: Tag)
      /** Evaluator: native integer division by zero. */
    | DivisionByZero
      /** Evaluator: a tree shape the evaluator cannot read (missing children, a
          non-leaf where a token is read, a failed tag assertion). */
    | MalformedTree

  datatype Result<+T> = Ok(value: T) | Err(error: Error) {

    predicate IsFailure() {
      Err?
    }

    function PropagateFailure<U>(): Result<U>
      requires Err?
    {
      Err(error)
    }

    function Extract(): T
      requires Ok?
    {
      value
    }
  }
}
