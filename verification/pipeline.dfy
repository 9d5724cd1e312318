/**
 The calculator's evaluation mode end to end: lex and parse the input, then
 execute the tree and report its value.

 `parse` returns an `E` node, while `exec` walks a chain of `U` units whose
 first children are expressions. Handing the `E` root to `exec` directly, as
 the driver does, makes `exec` evaluate the root's first child, a token
 leaf, which has no children to read. The corrected driver wraps the parsed
 expression in a one-unit chain.
 */
module Pipeline {
  import opened Options
  import opened Syntax
  import opened Errors
  import Lexer
  import Parser
  import ParserProperties
  import opened Interp
  import InterpProperties

  /** The driver as written, over the lexer as written: the parsed
      expression is the tree `exec` runs. `parse` as written yields no tree
      at all, so `parse_E`'s `return e` is restored here, which leaves the
      driver's own handling of the tree as the one thing in question. */
  function RunAsWritten(input: string): (r: Result<int>)
    ensures var p := Parser.ParseFrom(Lexer.InitAsWritten(input));
      p.Err? ==> r == Err(p.error)
  {
    var t :- Parser.ParseFrom(Lexer.InitAsWritten(input));
    Exec(Some(t))
  }

  /** The driver as written never reports a value: it fails with the parse
      error, or, on every input that parses, on a tree `exec` cannot read. */
  lemma {:induction false} RunAsWrittenFails(input: string)
    ensures RunAsWritten(input).Err?
    ensures Parser.ParseFrom(Lexer.InitAsWritten(input)).Ok? ==> RunAsWritten(input) == Err(MalformedTree)
  {
    var p := Parser.ParseFrom(Lexer.InitAsWritten(input));
    if p.Ok? {
      var t := p.value;
      assert t.kids[0].Leaf?;
      assert ExecUnit(t, map[]) == Err(MalformedTree);
    }
  }

  /** The driver with the parsed expression as the one unit of a chain. */
  function Run(input: string): (r: Result<int>)
    ensures Parser.Parse(input).Err? ==> r == Err(Parser.Parse(input).error)
    ensures Parser.Parse(input).Ok? ==>
      r == (var e :- Eval(Parser.Parse(input).value, map[]); Ok(e.val))
  {
    var t :- Parser.Parse(input);
    OneUnit(t);
    Exec(Some(U([t], None)))
  }

  /** A one-unit chain runs its expression and nothing else. */
  lemma {:induction false} OneUnit(t: Node)
    ensures Exec(Some(U([t], None))) == (var e :- Eval(t, map[]); Ok(e.val))
  {
    assert U([t], None).kids[0] == t;
  }

  /** The corrected driver reports the value the first expression of the
      input denotes in prefix notation, read by the stack machine over the
      tokens it consumes, with no variable defined. */
  lemma {:induction false} RunIsPolish(input: string)
    requires Parser.Parse(input).Ok?
    ensures var ls := Leaves(Parser.Parse(input).value);
      && ParserProperties.IsPrefix(ls, Parser.Wrapped(Lexer.Scan(Lexer.Init(input)).tokens))
      && (Run(input).Ok? <==> InterpProperties.PolishValue(ls, map[]).Some?)
      && (Run(input).Ok? ==> Run(input).value == InterpProperties.PolishValue(ls, map[]).value)
  {
    var t := Parser.Parse(input).value;
    ParserProperties.ParseIffPrefix(input, t);
    InterpProperties.EvalIsPolish(t, map[]);
  }

  /** The corrected driver fails only on the lexer's error, on input that
      ends before the expression does, or at run time on an undefined
      variable or a zero divisor. */
  lemma {:induction false} RunErrors(input: string)
    requires Run(input).Err?
    ensures || Run(input).error == Parser.StopError(Lexer.Scan(Lexer.Init(input)).stop)
            || Run(input).error.UndefinedVariable?
            || Run(input).error == DivisionByZero
  {
    ParserProperties.ParseFailsOnlyAtStop(input);
    if Parser.Parse(input).Ok? {
      var t := Parser.Parse(input).value;
      InterpProperties.ArithIsExpr(t);
      InterpProperties.ExprErrors(t, map[]);
    }
  }

  /** Parsed input never defines a variable, so the corrected driver fails
      on any input whose first expression names one. */
  lemma {:induction false} RunIdentifierUndefined(input: string, k: nat)
    requires Parser.Parse(input).Ok?
    requires k < |Leaves(Parser.Parse(input).value)|
    requires Leaves(Parser.Parse(input).value)[k].kind == Identifier
    ensures Run(input).Err?
  {
    IdentifierUndefined(Parser.Parse(input).value, k);
  }

  /** In an empty environment an expression tree containing an identifier
      leaf fails. */
  lemma {:induction false} IdentifierUndefined(n: Node, k: nat)
    requires IsArithExpr(n) && k < |Leaves(n)| && Leaves(n)[k].kind == Identifier
    ensures Eval(n, map[]).Err?
    decreases n
  {
    if |n.kids| == 1 {
      var leaf := n.kids[0];
      assert n == E([leaf], None);
      LeavesOfOne(leaf, None);
    } else {
      var op, a, b := n.kids[0], n.kids[1], n.kids[2];
      assert n == E([op, a, b], None);
      LeavesOfThree(op, a, b, None);
      var ls := Leaves(n);
      assert ls[0] == op;
      InterpProperties.RunBackLeaves(a, map[], []);
      if k <= |Leaves(a)| {
        assert ls[k] == Leaves(a)[k - 1];
        IdentifierUndefined(a, k - 1);
      } else {
        assert ls[k] == Leaves(b)[k - 1 - |Leaves(a)|];
        IdentifierUndefined(b, k - 1 - |Leaves(a)|);
      }
    }
  }
}
