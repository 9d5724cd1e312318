/**
 Properties of the parser: the lookahead buffer, the correspondence between a
 parsed tree's leaves and the tokens it consumes, how parsing fails, and what
 `parse_E` as written loses.
 */
module ParserProperties {
  import opened Options
  import opened Syntax
  import opened Errors
  import Lexer
  import LexerProperties
  import opened Parser

  // ---------------------------------------------------------------------
  // The lookahead buffer
  // ---------------------------------------------------------------------

  /** A second `peek` returns the same node and state as the first. */
  lemma {:induction false} PeekIdempotent(ps: ParseState)
    requires Valid(ps)
    ensures Peek(ps).Ok? ==> Peek(Peek(ps).value.rest) == Peek(ps)
  {
  }

  /** `next` after `peek` hands out the peeked node and empties the buffer;
      a `peek` that finds nothing makes `next` report the end of input. */
  lemma {:induction false} NextAfterPeek(ps: ParseState)
    requires Valid(ps)
    ensures Peek(ps).Ok? && Peek(ps).value.node.Some? ==>
      && Next(ps) == Ok(Parsed(Peek(ps).value.node.value, Peek(ps).value.rest.(buffered := None)))
      && Next(Peek(ps).value.rest) == Next(ps)
    ensures Peek(ps).Ok? && Peek(ps).value.node.None? ==>
      Next(ps) == Err(UnexpectedEndOfInput(ps.stream.stop.line))
    ensures Peek(ps).Err? ==> Next(ps) == Err(Peek(ps).error)
  {
  }

  /** With an empty buffer, `next` takes exactly one token from the lexer and
      hands it out wrapped; with no token left it reports how the lexer
      stopped. */
  lemma {:induction false} NextTakesOneToken(ps: ParseState)
    requires Valid(ps) && ps.buffered.None?
    ensures ps.pos < |ps.stream.tokens| ==>
      Next(ps) == Ok(Parsed(Wrap(ps.stream.tokens[ps.pos]), ps.(pos := ps.pos + 1)))
    ensures ps.pos == |ps.stream.tokens| ==> Next(ps) == Err(StopError(ps.stream.stop))
  {
  }

  // ---------------------------------------------------------------------
  // Leaves and consumed tokens
  // ---------------------------------------------------------------------

  predicate IsPrefix(xs: seq<Node>, ys: seq<Node>) {
    |xs| <= |ys| && ys[..|xs|] == xs
  }

  lemma {:induction false} PrefixSplit(x: Node, a: seq<Node>, b: seq<Node>, ys: seq<Node>)
    requires IsPrefix([x] + a + b, ys)
    ensures ys != [] && ys[0] == x && IsPrefix(a, ys[1..])
    ensures IsPrefix(b, ys[1 + |a|..])
  {
    var xs := [x] + a + b;
    assert ys[0] == ys[..|xs|][0] == xs[0];
    assert ys[1..][..|a|] == ys[..|xs|][1..1 + |a|] == xs[1..1 + |a|];
    assert xs[1..1 + |a|] == a;
    assert ys[1 + |a|..][..|b|] == ys[..|xs|][1 + |a|..] == xs[1 + |a|..];
    assert xs[1 + |a|..] == b;
  }

  lemma {:induction false} PrefixAfter(xs: seq<Node>, p: seq<Node>, b: seq<Node>, rest: seq<Node>)
    requires p == xs + rest
    requires IsPrefix(b, p[|xs|..])
    ensures IsPrefix(b, rest)
  {
    assert p[|xs|..] == rest;
  }

  /** `parse_E` on an operator goes on to its operands. */
  lemma {:induction false} ParseEOperatorStep(ps: ParseState, n: Parsed)
    requires Valid(ps) && Next(ps) == Ok(n) && IsArithmetic(n.node.kind)
    ensures ParseE(ps) == ParseOperands(n.node, n.rest)
  {
  }

  /** The operands of an operator, parsed one after the other. */
  lemma {:induction false} OperandsStep(op: Node, ps: ParseState, pa: Parsed, pb: Parsed)
    requires Valid(ps) && op.Leaf? && IsArithmetic(op.kind)
    requires ParseE(ps) == Ok(pa) && ParseE(pa.rest) == Ok(pb)
    ensures ParseOperands(op, ps) == Ok(Parsed(E([op, pa.node, pb.node], None), pb.rest))
  {
  }

  /** If the nodes still to be consumed begin with the leaves of an
      expression tree, parsing yields exactly that tree. */
  lemma {:induction false} ParseEFromLeaves(ps: ParseState, t: Node)
    requires Valid(ps) && IsArithExpr(t)
    requires IsPrefix(Leaves(t), Pending(ps))
    ensures ParseE(ps).Ok? && ParseE(ps).value.node == t
    decreases t, 2
  {
    if |t.kids| == 1 {
      var leaf := t.kids[0];
      LeavesOfOne(leaf, None);
      assert t == E([leaf], None);
      assert Pending(ps)[0] == leaf;
    } else {
      ParseEFromOperatorLeaves(ps, t);
    }
  }

  lemma {:induction false} ParseEFromOperatorLeaves(ps: ParseState, t: Node)
    requires Valid(ps) && IsArithExpr(t) && |t.kids| == 3
    requires IsPrefix(Leaves(t), Pending(ps))
    ensures ParseE(ps).Ok? && ParseE(ps).value.node == t
    decreases t, 1
  {
    var leaf, a, b := t.kids[0], t.kids[1], t.kids[2];
    var p0 := Pending(ps);
    assert t == E([leaf, a, b], None);
    LeavesOfThree(leaf, a, b, None);
    PrefixSplit(leaf, Leaves(a), Leaves(b), p0);
    var n := Next(ps).value;
    assert n.node == leaf && Pending(n.rest) == p0[1..];
    assert p0[1 + |Leaves(a)|..] == Pending(n.rest)[|Leaves(a)|..];
    OperandsFromLeaves(n.rest, t);
    ParseEOperatorStep(ps, n);
  }

  /** If the nodes still to be consumed begin with the leaves of the two
      operands of `t`, parsing the operands yields `t`. */
  lemma {:induction false} OperandsFromLeaves(ps: ParseState, t: Node)
    requires Valid(ps) && IsArithExpr(t) && |t.kids| == 3
    requires IsPrefix(Leaves(t.kids[1]), Pending(ps))
    requires IsPrefix(Leaves(t.kids[2]), Pending(ps)[|Leaves(t.kids[1])|..])
    ensures ParseOperands(t.kids[0], ps).Ok? && ParseOperands(t.kids[0], ps).value.node == t
    decreases t, 0
  {
    var leaf, a, b := t.kids[0], t.kids[1], t.kids[2];
    assert t == E([leaf, a, b], None);
    ParseEFromLeaves(ps, a);
    var pa := ParseE(ps).value;
    PrefixAfter(Leaves(a), Pending(ps), Leaves(b), Pending(pa.rest));
    ParseEFromLeaves(pa.rest, b);
    OperandsStep(leaf, ps, pa, ParseE(pa.rest).value);
  }

  /** Parsing yields `t` exactly when `t` is an expression tree whose leaves,
      in pre-order, are the next nodes to be consumed. */
  lemma {:induction false} ParseEIffLeaves(ps: ParseState, t: Node)
    requires Valid(ps)
    ensures (ParseE(ps).Ok? && ParseE(ps).value.node == t) <==>
      IsArithExpr(t) && IsPrefix(Leaves(t), Pending(ps))
  {
    if ParseE(ps).Ok? && ParseE(ps).value.node == t {
      var q := ParseE(ps).value.rest;
      assert Pending(ps) == Leaves(t) + Pending(q);
      assert Pending(ps)[..|Leaves(t)|] == Leaves(t);
    }
    if IsArithExpr(t) && IsPrefix(Leaves(t), Pending(ps)) {
      ParseEFromLeaves(ps, t);
    }
  }

  /** Over any lexer, `parse` yields `t` exactly when `t` is an expression
      tree whose leaves are the first tokens the lexer hands out, wrapped; the
      tokens after them, and how the lexer would stop, play no part. */
  lemma {:induction false} ParseFromIffPrefix(lx: Lexer.LexState, t: Node)
    requires Lexer.Valid(lx)
    ensures ParseFrom(lx) == Ok(t) <==>
      IsArithExpr(t) && IsPrefix(Leaves(t), Wrapped(Lexer.Scan(lx).tokens))
  {
    ParseEIffLeaves(Start(lx), t);
  }

  /** The same, for a fresh lexer reading `s`. */
  lemma {:induction false} ParseIffPrefix(s: string, t: Node)
    ensures Parse(s) == Ok(t) <==>
      IsArithExpr(t) && IsPrefix(Leaves(t), Wrapped(Lexer.Scan(Lexer.Init(s)).tokens))
  {
    ParseFromIffPrefix(Lexer.Init(s), t);
  }

  /** The same, for input the lexer accepts throughout. */
  lemma {:induction false} ParseIffTokenPrefix(s: string, t: Node)
    requires Lexer.Tokenize(Lexer.Init(s)).Ok?
    ensures Parse(s) == Ok(t) <==>
      IsArithExpr(t) && IsPrefix(Leaves(t), Wrapped(Lexer.Tokenize(Lexer.Init(s)).value))
  {
    LexerProperties.ScanTokenize(Lexer.Init(s));
    ParseIffPrefix(s, t);
  }

  /** Every leaf of a parsed tree is a token of the input, attributed to
      `<input>` at the physical line and column of its first character. */
  lemma {:induction false} ParsedLeavesLocated(s: string, t: Node)
    requires Parse(s) == Ok(t)
    ensures forall k :: 0 <= k < |Leaves(t)| ==>
      var n := Leaves(t)[k];
      n.loc.file == InputName && LexerProperties.Located(s, Token(n.kind, n.lexeme, n.loc.line, n.loc.col))
  {
    var ts := Lexer.Scan(Lexer.Init(s)).tokens;
    ParseIffPrefix(s, t);
    LexerProperties.ScanLocated(Lexer.Init(s));
    forall k | 0 <= k < |Leaves(t)|
      ensures var n := Leaves(t)[k];
        n.loc.file == InputName && LexerProperties.Located(s, Token(n.kind, n.lexeme, n.loc.line, n.loc.col))
    {
      assert Leaves(t)[k] == Wrapped(ts)[..|Leaves(t)|][k] == Wrap(ts[k]);
      assert Token(ts[k].kind, ts[k].lexeme, ts[k].line, ts[k].col) == ts[k];
    }
  }

  // ---------------------------------------------------------------------
  // How parsing fails
  // ---------------------------------------------------------------------

  predicate LexedKinds(ts: seq<Token>) {
    forall k :: 0 <= k < |ts| ==> LexerProperties.LexedKind(ts[k])
  }

  /** Over tokens the lexer produced, parsing fails only by reading past the
      last token: it reports the lexer's failure, or the end of input. */
  lemma {:induction false} ParseEFailsOnlyAtStop(ps: ParseState)
    requires Valid(ps) && ps.buffered.None? && LexedKinds(ps.stream.tokens)
    ensures ParseE(ps).Err? ==> ParseE(ps).error == StopError(ps.stream.stop)
    decreases Size(ps), 0
  {
    if Next(ps).Ok? {
      var n := Next(ps).value;
      assert n.node == Pending(ps)[0] == Wrap(ps.stream.tokens[ps.pos]);
      if IsArithmetic(n.node.kind) {
        ParseEOperatorStep(ps, n);
        OperandsFailOnlyAtStop(n.node, n.rest);
      }
    }
  }

  lemma {:induction false} OperandsFailOnlyAtStop(op: Node, ps: ParseState)
    requires Valid(ps) && op.Leaf? && IsArithmetic(op.kind)
    requires ps.buffered.None? && LexedKinds(ps.stream.tokens)
    ensures ParseOperands(op, ps).Err? ==> ParseOperands(op, ps).error == StopError(ps.stream.stop)
    decreases Size(ps), 1
  {
    ParseEFailsOnlyAtStop(ps);
    if ParseE(ps).Ok? {
      ParseEFailsOnlyAtStop(ParseE(ps).value.rest);
    }
  }

  /** Over any lexer that has not buffered a token, `parse` fails only with
      the error the lexer stops with: its failure if it fails before the
      expression is complete, and otherwise "unexpected end of input" at its
      line counter. */
  lemma {:induction false} ParseFromFailsOnlyAtStop(lx: Lexer.LexState)
    requires Lexer.Valid(lx) && lx.buffered.None?
    ensures ParseFrom(lx).Err? ==> ParseFrom(lx).error == StopError(Lexer.Scan(lx).stop)
  {
    LexerProperties.ScanKinds(lx);
    ParseEFailsOnlyAtStop(Start(lx));
  }

  /** With the counters rolled back, that line is the one where the input
      ends. */
  lemma {:induction false} ParseFailsOnlyAtStop(s: string)
    ensures Parse(s).Err? ==> Parse(s).error == StopError(Lexer.Scan(Lexer.Init(s)).stop)
    ensures Parse(s).Err? && Lexer.Tokenize(Lexer.Init(s)).Ok? ==>
      Parse(s).error == UnexpectedEndOfInput(Lexer.LineCol(s, |s|).0)
  {
    LexerProperties.ScanLocated(Lexer.Init(s));
    LexerProperties.ScanTokenize(Lexer.Init(s));
    ParseFromFailsOnlyAtStop(Lexer.Init(s));
  }

  /** A leading node that is neither an operand nor an arithmetic operator
      is an illegal expression, reported at its line with its lexeme. */
  lemma {:induction false} ParseEIllegal(ps: ParseState)
    requires Valid(ps) && Pending(ps) != []
    requires !IsOperand(Pending(ps)[0].kind) && !IsArithmetic(Pending(ps)[0].kind)
    ensures ParseE(ps) == Err(IllegalExpression(Pending(ps)[0].loc.line, Pending(ps)[0].lexeme))
  {
  }

  // ---------------------------------------------------------------------
  // parse_E as written
  // ---------------------------------------------------------------------

  /** `parse_E` as written reads exactly what the corrected one reads and
      fails exactly when and how it fails; only the tree is lost. */
  lemma {:induction false} AsWrittenReadsTheSame(ps: ParseState)
    requires Valid(ps)
    ensures ParseEAsWritten(ps).Ok? <==> ParseE(ps).Ok?
    ensures ParseE(ps).Ok? ==> ParseEAsWritten(ps).value.rest == ParseE(ps).value.rest
    ensures ParseE(ps).Err? ==> ParseEAsWritten(ps).error == ParseE(ps).error
    decreases Size(ps)
  {
    if Next(ps).Ok? {
      var t := Next(ps).value;
      if IsArithmetic(t.node.kind) && !IsOperand(t.node.kind) {
        AsWrittenReadsTheSame(t.rest);
        if ParseE(t.rest).Ok? {
          AsWrittenReadsTheSame(ParseE(t.rest).value.rest);
        }
      }
    }
  }

  /** Over the lexer as written, `parse` as written fails exactly when and
      how `parse` with `return e` restored fails, and where that one yields a
      tree, it succeeds but yields none. */
  lemma {:induction false} ParseAsWrittenLosesTree(s: string)
    ensures ParseFrom(Lexer.InitAsWritten(s)).Ok? <==> ParseAsWritten(s).Ok?
    ensures ParseFrom(Lexer.InitAsWritten(s)).Ok? ==> ParseAsWritten(s) == Ok(None)
    ensures ParseFrom(Lexer.InitAsWritten(s)).Err? ==>
      ParseAsWritten(s) == Err(ParseFrom(Lexer.InitAsWritten(s)).error)
  {
    AsWrittenReadsTheSame(Start(Lexer.InitAsWritten(s)));
  }

  /** An operator followed by a single operand reads past the last token
      for its second operand. */
  lemma {:induction false} OperatorShortOfOperand(ps: ParseState)
    requires Valid(ps) && |Pending(ps)| == 2
    requires IsArithmetic(Pending(ps)[0].kind) && !IsOperand(Pending(ps)[0].kind) && IsOperand(Pending(ps)[1].kind)
    ensures ParseE(ps) == Err(StopError(ps.stream.stop))
  {
    var n := Next(ps).value;
    ParseEOperatorStep(ps, n);
    var a := Next(n.rest).value;
    assert Pending(a.rest) == [];
  }

  /** Over a lexer that hands out just an operator and an operand, `parse`
      fails with the error the lexer stops with. */
  lemma {:induction false} ParseShortOperator(lx: Lexer.LexState, t1: Token, t2: Token)
    requires Lexer.Valid(lx) && Lexer.Scan(lx).tokens == [t1, t2]
    requires IsArithmetic(t1.kind) && !IsOperand(t1.kind) && IsOperand(t2.kind)
    ensures ParseFrom(lx) == Err(StopError(Lexer.Scan(lx).stop))
  {
    var ps := Start(lx);
    assert Pending(ps)[0] == Wrap(t1) && Pending(ps)[1] == Wrap(t2);
    OperatorShortOfOperand(ps);
  }

  /** The line "unexpected end of input" reports for `+ 1` and a newline:
      line 2 with the counters rolled back, line 3 as written, whether or not
      `parse_E` returns its node. */
  lemma {:induction false} EndOfInputLineAsWritten()
    ensures Parse("+ 1\n") == Err(UnexpectedEndOfInput(2))
    ensures ParseFrom(Lexer.InitAsWritten("+ 1\n")) == Err(UnexpectedEndOfInput(3))
    ensures ParseAsWritten("+ 1\n") == Err(UnexpectedEndOfInput(3))
  {
    var t1, t2 := Token(Plus, "+", 1, 1), Token(IntegerLiteral, "1", 1, 3);
    LexerProperties.PlusOneStream(true);
    ParseShortOperator(Lexer.Init("+ 1\n"), t1, t2);
    LexerProperties.PlusOneStream(false);
    ParseShortOperator(Lexer.InitAsWritten("+ 1\n"), t1, t2);
    ParseAsWrittenLosesTree("+ 1\n");
  }
}
