/**
 The recursive-descent parser for prefix expressions. It reads the lexer's
 tokens one at a time through a one-node lookahead buffer, wrapping each
 token in a `Leaf` node with the token's kind, lexeme and position.

 The lexer is deterministic and the parser touches it only through
 `lexer_next`, so the parser's lexer is represented by the stream of tokens
 those calls hand out (`Lexer.Scan`) and the index of the next one. How the
 stream stops is consulted only when the parser reads past its last token:
 a lexer error after the parsed expression is never reached.
 */
module Parser {
  import opened Options
  import opened Syntax
  import opened Errors
  import Lexer

  /** The parser's state: the lexer (its token stream and how many tokens
      were taken) and the node `peek` buffered. */
  datatype ParseState = ParseState(stream: Lexer.Stream, pos: nat, buffered: Option<Node>)

  predicate Valid(ps: ParseState) {
    && ps.pos <= |ps.stream.tokens|
    && (ps.buffered.Some? ==> ps.buffered.value.Leaf?)
  }

  /** A measure every consumed node decreases. */
  function Size(ps: ParseState): nat
    requires Valid(ps)
  {
    |ps.stream.tokens| - ps.pos + (if ps.buffered.Some? then 1 else 0)
  }

  /** The parser over the lexer `lx`: nothing buffered, and every token the
      lexer will hand out still to be consumed, wrapped, in order. */
  function Start(lx: Lexer.LexState): (ps: ParseState)
    requires Lexer.Valid(lx)
    ensures Valid(ps) && ps.buffered.None?
    ensures Pending(ps) == Wrapped(Lexer.Scan(lx).tokens)
    ensures ps.stream.tokens == Lexer.Scan(lx).tokens && ps.stream.stop == Lexer.Scan(lx).stop
  {
    var ps := ParseState(Lexer.Scan(lx), 0, None);
    assert ps.stream.tokens[0..] == ps.stream.tokens;
    ps
  }

  /** The file name every parsed node is attributed to. */
  const InputName: string := "<input>"

  /** The node wrapping a token: same kind and lexeme, located at the token. */
  function Wrap(t: Token): (n: Node)
    ensures n.Leaf? && n.kind == t.kind && n.lexeme == t.lexeme
    ensures n.loc == Loc(InputName, t.line, t.col)
  {
    Leaf(t.kind, t.lexeme, Loc(InputName, t.line, t.col))
  }

  /** Every token of a sequence, wrapped. */
  function Wrapped(ts: seq<Token>): (r: seq<Node>)
    ensures |r| == |ts|
    ensures forall k :: 0 <= k < |ts| ==> r[k] == Wrap(ts[k])
  {
    if ts == [] then [] else [Wrap(ts[0])] + Wrapped(ts[1..])
  }

  /** The nodes the parser has not consumed yet, in order: the buffered one,
      then the lexer's remaining tokens wrapped. */
  function Pending(ps: ParseState): seq<Node>
    requires Valid(ps)
  {
    (if ps.buffered.Some? then [ps.buffered.value] else []) + Wrapped(ps.stream.tokens[ps.pos..])
  }

  /** The error a read past the last token reports: "unexpected end of
      input" at the lexer's line counter, or the lexer's own failure. */
  function StopError(stop: Lexer.Stop): Error {
    match stop
    case AtEnd(line) => UnexpectedEndOfInput(line)
    case Failed(e) => e
  }

  /** Taking the next token off the stream, wrapped. */
  lemma {:induction false} TakeToken(ps: ParseState)
    requires Valid(ps) && ps.pos < |ps.stream.tokens|
    ensures Wrapped(ps.stream.tokens[ps.pos..])
      == [Wrap(ps.stream.tokens[ps.pos])] + Wrapped(ps.stream.tokens[ps.pos + 1..])
  {
    assert ps.stream.tokens[ps.pos..][1..] == ps.stream.tokens[ps.pos + 1..];
  }

  /** An operand node consumed on its own is a one-leaf expression. */
  lemma {:induction false} ConsumedOperand(p0: seq<Node>, leaf: Node, p1: seq<Node>)
    requires leaf.Leaf? && IsOperand(leaf.kind) && p0 == [leaf] + p1
    ensures IsArithExpr(E([leaf], None)) && p0 == Leaves(E([leaf], None)) + p1
  {
    LeavesOfOne(leaf, None);
  }

  /** An operator node consumed before two expressions forms, with them, a
      three-child expression whose leaves are all that was consumed. */
  lemma {:induction false} ConsumedOperator(p0: seq<Node>, leaf: Node, p1: seq<Node>, a: Node, p2: seq<Node>, b: Node, p3: seq<Node>)
    requires leaf.Leaf? && IsArithmetic(leaf.kind) && IsArithExpr(a) && IsArithExpr(b)
    requires p0 == [leaf] + p1 && p1 == Leaves(a) + p2 && p2 == Leaves(b) + p3
    ensures IsArithExpr(E([leaf, a, b], None)) && p0 == Leaves(E([leaf, a, b], None)) + p3
  {
    LeavesOfThree(leaf, a, b, None);
  }

  datatype Peeked = Peeked(node: Option<Node>, rest: ParseState)

  /** `peek`: the next node without consuming it, buffered; `None` when the
      lexer has no more tokens, and the lexer's error if it fails. */
  function Peek(ps: ParseState): (r: Result<Peeked>)
    requires Valid(ps)
    ensures r.Ok? ==> Valid(r.value.rest) && r.value.rest.stream == ps.stream
    ensures r.Ok? ==> r.value.rest.buffered == r.value.node && Pending(r.value.rest) == Pending(ps)
    ensures r.Ok? && r.value.node.Some? ==> Pending(ps) != [] && r.value.node.value == Pending(ps)[0]
    ensures r.Ok? && r.value.node.None? ==> Pending(ps) == [] && ps.stream.stop.AtEnd?
    ensures r.Err? ==> Pending(ps) == [] && ps.stream.stop == Lexer.Failed(r.error)
  {
    if ps.buffered.Some? then Ok(Peeked(ps.buffered, ps))
    else if ps.pos < |ps.stream.tokens| then
      TakeToken(ps);
      var n := Wrap(ps.stream.tokens[ps.pos]);
      Ok(Peeked(Some(n), ParseState(ps.stream, ps.pos + 1, Some(n))))
    else
      match ps.stream.stop
      case AtEnd(_) => Ok(Peeked(None, ps))
      case Failed(e) => Err(e)
  }

  datatype Parsed = Parsed(node: Node, rest: ParseState)

  /** `next`: the node `peek` finds, taken out of the buffer. Running out of
      tokens is an error that reports the lexer's line counter. */
  function Next(ps: ParseState): (r: Result<Parsed>)
    requires Valid(ps)
    ensures r.Ok? <==> Pending(ps) != []
    ensures r.Ok? ==> Valid(r.value.rest) && r.value.rest.buffered.None? && r.value.rest.stream == ps.stream
    ensures r.Ok? ==> Pending(ps) == [r.value.node] + Pending(r.value.rest)
    ensures r.Ok? ==> r.value.node.Leaf? && Size(r.value.rest) < Size(ps)
    ensures r.Err? ==> r.error == StopError(ps.stream.stop)
  {
    var p :- Peek(ps);
    if p.node.None? then Err(UnexpectedEndOfInput(ps.stream.stop.line))
    else
      Unbuffer(p.rest);
      Ok(Parsed(p.node.value, p.rest.(buffered := None)))
  }

  /** Emptying the buffer takes its node off the front of the pending ones. */
  lemma {:induction false} Unbuffer(ps: ParseState)
    requires Valid(ps) && ps.buffered.Some?
    ensures Pending(ps) == [ps.buffered.value] + Pending(ps.(buffered := None))
  {
  }

  /** `parse_E` with the evidently intended `return e`: an operand token gives
      a one-child `E`; an arithmetic operator gives an `E` of the operator and
      two operand expressions; any other token is an illegal expression,
      reported at that token's line. The tree's leaves are exactly the nodes
      consumed, in order. */
  function ParseE(ps: ParseState): (r: Result<Parsed>)
    requires Valid(ps)
    ensures r.Ok? ==> IsArithExpr(r.value.node)
    ensures r.Ok? ==> Valid(r.value.rest) && r.value.rest.buffered.None? && r.value.rest.stream == ps.stream
    ensures r.Ok? ==> Pending(ps) == Leaves(r.value.node) + Pending(r.value.rest)
    ensures r.Ok? ==> Size(r.value.rest) < Size(ps)
    decreases Size(ps), 0
  {
    var t :- Next(ps);
    var leaf := t.node;
    if IsOperand(leaf.kind) then
      ConsumedOperand(Pending(ps), leaf, Pending(t.rest));
      Ok(Parsed(E([leaf], None), t.rest))
    else if IsArithmetic(leaf.kind) then ParseOperands(leaf, t.rest)
    else Err(IllegalExpression(leaf.loc.line, leaf.lexeme))
  }

  /** The operator case of `parse_E`: the two operand expressions that follow
      an arithmetic operator, parsed in order, and the three-child `E`. */
  function ParseOperands(op: Node, ps: ParseState): (r: Result<Parsed>)
    requires Valid(ps) && op.Leaf? && IsArithmetic(op.kind)
    ensures r.Ok? ==> IsArithExpr(r.value.node) && |r.value.node.kids| == 3 && r.value.node.kids[0] == op
    ensures r.Ok? ==> Valid(r.value.rest) && r.value.rest.buffered.None? && r.value.rest.stream == ps.stream
    ensures r.Ok? ==> [op] + Pending(ps) == Leaves(r.value.node) + Pending(r.value.rest)
    ensures r.Ok? ==> Size(r.value.rest) < Size(ps)
    decreases Size(ps), 1
  {
    var a :- ParseE(ps);
    var b :- ParseE(a.rest);
    ConsumedOperator([op] + Pending(ps), op, Pending(ps), a.node, Pending(a.rest), b.node, Pending(b.rest));
    Ok(Parsed(E([op, a.node, b.node], None), b.rest))
  }

  /** `parse` with `parse_E`'s `return e` restored: one expression read from
      the tokens `lx` hands out; tokens after it are never read. */
  function ParseFrom(lx: Lexer.LexState): (r: Result<Node>)
    requires Lexer.Valid(lx)
    ensures r.Ok? ==> IsArithExpr(r.value)
  {
    var p :- ParseE(Start(lx));
    Ok(p.node)
  }

  /** `parse` over a fresh lexer reading `input`, with `parse_E`'s `return e`
      restored and the lexer's counters rolled back on `unread`. */
  function Parse(input: string): (r: Result<Node>)
    ensures r.Ok? ==> IsArithExpr(r.value)
  {
    ParseFrom(Lexer.Init(input))
  }

  /** The outcome of `parse_E` as written: the same reads, but the function
      ends without a `return`, so no node reaches the caller (`None`). */
  datatype Fallen = Fallen(node: Option<Node>, rest: ParseState)

  function ParseEAsWritten(ps: ParseState): (r: Result<Fallen>)
    requires Valid(ps)
    ensures r.Ok? ==> r.value.node.None?
    ensures r.Ok? ==> Valid(r.value.rest) && Size(r.value.rest) < Size(ps)
    decreases Size(ps)
  {
    var t :- Next(ps);
    var leaf := t.node;
    if IsOperand(leaf.kind) then Ok(Fallen(None, t.rest))
    else if IsArithmetic(leaf.kind) then
      var a :- ParseEAsWritten(t.rest);
      var b :- ParseEAsWritten(a.rest);
      Ok(Fallen(None, b.rest))
    else Err(IllegalExpression(leaf.loc.line, leaf.lexeme))
  }

  /** `parse` as written, over the lexer as written, returning whatever
      `parse_E` as written returns. */
  function ParseAsWritten(input: string): (r: Result<Option<Node>>)
    ensures r.Ok? ==> r.value.None?
  {
    var p :- ParseEAsWritten(Start(Lexer.InitAsWritten(input)));
    Ok(p.node)
  }
}
