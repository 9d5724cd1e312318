/**
 Tokens, source locations and the syntax tree shared by the lexer, the parser
 and the interpreter of the prefix calculator.
 */
module Syntax {
  import opened Options

  /** Token kinds. The lexer produces the first six; `Assign` is handled by the
      evaluator and `Semicolon` terminates a unit in the grammar, but the lexer
      never produces either of them. */
  datatype TokenKind =
    | Identifier | IntegerLiteral
    | Plus | Minus | Times | Divide
    | Assign | Semicolon

  predicate IsArithmetic(k: TokenKind) {
    k == Plus || k == Minus || k == Times || k == Divide
  }

  predicate IsOperand(k: TokenKind) {
    k == Identifier || k == IntegerLiteral
  }

  /** A token as the lexer returns it: kind, lexeme and the position counters
      captured before its first character was read. */
  datatype Token = Token(kind: TokenKind, lexeme: string, line: int, col: int)

  datatype Loc = Loc(file: string, line: int, col: int)

  /** A syntax-tree node: a wrapped token, or an `E` (expression) or `U` (unit)
      nonterminal with ordered children and an optional source location. */
  datatype Node =
    | Leaf(kind: TokenKind, lexeme: string, loc: Loc)
    | E(kids: seq<Node>, at: Option<Loc>)
    | U(kids: seq<Node>, at: Option<Loc>)

  /** The integer tag of a node: its token kind for a leaf, otherwise its
      nonterminal symbol. */
  datatype Tag = TokenTag(tok: TokenKind) | NodeU | NodeE

  function TagOf(n: Node): Tag {
    match n
    case Leaf(k, _, _) => TokenTag(k)
    case E(_, _) => NodeE
    case U(_, _) => NodeU
  }

  /** The token leaves of a tree in pre-order (left to right). */
  function Leaves(n: Node): (r: seq<Node>)
    ensures forall k :: 0 <= k < |r| ==> r[k].Leaf?
    decreases n
  {
    match n
    case Leaf(_, _, _) => [n]
    case E(kids, _) => LeavesOf(kids)
    case U(kids, _) => LeavesOf(kids)
  }

  function LeavesOf(ns: seq<Node>): (r: seq<Node>)
    ensures forall k :: 0 <= k < |r| ==> r[k].Leaf?
    decreases ns
  {
    if ns == [] then [] else Leaves(ns[0]) + LeavesOf(ns[1..])
  }

  /** The expressions of the grammar parser.cpp implements: a literal or an
      identifier wrapped in a one-child `E`, or an arithmetic operator followed
      by two operand expressions. The parser attaches no location to `E`. */
  predicate IsArithExpr(n: Node)
    decreases n
  {
    && n.E?
    && n.at.None?
    && (|| (|n.kids| == 1 && n.kids[0].Leaf? && IsOperand(n.kids[0].kind))
        || (&& |n.kids| == 3
            && n.kids[0].Leaf? && IsArithmetic(n.kids[0].kind)
            && IsArithExpr(n.kids[1])
            && IsArithExpr(n.kids[2])))
  }

  /** The expressions the evaluator is written for: those of `IsArithExpr`
      (with any location) plus assignment `= identifier Expr`. */
  predicate IsExpr(n: Node)
    decreases n
  {
    && n.E?
    && (|| (|n.kids| == 1 && n.kids[0].Leaf? && IsOperand(n.kids[0].kind))
        || (&& |n.kids| == 3
            && n.kids[0].Leaf? && IsArithmetic(n.kids[0].kind)
            && IsExpr(n.kids[1])
            && IsExpr(n.kids[2]))
        || (&& |n.kids| == 3
            && n.kids[0].Leaf? && n.kids[0].kind == Assign
            && n.kids[1].Leaf? && n.kids[1].kind == Identifier
            && IsExpr(n.kids[2])))
  }

  /** The names a tree may assign: every leaf that directly follows an `=`
      leaf in pre-order. */
  function Targets(ls: seq<Node>): set<string> {
    set k | 0 <= k < |ls| - 1 && ls[k].Leaf? && ls[k].kind == Assign && ls[k + 1].Leaf? :: ls[k + 1].lexeme
  }

  function AssignedNames(n: Node): set<string> {
    Targets(Leaves(n))
  }

  /** No `=` token occurs anywhere in the tree. */
  predicate NoAssign(n: Node) {
    forall k :: 0 <= k < |Leaves(n)| ==> Leaves(n)[k].kind != Assign
  }

  lemma {:induction false} LeavesOfOne(leaf: Node, at: Option<Loc>)
    requires leaf.Leaf?
    ensures Leaves(E([leaf], at)) == [leaf]
  {
    assert [leaf][1..] == [];
    assert LeavesOf([leaf]) == Leaves(leaf) + LeavesOf([]);
  }

  lemma {:induction false} LeavesOfThree(op: Node, a: Node, b: Node, at: Option<Loc>)
    requires op.Leaf?
    ensures Leaves(E([op, a, b], at)) == [op] + Leaves(a) + Leaves(b)
  {
    var ks := [op, a, b];
    assert ks[1..] == [a, b];
    assert ks[1..][1..] == [b];
    assert ks[1..][1..][1..] == [];
    assert LeavesOf([b]) == Leaves(b) + LeavesOf([]);
    assert LeavesOf([a, b]) == Leaves(a) + LeavesOf([b]);
    assert LeavesOf(ks) == Leaves(op) + LeavesOf([a, b]);
  }
}
