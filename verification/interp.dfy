/**
 The tree evaluator: it walks a chain of units and evaluates expression nodes
 against a variable environment.

 Evaluation order is fixed as left operand first, then right operand. C++
 leaves that order unspecified; it matters whenever one operand assigns a
 variable the other reads, or both operands fail.
 */
module Interp {
  import opened Options
  import opened Syntax
  import opened Errors
  import Decimal

  /** The interpreter's variables. */
  type Env = map<string, int>

  /** A value and the environment after computing it. */
  datatype Evaluated = Evaluated(val: int, env: Env)

  function Abs(x: int): nat {
    if x < 0 then -x else x
  }

  /** Integer division as C++ defines it: the algebraic quotient with any
      fractional part discarded, so the remainder takes the dividend's sign. */
  function TruncDiv(a: int, b: int): (q: int)
    requires b != 0
    ensures var r := a - b * q; Abs(r) < Abs(b) && (r == 0 || (r < 0 <==> a < 0))
  {
    var q0 := Abs(a) / Abs(b);
    var q := if (a < 0) == (b < 0) then q0 else -q0;
    TruncRemainder(a, b, q0, q);
    q
  }

  lemma {:induction false} TruncRemainder(a: int, b: int, q0: int, q: int)
    requires b != 0 && q0 == Abs(a) / Abs(b)
    requires q == if (a < 0) == (b < 0) then q0 else -q0
    ensures a - b * q == (if a < 0 then -(Abs(a) % Abs(b)) else Abs(a) % Abs(b))
  {
    var x, y := Abs(a), Abs(b);
    assert x == y * q0 + x % y;
    if a < 0 && b < 0 {
      assert b * q == -(y * q0);
    } else if a < 0 {
      assert b * q == -(y * q0);
    } else if b < 0 {
      assert b * q == y * q0;
    } else {
      assert b * q == y * q0;
    }
  }

  /** The four arithmetic operators; only a zero divisor fails. */
  function Arith(op: TokenKind, a: int, b: int): (r: Result<int>)
    requires IsArithmetic(op)
    ensures r.Err? <==> op == Divide && b == 0
    ensures r.Err? ==> r.error == DivisionByZero
  {
    if op == Plus then Ok(a + b)
    else if op == Minus then Ok(a - b)
    else if op == Times then Ok(a * b)
    else if b == 0 then Err(DivisionByZero)
    else Ok(TruncDiv(a, b))
  }

  /** `eval`: the first child's tag and the number of children decide.
      One child: an integer literal's base-10 value, or an identifier's
      binding. Three or more children: an arithmetic operator applied to the
      second and third children's values, or an assignment of the third
      child's value to the second child's name. A shape the evaluator cannot
      read is `MalformedTree`; another operator is `UnknownOperator`. */
  function Eval(n: Node, env: Env): (r: Result<Evaluated>)
    ensures r.Ok? ==> env.Keys <= r.value.env.Keys
    decreases n
  {
    if n.Leaf? || |n.kids| == 0 then Err(MalformedTree)
    else
      var first := n.kids[0];
      var tag := TagOf(first);
      if |n.kids| == 1 then
        if tag == TokenTag(IntegerLiteral) then Ok(Evaluated(Decimal.Strtol(first.lexeme), env))
        else if tag == TokenTag(Identifier) then
          if first.lexeme in env then Ok(Evaluated(env[first.lexeme], env))
          else Err(UndefinedVariable(n.at, first.lexeme))
        else Err(MalformedTree)
      else if |n.kids| == 2 then Err(MalformedTree)
      else if first.Leaf? && IsArithmetic(first.kind) then
        var a :- Eval(n.kids[1], env);
        var b :- Eval(n.kids[2], a.env);
        var v :- Arith(first.kind, a.val, b.val);
        Ok(Evaluated(v, b.env))
      else if first.Leaf? && first.kind == Assign then
        var left := n.kids[1];
        if !left.Leaf? then Err(MalformedTree)
        else
          var b :- Eval(n.kids[2], env);
          Ok(Evaluated(b.val, b.env[left.lexeme := b.val]))
      else Err(UnknownOperator(tag))
  }

  /** A chain of units `exec` can walk to its end: every unit has a first
      child, and a unit with three children continues with the third. */
  predicate IsChain(u: Node)
    decreases u
  {
    && !u.Leaf? && |u.kids| >= 1
    && (|u.kids| == 3 ==> IsChain(u.kids[2]))
  }

  /** The expressions of a chain, in order. */
  function Units(u: Node): (es: seq<Node>)
    requires IsChain(u)
    ensures |es| >= 1 && es[0] == u.kids[0]
    decreases u
  {
    [u.kids[0]] + (if |u.kids| == 3 then Units(u.kids[2]) else [])
  }

  /** Every expression evaluated in order, each in the environment the
      previous one left. */
  function EvalAll(es: seq<Node>, env: Env): (r: Result<seq<Evaluated>>)
    ensures r.Ok? ==> |r.value| == |es|
    decreases |es|
  {
    if es == [] then Ok([])
    else
      var a :- Eval(es[0], env);
      var more :- EvalAll(es[1..], a.env);
      Ok([a] + more)
  }

  function Last<T>(xs: seq<T>): T
    requires |xs| > 0
  {
    xs[|xs| - 1]
  }

  /** The loop of `exec` from one unit on: it evaluates every expression of
      the chain in order and ends with the last one's value; a unit it cannot
      read is `MalformedTree`. */
  function ExecUnit(u: Node, env: Env): (r: Result<Evaluated>)
    ensures IsChain(u) ==> (r.Ok? <==> EvalAll(Units(u), env).Ok?)
    ensures IsChain(u) && r.Ok? ==> r.value == Last(EvalAll(Units(u), env).value)
    ensures IsChain(u) && r.Err? ==> r.error == EvalAll(Units(u), env).error
    ensures !IsChain(u) ==> r.Err?
    decreases u
  {
    if u.Leaf? || |u.kids| == 0 then Err(MalformedTree)
    else
      var first :- Eval(u.kids[0], env);
      if |u.kids| == 3 then
        var r := ExecUnit(u.kids[2], first.env);
        assert IsChain(u) ==> ([u.kids[0]] + Units(u.kids[2]))[1..] == Units(u.kids[2]);
        r
      else
        assert IsChain(u) ==> Units(u) == [u.kids[0]] && Units(u)[1..] == [];
        Ok(first)
  }

  /** `exec`: no tree gives -1; otherwise the chain is run in an empty
      environment and the last value is the result. */
  function Exec(root: Option<Node>): (r: Result<int>)
    ensures root.None? ==> r == Ok(-1)
    ensures root.Some? && IsChain(root.value) ==>
      (r.Ok? <==> EvalAll(Units(root.value), map[]).Ok?)
    ensures root.Some? && IsChain(root.value) && r.Ok? ==>
      r.value == Last(EvalAll(Units(root.value), map[]).value).val
    ensures root.Some? && !IsChain(root.value) ==> r.Err?
  {
    match root
    case None => Ok(-1)
    case Some(u) =>
      var e :- ExecUnit(u, map[]);
      Ok(e.val)
  }
}
