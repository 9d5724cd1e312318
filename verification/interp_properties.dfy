/**
 Properties of the evaluator: which variables an evaluation can change, what
 an assignment binds, how a well-formed expression can fail, and agreement
 with an independent reading of prefix notation as a stack machine run over
 the leaves from right to left.
 */
module InterpProperties {
  import opened Options
  import opened Syntax
  import opened Errors
  import Decimal
  import opened Interp

  // ---------------------------------------------------------------------
  // Leaves and assignment targets of a three-child node
  // ---------------------------------------------------------------------

  /** The leaves of a node with at least three children begin with those of
      its first three children. */
  lemma {:induction false} LeavesOfFirstThree(n: Node)
    requires !n.Leaf? && |n.kids| >= 3
    ensures Leaves(n) == Leaves(n.kids[0]) + Leaves(n.kids[1]) + Leaves(n.kids[2]) + LeavesOf(n.kids[3..])
  {
    var ks := n.kids;
    assert ks[1..][1..] == ks[2..];
    assert ks[2..][1..] == ks[3..];
    assert LeavesOf(ks[2..]) == Leaves(ks[2]) + LeavesOf(ks[3..]);
    assert LeavesOf(ks[1..]) == Leaves(ks[1]) + LeavesOf(ks[2..]);
    assert LeavesOf(ks) == Leaves(ks[0]) + LeavesOf(ks[1..]);
  }

  /** A target of either part is a target of the whole. */
  lemma {:induction false} TargetsAppend(xs: seq<Node>, ys: seq<Node>)
    ensures Targets(xs) <= Targets(xs + ys)
    ensures Targets(ys) <= Targets(xs + ys)
  {
    var zs := xs + ys;
    forall x | x in Targets(xs) ensures x in Targets(zs) {
      var k :| 0 <= k < |xs| - 1 && xs[k].Leaf? && xs[k].kind == Assign && xs[k + 1].Leaf? && xs[k + 1].lexeme == x;
      assert zs[k] == xs[k] && zs[k + 1] == xs[k + 1];
    }
    forall x | x in Targets(ys) ensures x in Targets(zs) {
      var k :| 0 <= k < |ys| - 1 && ys[k].Leaf? && ys[k].kind == Assign && ys[k + 1].Leaf? && ys[k + 1].lexeme == x;
      assert zs[|xs| + k] == ys[k] && zs[|xs| + k + 1] == ys[k + 1];
    }
  }

  /** The names the second and third children may assign are names the node
      may assign; and an assignment node assigns its second child's name. */
  lemma {:induction false} KidTargets(n: Node)
    requires !n.Leaf? && |n.kids| >= 3
    ensures AssignedNames(n.kids[1]) <= AssignedNames(n)
    ensures AssignedNames(n.kids[2]) <= AssignedNames(n)
    ensures n.kids[0].Leaf? && n.kids[0].kind == Assign && n.kids[1].Leaf? ==>
      n.kids[1].lexeme in AssignedNames(n)
  {
    var l0, l1, l2 := Leaves(n.kids[0]), Leaves(n.kids[1]), Leaves(n.kids[2]);
    var tail := LeavesOf(n.kids[3..]);
    LeavesOfFirstThree(n);
    assert Leaves(n) == l0 + (l1 + (l2 + tail));
    TargetsAppend(l0, l1 + (l2 + tail));
    TargetsAppend(l1, l2 + tail);
    TargetsAppend(l2, tail);
    if n.kids[0].Leaf? && n.kids[0].kind == Assign && n.kids[1].Leaf? {
      var ls := Leaves(n);
      assert ls[0] == n.kids[0] && ls[1] == n.kids[1];
    }
  }

  // ---------------------------------------------------------------------
  // What an evaluation changes
  // ---------------------------------------------------------------------

  /** The variables an evaluation leaves as they were. */
  ghost predicate Untouched(env: Env, env': Env, names: set<string>) {
    forall x :: x !in names ==> (x in env' <==> x in env) && (x in env ==> env'[x] == env[x])
  }

  /** Evaluation changes no variable other than those the tree assigns. */
  lemma {:induction false} EvalFrame(n: Node, env: Env)
    requires Eval(n, env).Ok?
    ensures Untouched(env, Eval(n, env).value.env, AssignedNames(n))
    decreases n
  {
    if |n.kids| >= 3 {
      KidTargets(n);
      var first := n.kids[0];
      if first.Leaf? && IsArithmetic(first.kind) {
        var a := Eval(n.kids[1], env).value;
        EvalFrame(n.kids[1], env);
        EvalFrame(n.kids[2], a.env);
      } else {
        EvalFrame(n.kids[2], env);
      }
    }
  }

  /** A tree without `=` leaves the environment exactly as it was. */
  lemma {:induction false} EvalPure(n: Node, env: Env)
    requires NoAssign(n) && Eval(n, env).Ok?
    ensures Eval(n, env).value.env == env
  {
    EvalFrame(n, env);
    assert AssignedNames(n) == {};
    var env' := Eval(n, env).value.env;
    assert env'.Keys == env.Keys;
  }

  /** `= x rhs` has the value of `rhs`, binds `x` to it, and otherwise leaves
      the environment as `rhs` left it; it fails exactly when `rhs` does, with
      the same error. */
  lemma {:induction false} EvalAssign(n: Node, env: Env)
    requires n.E? && |n.kids| == 3 && n.kids[0].Leaf? && n.kids[0].kind == Assign && n.kids[1].Leaf?
    ensures Eval(n, env).Ok? <==> Eval(n.kids[2], env).Ok?
    ensures Eval(n, env).Err? ==> Eval(n, env).error == Eval(n.kids[2], env).error
    ensures Eval(n, env).Ok? ==>
      var rhs := Eval(n.kids[2], env).value;
      var name := n.kids[1].lexeme;
      && Eval(n, env).value.val == rhs.val
      && name in Eval(n, env).value.env && Eval(n, env).value.env[name] == rhs.val
      && (forall y :: y != name ==> (y in Eval(n, env).value.env <==> y in rhs.env))
      && (forall y :: y != name && y in rhs.env ==> Eval(n, env).value.env[y] == rhs.env[y])
  {
  }

  /** Assignments that do not touch a variable keep its value: after `= x rhs`
      every other variable `rhs` does not assign has its old binding. */
  lemma {:induction false} AssignKeepsOthers(n: Node, env: Env, y: string)
    requires n.E? && |n.kids| == 3 && n.kids[0].Leaf? && n.kids[0].kind == Assign && n.kids[1].Leaf?
    requires Eval(n, env).Ok? && y != n.kids[1].lexeme && y !in AssignedNames(n.kids[2])
    ensures y in Eval(n, env).value.env <==> y in env
    ensures y in env ==> Eval(n, env).value.env[y] == env[y]
  {
    EvalFrame(n.kids[2], env);
  }

  // ---------------------------------------------------------------------
  // How evaluation fails
  // ---------------------------------------------------------------------

  /** Every tree the parser builds is one the evaluator is written for, and
      assigns nothing. */
  lemma {:induction false} ArithIsExpr(n: Node)
    requires IsArithExpr(n)
    ensures IsExpr(n) && NoAssign(n)
    decreases n
  {
    if |n.kids| == 1 {
      assert n == E([n.kids[0]], n.at);
      LeavesOfOne(n.kids[0], n.at);
      assert Leaves(n)[0] == n.kids[0];
    } else {
      ArithIsExpr(n.kids[1]);
      ArithIsExpr(n.kids[2]);
      LeavesOfFirstThree(n);
      assert n.kids[3..] == [];
      assert Leaves(n) == Leaves(n.kids[0]) + Leaves(n.kids[1]) + Leaves(n.kids[2]);
    }
  }

  /** An expression of the evaluator's grammar fails only on an undefined
      variable or a zero divisor. */
  lemma {:induction false} ExprErrors(n: Node, env: Env)
    requires IsExpr(n) && Eval(n, env).Err?
    ensures Eval(n, env).error.UndefinedVariable? || Eval(n, env).error == DivisionByZero
    decreases n
  {
    if |n.kids| == 3 {
      var first := n.kids[0];
      if IsArithmetic(first.kind) {
        if Eval(n.kids[1], env).Err? {
          ExprErrors(n.kids[1], env);
        } else if Eval(n.kids[2], Eval(n.kids[1], env).value.env).Err? {
          ExprErrors(n.kids[2], Eval(n.kids[1], env).value.env);
        }
      } else {
        ExprErrors(n.kids[2], env);
      }
    }
  }

  /** A node of three or more children whose first child is not an
      arithmetic or assignment token is an unknown operator, reported with
      that child's tag; one of two children cannot be read at all. */
  lemma {:induction false} EvalUnknownOperator(n: Node, env: Env)
    requires !n.Leaf? && |n.kids| >= 2
    requires !n.kids[0].Leaf? || (!IsArithmetic(n.kids[0].kind) && n.kids[0].kind != Assign)
    ensures |n.kids| == 2 ==> Eval(n, env) == Err(MalformedTree)
    ensures |n.kids| >= 3 ==> Eval(n, env) == Err(UnknownOperator(TagOf(n.kids[0])))
  {
  }

  /** An undefined variable is reported at the expression that names it. */
  lemma {:induction false} UndefinedVariableReported(x: string, loc: Loc, at: Option<Loc>, env: Env)
    ensures Eval(E([Leaf(Identifier, x, loc)], at), env).Err? <==> x !in env
    ensures x !in env ==> Eval(E([Leaf(Identifier, x, loc)], at), env).error == UndefinedVariable(at, x)
    ensures x in env ==> Eval(E([Leaf(Identifier, x, loc)], at), env) == Ok(Evaluated(env[x], env))
  {
  }

  /** A literal the lexer would produce evaluates to its base-10 value; the
      spelling of any number evaluates back to that number. */
  lemma {:induction false} LiteralValue(n: nat, loc: Loc, at: Option<Loc>, env: Env)
    ensures Eval(E([Leaf(IntegerLiteral, Decimal.Decimal(n), loc)], at), env) == Ok(Evaluated(n, env))
  {
    Decimal.DecimalRoundTrip(n);
  }

  // ---------------------------------------------------------------------
  // Division
  // ---------------------------------------------------------------------

  /** The quotient `TruncDiv` picks is the only one with a remainder smaller
      than the divisor and of the dividend's sign. */
  lemma {:induction false} TruncDivUnique(a: int, b: int, q: int)
    requires b != 0
    requires var r := a - b * q; Abs(r) < Abs(b) && (r == 0 || (r < 0 <==> a < 0))
    ensures q == TruncDiv(a, b)
  {
    var q1 := TruncDiv(a, b);
    var r, r1 := a - b * q, a - b * q1;
    var d := q - q1;
    Distribute(b, q, q1);
    assert r1 - r == b * d;
    assert -(Abs(b) as int) < r1 - r < Abs(b);
    if d != 0 {
      MulAtLeast(b, d);
    }
  }

  lemma {:induction false} Distribute(b: int, q: int, q1: int)
    ensures b * q - b * q1 == b * (q - q1)
  {
  }

  /** A non-zero multiple of `b` is at least as large as `b`. */
  lemma {:induction false} MulAtLeast(b: int, d: int)
    requires b != 0 && d != 0
    ensures Abs(b * d) >= Abs(b)
  {
    AbsMul(b, d);
    MulGrows(Abs(b), Abs(d));
  }

  lemma {:induction false} AbsMul(b: int, d: int)
    ensures Abs(b * d) == Abs(b) * Abs(d)
  {
    if b < 0 && d < 0 {
      assert b * d == (-b) * (-d);
    } else if b < 0 {
      assert b * d == -((-b) * d);
    } else if d < 0 {
      assert b * d == -(b * (-d));
    }
  }

  lemma {:induction false} MulGrows(x: nat, e: nat)
    requires e >= 1
    ensures x * e >= x
  {
    assert x * e == x * (e - 1) + x;
  }

  /** C++ division rounds toward zero where Dafny's rounds down. */
  lemma {:induction false} TruncDivNegative()
    ensures TruncDiv(-7, 2) == -3 && -7 / 2 == -4
    ensures TruncDiv(7, -2) == -3 && TruncDiv(-7, -2) == 3
  {
    TruncDivUnique(-7, 2, -3);
    TruncDivUnique(7, -2, -3);
    TruncDivUnique(-7, -2, 3);
  }

  // ---------------------------------------------------------------------
  // A stack-machine reading of prefix notation
  // ---------------------------------------------------------------------

  predicate AllLeaves(ls: seq<Node>) {
    forall k :: 0 <= k < |ls| ==> ls[k].Leaf?
  }

  /** One leaf processed on a stack whose top is its first element: an
      operand pushes its value, an operator pops its left then right operand
      and pushes the result. */
  function Push(n: Node, env: Env, st: seq<int>): Option<seq<int>>
    requires n.Leaf?
  {
    if n.kind == IntegerLiteral then Some([Decimal.Strtol(n.lexeme)] + st)
    else if n.kind == Identifier then
      if n.lexeme in env then Some([env[n.lexeme]] + st) else None
    else if IsArithmetic(n.kind) && |st| >= 2 then
      var v := Arith(n.kind, st[0], st[1]);
      if v.Err? then None else Some([v.value] + st[2..])
    else None
  }

  /** The leaves processed from the last to the first. */
  function RunBack(ls: seq<Node>, env: Env, st: seq<int>): Option<seq<int>>
    requires AllLeaves(ls)
    decreases |ls|
  {
    if ls == [] then Some(st)
    else
      match Push(ls[|ls| - 1], env, st)
      case None => None
      case Some(st') => RunBack(ls[..|ls| - 1], env, st')
  }

  /** The value a sequence of prefix-notation leaves denotes, if any. */
  function PolishValue(ls: seq<Node>, env: Env): Option<int>
    requires AllLeaves(ls)
  {
    match RunBack(ls, env, [])
    case Some(st) => if |st| == 1 then Some(st[0]) else None
    case None => None
  }

  /** Running `xs + ys` is running `ys`, then `xs` on what it leaves. */
  lemma {:induction false} RunBackAppend(xs: seq<Node>, ys: seq<Node>, env: Env, st: seq<int>)
    requires AllLeaves(xs) && AllLeaves(ys)
    ensures AllLeaves(xs + ys)
    ensures RunBack(xs + ys, env, st) ==
      match RunBack(ys, env, st)
      case None => None
      case Some(st') => RunBack(xs, env, st')
    decreases |ys|
  {
    var zs := xs + ys;
    assert AllLeaves(zs) by {
      forall k | 0 <= k < |zs| ensures zs[k].Leaf? {
        if k >= |xs| { assert zs[k] == ys[k - |xs|]; }
      }
    }
    if ys != [] {
      assert zs[|zs| - 1] == ys[|ys| - 1];
      assert zs[..|zs| - 1] == xs + ys[..|ys| - 1];
      var ys' := ys[..|ys| - 1];
      assert AllLeaves(ys') by {
        forall k | 0 <= k < |ys'| ensures ys'[k].Leaf? { assert ys'[k] == ys[k]; }
      }
      match Push(ys[|ys| - 1], env, st)
      case None =>
      case Some(st1) =>
        RunBackAppend(xs, ys', env, st1);
    } else {
      assert zs == xs;
    }
  }

  /** A single leaf is processed by one push. */
  lemma {:induction false} RunBackOne(leaf: Node, env: Env, st: seq<int>)
    requires leaf.Leaf?
    ensures RunBack([leaf], env, st) == Push(leaf, env, st)
  {
    assert [leaf][..0] == [];
  }

  /** An operator on a stack holding its operands replaces them by the
      result, or fails as the operator does. */
  lemma {:induction false} PushOperator(op: Node, env: Env, va: int, vb: int, st: seq<int>)
    requires op.Leaf? && IsArithmetic(op.kind)
    ensures Push(op, env, [va] + ([vb] + st)) ==
      if Arith(op.kind, va, vb).Ok? then Some([Arith(op.kind, va, vb).value] + st) else None
  {
    assert ([va] + ([vb] + st))[2..] == st;
  }

  /** Evaluating an expression tree pushes its value: the stack machine run
      over its leaves fails exactly where evaluation fails. */
  lemma {:induction false} RunBackLeaves(n: Node, env: Env, st: seq<int>)
    requires IsArithExpr(n)
    ensures RunBack(Leaves(n), env, st) ==
      if Eval(n, env).Ok? then Some([Eval(n, env).value.val] + st) else None
    ensures Eval(n, env).Ok? ==> Eval(n, env).value.env == env
    decreases n, 1
  {
    if |n.kids| == 1 {
      var leaf := n.kids[0];
      assert n == E([leaf], n.at);
      LeavesOfOne(leaf, n.at);
      RunBackOne(leaf, env, st);
    } else {
      RunBackOperator(n, env, st);
    }
  }

  lemma {:induction false} RunBackOperator(n: Node, env: Env, st: seq<int>)
    requires IsArithExpr(n) && |n.kids| == 3
    ensures RunBack(Leaves(n), env, st) ==
      if Eval(n, env).Ok? then Some([Eval(n, env).value.val] + st) else None
    ensures Eval(n, env).Ok? ==> Eval(n, env).value.env == env
    decreases n, 0
  {
    var op, a, b := n.kids[0], n.kids[1], n.kids[2];
    assert n == E([op, a, b], None);
    LeavesOfThree(op, a, b, None);
    var la, lb := Leaves(a), Leaves(b);
    RunBackAppend([op] + la, lb, env, st);
    RunBackLeaves(b, env, st);
    RunBackLeaves(a, env, st);
    if Eval(b, env).Ok? {
      var vb := Eval(b, env).value.val;
      RunBackAppend([op], la, env, [vb] + st);
      RunBackLeaves(a, env, [vb] + st);
      if Eval(a, env).Ok? {
        var va := Eval(a, env).value.val;
        RunBackOne(op, env, [va] + ([vb] + st));
        PushOperator(op, env, va, vb, st);
      }
    }
  }

  /** Evaluation of a parsed expression agrees with the stack-machine reading
      of its leaves, and changes no variable. */
  lemma {:induction false} EvalIsPolish(n: Node, env: Env)
    requires IsArithExpr(n)
    ensures Eval(n, env).Ok? <==> PolishValue(Leaves(n), env).Some?
    ensures Eval(n, env).Ok? ==>
      Eval(n, env).value.val == PolishValue(Leaves(n), env).value && Eval(n, env).value.env == env
  {
    RunBackLeaves(n, env, []);
  }

  // ---------------------------------------------------------------------
  // Chains of units
  // ---------------------------------------------------------------------

  /** The unit chain of the grammar `U -> E ; | E ; U` holding `es`, each
      unit closed by the leaf `semi`. */
  function MakeChain(es: seq<Node>, semi: Node): (u: Node)
    requires |es| >= 1
    ensures IsChain(u)
    decreases |es|
  {
    if |es| == 1 then U([es[0], semi], None)
    else U([es[0], semi, MakeChain(es[1..], semi)], None)
  }

  /** A chain built from expressions gives them back, in order. */
  lemma {:induction false} ChainUnits(es: seq<Node>, semi: Node)
    requires |es| >= 1
    ensures Units(MakeChain(es, semi)) == es
    decreases |es|
  {
    if |es| > 1 {
      ChainUnits(es[1..], semi);
      assert [es[0]] + es[1..] == es;
    }
  }

  /** Executing a chain of expressions is evaluating them in order, each in
      the environment the previous one left, and yields the last value. */
  lemma {:induction false} ExecChain(es: seq<Node>, semi: Node)
    requires |es| >= 1
    ensures Exec(Some(MakeChain(es, semi))).Ok? <==> EvalAll(es, map[]).Ok?
    ensures EvalAll(es, map[]).Ok? ==>
      Exec(Some(MakeChain(es, semi))) == Ok(Last(EvalAll(es, map[]).value).val)
  {
    ChainUnits(es, semi);
  }
}
