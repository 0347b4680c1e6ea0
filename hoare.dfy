/**
 * The current WP engine: a backward walk over a statement block that hands
 * each statement rule a copy of the running weakest precondition. The while
 * rule returns its verification condition inline, accepts only the
 * postcondition `sum == (n*(n+1))/2`, and estimates the variant after one
 * iteration by substituting the body's top-level assignments first to last.
 * A concrete evaluator for closed formulas has no error channel: what the
 * C code leaves undefined is excluded by `ExprDefined`/`FormulaDefined`.
 */
module Hoare {
  import opened CInt
  import opened Ast
  import opened Structure
  import opened Equality

  /** fact: -1 for negative arguments, 1 for 0 and 1, n * fact(n - 1) in `int` arithmetic otherwise. */
  function Fact(n: Int32): Int32
    decreases n
  {
    if n < 0 then -1
    else if n == 0 || n == 1 then 1
    else Wrap32(n as int * Fact(n - 1) as int)
  }

  /** On non-negative arguments `fact` is the factorial reduced to 32 bits. */
  lemma {:induction false} FactIsFactorial(n: Int32)
    requires n >= 0
    ensures Fact(n) == Wrap32(Factorial(n as int))
    decreases n
  {
    if n > 1 {
      FactIsFactorial(n - 1);
      Wrap32Mul(n as int, Factorial(n as int - 1));
    }
  }

  /** Up to 12! the 32-bit result is exact; the negative sentinel is -1. */
  lemma FactExact(n: Int32)
    ensures 0 <= n <= 12 ==> Fact(n) as int == Factorial(n as int)
    ensures n < 0 ==> Fact(n) == -1
  {
    if 0 <= n <= 12 {
      FactIsFactorial(n);
      FactorialTable(n as int);
    }
  }

  // ---------------------------------------------------------------- the walk

  /**
   * What the walk needs of a statement so that no step dereferences NULL:
   * the statement is present, the expressions it copies are clonable, and a
   * while loop has its body (its variant loop walks the body unconditionally).
   */
  predicate WellFormed(n: Node)
    decreases n, 1
  {
    match n
    case Null => false
    case Assign(_, e) => Clonable(e)
    case IfElse(c, t, e) =>
      Clonable(c) && (t.Block? ==> WellFormedStmts(t.stmts)) && (e.Block? ==> WellFormedStmts(e.stmts))
    case While(c, i, v, b) =>
      Clonable(c) && Clonable(i) && Clonable(v) && b.Block? && WellFormedStmts(b.stmts)
    case _ => true
  }

  predicate WellFormedStmts(s: seq<Node>)
    decreases s, 0
  {
    forall k :: 0 <= k < |s| ==> WellFormed(s[k])
  }

  predicate WellFormedBlock(b: Block)
  {
    b.Block? ==> WellFormedStmts(b.stmts)
  }

  /**
   * hoare_prover: NULL for a missing block or postcondition; otherwise the
   * statements are processed from the last to the first, and the first
   * failing rule aborts the walk with NULL.
   */
  function Prover(code: Block, post: Node): (wp: Node)
    requires WellFormedBlock(code) && Clonable(post)
    ensures Clonable(wp)
    ensures code.NoBlock? || post == Null ==> wp == Null
    ensures code == Block([]) && post != Null ==> wp == post
    decreases code, 3
  {
    if code.NoBlock? || post == Null then Null
    else Walk(code.stmts, |code.stmts|, post)
  }

  /** The loop of hoare_prover with statements `stmts[..i]` still to visit, last first. */
  function Walk(stmts: seq<Node>, i: nat, wp: Node): (r: Node)
    requires i <= |stmts| && WellFormedStmts(stmts) && Clonable(wp)
    ensures Clonable(r)
    decreases stmts, 2, i
  {
    if i == 0 then wp
    else
      var next := Statement(stmts[i - 1], Clone(wp));
      if next == Null then Null else Walk(stmts, i - 1, next)
  }

  /** hoare_statement: dispatch on the tag; any tag other than assignment, if/else and while fails. */
  function Statement(n: Node, post: Node): (r: Node)
    requires WellFormed(n) && Clonable(post)
    ensures Clonable(r)
    ensures !(n.Assign? || n.IfElse? || n.While?) ==> r == Null
    decreases n, 1
  {
    match n
    case Assign(_, _) => AssignmentRule(n, post)
    case IfElse(_, _, _) => IfElseRule(n, post)
    case While(_, _, _, _) => WhileRule(n, post)
    case _ => Null
  }

  /** hoare_AssignmentRule: wp(x := E, Q) is Q with x replaced by E. */
  function AssignmentRule(n: Node, post: Node): (r: Node)
    requires n.Assign? && Clonable(n.expr) && Clonable(post)
    ensures Clonable(r)
    ensures !Occurs(n.expr, n.id) ==> !Occurs(r, n.id)
  {
    SubstituteEliminatesWhenFresh(post, n.id, n.expr);
    Substitute(post, n.id, n.expr)
  }

  lemma SubstituteEliminatesWhenFresh(post: Node, x: string, e: Node)
    requires Clonable(post) && Clonable(e)
    ensures !Occurs(e, x) ==> !Occurs(Substitute(post, x, e), x)
  {
    if !Occurs(e, x) {
      SubstituteEliminates(post, x, e);
    }
  }

  /** The if/else rule yields NULL exactly for a wrong tag or a missing condition or block. */
  predicate IfElseComplete(n: Node)
  {
    n.IfElse? && n.condition != Null && n.thenBlock.Block? && n.elseBlock.Block?
  }

  /** hoare_IfElseRule: (B -> wp(C1, Q)) and (not B -> wp(C2, Q)). */
  function IfElseRule(n: Node, post: Node): (r: Node)
    requires (n.IfElse? ==> WellFormed(n)) && Clonable(post)
    ensures Clonable(r)
    ensures r != Null <==> IfElseComplete(n)
    decreases n, 0
  {
    if !n.IfElse? then Null
    else if n.condition == Null || n.thenBlock.NoBlock? || n.elseBlock.NoBlock? then Null
    else
      var wpIf := Prover(n.thenBlock, Clone(post));
      var wpElse := Prover(n.elseBlock, Clone(post));
      var left := CreateNodeBinary("->", n.condition, wpIf);
      var notB := CreateNodeUnary("not", n.condition);
      var right := CreateNodeBinary("->", notB, wpElse);
      CreateNodeBinary("and", left, right)
  }

  /** The only postcondition the while rule accepts: sum == (n*(n+1))/2. */
  function ExpectedPost(): (r: Node)
    ensures BlockFree(r) && Clonable(r) && BoolFree(r)
    ensures Occurs(r, "n") && Occurs(r, "sum")
  {
    var nId := CreateNodeId("n");
    var sumId := CreateNodeId("sum");
    var nPlus1 := CreateNodeBinary("+", Clone(nId), CreateNodeNumber(1));
    var nTimes := CreateNodeBinary("*", Clone(nId), nPlus1);
    var rhs := CreateNodeBinary("/", nTimes, CreateNodeNumber(2));
    CreateNodeBinary("==", Clone(sumId), rhs)
  }

  /** Every statement is present, and every assignment among them has a clonable expression. */
  predicate AssignsClonable(s: seq<Node>)
  {
    forall k :: 0 <= k < |s| ==> s[k] != Null && (s[k].Assign? ==> Clonable(s[k].expr))
  }

  lemma WellFormedAssigns(s: seq<Node>)
    requires WellFormedStmts(s)
    ensures AssignsClonable(s)
  {
    forall k | 0 <= k < |s|
      ensures s[k] != Null && (s[k].Assign? ==> Clonable(s[k].expr))
    {
      assert WellFormed(s[k]);
    }
  }

  /** One step of the variant loop: an assignment is substituted into the variant, anything else is skipped. */
  function VariantStep(s: Node, v: Node): (r: Node)
    requires s != Null && (s.Assign? ==> Clonable(s.expr)) && Clonable(v)
    ensures Clonable(r)
    ensures !s.Assign? ==> r == v
  {
    if s.Assign? then Substitute(v, s.id, s.expr) else v
  }

  /** The variant after one iteration: top-level assignments substituted from the first to the last. */
  function VariantAfter(s: seq<Node>, v: Node): (r: Node)
    requires AssignsClonable(s) && Clonable(v)
    ensures Clonable(r)
  {
    if s == [] then v
    else VariantAfter(s[1..], VariantStep(s[0], v))
  }

  /**
   * hoare_WhileRule. The postcondition must match `ExpectedPost()` under
   * ast_equal, else NULL. Otherwise the result is
   * ((I and B -> wp(C, I)) and ((I and not B) -> Q)) and (I and B -> (V' < V and V >= 0)).
   */
  function WhileRule(n: Node, post: Node): (r: Node)
    requires n.While? && WellFormed(n) && Clonable(post)
    ensures Clonable(r)
    ensures r != Null <==> AstEqual(ExpectedPost(), post)
    decreases n, 0
  {
    var c, i, v, b := n.condition, n.inv, n.variant, n.body;
    var iAndB := CreateNodeBinary("and", Clone(i), Clone(c));
    var wpBody := Prover(b, Clone(i));
    var notB := CreateNodeUnary("not", Clone(c));
    var iAndExit := CreateNodeBinary("and", Clone(i), notB);
    if !AstEqual(ExpectedPost(), post) then Null
    else
      var postCheck := CreateNodeBinary("->", iAndExit, Clone(post));
      var left := CreateNodeBinary("->", iAndB, wpBody);
      var partial := CreateNodeBinary("and", left, postCheck);
      WellFormedAssigns(b.stmts);
      var variantAfter := VariantAfter(b.stmts, Clone(v));
      var decreasing := CreateNodeBinary("<", variantAfter, Clone(v));
      var nonNegative := CreateNodeBinary(">=", Clone(v), CreateNodeNumber(0));
      var decrease := CreateNodeBinary("and", decreasing, nonNegative);
      var termination := CreateNodeBinary("->", iAndB, decrease);
      assert Clonable(i) && Clonable(c) && Clonable(v) && Clonable(post);
      assert Clonable(iAndB) && Clonable(iAndExit) && Clonable(left) && Clonable(postCheck);
      assert Clonable(decreasing) && Clonable(nonNegative);
      CreateNodeBinary("and", partial, termination)
  }

  // ------------------------------------------------------- imperative parts

  /**
   * hoare_prover over a parsed block: starts at `last`, follows `prec`, and
   * hands each statement a fresh copy of the running precondition.
   */
  method HoareProver(code: Dll?, pre: Node, post: Node) returns (wp: Node)
    requires code != null ==> code.Valid() && WellFormedStmts(code.Contents)
    requires Clonable(post)
    ensures code == null ==> wp == Null
    ensures code != null ==> wp == Prover(Block(code.Contents), post)
  {
    if code == null || post == Null {
      return Null;
    }
    var current := code.last;
    wp := post;
    ghost var i := |code.cells|;
    while current != null
      invariant 0 <= i <= |code.cells|
      invariant current == (if i == 0 then null else code.cells[i - 1])
      invariant Clonable(wp) && wp != Null
      invariant Walk(code.Contents, i, wp) == Walk(code.Contents, |code.Contents|, post)
      decreases i
    {
      var wpClone := Clone(wp);
      var newWp := Statement(current.node, wpClone);
      if newWp == Null {
        return Null;
      }
      wp := newWp;
      current := current.prec;
      i := i - 1;
    }
  }

  /** The variant loop of hoare_WhileRule, visiting the body's statements first to last. */
  method ComputeVariantAfter(body: seq<Node>, variant: Node) returns (variantAfter: Node)
    requires AssignsClonable(body) && Clonable(variant)
    ensures variantAfter == VariantAfter(body, Clone(variant))
  {
    variantAfter := Clone(variant);
    var k := 0;
    while k < |body|
      invariant 0 <= k <= |body|
      invariant Clonable(variantAfter)
      invariant VariantAfter(body[k..], variantAfter) == VariantAfter(body, Clone(variant))
    {
      var cur := body[k];
      assert body[k..][1..] == body[k + 1..];
      if cur.Assign? {
        variantAfter := Substitute(variantAfter, cur.id, cur.expr);
      }
      k := k + 1;
    }
  }

  // ---------------------------------------------------------------- lemmas

  /** The walk over `stmts[..i]` depends on nothing beyond that prefix. */
  lemma {:induction false} WalkPrefix(s: seq<Node>, t: seq<Node>, i: nat, wp: Node)
    requires i <= |s| && i <= |t| && s[..i] == t[..i]
    requires WellFormedStmts(s) && WellFormedStmts(t) && Clonable(wp)
    ensures Walk(s, i, wp) == Walk(t, i, wp)
    decreases i
  {
    if i > 0 {
      assert s[i - 1] == s[..i][i - 1] == t[..i][i - 1] == t[i - 1];
      var next := Statement(s[i - 1], Clone(wp));
      if next != Null {
        assert s[..i - 1] == s[..i][..i - 1];
        assert t[..i - 1] == t[..i][..i - 1];
        WalkPrefix(s, t, i - 1, next);
      }
    }
  }

  lemma {:induction false} WalkAppend(s1: seq<Node>, s2: seq<Node>, j: nat, wp: Node)
    requires j <= |s2| && WellFormedStmts(s1) && WellFormedStmts(s2) && Clonable(wp) && wp != Null
    ensures WellFormedStmts(s1 + s2)
    ensures Walk(s1 + s2, |s1| + j, wp)
         == (var w := Walk(s2, j, wp); if w == Null then Null else Walk(s1, |s1|, w))
    decreases j
  {
    var s := s1 + s2;
    assert forall k :: 0 <= k < |s| ==> s[k] == if k < |s1| then s1[k] else s2[k - |s1|];
    if j == 0 {
      assert s[..|s1|] == s1[..|s1|];
      WalkPrefix(s, s1, |s1|, wp);
    } else {
      assert s[|s1| + j - 1] == s2[j - 1];
      var next := Statement(s2[j - 1], Clone(wp));
      if next != Null {
        WalkAppend(s1, s2, j - 1, next);
      }
    }
  }

  /**
   * Sequential composition: the precondition of `s1; s2` is that of `s1`
   * for the precondition of `s2`, and a failure in `s2` fails the whole.
   */
  lemma ProverSequence(s1: seq<Node>, s2: seq<Node>, q: Node)
    requires WellFormedStmts(s1) && WellFormedStmts(s2) && Clonable(q) && q != Null
    ensures WellFormedStmts(s1 + s2)
    ensures Prover(Block(s1 + s2), q)
         == (var w := Prover(Block(s2), q); if w == Null then Null else Prover(Block(s1), w))
  {
    WalkAppend(s1, s2, |s2|, q);
  }

  /** Assigning a variable to itself does not change a Bool-free postcondition. */
  lemma SelfAssignmentIsSkip(x: string, q: Node)
    requires Clonable(q) && BoolFree(q) && q != Null
    ensures Prover(Block([Assign(x, Identifier(x))]), q) == q
  {
    var s := [Assign(x, Identifier(x))];
    SubstituteSelf(q, x);
    assert Statement(s[0], Clone(q)) == q;
    assert Walk(s, 1, q) == Walk(s, 0, q);
  }

  /** An assignment to a variable the postcondition does not mention leaves a Bool-free postcondition unchanged. */
  lemma UnusedAssignmentIsSkip(x: string, e: Node, q: Node)
    requires Clonable(e) && Clonable(q) && BoolFree(q) && q != Null && !Occurs(q, x)
    ensures Prover(Block([Assign(x, e)]), q) == q
  {
    var s := [Assign(x, e)];
    SubstituteNotOccurring(q, x, e);
    assert Statement(s[0], Clone(q)) == q;
    assert Walk(s, 1, q) == Walk(s, 0, q);
  }

  /** Since the expected postcondition holds no block, the while rule accepts exactly that tree. */
  lemma WhileRuleAccepts(n: Node, post: Node)
    requires n.While? && WellFormed(n) && Clonable(post)
    ensures WhileRule(n, post) != Null <==> post == ExpectedPost()
  {
    AstEqualExact(ExpectedPost(), post);
  }

  /**
   * The total-correctness condition over its parts, written with plain
   * constructors: ((I and B -> W) and ((I and not B) -> Q)) and
   * (I and B -> (V' < V and V >= 0)).
   */
  function WhileVc(i: Node, b: Node, w: Node, q: Node, v: Node, vAfter: Node): Node
  {
    var iAndB := BinaryOp("and", i, b);
    BinaryOp("and",
      BinaryOp("and", BinaryOp("->", iAndB, w), BinaryOp("->", BinaryOp("and", i, UnaryOp("not", b)), q)),
      BinaryOp("->", iAndB, BinaryOp("and", BinaryOp("<", vAfter, v), BinaryOp(">=", v, Number(0)))))
  }

  /**
   * An accepted loop yields that condition, with the body's WP against the
   * invariant as W and the variant after one pass of the variant loop as V'.
   */
  lemma WhileRuleShape(n: Node, post: Node)
    requires n.While? && WellFormed(n) && Clonable(post) && AstEqual(ExpectedPost(), post)
    requires AssignsClonable(n.body.stmts)
    ensures WhileRule(n, post) ==
      WhileVc(n.inv, n.condition, Prover(n.body, n.inv), post, n.variant, VariantAfter(n.body.stmts, n.variant))
  {
  }

  /** The variant loop is a left fold: running it over `s1 + s2` runs it over `s1`, then over `s2`. */
  lemma {:induction false} VariantAfterAppend(s1: seq<Node>, s2: seq<Node>, v: Node)
    requires AssignsClonable(s1) && AssignsClonable(s2) && Clonable(v)
    ensures AssignsClonable(s1 + s2)
    ensures VariantAfter(s1 + s2, v) == VariantAfter(s2, VariantAfter(s1, v))
    decreases |s1|
  {
    var s := s1 + s2;
    assert forall k :: 0 <= k < |s| ==> s[k] == if k < |s1| then s1[k] else s2[k - |s1|];
    if s1 != [] {
      assert s[1..] == s1[1..] + s2;
      VariantAfterAppend(s1[1..], s2, VariantStep(s1[0], v));
    } else {
      assert s == s2;
    }
  }

  /** Nested if/else and while statements are skipped: a body without top-level assignments leaves the variant as is. */
  lemma {:induction false} VariantAfterNoAssign(s: seq<Node>, v: Node)
    requires AssignsClonable(s) && Clonable(v)
    requires forall k :: 0 <= k < |s| ==> !s[k].Assign?
    ensures VariantAfter(s, v) == v
    decreases |s|
  {
    if s != [] {
      VariantAfterNoAssign(s[1..], v);
    }
  }

  /**
   * The variant loop runs forwards, while the WP walk runs backwards: for a
   * body of two assignments the variant after is V[x1 := e1][x2 := e2].
   */
  lemma VariantAfterTwoAssignments(x1: string, e1: Node, x2: string, e2: Node, v: Node)
    requires Clonable(e1) && Clonable(e2) && Clonable(v)
    ensures AssignsClonable([Assign(x1, e1), Assign(x2, e2)])
    ensures VariantAfter([Assign(x1, e1), Assign(x2, e2)], v)
         == Substitute(Substitute(v, x1, e1), x2, e2)
  {
    var s := [Assign(x1, e1), Assign(x2, e2)];
    var v1 := Substitute(v, x1, e1);
    var t := [Assign(x2, e2)];
    assert s[1..] == t && t[1..] == [];
    assert VariantAfter(s, v) == VariantAfter(t, v1);
    assert VariantAfter(t, v1) == VariantAfter([], Substitute(v1, x2, e2));
  }

  // ------------------------------------------------------------- evaluator

  predicate IsAndOp(op: string) { op == "AND" || op == "and" }
  predicate IsOrOp(op: string) { op == "OR" || op == "or" }
  predicate IsNotOp(op: string) { op == "NOT" || op == "not" }

  /**
   * evaluate_expr is defined on numbers, the four arithmetic operators with a
   * non-zero divisor, and min, max and fact; everything else (a NULL operand,
   * an identifier, an unknown operator or function name) is undefined in the C code.
   */
  predicate ExprDefined(n: Node)
    decreases n, 0
  {
    match n
    case Number(_) => true
    case BinaryOp(op, l, r) =>
      ExprDefined(l) && ExprDefined(r) && op in {"+", "-", "*", "/"} && (op == "/" ==> EvalExpr(r) != 0)
    case Function(f, a1, a2) =>
      ExprDefined(a1) && (a2 != Null ==> ExprDefined(a2)) && f in {"min", "max", "fact"}
    case _ => false
  }

  /** evaluate_expr: `int` arithmetic, a missing second argument of min/max reads as -1. */
  function EvalExpr(n: Node): (r: Int32)
    requires ExprDefined(n)
    ensures n.Number? ==> r == n.number
    ensures n.Function? && n.fname == "min" && n.arg2 != Null ==>
      r <= EvalExpr(n.arg1) && r <= EvalExpr(n.arg2) && (r == EvalExpr(n.arg1) || r == EvalExpr(n.arg2))
    ensures n.Function? && n.fname == "max" && n.arg2 != Null ==>
      r >= EvalExpr(n.arg1) && r >= EvalExpr(n.arg2) && (r == EvalExpr(n.arg1) || r == EvalExpr(n.arg2))
    decreases n, 1
  {
    match n
    case Number(k) => k
    case BinaryOp(op, l, r) =>
      Arith(op, EvalExpr(l), EvalExpr(r))
    case Function(f, a1, a2) =>
      var x := EvalExpr(a1);
      var y := if a2 != Null then EvalExpr(a2) else -1;
      if f == "min" then (if x < y then x else y)
      else if f == "max" then (if x < y then y else x)
      else Fact(x)
  }

  /**
   * What evaluate_formula needs: `and`/`or` evaluate their right side only when
   * the left does not decide, `->` evaluates both sides, a comparison
   * evaluates both operands as expressions even when the operator is unknown.
   */
  predicate FormulaDefined(n: Node)
    decreases n, 0
  {
    match n
    case BinaryOp(op, l, r) =>
      if IsAndOp(op) then FormulaDefined(l) && (EvalFormula(l) ==> FormulaDefined(r))
      else if IsOrOp(op) then FormulaDefined(l) && (!EvalFormula(l) ==> FormulaDefined(r))
      else if op == "->" then FormulaDefined(l) && FormulaDefined(r)
      else ExprDefined(l) && ExprDefined(r)
    case UnaryOp(op, c) => IsNotOp(op) ==> FormulaDefined(c)
    case _ => true
  }

  /**
   * evaluate_formula: NULL and every node that is neither an operator nor a
   * negation (literals included) evaluate to false, as does an unknown operator.
   */
  function EvalFormula(n: Node): (r: bool)
    requires FormulaDefined(n)
    ensures n.BinaryOp? && n.op == "->" ==> (r <==> (EvalFormula(n.left) ==> EvalFormula(n.right)))
    ensures n.BinaryOp? && IsAndOp(n.op) ==> (r <==> EvalFormula(n.left) && EvalFormula(n.right))
    ensures n.BinaryOp? && IsOrOp(n.op) ==> (r <==> EvalFormula(n.left) || EvalFormula(n.right))
    ensures (n.BinaryOp? && !IsAndOp(n.op) && !IsOrOp(n.op) && n.op != "->" &&
             n.op !in {"==", "!=", "<", ">", "<=", ">="}) ==> !r
    ensures n.UnaryOp? && IsNotOp(n.op) ==> (r <==> !EvalFormula(n.child))
    ensures n.UnaryOp? && !IsNotOp(n.op) ==> !r
    ensures !n.BinaryOp? && !n.UnaryOp? ==> !r
    decreases n, 1
  {
    match n
    case BinaryOp(op, l, r) =>
      if IsAndOp(op) then EvalFormula(l) && EvalFormula(r)
      else if IsOrOp(op) then EvalFormula(l) || EvalFormula(r)
      else if op == "->" then
        var a := EvalFormula(l);
        var b := EvalFormula(r);
        !a || b
      else
        var a, b := EvalExpr(l), EvalExpr(r);
        if op == "==" then a == b
        else if op == "!=" then a != b
        else if op == "<" then a < b
        else if op == ">" then a > b
        else if op == ">=" then a >= b
        else if op == "<=" then a <= b
        else false
    case UnaryOp(op, c) => if IsNotOp(op) then !EvalFormula(c) else false
    case _ => false
  }

  /**
   * The formula built by the if/else rule holds exactly when the branch the
   * condition selects has a true precondition.
   */
  lemma EvalIfElseRule(n: Node, post: Node)
    requires IfElseComplete(n) && WellFormed(n) && Clonable(post)
    requires var wpIf := Prover(n.thenBlock, post); var wpElse := Prover(n.elseBlock, post);
      FormulaDefined(n.condition) && FormulaDefined(wpIf) && FormulaDefined(wpElse)
    ensures var r := IfElseRule(n, post);
      FormulaDefined(r) &&
      (EvalFormula(r) <==> if EvalFormula(n.condition) then EvalFormula(Prover(n.thenBlock, post))
                                                       else EvalFormula(Prover(n.elseBlock, post)))
  {
    var r := IfElseRule(n, post);
    assert r.left.left == n.condition && r.right.left.child == n.condition;
  }

  /**
   * The while condition holds exactly when the invariant and the guard give
   * the body's WP, the invariant and the negated guard give the
   * postcondition, and the variant is non-negative and drops in one pass,
   * for closed parts. The condition a real loop yields names program
   * variables, so it is closed only once they are replaced by numbers.
   */
  lemma EvalWhileVc(i: Node, b: Node, w: Node, q: Node, v: Node, vAfter: Node)
    requires FormulaDefined(i) && FormulaDefined(b) && FormulaDefined(w) && FormulaDefined(q)
    requires ExprDefined(v) && ExprDefined(vAfter)
    ensures var r := WhileVc(i, b, w, q, v, vAfter);
      var inv, guard := EvalFormula(i), EvalFormula(b);
      FormulaDefined(r) &&
      (EvalFormula(r) <==>
        (inv && guard ==> EvalFormula(w)) && (inv && !guard ==> EvalFormula(q)) &&
        (inv && guard ==> EvalExpr(vAfter) < EvalExpr(v) && EvalExpr(v) >= 0))
  {
    var iAndB := BinaryOp("and", i, b);
    PartialMeaning(i, b, w, q);
    TerminationMeaning(i, b, v, vAfter);
    AndMeaning(BinaryOp("and", BinaryOp("->", iAndB, w), BinaryOp("->", BinaryOp("and", i, UnaryOp("not", b)), q)),
               BinaryOp("->", iAndB, BinaryOp("and", BinaryOp("<", vAfter, v), BinaryOp(">=", v, Number(0)))));
  }

  lemma AndMeaning(l: Node, r: Node)
    requires FormulaDefined(l) && FormulaDefined(r)
    ensures FormulaDefined(BinaryOp("and", l, r))
    ensures EvalFormula(BinaryOp("and", l, r)) <==> EvalFormula(l) && EvalFormula(r)
  {
  }

  lemma ImpliesMeaning(l: Node, r: Node)
    requires FormulaDefined(l) && FormulaDefined(r)
    ensures FormulaDefined(BinaryOp("->", l, r))
    ensures EvalFormula(BinaryOp("->", l, r)) <==> (EvalFormula(l) ==> EvalFormula(r))
  {
  }

  /** The partial-correctness half of `WhileVc`. */
  lemma PartialMeaning(i: Node, b: Node, w: Node, q: Node)
    requires FormulaDefined(i) && FormulaDefined(b) && FormulaDefined(w) && FormulaDefined(q)
    ensures var p := BinaryOp("and", BinaryOp("->", BinaryOp("and", i, b), w),
                                     BinaryOp("->", BinaryOp("and", i, UnaryOp("not", b)), q));
      FormulaDefined(p) &&
      (EvalFormula(p) <==> (EvalFormula(i) && EvalFormula(b) ==> EvalFormula(w)) &&
                           (EvalFormula(i) && !EvalFormula(b) ==> EvalFormula(q)))
  {
    var iAndB, notB := BinaryOp("and", i, b), UnaryOp("not", b);
    var iAndExit := BinaryOp("and", i, notB);
    AndMeaning(i, b);
    assert FormulaDefined(notB);
    AndMeaning(i, notB);
    ImpliesMeaning(iAndB, w);
    ImpliesMeaning(iAndExit, q);
    AndMeaning(BinaryOp("->", iAndB, w), BinaryOp("->", iAndExit, q));
  }

  /** The termination half of `WhileVc`. */
  lemma TerminationMeaning(i: Node, b: Node, v: Node, vAfter: Node)
    requires FormulaDefined(i) && FormulaDefined(b) && ExprDefined(v) && ExprDefined(vAfter)
    ensures var t := BinaryOp("->", BinaryOp("and", i, b),
                                    BinaryOp("and", BinaryOp("<", vAfter, v), BinaryOp(">=", v, Number(0))));
      FormulaDefined(t) &&
      (EvalFormula(t) <==> (EvalFormula(i) && EvalFormula(b) ==> EvalExpr(vAfter) < EvalExpr(v) && EvalExpr(v) >= 0))
  {
    var less, nonNegative := BinaryOp("<", vAfter, v), BinaryOp(">=", v, Number(0));
    assert ExprDefined(Number(0));
    assert FormulaDefined(less) && (EvalFormula(less) <==> EvalExpr(vAfter) < EvalExpr(v));
    assert FormulaDefined(nonNegative) && (EvalFormula(nonNegative) <==> EvalExpr(v) >= 0);
    AndMeaning(i, b);
    AndMeaning(less, nonNegative);
    ImpliesMeaning(BinaryOp("and", i, b), BinaryOp("and", less, nonNegative));
  }
}
