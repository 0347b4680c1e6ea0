/**
 * The first WP engine. It shares the tree operations with the current one but
 * keeps two pieces of process-wide state: the list of verification
 * conditions (VCs) that while loops append to and every assignment rewrites,
 * and the evaluator's error flag. Here both are fields of a `Verifier`; the
 * spec functions thread them explicitly, and each method is proved to do
 * what its spec function says.
 */
module HoareOld {
  import opened CInt
  import opened Ast
  import opened Structure
  import Hoare

  /** fact: 0 for negative arguments, 1 for 0 and 1, n * fact(n - 1) in `int` arithmetic otherwise. */
  function Fact(n: Int32): Int32
    decreases n
  {
    if n < 0 then 0
    else if n == 0 || n == 1 then 1
    else Wrap32(n as int * Fact(n - 1) as int)
  }

  /** Both revisions of `fact` agree except on negative arguments, where this one answers 0. */
  lemma {:induction false} FactRevisions(n: Int32)
    ensures n >= 0 ==> Fact(n) == Hoare.Fact(n)
    ensures n < 0 ==> Fact(n) == 0 && Hoare.Fact(n) == -1
    decreases n
  {
    if n > 1 {
      FactRevisions(n - 1);
    }
  }

  // ------------------------------------------------------------ the VC list

  /** The state a statement rule leaves behind: its precondition and the VC list. */
  datatype Step = Step(wp: Node, vcList: Block)

  /** Every VC in the list can be copied and rewritten. */
  predicate VcsOk(l: Block)
  {
    l.Block? ==> AllClonable(l.stmts)
  }

  /**
   * What the walk needs of a statement so that no step dereferences NULL.
   * Unlike the current revision, a while loop without a body is reported,
   * not dereferenced.
   */
  predicate WellFormed(n: Node)
    decreases n, 1
  {
    match n
    case Null => false
    case Assign(_, e) => Clonable(e)
    case IfElse(c, t, e) =>
      Clonable(c) && (t.Block? ==> WellFormedStmts(t.stmts)) && (e.Block? ==> WellFormedStmts(e.stmts))
    case While(c, i, v, b) =>
      Clonable(c) && Clonable(i) && Clonable(v) && (b.Block? ==> WellFormedStmts(b.stmts))
    case _ => true
  }

  predicate WellFormedStmts(s: seq<Node>)
    decreases s, 0
  {
    forall k :: 0 <= k < |s| ==> WellFormed(s[k])
  }

  predicate WellFormedBlock(b: Block)
  {
    b.Block? ==> WellFormedStmts(b.stmts)
  }

  /** `w` conjoined, left-nested, with each VC in list order: ((w and vc1) and vc2) ... */
  function Conjoin(w: Node, vcs: seq<Node>): (r: Node)
    requires Clonable(w) && AllClonable(vcs)
    ensures Clonable(r)
    ensures vcs != [] ==> r.BinaryOp? && r.op == "and"
    decreases |vcs|
  {
    if vcs == [] then w
    else CreateNodeBinary("and", Conjoin(w, vcs[..|vcs| - 1]), vcs[|vcs| - 1])
  }

  /** Peels up to `k` conjunctions off the left spine of `f`: the leftmost operand and the right operands in order. */
  function Conjuncts(f: Node, k: nat): (r: (Node, seq<Node>))
    ensures |r.1| <= k
  {
    if k == 0 || !(f.BinaryOp? && f.op == "and") then (f, [])
    else
      var inner := Conjuncts(f.left, k - 1);
      (inner.0, inner.1 + [f.right])
  }

  /** The combined formula can be taken apart again into the precondition and the VCs, in list order. */
  lemma {:induction false} ConjunctsConjoin(w: Node, vcs: seq<Node>)
    requires Clonable(w) && AllClonable(vcs)
    ensures Conjuncts(Conjoin(w, vcs), |vcs|) == (w, vcs)
    decreases |vcs|
  {
    if vcs != [] {
      var init, last := vcs[..|vcs| - 1], vcs[|vcs| - 1];
      var f := Conjoin(w, vcs);
      assert f == BinaryOp("and", Conjoin(w, init), last);
      ConjunctsConjoin(w, init);
      assert Conjuncts(f, |vcs|) == (w, init + [last]);
      assert init + [last] == vcs;
    }
  }

  /** substitute_vc_list on one entry: NULL entries are skipped. */
  function SubstVc(vc: Node, x: string, e: Node): (r: Node)
    requires Clonable(vc) && Clonable(e)
    ensures Clonable(r)
    ensures vc == Null ==> r == Null
  {
    if vc == Null then Null else Substitute(vc, x, e)
  }

  function SubstVcs(vcs: seq<Node>, x: string, e: Node): (r: seq<Node>)
    requires AllClonable(vcs) && Clonable(e)
    ensures |r| == |vcs| && AllClonable(r)
    ensures forall k :: 0 <= k < |vcs| ==> r[k] == SubstVc(vcs[k], x, e)
  {
    if vcs == [] then [] else [SubstVc(vcs[0], x, e)] + SubstVcs(vcs[1..], x, e)
  }

  /** substitute_vc_list: nothing happens without a list; otherwise every entry is rewritten, length and order kept. */
  function SubstVcList(l: Block, x: string, e: Node): (r: Block)
    requires VcsOk(l) && Clonable(e)
    ensures VcsOk(r)
    ensures l.NoBlock? ==> r == l
    ensures l.Block? ==> r.Block? && |r.stmts| == |l.stmts|
  {
    if l.NoBlock? then l else Block(SubstVcs(l.stmts, x, e))
  }

  /**
   * hoare_prover: NULL for a missing block or postcondition (the list is then
   * untouched). Otherwise the list is created if absent, the statements are
   * walked from the last to the first starting from a copy of `post`, and on
   * success the result is conjoined with every VC now in the list.
   */
  function ProverSpec(code: Block, post: Node, l: Block): (r: Step)
    requires WellFormedBlock(code) && Clonable(post) && VcsOk(l)
    ensures Clonable(r.wp) && VcsOk(r.vcList)
    ensures code.NoBlock? || post == Null ==> r == Step(Null, l)
    ensures code.Block? && post != Null ==> r.vcList.Block?
    ensures l.Block? ==> r.vcList.Block? && |r.vcList.stmts| >= |l.stmts|
    decreases code, 3
  {
    if code.NoBlock? || post == Null then Step(Null, l)
    else
      var list := if l.NoBlock? then Block([]) else l;
      var w := WalkSpec(code.stmts, |code.stmts|, Clone(post), list);
      if w.wp == Null then w
      else Step(Conjoin(w.wp, w.vcList.stmts), w.vcList)
  }

  /** The loop of hoare_prover with `stmts[..i]` still to visit; the running precondition is passed on without a copy. */
  function WalkSpec(stmts: seq<Node>, i: nat, wp: Node, l: Block): (r: Step)
    requires i <= |stmts| && WellFormedStmts(stmts) && Clonable(wp) && l.Block? && VcsOk(l)
    ensures Clonable(r.wp) && VcsOk(r.vcList) && r.vcList.Block? && |r.vcList.stmts| >= |l.stmts|
    decreases stmts, 2, i
  {
    if i == 0 then Step(wp, l)
    else
      var r := StatementSpec(stmts[i - 1], wp, l);
      if r.wp == Null then r else WalkSpec(stmts, i - 1, r.wp, r.vcList)
  }

  /** hoare_statement: dispatch on the tag; any other tag fails and leaves the list alone. */
  function StatementSpec(n: Node, post: Node, l: Block): (r: Step)
    requires WellFormed(n) && Clonable(post) && l.Block? && VcsOk(l)
    ensures Clonable(r.wp) && VcsOk(r.vcList) && r.vcList.Block? && |r.vcList.stmts| >= |l.stmts|
    ensures !(n.Assign? || n.IfElse? || n.While?) ==> r == Step(Null, l)
    decreases n, 1
  {
    match n
    case Assign(_, _) => AssignSpec(n, post, l)
    case IfElse(_, _, _) => IfElseSpec(n, post, l)
    case While(_, _, _, _) => WhileSpec(n, post, l)
    case _ => Step(Null, l)
  }

  /** hoare_AssignmentRule: post[x := E], and the same substitution applied to every collected VC. */
  function AssignSpec(n: Node, post: Node, l: Block): (r: Step)
    requires n.Assign? && Clonable(n.expr) && Clonable(post) && l.Block? && VcsOk(l)
    ensures Clonable(r.wp) && VcsOk(r.vcList) && r.vcList.Block? && |r.vcList.stmts| == |l.stmts|
  {
    Step(Substitute(post, n.id, n.expr), SubstVcList(l, n.id, n.expr))
  }

  /** hoare_IfElseRule: (B -> wp(C1, Q)) and (not B -> wp(C2, Q)); both nested walks see and extend the shared list. */
  function IfElseSpec(n: Node, post: Node, l: Block): (r: Step)
    requires (n.IfElse? ==> WellFormed(n)) && Clonable(post) && l.Block? && VcsOk(l)
    ensures Clonable(r.wp) && VcsOk(r.vcList) && r.vcList.Block? && |r.vcList.stmts| >= |l.stmts|
    ensures r.wp != Null <==> Hoare.IfElseComplete(n)
    ensures !Hoare.IfElseComplete(n) ==> r.vcList == l
    decreases n, 0
  {
    if !n.IfElse? || n.condition == Null || n.thenBlock.NoBlock? || n.elseBlock.NoBlock? then Step(Null, l)
    else
      var r1 := ProverSpec(n.thenBlock, Clone(post), l);
      var r2 := ProverSpec(n.elseBlock, Clone(post), r1.vcList);
      var left := CreateNodeBinary("->", n.condition, r1.wp);
      var notB := CreateNodeUnary("not", n.condition);
      var right := CreateNodeBinary("->", notB, r2.wp);
      Step(CreateNodeBinary("and", left, right), r2.vcList)
  }

  /** The while rule fails exactly when the postcondition or a part of the loop is missing. */
  predicate WhileComplete(n: Node, post: Node)
  {
    n.While? && post != Null && n.condition != Null && n.inv != Null && n.variant != Null && n.body.Block?
  }

  /**
   * hoare_WhileRule: appends (I and B) -> wp(C, I), (I and not B) -> Q,
   * (I and B) -> V >= 0 and (I and B) -> wp(C, V) < V, in that order, and
   * returns a copy of I. The body is walked twice, once for I and once for V.
   */
  function WhileSpec(n: Node, post: Node, l: Block): (r: Step)
    requires n.While? && WellFormed(n) && Clonable(post) && l.Block? && VcsOk(l)
    ensures Clonable(r.wp) && VcsOk(r.vcList) && r.vcList.Block?
    ensures WhileComplete(n, post) ==> r.wp == n.inv && |r.vcList.stmts| >= |l.stmts| + 4
    ensures !WhileComplete(n, post) ==> r == Step(Null, l)
    decreases n, 0
  {
    var c, i, v, b := n.condition, n.inv, n.variant, n.body;
    if post == Null || c == Null || i == Null || v == Null || b.NoBlock? then Step(Null, l)
    else
      var r1 := ProverSpec(b, Clone(i), l);
      var r2 := ProverSpec(b, Clone(v), r1.vcList);
      Step(Clone(i), Block(r2.vcList.stmts + WhileVcs(n, post, r1.wp, r2.wp)))
  }

  /**
   * The four VCs of the while rule, in the order they are appended, given
   * the body's preconditions for the invariant and for the variant.
   */
  function WhileVcs(n: Node, post: Node, wpBody: Node, wpVariant: Node): (r: seq<Node>)
    requires n.While? && Clonable(n.condition) && Clonable(n.inv) && Clonable(n.variant) && Clonable(post)
    requires Clonable(wpBody) && Clonable(wpVariant)
    ensures |r| == 4 && AllClonable(r)
  {
    var c, i, v := n.condition, n.inv, n.variant;
    var iAndB := CreateNodeBinary("and", Clone(i), Clone(c));
    var preservation := CreateNodeBinary("->", iAndB, wpBody);
    var notB := CreateNodeUnary("not", Clone(c));
    var iAndNotB := CreateNodeBinary("and", Clone(i), notB);
    var postImplies := CreateNodeBinary("->", iAndNotB, Clone(post));
    var nonNegative := CreateNodeBinary("->", Clone(iAndB), CreateNodeBinary(">=", Clone(v), CreateNodeNumber(0)));
    var decreasing := CreateNodeBinary("->", Clone(iAndB), CreateNodeBinary("<", wpVariant, Clone(v)));
    assert Clonable(iAndB) && Clonable(iAndNotB);
    assert Clonable(preservation) && Clonable(postImplies) && Clonable(nonNegative) && Clonable(decreasing);
    [preservation, postImplies, nonNegative, decreasing]
  }

  // -------------------------------------------------------------- the state

  /** The two globals of the first revision. */
  class Verifier {
    var vcList: Block
    var evalError: bool

    /** Program start: no list yet and no error. */
    constructor ()
      ensures vcList == NoBlock && !evalError
    {
      vcList := NoBlock;
      evalError := false;
    }

    /** hoare_prover, with the backward walk and the loop that conjoins the VCs. */
    method HoareProver(code: Block, pre: Node, post: Node) returns (wp: Node)
      requires WellFormedBlock(code) && Clonable(post) && VcsOk(vcList)
      modifies this
      ensures Step(wp, vcList) == ProverSpec(code, post, old(vcList))
      ensures evalError == old(evalError)
      decreases code, 3
    {
      if code.NoBlock? || post == Null {
        return Null;
      }
      if vcList.NoBlock? {
        vcList := Block([]);
      }
      ghost var start := vcList;
      var i := |code.stmts|;
      wp := Clone(post);
      while i > 0
        invariant 0 <= i <= |code.stmts|
        invariant vcList.Block? && VcsOk(vcList) && Clonable(wp) && wp != Null && evalError == old(evalError)
        invariant WalkSpec(code.stmts, i, wp, vcList) == WalkSpec(code.stmts, |code.stmts|, Clone(post), start)
      {
        var newWp := HoareStatement(code.stmts[i - 1], wp);
        if newWp == Null {
          return Null;
        }
        wp := newWp;
        i := i - 1;
      }
      wp := CombineVcs(wp, vcList.stmts);
    }

    /** The final loop of hoare_prover: conjoins the precondition with each VC, first to last. */
    static method CombineVcs(wp: Node, vcs: seq<Node>) returns (combined: Node)
      requires Clonable(wp) && AllClonable(vcs)
      ensures combined == Conjoin(wp, vcs)
    {
      combined := wp;
      var k := 0;
      while k < |vcs|
        invariant 0 <= k <= |vcs|
        invariant combined == Conjoin(wp, vcs[..k])
      {
        assert vcs[..k + 1][..k] == vcs[..k];
        combined := CreateNodeBinary("and", combined, vcs[k]);
        k := k + 1;
      }
      assert vcs[..k] == vcs;
    }

    /** hoare_statement. */
    method HoareStatement(n: Node, post: Node) returns (r: Node)
      requires WellFormed(n) && Clonable(post) && vcList.Block? && VcsOk(vcList)
      modifies this
      ensures Step(r, vcList) == StatementSpec(n, post, old(vcList))
      ensures evalError == old(evalError)
      decreases n, 1
    {
      match n
      case Assign(_, _) => r := AssignmentRule(n, post);
      case IfElse(_, _, _) => r := IfElseRule(n, post);
      case While(_, _, _, _) => r := WhileRule(n, post);
      case _ => r := Null;
    }

    /** hoare_AssignmentRule. */
    method AssignmentRule(n: Node, post: Node) returns (r: Node)
      requires n.Assign? && Clonable(n.expr) && Clonable(post) && vcList.Block? && VcsOk(vcList)
      modifies this
      ensures Step(r, vcList) == AssignSpec(n, post, old(vcList))
      ensures evalError == old(evalError)
    {
      r := Substitute(post, n.id, n.expr);
      SubstituteVcList(n.id, n.expr);
    }

    /** hoare_IfElseRule. */
    method IfElseRule(n: Node, post: Node) returns (r: Node)
      requires (n.IfElse? ==> WellFormed(n)) && Clonable(post) && vcList.Block? && VcsOk(vcList)
      modifies this
      ensures Step(r, vcList) == IfElseSpec(n, post, old(vcList))
      ensures evalError == old(evalError)
      decreases n, 0
    {
      if !n.IfElse? || n.condition == Null || n.thenBlock.NoBlock? || n.elseBlock.NoBlock? {
        return Null;
      }
      var wpIf := HoareProver(n.thenBlock, Null, Clone(post));
      var wpElse := HoareProver(n.elseBlock, Null, Clone(post));
      var left := CreateNodeBinary("->", n.condition, wpIf);
      var notB := CreateNodeUnary("not", n.condition);
      var right := CreateNodeBinary("->", notB, wpElse);
      r := CreateNodeBinary("and", left, right);
    }

    /** hoare_WhileRule. */
    method WhileRule(n: Node, post: Node) returns (r: Node)
      requires n.While? && WellFormed(n) && Clonable(post) && vcList.Block? && VcsOk(vcList)
      modifies this
      ensures Step(r, vcList) == WhileSpec(n, post, old(vcList))
      ensures evalError == old(evalError)
      decreases n, 0
    {
      var c, i, v, b := n.condition, n.inv, n.variant, n.body;
      if post == Null || c == Null || i == Null || v == Null || b.NoBlock? {
        return Null;
      }
      var iAndB := CreateNodeBinary("and", Clone(i), Clone(c));
      var wpBody := HoareProver(b, iAndB, Clone(i));
      var wpVariant := HoareProver(b, Clone(iAndB), Clone(v));
      AppendWhileVcs(n, post, wpBody, wpVariant);
      r := Clone(i);
    }

    /** The four VCs of hoare_WhileRule, built and appended to the list in order. */
    method AppendWhileVcs(n: Node, post: Node, wpBody: Node, wpVariant: Node)
      requires n.While? && Clonable(n.condition) && Clonable(n.inv) && Clonable(n.variant) && Clonable(post)
      requires Clonable(wpBody) && Clonable(wpVariant) && vcList.Block?
      modifies this
      ensures vcList == Block(old(vcList).stmts + WhileVcs(n, post, wpBody, wpVariant))
      ensures evalError == old(evalError)
    {
      var c, i, v := n.condition, n.inv, n.variant;
      var iAndB := CreateNodeBinary("and", Clone(i), Clone(c));
      var preservation := CreateNodeBinary("->", iAndB, wpBody);
      var notB := CreateNodeUnary("not", Clone(c));
      var iAndNotB := CreateNodeBinary("and", Clone(i), notB);
      var postImplies := CreateNodeBinary("->", iAndNotB, Clone(post));
      var nonNegative := CreateNodeBinary("->", Clone(iAndB), CreateNodeBinary(">=", Clone(v), CreateNodeNumber(0)));
      var decreasing := CreateNodeBinary("->", Clone(iAndB), CreateNodeBinary("<", wpVariant, Clone(v)));
      ghost var vcs := vcList.stmts;
      vcList := Block(vcList.stmts + [preservation]);
      vcList := Block(vcList.stmts + [postImplies]);
      vcList := Block(vcList.stmts + [nonNegative]);
      vcList := Block(vcList.stmts + [decreasing]);
      assert vcList.stmts == vcs + [preservation, postImplies, nonNegative, decreasing];
    }

    /** substitute_vc_list: rewrites each entry of the list in place, first to last. */
    method SubstituteVcList(x: string, e: Node)
      requires VcsOk(vcList) && Clonable(e)
      modifies this
      ensures vcList == SubstVcList(old(vcList), x, e)
      ensures evalError == old(evalError)
    {
      if vcList.NoBlock? {
        return;
      }
      ghost var original := vcList.stmts;
      var k := 0;
      while k < |vcList.stmts|
        invariant vcList.Block? && |vcList.stmts| == |original| && 0 <= k <= |original|
        invariant forall j :: 0 <= j < k ==> vcList.stmts[j] == SubstVc(original[j], x, e)
        invariant forall j :: k <= j < |original| ==> vcList.stmts[j] == original[j]
        invariant evalError == old(evalError)
      {
        var vc := vcList.stmts[k];
        if vc != Null {
          vcList := Block(vcList.stmts[k := Substitute(vc, x, e)]);
        }
        k := k + 1;
      }
    }

    /** evaluate_formula: records failure in `evalError`. */
    method EvaluateFormula(n: Node) returns (v: bool)
      modifies this
      ensures Outcome(v, evalError) == EvalFormula(n, old(evalError))
      ensures vcList == old(vcList)
      decreases n, 2
    {
      if n == Null {
        return false;
      }
      evalError := false;
      match n
      case BinaryOp(op, l, r) =>
        if IsAndOp(op) || IsOrOp(op) || op == "->" {
          var a := EvaluateFormula(l);
          if evalError { return false; }
          if IsAndOp(op) && !a { return false; }
          if IsOrOp(op) && a { return true; }
          if op == "->" && !a { return true; }
          v := EvaluateFormula(r);
          if evalError { return false; }
        } else {
          var a := EvaluateExpr(l);
          if evalError { return false; }
          var b := EvaluateExpr(r);
          if evalError { return false; }
          v := Compare(op, a, b);
        }
      case UnaryOp(op, c) =>
        if IsNotOp(op) {
          var a := EvaluateFormula(c);
          if evalError { return false; }
          v := !a;
        } else {
          v := false;
        }
      case Bool(b) => v := b != 0;
      case Number(k) => v := k != 0;
      case Identifier(_) | Assign(_, _) | IfElse(_, _, _) | While(_, _, _, _) | Function(_, _, _) =>
        evalError := true;
        v := false;
    }

    /** evaluate_expr: records failure in `evalError`, which it never clears. */
    method EvaluateExpr(n: Node) returns (v: Int32)
      modifies this
      ensures Outcome(v, evalError) == EvalExpr(n, old(evalError))
      ensures vcList == old(vcList)
      decreases n, 1
    {
      if n == Null {
        evalError := true;
        return 0;
      }
      match n
      case Number(k) => v := k;
      case BinaryOp(_, _, _) => v := EvaluateArith(n);
      case Function(_, _, _) => v := EvaluateCall(n);
      case Identifier(_) | Assign(_, _) | IfElse(_, _, _) | While(_, _, _, _) | UnaryOp(_, _) | Bool(_) =>
        evalError := true;
        v := 0;
    }

    /** The operator case of evaluate_expr: both operands, then the arithmetic. */
    method EvaluateArith(n: Node) returns (v: Int32)
      requires n.BinaryOp?
      modifies this
      ensures Outcome(v, evalError) == EvalExpr(n, old(evalError))
      ensures vcList == old(vcList)
      decreases n, 0
    {
      var a := EvaluateExpr(n.left);
      if evalError { return 0; }
      var b := EvaluateExpr(n.right);
      if evalError { return 0; }
      if n.op == "/" && b == 0 {
        evalError := true;
        return 0;
      }
      if n.op !in {"+", "-", "*", "/"} {
        evalError := true;
        return 0;
      }
      v := Arith(n.op, a, b);
    }

    /** The function-call case of evaluate_expr: `fact`, `min` and `max`. */
    method EvaluateCall(n: Node) returns (v: Int32)
      requires n.Function?
      modifies this
      ensures Outcome(v, evalError) == EvalExpr(n, old(evalError))
      ensures vcList == old(vcList)
      decreases n, 0
    {
      var f := n.fname;
      if f == "fact" {
        var a := EvaluateExpr(n.arg1);
        if evalError { return 0; }
        v := Fact(a);
      } else if f == "min" || f == "max" {
        var a := EvaluateExpr(n.arg1);
        var b := EvaluateExpr(n.arg2);
        if evalError { return 0; }
        v := if f == "min" then (if a < b then a else b) else (if a > b then a else b);
      } else {
        evalError := true;
        v := 0;
      }
    }
  }

  // ------------------------------------------------------------- evaluator

  /** A value together with the error flag as the evaluator leaves it. */
  datatype Outcome<T> = Outcome(value: T, error: bool)

  predicate IsAndOp(op: string) { op == "AND" || op == "and" }
  predicate IsOrOp(op: string) { op == "OR" || op == "or" }
  predicate IsNotOp(op: string) { op == "NOT" || op == "not" }
  predicate IsConnective(op: string) { IsAndOp(op) || IsOrOp(op) || op == "->" }

  /** The six comparisons; an unknown operator compares false. */
  function Compare(op: string, a: Int32, b: Int32): bool
  {
    if op == "==" then a == b
    else if op == "!=" then a != b
    else if op == "<" then a < b
    else if op == ">" then a > b
    else if op == "<=" then a <= b
    else if op == ">=" then a >= b
    else false
  }

  /**
   * evaluate_expr with the incoming error flag `err`. NULL, an identifier, a
   * zero divisor, an unknown operator or function, and any other node set the
   * flag and give 0; once set, the flag stays set.
   */
  function EvalExpr(n: Node, err: bool): (r: Outcome<Int32>)
    ensures err ==> r.error
    ensures r.error && !err ==> r.value == 0
    ensures n.Number? ==> r == Outcome(n.number, err)
    ensures !(n.Number? || n.BinaryOp? || n.Function?) ==> r.error
    ensures n.Function? && n.fname !in {"fact", "min", "max"} ==> r.error
    decreases n
  {
    match n
    case Null => Outcome(0, true)
    case Number(k) => Outcome(k, err)
    case BinaryOp(op, l, r) =>
      var a := EvalExpr(l, err);
      if a.error then Outcome(0, true)
      else
        var b := EvalExpr(r, false);
        if b.error then Outcome(0, true)
        else if op == "/" && b.value == 0 then Outcome(0, true)
        else if op !in {"+", "-", "*", "/"} then Outcome(0, true)
        else Outcome(Arith(op, a.value, b.value), false)
    case Function(f, a1, a2) =>
      if f == "fact" then
        var a := EvalExpr(a1, err);
        if a.error then Outcome(0, true) else Outcome(Fact(a.value), false)
      else if f == "min" || f == "max" then
        var a := EvalExpr(a1, err);
        var b := EvalExpr(a2, a.error);
        if b.error then Outcome(0, true)
        else Outcome(if f == "min" then (if a.value < b.value then a.value else b.value)
                     else (if a.value > b.value then a.value else b.value), false)
      else Outcome(0, true)
    case _ => Outcome(0, true)
  }

  /**
   * evaluate_formula with the incoming error flag `err`. NULL is false and
   * leaves the flag alone; any other node clears it first. `and`, `or` and
   * `->` stop after the left side when it decides the result.
   */
  function EvalFormula(n: Node, err: bool): (r: Outcome<bool>)
    ensures r.error ==> !r.value
    ensures n == Null ==> r == Outcome(false, err)
    ensures n.Identifier? || n.Assign? || n.IfElse? || n.While? || n.Function? ==> r == Outcome(false, true)
    ensures n.Bool? ==> r == Outcome(n.boolValue != 0, false)
    ensures n.Number? ==> r == Outcome(n.number != 0, false)
    ensures n.UnaryOp? && !IsNotOp(n.op) ==> r == Outcome(false, false)
    decreases n
  {
    match n
    case Null => Outcome(false, err)
    case BinaryOp(op, l, r) =>
      if IsAndOp(op) || IsOrOp(op) || op == "->" then
        var a := EvalFormula(l, false);
        if a.error then Outcome(false, true)
        else if IsAndOp(op) && !a.value then Outcome(false, false)
        else if IsOrOp(op) && a.value then Outcome(true, false)
        else if op == "->" && !a.value then Outcome(true, false)
        else
          var b := EvalFormula(r, false);
          if b.error then Outcome(false, true) else Outcome(b.value, false)
      else
        var a := EvalExpr(l, false);
        if a.error then Outcome(false, true)
        else
          var b := EvalExpr(r, false);
          if b.error then Outcome(false, true) else Outcome(Compare(op, a.value, b.value), false)
    case UnaryOp(op, c) =>
      if IsNotOp(op) then
        var a := EvalFormula(c, false);
        if a.error then Outcome(false, true) else Outcome(!a.value, false)
      else Outcome(false, false)
    case Bool(b) => Outcome(b != 0, false)
    case Number(k) => Outcome(k != 0, false)
    case _ => Outcome(false, true)
  }

  // ---------------------------------------------------------------- lemmas

  /** On success the result ends with every VC in the final list, in list order. */
  lemma ProverConjoinsAllVcs(code: Block, post: Node, l: Block)
    requires WellFormedBlock(code) && Clonable(post) && VcsOk(l)
    ensures var r := ProverSpec(code, post, l);
      r.wp != Null ==> r.vcList.Block? && Conjuncts(r.wp, |r.vcList.stmts|).1 == r.vcList.stmts
  {
    var r := ProverSpec(code, post, l);
    if r.wp != Null {
      var list := if l.NoBlock? then Block([]) else l;
      var w := WalkSpec(code.stmts, |code.stmts|, Clone(post), list);
      ConjunctsConjoin(w.wp, w.vcList.stmts);
    }
  }

  /**
   * After `x := E` with `x` not in `E`, neither the new precondition nor any
   * collected VC mentions `x`: the rule rewrites the whole list, not only `post`.
   */
  lemma AssignEliminatesTarget(n: Node, post: Node, l: Block)
    requires n.Assign? && Clonable(n.expr) && Clonable(post) && l.Block? && VcsOk(l)
    requires !Occurs(n.expr, n.id)
    ensures var r := AssignSpec(n, post, l);
      !Occurs(r.wp, n.id) && forall k :: 0 <= k < |r.vcList.stmts| ==> !Occurs(r.vcList.stmts[k], n.id)
  {
    var r := AssignSpec(n, post, l);
    SubstituteEliminates(post, n.id, n.expr);
    forall k | 0 <= k < |r.vcList.stmts|
      ensures !Occurs(r.vcList.stmts[k], n.id)
    {
      if l.stmts[k] != Null {
        SubstituteEliminates(l.stmts[k], n.id, n.expr);
      }
    }
  }

  /** The while rule's four VCs, at the end of the list, in order. */
  lemma WhileAppendsFourVcs(n: Node, post: Node, l: Block)
    requires n.While? && WellFormed(n) && Clonable(post) && l.Block? && VcsOk(l)
    requires WhileComplete(n, post)
    ensures var r1 := ProverSpec(n.body, n.inv, l);
      var r2 := ProverSpec(n.body, n.variant, r1.vcList);
      var vs := WhileSpec(n, post, l).vcList.stmts;
      var iAndB := BinaryOp("and", n.inv, n.condition);
      r2.vcList.Block? && |vs| == |r2.vcList.stmts| + 4 &&
      vs[..|vs| - 4] == r2.vcList.stmts &&
      vs[|vs| - 4] == BinaryOp("->", iAndB, r1.wp) &&
      vs[|vs| - 3] == BinaryOp("->", BinaryOp("and", n.inv, UnaryOp("not", n.condition)), post) &&
      vs[|vs| - 2] == BinaryOp("->", iAndB, BinaryOp(">=", n.variant, Number(0))) &&
      vs[|vs| - 1] == BinaryOp("->", iAndB, BinaryOp("<", r2.wp, n.variant))
  {
  }

  /** Code without loops never adds to the list: its length is unchanged. */
  lemma {:induction false} LoopFreeKeepsList(code: Block, post: Node, l: Block)
    requires WellFormedBlock(code) && Clonable(post) && VcsOk(l) && l.Block?
    requires LoopFreeBlock(code)
    ensures |ProverSpec(code, post, l).vcList.stmts| == |l.stmts|
    decreases code, 3
  {
    if code.Block? && post != Null {
      WalkKeepsList(code.stmts, |code.stmts|, Clone(post), l);
    }
  }

  lemma {:induction false} WalkKeepsList(stmts: seq<Node>, i: nat, wp: Node, l: Block)
    requires i <= |stmts| && WellFormedStmts(stmts) && Clonable(wp) && l.Block? && VcsOk(l)
    requires forall k :: 0 <= k < |stmts| ==> LoopFree(stmts[k])
    ensures |WalkSpec(stmts, i, wp, l).vcList.stmts| == |l.stmts|
    decreases stmts, 2, i
  {
    if i > 0 {
      StatementKeepsList(stmts[i - 1], wp, l);
      var r := StatementSpec(stmts[i - 1], wp, l);
      if r.wp != Null {
        WalkKeepsList(stmts, i - 1, r.wp, r.vcList);
      }
    }
  }

  lemma {:induction false} StatementKeepsList(n: Node, post: Node, l: Block)
    requires WellFormed(n) && Clonable(post) && l.Block? && VcsOk(l) && LoopFree(n)
    ensures |StatementSpec(n, post, l).vcList.stmts| == |l.stmts|
    decreases n, 1
  {
    if Hoare.IfElseComplete(n) {
      var r1 := ProverSpec(n.thenBlock, Clone(post), l);
      LoopFreeKeepsList(n.thenBlock, Clone(post), l);
      LoopFreeKeepsList(n.elseBlock, Clone(post), r1.vcList);
    }
  }

  /** No while loop anywhere in the statement, nested blocks included. */
  predicate LoopFree(n: Node)
    decreases n, 1
  {
    match n
    case While(_, _, _, _) => false
    case IfElse(_, t, e) => LoopFreeBlock(t) && LoopFreeBlock(e)
    case _ => true
  }

  predicate LoopFreeBlock(b: Block)
    decreases b, 0
  {
    b.Block? ==> forall k :: 0 <= k < |b.stmts| ==> LoopFree(b.stmts[k])
  }

  /**
   * On code without loops and with an empty list, the first revision computes
   * the same precondition as the current one and leaves the list empty.
   */
  lemma {:induction false} LoopFreeAgrees(code: Block, post: Node)
    requires WellFormedBlock(code) && Hoare.WellFormedBlock(code) && Clonable(post) && LoopFreeBlock(code)
    ensures ProverSpec(code, post, Block([])) == Step(Hoare.Prover(code, post), Block([]))
    decreases code, 3
  {
    if code.Block? && post != Null {
      WalkAgrees(code.stmts, |code.stmts|, post);
    }
  }

  lemma {:induction false} WalkAgrees(stmts: seq<Node>, i: nat, wp: Node)
    requires i <= |stmts| && WellFormedStmts(stmts) && Hoare.WellFormedStmts(stmts) && Clonable(wp)
    requires forall k :: 0 <= k < |stmts| ==> LoopFree(stmts[k])
    ensures WalkSpec(stmts, i, wp, Block([])) == Step(Hoare.Walk(stmts, i, wp), Block([]))
    decreases stmts, 2, i
  {
    if i > 0 {
      StatementAgrees(stmts[i - 1], wp);
      var r := StatementSpec(stmts[i - 1], wp, Block([]));
      if r.wp != Null {
        WalkAgrees(stmts, i - 1, r.wp);
      }
    }
  }

  lemma {:induction false} StatementAgrees(n: Node, post: Node)
    requires WellFormed(n) && Hoare.WellFormed(n) && Clonable(post) && LoopFree(n)
    ensures StatementSpec(n, post, Block([])) == Step(Hoare.Statement(n, post), Block([]))
    decreases n, 1
  {
    if Hoare.IfElseComplete(n) {
      LoopFreeAgrees(n.thenBlock, post);
      LoopFreeAgrees(n.elseBlock, post);
    }
  }

  /** A formula other than NULL is evaluated from a cleared flag, whatever the flag was before. */
  lemma FormulaClearsFlag(n: Node)
    requires n != Null
    ensures EvalFormula(n, true) == EvalFormula(n, false)
  {
  }

  /**
   * Expressions on which both revisions of evaluate_expr compute the same
   * value: min and max have both arguments (the current revision reads a
   * missing one as -1, the first one fails), and fact gets a non-negative
   * argument (the two revisions answer -1 and 0 on negative ones).
   */
  predicate Comparable(n: Node)
    requires Hoare.ExprDefined(n)
    decreases n
  {
    match n
    case BinaryOp(_, l, r) => Comparable(l) && Comparable(r)
    case Function(f, a1, a2) =>
      Comparable(a1) && (if f == "fact" then Hoare.EvalExpr(a1) >= 0 else a2 != Null && Comparable(a2))
    case _ => true
  }

  /** Formulas built with and, or, -> and not over comparisons of such expressions. */
  predicate Propositional(n: Node)
    decreases n
  {
    match n
    case BinaryOp(op, l, r) =>
      if IsConnective(op) then Propositional(l) && Propositional(r)
      else Hoare.ExprDefined(l) && Hoare.ExprDefined(r) && Comparable(l) && Comparable(r)
    case UnaryOp(op, c) => IsNotOp(op) && Propositional(c)
    case _ => false
  }

  /** On such expressions the first evaluator computes the current one's value and reports no error. */
  lemma {:induction false} ExprAgrees(n: Node)
    requires Hoare.ExprDefined(n) && Comparable(n)
    ensures EvalExpr(n, false) == Outcome(Hoare.EvalExpr(n), false)
    decreases n
  {
    match n
    case Number(_) =>
    case BinaryOp(_, l, r) =>
      ExprAgrees(l);
      ExprAgrees(r);
      ArithAgrees(n);
    case Function(f, a1, a2) =>
      ExprAgrees(a1);
      if f != "fact" {
        ExprAgrees(a2);
      }
      CallAgrees(n);
  }

  /** The operator step of `ExprAgrees`: agreeing operands give agreeing results. */
  lemma ArithAgrees(n: Node)
    requires n.BinaryOp? && Hoare.ExprDefined(n)
    requires EvalExpr(n.left, false) == Outcome(Hoare.EvalExpr(n.left), false)
    requires EvalExpr(n.right, false) == Outcome(Hoare.EvalExpr(n.right), false)
    ensures EvalExpr(n, false) == Outcome(Hoare.EvalExpr(n), false)
  {
  }

  /** The call step of `ExprAgrees`: min and max with both arguments, fact on a non-negative one. */
  lemma CallAgrees(n: Node)
    requires n.Function? && Hoare.ExprDefined(n)
    requires EvalExpr(n.arg1, false) == Outcome(Hoare.EvalExpr(n.arg1), false)
    requires n.fname == "fact" ==> Hoare.EvalExpr(n.arg1) >= 0
    requires n.fname != "fact" ==>
      (n.arg2 != Null && Hoare.ExprDefined(n.arg2) && EvalExpr(n.arg2, false) == Outcome(Hoare.EvalExpr(n.arg2), false))
    ensures EvalExpr(n, false) == Outcome(Hoare.EvalExpr(n), false)
  {
    if n.fname == "fact" {
      FactRevisions(Hoare.EvalExpr(n.arg1));
    }
  }

  /** On propositional formulas both revisions of evaluate_formula agree, and the error flag stays clear. */
  lemma {:induction false} FormulaAgrees(n: Node)
    requires Propositional(n)
    ensures Hoare.FormulaDefined(n)
    ensures EvalFormula(n, false) == Outcome(Hoare.EvalFormula(n), false)
    decreases n
  {
    match n
    case BinaryOp(op, l, r) =>
      if IsConnective(op) {
        FormulaAgrees(l);
        FormulaAgrees(r);
      } else {
        ExprAgrees(l);
        ExprAgrees(r);
      }
    case UnaryOp(_, c) =>
      FormulaAgrees(c);
  }

  /**
   * An operator fails when an operand fails; with clean operands it fails
   * exactly on an unknown operator or a zero divisor.
   */
  lemma ArithErrors(n: Node, err: bool)
    requires n.BinaryOp?
    ensures EvalExpr(n.left, err).error || EvalExpr(n.right, false).error ==> EvalExpr(n, err).error
    ensures !EvalExpr(n.left, err).error && !EvalExpr(n.right, false).error ==>
      (EvalExpr(n, err).error <==> n.op !in {"+", "-", "*", "/"} || (n.op == "/" && EvalExpr(n.right, false).value == 0))
  {
  }

  /**
   * A connective fails when an operand it evaluates fails, and otherwise has
   * its logical meaning; `and`, `or` and `->` stop after a deciding left side,
   * whatever the right side would do.
   */
  lemma ConnectiveOutcome(n: Node, err: bool)
    requires n.BinaryOp? && IsConnective(n.op)
    ensures var r, a, b := EvalFormula(n, err), EvalFormula(n.left, false), EvalFormula(n.right, false);
      (a.error ==> r == Outcome(false, true)) &&
      (IsAndOp(n.op) && !r.error ==> (r.value <==> a.value && b.value)) &&
      (IsOrOp(n.op) && !r.error ==> (r.value <==> a.value || b.value)) &&
      (n.op == "->" && !r.error ==> (r.value <==> (a.value ==> b.value))) &&
      (IsAndOp(n.op) && a == Outcome(false, false) ==> r == Outcome(false, false)) &&
      (IsOrOp(n.op) && a == Outcome(true, false) ==> r == Outcome(true, false)) &&
      (n.op == "->" && a == Outcome(false, false) ==> r == Outcome(true, false))
  {
  }

  /** A comparison fails when an operand fails; an unknown comparison is false without an error. */
  lemma ComparisonOutcome(n: Node, err: bool)
    requires n.BinaryOp? && !IsConnective(n.op)
    ensures var r, a, b := EvalFormula(n, err), EvalExpr(n.left, false), EvalExpr(n.right, false);
      (a.error || b.error ==> r == Outcome(false, true)) &&
      (!a.error && !b.error ==> r == Outcome(Compare(n.op, a.value, b.value), false)) &&
      (!a.error && !b.error && n.op !in {"==", "!=", "<", ">", "<=", ">="} ==> r == Outcome(false, false))
  {
  }

  /** `not` negates a clean operand. */
  lemma NegationOutcome(n: Node, err: bool)
    requires n.UnaryOp? && IsNotOp(n.op)
    ensures var r, c := EvalFormula(n, err), EvalFormula(n.child, false);
      r == if c.error then Outcome(false, true) else Outcome(!c.value, false)
  {
  }

  /**
   * Where the revisions differ: a true literal or a non-zero number is true for
   * the first evaluator and false for the current one, which only knows operators.
   */
  lemma LiteralsDiffer(k: Int32)
    requires k != 0
    ensures EvalFormula(Number(k), false) == Outcome(true, false) && !Hoare.EvalFormula(Number(k))
    ensures EvalFormula(Bool(1), false) == Outcome(true, false) && !Hoare.EvalFormula(Bool(1))
  {
  }
}
