/**
 * Deep copy and capture-naive substitution over the syntax tree.
 *
 * Both operations walk every nested statement block of an if/else or while
 * node through that block's first cell, so a node whose block pointer is
 * NULL makes them dereference NULL; `Clonable` excludes that.
 */
module Structure {
  import opened Ast

  /** Every if/else and while node in `n`, nested blocks included, has its blocks present. */
  predicate Clonable(n: Node)
    decreases n, 1
  {
    match n
    case Null => true
    case Assign(_, e) => Clonable(e)
    case BinaryOp(_, l, r) => Clonable(l) && Clonable(r)
    case IfElse(c, t, e) =>
      Clonable(c) && t.Block? && e.Block? && AllClonable(t.stmts) && AllClonable(e.stmts)
    case While(c, i, v, b) =>
      Clonable(c) && Clonable(i) && Clonable(v) && b.Block? && AllClonable(b.stmts)
    case Number(_) => true
    case Identifier(_) => true
    case Function(_, a, b) => Clonable(a) && Clonable(b)
    case UnaryOp(_, c) => Clonable(c)
    case Bool(_) => true
  }

  predicate AllClonable(s: seq<Node>)
    decreases s, 0
  {
    forall k :: 0 <= k < |s| ==> Clonable(s[k])
  }

  /** The identifier `x` appears as an identifier leaf somewhere in `n`, nested blocks included. */
  predicate Occurs(n: Node, x: string)
    decreases n, 1
  {
    match n
    case Null => false
    case Assign(_, e) => Occurs(e, x)
    case BinaryOp(_, l, r) => Occurs(l, x) || Occurs(r, x)
    case IfElse(c, t, e) =>
      Occurs(c, x) || (t.Block? && OccursIn(t.stmts, x)) || (e.Block? && OccursIn(e.stmts, x))
    case While(c, i, v, b) =>
      Occurs(c, x) || Occurs(i, x) || Occurs(v, x) || (b.Block? && OccursIn(b.stmts, x))
    case Number(_) => false
    case Identifier(y) => y == x
    case Function(_, a, b) => Occurs(a, x) || Occurs(b, x)
    case UnaryOp(_, c) => Occurs(c, x)
    case Bool(_) => false
  }

  predicate OccursIn(s: seq<Node>, x: string)
    decreases s, 0
  {
    exists k :: 0 <= k < |s| && Occurs(s[k], x)
  }

  /** No boolean literal appears anywhere in `n`. */
  predicate BoolFree(n: Node)
    decreases n, 1
  {
    match n
    case Null => true
    case Assign(_, e) => BoolFree(e)
    case BinaryOp(_, l, r) => BoolFree(l) && BoolFree(r)
    case IfElse(c, t, e) =>
      BoolFree(c) && (t.Block? ==> AllBoolFree(t.stmts)) && (e.Block? ==> AllBoolFree(e.stmts))
    case While(c, i, v, b) =>
      BoolFree(c) && BoolFree(i) && BoolFree(v) && (b.Block? ==> AllBoolFree(b.stmts))
    case Number(_) => true
    case Identifier(_) => true
    case Function(_, a, b) => BoolFree(a) && BoolFree(b)
    case UnaryOp(_, c) => BoolFree(c)
    case Bool(_) => false
  }

  predicate AllBoolFree(s: seq<Node>)
    decreases s, 0
  {
    forall k :: 0 <= k < |s| ==> BoolFree(s[k])
  }

  /**
   * clone_node: a deep copy. Every payload is copied and every child cloned,
   * blocks cell by cell in order, so the copy is the same tree value.
   */
  function Clone(n: Node): (r: Node)
    requires Clonable(n)
    ensures r == n
    decreases n, 1
  {
    match n
    case Null => Null
    case Assign(id, e) => CreateNodeAssign(id, Clone(e))
    case BinaryOp(op, l, r) => CreateNodeBinary(op, Clone(l), Clone(r))
    case UnaryOp(op, c) => CreateNodeUnary(op, Clone(c))
    case Number(k) => CreateNodeNumber(k)
    case Identifier(x) => CreateNodeId(x)
    case Function(f, a, b) => CreateNodeFunc(f, Clone(a), Clone(b))
    case Bool(v) => CreateNodeBool(v)
    case IfElse(c, t, e) =>
      CreateNodeIfElse(Clone(c), Block(CloneStmts(t.stmts)), Block(CloneStmts(e.stmts)))
    case While(c, i, v, b) =>
      CreateNodeWhile(Clone(c), Block(CloneStmts(b.stmts)), Clone(i), Clone(v))
  }

  /** The block copy loop: appends the clone of each statement, first to last. */
  function CloneStmts(s: seq<Node>): (r: seq<Node>)
    requires AllClonable(s)
    ensures |r| == |s| && forall k :: 0 <= k < |s| ==> r[k] == Clone(s[k])
    decreases s, 0
  {
    if s == [] then [] else [Clone(s[0])] + CloneStmts(s[1..])
  }

  /** What `substitute` needs: the tree is clonable, and so is the replacement if it gets copied in. */
  predicate SubstDefined(n: Node, x: string, repl: Node)
  {
    Clonable(n) && (Occurs(n, x) ==> Clonable(repl))
  }

  /**
   * substitute: a fresh tree in which every identifier leaf named `x` is a copy
   * of `repl`. Operator, function and assignment-target names and numbers are
   * kept; `substitute` has no case for boolean literals, so each becomes NULL.
   */
  function Substitute(n: Node, x: string, repl: Node): (r: Node)
    requires SubstDefined(n, x, repl)
    ensures Clonable(r)
    ensures n.Assign? ==> r.Assign? && r.id == n.id
    ensures n.BinaryOp? ==> r.BinaryOp? && r.op == n.op
    ensures n.UnaryOp? ==> r.UnaryOp? && r.op == n.op
    ensures n.Function? ==> r.Function? && r.fname == n.fname
    ensures n.Number? ==> r == n
    ensures n.Identifier? ==> r == if n.name == x then repl else n
    ensures n.Bool? || n.Null? ==> r == Null
    ensures n.IfElse? ==> r.IfElse? && |r.thenBlock.stmts| == |n.thenBlock.stmts|
                                  && |r.elseBlock.stmts| == |n.elseBlock.stmts|
    ensures n.While? ==> r.While? && |r.body.stmts| == |n.body.stmts|
    decreases n, 1
  {
    match n
    case Null => Null
    case Assign(id, e) => CreateNodeAssign(id, Substitute(e, x, repl))
    case BinaryOp(op, l, r) => CreateNodeBinary(op, Substitute(l, x, repl), Substitute(r, x, repl))
    case IfElse(c, t, e) =>
      CreateNodeIfElse(Substitute(c, x, repl),
                       Block(SubstituteStmts(t.stmts, x, repl)),
                       Block(SubstituteStmts(e.stmts, x, repl)))
    case While(c, i, v, b) =>
      CreateNodeWhile(Substitute(c, x, repl), Block(SubstituteStmts(b.stmts, x, repl)),
                      Substitute(i, x, repl), Substitute(v, x, repl))
    case Number(k) => CreateNodeNumber(k)
    case Identifier(y) => if y == x then Clone(repl) else CreateNodeId(y)
    case Function(f, a, b) => CreateNodeFunc(f, Substitute(a, x, repl), Substitute(b, x, repl))
    case UnaryOp(op, c) => CreateNodeUnary(op, Substitute(c, x, repl))
    case Bool(_) => Null
  }

  /** The block rewriting loop: appends the substituted copy of each statement, first to last. */
  function SubstituteStmts(s: seq<Node>, x: string, repl: Node): (r: seq<Node>)
    requires AllClonable(s) && (OccursIn(s, x) ==> Clonable(repl))
    ensures |r| == |s| && AllClonable(r)
    ensures forall k :: 0 <= k < |s| ==> r[k] == Substitute(s[k], x, repl)
    decreases s, 0
  {
    if s == [] then []
    else
      assert OccursIn(s[1..], x) ==> OccursIn(s, x) by {
        if OccursIn(s[1..], x) {
          var k :| 0 <= k < |s[1..]| && Occurs(s[1..][k], x);
          assert s[1..][k] == s[k + 1];
        }
      }
      [Substitute(s[0], x, repl)] + SubstituteStmts(s[1..], x, repl)
  }

  /** The block copy loop of clone_node, cell by cell from first to last. */
  method CloneBlock(stmts: seq<Node>) returns (copy: seq<Node>)
    requires AllClonable(stmts)
    ensures copy == CloneStmts(stmts) && copy == stmts
  {
    copy := [];
    var k := 0;
    while k < |stmts|
      invariant 0 <= k <= |stmts|
      invariant copy == CloneStmts(stmts[..k])
    {
      CloneStmtsAppend(stmts[..k], stmts[k]);
      assert stmts[..k + 1] == stmts[..k] + [stmts[k]];
      copy := copy + [Clone(stmts[k])];
      k := k + 1;
    }
    assert stmts[..k] == stmts;
  }

  /** The block rewriting loop of substitute, cell by cell from first to last. */
  method SubstituteBlock(stmts: seq<Node>, x: string, repl: Node) returns (result: seq<Node>)
    requires AllClonable(stmts) && (OccursIn(stmts, x) ==> Clonable(repl))
    ensures result == SubstituteStmts(stmts, x, repl)
  {
    result := [];
    var k := 0;
    while k < |stmts|
      invariant 0 <= k <= |stmts|
      invariant |result| == k
      invariant forall j :: 0 <= j < k ==> result[j] == Substitute(stmts[j], x, repl)
    {
      assert Occurs(stmts[k], x) ==> OccursIn(stmts, x);
      result := result + [Substitute(stmts[k], x, repl)];
      k := k + 1;
    }
  }

  lemma {:induction false} CloneStmtsAppend(s: seq<Node>, n: Node)
    requires AllClonable(s) && Clonable(n)
    ensures AllClonable(s + [n])
    ensures CloneStmts(s + [n]) == CloneStmts(s) + [Clone(n)]
  {
    var t := s + [n];
    assert forall k :: 0 <= k < |s| ==> t[k] == s[k];
    assert t[|s|] == n;
  }

  /** Substituting a variable that does not occur in a Bool-free tree gives the same tree back. */
  lemma {:induction false} SubstituteNotOccurring(n: Node, x: string, repl: Node)
    requires Clonable(n) && BoolFree(n) && !Occurs(n, x)
    ensures Substitute(n, x, repl) == n
    decreases n, 1
  {
    match n
    case Null =>
    case Assign(_, e) => SubstituteNotOccurring(e, x, repl);
    case BinaryOp(_, l, r) => SubstituteNotOccurring(l, x, repl); SubstituteNotOccurring(r, x, repl);
    case IfElse(c, t, e) =>
      SubstituteNotOccurring(c, x, repl);
      StmtsNotOccurring(t.stmts, x, repl);
      StmtsNotOccurring(e.stmts, x, repl);
    case While(c, i, v, b) =>
      SubstituteNotOccurring(c, x, repl);
      SubstituteNotOccurring(i, x, repl);
      SubstituteNotOccurring(v, x, repl);
      StmtsNotOccurring(b.stmts, x, repl);
    case Number(_) =>
    case Identifier(_) =>
    case Function(_, a, b) => SubstituteNotOccurring(a, x, repl); SubstituteNotOccurring(b, x, repl);
    case UnaryOp(_, c) => SubstituteNotOccurring(c, x, repl);
  }

  lemma {:induction false} StmtsNotOccurring(s: seq<Node>, x: string, repl: Node)
    requires AllClonable(s) && AllBoolFree(s) && !OccursIn(s, x)
    ensures SubstituteStmts(s, x, repl) == s
    decreases s, 0
  {
    forall k | 0 <= k < |s|
      ensures SubstituteStmts(s, x, repl)[k] == s[k]
    {
      SubstituteNotOccurring(s[k], x, repl);
    }
  }

  /** Substituting `x` by the identifier `x` itself leaves a Bool-free tree unchanged. */
  lemma {:induction false} SubstituteSelf(n: Node, x: string)
    requires Clonable(n) && BoolFree(n)
    ensures Substitute(n, x, Identifier(x)) == n
    decreases n, 1
  {
    match n
    case Null =>
    case Assign(_, e) => SubstituteSelf(e, x);
    case BinaryOp(_, l, r) => SubstituteSelf(l, x); SubstituteSelf(r, x);
    case IfElse(c, t, e) => SubstituteSelf(c, x); StmtsSelf(t.stmts, x); StmtsSelf(e.stmts, x);
    case While(c, i, v, b) => SubstituteSelf(c, x); SubstituteSelf(i, x); SubstituteSelf(v, x); StmtsSelf(b.stmts, x);
    case Number(_) =>
    case Identifier(_) =>
    case Function(_, a, b) => SubstituteSelf(a, x); SubstituteSelf(b, x);
    case UnaryOp(_, c) => SubstituteSelf(c, x);
  }

  lemma {:induction false} StmtsSelf(s: seq<Node>, x: string)
    requires AllClonable(s) && AllBoolFree(s)
    ensures SubstituteStmts(s, x, Identifier(x)) == s
    decreases s, 0
  {
    forall k | 0 <= k < |s|
      ensures SubstituteStmts(s, x, Identifier(x))[k] == s[k]
    {
      SubstituteSelf(s[k], x);
    }
  }

  /**
   * Every boolean literal is dropped (it becomes NULL), so the result holds no
   * boolean literal unless one comes in with the replacement.
   */
  lemma {:induction false} SubstituteDropsBools(n: Node, x: string, repl: Node)
    requires SubstDefined(n, x, repl) && (Occurs(n, x) ==> BoolFree(repl))
    ensures BoolFree(Substitute(n, x, repl))
    ensures !BoolFree(n) ==> Substitute(n, x, repl) != n
    decreases n, 1
  {
    match n
    case Null =>
    case Assign(_, e) => SubstituteDropsBools(e, x, repl);
    case BinaryOp(_, l, r) => SubstituteDropsBools(l, x, repl); SubstituteDropsBools(r, x, repl);
    case IfElse(c, t, e) =>
      SubstituteDropsBools(c, x, repl);
      StmtsDropBools(t.stmts, x, repl);
      StmtsDropBools(e.stmts, x, repl);
    case While(c, i, v, b) =>
      SubstituteDropsBools(c, x, repl);
      SubstituteDropsBools(i, x, repl);
      SubstituteDropsBools(v, x, repl);
      StmtsDropBools(b.stmts, x, repl);
    case Number(_) =>
    case Identifier(_) =>
    case Function(_, a, b) => SubstituteDropsBools(a, x, repl); SubstituteDropsBools(b, x, repl);
    case UnaryOp(_, c) => SubstituteDropsBools(c, x, repl);
    case Bool(_) =>
  }

  lemma {:induction false} StmtsDropBools(s: seq<Node>, x: string, repl: Node)
    requires AllClonable(s) && (OccursIn(s, x) ==> Clonable(repl) && BoolFree(repl))
    ensures AllBoolFree(SubstituteStmts(s, x, repl))
    decreases s, 0
  {
    forall k | 0 <= k < |s|
      ensures BoolFree(SubstituteStmts(s, x, repl)[k])
    {
      assert Occurs(s[k], x) ==> OccursIn(s, x);
      SubstituteDropsBools(s[k], x, repl);
    }
  }

  /**
   * Which identifiers occur after substitution: `y` occurs exactly when it is
   * another name that occurred before, or `x` occurred and the replacement
   * mentions `y`.
   */
  lemma {:induction false} SubstituteOccurs(n: Node, x: string, repl: Node, y: string)
    requires SubstDefined(n, x, repl)
    ensures Occurs(Substitute(n, x, repl), y) <==> (y != x && Occurs(n, y)) || (Occurs(n, x) && Occurs(repl, y))
    decreases n, 1
  {
    match n
    case Null =>
    case Assign(_, e) => SubstituteOccurs(e, x, repl, y);
    case BinaryOp(_, l, r) => SubstituteOccurs(l, x, repl, y); SubstituteOccurs(r, x, repl, y);
    case IfElse(c, t, e) => IfElseOccurs(n, x, repl, y);
    case While(c, i, v, b) => WhileOccurs(n, x, repl, y);
    case Number(_) =>
    case Identifier(_) =>
    case Function(_, a, b) => SubstituteOccurs(a, x, repl, y); SubstituteOccurs(b, x, repl, y);
    case UnaryOp(_, c) => SubstituteOccurs(c, x, repl, y);
    case Bool(_) =>
  }

  lemma {:induction false} IfElseOccurs(n: Node, x: string, repl: Node, y: string)
    requires n.IfElse? && SubstDefined(n, x, repl)
    ensures Occurs(Substitute(n, x, repl), y) <==> (y != x && Occurs(n, y)) || (Occurs(n, x) && Occurs(repl, y))
    decreases n, 0
  {
    var c, t, e := n.condition, n.thenBlock.stmts, n.elseBlock.stmts;
    SubstituteOccurs(c, x, repl, y);
    StmtsOccurs(t, x, repl, y);
    StmtsOccurs(e, x, repl, y);
    var r := Substitute(n, x, repl);
    assert r == IfElse(Substitute(c, x, repl), Block(SubstituteStmts(t, x, repl)), Block(SubstituteStmts(e, x, repl)));
    assert Occurs(r, y) <==> Occurs(Substitute(c, x, repl), y) || OccursIn(SubstituteStmts(t, x, repl), y)
                             || OccursIn(SubstituteStmts(e, x, repl), y);
    assert Occurs(n, x) <==> Occurs(c, x) || OccursIn(t, x) || OccursIn(e, x);
    assert Occurs(n, y) <==> Occurs(c, y) || OccursIn(t, y) || OccursIn(e, y);
  }

  lemma {:induction false} WhileOccurs(n: Node, x: string, repl: Node, y: string)
    requires n.While? && SubstDefined(n, x, repl)
    ensures Occurs(Substitute(n, x, repl), y) <==> (y != x && Occurs(n, y)) || (Occurs(n, x) && Occurs(repl, y))
    decreases n, 0
  {
    var c, i, v, b := n.condition, n.inv, n.variant, n.body.stmts;
    SubstituteOccurs(c, x, repl, y);
    SubstituteOccurs(i, x, repl, y);
    SubstituteOccurs(v, x, repl, y);
    StmtsOccurs(b, x, repl, y);
    var r := Substitute(n, x, repl);
    assert r == While(Substitute(c, x, repl), Substitute(i, x, repl), Substitute(v, x, repl), Block(SubstituteStmts(b, x, repl)));
    assert Occurs(r, y) <==> Occurs(Substitute(c, x, repl), y) || Occurs(Substitute(i, x, repl), y)
                             || Occurs(Substitute(v, x, repl), y) || OccursIn(SubstituteStmts(b, x, repl), y);
    assert Occurs(n, x) <==> Occurs(c, x) || Occurs(i, x) || Occurs(v, x) || OccursIn(b, x);
    assert Occurs(n, y) <==> Occurs(c, y) || Occurs(i, y) || Occurs(v, y) || OccursIn(b, y);
  }

  lemma {:induction false} StmtsOccurs(s: seq<Node>, x: string, repl: Node, y: string)
    requires AllClonable(s) && (OccursIn(s, x) ==> Clonable(repl))
    ensures OccursIn(SubstituteStmts(s, x, repl), y) <==> (y != x && OccursIn(s, y)) || (OccursIn(s, x) && Occurs(repl, y))
    decreases s, 0
  {
    var r := SubstituteStmts(s, x, repl);
    forall k | 0 <= k < |s|
      ensures Occurs(r[k], y) <==> (y != x && Occurs(s[k], y)) || (Occurs(s[k], x) && Occurs(repl, y))
    {
      assert Occurs(s[k], x) ==> OccursIn(s, x);
      SubstituteOccurs(s[k], x, repl, y);
    }
  }

  /** With a replacement that does not mention `x`, no occurrence of `x` survives. */
  lemma SubstituteEliminates(n: Node, x: string, repl: Node)
    requires SubstDefined(n, x, repl) && !Occurs(repl, x)
    ensures !Occurs(Substitute(n, x, repl), x)
  {
    SubstituteOccurs(n, x, repl, x);
  }
}
