/**
 * Structural equality of syntax trees and the `true` literal test. Both
 * revisions of the WP engine carry the same text of these two functions, so
 * they are defined once here.
 */
module Equality {
  import opened CInt
  import opened Ast

  /** Both blocks absent, or both present: the only comparison made of statement blocks. */
  predicate SamePresence(x: Block, y: Block)
  {
    x.Block? == y.Block?
  }

  /**
   * ast_equal. Two NULLs are equal, one NULL is not, differing tags are not;
   * otherwise payloads are compared and children recursively. The second
   * function argument is compared only when either side has one, and blocks
   * only for presence. Strings are never NULL here, so the C code's
   * NULL-string branches do not arise.
   */
  function AstEqual(a: Node, b: Node): (r: bool)
    ensures r ==> (a == Null <==> b == Null)
    ensures r && a != Null ==> b != Null && TagOf(a) == TagOf(b)
    decreases a
  {
    if a == Null && b == Null then true
    else if a == Null || b == Null then false
    else if TagOf(a) != TagOf(b) then false
    else
      match a
      case Number(k) => k == b.number
      case Identifier(x) => x == b.name
      case Bool(v) => v == b.boolValue
      case UnaryOp(op, c) => op == b.op && AstEqual(c, b.child)
      case BinaryOp(op, l, r) => op == b.op && AstEqual(l, b.left) && AstEqual(r, b.right)
      case Function(f, a1, a2) =>
        f == b.fname && AstEqual(a1, b.arg1) && ((a2 != Null || b.arg2 != Null) ==> AstEqual(a2, b.arg2))
      case Assign(id, e) => id == b.id && AstEqual(e, b.expr)
      case IfElse(c, t, e) =>
        AstEqual(c, b.condition) && SamePresence(t, b.thenBlock) && SamePresence(e, b.elseBlock)
      case While(c, i, v, body) =>
        AstEqual(c, b.condition) && AstEqual(i, b.inv) && AstEqual(v, b.variant) && SamePresence(body, b.body)
  }

  /** is_node_true: the node is the boolean literal 1 (a non-NULL node is required). */
  function IsNodeTrue(n: Node): (r: bool)
    requires n != Null
    ensures r <==> n == Bool(1)
  {
    TagOf(n) == BoolNode && n.boolValue == 1
  }

  /** The tree holds no if/else and no while node, so no statement block. */
  predicate BlockFree(n: Node)
  {
    match n
    case Null => true
    case Assign(_, e) => BlockFree(e)
    case BinaryOp(_, l, r) => BlockFree(l) && BlockFree(r)
    case IfElse(_, _, _) => false
    case While(_, _, _, _) => false
    case Number(_) => true
    case Identifier(_) => true
    case Function(_, a, b) => BlockFree(a) && BlockFree(b)
    case UnaryOp(_, c) => BlockFree(c)
    case Bool(_) => true
  }

  /** Every tree equals itself, as ast_equal's pointer-identity shortcut presumes. */
  lemma {:induction false} AstEqualReflexive(a: Node)
    ensures AstEqual(a, a)
  {
    match a
    case Null =>
    case Assign(_, e) => AstEqualReflexive(e);
    case BinaryOp(_, l, r) => AstEqualReflexive(l); AstEqualReflexive(r);
    case IfElse(c, _, _) => AstEqualReflexive(c);
    case While(c, i, v, _) => AstEqualReflexive(c); AstEqualReflexive(i); AstEqualReflexive(v);
    case Number(_) =>
    case Identifier(_) =>
    case Function(_, x, y) => AstEqualReflexive(x); AstEqualReflexive(y);
    case UnaryOp(_, c) => AstEqualReflexive(c);
    case Bool(_) =>
  }

  lemma {:induction false} AstEqualSymmetric(a: Node, b: Node)
    ensures AstEqual(a, b) == AstEqual(b, a)
  {
    if a != Null && b != Null && TagOf(a) == TagOf(b) {
      match a
      case Assign(_, e) => AstEqualSymmetric(e, b.expr);
      case BinaryOp(_, l, r) => AstEqualSymmetric(l, b.left); AstEqualSymmetric(r, b.right);
      case IfElse(c, _, _) => AstEqualSymmetric(c, b.condition);
      case While(c, i, v, _) =>
        AstEqualSymmetric(c, b.condition); AstEqualSymmetric(i, b.inv); AstEqualSymmetric(v, b.variant);
      case Number(_) =>
      case Identifier(_) =>
      case Function(_, x, y) => AstEqualSymmetric(x, b.arg1); AstEqualSymmetric(y, b.arg2);
      case UnaryOp(_, c) => AstEqualSymmetric(c, b.child);
      case Bool(_) =>
    }
  }

  lemma {:induction false} AstEqualTransitive(a: Node, b: Node, c: Node)
    requires AstEqual(a, b) && AstEqual(b, c)
    ensures AstEqual(a, c)
  {
    if a != Null {
      match a
      case Assign(_, e) => AstEqualTransitive(e, b.expr, c.expr);
      case BinaryOp(_, l, r) => AstEqualTransitive(l, b.left, c.left); AstEqualTransitive(r, b.right, c.right);
      case IfElse(x, _, _) => AstEqualTransitive(x, b.condition, c.condition);
      case While(x, i, v, _) =>
        AstEqualTransitive(x, b.condition, c.condition);
        AstEqualTransitive(i, b.inv, c.inv);
        AstEqualTransitive(v, b.variant, c.variant);
      case Number(_) =>
      case Identifier(_) =>
      case Function(_, x, y) =>
        AstEqualTransitive(x, b.arg1, c.arg1);
        if b.arg2 != Null {
          AstEqualTransitive(y, b.arg2, c.arg2);
        }
      case UnaryOp(_, x) => AstEqualTransitive(x, b.child, c.child);
      case Bool(_) =>
    }
  }

  /** On trees without statement blocks the comparison is exactly equality of trees. */
  lemma {:induction false} AstEqualExact(a: Node, b: Node)
    requires BlockFree(a)
    ensures AstEqual(a, b) <==> a == b
  {
    if a == b {
      AstEqualReflexive(a);
    } else if a != Null && b != Null && TagOf(a) == TagOf(b) {
      match a
      case Assign(_, e) => AstEqualExact(e, b.expr);
      case BinaryOp(_, l, r) => AstEqualExact(l, b.left); AstEqualExact(r, b.right);
      case Number(_) =>
      case Identifier(_) =>
      case Function(_, x, y) => AstEqualExact(x, b.arg1); AstEqualExact(y, b.arg2);
      case UnaryOp(_, c) => AstEqualExact(c, b.child);
      case Bool(_) =>
    }
  }

  /**
   * Blocks are compared only for presence: two if/else nodes with the same
   * condition and present blocks compare equal whatever their statements.
   */
  lemma AstEqualIgnoresStatements(c: Node, s1: seq<Node>, s2: seq<Node>, s3: seq<Node>, s4: seq<Node>)
    ensures AstEqual(IfElse(c, Block(s1), Block(s2)), IfElse(c, Block(s3), Block(s4)))
  {
    AstEqualReflexive(c);
  }
}
