/**
 * The abstract syntax tree shared by programs and formulas, its constructors,
 * and the doubly linked statement block.
 *
 * A C `ASTNode*` becomes a `Node`; the NULL pointer is the constructor `Null`,
 * so every child that the C code may leave NULL is simply a `Node`. A `DLL*`
 * held by an if/else or while node becomes a `Block`, whose `NoBlock` is the
 * NULL block pointer. Trees are values: the C code never mutates a tree after
 * building it, it always builds a fresh one.
 */
module Ast {
  import opened CInt

  /** The variant tags of the C `ASTNode` union. */
  datatype NodeType =
    | AssignNode | BinOpNode | IfElseNode | WhileNode | NumberNode
    | IdNode | FunctionNode | UnaryOpNode | BoolNode

  datatype Node =
    | Null
    | Assign(id: string, expr: Node)
    | BinaryOp(op: string, left: Node, right: Node)
    | IfElse(condition: Node, thenBlock: Block, elseBlock: Block)
    | While(condition: Node, inv: Node, variant: Node, body: Block)
    | Number(number: Int32)
    | Identifier(name: string)
    | Function(fname: string, arg1: Node, arg2: Node)
    | UnaryOp(op: string, child: Node)
    | Bool(boolValue: Int32)

  /** A statement block as the nodes hold it: absent, or its statements first to last. */
  datatype Block = NoBlock | Block(stmts: seq<Node>)

  function TagOf(n: Node): NodeType
    requires n != Null
  {
    match n
    case Assign(_, _) => AssignNode
    case BinaryOp(_, _, _) => BinOpNode
    case IfElse(_, _, _) => IfElseNode
    case While(_, _, _, _) => WhileNode
    case Number(_) => NumberNode
    case Identifier(_) => IdNode
    case Function(_, _, _) => FunctionNode
    case UnaryOp(_, _) => UnaryOpNode
    case Bool(_) => BoolNode
  }

  /** All payload of `n` is zero: children and blocks NULL, numbers 0, strings empty. */
  predicate Zeroed(n: Node)
  {
    match n
    case Null => true
    case Assign(id, e) => id == "" && e == Null
    case BinaryOp(op, l, r) => op == "" && l == Null && r == Null
    case IfElse(c, t, e) => c == Null && t == NoBlock && e == NoBlock
    case While(c, i, v, b) => c == Null && i == Null && v == Null && b == NoBlock
    case Number(k) => k == 0
    case Identifier(x) => x == ""
    case Function(f, a, b) => f == "" && a == Null && b == Null
    case UnaryOp(op, c) => op == "" && c == Null
    case Bool(v) => v == 0
  }

  /** A freshly allocated, zero-filled node carrying the requested tag. */
  function AllocNode(tag: NodeType): (r: Node)
    ensures r != Null && TagOf(r) == tag && Zeroed(r)
  {
    match tag
    case AssignNode => Assign("", Null)
    case BinOpNode => BinaryOp("", Null, Null)
    case IfElseNode => IfElse(Null, NoBlock, NoBlock)
    case WhileNode => While(Null, Null, Null, NoBlock)
    case NumberNode => Number(0)
    case IdNode => Identifier("")
    case FunctionNode => Function("", Null, Null)
    case UnaryOpNode => UnaryOp("", Null)
    case BoolNode => Bool(0)
  }

  // Each constructor allocates a zeroed node of its tag and stores its arguments;
  // strings are copied, which for values is the string itself.

  function CreateNodeBinary(op: string, left: Node, right: Node): (r: Node)
    ensures r.BinaryOp? && TagOf(r) == BinOpNode && r.op == op && r.left == left && r.right == right
  {
    var n := AllocNode(BinOpNode);
    assert n.BinaryOp?;
    n.(op := op, left := left, right := right)
  }

  function CreateNodeUnary(op: string, child: Node): (r: Node)
    ensures r.UnaryOp? && TagOf(r) == UnaryOpNode && r.op == op && r.child == child
  {
    var n := AllocNode(UnaryOpNode);
    assert n.UnaryOp?;
    n.(op := op, child := child)
  }

  function CreateNodeNumber(num: Int32): (r: Node)
    ensures r.Number? && TagOf(r) == NumberNode && r.number == num
  {
    var n := AllocNode(NumberNode);
    assert n.Number?;
    n.(number := num)
  }

  function CreateNodeId(input: string): (r: Node)
    ensures r.Identifier? && TagOf(r) == IdNode && r.name == input
  {
    var n := AllocNode(IdNode);
    assert n.Identifier?;
    n.(name := input)
  }

  function CreateNodeAssign(id: string, expr: Node): (r: Node)
    ensures r.Assign? && TagOf(r) == AssignNode && r.id == id && r.expr == expr
  {
    var n := AllocNode(AssignNode);
    assert n.Assign?;
    n.(id := id, expr := expr)
  }

  function CreateNodeIfElse(condition: Node, blockIf: Block, blockElse: Block): (r: Node)
    ensures r.IfElse? && TagOf(r) == IfElseNode && r.condition == condition
    ensures r.thenBlock == blockIf && r.elseBlock == blockElse
  {
    var n := AllocNode(IfElseNode);
    assert n.IfElse?;
    n.(condition := condition, thenBlock := blockIf, elseBlock := blockElse)
  }

  function CreateNodeWhile(condition: Node, block: Block, inv: Node, variant: Node): (r: Node)
    ensures r.While? && TagOf(r) == WhileNode && r.condition == condition && r.body == block
    ensures r.inv == inv && r.variant == variant
  {
    var n := AllocNode(WhileNode);
    assert n.While?;
    n.(condition := condition, body := block, inv := inv, variant := variant)
  }

  function CreateNodeFunc(name: string, a1: Node, a2: Node): (r: Node)
    ensures r.Function? && TagOf(r) == FunctionNode && r.fname == name && r.arg1 == a1 && r.arg2 == a2
  {
    var n := AllocNode(FunctionNode);
    assert n.Function?;
    n.(fname := name, arg1 := a1, arg2 := a2)
  }

  function CreateNodeBool(value: Int32): (r: Node)
    ensures r.Bool? && TagOf(r) == BoolNode && r.boolValue == value
  {
    var n := AllocNode(BoolNode);
    assert n.Bool?;
    n.(boolValue := value)
  }

  /** One cell of a statement list: the statement and its two neighbours. */
  class Cell {
    var node: Node
    var next: Cell?
    var prec: Cell?

    constructor (node: Node)
      ensures this.node == node && next == null && prec == null
    {
      this.node := node;
      next := null;
      prec := null;
    }
  }

  /**
   * A statement block: a doubly linked list of cells from `first` to `last`,
   * with an optional pre- and postcondition. The ghost `cells` lists the cells
   * in order and `Contents` their statements.
   */
  class Dll {
    var first: Cell?
    var last: Cell?
    var pre: Node
    var post: Node

    ghost var cells: seq<Cell>
    ghost var Contents: seq<Node>
    ghost var Repr: set<object>

    ghost predicate Valid()
      reads this, Repr
    {
      this in Repr &&
      (forall i :: 0 <= i < |cells| ==> cells[i] in Repr) &&
      |Contents| == |cells| &&
      (forall i :: 0 <= i < |cells| ==> cells[i].node == Contents[i]) &&
      (cells == [] ==> first == null && last == null) &&
      (cells != [] ==>
        first == cells[0] && last == cells[|cells| - 1] &&
        cells[0].prec == null && cells[|cells| - 1].next == null) &&
      (forall i :: 0 <= i < |cells| - 1 ==> cells[i].next == cells[i + 1] && cells[i + 1].prec == cells[i]) &&
      (forall i, j :: 0 <= i < j < |cells| ==> cells[i] != cells[j])
    }

    constructor ()
      ensures Valid() && fresh(Repr)
      ensures first == null && last == null && pre == Null && post == Null
      ensures Contents == []
    {
      first := null;
      last := null;
      pre := Null;
      post := Null;
      cells := [];
      Contents := [];
      Repr := {this};
    }

    /** Links a fresh cell holding `node` after `last`. */
    method Append(node: Node)
      requires Valid()
      modifies Repr
      ensures Valid() && fresh(Repr - old(Repr))
      ensures Contents == old(Contents) + [node]
      ensures last != null && last.node == node && last.next == null && fresh(last)
      ensures old(last) == null ==> first == last && last.prec == null
      ensures old(last) != null ==> first == old(first) && old(last).next == last && last.prec == old(last)
      ensures pre == old(pre) && post == old(post)
    {
      var l := new Cell(node);
      if last == null {
        first := l;
        last := l;
      } else {
        last.next := l;
        l.prec := last;
        last := l;
      }
      cells := cells + [l];
      Contents := Contents + [node];
      Repr := Repr + {l};
    }
  }
}
