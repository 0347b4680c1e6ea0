/**
 * The first revision's syntax tree and statement block: a smaller node union
 * (no functions, unary operators or booleans; an `if` without `else`; a
 * `while` without invariant or variant) and a singly linked block.
 *
 * As in the current revision a NULL node is the constructor `LNull`, and the
 * block a node points to is held as a value.
 */
module DataStruct {
  import opened CInt

  datatype LNode =
    | LNull
    | LAssign(id: string, expr: LNode)
    | LBinaryOp(op: string, left: LNode, right: LNode)
    | LIf(condition: LNode, block: LBlock)
    | LWhile(condition: LNode, block: LBlock)
    | LNumber(number: Int32)
    | LId(name: string)

  /** The block a node points to: NULL, or its statements first to last. */
  datatype LBlock = NoList | List(stmts: seq<LNode>)

  // Each constructor allocates a node, sets its tag and stores its fields;
  // strings are copied, which for values is the string itself.

  function CreateNodeBinary(op: string, left: LNode, right: LNode): (r: LNode)
    ensures r.LBinaryOp? && r.op == op && r.left == left && r.right == right
  {
    LBinaryOp(op, left, right)
  }

  function CreateNodeNumber(num: Int32): (r: LNode)
    ensures r.LNumber? && r.number == num
  {
    LNumber(num)
  }

  function CreateNodeId(input: string): (r: LNode)
    ensures r.LId? && r.name == input
  {
    LId(input)
  }

  function CreateNodeAssign(id: string, expr: LNode): (r: LNode)
    ensures r.LAssign? && r.id == id && r.expr == expr
  {
    LAssign(id, expr)
  }

  function CreateNodeIf(condition: LNode, block: LBlock): (r: LNode)
    ensures r.LIf? && r.condition == condition && r.block == block
  {
    LIf(condition, block)
  }

  function CreateNodeWhile(condition: LNode, block: LBlock): (r: LNode)
    ensures r.LWhile? && r.condition == condition && r.block == block
  {
    LWhile(condition, block)
  }

  /** One cell of the singly linked statement list. */
  class LineCell {
    var node: LNode
    var next: LineCell?

    /** create_ll: stores the node, no successor. */
    constructor (node: LNode)
      ensures this.node == node && next == null
    {
      this.node := node;
      next := null;
    }
  }

  /**
   * A statement block: cells linked by `next` from `first` to `last`. The
   * ghost `cells` lists them in order and `Contents` their statements.
   */
  class LDll {
    var first: LineCell?
    var last: LineCell?
    var pre: LNode
    var post: LNode

    ghost var cells: seq<LineCell>
    ghost var Contents: seq<LNode>
    ghost var Repr: set<object>

    ghost predicate Valid()
      reads this, Repr
    {
      this in Repr &&
      (forall i :: 0 <= i < |cells| ==> cells[i] in Repr) &&
      |Contents| == |cells| &&
      (forall i :: 0 <= i < |cells| ==> cells[i].node == Contents[i]) &&
      (cells == [] ==> first == null && last == null) &&
      (cells != [] ==> first == cells[0] && last == cells[|cells| - 1] && last.next == null) &&
      (forall i :: 0 <= i < |cells| - 1 ==> cells[i].next == cells[i + 1]) &&
      (forall i, j :: 0 <= i < j < |cells| ==> cells[i] != cells[j])
    }

    /** create_DLL: an empty list; the pre- and postcondition are left unset, so nothing is promised about them. */
    constructor ()
      ensures Valid() && fresh(Repr)
      ensures first == null && last == null && Contents == []
    {
      first := null;
      last := null;
      cells := [];
      Contents := [];
      Repr := {this};
    }

    /** DLL_append: links a fresh cell holding `node` after `last`. */
    method Append(node: LNode)
      requires Valid()
      modifies Repr
      ensures Valid() && fresh(Repr - old(Repr))
      ensures Contents == old(Contents) + [node]
      ensures last != null && last.node == node && last.next == null && fresh(last)
      ensures old(last) == null ==> first == last
      ensures old(last) != null ==> first == old(first) && old(last).next == last
      ensures pre == old(pre) && post == old(post)
    {
      var l := new LineCell(node);
      if last == null {
        first := l;
        last := l;
      } else {
        last.next := l;
        last := l;
      }
      cells := cells + [l];
      Contents := Contents + [node];
      Repr := Repr + {l};
    }
  }
}
