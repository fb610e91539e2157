/**
 * The syntax trees the diff engine reads. They are the output of Python's
 * own parser, restricted to the node classes the engine treats specially;
 * every other statement or expression class is an `Other` node that carries
 * only its class name.
 */
module Syntax {

  datatype Option<+T> = None | Some(value: T)

  /** The three ways a comparison can crash in the original program. */
  datatype Error =
    | LeftNotName          // `c.left.id` on a comparison whose left operand is not a Name (AttributeError)
    | NoTarget             // `targets[0]` on an assignment without targets (IndexError)
    | UnknownIfConstruct   // a comparison with different numbers of comparators and operators (explicit raise)

  datatype Result<+T> = Ok(value: T) | Err(error: Error)

  /** Constant payloads: integers, booleans, strings and None. */
  datatype Literal = IntLit(i: int) | BoolLit(b: bool) | StrLit(s: string) | NoneLit

  datatype BinOperator =
    | Add | Sub | Mult | MatMult | Div | Mod | Pow | LShift | RShift | BitOr | BitXor | BitAnd | FloorDiv

  datatype CmpOperator = Eq | NotEq | Lt | LtE | Gt | GtE | Is | IsNot | In | NotIn

  datatype BoolOperator = And | Or

  datatype Node =
    | Name(id: string)
    | Constant(constant: Literal)
    | BinOp(left: Node, op: BinOperator, right: Node)
    | Compare(left: Node, ops: seq<CmpOperator>, comparators: seq<Node>)
    | BoolOp(boolOp: BoolOperator, values: seq<Node>)
    | Assign(targets: seq<Node>, value: Node)
    | Return(returned: Option<Node>)
    | If(test: Node, body: seq<Node>, orelse: seq<Node>)
    | While(test: Node, body: seq<Node>, orelse: seq<Node>)
    | For(target: Node, iter: Node, body: seq<Node>, orelse: seq<Node>)
    | Other(className: string)

  /** The Python class of a node: what `type(node)` yields. */
  datatype Kind =
    | KName | KConstant | KBinOp | KCompare | KBoolOp | KAssign | KReturn | KIf | KWhile | KFor
    | KOther(className: string)

  function KindOf(n: Node): Kind {
    match n
    case Name(_) => KName
    case Constant(_) => KConstant
    case BinOp(_, _, _) => KBinOp
    case Compare(_, _, _) => KCompare
    case BoolOp(_, _) => KBoolOp
    case Assign(_, _) => KAssign
    case Return(_) => KReturn
    case If(_, _, _) => KIf
    case While(_, _, _) => KWhile
    case For(_, _, _, _) => KFor
    case Other(c) => KOther(c)
  }

  /** Two nodes have the same kind exactly when they are of the same class. */
  lemma KindOfIsClass(a: Node, b: Node)
    ensures KindOf(a) == KindOf(b) <==>
      || (a.Name? && b.Name?) || (a.Constant? && b.Constant?) || (a.BinOp? && b.BinOp?)
      || (a.Compare? && b.Compare?) || (a.BoolOp? && b.BoolOp?) || (a.Assign? && b.Assign?)
      || (a.Return? && b.Return?) || (a.If? && b.If?) || (a.While? && b.While?) || (a.For? && b.For?)
      || (a.Other? && b.Other? && a.className == b.className)
  {
  }

  /**
   * What the comparison relies on without checking, in the parts of a tree
   * that `node_equality` and the flattening look at: a comparison's left
   * operand is a name and it has one operator per comparator, an assignment
   * has a target.  The parser guarantees the last two but not the first
   * (`len(x) > 0` has a call on the left).  A conditional's `else` branch,
   * a loop's test and body and the further targets of an assignment are
   * never looked at, so nothing is asked of them.
   */
  ghost predicate WellFormed(n: Node) {
    match n
    case Name(_) => true
    case Constant(_) => true
    case Other(_) => true
    case BinOp(l, _, r) => WellFormed(l) && WellFormed(r)
    case Compare(l, ops, cs) =>
      l.Name? && |ops| == |cs| && forall c | c in cs :: WellFormed(c)
    case BoolOp(_, vs) => forall v | v in vs :: WellFormed(v)
    case Assign(ts, v) => |ts| > 0 && WellFormed(ts[0]) && WellFormed(v)
    case Return(v) => v.None? || WellFormed(v.value)
    case If(t, body, _) => WellFormed(t) && forall s | s in body :: WellFormed(s)
    case While(_, _, _) => true
    case For(_, _, _, _) => true
  }

  ghost predicate AllWellFormed(s: seq<Node>) {
    forall n | n in s :: WellFormed(n)
  }

  /**
   * What Python's parser guarantees, in the same parts of a tree: a
   * comparison has one operator per comparator and an assignment has a
   * target.  Unlike `WellFormed`, any node may stand left of a comparison.
   */
  ghost predicate ParserShape(n: Node) {
    match n
    case Name(_) => true
    case Constant(_) => true
    case Other(_) => true
    case BinOp(l, _, r) => ParserShape(l) && ParserShape(r)
    case Compare(l, ops, cs) =>
      ParserShape(l) && |ops| == |cs| && forall c | c in cs :: ParserShape(c)
    case BoolOp(_, vs) => forall v | v in vs :: ParserShape(v)
    case Assign(ts, v) => |ts| > 0 && ParserShape(ts[0]) && ParserShape(v)
    case Return(v) => v.None? || ParserShape(v.value)
    case If(t, body, _) => ParserShape(t) && forall s | s in body :: ParserShape(s)
    case While(_, _, _) => true
    case For(_, _, _, _) => true
  }

  ghost predicate AllParserShape(s: seq<Node>) {
    forall n | n in s :: ParserShape(n)
  }
}
