/**
 * `flatten_ast_with_structure`: a statement list becomes one sequence in
 * which a boolean operation is followed by its operands and a conditional
 * by its body, so that the aligner sees inside those two containers.
 * A conditional's test and `else` branch are not unpacked.
 */
module Flattening {
  import opened Syntax

  /**
   * The nodes the flattening can reach from `n`: `n` itself and, through a
   * boolean operation's operands or a conditional's body, what they reach.
   */
  ghost predicate Reaches(n: Node, x: Node) {
    x == n ||
    match n
    case BoolOp(_, vs) => exists v | v in vs :: Reaches(v, x)
    case If(_, body, _) => exists b | b in body :: Reaches(b, x)
    case _ => false
  }

  /** A list flattens to its elements' flattenings, in order. */
  function FlattenList(s: seq<Node>): (r: seq<Node>)
    decreases s
    ensures |r| >= |s|
  {
    if s == [] then [] else FlattenNode(s[0]) + FlattenList(s[1..])
  }

  /** A node comes first, then what its operands or its body flatten to. */
  function FlattenNode(n: Node): (r: seq<Node>)
    decreases n
    ensures |r| >= 1 && r[0] == n
    ensures !n.BoolOp? && !n.If? ==> r == [n]
  {
    [n] +
    match n
    case BoolOp(_, vs) => FlattenList(vs)
    case If(_, body, _) => FlattenList(body)
    case _ => []
  }

  /** The flattening of a list holds exactly the nodes reachable from its elements. */
  lemma {:induction false} FlattenListMembers(s: seq<Node>)
    decreases s, 1
    ensures forall x :: x in FlattenList(s) <==> exists m | m in s :: Reaches(m, x)
  {
    if s != [] {
      FlattenNodeMembers(s[0]);
      FlattenListMembers(s[1..]);
      forall x
        ensures x in FlattenList(s) <==> exists m | m in s :: Reaches(m, x)
      {
        if x in FlattenList(s[1..]) {
          var m :| m in s[1..] && Reaches(m, x);
          assert m in s;
        }
        if exists m | m in s :: Reaches(m, x) {
          var m :| m in s && Reaches(m, x);
          if m != s[0] {
            assert m in s[1..];
          }
        }
      }
    }
  }

  /** The flattening of a node holds exactly the nodes reachable from it. */
  lemma {:induction false} FlattenNodeMembers(n: Node)
    decreases n, 0
    ensures forall x :: x in FlattenNode(n) <==> Reaches(n, x)
  {
    match n
    case BoolOp(_, vs) => FlattenListMembers(vs);
    case If(_, body, _) => FlattenListMembers(body);
    case _ =>
  }

  /** Flattening distributes over concatenation of statement lists. */
  lemma {:induction false} FlattenAppend(a: seq<Node>, b: seq<Node>)
    ensures FlattenList(a + b) == FlattenList(a) + FlattenList(b)
    decreases a
  {
    if a == [] {
      assert a + b == b;
    } else {
      assert (a + b)[0] == a[0];
      assert (a + b)[1..] == a[1..] + b;
      FlattenAppend(a[1..], b);
    }
  }

  lemma {:induction false} ReachesWellFormed(n: Node, x: Node)
    requires WellFormed(n) && Reaches(n, x)
    ensures WellFormed(x)
    decreases n
  {
    if x != n {
      match n
      case BoolOp(_, vs) =>
        var v :| v in vs && Reaches(v, x);
        ReachesWellFormed(v, x);
      case If(_, body, _) =>
        var b :| b in body && Reaches(b, x);
        ReachesWellFormed(b, x);
    }
  }

  /** Flattening a well-formed statement list yields well-formed nodes only. */
  lemma FlattenWellFormed(s: seq<Node>)
    requires AllWellFormed(s)
    ensures AllWellFormed(FlattenList(s))
  {
    FlattenListMembers(s);
    forall x | x in FlattenList(s)
      ensures WellFormed(x)
    {
      var m :| m in s && Reaches(m, x);
      ReachesWellFormed(m, x);
    }
  }

  lemma {:induction false} ReachesParserShape(n: Node, x: Node)
    requires ParserShape(n) && Reaches(n, x)
    ensures ParserShape(x)
    decreases n
  {
    if x != n {
      match n
      case BoolOp(_, vs) =>
        var v :| v in vs && Reaches(v, x);
        ReachesParserShape(v, x);
      case If(_, body, _) =>
        var b :| b in body && Reaches(b, x);
        ReachesParserShape(b, x);
    }
  }

  /** Flattening statements of the parser's shape yields nodes of that shape only. */
  lemma FlattenParserShape(s: seq<Node>)
    requires AllParserShape(s)
    ensures AllParserShape(FlattenList(s))
  {
    FlattenListMembers(s);
    forall x | x in FlattenList(s)
      ensures ParserShape(x)
    {
      var m :| m in s && Reaches(m, x);
      ReachesParserShape(m, x);
    }
  }
}
