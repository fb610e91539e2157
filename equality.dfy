/**
 * The "same node" predicate that drives the alignment: `node_equality` and
 * the comparison-specific `compare_Compare` it delegates to.  Python's
 * exceptions on the way (a non-name left operand, a missing assignment
 * target, the explicit raise on a malformed comparison) are `Err` results;
 * like an exception, an error aborts the comparison at the point it occurs.
 */
module Equality {
  import opened Syntax

  /** Python `==` on constant payloads: `True == 1` and `False == 0`. */
  function Numeric(v: Literal): Literal {
    match v
    case BoolLit(b) => IntLit(if b then 1 else 0)
    case _ => v
  }

  /** Python `==` on constant payloads. */
  predicate LiteralEq(a: Literal, b: Literal) {
    Numeric(a) == Numeric(b)
  }

  /**
   * Constant payloads are equal when they are the same value or when one is
   * a boolean and the other the integer it stands for.
   */
  lemma LiteralEqCases(a: Literal, b: Literal)
    ensures LiteralEq(a, b) <==>
      || a == b
      || (a.BoolLit? && b.IntLit? && b.i == (if a.b then 1 else 0))
      || (a.IntLit? && b.BoolLit? && a.i == (if b.b then 1 else 0))
  {
  }

  /** Python's short-circuit `a and b` over results: `b` counts only when `a` is `Ok(true)`. */
  function AndThen(a: Result<bool>, b: Result<bool>): Result<bool> {
    match a
    case Err(_) => a
    case Ok(x) => if x then b else Ok(false)
  }

  /** `node_equality`: nodes of different classes are unequal; otherwise the per-class rule decides. */
  function NodeEq(n1: Node, n2: Node): (r: Result<bool>)
    decreases n1, 4
    ensures KindOf(n1) != KindOf(n2) ==> r == Ok(false)
  {
    if KindOf(n1) != KindOf(n2) then Ok(false) else SameKindEq(n1, n2)
  }

  /** The per-class rules of `node_equality`. */
  function SameKindEq(n1: Node, n2: Node): Result<bool>
    requires KindOf(n1) == KindOf(n2)
    decreases n1, 3
  {
    match n1
    case BoolOp(_, _) => Ok(true)
    case While(_, _, _) => Ok(true)
    case For(_, _, _, _) => Ok(true)
    case If(test, _, _) => NodeEq(test, n2.test)
    case Name(id) => Ok(id == n2.id)
    case Constant(lit) => Ok(LiteralEq(lit, n2.constant))
    case Compare(_, _, _) => CompareEq(n1, n2)
    case Return(v) =>
      (match v
       case None => Ok(n2.returned.None?)
       case Some(e1) => if n2.returned.None? then Ok(false) else NodeEq(e1, n2.returned.value))
    case Assign(ts, v) =>
      if |ts| == 0 || |n2.targets| == 0 then Err(NoTarget)
      else
        assert ts[0] in ts && n2.targets[0] in n2.targets;
        AndThen(NodeEq(ts[0], n2.targets[0]), NodeEq(v, n2.value))
    case BinOp(l, op, rt) =>
      AndThen(NodeEq(l, n2.left), AndThen(NodeEq(rt, n2.right), Ok(op == n2.op)))
    case Other(_) => Ok(true)
  }

  /** The checks `compare_Compare` makes before it looks at the comparators. */
  predicate GuardsPass(c1: Node, c2: Node)
    requires c1.Compare? && c2.Compare?
  {
    && c1.left.Name? && c2.left.Name?
    && c1.left.id == c2.left.id
    && |c1.comparators| == |c2.comparators|
    && |c1.ops| == |c2.ops|
  }

  /** Two comparisons whose comparator and operator lists all have one length. */
  predicate SameShape(c1: Node, c2: Node) {
    && c1.Compare? && c2.Compare?
    && |c1.comparators| == |c2.comparators| == |c1.ops| == |c2.ops|
  }

  /** `compare_Compare` as a function of the two comparisons. */
  function CompareEq(c1: Node, c2: Node): Result<bool>
    requires c1.Compare? && c2.Compare?
    decreases c1, 2
  {
    if !c1.left.Name? || !c2.left.Name? then Err(LeftNotName)
    else if c1.left.id != c2.left.id then Ok(false)
    else if |c1.comparators| != |c2.comparators| then Ok(false)
    else if |c1.ops| != |c2.ops| then Ok(false)
    else if |c1.comparators| != |c1.ops| then Err(UnknownIfConstruct)
    else ComparatorsEq(c1, c2, 0)
  }

  /**
   * The comparator loop of `compare_Compare` from position `i` on: every
   * positional pair is compared (no short circuit), the first error aborts,
   * and the answer is the conjunction over all positions.
   */
  function ComparatorsEq(c1: Node, c2: Node, i: nat): (r: Result<bool>)
    requires SameShape(c1, c2) && i <= |c1.comparators|
    decreases c1, 1, |c1.comparators| - i
    ensures r.Err? <==>
      exists k :: i <= k < |c1.comparators| && NodeEq(c1.comparators[k], c2.comparators[k]).Err?
    ensures r.Err? ==>
      exists k :: i <= k < |c1.comparators| && NodeEq(c1.comparators[k], c2.comparators[k]) == r
        && forall k' :: i <= k' < k ==> NodeEq(c1.comparators[k'], c2.comparators[k']).Ok?
    ensures r.Ok? ==>
      (r.value <==> forall k :: i <= k < |c1.comparators| ==>
        NodeEq(c1.comparators[k], c2.comparators[k]) == Ok(true) && c1.ops[k] == c2.ops[k])
  {
    if i == |c1.comparators| then Ok(true)
    else
      var e := NodeEq(c1.comparators[i], c2.comparators[i]);
      if e.Err? then e
      else
        var rest := ComparatorsEq(c1, c2, i + 1);
        if rest.Err? then rest
        else Ok(e.value && c1.ops[i] == c2.ops[i] && rest.value)
  }

  /**
   * `compare_Compare` as the source runs it: the guards, then a loop with two
   * cursors that clears `areEqual` on any mismatching comparator or operator.
   * The tail checks after the loop are left out: the guards make both
   * cursors reach the end together.
   */
  method CompareCompare(c1: Node, c2: Node) returns (r: Result<bool>)
    requires c1.Compare? && c2.Compare?
    ensures r == CompareEq(c1, c2)
    ensures !c1.left.Name? || !c2.left.Name? ==> r == Err(LeftNotName)
    ensures c1.left.Name? && c2.left.Name? && !GuardsPass(c1, c2) ==> r == Ok(false)
    ensures GuardsPass(c1, c2) && |c1.comparators| != |c1.ops| ==> r == Err(UnknownIfConstruct)
    ensures GuardsPass(c1, c2) && |c1.comparators| == |c1.ops| ==>
      (r.Err? <==> exists k :: 0 <= k < |c1.comparators| && NodeEq(c1.comparators[k], c2.comparators[k]).Err?)
    ensures GuardsPass(c1, c2) && |c1.comparators| == |c1.ops| ==>
      (r == Ok(true) <==> forall k :: 0 <= k < |c1.comparators| ==>
        NodeEq(c1.comparators[k], c2.comparators[k]) == Ok(true) && c1.ops[k] == c2.ops[k])
  {
    if !c1.left.Name? || !c2.left.Name? {
      return Err(LeftNotName);
    }
    if c1.left.id != c2.left.id {
      return Ok(false);
    }
    if |c1.comparators| != |c2.comparators| {
      return Ok(false);
    }
    if |c1.ops| != |c2.ops| {
      return Ok(false);
    }
    if |c1.comparators| != |c1.ops| {
      return Err(UnknownIfConstruct);
    }
    var areEqual := true;
    var i1, i2 := 0, 0;
    while i1 < |c1.comparators| && i2 < |c2.comparators|
      invariant 0 <= i1 == i2 <= |c1.comparators|
      invariant forall k :: 0 <= k < i1 ==> NodeEq(c1.comparators[k], c2.comparators[k]).Ok?
      invariant areEqual <==> forall k :: 0 <= k < i1 ==>
        NodeEq(c1.comparators[k], c2.comparators[k]) == Ok(true) && c1.ops[k] == c2.ops[k]
    {
      var cmp1 := c1.comparators[i1];
      var cmp2 := c2.comparators[i2];
      var same := NodeEq(cmp1, cmp2);
      if same.Err? {
        ghost var whole := ComparatorsEq(c1, c2, 0);
        ghost var k :| 0 <= k < |c1.comparators| && NodeEq(c1.comparators[k], c2.comparators[k]) == whole
          && forall k' :: 0 <= k' < k ==> NodeEq(c1.comparators[k'], c2.comparators[k']).Ok?;
        assert k == i1;
        return same;
      }
      if !same.value {
        areEqual := false;
      }
      var o1 := c1.ops[i1];
      var o2 := c2.ops[i2];
      if o1 != o2 {
        areEqual := false;
      }
      i1, i2 := i1 + 1, i2 + 1;
    }
    assert ComparatorsEq(c1, c2, 0).Ok?;
    r := Ok(areEqual);
  }

  /** The per-kind behaviour of `node_equality` once the kinds agree. */
  lemma NodeEqByKind(n1: Node, n2: Node)
    ensures n1.Name? && n2.Name? ==> NodeEq(n1, n2) == Ok(n1.id == n2.id)
    ensures n1.Constant? && n2.Constant? ==> NodeEq(n1, n2) == Ok(LiteralEq(n1.constant, n2.constant))
    ensures n1.If? && n2.If? ==> NodeEq(n1, n2) == NodeEq(n1.test, n2.test)
    ensures KindOf(n1) == KindOf(n2) && (n1.BoolOp? || n1.While? || n1.For? || n1.Other?) ==>
      NodeEq(n1, n2) == Ok(true)
    ensures n1.Compare? && n2.Compare? ==> NodeEq(n1, n2) == CompareEq(n1, n2)
    ensures n1.BinOp? && n2.BinOp? ==>
      (NodeEq(n1, n2) == Ok(true) <==>
        NodeEq(n1.left, n2.left) == Ok(true) && NodeEq(n1.right, n2.right) == Ok(true) && n1.op == n2.op)
    ensures n1.Assign? && n2.Assign? && |n1.targets| > 0 && |n2.targets| > 0 ==>
      (NodeEq(n1, n2) == Ok(true) <==>
        NodeEq(n1.targets[0], n2.targets[0]) == Ok(true) && NodeEq(n1.value, n2.value) == Ok(true))
    ensures n1.Assign? && n2.Assign? && (|n1.targets| == 0 || |n2.targets| == 0) ==>
      NodeEq(n1, n2) == Err(NoTarget)
    ensures n1.Return? && n2.Return? ==>
      NodeEq(n1, n2) ==
        if n1.returned.None? || n2.returned.None? then Ok(n1.returned.None? && n2.returned.None?)
        else NodeEq(n1.returned.value, n2.returned.value)
  {
  }

  /** On well-formed trees `node_equality` never raises. */
  lemma {:induction false} NodeEqTotal(n1: Node, n2: Node)
    requires WellFormed(n1) && WellFormed(n2)
    ensures NodeEq(n1, n2).Ok?
    decreases n1
  {
    if KindOf(n1) == KindOf(n2) {
      assert NodeEq(n1, n2) == SameKindEq(n1, n2);
      match n1
      case If(t, _, _) => NodeEqTotal(t, n2.test);
      case Return(v) =>
        if v.Some? && n2.returned.Some? {
          NodeEqTotal(v.value, n2.returned.value);
        }
      case Assign(ts, v) =>
        assert ts[0] in ts && n2.targets[0] in n2.targets;
        NodeEqTotal(ts[0], n2.targets[0]);
        NodeEqTotal(v, n2.value);
      case BinOp(l, _, rt) =>
        NodeEqTotal(l, n2.left);
        NodeEqTotal(rt, n2.right);
      case Compare(_, _, _) =>
        forall k | 0 <= k < |n1.comparators| && k < |n2.comparators|
          ensures NodeEq(n1.comparators[k], n2.comparators[k]).Ok?
        {
          assert n1.comparators[k] in n1.comparators && n2.comparators[k] in n2.comparators;
          NodeEqTotal(n1.comparators[k], n2.comparators[k]);
        }
        assert SameKindEq(n1, n2) == CompareEq(n1, n2);
      case _ =>
    }
  }

  /** On well-formed trees `node_equality` never raises and every node equals itself. */
  lemma {:induction false} NodeEqReflexive(n: Node)
    requires WellFormed(n)
    ensures NodeEq(n, n) == Ok(true)
    decreases n, 1
  {
    match n
    case If(t, _, _) => NodeEqReflexive(t);
    case Return(v) =>
      if v.Some? {
        NodeEqReflexive(v.value);
      }
    case Assign(ts, v) =>
      assert ts[0] in ts;
      NodeEqReflexive(ts[0]);
      NodeEqReflexive(v);
    case BinOp(l, _, rt) =>
      NodeEqReflexive(l);
      NodeEqReflexive(rt);
    case Compare(_, _, _) =>
      NodeEqByKind(n, n);
      ComparatorsReflexive(n, 0);
    case _ =>
  }

  lemma {:induction false} ComparatorsReflexive(c: Node, i: nat)
    requires c.Compare? && WellFormed(c) && i <= |c.comparators|
    ensures SameShape(c, c) && ComparatorsEq(c, c, i) == Ok(true)
    decreases c, 0, |c.comparators| - i
  {
    if i < |c.comparators| {
      assert c.comparators[i] in c.comparators;
      NodeEqReflexive(c.comparators[i]);
      ComparatorsReflexive(c, i + 1);
    }
  }

  /** `node_equality` is symmetric, down to which error it raises. */
  lemma {:induction false} NodeEqSymmetric(a: Node, b: Node)
    ensures NodeEq(a, b) == NodeEq(b, a)
    decreases a, 1
  {
    if KindOf(a) == KindOf(b) {
      match a
      case If(t, _, _) => NodeEqSymmetric(t, b.test);
      case Return(v) =>
        if v.Some? && b.returned.Some? {
          NodeEqSymmetric(v.value, b.returned.value);
        }
      case Assign(ts, v) =>
        if |ts| > 0 && |b.targets| > 0 {
          NodeEqSymmetric(ts[0], b.targets[0]);
          NodeEqSymmetric(v, b.value);
        }
      case BinOp(l, _, rt) =>
        NodeEqSymmetric(l, b.left);
        NodeEqSymmetric(rt, b.right);
      case Compare(_, _, _) =>
        NodeEqByKind(a, b);
        NodeEqByKind(b, a);
        if GuardsPass(a, b) && |a.comparators| == |a.ops| {
          ComparatorsSymmetric(a, b, 0);
        }
      case _ =>
    }
  }

  lemma {:induction false} ComparatorsSymmetric(c1: Node, c2: Node, i: nat)
    requires SameShape(c1, c2) && i <= |c1.comparators|
    ensures SameShape(c2, c1) && ComparatorsEq(c1, c2, i) == ComparatorsEq(c2, c1, i)
    decreases c1, 0, |c1.comparators| - i
  {
    if i < |c1.comparators| {
      NodeEqSymmetric(c1.comparators[i], c2.comparators[i]);
      ComparatorsSymmetric(c1, c2, i + 1);
    }
  }

  /*
   * The comparison `compare_Compare` evidently intends.  Reading `.id` off
   * both left operands raises whenever one of them is not a name, even when
   * a comparison is compared with itself; the corrected comparison compares
   * the left operands with node equality, as it does the comparators.
   * Every other rule is the one `node_equality` applies.
   */

  /** `node_equality` with the corrected comparison rule. */
  function CorrectedNodeEq(n1: Node, n2: Node): (r: Result<bool>)
    decreases n1, 4
    ensures KindOf(n1) != KindOf(n2) ==> r == Ok(false)
  {
    if KindOf(n1) != KindOf(n2) then Ok(false) else CorrectedSameKindEq(n1, n2)
  }

  function CorrectedSameKindEq(n1: Node, n2: Node): Result<bool>
    requires KindOf(n1) == KindOf(n2)
    decreases n1, 3
  {
    match n1
    case BoolOp(_, _) => Ok(true)
    case While(_, _, _) => Ok(true)
    case For(_, _, _, _) => Ok(true)
    case If(test, _, _) => CorrectedNodeEq(test, n2.test)
    case Name(id) => Ok(id == n2.id)
    case Constant(lit) => Ok(LiteralEq(lit, n2.constant))
    case Compare(_, _, _) => CorrectedCompareEq(n1, n2)
    case Return(v) =>
      (match v
       case None => Ok(n2.returned.None?)
       case Some(e1) => if n2.returned.None? then Ok(false) else CorrectedNodeEq(e1, n2.returned.value))
    case Assign(ts, v) =>
      if |ts| == 0 || |n2.targets| == 0 then Err(NoTarget)
      else
        assert ts[0] in ts && n2.targets[0] in n2.targets;
        AndThen(CorrectedNodeEq(ts[0], n2.targets[0]), CorrectedNodeEq(v, n2.value))
    case BinOp(l, op, rt) =>
      AndThen(CorrectedNodeEq(l, n2.left), AndThen(CorrectedNodeEq(rt, n2.right), Ok(op == n2.op)))
    case Other(_) => Ok(true)
  }

  /** `compare_Compare` with the left operands compared as nodes; the other checks are unchanged. */
  function CorrectedCompareEq(c1: Node, c2: Node): Result<bool>
    requires c1.Compare? && c2.Compare?
    decreases c1, 2
  {
    AndThen(CorrectedNodeEq(c1.left, c2.left),
      if |c1.comparators| != |c2.comparators| || |c1.ops| != |c2.ops| then Ok(false)
      else if |c1.comparators| != |c1.ops| then Err(UnknownIfConstruct)
      else CorrectedComparatorsEq(c1, c2, 0))
  }

  function CorrectedComparatorsEq(c1: Node, c2: Node, i: nat): Result<bool>
    requires SameShape(c1, c2) && i <= |c1.comparators|
    decreases c1, 1, |c1.comparators| - i
  {
    if i == |c1.comparators| then Ok(true)
    else
      var e := CorrectedNodeEq(c1.comparators[i], c2.comparators[i]);
      if e.Err? then e
      else
        var rest := CorrectedComparatorsEq(c1, c2, i + 1);
        if rest.Err? then rest
        else Ok(e.value && c1.ops[i] == c2.ops[i] && rest.value)
  }

  /** Where the code as written does not raise for a left operand, the correction changes no answer. */
  lemma {:induction false} CorrectionAgrees(n1: Node, n2: Node)
    requires WellFormed(n1) && WellFormed(n2)
    ensures CorrectedNodeEq(n1, n2) == NodeEq(n1, n2)
    decreases n1, 1
  {
    if KindOf(n1) == KindOf(n2) {
      match n1
      case If(t, _, _) => CorrectionAgrees(t, n2.test);
      case Return(v) =>
        if v.Some? && n2.returned.Some? {
          CorrectionAgrees(v.value, n2.returned.value);
        }
      case Assign(ts, v) =>
        assert ts[0] in ts && n2.targets[0] in n2.targets;
        CorrectionAgrees(ts[0], n2.targets[0]);
        CorrectionAgrees(v, n2.value);
      case BinOp(l, _, rt) =>
        CorrectionAgrees(l, n2.left);
        CorrectionAgrees(rt, n2.right);
      case Compare(_, _, _) =>
        assert CorrectedNodeEq(n1, n2) == CorrectedCompareEq(n1, n2);
        assert CorrectedNodeEq(n1.left, n2.left) == Ok(n1.left.id == n2.left.id);
        NodeEqByKind(n1, n2);
        if GuardsPass(n1, n2) {
          CorrectedComparatorsAgree(n1, n2, 0);
        }
      case _ =>
    }
  }

  lemma {:induction false} CorrectedComparatorsAgree(c1: Node, c2: Node, i: nat)
    requires SameShape(c1, c2) && WellFormed(c1) && WellFormed(c2) && i <= |c1.comparators|
    ensures CorrectedComparatorsEq(c1, c2, i) == ComparatorsEq(c1, c2, i)
    decreases c1, 0, |c1.comparators| - i
  {
    if i < |c1.comparators| {
      assert c1.comparators[i] in c1.comparators && c2.comparators[i] in c2.comparators;
      CorrectionAgrees(c1.comparators[i], c2.comparators[i]);
      CorrectedComparatorsAgree(c1, c2, i + 1);
    }
  }

  /** On trees of the parser's shape the corrected comparison never raises. */
  lemma {:induction false} CorrectedNodeEqTotal(n1: Node, n2: Node)
    requires ParserShape(n1) && ParserShape(n2)
    ensures CorrectedNodeEq(n1, n2).Ok?
    decreases n1, 1
  {
    if KindOf(n1) == KindOf(n2) {
      match n1
      case If(t, _, _) => CorrectedNodeEqTotal(t, n2.test);
      case Return(v) =>
        if v.Some? && n2.returned.Some? {
          CorrectedNodeEqTotal(v.value, n2.returned.value);
        }
      case Assign(ts, v) =>
        CorrectedNodeEqTotal(ts[0], n2.targets[0]);
        CorrectedNodeEqTotal(v, n2.value);
      case BinOp(l, _, rt) =>
        CorrectedNodeEqTotal(l, n2.left);
        CorrectedNodeEqTotal(rt, n2.right);
      case Compare(l, _, _) =>
        assert CorrectedNodeEq(n1, n2) == CorrectedCompareEq(n1, n2);
        CorrectedNodeEqTotal(l, n2.left);
        if |n1.comparators| == |n2.comparators| && |n1.ops| == |n2.ops| {
          CorrectedComparatorsTotal(n1, n2, 0);
        }
      case _ =>
    }
  }

  lemma {:induction false} CorrectedComparatorsTotal(c1: Node, c2: Node, i: nat)
    requires SameShape(c1, c2) && ParserShape(c1) && ParserShape(c2) && i <= |c1.comparators|
    ensures CorrectedComparatorsEq(c1, c2, i).Ok?
    decreases c1, 0, |c1.comparators| - i
  {
    if i < |c1.comparators| {
      assert c1.comparators[i] in c1.comparators && c2.comparators[i] in c2.comparators;
      CorrectedNodeEqTotal(c1.comparators[i], c2.comparators[i]);
      CorrectedComparatorsTotal(c1, c2, i + 1);
    }
  }

  /** On trees of the parser's shape every node equals itself under the corrected comparison. */
  lemma {:induction false} CorrectedNodeEqReflexive(n: Node)
    requires ParserShape(n)
    ensures CorrectedNodeEq(n, n) == Ok(true)
    decreases n, 1
  {
    match n
    case If(t, _, _) => CorrectedNodeEqReflexive(t);
    case Return(v) =>
      if v.Some? {
        CorrectedNodeEqReflexive(v.value);
      }
    case Assign(ts, v) =>
      CorrectedNodeEqReflexive(ts[0]);
      CorrectedNodeEqReflexive(v);
    case BinOp(l, _, rt) =>
      CorrectedNodeEqReflexive(l);
      CorrectedNodeEqReflexive(rt);
    case Compare(l, _, _) =>
      assert CorrectedNodeEq(n, n) == CorrectedCompareEq(n, n);
      CorrectedNodeEqReflexive(l);
      CorrectedComparatorsReflexive(n, 0);
    case _ =>
  }

  lemma {:induction false} CorrectedComparatorsReflexive(c: Node, i: nat)
    requires c.Compare? && ParserShape(c) && i <= |c.comparators|
    ensures SameShape(c, c) && CorrectedComparatorsEq(c, c, i) == Ok(true)
    decreases c, 0, |c.comparators| - i
  {
    if i < |c.comparators| {
      assert c.comparators[i] in c.comparators;
      CorrectedNodeEqReflexive(c.comparators[i]);
      CorrectedComparatorsReflexive(c, i + 1);
    }
  }
}
