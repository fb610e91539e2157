/**
 * `compare_stmtlist_lcs` with its record type `Diff` and `record_diff`:
 * flatten both statement lists, align them, and append one deletion per
 * unmatched element of the first and one addition per unmatched element of
 * the second, skipping boolean operations (they are only containers).
 * The list of records belongs to the caller and is only appended to.
 */
module Diffing {
  import opened Syntax
  import opened Equality
  import opened Flattening
  import opened Alignment

  datatype ModType = Addition | Deletion

  /** A diff record: the kind of change, the node on the first side and the node on the second. */
  datatype Diff = Diff(modType: ModType, expression1: Option<Node>, expression2: Option<Node>)

  /** The caller's list of records. */
  class DiffList {
    var items: seq<Diff>

    constructor ()
      ensures items == []
    {
      items := [];
    }
  }

  /** `record_diff`: append one record. */
  method RecordDiff(diffs: DiffList, stmt1: Option<Node>, stmt2: Option<Node>, modType: ModType)
    modifies diffs
    ensures diffs.items == old(diffs.items) + [Diff(modType, stmt1, stmt2)]
  {
    diffs.items := diffs.items + [Diff(modType, stmt1, stmt2)];
  }

  /** Positions of the first sequence that some anchor uses. */
  function FirstsOf(anchors: seq<Anchor>): set<nat> {
    set k | 0 <= k < |anchors| :: anchors[k].0
  }

  /** Positions of the second sequence that some anchor uses. */
  function SecondsOf(anchors: seq<Anchor>): set<nat> {
    set k | 0 <= k < |anchors| :: anchors[k].1
  }

  /** A deletion carries only the first side's node, an addition only the second side's. */
  function Record(modType: ModType, node: Node): (d: Diff)
    ensures d.modType == modType
    ensures modType == Deletion ==> d.expression1 == Some(node) && d.expression2 == None
    ensures modType == Addition ==> d.expression1 == None && d.expression2 == Some(node)
  {
    match modType
    case Deletion => Diff(Deletion, Some(node), None)
    case Addition => Diff(Addition, None, Some(node))
  }

  /** An element the recording loops report: not a boolean operation and not anchored. */
  predicate Reported(flat: seq<Node>, matched: set<nat>, idx: nat)
    requires idx < |flat|
  {
    !flat[idx].BoolOp? && idx !in matched
  }

  /** What one recording loop appends after visiting the first `k` elements of `flat`. */
  function Unmatched(modType: ModType, flat: seq<Node>, matched: set<nat>, k: nat): seq<Diff>
    requires k <= |flat|
  {
    if k == 0 then []
    else
      Unmatched(modType, flat, matched, k - 1)
      + (if Reported(flat, matched, k - 1) then [Record(modType, flat[k - 1])] else [])
  }

  /** The reported positions among the first `k`, in increasing order. */
  function UnmatchedIndices(flat: seq<Node>, matched: set<nat>, k: nat): (r: seq<nat>)
    requires k <= |flat|
    ensures forall p :: 0 <= p < |r| ==> r[p] < k && Reported(flat, matched, r[p])
    ensures forall p, q :: 0 <= p < q < |r| ==> r[p] < r[q]
    ensures forall idx :: 0 <= idx < k && Reported(flat, matched, idx) ==> idx in r
  {
    if k == 0 then []
    else
      UnmatchedIndices(flat, matched, k - 1)
      + (if Reported(flat, matched, k - 1) then [k - 1] else [])
  }

  /**
   * A recording loop appends exactly one record per reported position, in
   * flattened order, and nothing else.
   */
  lemma {:induction false} UnmatchedExact(modType: ModType, flat: seq<Node>, matched: set<nat>, k: nat)
    requires k <= |flat|
    ensures |Unmatched(modType, flat, matched, k)| == |UnmatchedIndices(flat, matched, k)|
    ensures forall p :: 0 <= p < |Unmatched(modType, flat, matched, k)| ==>
      Unmatched(modType, flat, matched, k)[p] == Record(modType, flat[UnmatchedIndices(flat, matched, k)[p]])
  {
    if k > 0 {
      UnmatchedExact(modType, flat, matched, k - 1);
    }
  }

  /*
   * The records of one comparison, for a node comparison `eq`:
   * `compare_stmtlist_lcs` aligns with `NodeEq`, and the corrected
   * comparison `CorrectedNodeEq` gives the records the code evidently intends.
   */

  /** The anchors `lcs_flattened` returns for the two flattened lists. */
  function AnchorsOf(eq: (Node, Node) -> Result<bool>, slist1: seq<Node>, slist2: seq<Node>): seq<Anchor> {
    Backtrack(eq, FlattenList(slist1), FlattenList(slist2), |FlattenList(slist1)|, |FlattenList(slist2)|)
  }

  /** The deletions the first recording loop appends. */
  function DeletionsOf(eq: (Node, Node) -> Result<bool>, slist1: seq<Node>, slist2: seq<Node>): seq<Diff> {
    Unmatched(Deletion, FlattenList(slist1), FirstsOf(AnchorsOf(eq, slist1, slist2)), |FlattenList(slist1)|)
  }

  /** The additions the second recording loop appends. */
  function AdditionsOf(eq: (Node, Node) -> Result<bool>, slist1: seq<Node>, slist2: seq<Node>): seq<Diff> {
    Unmatched(Addition, FlattenList(slist2), SecondsOf(AnchorsOf(eq, slist1, slist2)), |FlattenList(slist2)|)
  }

  /** The records one comparison appends: all deletions, then all additions. */
  function RecordedDiffs(eq: (Node, Node) -> Result<bool>, slist1: seq<Node>, slist2: seq<Node>): seq<Diff> {
    DeletionsOf(eq, slist1, slist2) + AdditionsOf(eq, slist1, slist2)
  }

  /**
   * The shape of the records: every deletion carries a node of the first
   * side only, every addition a node of the second side only.
   */
  lemma RecordedDiffsShape(eq: (Node, Node) -> Result<bool>, slist1: seq<Node>, slist2: seq<Node>)
    ensures forall d | d in DeletionsOf(eq, slist1, slist2) ::
      d.modType == Deletion && d.expression1.Some? && d.expression2.None? && d.expression1.value in FlattenList(slist1)
    ensures forall d | d in AdditionsOf(eq, slist1, slist2) ::
      d.modType == Addition && d.expression1.None? && d.expression2.Some? && d.expression2.value in FlattenList(slist2)
  {
    var flat1, flat2 := FlattenList(slist1), FlattenList(slist2);
    var anchors := AnchorsOf(eq, slist1, slist2);
    UnmatchedMembers(Deletion, flat1, FirstsOf(anchors), |flat1|);
    UnmatchedMembers(Addition, flat2, SecondsOf(anchors), |flat2|);
  }

  /** Each record of a loop is built from an element of the sequence it walks. */
  lemma {:induction false} UnmatchedMembers(modType: ModType, flat: seq<Node>, matched: set<nat>, k: nat)
    requires k <= |flat|
    ensures forall d | d in Unmatched(modType, flat, matched, k) ::
      exists idx :: 0 <= idx < k && Reported(flat, matched, idx) && d == Record(modType, flat[idx])
  {
    if k > 0 {
      UnmatchedMembers(modType, flat, matched, k - 1);
    }
  }

  /** When every position below `k` is anchored, the loop reports nothing. */
  lemma {:induction false} UnmatchedNone(modType: ModType, flat: seq<Node>, matched: set<nat>, k: nat)
    requires k <= |flat|
    requires forall idx :: 0 <= idx < k ==> idx in matched
    ensures Unmatched(modType, flat, matched, k) == []
  {
    if k > 0 {
      UnmatchedNone(modType, flat, matched, k - 1);
    }
  }

  /** Anchors on the whole diagonal, largest first, use every position on both sides. */
  lemma DiagonalCoversAll(anchors: seq<Anchor>, n: nat)
    requires |anchors| == n
    requires forall p :: 0 <= p < n ==> anchors[p] == (n - 1 - p, n - 1 - p)
    ensures forall k :: 0 <= k < n ==> k in FirstsOf(anchors) && k in SecondsOf(anchors)
  {
    forall k | 0 <= k < n
      ensures k in FirstsOf(anchors) && k in SecondsOf(anchors)
    {
      assert anchors[n - 1 - k] == (k, k);
    }
  }

  /** With anchors on the whole diagonal, both recording loops report nothing. */
  lemma DiagonalRecordsNothing(anchors: seq<Anchor>, flat1: seq<Node>, flat2: seq<Node>)
    requires |anchors| == |flat1| == |flat2|
    requires forall p :: 0 <= p < |anchors| ==> anchors[p] == (|anchors| - 1 - p, |anchors| - 1 - p)
    ensures Unmatched(Deletion, flat1, FirstsOf(anchors), |flat1|) == []
    ensures Unmatched(Addition, flat2, SecondsOf(anchors), |flat2|) == []
  {
    DiagonalCoversAll(anchors, |anchors|);
    UnmatchedNone(Deletion, flat1, FirstsOf(anchors), |flat1|);
    UnmatchedNone(Addition, flat2, SecondsOf(anchors), |flat2|);
  }

  /** Well-formed nodes never make `node_equality` raise. */
  lemma WellFormedComparable(xs: seq<Node>, ys: seq<Node>)
    requires AllWellFormed(xs) && AllWellFormed(ys)
    ensures AllComparable(NodeEq, xs, ys)
  {
    forall a, b | 0 <= a < |xs| && 0 <= b < |ys|
      ensures NodeEq(xs[a], ys[b]).Ok?
    {
      assert xs[a] in xs && ys[b] in ys;
      NodeEqTotal(xs[a], ys[b]);
    }
  }

  /** Whatever the comparison, flattenings that match position by position record nothing. */
  lemma DiagonalAlignmentRecordsNothing(eq: (Node, Node) -> Result<bool>, slist1: seq<Node>, slist2: seq<Node>)
    requires |FlattenList(slist1)| == |FlattenList(slist2)|
    requires forall k :: 0 <= k < |FlattenList(slist1)| ==> Matches(eq, FlattenList(slist1)[k], FlattenList(slist2)[k])
    ensures RecordedDiffs(eq, slist1, slist2) == []
  {
    var flat1, flat2 := FlattenList(slist1), FlattenList(slist2);
    var anchors := AnchorsOf(eq, slist1, slist2);
    assert anchors == Backtrack(eq, flat1, flat2, |flat1|, |flat1|);
    BacktrackDiagonal(eq, flat1, flat2, |flat1|);
    DiagonalRecordsNothing(anchors, flat1, flat2);
  }

  /**
   * Two well-formed statement lists whose flattenings match position by
   * position: the comparison cannot raise and records nothing.
   */
  lemma PointwiseMatchRecordsNothing(slist1: seq<Node>, slist2: seq<Node>)
    requires AllWellFormed(slist1) && AllWellFormed(slist2)
    requires |FlattenList(slist1)| == |FlattenList(slist2)|
    requires forall k :: 0 <= k < |FlattenList(slist1)| ==> Matches(NodeEq, FlattenList(slist1)[k], FlattenList(slist2)[k])
    ensures AllComparable(NodeEq, FlattenList(slist1), FlattenList(slist2))
    ensures RecordedDiffs(NodeEq, slist1, slist2) == []
  {
    FlattenWellFormed(slist1);
    FlattenWellFormed(slist2);
    WellFormedComparable(FlattenList(slist1), FlattenList(slist2));
    DiagonalAlignmentRecordsNothing(NodeEq, slist1, slist2);
  }

  /**
   * Comparing a well-formed statement list with itself cannot raise and
   * records nothing.
   */
  lemma SelfComparisonRecordsNothing(slist: seq<Node>)
    requires AllWellFormed(slist)
    ensures AllComparable(NodeEq, FlattenList(slist), FlattenList(slist))
    ensures RecordedDiffs(NodeEq, slist, slist) == []
  {
    var flat := FlattenList(slist);
    FlattenWellFormed(slist);
    forall k | 0 <= k < |flat|
      ensures Matches(NodeEq, flat[k], flat[k])
    {
      assert flat[k] in flat;
      NodeEqReflexive(flat[k]);
    }
    PointwiseMatchRecordsNothing(slist, slist);
  }

  /**
   * The parser puts a call on the left of `len(x) > 0`, and comparing such a
   * comparison even with itself raises: the statement list
   * `if len(x) > 0: pass`, compared with itself, ends in an error instead of
   * in equality with nothing recorded.
   */
  lemma SelfComparisonCanRaise()
    ensures var c := If(Compare(Other("Call"), [Gt], [Constant(IntLit(0))]), [Other("Pass")], []);
      && NodeEq(c, c) == Err(LeftNotName)
      && !AllComparable(NodeEq, FlattenList([c]), FlattenList([c]))
      && ParserShape(c) && !WellFormed(c)
  {
    var c := If(Compare(Other("Call"), [Gt], [Constant(IntLit(0))]), [Other("Pass")], []);
    assert FlattenList([c])[0] == c;
    assert c.body[0] == Other("Pass");
  }

  /**
   * With the corrected comparison, any statement list the parser can
   * produce compares with itself without error and records nothing; this
   * covers `if len(x) > 0: pass`, on which `SelfComparisonCanRaise` shows
   * the code as written raise.
   */
  lemma CorrectedSelfComparisonRecordsNothing(slist: seq<Node>)
    requires AllParserShape(slist)
    ensures AllComparable(CorrectedNodeEq, FlattenList(slist), FlattenList(slist))
    ensures RecordedDiffs(CorrectedNodeEq, slist, slist) == []
  {
    var flat := FlattenList(slist);
    FlattenParserShape(slist);
    forall a, b | 0 <= a < |flat| && 0 <= b < |flat|
      ensures CorrectedNodeEq(flat[a], flat[b]).Ok?
    {
      assert flat[a] in flat && flat[b] in flat;
      CorrectedNodeEqTotal(flat[a], flat[b]);
    }
    forall k | 0 <= k < |flat|
      ensures Matches(CorrectedNodeEq, flat[k], flat[k])
    {
      assert flat[k] in flat;
      CorrectedNodeEqReflexive(flat[k]);
    }
    DiagonalAlignmentRecordsNothing(CorrectedNodeEq, slist, slist);
  }

  /**
   * A conditional is compared by its test and only its body is flattened,
   * so a change confined to its `else` branch records nothing.
   */
  lemma ElseBranchUnseen(test: Node, body: seq<Node>, orelse1: seq<Node>, orelse2: seq<Node>)
    requires WellFormed(If(test, body, orelse1)) && WellFormed(If(test, body, orelse2))
    ensures RecordedDiffs(NodeEq, [If(test, body, orelse1)], [If(test, body, orelse2)]) == []
  {
    var s1, s2 := [If(test, body, orelse1)], [If(test, body, orelse2)];
    assert FlattenList(s1) == [s1[0]] + FlattenList(body) by {
      assert s1[1..] == [];
    }
    assert FlattenList(s2) == [s2[0]] + FlattenList(body) by {
      assert s2[1..] == [];
    }
    NodeEqByKind(s1[0], s2[0]);
    NodeEqReflexive(test);
    FlattenWellFormed(body);
    forall k | 1 <= k < |FlattenList(s1)|
      ensures Matches(NodeEq, FlattenList(s1)[k], FlattenList(s2)[k])
    {
      assert FlattenList(s1)[k] == FlattenList(body)[k - 1] && FlattenList(body)[k - 1] in FlattenList(body);
      NodeEqReflexive(FlattenList(body)[k - 1]);
    }
    PointwiseMatchRecordsNothing(s1, s2);
  }

  /**
   * Loops are compared by kind alone and not flattened, so two loops of the
   * same kind record nothing, whatever their tests and bodies.
   */
  lemma LoopChangesUnseen(loop1: Node, loop2: Node)
    requires (loop1.While? && loop2.While?) || (loop1.For? && loop2.For?)
    ensures RecordedDiffs(NodeEq, [loop1], [loop2]) == []
  {
    var s1, s2 := [loop1], [loop2];
    assert FlattenList(s1) == [loop1] by {
      assert s1[1..] == [];
    }
    assert FlattenList(s2) == [loop2] by {
      assert s2[1..] == [];
    }
    NodeEqByKind(loop1, loop2);
    PointwiseMatchRecordsNothing(s1, s2);
  }

  /** The first loop of `compare_stmtlist_lcs`: a deletion per reported element of the first list. */
  method RecordDeletions(diffs: DiffList, flat1: seq<Node>, firsts: set<nat>)
    modifies diffs
    ensures diffs.items == old(diffs.items) + Unmatched(Deletion, flat1, firsts, |flat1|)
  {
    for k := 0 to |flat1|
      invariant diffs.items == old(diffs.items) + Unmatched(Deletion, flat1, firsts, k)
    {
      var statement := flat1[k];
      if !statement.BoolOp? && k !in firsts {
        RecordDiff(diffs, Some(statement), None, Deletion);
      }
    }
  }

  /** The second loop of `compare_stmtlist_lcs`: an addition per reported element of the second list. */
  method RecordAdditions(diffs: DiffList, flat2: seq<Node>, seconds: set<nat>)
    modifies diffs
    ensures diffs.items == old(diffs.items) + Unmatched(Addition, flat2, seconds, |flat2|)
  {
    for k := 0 to |flat2|
      invariant diffs.items == old(diffs.items) + Unmatched(Addition, flat2, seconds, k)
    {
      var statement := flat2[k];
      if k !in seconds && !statement.BoolOp? {
        RecordDiff(diffs, None, Some(statement), Addition);
      }
    }
  }

  /** Both loops of `compare_stmtlist_lcs`: the deletions, then the additions. */
  method RecordUnmatched(diffs: DiffList, flat1: seq<Node>, flat2: seq<Node>, anchors: seq<Anchor>)
    modifies diffs
    ensures diffs.items == old(diffs.items)
      + Unmatched(Deletion, flat1, FirstsOf(anchors), |flat1|)
      + Unmatched(Addition, flat2, SecondsOf(anchors), |flat2|)
  {
    RecordDeletions(diffs, flat1, FirstsOf(anchors));
    RecordAdditions(diffs, flat2, SecondsOf(anchors));
  }

  /**
   * `compare_stmtlist_lcs`: append the records for `slist1` against
   * `slist2` to `diffs` and answer whether `diffs` is then empty.  A
   * comparison that raises appends nothing.
   */
  method CompareStmtlistLcs(slist1: seq<Node>, slist2: seq<Node>, diffs: DiffList) returns (r: Result<bool>)
    modifies diffs
    ensures r.Err? <==> !AllComparable(NodeEq, FlattenList(slist1), FlattenList(slist2))
    ensures r.Err? ==> FirstError(NodeEq, FlattenList(slist1), FlattenList(slist2), r.error)
    ensures r.Err? ==> diffs.items == old(diffs.items)
    ensures r.Ok? ==> diffs.items == old(diffs.items) + RecordedDiffs(NodeEq, slist1, slist2)
    ensures r.Ok? ==> (r.value <==> diffs.items == [])
  {
    var flat1 := FlattenList(slist1);
    var flat2 := FlattenList(slist2);
    var lcsResult := LcsFlattened(NodeEq, flat1, flat2);
    if lcsResult.Err? {
      return Err(lcsResult.error);
    }
    assert lcsResult.value == AnchorsOf(NodeEq, slist1, slist2);
    RecordUnmatched(diffs, flat1, flat2, lcsResult.value);
    assert diffs.items == old(diffs.items) + RecordedDiffs(NodeEq, slist1, slist2);
    return Ok(diffs.items == []);
  }
}
