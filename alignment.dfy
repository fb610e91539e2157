/**
 * `lcs_flattened`: a longest-common-subsequence table over two flattened
 * sequences, then a backtrack from the bottom-right corner that collects
 * the matched positions.  The comparison is a parameter `eq`, which
 * `compare_stmtlist_lcs` instantiates with `node_equality` (`NodeEq`): an
 * answer `Ok(true)` is a match, `Ok(false)` is not, and `Err(e)` is the
 * exception that aborts the fill.  An anchor is a pair of positions (one in
 * each sequence) rather than a pair of node objects; anchors are listed in
 * the order the backtrack collects them.
 */
module Alignment {
  import opened Syntax
  import opened Equality

  /** A matched pair: a position in the first sequence and one in the second. */
  type Anchor = (nat, nat)

  function Max(a: int, b: int): int {
    if a >= b then a else b
  }

  /** The match test of the table: the comparison answered true. */
  predicate Matches<T>(eq: (T, T) -> Result<bool>, x: T, y: T) {
    eq(x, y) == Ok(true)
  }

  /** No pair of the two sequences makes the comparison raise. */
  ghost predicate AllComparable<T>(eq: (T, T) -> Result<bool>, xs: seq<T>, ys: seq<T>) {
    forall a, b :: 0 <= a < |xs| && 0 <= b < |ys| ==> eq(xs[a], ys[b]).Ok?
  }

  /** Every pair compared before `(a, b)` in the order the table is filled (row by row) is comparable. */
  ghost predicate OkBefore<T>(eq: (T, T) -> Result<bool>, xs: seq<T>, ys: seq<T>, a: nat, b: nat) {
    && (forall a', b' :: 0 <= a' < a && 0 <= b' < |ys| && a' < |xs| ==> eq(xs[a'], ys[b']).Ok?)
    && (a < |xs| ==> forall b' :: 0 <= b' < b && b' < |ys| ==> eq(xs[a], ys[b']).Ok?)
  }

  /** `e` is raised by the first failing pair in the order the table is filled. */
  ghost predicate FirstError<T>(eq: (T, T) -> Result<bool>, xs: seq<T>, ys: seq<T>, e: Error) {
    exists a, b :: 0 <= a < |xs| && 0 <= b < |ys| && eq(xs[a], ys[b]) == Err(e) && OkBefore(eq, xs, ys, a, b)
  }

  lemma OkBeforeNext<T>(eq: (T, T) -> Result<bool>, xs: seq<T>, ys: seq<T>, a: nat, b: nat)
    requires a < |xs| && b < |ys| && OkBefore(eq, xs, ys, a, b) && eq(xs[a], ys[b]).Ok?
    ensures OkBefore(eq, xs, ys, a, b + 1)
  {
  }

  lemma OkBeforeNextRow<T>(eq: (T, T) -> Result<bool>, xs: seq<T>, ys: seq<T>, a: nat)
    requires a < |xs| && OkBefore(eq, xs, ys, a, |ys|)
    ensures OkBefore(eq, xs, ys, a + 1, 0)
  {
  }

  lemma OkBeforeAll<T>(eq: (T, T) -> Result<bool>, xs: seq<T>, ys: seq<T>)
    requires OkBefore(eq, xs, ys, |xs|, 0)
    ensures AllComparable(eq, xs, ys)
  {
  }

  /**
   * An order-preserving matching of `xs[..i]` with `ys[..j]`, largest pair
   * first: every pair matches, and both positions strictly decrease along
   * the list, so no position is used twice.
   */
  ghost predicate IsMatching<T>(eq: (T, T) -> Result<bool>, xs: seq<T>, ys: seq<T>, anchors: seq<Anchor>, i: nat, j: nat) {
    && i <= |xs| && j <= |ys|
    && (forall k :: 0 <= k < |anchors| ==>
          anchors[k].0 < i && anchors[k].1 < j && Matches(eq, xs[anchors[k].0], ys[anchors[k].1]))
    && (forall k, l :: 0 <= k < l < |anchors| ==>
          anchors[l].0 < anchors[k].0 && anchors[l].1 < anchors[k].1)
  }

  /** The value the table holds at `L[i][j]`. */
  function LcsLen<T>(eq: (T, T) -> Result<bool>, xs: seq<T>, ys: seq<T>, i: nat, j: nat): (r: nat)
    requires i <= |xs| && j <= |ys|
    decreases i + j
    ensures r <= i && r <= j
  {
    if i == 0 || j == 0 then 0
    else if Matches(eq, xs[i - 1], ys[j - 1]) then LcsLen(eq, xs, ys, i - 1, j - 1) + 1
    else Max(LcsLen(eq, xs, ys, i - 1, j), LcsLen(eq, xs, ys, i, j - 1))
  }

  /**
   * The backtrack from `(i, j)`: take a match when the two elements match,
   * otherwise step towards the larger neighbouring score, and on a tie step
   * back in the second sequence.
   */
  function Backtrack<T>(eq: (T, T) -> Result<bool>, xs: seq<T>, ys: seq<T>, i: nat, j: nat): (r: seq<Anchor>)
    requires i <= |xs| && j <= |ys|
    decreases i + j
  {
    if i == 0 || j == 0 then []
    else if Matches(eq, xs[i - 1], ys[j - 1]) then [(i - 1, j - 1)] + Backtrack(eq, xs, ys, i - 1, j - 1)
    else if LcsLen(eq, xs, ys, i - 1, j) > LcsLen(eq, xs, ys, i, j - 1) then Backtrack(eq, xs, ys, i - 1, j)
    else Backtrack(eq, xs, ys, i, j - 1)
  }

  /** The backtrack collects exactly as many anchors as the table's corner cell counts. */
  lemma {:induction false} BacktrackLength<T>(eq: (T, T) -> Result<bool>, xs: seq<T>, ys: seq<T>, i: nat, j: nat)
    requires i <= |xs| && j <= |ys|
    ensures |Backtrack(eq, xs, ys, i, j)| == LcsLen(eq, xs, ys, i, j)
    decreases i + j
  {
    if i > 0 && j > 0 {
      BacktrackCases(eq, xs, ys, i, j);
      if Matches(eq, xs[i - 1], ys[j - 1]) {
        BacktrackLength(eq, xs, ys, i - 1, j - 1);
      } else if LcsLen(eq, xs, ys, i - 1, j) > LcsLen(eq, xs, ys, i, j - 1) {
        BacktrackLength(eq, xs, ys, i - 1, j);
      } else {
        BacktrackLength(eq, xs, ys, i, j - 1);
      }
    }
  }

  /** A matching pair placed before a matching of the shorter prefixes extends it. */
  lemma PrependMatching<T>(eq: (T, T) -> Result<bool>, xs: seq<T>, ys: seq<T>, rest: seq<Anchor>, i: nat, j: nat)
    requires 0 < i <= |xs| && 0 < j <= |ys| && Matches(eq, xs[i - 1], ys[j - 1])
    requires IsMatching(eq, xs, ys, rest, i - 1, j - 1)
    ensures IsMatching(eq, xs, ys, [(i - 1, j - 1)] + rest, i, j)
  {
    var r := [(i - 1, j - 1)] + rest;
    assert forall k :: 1 <= k < |r| ==> r[k] == rest[k - 1];
  }

  /** A matching of shorter prefixes is a matching of longer ones. */
  lemma WidenMatching<T>(eq: (T, T) -> Result<bool>, xs: seq<T>, ys: seq<T>, anchors: seq<Anchor>, i: nat, j: nat, i': nat, j': nat)
    requires IsMatching(eq, xs, ys, anchors, i, j) && i <= i' <= |xs| && j <= j' <= |ys|
    ensures IsMatching(eq, xs, ys, anchors, i', j')
  {
  }

  /** The three ways a backtrack step can go. */
  lemma BacktrackCases<T>(eq: (T, T) -> Result<bool>, xs: seq<T>, ys: seq<T>, i: nat, j: nat)
    requires 0 < i <= |xs| && 0 < j <= |ys|
    ensures Matches(eq, xs[i - 1], ys[j - 1]) ==>
      Backtrack(eq, xs, ys, i, j) == [(i - 1, j - 1)] + Backtrack(eq, xs, ys, i - 1, j - 1)
    ensures !Matches(eq, xs[i - 1], ys[j - 1]) && LcsLen(eq, xs, ys, i - 1, j) > LcsLen(eq, xs, ys, i, j - 1) ==>
      Backtrack(eq, xs, ys, i, j) == Backtrack(eq, xs, ys, i - 1, j)
    ensures !Matches(eq, xs[i - 1], ys[j - 1]) && LcsLen(eq, xs, ys, i - 1, j) <= LcsLen(eq, xs, ys, i, j - 1) ==>
      Backtrack(eq, xs, ys, i, j) == Backtrack(eq, xs, ys, i, j - 1)
  {
  }

  /** One backtrack step keeps a matching, given that the step's remainder is one. */
  lemma BacktrackStep<T>(eq: (T, T) -> Result<bool>, xs: seq<T>, ys: seq<T>, i: nat, j: nat, i': nat, j': nat)
    requires 0 < i <= |xs| && 0 < j <= |ys| && i' <= i && j' <= j
    requires Matches(eq, xs[i - 1], ys[j - 1]) ==> i' == i - 1 && j' == j - 1
    requires !Matches(eq, xs[i - 1], ys[j - 1]) ==> i' + j' == i + j - 1
    requires !Matches(eq, xs[i - 1], ys[j - 1]) && LcsLen(eq, xs, ys, i - 1, j) > LcsLen(eq, xs, ys, i, j - 1) ==> i' == i - 1
    requires !Matches(eq, xs[i - 1], ys[j - 1]) && LcsLen(eq, xs, ys, i - 1, j) <= LcsLen(eq, xs, ys, i, j - 1) ==> j' == j - 1
    requires IsMatching(eq, xs, ys, Backtrack(eq, xs, ys, i', j'), i', j')
    ensures IsMatching(eq, xs, ys, Backtrack(eq, xs, ys, i, j), i, j)
  {
    var rest := Backtrack(eq, xs, ys, i', j');
    BacktrackCases(eq, xs, ys, i, j);
    if Matches(eq, xs[i - 1], ys[j - 1]) {
      PrependMatching(eq, xs, ys, rest, i, j);
    } else {
      WidenMatching(eq, xs, ys, rest, i', j', i, j);
    }
  }

  /** What the backtrack collects is an order-preserving matching of the prefixes. */
  lemma {:induction false} BacktrackIsMatching<T>(eq: (T, T) -> Result<bool>, xs: seq<T>, ys: seq<T>, i: nat, j: nat)
    requires i <= |xs| && j <= |ys|
    ensures IsMatching(eq, xs, ys, Backtrack(eq, xs, ys, i, j), i, j)
    decreases i + j
  {
    if i > 0 && j > 0 {
      var next :=
        if Matches(eq, xs[i - 1], ys[j - 1]) then (i - 1, j - 1)
        else if LcsLen(eq, xs, ys, i - 1, j) > LcsLen(eq, xs, ys, i, j - 1) then (i - 1, j)
        else (i, j - 1);
      BacktrackIsMatching(eq, xs, ys, next.0, next.1);
      BacktrackStep(eq, xs, ys, i, j, next.0, next.1);
    }
  }

  /** Behind its first pair, a matching is one of the prefixes that pair leaves. */
  lemma DropFirstMatching<T>(eq: (T, T) -> Result<bool>, xs: seq<T>, ys: seq<T>, anchors: seq<Anchor>, i: nat, j: nat)
    requires IsMatching(eq, xs, ys, anchors, i, j) && |anchors| > 0
    ensures IsMatching(eq, xs, ys, anchors[1..], anchors[0].0, anchors[0].1)
  {
    var rest := anchors[1..];
    assert forall k :: 0 <= k < |rest| ==> rest[k] == anchors[k + 1];
  }

  /** A matching is one of any prefixes that still hold its first (largest) pair. */
  lemma NarrowMatching<T>(eq: (T, T) -> Result<bool>, xs: seq<T>, ys: seq<T>, anchors: seq<Anchor>, i: nat, j: nat, i': nat, j': nat)
    requires IsMatching(eq, xs, ys, anchors, i, j) && |anchors| > 0
    requires anchors[0].0 < i' <= |xs| && anchors[0].1 < j' <= |ys|
    ensures IsMatching(eq, xs, ys, anchors, i', j')
  {
    forall k | 0 < k < |anchors|
      ensures anchors[k].0 < i' && anchors[k].1 < j'
    {
      assert anchors[k].0 < anchors[0].0 && anchors[k].1 < anchors[0].1;
    }
  }

  /** No order-preserving matching of `xs[..i]` with `ys[..j]` is longer than `L[i][j]`. */
  lemma {:induction false} LcsLenOptimal<T>(eq: (T, T) -> Result<bool>, xs: seq<T>, ys: seq<T>, anchors: seq<Anchor>, i: nat, j: nat)
    requires IsMatching(eq, xs, ys, anchors, i, j)
    ensures |anchors| <= LcsLen(eq, xs, ys, i, j)
    decreases i + j
  {
    if |anchors| > 0 {
      var (a, b) := anchors[0];
      if Matches(eq, xs[i - 1], ys[j - 1]) {
        DropFirstMatching(eq, xs, ys, anchors, i, j);
        WidenMatching(eq, xs, ys, anchors[1..], a, b, i - 1, j - 1);
        LcsLenOptimal(eq, xs, ys, anchors[1..], i - 1, j - 1);
      } else if a < i - 1 {
        NarrowMatching(eq, xs, ys, anchors, i, j, i - 1, j);
        LcsLenOptimal(eq, xs, ys, anchors, i - 1, j);
      } else {
        assert b < j - 1;
        NarrowMatching(eq, xs, ys, anchors, i, j, i, j - 1);
        LcsLenOptimal(eq, xs, ys, anchors, i, j - 1);
      }
    }
  }

  /** `L[i][j]` is the length of a longest order-preserving matching of `xs[..i]` with `ys[..j]`. */
  lemma LcsLenIsLongest<T>(eq: (T, T) -> Result<bool>, xs: seq<T>, ys: seq<T>, i: nat, j: nat)
    requires i <= |xs| && j <= |ys|
    ensures exists anchors :: IsMatching(eq, xs, ys, anchors, i, j) && |anchors| == LcsLen(eq, xs, ys, i, j)
    ensures forall anchors :: IsMatching(eq, xs, ys, anchors, i, j) ==> |anchors| <= LcsLen(eq, xs, ys, i, j)
  {
    var best := Backtrack(eq, xs, ys, i, j);
    BacktrackLength(eq, xs, ys, i, j);
    BacktrackIsMatching(eq, xs, ys, i, j);
    forall anchors | IsMatching(eq, xs, ys, anchors, i, j)
      ensures |anchors| <= LcsLen(eq, xs, ys, i, j)
    {
      LcsLenOptimal(eq, xs, ys, anchors, i, j);
    }
  }

  /** The table is non-decreasing along both axes: longer prefixes never have a shorter LCS. */
  lemma LcsLenMonotone<T>(eq: (T, T) -> Result<bool>, xs: seq<T>, ys: seq<T>, i': nat, j': nat, i: nat, j: nat)
    requires i' <= i <= |xs| && j' <= j <= |ys|
    ensures LcsLen(eq, xs, ys, i', j') <= LcsLen(eq, xs, ys, i, j)
  {
    var best := Backtrack(eq, xs, ys, i', j');
    BacktrackIsMatching(eq, xs, ys, i', j');
    BacktrackLength(eq, xs, ys, i', j');
    WidenMatching(eq, xs, ys, best, i', j', i, j);
    LcsLenOptimal(eq, xs, ys, best, i, j);
  }

  /** The table cells `L[a][b]` for rows `a < rows` hold the LCS lengths. */
  ghost predicate TableHolds<T>(eq: (T, T) -> Result<bool>, L: array2<int>, xs: seq<T>, ys: seq<T>, rows: nat)
    reads L
  {
    && L.Length0 == |xs| + 1 && L.Length1 == |ys| + 1 && rows <= |xs| + 1
    && forall a, b :: 0 <= a < rows && 0 <= b <= |ys| ==> L[a, b] == LcsLen(eq, xs, ys, a, b)
  }

  /** The cells `L[i][b]` for `b < j` hold the LCS lengths. */
  ghost predicate RowHolds<T>(eq: (T, T) -> Result<bool>, L: array2<int>, xs: seq<T>, ys: seq<T>, i: nat, j: nat)
    reads L
  {
    && i <= |xs| && j <= |ys| + 1 && L.Length0 == |xs| + 1 && L.Length1 == |ys| + 1
    && forall b :: 0 <= b < j ==> L[i, b] == LcsLen(eq, xs, ys, i, b)
  }

  /** A comparison that raises after every earlier one succeeded is the first error. */
  lemma ErrorIsFirst<T>(eq: (T, T) -> Result<bool>, xs: seq<T>, ys: seq<T>, a: nat, b: nat, e: Error)
    requires a < |xs| && b < |ys| && OkBefore(eq, xs, ys, a, b) && eq(xs[a], ys[b]) == Err(e)
    ensures FirstError(eq, xs, ys, e)
  {
  }

  /** The recurrence of the table at one cell, from its three neighbours. */
  lemma CellValue<T>(eq: (T, T) -> Result<bool>, xs: seq<T>, ys: seq<T>, i: nat, j: nat, diag: int, up: int, left: int)
    requires 1 <= i <= |xs| && 1 <= j <= |ys|
    requires diag == LcsLen(eq, xs, ys, i - 1, j - 1) && up == LcsLen(eq, xs, ys, i - 1, j) && left == LcsLen(eq, xs, ys, i, j - 1)
    ensures LcsLen(eq, xs, ys, i, j) == if Matches(eq, xs[i - 1], ys[j - 1]) then diag + 1 else Max(up, left)
  {
  }

  /**
   * One step of the inner fill loop of `lcs_flattened`: cell `L[i][j]` is
   * one more than its diagonal neighbour on a match and the larger of its
   * upper and left neighbours otherwise.  A comparison that raises aborts.
   */
  method FillCell<T>(eq: (T, T) -> Result<bool>, xs: seq<T>, ys: seq<T>, L: array2<int>, i: nat, j: nat)
    returns (failure: Option<Error>)
    requires 1 <= i <= |xs| && 1 <= j <= |ys|
    requires TableHolds(eq, L, xs, ys, i) && RowHolds(eq, L, xs, ys, i, j) && OkBefore(eq, xs, ys, i - 1, j - 1)
    modifies L
    ensures failure.Some? ==> FirstError(eq, xs, ys, failure.value)
    ensures failure.None? ==>
      TableHolds(eq, L, xs, ys, i) && RowHolds(eq, L, xs, ys, i, j + 1) && OkBefore(eq, xs, ys, i - 1, j)
    ensures forall a :: i < a <= |xs| ==> L[a, 0] == old(L[a, 0])
  {
    var same := eq(xs[i - 1], ys[j - 1]);
    if same.Err? {
      ErrorIsFirst(eq, xs, ys, i - 1, j - 1, same.error);
      return Some(same.error);
    }
    OkBeforeNext(eq, xs, ys, i - 1, j - 1);
    CellValue(eq, xs, ys, i, j, L[i - 1, j - 1], L[i - 1, j], L[i, j - 1]);
    var score;
    if same.value {
      score := L[i - 1, j - 1] + 1;
    } else {
      score := Max(L[i - 1, j], L[i, j - 1]);
    }
    L[i, j] := score;
    return None;
  }

  /** One pass of the inner fill loop of `lcs_flattened`: row `i` of the table, left to right. */
  method FillRow<T>(eq: (T, T) -> Result<bool>, xs: seq<T>, ys: seq<T>, L: array2<int>, i: nat) returns (failure: Option<Error>)
    requires 1 <= i <= |xs|
    requires TableHolds(eq, L, xs, ys, i) && OkBefore(eq, xs, ys, i - 1, 0) && L[i, 0] == 0
    modifies L
    ensures failure.Some? ==> FirstError(eq, xs, ys, failure.value)
    ensures failure.None? ==> TableHolds(eq, L, xs, ys, i + 1) && OkBefore(eq, xs, ys, i, 0)
    ensures forall a :: i < a <= |xs| ==> L[a, 0] == old(L[a, 0])
  {
    for j := 1 to |ys| + 1
      invariant OkBefore(eq, xs, ys, i - 1, j - 1)
      invariant TableHolds(eq, L, xs, ys, i)
      invariant RowHolds(eq, L, xs, ys, i, j)
      invariant forall a :: i < a <= |xs| ==> L[a, 0] == old(L[a, 0])
    {
      failure := FillCell(eq, xs, ys, L, i, j);
      if failure.Some? {
        return;
      }
    }
    OkBeforeNextRow(eq, xs, ys, i - 1);
    return None;
  }

  /** The fill loops of `lcs_flattened`: the rows in order, each by `FillRow`. */
  method FillTable<T>(eq: (T, T) -> Result<bool>, xs: seq<T>, ys: seq<T>) returns (r: Result<array2<int>>)
    ensures r.Err? <==> !AllComparable(eq, xs, ys)
    ensures r.Err? ==> FirstError(eq, xs, ys, r.error)
    ensures r.Ok? ==> fresh(r.value) && TableHolds(eq, r.value, xs, ys, |xs| + 1)
  {
    var m, n := |xs|, |ys|;
    var L := new int[m + 1, n + 1]((_, _) => 0);
    for i := 1 to m + 1
      invariant OkBefore(eq, xs, ys, i - 1, 0)
      invariant TableHolds(eq, L, xs, ys, i)
      invariant forall a :: i <= a <= m ==> L[a, 0] == 0
    {
      var failure := FillRow(eq, xs, ys, L, i);
      if failure.Some? {
        return Err(failure.value);
      }
    }
    OkBeforeAll(eq, xs, ys);
    return Ok(L);
  }

  /** The backtrack loop of `lcs_flattened` over a filled table. */
  method BacktrackTable<T>(eq: (T, T) -> Result<bool>, xs: seq<T>, ys: seq<T>, L: array2<int>) returns (anchors: seq<Anchor>)
    requires TableHolds(eq, L, xs, ys, |xs| + 1)
    ensures anchors == Backtrack(eq, xs, ys, |xs|, |ys|)
  {
    anchors := [];
    var i, j := |xs|, |ys|;
    while i > 0 && j > 0
      invariant 0 <= i <= |xs| && 0 <= j <= |ys|
      invariant anchors + Backtrack(eq, xs, ys, i, j) == Backtrack(eq, xs, ys, |xs|, |ys|)
      decreases i + j
    {
      if eq(xs[i - 1], ys[j - 1]) == Ok(true) {
        assert Backtrack(eq, xs, ys, i, j) == [(i - 1, j - 1)] + Backtrack(eq, xs, ys, i - 1, j - 1);
        assert anchors + [(i - 1, j - 1)] + Backtrack(eq, xs, ys, i - 1, j - 1)
            == anchors + ([(i - 1, j - 1)] + Backtrack(eq, xs, ys, i - 1, j - 1));
        anchors := anchors + [(i - 1, j - 1)];
        i, j := i - 1, j - 1;
      } else if L[i - 1, j] > L[i, j - 1] {
        i := i - 1;
      } else {
        j := j - 1;
      }
    }
    assert anchors + [] == anchors;
  }

  /**
   * `lcs_flattened`: fill the table, then backtrack.  Raises the error of
   * the first failing comparison; otherwise returns the anchors in the
   * order the backtrack collects them.
   */
  method LcsFlattened<T>(eq: (T, T) -> Result<bool>, xs: seq<T>, ys: seq<T>) returns (r: Result<seq<Anchor>>)
    ensures r.Err? <==> !AllComparable(eq, xs, ys)
    ensures r.Err? ==> FirstError(eq, xs, ys, r.error)
    ensures r.Ok? ==> r.value == Backtrack(eq, xs, ys, |xs|, |ys|)
    ensures r.Ok? ==> IsMatching(eq, xs, ys, r.value, |xs|, |ys|) && |r.value| == LcsLen(eq, xs, ys, |xs|, |ys|)
  {
    BacktrackIsMatching(eq, xs, ys, |xs|, |ys|);
    BacktrackLength(eq, xs, ys, |xs|, |ys|);
    var table := FillTable(eq, xs, ys);
    if table.Err? {
      return Err(table.error);
    }
    var anchors := BacktrackTable(eq, xs, ys, table.value);
    return Ok(anchors);
  }

  /** Aligning two sequences that match position by position anchors every diagonal position. */
  lemma {:induction false} BacktrackDiagonal<T>(eq: (T, T) -> Result<bool>, xs: seq<T>, ys: seq<T>, i: nat)
    requires i <= |xs| && i <= |ys|
    requires forall k :: 0 <= k < i ==> Matches(eq, xs[k], ys[k])
    ensures |Backtrack(eq, xs, ys, i, i)| == i
    ensures forall p :: 0 <= p < i ==> Backtrack(eq, xs, ys, i, i)[p] == (i - 1 - p, i - 1 - p)
  {
    if i > 0 {
      BacktrackDiagonal(eq, xs, ys, i - 1);
      assert Backtrack(eq, xs, ys, i, i) == [(i - 1, i - 1)] + Backtrack(eq, xs, ys, i - 1, i - 1);
    }
  }

  /**
   * The tie-break at work: `a, b` against `b, a` has two longest matchings
   * of length one, and the backtrack keeps `b` because on the tie at the
   * corner it steps back in the second sequence.
   */
  lemma TieMovesSecondCursor()
    ensures Backtrack(NodeEq, [Name("a"), Name("b")], [Name("b"), Name("a")], 2, 2) == [(1, 0)]
  {
    var xs, ys := [Name("a"), Name("b")], [Name("b"), Name("a")];
    assert !Matches(NodeEq, xs[1], ys[1]) && Matches(NodeEq, xs[1], ys[0]) && Matches(NodeEq, xs[0], ys[1]);
    assert LcsLen(NodeEq, xs, ys, 1, 2) == 1 && LcsLen(NodeEq, xs, ys, 2, 1) == 1;
    assert Backtrack(NodeEq, xs, ys, 2, 1) == [(1, 0)] + Backtrack(NodeEq, xs, ys, 1, 0);
  }
}
