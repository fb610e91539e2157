# python_ast_diff in Dafny

A model of the diff engine in `generate_ast.py`. The engine compares two lists of Python statements by their syntax trees and reports what was deleted from the first list and added in the second.

- It flattens each statement list into one sequence (`flatten_ast_with_structure`). A boolean operation is followed by its operands and a conditional by its body.
- It aligns the two sequences with a longest-common-subsequence table (`lcs_flattened`). Its match test is a structural "same node" predicate (`node_equality`, with `compare_Compare` for comparisons).
- It appends one `Diff` record per unmatched element to a caller-owned list (`compare_stmtlist_lcs`, `record_diff`). Boolean operations are skipped because they are only containers.
- A separate routine (`Diff.get_text_between_line_col`) cuts the source text a node's location covers out of a file's text.

Modules:

- `Syntax` (syntax.dfy) defines the trees. Nodes are `Name`, `Constant`, `BinOp`, `Compare`, `BoolOp`, `Assign`, `Return`, `If`, `While`, `For`, and `Other` for any other class, which keeps only its class name.
  - `WellFormed` is what the comparison relies on without checking, in the parts of a tree it looks at: a comparison has a name as its left operand and one operator per comparator, and an assignment has at least one target.
  - Python's parser guarantees the operator count and the target, but not the name: `len(x) > 0` has a call on its left. `ParserShape` asks only for what the parser guarantees. The lemmas that assume `WellFormed` do not cover such comparisons (see "## Findings").
  - The three ways the original code can crash are `Error` values. A crash becomes an `Err` result.
- `Equality` (equality.dfy) holds `node_equality` as the function `NodeEq`. `compare_Compare` appears twice: as the function `CompareEq`, and as the method `CompareCompare`, which runs the source's cursor loop and is proved equal to the function.
  - `CorrectedNodeEq` is the comparison the code evidently intends: it compares the left operands of two comparisons with node equality instead of reading a name off each. It gives the same answers as `NodeEq` wherever `NodeEq` does not raise for a left operand (`CorrectionAgrees`), and it never raises on trees of the parser's shape.
- `Flattening` (flatten.dfy) holds `flatten_ast_with_structure`.
- `Alignment` (alignment.dfy) holds `lcs_flattened`.
  - It takes the comparison as a parameter `eq`. `compare_stmtlist_lcs` passes `NodeEq`, so the table is the one `lcs_flattened` builds with `node_equality`.
  - The fill loops run as methods over an `array2`: `FillTable` runs the outer loop, `FillRow` the inner one and `FillCell` one cell. The backtrack loop is the method `BacktrackTable`.
  - The functions `LcsLen` and `Backtrack` specify them.
  - The table is proved to hold the length of a longest order-preserving matching, and the backtrack is proved to return one.
- `Diffing` (diffing.dfy) holds `Diff`, `record_diff` and `compare_stmtlist_lcs`. The caller's list of records is the class `DiffList`, which the methods append to. `RecordedDiffs` takes the node comparison as a parameter: `compare_stmtlist_lcs` records `RecordedDiffs(NodeEq, …)`, and `RecordedDiffs(CorrectedNodeEq, …)` are the records the corrected comparison gives.
- `Spans` (spans.dfy) holds `get_text_between_line_col`.

Behaviour of the code worth knowing:

- **Tie-break.** On a tie in the table, the backtrack decrements `j` (generate_ast.py:161), so it steps back in the second sequence. `TieMovesSecondCursor` shows the effect.
- **Records.** `compare_stmtlist_lcs` records only `'deletion'` (generate_ast.py:182) and `'addition'` (generate_ast.py:186) entries.
- **No re-diff inside a match.** `compare_stmtlist_lcs` calls `lcs_flattened` once (generate_ast.py:174); a matched pair is not aligned again.
- **Flattening a conditional.** Only its body is unpacked (generate_ast.py:106-107). Its `else` branch is not, so a change confined to an `else` branch is never reported (`ElseBranchUnseen`).
- **Loops.** `While` and `For` nodes compare equal by type alone (generate_ast.py:117-118). They raise nothing, and a change inside a loop is not reported (`LoopChangesUnseen`).
- **Assignments.** Only `targets[0]` and the value are compared (generate_ast.py:130).
- **Binary operations.** The left operand, the right operand and the operator are compared (generate_ast.py:132).

Errors:

- A comparison whose left operand is not a name makes `compare_Compare` fail with `LeftNotName`. This models the attribute error at line 53. It is an `Err` result rather than a precondition, so every operation accepts every tree.
- An assignment without targets gives `NoTarget`.
- A comparison with unequal numbers of comparators and operators gives `UnknownIfConstruct`.
- An error aborts the whole comparison and leaves the caller's list unchanged. `FirstError` names the pair that raised it: the first failing pair in the order the table is filled.
- On well-formed trees nothing can fail (`NodeEqTotal`, `WellFormedComparable`). A comparison with a non-name left operand, such as `len(x) > 0`, fails even against itself (`SelfComparisonCanRaise`); under the corrected comparison it does not (`CorrectedSelfComparisonRecordsNothing`).

Anchors:

- The source collects matched pairs of node objects in a set and tests membership by object identity.
- The model records a pair of positions `(i, j)` instead, one in each flattened sequence. Positions identify the nodes because a tree holds each node object once.
- The model lists anchors in the order the backtrack collects them: both positions strictly decreasing.

## Model

| member | source | states |
|---|---|---|
| Syntax.KindOf | generate_ast.py:114 | no contract of its own; `KindOfIsClass` characterises it |
| Syntax.KindOfIsClass | generate_ast.py:114 | two nodes have the same kind iff they are of the same class, an `Other` node's class being its class name |
| Equality.Numeric | generate_ast.py:124 | no contract of its own; `LiteralEqCases` characterises it |
| Equality.LiteralEq | generate_ast.py:124 | no contract of its own; `LiteralEqCases` characterises it |
| Equality.LiteralEqCases | generate_ast.py:124 | two constant payloads are equal iff they are the same value or one is a boolean and the other the integer it stands for (`True == 1`, `False == 0`) |
| Equality.NodeEq | generate_ast.py:113-115 | nodes of different kinds are unequal, without error |
| Equality.SameKindEq | generate_ast.py:117-134 | no contract of its own; `NodeEqByKind` states its per-class rules, the `Return` rule and the missing-target error included |
| Equality.NodeEqByKind | generate_ast.py:117-134 | once kinds agree: names compare ids, constants compare values with Python `==` (`True == 1`), conditionals compare tests, boolean operations, loops and other classes are equal, comparisons defer to `compare_Compare`, binary operations are equal iff both operands and the operator are, assignments iff the first targets and the values are, and an assignment without a target raises `NoTarget`; two returns without a value are equal, a return without a value differs from one with a value, and two values are compared recursively |
| Equality.NodeEqTotal | generate_ast.py:113-134 | on well-formed nodes `node_equality` never raises |
| Equality.NodeEqReflexive | generate_ast.py:113-134 | every well-formed node equals itself, with no error |
| Equality.NodeEqSymmetric | generate_ast.py:113-134 | swapping the two nodes gives the same answer, including the same error |
| Equality.CompareEq | generate_ast.py:52-92 | no contract of its own; `CompareCompare` states its cases and `ComparatorsEq` its loop |
| Equality.ComparatorsEq | generate_ast.py:68-85 | the loop fails iff some comparator pair fails, and then with the first failing pair's error; otherwise it is true iff every comparator pair is equal and every operator pair is the same |
| Equality.ComparatorsReflexive | generate_ast.py:68-85 | the comparator loop of a well-formed comparison against itself answers true |
| Equality.ComparatorsSymmetric | generate_ast.py:68-85 | swapping the two comparisons gives the same loop outcome |
| Equality.CompareCompare | generate_ast.py:52-92 | a left operand that is not a name raises; differing left names or counts give false; unequal comparator and operator counts raise; otherwise the loop raises iff some comparator pair raises and answers true iff all comparators and operators agree; the result equals `CompareEq` |
| Equality.CorrectedNodeEq | generate_ast.py:113-134 | the corrected `node_equality`: nodes of different kinds are unequal, without error |
| Equality.CorrectedSameKindEq | generate_ast.py:117-134 | no contract of its own; the per-class rules of `node_equality`, recursing into `CorrectedNodeEq`; `CorrectionAgrees` relates it to them |
| Equality.CorrectedCompareEq | generate_ast.py:52-92 | no contract of its own; `compare_Compare` with the left operands compared by node equality instead of by `.id`; `CorrectionAgrees` relates it to `CompareEq` |
| Equality.CorrectedComparatorsEq | generate_ast.py:68-85 | no contract of its own; the comparator loop over `CorrectedNodeEq`; `CorrectedComparatorsAgree` relates it to `ComparatorsEq` |
| Equality.CorrectionAgrees | generate_ast.py:52-134 | on well-formed nodes, where `.id` cannot raise, the corrected comparison gives the same answer as the code as written |
| Equality.CorrectedComparatorsAgree | generate_ast.py:68-85 | on well-formed comparisons the corrected comparator loop gives the same outcome as the loop as written |
| Equality.CorrectedNodeEqTotal | generate_ast.py:52-134 | on trees of the parser's shape the corrected comparison never raises, whatever stands left of a comparison |
| Equality.CorrectedComparatorsTotal | generate_ast.py:68-85 | on comparisons of the parser's shape the corrected comparator loop never raises |
| Equality.CorrectedNodeEqReflexive | generate_ast.py:52-134 | under the corrected comparison every node of the parser's shape equals itself, with no error |
| Equality.CorrectedComparatorsReflexive | generate_ast.py:68-85 | the corrected comparator loop of a comparison of the parser's shape against itself answers true |
| Flattening.FlattenNode | generate_ast.py:102-107 | a node comes first; a node that is neither a boolean operation nor a conditional flattens to itself alone |
| Flattening.FlattenList | generate_ast.py:99-101 | a list flattens to at least as many nodes as it has |
| Flattening.FlattenNodeMembers | generate_ast.py:102-107 | a node's flattening holds exactly the nodes reachable from it through operands of boolean operations and bodies of conditionals |
| Flattening.FlattenListMembers | generate_ast.py:96-109 | a list's flattening holds exactly the nodes reachable from its elements |
| Flattening.FlattenAppend | generate_ast.py:99-101 | flattening distributes over concatenation |
| Flattening.ReachesWellFormed | generate_ast.py:102-107 | a node reachable from a well-formed node is well formed |
| Flattening.FlattenWellFormed | generate_ast.py:96-109 | flattening well-formed statements yields well-formed nodes |
| Flattening.ReachesParserShape | generate_ast.py:102-107 | a node reachable from a node of the parser's shape has that shape |
| Flattening.FlattenParserShape | generate_ast.py:96-109 | flattening statements of the parser's shape yields nodes of that shape |
| Alignment.OkBeforeNext | generate_ast.py:143-144 | the fill order's "no error so far" advances by one cell |
| Alignment.OkBeforeNextRow | generate_ast.py:142-143 | the fill order's "no error so far" advances by one row |
| Alignment.OkBeforeAll | generate_ast.py:142-147 | a table filled without error means every pair is comparable |
| Alignment.ErrorIsFirst | generate_ast.py:142-144 | a comparison that raises after all earlier ones in fill order succeeded raises the first error |
| Alignment.LcsLen | generate_ast.py:142-147 | the table entry `L[i][j]` is at most `i` and at most `j` |
| Alignment.CellValue | generate_ast.py:144-147 | proof step: one unfolding of `LcsLen`, `L[i][j]` being one more than its diagonal neighbour on a match and the larger of its upper and left neighbours otherwise |
| Alignment.Backtrack | generate_ast.py:150-161 | no contract of its own; `BacktrackLength`, `BacktrackIsMatching` and `BacktrackCases` characterise it |
| Alignment.BacktrackCases | generate_ast.py:152-161 | proof step: one unfolding of `Backtrack`, which takes a match, else moves up when the upper score is larger, else moves left |
| Alignment.BacktrackLength | generate_ast.py:150-161 | the backtrack collects exactly `L[i][j]` pairs |
| Alignment.PrependMatching | generate_ast.py:153-157 | a matching pair before a matching of the shorter prefixes gives a matching |
| Alignment.WidenMatching | generate_ast.py:158-161 | a matching of shorter prefixes is a matching of longer ones |
| Alignment.BacktrackStep | generate_ast.py:152-161 | each backtrack step keeps what is collected an order-preserving matching |
| Alignment.BacktrackIsMatching | generate_ast.py:150-161 | the backtrack returns an order-preserving matching of the prefixes: every pair matches and both positions strictly decrease |
| Alignment.DropFirstMatching | generate_ast.py:153-157 | behind its first pair, a matching is one of the prefixes that pair leaves |
| Alignment.NarrowMatching | generate_ast.py:158-161 | a matching is one of any shorter prefixes that still hold its first pair |
| Alignment.LcsLenOptimal | generate_ast.py:142-147 | no order-preserving matching of the prefixes is longer than `L[i][j]` |
| Alignment.LcsLenIsLongest | generate_ast.py:137-165 | `L[i][j]` is exactly the length of a longest order-preserving matching |
| Alignment.LcsLenMonotone | generate_ast.py:142-147 | the table never decreases along a row or a column |
| Alignment.FillCell | generate_ast.py:144-147 | fills one cell with its LCS length, or raises the first error in fill order |
| Alignment.FillRow | generate_ast.py:143-147 | fills one row with LCS lengths, or raises the first error in fill order |
| Alignment.FillTable | generate_ast.py:138-147 | fails iff some pair is not comparable, with the error of the first pair in fill order; otherwise every cell holds `LcsLen` |
| Alignment.BacktrackTable | generate_ast.py:150-161 | the backtrack loop over a filled table returns `Backtrack` from the bottom-right corner |
| Alignment.LcsFlattened | generate_ast.py:137-165 | fails iff some pair is not comparable, with the first error; otherwise returns the matching `Backtrack` builds, an order-preserving matching whose length is the table's `L[m][n]` |
| Alignment.BacktrackDiagonal | generate_ast.py:150-157 | two sequences that match position by position are aligned along the whole diagonal |
| Alignment.TieMovesSecondCursor | generate_ast.py:158-161 | aligning `a, b` with `b, a` keeps `b`: the corner tie steps back in the second sequence |
| Diffing.DiffList.constructor | generate_ast.py:202 | a new list of records is empty |
| Diffing.RecordDiff | generate_ast.py:41-42 | appends exactly one record with the given kind and nodes |
| Diffing.Diff | generate_ast.py:4-8 | a datatype, no contract: a record holds the kind of change and the node on each side, either of which may be absent |
| Diffing.Record | generate_ast.py:180-186 | a deletion carries only the first side's node, an addition only the second side's |
| Diffing.Unmatched | generate_ast.py:180-186 | no contract of its own; `UnmatchedIndices` and `UnmatchedExact` characterise it, and `RecordDeletions` and `RecordAdditions` are proved to append it |
| Diffing.UnmatchedIndices | generate_ast.py:180-186 | the reported positions are in increasing order and are exactly the positions whose node is not a boolean operation and not anchored |
| Diffing.UnmatchedExact | generate_ast.py:180-186 | a recording loop appends one record per reported position, in flattened order, built from that position's node |
| Diffing.UnmatchedMembers | generate_ast.py:180-186 | each appended record is built from a reported node of the sequence walked |
| Diffing.UnmatchedNone | generate_ast.py:180-186 | when every position is anchored nothing is appended |
| Diffing.RecordedDiffsShape | generate_ast.py:180-186 | deletions carry a node of the first flattened list only; additions carry a node of the second only |
| Diffing.DiagonalCoversAll | generate_ast.py:180-186 | a full diagonal anchors every position of both sequences |
| Diffing.DiagonalRecordsNothing | generate_ast.py:180-186 | with a full diagonal of anchors, neither loop records anything |
| Diffing.WellFormedComparable | generate_ast.py:113-134 | well-formed nodes never make `node_equality` raise |
| Diffing.DiagonalAlignmentRecordsNothing | generate_ast.py:168-188 | for any node comparison, statement lists whose flattenings match position by position record nothing |
| Diffing.PointwiseMatchRecordsNothing | generate_ast.py:168-188 | statement lists whose flattenings match position by position compare without error and record nothing |
| Diffing.SelfComparisonCanRaise | generate_ast.py:53 | `if len(x) > 0: pass` compared with itself raises `LeftNotName` instead of comparing equal; the statement has the parser's shape but is not well formed |
| Diffing.SelfComparisonRecordsNothing | generate_ast.py:168-188 | a well-formed statement list compared with itself raises nothing and records nothing |
| Diffing.CorrectedSelfComparisonRecordsNothing | generate_ast.py:168-188 | with the corrected comparison, any statement list of the parser's shape, `if len(x) > 0: pass` among them, compared with itself raises nothing and records nothing |
| Diffing.ElseBranchUnseen | generate_ast.py:105-107 | two conditionals that differ only in their `else` branches record nothing |
| Diffing.LoopChangesUnseen | generate_ast.py:117-118 | two loops of the same kind record nothing, whatever their tests and bodies |
| Diffing.RecordDeletions | generate_ast.py:180-182 | appends one deletion per non-boolean-operation node of the first list that no anchor uses, in order |
| Diffing.RecordAdditions | generate_ast.py:184-186 | appends one addition per non-boolean-operation node of the second list that no anchor uses, in order |
| Diffing.RecordUnmatched | generate_ast.py:180-186 | appends all deletions, then all additions |
| Diffing.CompareStmtlistLcs | generate_ast.py:168-188 | fails iff some pair of flattened nodes is not comparable, with the first error and no record appended; otherwise appends all deletions and then all additions, and answers whether the list of records is then empty |
| Spans.Slice | generate_ast.py:22-23 | `line[a:b]` is `line[a..b]` within the line, `line[a:]` when only the end lies past the line, and empty when reversed or starting past the line |
| Spans.Suffix | generate_ast.py:26-27 | `line[a:]`, empty past the end |
| Spans.Prefix | generate_ast.py:24-25 | `line[:b]`, the whole line past the end |
| Spans.LineEnd | generate_ast.py:16 | finds a line feed at or after the start, or the end of the text |
| Spans.LineEndIsFirst | generate_ast.py:16 | the line feed found is the first one |
| Spans.SplitLines | generate_ast.py:16 | a text has at most as many lines as characters |
| Spans.SplitLinesNoFeed | generate_ast.py:16 | no line contains a line feed |
| Spans.SplitFirstLine | generate_ast.py:16 | proof step: one unfolding of `SplitLines`, a text holding a line feed splitting into its first line and the lines of the rest |
| Spans.SplitJoin | generate_ast.py:16 | rejoining the lines with line feeds gives back the text, plus a final line feed when it lacked one |
| Spans.Piece | generate_ast.py:17-29 | no contract of its own; `PieceInterior`, `SpanSingleLine` and `SpanMultiLine` characterise it |
| Spans.SpanText | generate_ast.py:13-32 | no contract of its own; `GetTextBetweenLineCol` is proved to compute it and `SpanSingleLine`, `SpanMultiLine`, `SpanPastLastLine`, `SpanStartsPastEnd` and `SpanReversed` characterise it |
| Spans.GetTextBetweenLineCol | generate_ast.py:13-32 | the scan collects, line by line, what the location covers on that line; it stops after the last line of the location |
| Spans.SpanTextPastEnd | generate_ast.py:20-21 | lines after the location's last line add nothing, so stopping there changes nothing |
| Spans.SpanTextBeforeStart | generate_ast.py:17-19 | lines before the location's first line add nothing |
| Spans.PieceInterior | generate_ast.py:28-29 | proof step: one unfolding of `Piece`, a line strictly inside the location being taken whole |
| Spans.SpanTextInterior | generate_ast.py:26-29 | up to the location's last line, the text is the first line's tail followed by the interior lines whole |
| Spans.SpanSingleLine | generate_ast.py:22-23 | a location on one line yields that line between the two columns |
| Spans.SpanMultiLine | generate_ast.py:13-32 | a location over several lines yields the first line from its column, the lines in between whole, and the last line up to its column |
| Spans.SpanPastLastLine | generate_ast.py:17-29 | a location whose last line lies past the end of the text yields the first line from its column and every later line whole |
| Spans.SpanStartsPastEnd | generate_ast.py:17-19 | a location that starts past the end of the text yields the empty text |
| Spans.SpanReversed | generate_ast.py:17-21 | a location that ends before it starts yields the empty text |

## Left out

- `generate_ast` and `main` are not modelled: they read files, call Python's parser and print. Trees are given as values.
- `Diff.print_code`, `Diff.__repr__` and the `print` calls inside `compare_stmtlist_lcs` are not modelled: they only format and print.
- Node locations are passed to `GetTextBetweenLineCol` as a `Span` value. Nodes carry no location.
- Spans.SplitLines: splits at line feeds only. Python's `str.splitlines` also splits at carriage returns and other separators.
- Spans.GetTextBetweenLineCol: columns count characters. Python's parser counts UTF-8 bytes, so the two agree only on ASCII lines.
- Constants are integers, booleans, strings and `None`. Floating-point, complex, bytes and `Ellipsis` constants are not modelled, nor Python `==` between them and the modelled ones.
- Equality.NodeEqSymmetric: errors carry only their kind. The explicit raise at generate_ast.py:66 formats the first comparison's comparators and operators, and the attribute error names the first left operand's class, so "the same error" holds for the kind, not for the message.
- Anchors are pairs of positions in a sequence, not node objects in a set.
- The two `any(...)` checks after the loop of `compare_Compare` are not modelled. By then the guards have made both cursors reach the end together, so the checks see empty slices.
- Diffing.RecordDeletions and Diffing.RecordAdditions: the two loops of `compare_stmtlist_lcs` are separate methods, called one after the other by Diffing.RecordUnmatched, rather than inline code.
- Alignment.FillRow and Alignment.FillCell: the inner fill loop of `lcs_flattened` and its body are separate methods, rather than inline code.
- Alignment.LcsFlattened: the comparison is a parameter rather than a direct call of `node_equality`; `compare_stmtlist_lcs` passes `NodeEq`.

## Findings

| source | as written | input that shows it | evidently intended | confidence | as-written member | corrected member |
|---|---|---|---|---|---|---|
| generate_ast.py:53 | `compare_Compare` reads `c1.left.id` and `c2.left.id`, which raises when a left operand is not a name | the statement list `if len(x) > 0: pass` compared with itself | the left operands are compared with node equality, like the comparators, so a statement list compared with itself compares equal and records nothing | not executed | Diffing.SelfComparisonCanRaise | Diffing.CorrectedSelfComparisonRecordsNothing |
