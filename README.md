# Spreadsheet cell graph, value cache and sheet storage

A Dafny model of the core of a small C++ spreadsheet engine:

- the `Sheet`'s sparse table of cells and its printable size;
- `Cell::Set` with its cycle check and the rebuilding of forward edges
  (`cells_included_in_formula_`) and back-edges (`referenced_in_cells_`);
- each cell's memoised value and its invalidation along back-edges;
- the list of referenced positions that the `Formula` wrapper builds
  from a parsed expression.

## Layout

- `wrappers.dfy` (module `Wrappers`): `Option` and `Result`.
- `positions.dfy` (module `Positions`): `Position`, `Size`, the grid
  constants and the exact-bounding-box predicate.
- `graph.dfy` (module `Graphs`): reachability over position graphs, and
  the theorem that re-pointing one cell keeps the graph acyclic exactly
  when none of its new targets leads back to it.
- `formula.dfy` (module `Formulas`): the `Formula` constructor's filter
  loop, `GetReferencedCells` and `Evaluate`.
- `cell_content.dfy` (module `Cells`): the Empty, Text and Formula
  implementations and their projections.
- `tables.dfy` (module `CellTables`): the sheet invariant, and the whole
  effect of `Cell::Set` stated as a relation between two snapshots of the
  tables (`SetEffect`). It also holds the lemmas about that relation, the
  edge-recording loop of `AddEdges` and the depth-first search of
  `CheckCircularError`.
- `sheet.dfy` (module `Sheets`): class `Sheet`.
- `findings.dfy` (module `ClearCacheFindings`): `Cell::ClearCache` as
  written, with counterexamples.

### The `Sheet` class

In the source, each cell is a heap object, and cells point at each other.
In the model, the `Sheet` owns everything in maps keyed by position:

- `contents`: the occupied positions and each cell's `impl_`. `None`
  stands for a cell whose `impl_` is still null.
- `caches`: each cell's `cell_cache_`.
- `deps`: the forward edges.
- `rdeps`: the back-edges.
- `size`: `printable_size_`.

A `Cell::` method becomes a `Sheet` method that takes the cell's position.
`Valid()` is the invariant every operation keeps:

- cells sit at valid positions;
- every cell has both edge sets, and edges point only at cells;
- the forward edges are acyclic;
- every forward edge has its back-edge;
- stored formulas are well formed;
- only cells have cached values;
- `size` is the exact bounding box of the cells.

Back-edges may be a superset of the transposed forward edges, because
`ClearEdges` never removes stale back-edges.

### Formula library and evaluation

The formula library (`ParseFormulaAST`, `FormulaAST::Execute`,
`PrintFormula`) is not part of this model. The sheet is built with two
functions, `parse` and `execute`, that stand for it. An `Ast` is seen only
through two things: the list of cells it mentions and its printed form.

### Behaviours of the code that the model keeps

- **Self-reference is caught late.** `CheckCircularError` follows only the
  existing forward edges of the referenced cells. So writing `=A1` into
  A1 passes it. The exception comes from `AddEdges`, after `impl_` has
  been replaced and A1's own back-edge has been inserted.
  `CellTables.SetSelfReference` states this outcome. `SetEffect` still
  proves that the two stages together reject exactly the edits that would
  make the forward edges cyclic.
- **A rejected write is not atomic.** `SetCell` grows the printable size
  and creates the cell before `Cell::Set` runs (sheet.cpp:31-46).
  `CheckCircularError` gives each reference an Empty cell just before
  searching from it (cell.cpp:122-129). So when a cycle is found, exactly
  the references up to and including the first one that leads back have
  cells afterwards (`CellTables.Searched`). On a self-reference the new
  content also stays (see above). All of this remains when the write is
  rejected.
- **Back-edges are never removed.** `Cell::Clear` and `ClearEdges` only
  empty the forward edges (cell.cpp:74-78, 110-115), and `AddEdges` only
  inserts. The back-edges are therefore a superset of the reversed
  forward edges (`CellTables.SetKeepsBackEdges`). `Sheets.Sheet.CellClear`
  keeps them unchanged.
- **Invalidation runs once per write, before the new edges exist.**
  `ClearEdges` sweeps the back-edges of the cell as they stand, and
  `AddEdges` runs after it. Because every forward edge has its back-edge,
  that sweep still reaches every cell that depends on the written one,
  whether through the old or the new forward edges
  (`CellTables.DependantsInvalidated`, `CellTables.SetInvalidatesDependants`).

## Model

| member | source | states |
|---|---|---|
| Cells.KindOf | cell.cpp:58-68 | a text is a formula iff it has more than one character and starts with '='; it is Empty iff it is empty; everything else, a lone '=' included, is Text |
| Cells.PlainImpl | cell.cpp:63-68 | a non-formula text is stored as Empty iff it is empty; the stored content shows exactly that text and references nothing |
| Cells.ImplText | cell.cpp:173-211 | GetText is "" for Empty, the stored text verbatim for Text, and '=' followed by the canonical expression for a formula |
| Cells.ImplReferenced | cell.cpp:177-214 | Empty and Text reference nothing; a well-formed formula references exactly the valid positions its AST mentions |
| Cells.ImplValue | cell.cpp:169-207 | Empty and Text give text values; a formula never gives text; the value is a number carrying the executed result when execution returns, and an error carrying the raised FormulaError exactly when it throws |
| Cells.TextValueAgainstText | cell.cpp:181-190 | for non-formula content, GetText equals GetValue with one escape sign put back when the text starts with one, and equals it otherwise |
| Cells.FormulaTextIsFormula | cell.cpp:209-211 | writing back the text a formula cell shows is classified as a formula again whenever the printed expression is non-empty |
| Formulas.FilterReferenced | formula.cpp:19-25 | the constructor's loop computes the referenced list that ReferencedFrom defines, starting from NONE |
| Formulas.ReferencedAreValid | formula.cpp:21 | every referenced position is valid |
| Formulas.ReferencedNoAdjacentDuplicates | formula.cpp:19-24 | no two consecutive entries are equal, and the first differs from the starting `prev` (global uniqueness is not claimed) |
| Formulas.ReferencedIsSubsequence | formula.cpp:20-22 | the referenced list keeps the AST's order: it is a subsequence of the AST's cell list |
| Formulas.ReferencedCoversValid | formula.cpp:20-24 | every valid position of the AST's list is in the result or equals `prev`, because a skipped entry equals the last one kept |
| Formulas.ReferencedExactlyValid | formula.cpp:19-25 | starting from NONE, a position is referenced iff it is a valid position of the AST's cell list |
| Formulas.ParseFormula | formula.cpp:18-29 | construction fails (FormulaException) iff the expression does not parse; otherwise the Formula holds that AST and its well-formed referenced list |
| Formulas.GetReferencedCells | formula.cpp:47-49 | the stored list: exactly the valid cells of the AST, in AST order, without adjacent duplicates |
| Formulas.Evaluate | formula.cpp:30-39 | the result is a number iff execution returns one; a thrown FormulaError becomes an error value carrying that error |
| Positions.Grown | sheet.cpp:31-37 | the grown size never shrinks, covers `pos`, and changes a dimension only to `pos`'s row or column plus one |
| Positions.BoundingBoxAfterWrite | sheet.cpp:31-37 | growing the size on a write keeps it the exact bounding box of the occupied positions |
| Positions.BoundingBoxAfterInnerRemoval | sheet.cpp:79-81 | removing a position off the last row and the last column keeps the size exact, so skipping the rescan is sound |
| Positions.BoundingBoxShrinks | sheet.cpp:134-153 | fewer occupied positions never give a larger bounding box |
| Graphs.RedirectAcyclic | cell.cpp:117-143 | re-pointing a cell of an acyclic graph keeps it acyclic iff the cell is not among its new targets and none of them reaches it: the criterion the two stages of the cycle check implement |
| CellTables.ThrowIfInvalidPosition | sheet.cpp:124-132 | Ok iff row and column are in [0, 16384); otherwise InvalidPosition |
| CellTables.NewImpl | cell.cpp:58-68 | no content iff the text is a formula that does not parse; the content is well formed and shows the written text, or '=' followed by the canonical expression |
| CellTables.DependantsInvalidated | cell.cpp:97-115 | because AddEdges gives every forward edge its back-edge, a cell with a forward path to `p` is among the cells the sweep from `p` invalidates |
| CellTables.SweepIsInvalidated | cell.cpp:145-166 | a visited set closed under back-edges, holding only cells back-reachable from the start, is exactly the set of cells to invalidate |
| CellTables.GraphAfterCreate | sheet.cpp:39-43 | creating a cell with no content and no edges at an unoccupied valid position keeps the cell-graph invariant |
| CellTables.GraphAfterRemoval | sheet.cpp:72-77 | removing a cell and pruning it from every edge set keeps the cell-graph invariant |
| CellTables.RemovalOfAbsent | sheet.cpp:72-77 | clearing an unoccupied position changes no cell and no edge |
| CellTables.EdgesAddedShape | cell.cpp:97-107 | the edges AddEdges records keep the sheet invariant when the cell had no forward edges and no other reference leads back to it |
| CellTables.ScanStep | sheet.cpp:143-149 | one position of the scan: an occupied one raises the maxima and witnesses them, an unoccupied one changes nothing |
| CellTables.ScanNextRow | sheet.cpp:138-151 | finishing a row moves the scan to the next row with the same maxima |
| CellTables.ScanComplete | sheet.cpp:134-153 | after the whole box is scanned, the new size is {max row + 1, max col + 1}, or {0, 0} with no cells: the exact bounding box |
| CellTables.SetCaught | cell.cpp:58-62 | when a reference leads back through the existing edges, Set throws CircularDependency and the only change is Empty cells at the references up to and including the first one that leads back |
| CellTables.SetCommitted | cell.cpp:58-72 | when no reference leads back, Set installs the content and edges, succeeds iff the cell does not reference itself, and succeeds iff the new forward edges are acyclic |
| CellTables.SetInvalidatesDependants | cell.cpp:69-70 | after a committed change neither the cell nor any cell depending on it through the new forward edges has a cached value |
| CellTables.SetKeepsBackEdges | cell.cpp:97-115 | Set never removes a back-edge: every cell's back-edges afterwards include those it had before |
| CellTables.SearchedFirst | cell.cpp:122-130 | when the i-th reference is the first that leads back, the references searched (and materialised) are exactly the first i + 1 |
| CellTables.SetEffectKeys | cell.cpp:53-72 | Set never removes a cell and ends Ok, CircularDependency or FormulaParse |
| CellTables.SetRejectedKeepsCell | cell.cpp:58-61 | a parse failure or a cycle through another cell leaves the cell's content, its forward edges and every cache unchanged |
| CellTables.SetSelfReference | cell.cpp:97-108 | a CircularDependency that the search did not catch means the cell references itself; its new content stays committed and it is in its own back-edges |
| CellTables.SetOkEdges | cell.cpp:69-70 | after a committed change the content is the new one, the forward edges are exactly the referenced positions, and each of them has this cell as a back-edge |
| CellTables.SetEffectCommitted | cell.cpp:53-72 | with no path back, the referenced positions all exist afterwards and the tables are the installed content and edges with the dependants' caches dropped |
| CellTables.WriteAfterClearAccepted | sheet.cpp:70-83 | after a position is cleared, a write to it that parses and does not name the position itself is accepted whatever the other cells' formulas read, and no other cell has a forward edge to it afterwards, so a cycle through the cleared position goes undetected |
| CellTables.FirstWriteEmptyOnlyOnParseFailure | sheet.cpp:39-43 | after the first write to an unoccupied position the new cell has no content exactly when the write failed with FormulaException; the cycle check never fails there |
| CellTables.FailedFirstWriteLeavesNoContent | sheet.cpp:39-43 | the first write to an unoccupied position with a formula that does not parse fails with FormulaException and leaves a cell without content |
| CellTables.SetEmptyOnFresh | sheet.cpp:39-43 | writing "" to an unoccupied position succeeds and adds exactly an Empty cell without edges, leaving every cache alone |
| CellTables.EdgesFor | cell.cpp:97-108 | the loop inserts back-edges up to and including the first self-reference, forward edges to all others reached, and fails iff the cell references itself |
| CellTables.CheckCircularFrom | cell.cpp:133-143 | a reported cycle is a real path back to the cell; otherwise every newly checked cell has its successors checked and no edge into the cell |
| Sheets.Sheet.constructor | sheet.h:33-34 | a new sheet has no cells, no caches and size {0, 0}, and is valid |
| Sheets.Sheet.SetCell | sheet.cpp:28-48 | rejects exactly invalid positions without change; otherwise the cell exists inside a size that never shrinks, and the tables change as SetEffect says from the sheet with the cell created |
| Sheets.Sheet.GetCell | sheet.cpp:50-68 | fails iff the position is invalid; otherwise returns a cell iff the position is occupied, and that cell lies inside the printable size |
| Sheets.Sheet.ClearCell | sheet.cpp:70-83 | rejects exactly invalid positions without change; otherwise removes the cell and every edge touching it, keeps all other cells, leaves the size alone unless the position was on the last row or column, and never grows it |
| Sheets.Sheet.RemoveCell | sheet.cpp:72-77 | the cell and every edge touching it are gone; the invariant on edges and caches is kept |
| Sheets.Sheet.FitSize | sheet.cpp:79-81 | the size is again the exact bounding box, unchanged unless the removed position was on the last row or column |
| Sheets.Sheet.GetPrintableSize | sheet.cpp:85-87 | the returned size is the exact bounding box of the cells, so every cell lies inside it |
| Sheets.Sheet.ChangePrintableSize | sheet.cpp:134-153 | the rescan sets the size to the exact bounding box of the occupied positions |
| Sheets.Sheet.CellSet | cell.cpp:53-72 | the whole effect of Cell::Set (SetEffect): no-op on the same text, parse failure without change, materialisation of the references, and a cycle rejected exactly when the new edges would be cyclic |
| Sheets.Sheet.SetFormula | cell.cpp:58-62 | the formula branch: parse, check for cycles, then install, with the effect SetEffect states |
| Sheets.Sheet.SetPlain | cell.cpp:63-68 | the Empty and Text branches, with the effect SetEffect states |
| Sheets.Sheet.Install | cell.cpp:61-70 | stores the content, then ClearEdges and AddEdges; fails iff the cell references itself |
| Sheets.Sheet.CellClear | cell.cpp:74-78 | the content becomes Empty, the forward edges go, the dependants' caches are dropped, and the back-edges stay |
| Sheets.Sheet.CellGetValue | cell.cpp:80-85 | returns the cached value when there is one, otherwise the value computed from the content; either way the cache then holds the returned value, so a repeat call returns it again |
| Sheets.Sheet.CellGetText | cell.cpp:87-89 | "" exactly for Empty; a Text cell's text is classified as Text again; a formula's text starts with '=' |
| Sheets.Sheet.CellGetReferencedCells | cell.cpp:91-93 | only formulas reference positions; all are valid, and they are exactly the valid positions the AST mentions |
| Sheets.Sheet.AddEdges | cell.cpp:97-108 | keeps the sheet invariant; fails iff the cell references itself; the edges are those EdgesFor records |
| Sheets.Sheet.ClearEdges | cell.cpp:110-115 | the dependants' caches are dropped and the forward edges emptied; back-edges stay |
| Sheets.Sheet.CheckCircular | cell.cpp:117-131 | reports a cycle iff some reference reaches the cell over the existing forward edges; only Empty cells without edges are added: at every reference when there is no cycle, and at exactly the references up to and including the first that leads back when there is one |
| Sheets.Sheet.CheckRef | cell.cpp:123-129 | one reference: it is materialised, a reported cycle is a real path back, and otherwise its successors are checked and lead away from the cell |
| Sheets.Sheet.Materialize | cell.cpp:124-128 | an absent reference becomes an Empty cell without edges, through SetCell(pos, "") |
| Sheets.Sheet.ClearCache | cell.cpp:145-154 | the cell and every cell back-reachable from it lose their cached values, and no other cache changes |
| Sheets.Sheet.ClearCaches | cell.cpp:156-166 | each unchecked cell reached loses its own cache and is checked once; the newly checked cells are back-reachable and closed under back-edges |
| ClearCacheFindings.ClearCachesAsWritten | cell.cpp:156-166 | as written: when the recursion ends, every listed cell has been marked checked, and no cached value but the start cell's is ever removed or changed; None when the fuel runs out |
| ClearCacheFindings.ClearCacheAsWritten | cell.cpp:145-154 | as written: when the sweep ends it has removed exactly the start cell's own cached value and no dependant's; with no back-edges it always ends |
| ClearCacheFindings.StaleDependant | cell.cpp:159-160 | as written, clearing A1 with B1 depending on it leaves B1's stale cache, which the intended sweep drops |
| ClearCacheFindings.ListedCycleNeverEnds | cell.cpp:163-164 | as written, a sweep that meets two cells listing each other as back-edges, or one cell listing itself, never ends, for any recursion depth |
| ClearCacheFindings.SelfBackEdgeDiverges | cell.cpp:163-164 | after A1 lands in its own back-edges, ClearCache on A1 as written never ends, while the intended sweep invalidates just A1 |
| ClearCacheFindings.StaleBackEdgesDiverge | cell.cpp:163-164 | once A1 and B1 list each other as back-edges (a stale one and a current one), ClearCache on A1 as written never ends, while the intended sweep invalidates A1 and B1 |

## Left out

- Rendering: `PrintValues`, `PrintTexts`, `PrintWithFunction` and
  `operator<<` for values (sheet.cpp:15-26, 90-118). They are stream output
  and double formatting.
- `CreateSheet` and `GetSheetReference`: trivial plumbing.
- The formula library (`ParseFormulaAST`, `FormulaAST::Execute`,
  `PrintFormula`) is not part of this model. It is replaced by the `parse`
  and `execute` functions a sheet is built with. `GetExpression` is the
  AST's printed form.
- Numbers are an opaque type, with no floating-point arithmetic.
- Formulas are executed against a snapshot of the sheet. The cache fills
  that nested `GetValue` calls make during `Execute` are not modelled.
- Sheets.Sheet.Valid: does not state that every cached value equals what
  the cell's content evaluates to now. The model proves which caches each
  operation drops (`CellTables.SetInvalidatesDependants`), not that the
  rest stay correct. Two reasons. `ClearCell` in the code never
  invalidates the cells that depend on the cleared one, so those caches
  can go stale. And `execute` may read the whole sheet view, not only the
  referenced cells.
- `std::set<Cell*>` iteration order is abstract: the search and the sweep
  pick an arbitrary element. The `AddEdges` loop keeps the
  referenced-list order.
- Sheets.Sheet.ClearCell and Sheets.Sheet.RemoveCell: the code resets the cell's `unique_ptr` and
  leaves a null entry in `table_`. The cell is not destroyed through
  `Cell::Clear`, so dependants are not invalidated, and other cells keep
  dangling pointers to it. A later `SetCell` at that position would
  dereference the null entry. The model instead removes the cell and
  prunes it from every edge set. A later write re-creates it. What this
  choice costs: the cells whose formulas read the cleared position lose
  their forward edges to it, so a later write there that reads one of
  them closes a cycle the check does not see. For example, B1 := `=A1`,
  then ClearCell(A1), then A1 := `=B1` is accepted, and A1 and B1 read
  each other (`CellTables.WriteAfterClearAccepted`).
- Sheets.Sheet.CellGetValue and Sheets.Sheet.CellGetText: both require
  the cell to have a content, and the model does not say what happens
  without one. The code reaches that state. `SetCell` creates the cell
  (sheet.cpp:41) before it calls `Set` (sheet.cpp:42). That first `Set`
  leaves `impl_` null only when the formula does not parse (cell.cpp:59).
  The cycle check cannot fail there: no forward edge leads to a cell just
  created, and a self-reference is caught in `AddEdges` after `impl_` is
  assigned (`CellTables.FirstWriteEmptyOnlyOnParseFailure`). A later
  `Set` on that cell that fails the cycle check keeps it null, which the
  null guard at cell.cpp:54 allows (`CellTables.SetRejectedKeepsCell`).
  Afterwards `GetValue` (cell.cpp:82), `GetText` (cell.cpp:88) and
  `PrintValues`/`PrintTexts` (sheet.cpp:104-109) dereference the null
  pointer. The model keeps the cell with no content
  (`CellTables.FailedFirstWriteLeavesNoContent`) and does not model the
  crash.
- Sheets.Sheet.CheckCircular: the `checked` set gates only the inner
  recursion (CellTables.CheckCircularFrom), so that recursion expands a
  cell at most once per search. The top-level loop over the references
  (cell.cpp:122-130, Sheets.Sheet.CheckRef) starts a search from every
  reference whatever `checked` holds. That the inner recursion expands
  each cell at most once is only implicit, in the shrinking unchecked set
  that bounds it. It is not stated as a postcondition.
- Sheets.Sheet.ClearCache and Sheets.Sheet.ClearCaches model the evidently
  intended sweep (see Findings), not the code as written.
- Exceptions become the `Outcome` datatype: `InvalidPosition`,
  `CircularDependency` and `FormulaParse`.

## Findings

| source | as written | input that shows it | evidently intended | confidence | as-written member | corrected member |
|---|---|---|---|---|---|---|
| cell.cpp:159-160 | the sweep resets `cell_cache_` of the cell it started from whenever a visited dependant has a cached value | B1 holds a formula reading A1, both have cached values, and A1's cache is cleared: B1 keeps its stale value | reset the visited cell's own cache (`cell_ptr->cell_cache_`), so every dependant is left uncached | high; not executed | ClearCacheFindings.StaleDependant | Sheets.Sheet.ClearCache |
| cell.cpp:163-164 | every listed cell is marked and recursed into, checked or not | writing `=A1` into A1 puts A1 in its own back-edges (cell.cpp:101-104); the next cache clear on A1 recurses without end. Without a self-reference: A1 := `=B1`, A1 := `1`, B1 := `=A1` leaves A1 and B1 listing each other, and the next accepted write to A1, such as A1 := `2`, does not end (ClearCacheFindings.StaleBackEdgesDiverge) | recurse only into cells not yet checked, so each cell is visited once and the sweep ends | high; not executed | ClearCacheFindings.SelfBackEdgeDiverges | Sheets.Sheet.ClearCaches |
