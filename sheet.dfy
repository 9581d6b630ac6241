/**
 * The sheet (sheet.cpp) together with the per-cell operations of cell.cpp.
 *
 * The source keeps one heap object per cell, and cells point at each other
 * through two sets of pointers. Here the sheet owns everything: each cell's
 * implementation, cached value, forward edges (the cells its formula
 * includes) and back-edges (the cells whose formulas include it) live in
 * maps keyed by position, and a Cell:: method becomes a Sheet method that
 * takes the cell's position.
 */
module Sheets {
  import opened Wrappers
  import opened Positions
  import opened Formulas
  import opened Cells
  import opened Graphs
  import opened CellTables

  class Sheet {
    /** ParseFormulaAST: the AST of an expression, or None when it does not parse. */
    const parse: string -> Option<Ast>
    /** FormulaAST::Execute against a view of the sheet. */
    const execute: (Ast, SheetView) -> Execution

    /** table_: the occupied positions and each cell's impl_ (None while it is still null). */
    var contents: Contents
    /** cell_cache_ of each cell; a position without an entry has no cached value. */
    var caches: map<Position, Value>
    /** cells_included_in_formula_ of each cell. */
    var deps: Graph
    /** referenced_in_cells_ of each cell. */
    var rdeps: Graph
    /** printable_size_ */
    var size: Size

    /** The sheet invariant: the shape holds and only occupied positions have cached values. */
    ghost predicate Valid()
      reads this
    {
      SheetShape(contents, deps, rdeps, size) && caches.Keys <= contents.Keys
    }

    function Snapshot(): Tables
      reads this
    {
      Tables(contents, caches, deps, rdeps)
    }

    /** The sheet a formula is evaluated against. */
    function View(): SheetView
      reads this
    {
      SheetView(contents, caches)
    }

    /** An empty sheet. */
    constructor (parse: string -> Option<Ast>, execute: (Ast, SheetView) -> Execution)
      ensures Valid()
      ensures this.parse == parse && this.execute == execute
      ensures contents == map[] && caches == map[] && size == EMPTY_SIZE
    {
      this.parse := parse;
      this.execute := execute;
      contents := map[];
      caches := map[];
      deps := map[];
      rdeps := map[];
      size := EMPTY_SIZE;
      new;
      forall a ensures !Reaches(deps, a, a) {
        NoSuccessorsReachNothing(deps, a, a);
      }
    }

    /** Stores new tables and a new printable size that together keep the invariant. */
    method Replace(t: Tables, s: Size)
      requires SheetShape(t.contents, t.deps, t.rdeps, s) && t.caches.Keys <= t.contents.Keys
      modifies this`contents, this`caches, this`deps, this`rdeps, this`size
      ensures Valid() && Snapshot() == t && size == s
    {
      contents, caches, deps, rdeps, size := t.contents, t.caches, t.deps, t.rdeps, s;
    }

    /**
     * Sheet::SetCell: reject an invalid position, grow the printable area
     * to cover it, create the cell if there is none, then Cell::Set.
     */
    method SetCell(pos: Position, text: string) returns (r: Outcome)
      requires Valid()
      modifies this
      decreases |text|, 3
      ensures Valid()
      ensures r == Fail(InvalidPosition) <==> !pos.IsValid()
      ensures !pos.IsValid() ==> unchanged(this)
      ensures pos.IsValid() ==> pos in contents && pos.row < size.rows && pos.col < size.cols
      ensures size.rows >= old(size).rows && size.cols >= old(size).cols
      ensures pos.IsValid() ==> SetEffect(parse, pos, text, r, Created(old(Snapshot()), pos), Snapshot())
      ensures pos.IsValid() && old(pos !in contents) && text == [] ==>
        r == Ok && Snapshot() == Tables(old(contents)[pos := Some(EmptyImpl)], old(caches),
                                        old(deps)[pos := {}], old(rdeps)[pos := {}])
    {
      if ThrowIfInvalidPosition(pos).Fail? {
        return Fail(InvalidPosition);
      }
      ghost var t0 := Snapshot();
      var created := Created(Snapshot(), pos);
      BoundingBoxAfterWrite(contents.Keys, size, pos);
      GraphAfterCreate(contents, deps, rdeps, pos);
      assert created.contents.Keys == contents.Keys + {pos};
      Replace(created, Grown(size, pos));
      r := CellSet(pos, text);
      SetEffectKeys(parse, pos, text, r, created, Snapshot());
      BoundingBoxShrinks(contents.Keys, size, created.contents.Keys, Grown(old(size), pos));
      if pos !in t0.contents && text == [] {
        SetEmptyOnFresh(parse, pos, r, t0, Snapshot());
      }
    }

    /** Sheet::GetCell: the cell at `pos`, if there is one. */
    function GetCell(pos: Position): (r: Result<Option<CellRec>, SheetError>)
      reads this
      ensures r.Failure? <==> !pos.IsValid()
      ensures r.Failure? ==> r.error == InvalidPosition
      ensures r.Success? ==> (r.value.Some? <==> pos in contents)
      ensures Valid() && r.Success? && r.value.Some? ==> pos.row < size.rows && pos.col < size.cols
    {
      if ThrowIfInvalidPosition(pos).Fail? then Failure(InvalidPosition)
      else if pos !in contents then Success(None)
      else Success(Some(CellRec(contents[pos], if pos in caches then Some(caches[pos]) else None,
                                Succ(deps, pos), Succ(rdeps, pos))))
    }

    /**
     * Sheet::ClearCell: the cell at `pos` disappears; the printable area is
     * recomputed when `pos` lies on its last row or last column.
     */
    method ClearCell(pos: Position) returns (r: Outcome)
      requires Valid()
      modifies this`contents, this`caches, this`deps, this`rdeps, this`size
      ensures Valid()
      ensures r == Fail(InvalidPosition) <==> !pos.IsValid()
      ensures r != Fail(InvalidPosition) ==> r == Ok
      ensures !pos.IsValid() ==> unchanged(this)
      ensures pos.IsValid() ==>
        Snapshot() == Tables(old(contents) - {pos}, old(caches) - {pos}, Prune(old(deps), pos), Prune(old(rdeps), pos))
      ensures pos.row != old(size).rows - 1 && pos.col != old(size).cols - 1 ==> size == old(size)
      ensures size.rows <= old(size).rows && size.cols <= old(size).cols
    {
      if ThrowIfInvalidPosition(pos).Fail? {
        return Fail(InvalidPosition);
      }
      RemoveCell(pos);
      FitSize(pos, old(contents).Keys);
      r := Ok;
    }

    /**
     * The cell at `pos` and every edge into or out of it are gone; the
     * printable size is left alone. Where there is no cell nothing changes
     * (RemovalOfAbsent).
     */
    method RemoveCell(pos: Position)
      requires CellGraph(contents, deps, rdeps) && caches.Keys <= contents.Keys
      modifies this`contents, this`caches, this`deps, this`rdeps
      ensures CellGraph(contents, deps, rdeps) && caches.Keys <= contents.Keys
      ensures Snapshot() == Tables(old(contents) - {pos}, old(caches) - {pos}, Prune(old(deps), pos), Prune(old(rdeps), pos))
    {
      GraphAfterRemoval(contents, deps, rdeps, pos);
      contents, caches, deps, rdeps := contents - {pos}, caches - {pos}, Prune(deps, pos), Prune(rdeps, pos);
    }

    /**
     * The tail of Sheet::ClearCell: recompute the printable size when the
     * removed position `pos` lay on its last row or last column.
     */
    method FitSize(pos: Position, ghost keys0: set<Position>)
      requires IsBoundingBox(keys0, size) && contents.Keys == keys0 - {pos}
      modifies this`size
      ensures IsBoundingBox(contents.Keys, size)
      ensures pos.row != old(size).rows - 1 && pos.col != old(size).cols - 1 ==> size == old(size)
      ensures size.rows <= old(size).rows && size.cols <= old(size).cols
    {
      if pos.col == size.cols - 1 || pos.row == size.rows - 1 {
        ChangePrintableSize();
        BoundingBoxShrinks(keys0, old(size), contents.Keys, size);
      } else {
        BoundingBoxAfterInnerRemoval(keys0, old(size), pos);
      }
    }

    /** Sheet::GetPrintableSize: the smallest box holding every cell. */
    function GetPrintableSize(): (s: Size)
      reads this
      ensures Valid() ==> IsBoundingBox(contents.Keys, s)
      ensures Valid() ==> forall q | q in contents :: q.row < s.rows && q.col < s.cols
    {
      size
    }

    /**
     * Sheet::ChangePrintableSize: scan every position of the current box and
     * keep the largest occupied row and column.
     */
    method ChangePrintableSize()
      requires forall q | q in contents :: 0 <= q.row < size.rows && 0 <= q.col < size.cols
      modifies this`size
      ensures IsBoundingBox(contents.Keys, size)
    {
      var maxCol, maxRow := 0, 0;
      var newSize := EMPTY_SIZE;
      ghost var rowWitness, colWitness := NONE, NONE;
      var row := 0;
      while row < size.rows
        invariant size == old(size)
        invariant 0 <= row && (row <= size.rows || row == 0)
        invariant ScanState(contents.Keys, row, 0, newSize, maxRow, maxCol, rowWitness, colWitness)
      {
        var col := 0;
        while col < size.cols
          invariant size == old(size)
          invariant 0 <= col && (col <= size.cols || col == 0)
          invariant ScanState(contents.Keys, row, col, newSize, maxRow, maxCol, rowWitness, colWitness)
        {
          var here := Position(row, col);
          ScanStep(contents.Keys, row, col, newSize, maxRow, maxCol, rowWitness, colWitness);
          if here in contents {
            if col >= maxCol { colWitness := here; }
            if row >= maxRow { rowWitness := here; }
            maxCol := if col > maxCol then col else maxCol;
            maxRow := if row > maxRow then row else maxRow;
            newSize := Size(maxRow + 1, maxCol + 1);
          }
          col := col + 1;
        }
        ScanNextRow(contents.Keys, row, col, newSize, maxRow, maxCol, rowWitness, colWitness);
        row := row + 1;
      }
      ScanComplete(contents.Keys, row, newSize, maxRow, maxCol, rowWitness, colWitness);
      size := newSize;
    }

    /**
     * Cell::Set on the cell at `p`: keep the old content if the text is
     * unchanged, otherwise build the new implementation (a formula is
     * parsed and checked for cycles first), then replace the cell's edges.
     */
    method CellSet(p: Position, text: string) returns (r: Outcome)
      requires Valid() && p in contents
      modifies this
      decreases |text|, 2
      ensures Valid()
      ensures SetEffect(parse, p, text, r, old(Snapshot()), Snapshot())
    {
      if contents[p].Some? && ImplText(contents[p].value) == text {
        return Ok;
      }
      if |text| > 1 && text[0] == FORMULA_SIGN {
        r := SetFormula(p, text);
      } else {
        r := SetPlain(p, text);
      }
    }

    /**
     * The formula branch of Cell::Set: construct the Formula (parsing may
     * fail), run CheckCircularError on its references, and only then
     * install it.
     */
    method SetFormula(p: Position, text: string) returns (r: Outcome)
      requires Valid() && p in contents && KindOf(text) == FormulaKind
      requires !(contents[p].Some? && ImplText(contents[p].value) == text)
      modifies this
      decreases |text|, 1
      ensures Valid()
      ensures SetEffect(parse, p, text, r, old(Snapshot()), Snapshot())
    {
      ghost var t0 := Snapshot();
      var parsed := ParseFormula(parse, text[1..]);
      if parsed.Failure? {
        return Fail(FormulaParse);
      }
      var impl := FormulaImpl(parsed.value);
      var refs := GetReferencedCells(parsed.value);
      assert Some(impl) == NewImpl(parse, text) && refs == ImplReferenced(impl);
      ReferencedAreValid(parsed.value.ast.cells, NONE);
      var cyclic := CheckCircular(p, refs);
      if cyclic {
        SetCaught(parse, p, text, t0, Snapshot());
        return Fail(CircularDependency);
      }
      ghost var t1 := Snapshot();
      NoPathBackAfterClear(t0.deps, contents.Keys, p, refs);
      r := Install(p, impl, refs);
      SetCommitted(parse, p, text, r, impl, t0, t1, Snapshot());
    }

    /** The Empty and Text branches of Cell::Set: install content without references. */
    method SetPlain(p: Position, text: string) returns (r: Outcome)
      requires Valid() && p in contents && KindOf(text) != FormulaKind
      requires !(contents[p].Some? && ImplText(contents[p].value) == text)
      modifies this`contents, this`caches, this`deps, this`rdeps
      ensures Valid()
      ensures SetEffect(parse, p, text, r, old(Snapshot()), Snapshot())
    {
      ghost var t0 := Snapshot();
      var impl := PlainImpl(text);
      assert NewImpl(parse, text) == Some(impl) && ImplReferenced(impl) == [];
      assert t0.contents.Keys + RefSet([]) == t0.contents.Keys;
      FilledOwnKeys(t0);
      NoPathBackAfterClear(t0.deps, contents.Keys, p, []);
      r := Install(p, impl, []);
      SetCommitted(parse, p, text, r, impl, t0, t0, Snapshot());
    }

    /**
     * The end of Cell::Set: store the new implementation, then ClearEdges
     * and AddEdges with the references it reads.
     */
    method Install(p: Position, impl: Content, refs: seq<Position>) returns (r: Outcome)
      requires Valid() && p in contents && WellFormedContent(impl)
      requires RefSet(refs) <= contents.Keys
      requires forall q | q in refs && q != p :: !Reaches(deps[p := {}], q, p)
      modifies this`contents, this`caches, this`deps, this`rdeps
      ensures Valid()
      ensures r == Ok <==> p !in refs
      ensures r != Ok ==> r == Fail(CircularDependency)
      ensures Snapshot() == Installed(old(Snapshot()), p, impl, refs)
    {
      GraphWithContent(contents, deps, rdeps, p, impl);
      contents := contents[p := Some(impl)];
      assert contents.Keys == old(contents).Keys;
      ClearEdges(p);
      r := AddEdges(p, refs);
    }

    /** Cell::Clear: drop the formula's edges, invalidate dependants, become Empty. */
    method CellClear(p: Position)
      requires Valid() && p in contents
      modifies this`contents, this`caches, this`deps
      ensures Valid()
      ensures Snapshot() == Tables(old(contents)[p := Some(EmptyImpl)],
                                   old(caches) - InvalidatedIn(old(contents).Keys, old(rdeps), p),
                                   old(deps)[p := {}], old(rdeps))
    {
      GraphWithoutEdges(contents, deps, rdeps, p);
      deps := deps[p := {}];
      ClearCache(p);
      GraphWithContent(contents, deps, rdeps, p, EmptyImpl);
      contents := contents[p := Some(EmptyImpl)];
    }

    /**
     * Cell::GetValue: the cached value if there is one, otherwise the value
     * computed from the content, which is then cached.
     */
    method CellGetValue(p: Position) returns (v: Value)
      requires Valid() && p in contents && contents[p].Some?
      modifies this`caches
      ensures Valid()
      ensures caches == old(caches)[p := v]
      ensures p in old(caches) ==> v == old(caches)[p]
      ensures p !in old(caches) ==> v == ImplValue(contents[p].value, execute, old(View()))
    {
      if p !in caches {
        caches := caches[p := ImplValue(contents[p].value, execute, View())];
      }
      v := caches[p];
    }

    /** Cell::GetText: the text that, written back, leaves the cell unchanged. */
    function CellGetText(p: Position): (t: string)
      reads this
      requires p in contents && contents[p].Some?
      ensures contents[p].value.EmptyImpl? ==> t == []
      ensures Valid() && t == [] ==> contents[p].value.EmptyImpl?
      ensures Valid() && contents[p].value.TextImpl? ==> KindOf(t) == TextKind
      ensures contents[p].value.FormulaImpl? ==> |t| > 0 && t[0] == FORMULA_SIGN
    {
      ImplText(contents[p].value)
    }

    /** Cell::GetReferencedCells: the positions the cell's formula reads. */
    function CellGetReferencedCells(p: Position): (refs: seq<Position>)
      reads this
      requires p in contents && contents[p].Some?
      ensures !contents[p].value.FormulaImpl? ==> refs == []
      ensures Valid() ==> forall q | q in refs :: q.IsValid()
      ensures Valid() && contents[p].value.FormulaImpl? ==>
        forall q :: q in refs <==> q in contents[p].value.formula.ast.cells && q.IsValid()
    {
      ImplReferenced(contents[p].value)
    }

    /**
     * Cell::AddEdges on the cell at `p`, whose forward edges were just
     * cleared: the back-edges and edges that the loop of EdgesFor records
     * replace the sheet's.
     */
    method AddEdges(p: Position, refs: seq<Position>) returns (r: Outcome)
      requires Valid() && p in contents && deps[p] == {}
      requires RefSet(refs) <= contents.Keys
      requires forall q | q in refs && q != p :: !Reaches(deps, q, p)
      modifies this`deps, this`rdeps
      ensures Valid()
      ensures r == Ok <==> p !in refs
      ensures r != Ok ==> r == Fail(CircularDependency)
      ensures Snapshot() == EdgesAdded(old(Snapshot()), p, refs)
    {
      var d, rd;
      d, rd, r := EdgesFor(deps, rdeps, contents.Keys, p, refs);
      SetEdges(p, refs, d, rd);
    }

    /** Stores the edges and back-edges AddEdges recorded for `p`. */
    method SetEdges(p: Position, refs: seq<Position>, d: Graph, rd: Graph)
      requires Valid() && p in contents && deps[p] == {}
      requires RefSet(refs) <= contents.Keys
      requires forall q | q in refs && q != p :: !Reaches(deps, q, p)
      requires d == EdgesAdded(Snapshot(), p, refs).deps && rd == EdgesAdded(Snapshot(), p, refs).rdeps
      modifies this`deps, this`rdeps
      ensures Valid() && Snapshot() == EdgesAdded(old(Snapshot()), p, refs)
    {
      EdgesAddedShape(Snapshot(), size, p, refs);
      deps, rdeps := d, rd;
    }

    /** Cell::ClearEdges: invalidate dependants, then forget the formula's edges. */
    method ClearEdges(p: Position)
      requires Valid() && p in contents
      modifies this`caches, this`deps
      ensures Valid()
      ensures Snapshot() == EdgesCleared(old(Snapshot()), p)
    {
      ClearCache(p);
      GraphWithoutEdges(contents, deps, rdeps, p);
      deps := deps[p := {}];
    }

    /**
     * Cell::CheckCircularError(cells): search from each reference in order
     * for a path back to `p`, materialising an absent reference as an Empty
     * cell first. The search shares one set of checked cells across all
     * references.
     */
    method CheckCircular(p: Position, refs: seq<Position>) returns (cyclic: bool)
      requires Valid() && p in contents
      requires forall q | q in refs :: q.IsValid()
      modifies this
      decreases 1, 2
      ensures Valid()
      ensures cyclic <==> exists q | q in refs :: Reaches(old(deps), q, p)
      ensures old(contents).Keys <= contents.Keys <= old(contents).Keys + RefSet(refs)
      ensures !cyclic ==> contents.Keys == old(contents).Keys + RefSet(refs)
      ensures cyclic ==> contents.Keys == old(contents).Keys + RefSet(Searched(old(deps), p, refs))
      ensures Snapshot() == Filled(old(Snapshot()), contents.Keys)
    {
      ghost var t0 := Snapshot();
      FilledOwnKeys(t0);
      SearchStart(t0, p, refs);
      var checked := {p};
      var i := 0;
      while i < |refs|
        invariant Valid() && p in contents
        invariant Snapshot() == Filled(t0, contents.Keys)
        invariant SearchedUpTo(t0, p, refs, i, checked, contents.Keys)
      {
        ghost var keys := contents.Keys;
        SearchKeys(t0, p, refs, i, checked, keys);
        var found, checked' := CheckRef(p, refs[i], checked, t0);
        if found {
          SearchFoundKeys(t0, p, refs, i, checked, keys);
          return true;
        }
        SearchedPrefix(t0, p, refs, i, checked, checked', keys);
        checked := checked';
        i := i + 1;
      }
      NoneLeadsBack(t0, p, refs, checked, contents.Keys);
      cyclic := false;
    }

    /**
     * One turn of the loop of Cell::CheckCircularError(cells): give the
     * reference `q` a cell if it has none, then search from it for a path
     * back to `p` over the current forward edges, which have the
     * successors of `t0`'s.
     */
    method CheckRef(p: Position, q: Position, checked: set<Position>, ghost t0: Tables)
      returns (found: bool, checked': set<Position>)
      requires Valid() && p in contents && q.IsValid()
      requires t0.deps.Keys == t0.contents.Keys && t0.rdeps.Keys == t0.contents.Keys
      requires t0.contents.Keys <= contents.Keys && Snapshot() == Filled(t0, contents.Keys)
      requires p in checked && checked <= contents.Keys && ClosedAwayFrom(t0.deps, p, checked)
      modifies this
      decreases 1, 1
      ensures Valid() && p in contents
      ensures contents.Keys == old(contents).Keys + {q}
      ensures Snapshot() == Filled(t0, contents.Keys)
      ensures found ==> Reaches(t0.deps, q, p)
      ensures !found ==> checked <= checked' <= contents.Keys
      ensures !found ==> Succ(t0.deps, q) <= checked' && p !in Succ(t0.deps, q) && ClosedAwayFrom(t0.deps, p, checked')
    {
      ghost var keys := contents.Keys;
      Materialize(q);
      FilledTwice(t0, keys, contents.Keys);
      RestrictSucc(t0.deps, contents.Keys);
      found, checked' := CheckCircularFrom(deps, p, q, checked);
      SearchResult(deps, t0.deps, p, q, checked, checked', found);
    }

    /**
     * The statement of Cell::CheckCircularError that gives an absent
     * reference a cell: SetCell(pos, "") when there is no cell at `q`.
     */
    method Materialize(q: Position)
      requires Valid() && q.IsValid()
      modifies this
      decreases 1, 0
      ensures Valid() && q in contents
      ensures contents.Keys == old(contents).Keys + {q}
      ensures Snapshot() == Filled(old(Snapshot()), contents.Keys)
    {
      ghost var t0 := Snapshot();
      if q !in contents {
        var _ := SetCell(q, "");
        FilledOneMore(t0, q);
      } else {
        FilledOwnKeys(t0);
      }
    }

    /**
     * Cell::ClearCache: drop the cached value of `p` and of every cell that
     * depends on it, following back-edges.
     */
    method ClearCache(p: Position)
      requires Valid() && p in contents
      modifies this`caches
      ensures Valid()
      ensures caches == old(caches) - InvalidatedIn(contents.Keys, rdeps, p)
    {
      var checked := {p};
      caches := caches - {p};
      if rdeps[p] != {} {
        forall q | q in rdeps[p] ensures Reaches(rdeps, p, q) {
          Step(rdeps, p, q);
        }
        checked := ClearCaches(p, checked, rdeps[p]);
      }
      SweepIsInvalidated(rdeps, contents.Keys, p, checked);
    }

    /**
     * Cell::ClearCaches as evidently intended: every unchecked cell among
     * `refs` loses its own cached value, is marked checked, and passes the
     * sweep on to the cells that depend on it. `origin` is the cell the
     * sweep started from.
     */
    method ClearCaches(ghost origin: Position, checked: set<Position>, refs: set<Position>)
      returns (checked': set<Position>)
      requires rdeps.Keys == contents.Keys && forall q | q in rdeps :: rdeps[q] <= contents.Keys
      requires origin in checked && checked <= contents.Keys && refs <= contents.Keys
      requires forall q | q in refs :: Reaches(rdeps, origin, q)
      modifies this`caches
      decreases contents.Keys - checked
      ensures checked <= checked' <= contents.Keys && refs <= checked'
      ensures forall x | x in checked' - checked :: Succ(rdeps, x) <= checked' && Reaches(rdeps, origin, x)
      ensures caches == old(caches) - (checked' - checked)
    {
      checked' := checked;
      var todo := refs;
      while todo != {}
        invariant todo <= refs
        invariant checked <= checked' <= contents.Keys
        invariant refs - todo <= checked'
        invariant forall x | x in checked' - checked :: Succ(rdeps, x) <= checked' && Reaches(rdeps, origin, x)
        invariant caches == old(caches) - (checked' - checked)
        decreases todo
      {
        var c :| c in todo;
        todo := todo - {c};
        if c !in checked' {
          caches := caches - {c};
          checked' := checked' + {c};
          forall q | q in rdeps[c] ensures Reaches(rdeps, origin, q) {
            Step(rdeps, c, q);
            Trans(rdeps, origin, c, q);
          }
          checked' := ClearCaches(origin, checked', rdeps[c]);
        }
      }
    }
  }
}
