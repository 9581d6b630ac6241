/**
 * The tables behind the sheet, as values: each cell's implementation,
 * cached value, forward edges (cells_included_in_formula_) and back-edges
 * (referenced_in_cells_), keyed by position. Here live the invariant the
 * sheet keeps, the effect of Cell::Set stated over these tables, and the
 * graph searches of cell.cpp that only read the edges.
 */
module CellTables {
  import opened Wrappers
  import opened Positions
  import opened Formulas
  import opened Cells
  import opened Graphs

  /** InvalidPositionException, CircularDependencyException and FormulaException. */
  datatype SheetError = InvalidPosition | CircularDependency | FormulaParse

  /** How a mutating call ends: normally, or by throwing. */
  datatype Outcome = Ok | Fail(error: SheetError)

  type Contents = map<Position, Option<Content>>

  function RefSet(refs: seq<Position>): set<Position> {
    set q | q in refs
  }

  /**
   * The prefix of `refs` that AddEdges gets through: everything up to and
   * including the first occurrence of `p`, or all of `refs` without one.
   */
  function Upto(refs: seq<Position>, p: Position): (u: seq<Position>)
    ensures p !in refs ==> u == refs
    ensures forall q | q in u :: q in refs
  {
    if refs == [] then []
    else if refs[0] == p then [p]
    else [refs[0]] + Upto(refs[1..], p)
  }

  lemma {:induction false} UptoAt(refs: seq<Position>, p: Position, i: int)
    requires 0 <= i < |refs| && refs[i] == p && p !in RefSet(refs[..i])
    ensures Upto(refs, p) == refs[..i + 1]
  {
    if i > 0 {
      assert refs[1..][..i - 1] == refs[1..i];
      UptoAt(refs[1..], p, i - 1);
    }
  }

  /**
   * The prefix of `refs` that CheckCircularError gets through over the
   * forward edges `d`: everything up to and including the first reference
   * that leads back to `p`, or all of `refs` when none does.
   */
  ghost function Searched(d: Graph, p: Position, refs: seq<Position>): (s: seq<Position>)
    ensures forall q | q in s :: q in refs
  {
    if refs == [] then []
    else if Reaches(d, refs[0], p) then [refs[0]]
    else [refs[0]] + Searched(d, p, refs[1..])
  }

  /** When `refs[i]` is the first reference that leads back, the search stops right after it. */
  lemma {:induction false} SearchedFirst(d: Graph, p: Position, refs: seq<Position>, i: int)
    requires 0 <= i < |refs| && Reaches(d, refs[i], p)
    requires forall j | 0 <= j < i :: !Reaches(d, refs[j], p)
    ensures Searched(d, p, refs) == refs[..i + 1]
  {
    if i == 0 {
      assert refs[..1] == [refs[0]];
    } else {
      assert !Reaches(d, refs[0], p);
      SearchedFirst(d, p, refs[1..], i - 1);
      assert refs[1..][..i] == refs[1..i + 1];
      assert refs[..i + 1] == [refs[0]] + refs[1..i + 1];
    }
  }

  /** The cells in `keys`; a position `c` does not hold is a freshly made Empty cell. */
  function FillEmpty(c: Contents, keys: set<Position>): Contents {
    map q | q in keys :: if q in c then c[q] else Some(EmptyImpl)
  }

  /** The edges of `g` over `keys`; a position `g` does not hold has none. */
  function Restrict(g: Graph, keys: set<Position>): Graph {
    map q | q in keys :: Succ(g, q)
  }

  /** `rd` over `keys` with `p` added to the back-edges of every member of `targets`. */
  function WithBackEdge(rd: Graph, keys: set<Position>, p: Position, targets: set<Position>): Graph {
    map q | q in keys :: Succ(rd, q) + (if q in targets then {p} else {})
  }

  /** `m` with `pos` added as `v` unless it is already there. */
  function WithCell<V>(m: map<Position, V>, pos: Position, v: V): map<Position, V> {
    if pos in m then m else m[pos := v]
  }

  /** `p` and every position that depends on it, directly or through other cells. */
  ghost function InvalidatedIn(keys: set<Position>, rd: Graph, p: Position): set<Position> {
    set q | q in keys && (q == p || Reaches(rd, p, q))
  }

  /** Every edge of `g` with `pos` removed as a source and as a target. */
  function Prune(g: Graph, pos: Position): Graph {
    map q | q in g && q != pos :: g[q] - {pos}
  }

  lemma RestrictSucc(g: Graph, keys: set<Position>)
    requires g.Keys <= keys
    ensures forall z :: Succ(Restrict(g, keys), z) == Succ(g, z)
  {
  }

  lemma FillEmptyOwnKeys(c: Contents)
    ensures FillEmpty(c, c.Keys) == c
  {
  }

  lemma RestrictOwnKeys(g: Graph)
    ensures Restrict(g, g.Keys) == g
  {
  }

  /** Extra Empty cells without edges change nothing about who depends on whom. */
  lemma InvalidatedAfterFill(keys0: set<Position>, rd0: Graph, keys: set<Position>, p: Position, k0: map<Position, Value>)
    requires rd0.Keys <= keys0 <= keys && k0.Keys <= keys0
    ensures k0 - InvalidatedIn(keys, Restrict(rd0, keys), p) == k0 - InvalidatedIn(keys0, rd0, p)
  {
    RestrictSucc(rd0, keys);
    SameSuccessorsSameReach(Restrict(rd0, keys), rd0);
    assert forall q | q in keys0 :: q in InvalidatedIn(keys, Restrict(rd0, keys), p) <==> q in InvalidatedIn(keys0, rd0, p);
  }

  /**
   * A set closed under back-edges, holding `p` and only positions that
   * depend on `p`, is exactly what a change of `p` invalidates.
   */
  lemma SweepIsInvalidated(rd: Graph, keys: set<Position>, p: Position, swept: set<Position>)
    requires p in swept && swept <= keys && Succ(rd, p) <= swept
    requires forall x | x in swept - {p} :: Succ(rd, x) <= swept && Reaches(rd, p, x)
    ensures swept == InvalidatedIn(keys, rd, p)
  {
    forall q ensures Reaches(rd, p, q) ==> q in swept {
      ReachesStaysIn(rd, swept, p, q);
    }
  }

  /** Every forward edge has its back-edge. */
  ghost predicate BackEdgesCover(deps: Graph, rdeps: Graph) {
    forall a, b | a in deps && b in deps[a] :: b in rdeps && a in rdeps[b]
  }

  /**
   * The back-edges carry the sweep to every cell that depends on `p`
   * through forward edges: a cell with a forward path to `p` is among the
   * cells whose caches invalidating `p` drops.
   */
  lemma DependantsInvalidated(keys: set<Position>, d: Graph, rd: Graph, p: Position, x: Position)
    requires BackEdgesCover(d, rd) && d.Keys <= keys && Reaches(d, x, p)
    ensures x in InvalidatedIn(keys, rd, p)
  {
    var path :| IsPath(d, path) && |path| >= 2 && path[0] == x && path[|path| - 1] == p;
    assert path[0 + 1] in Succ(d, path[0]);
    var i := |path| - 1;
    while i > 0
      invariant 0 <= i < |path|
      invariant path[i] == p || Reaches(rd, p, path[i])
    {
      var j := i - 1;
      var a, b := path[j], path[j + 1];
      assert b in Succ(d, a);
      if b == p {
        Step(rd, p, a);
      } else {
        Step(rd, b, a);
        Trans(rd, p, b, a);
      }
      i := i - 1;
    }
  }

  /**
   * The invariant of the table and the edges: cells sit at valid
   * positions, every occupied position has both edge sets, edges only point
   * at occupied positions, the forward edges form no cycle and each has its
   * back-edge, and every stored content is one Cell::Set can build.
   */
  ghost predicate CellGraph(contents: Contents, deps: Graph, rdeps: Graph) {
    && (forall q | q in contents :: q.IsValid())
    && deps.Keys == contents.Keys
    && rdeps.Keys == contents.Keys
    && (forall q | q in deps :: deps[q] <= contents.Keys)
    && (forall q | q in rdeps :: rdeps[q] <= contents.Keys)
    && Acyclic(deps)
    && BackEdgesCover(deps, rdeps)
    && (forall q | q in contents && contents[q].Some? :: WellFormedContent(contents[q].value))
  }

  /** The cell graph, and a printable size that is the exact bounding box of the cells. */
  ghost predicate SheetShape(contents: Contents, deps: Graph, rdeps: Graph, size: Size) {
    CellGraph(contents, deps, rdeps) && IsBoundingBox(contents.Keys, size)
  }

  /** Creating a cell without content or edges keeps the cell graph. */
  lemma GraphAfterCreate(c: Contents, d: Graph, rd: Graph, pos: Position)
    requires CellGraph(c, d, rd) && pos.IsValid()
    ensures CellGraph(WithCell(c, pos, None), WithCell(d, pos, {}), WithCell(rd, pos, {}))
  {
    if pos !in c {
      SubgraphAcyclic(d[pos := {}], d);
    }
  }

  /** Removing a cell and every edge that mentions it keeps the cell graph. */
  lemma GraphAfterRemoval(c: Contents, d: Graph, rd: Graph, pos: Position)
    requires CellGraph(c, d, rd)
    ensures CellGraph(c - {pos}, Prune(d, pos), Prune(rd, pos))
  {
    assert Subgraph(Prune(d, pos), d);
    SubgraphAcyclic(Prune(d, pos), d);
  }

  /** Removing an absent position changes nothing. */
  lemma RemovalOfAbsent(c: Contents, d: Graph, rd: Graph, pos: Position)
    requires CellGraph(c, d, rd) && pos !in c
    ensures c - {pos} == c && Prune(d, pos) == d && Prune(rd, pos) == rd
  {
    assert forall q | q in d :: d[q] - {pos} == d[q];
    assert forall q | q in rd :: rd[q] - {pos} == rd[q];
  }

  lemma RefSetPrefix(s: seq<Position>, i: int)
    requires 0 <= i < |s|
    ensures RefSet(s[..i + 1]) == RefSet(s[..i]) + {s[i]}
    ensures RefSet(s[..i + 1]) <= RefSet(s)
  {
    assert s[..i + 1] == s[..i] + [s[i]];
  }

  lemma UpdateTwice<V>(m: map<Position, V>, k: Position, a: V, b: V)
    ensures m[k := a][k := b] == m[k := b]
  {
  }

  /** One more back-edge from `p`, into `c`. */
  lemma AddBackEdge(rd: Graph, keys: set<Position>, p: Position, added: set<Position>, c: Position)
    requires c in keys
    ensures var m := WithBackEdge(rd, keys, p, added);
      m[c := m[c] + {p}] == WithBackEdge(rd, keys, p, added + {c})
  {
    var m := WithBackEdge(rd, keys, p, added);
    var m' := WithBackEdge(rd, keys, p, added + {c});
    assert m[c := m[c] + {p}].Keys == m'.Keys;
    forall q | q in m' ensures m[c := m[c] + {p}][q] == m'[q] {
      if q == c {
        assert m'[q] == Succ(rd, q) + {p};
      }
    }
  }

  /** Adding no back-edges changes nothing. */
  lemma NoBackEdges(rd: Graph, p: Position)
    ensures WithBackEdge(rd, rd.Keys, p, {}) == rd
  {
    assert forall q | q in rd :: WithBackEdge(rd, rd.Keys, p, {})[q] == rd[q];
  }

  /** A new content that Cell::Set can build keeps the cell graph. */
  lemma GraphWithContent(c: Contents, d: Graph, rd: Graph, p: Position, impl: Content)
    requires CellGraph(c, d, rd) && p in c && WellFormedContent(impl)
    ensures CellGraph(c[p := Some(impl)], d, rd)
  {
  }

  /** Dropping a cell's forward edges keeps the cell graph. */
  lemma GraphWithoutEdges(c: Contents, d: Graph, rd: Graph, p: Position)
    requires CellGraph(c, d, rd) && p in c
    ensures CellGraph(c, d[p := {}], rd)
  {
    SubgraphAcyclic(d[p := {}], d);
  }

  /**
   * Giving a cell without forward edges the edges `fwd`, none of which
   * leads back to it, and back-edges from every member of `back` ⊇ `fwd`,
   * keeps the cell graph.
   */
  lemma GraphWithEdges(c: Contents, d: Graph, rd: Graph, size: Size, p: Position, fwd: set<Position>, back: set<Position>,
                        d': Graph, rd': Graph)
    requires SheetShape(c, d, rd, size) && p in c && d[p] == {}
    requires fwd <= back <= c.Keys && p !in fwd
    requires forall q | q in fwd :: !Reaches(d, q, p)
    requires d' == d[p := fwd] && rd' == WithBackEdge(rd, c.Keys, p, back)
    ensures SheetShape(c, d', rd', size)
  {
    RedirectAcyclic(d, p, fwd);
  }

  /** Back-edges added over the filled table are back-edges added over the original. */
  lemma BackEdgesOverFill(rd0: Graph, keys: set<Position>, p: Position, targets: set<Position>)
    requires rd0.Keys <= keys
    ensures WithBackEdge(Restrict(rd0, keys), keys, p, targets) == WithBackEdge(rd0, keys, p, targets)
  {
  }

  /**
   * If no reference reaches `p` before the cell graph is filled, none does
   * once `p`'s own edges are dropped from the filled graph.
   */
  lemma NoPathBackAfterClear(d0: Graph, keys: set<Position>, p: Position, refs: seq<Position>)
    requires d0.Keys <= keys
    requires forall q | q in refs :: !Reaches(d0, q, p)
    ensures forall q | q in refs :: !Reaches(Restrict(d0, keys)[p := {}], q, p)
  {
    RestrictSucc(d0, keys);
    SameSuccessorsSameReach(Restrict(d0, keys), d0);
    forall q | q in refs ensures !Reaches(Restrict(d0, keys)[p := {}], q, p) {
      SubgraphReaches(Restrict(d0, keys)[p := {}], Restrict(d0, keys), q, p);
    }
  }

  /** ThrowIfInvalidPosition: the four bounds of Position::IsValid. */
  function ThrowIfInvalidPosition(pos: Position): (r: Outcome)
    ensures r == Ok <==> pos.IsValid()
    ensures r != Ok ==> r == Fail(InvalidPosition)
  {
    if pos.col < 0 || pos.row < 0 || pos.col >= MAX_COLS || pos.row >= MAX_ROWS then Fail(InvalidPosition)
    else Ok
  }

  /** The occupied positions ChangePrintableSize has passed when it reaches (`row`, `col`). */
  ghost function ScannedBefore(keys: set<Position>, row: int, col: int): set<Position> {
    set q | q in keys && (q.row < row || (q.row == row && q.col < col))
  }

  /**
   * What ChangePrintableSize knows once it has passed the positions before
   * (`row`, `col`): the size it would store covers every occupied position
   * passed, and is attained by a passed position in each dimension.
   */
  ghost predicate ScanState(keys: set<Position>, row: int, col: int, newSize: Size, maxRow: int, maxCol: int,
                            rowWitness: Position, colWitness: Position) {
    var s := ScannedBefore(keys, row, col);
    && 0 <= maxRow && 0 <= maxCol
    && (s == {} ==> newSize == EMPTY_SIZE && maxRow == 0 && maxCol == 0)
    && (s != {} ==> newSize == Size(maxRow + 1, maxCol + 1)
                    && rowWitness in s && rowWitness.row == maxRow
                    && colWitness in s && colWitness.col == maxCol)
    && (forall q | q in s :: q.row <= maxRow && q.col <= maxCol)
  }

  /** One position of the scan: an occupied one raises the maxima and becomes their witness where it attains them. */
  lemma ScanStep(keys: set<Position>, row: int, col: int, newSize: Size, maxRow: int, maxCol: int,
                 rowWitness: Position, colWitness: Position)
    requires ScanState(keys, row, col, newSize, maxRow, maxCol, rowWitness, colWitness) && 0 <= row && 0 <= col
    ensures var here := Position(row, col);
      var r, c := if row > maxRow then row else maxRow, if col > maxCol then col else maxCol;
      if here in keys then
        ScanState(keys, row, col + 1, Size(r + 1, c + 1), r, c,
                  if row >= maxRow then here else rowWitness, if col >= maxCol then here else colWitness)
      else
        ScanState(keys, row, col + 1, newSize, maxRow, maxCol, rowWitness, colWitness)
  {
    var here := Position(row, col);
    assert ScannedBefore(keys, row, col + 1) ==
      ScannedBefore(keys, row, col) + (if here in keys then {here} else {});
  }

  /** Past the last column of a row, the scan goes on at the start of the next row. */
  lemma ScanNextRow(keys: set<Position>, row: int, cols: int, newSize: Size, maxRow: int, maxCol: int,
                    rowWitness: Position, colWitness: Position)
    requires ScanState(keys, row, cols, newSize, maxRow, maxCol, rowWitness, colWitness)
    requires forall q | q in keys :: 0 <= q.col < cols
    ensures ScanState(keys, row + 1, 0, newSize, maxRow, maxCol, rowWitness, colWitness)
  {
    assert ScannedBefore(keys, row, cols) == ScannedBefore(keys, row + 1, 0);
  }

  /** A scan that has passed every occupied position ends with their bounding box. */
  lemma ScanComplete(keys: set<Position>, rows: int, newSize: Size, maxRow: int, maxCol: int,
                     rowWitness: Position, colWitness: Position)
    requires ScanState(keys, rows, 0, newSize, maxRow, maxCol, rowWitness, colWitness)
    requires forall q | q in keys :: 0 <= q.row < rows && 0 <= q.col
    ensures IsBoundingBox(keys, newSize)
  {
    assert ScannedBefore(keys, rows, 0) == keys;
  }

  /**
   * The implementation Cell::Set builds for `text`, or None when the text
   * is a formula that `parse` rejects.
   */
  function NewImpl(parse: string -> Option<Ast>, text: string): (c: Option<Content>)
    ensures c.None? <==> KindOf(text) == FormulaKind && parse(text[1..]).None?
    ensures c.Some? ==> WellFormedContent(c.value)
    ensures c.Some? && KindOf(text) != FormulaKind ==> ImplText(c.value) == text
    ensures c.Some? && KindOf(text) == FormulaKind ==>
      ImplText(c.value) == [FORMULA_SIGN] + parse(text[1..]).value.printed
  {
    if KindOf(text) == FormulaKind then
      match parse(text[1..])
      case None => None
      case Some(ast) => Some(FormulaImpl(Formula(ast, ReferencedFrom(ast.cells, NONE))))
    else Some(PlainImpl(text))
  }

  /** Everything Cell::Set can change: contents, caches, edges and back-edges. */
  datatype Tables = Tables(contents: Contents, caches: map<Position, Value>, deps: Graph, rdeps: Graph)

  /** `t` with every position of `keys` it lacks present as an Empty cell without edges. */
  function Filled(t: Tables, keys: set<Position>): Tables {
    Tables(FillEmpty(t.contents, keys), t.caches, Restrict(t.deps, keys), Restrict(t.rdeps, keys))
  }

  /** The tables after Cell::ClearEdges on `p`: its dependants' caches dropped, its forward edges gone. */
  ghost function EdgesCleared(t: Tables, p: Position): Tables {
    Tables(t.contents, t.caches - InvalidatedIn(t.contents.Keys, t.rdeps, p), t.deps[p := {}], t.rdeps)
  }

  /**
   * The tables after Cell::AddEdges on `p`: the edges and back-edges of the
   * references the loop gets through, up to and including `p` itself.
   */
  function EdgesAdded(t: Tables, p: Position, refs: seq<Position>): Tables {
    var reached := RefSet(Upto(refs, p));
    Tables(t.contents, t.caches, t.deps[p := reached - {p}], WithBackEdge(t.rdeps, t.contents.Keys, p, reached))
  }

  /** The tables after the end of Cell::Set: store `impl`, then ClearEdges and AddEdges. */
  ghost function Installed(t: Tables, p: Position, impl: Content, refs: seq<Position>): Tables {
    EdgesAdded(EdgesCleared(t.(contents := t.contents[p := Some(impl)]), p), p, refs)
  }

  /**
   * The edges AddEdges records keep the sheet's shape when the cell had no
   * forward edges and none of its references other than itself leads back
   * to it.
   */
  lemma EdgesAddedShape(t: Tables, size: Size, p: Position, refs: seq<Position>)
    requires SheetShape(t.contents, t.deps, t.rdeps, size) && p in t.contents && t.deps[p] == {}
    requires RefSet(refs) <= t.contents.Keys
    requires forall q | q in refs && q != p :: !Reaches(t.deps, q, p)
    ensures var e := EdgesAdded(t, p, refs); SheetShape(e.contents, e.deps, e.rdeps, size)
  {
    var reached := RefSet(Upto(refs, p));
    var e := EdgesAdded(t, p, refs);
    GraphWithEdges(t.contents, t.deps, t.rdeps, size, p, reached - {p}, reached, e.deps, e.rdeps);
  }

  /** Installing written out field by field: ClearEdges' empty edge set is overwritten by AddEdges. */
  lemma InstalledTables(t: Tables, p: Position, impl: Content, refs: seq<Position>)
    requires p in t.contents
    ensures var reached := RefSet(Upto(refs, p));
      Installed(t, p, impl, refs) ==
        Tables(t.contents[p := Some(impl)], t.caches - InvalidatedIn(t.contents.Keys, t.rdeps, p),
               t.deps[p := reached - {p}], WithBackEdge(t.rdeps, t.contents.Keys, p, reached))
  {
    assert t.contents[p := Some(impl)].Keys == t.contents.Keys;
    UpdateTwice(t.deps, p, {}, RefSet(Upto(refs, p)) - {p});
  }

  /** `t` with a cell at `pos`, created without content or edges unless there is one. */
  function Created(t: Tables, pos: Position): Tables {
    Tables(WithCell(t.contents, pos, None), t.caches, WithCell(t.deps, pos, {}), WithCell(t.rdeps, pos, {}))
  }

  lemma FilledOwnKeys(t: Tables)
    requires t.deps.Keys == t.contents.Keys && t.rdeps.Keys == t.contents.Keys
    ensures Filled(t, t.contents.Keys) == t
  {
    FillEmptyOwnKeys(t.contents);
    RestrictOwnKeys(t.deps);
    RestrictOwnKeys(t.rdeps);
  }

  /** Filling in two rounds is filling once with the larger set of positions. */
  lemma FilledTwice(t: Tables, k1: set<Position>, k2: set<Position>)
    requires t.contents.Keys <= k1 <= k2 && t.deps.Keys <= k1 && t.rdeps.Keys <= k1
    ensures Filled(Filled(t, k1), k2) == Filled(t, k2)
  {
    assert FillEmpty(FillEmpty(t.contents, k1), k2) == FillEmpty(t.contents, k2);
    assert Restrict(Restrict(t.deps, k1), k2) == Restrict(t.deps, k2);
    assert Restrict(Restrict(t.rdeps, k1), k2) == Restrict(t.rdeps, k2);
  }

  /** Filling in one absent position is creating that cell and making it Empty. */
  lemma FilledOneMore(t: Tables, q: Position)
    requires t.deps.Keys == t.contents.Keys && t.rdeps.Keys == t.contents.Keys && q !in t.contents
    ensures Filled(t, t.contents.Keys + {q}) ==
      Tables(t.contents[q := Some(EmptyImpl)], t.caches, t.deps[q := {}], t.rdeps[q := {}])
  {
    assert FillEmpty(t.contents, t.contents.Keys + {q}) == t.contents[q := Some(EmptyImpl)];
    assert Restrict(t.deps, t.contents.Keys + {q}) == t.deps[q := {}];
    assert Restrict(t.rdeps, t.contents.Keys + {q}) == t.rdeps[q := {}];
  }

  /**
   * The whole effect of Cell::Set(text) on the cell at `p`, from tables
   * `t0` to tables `t`:
   *  - the text the cell already shows: nothing happens;
   *  - a formula that does not parse: FormulaException, nothing happens;
   *  - otherwise every referenced position is materialised as an Empty
   *    cell, and the call fails with CircularDependencyException exactly
   *    when pointing the cell at its references closes a cycle. A cycle
   *    through another cell is caught before anything is committed; a
   *    direct self-reference is caught only while the edges are added, so
   *    the new content and part of its edges stay in place.
   */
  ghost predicate SetEffect(parse: string -> Option<Ast>, p: Position, text: string, r: Outcome, t0: Tables, t: Tables)
    requires p in t0.contents
  {
    var next := NewImpl(parse, text);
    if t0.contents[p].Some? && ImplText(t0.contents[p].value) == text then
      r == Ok && t == t0
    else if next.None? then
      r == Fail(FormulaParse) && t == t0
    else
      var refs := ImplReferenced(next.value);
      var keys := t.contents.Keys;
      && (r == Ok || r == Fail(CircularDependency))
      && (r == Ok <==> Acyclic(t0.deps[p := RefSet(refs)]))
      && t0.contents.Keys <= keys <= t0.contents.Keys + RefSet(refs)
      && if exists q | q in refs :: Reaches(t0.deps, q, p) then
           && r == Fail(CircularDependency) && t == Filled(t0, keys)
           && keys == t0.contents.Keys + RefSet(Searched(t0.deps, p, refs))
         else
           var reached := RefSet(Upto(refs, p));
           var filled := Filled(t0, keys);
           && keys == t0.contents.Keys + RefSet(refs)
           && (r == Ok <==> p !in refs)
           && t == Tables(filled.contents[p := next],
                          t0.caches - InvalidatedIn(t0.contents.Keys, t0.rdeps, p),
                          filled.deps[p := reached - {p}],
                          WithBackEdge(t0.rdeps, keys, p, reached))
  }

  /** Cell::Set when CheckCircularError finds a path back: only the materialised cells remain. */
  lemma SetCaught(parse: string -> Option<Ast>, p: Position, text: string, t0: Tables, t: Tables)
    requires CellGraph(t0.contents, t0.deps, t0.rdeps) && p in t0.contents
    requires !(t0.contents[p].Some? && ImplText(t0.contents[p].value) == text)
    requires NewImpl(parse, text).Some?
    requires var refs := ImplReferenced(NewImpl(parse, text).value);
      && (exists q | q in refs :: Reaches(t0.deps, q, p))
      && t.contents.Keys == t0.contents.Keys + RefSet(Searched(t0.deps, p, refs))
    requires t == Filled(t0, t.contents.Keys)
    ensures SetEffect(parse, p, text, Fail(CircularDependency), t0, t)
  {
    RedirectAcyclic(t0.deps, p, RefSet(ImplReferenced(NewImpl(parse, text).value)));
  }

  /**
   * Cell::Set when no reference leads back: the content is replaced, the
   * dependants are invalidated, and the edges AddEdges records replace the
   * old ones.
   */
  lemma SetCommitted(parse: string -> Option<Ast>, p: Position, text: string, r: Outcome,
                     impl: Content, t0: Tables, t1: Tables, t: Tables)
    requires Acyclic(t0.deps) && t0.rdeps.Keys <= t0.contents.Keys && t0.caches.Keys <= t0.contents.Keys
    requires p in t0.contents && !(t0.contents[p].Some? && ImplText(t0.contents[p].value) == text)
    requires NewImpl(parse, text) == Some(impl)
    requires var refs := ImplReferenced(impl);
      && (forall q | q in refs :: !Reaches(t0.deps, q, p))
      && t1.contents.Keys == t0.contents.Keys + RefSet(refs)
      && t1 == Filled(t0, t1.contents.Keys)
      && (r == Ok <==> p !in refs) && (r == Ok || r == Fail(CircularDependency))
      && t == Installed(t1, p, impl, refs)
    ensures SetEffect(parse, p, text, r, t0, t)
  {
    var refs := ImplReferenced(impl);
    CommittedTables(p, impl, refs, t0, t1);
    assert r == Ok <==> Acyclic(t0.deps[p := RefSet(refs)]) by {
      RedirectAcyclic(t0.deps, p, RefSet(refs));
    }
  }

  /** The tables Cell::Set commits, written against the tables before CheckCircularError filled them. */
  lemma CommittedTables(p: Position, impl: Content, refs: seq<Position>, t0: Tables, t1: Tables)
    requires t0.rdeps.Keys <= t0.contents.Keys && t0.caches.Keys <= t0.contents.Keys && p in t0.contents
    requires t0.contents.Keys <= t1.contents.Keys && t1 == Filled(t0, t1.contents.Keys)
    ensures var keys := t1.contents.Keys;
      var reached := RefSet(Upto(refs, p));
      var filled := Filled(t0, keys);
      Installed(t1, p, impl, refs) ==
        Tables(filled.contents[p := Some(impl)], t0.caches - InvalidatedIn(t0.contents.Keys, t0.rdeps, p),
               filled.deps[p := reached - {p}], WithBackEdge(t0.rdeps, keys, p, reached))
  {
    var keys := t1.contents.Keys;
    var reached := RefSet(Upto(refs, p));
    InstalledTables(t1, p, impl, refs);
    BackEdgesOverFill(t0.rdeps, keys, p, reached);
    InvalidatedAfterFill(t0.contents.Keys, t0.rdeps, keys, p, t0.caches);
  }

  /** Cell::Set only ever adds cells, and fails only with the two exceptions it can raise. */
  lemma SetEffectKeys(parse: string -> Option<Ast>, p: Position, text: string, r: Outcome, t0: Tables, t: Tables)
    requires p in t0.contents && SetEffect(parse, p, text, r, t0, t)
    ensures t0.contents.Keys <= t.contents.Keys
    ensures r == Ok || r == Fail(CircularDependency) || r == Fail(FormulaParse)
  {
  }

  /**
   * A formula that does not parse, or whose references lead back to the
   * cell through other cells, leaves the cell's content, forward edges and
   * every cached value as they were.
   */
  lemma SetRejectedKeepsCell(parse: string -> Option<Ast>, p: Position, text: string, r: Outcome, t0: Tables, t: Tables)
    requires p in t0.contents && SetEffect(parse, p, text, r, t0, t)
    requires || r == Fail(FormulaParse)
             || (NewImpl(parse, text).Some? &&
                 exists q | q in ImplReferenced(NewImpl(parse, text).value) :: Reaches(t0.deps, q, p))
    ensures p in t.contents && t.contents[p] == t0.contents[p]
    ensures Succ(t.deps, p) == Succ(t0.deps, p) && t.caches == t0.caches
  {
    var next := NewImpl(parse, text);
    if !(t0.contents[p].Some? && ImplText(t0.contents[p].value) == text) && next.Some? {
      var keys := t.contents.Keys;
      assert exists q | q in ImplReferenced(next.value) :: Reaches(t0.deps, q, p);
      assert t == Filled(t0, keys) && p in keys;
      assert Succ(Restrict(t0.deps, keys), p) == Succ(t0.deps, p);
    }
  }

  lemma {:induction false} UptoHolds(refs: seq<Position>, p: Position)
    requires p in refs
    ensures p in Upto(refs, p)
  {
    if refs[0] != p {
      UptoHolds(refs[1..], p);
    }
  }

  /**
   * The late catch of a direct self-reference: when no reference leads
   * back through other cells but the call still fails, the text references
   * the cell itself, and the new content and the back-edge from the cell to
   * itself stay committed.
   */
  lemma SetSelfReference(parse: string -> Option<Ast>, p: Position, text: string, t0: Tables, t: Tables)
    requires p in t0.contents && SetEffect(parse, p, text, Fail(CircularDependency), t0, t)
    requires NewImpl(parse, text).Some?
    requires forall q | q in ImplReferenced(NewImpl(parse, text).value) :: !Reaches(t0.deps, q, p)
    ensures p in ImplReferenced(NewImpl(parse, text).value)
    ensures p in t.contents && t.contents[p] == NewImpl(parse, text)
    ensures p in t.rdeps && p in t.rdeps[p]
  {
    UptoHolds(ImplReferenced(NewImpl(parse, text).value), p);
  }

  /**
   * After a write that succeeds and changes the content, the cell holds
   * the new content, its forward edges are exactly the positions the
   * content references, and each of those cells has it as a back-edge.
   */
  lemma SetOkEdges(parse: string -> Option<Ast>, p: Position, text: string, t0: Tables, t: Tables)
    requires p in t0.contents && SetEffect(parse, p, text, Ok, t0, t)
    requires !(t0.contents[p].Some? && ImplText(t0.contents[p].value) == text)
    ensures NewImpl(parse, text).Some?
    ensures var refs := ImplReferenced(NewImpl(parse, text).value);
      && p in t.contents && t.contents[p] == NewImpl(parse, text)
      && Succ(t.deps, p) == RefSet(refs)
      && forall q | q in refs :: q in t.rdeps && p in t.rdeps[q]
  {
    var refs := ImplReferenced(NewImpl(parse, text).value);
    assert RefSet(refs) - {p} == RefSet(refs);
  }

  /**
   * A committed Cell::Set leaves no cached value on the cell or on any cell
   * that depends on it through the new forward edges, since paths into `p`
   * do not use `p`'s own edges and the back-edges cover the old ones.
   */
  lemma SetInvalidatesDependants(parse: string -> Option<Ast>, p: Position, text: string, t0: Tables, t: Tables, x: Position)
    requires CellGraph(t0.contents, t0.deps, t0.rdeps) && p in t0.contents
    requires SetEffect(parse, p, text, Ok, t0, t)
    requires !(t0.contents[p].Some? && ImplText(t0.contents[p].value) == text)
    requires Reaches(t.deps, x, p)
    ensures p !in t.caches && x !in t.caches
  {
    SetOkTables(parse, p, text, t0, t);
    if x != p {
      ReachesTargetIgnoresItsEdges(t.deps, t0.deps, p, x);
      DependantsInvalidated(t0.contents.Keys, t0.deps, t0.rdeps, p, x);
    }
  }

  /** A committed change drops the caches of everything invalidated from `p`, and changes no forward edge but `p`'s. */
  lemma SetOkTables(parse: string -> Option<Ast>, p: Position, text: string, t0: Tables, t: Tables)
    requires t0.deps.Keys == t0.contents.Keys && p in t0.contents
    requires SetEffect(parse, p, text, Ok, t0, t)
    requires !(t0.contents[p].Some? && ImplText(t0.contents[p].value) == text)
    ensures t.caches == t0.caches - InvalidatedIn(t0.contents.Keys, t0.rdeps, p)
    ensures forall z | z != p :: Succ(t.deps, z) == Succ(t0.deps, z)
  {
    var refs := ImplReferenced(NewImpl(parse, text).value);
    var keys := t.contents.Keys;
    assert t.deps == Restrict(t0.deps, keys)[p := RefSet(Upto(refs, p)) - {p}];
    RestrictSucc(t0.deps, keys);
  }

  /** Cell::Set never removes a back-edge: ClearEdges leaves them, AddEdges only inserts. */
  lemma SetKeepsBackEdges(parse: string -> Option<Ast>, p: Position, text: string, r: Outcome, t0: Tables, t: Tables)
    requires p in t0.contents && t0.rdeps.Keys <= t0.contents.Keys
    requires SetEffect(parse, p, text, r, t0, t)
    ensures forall q :: Succ(t0.rdeps, q) <= Succ(t.rdeps, q)
  {
    if !(t0.contents[p].Some? && ImplText(t0.contents[p].value) == text) && NewImpl(parse, text).Some? {
      RestrictSucc(t0.rdeps, t.contents.Keys);
    }
  }

  /** Once `p` is pruned and created afresh, no edge points at it and nothing reaches it. */
  lemma NothingLeadsToCleared(d: Graph, p: Position)
    ensures forall z :: p !in Succ(WithCell(Prune(d, p), p, {}), z)
    ensures forall q :: !Reaches(WithCell(Prune(d, p), p, {}), q, p)
  {
    var g := WithCell(Prune(d, p), p, {});
    forall q ensures !Reaches(g, q, p) {
      NoPredecessorsReachedFromNothing(g, q, p);
    }
  }

  /**
   * Sheet::ClearCell and then a write to the cleared position. The removal
   * pruned `p` from the forward edges of the cells whose formulas read it,
   * so nothing leads back to `p` any more: a write that parses and does not
   * name `p` itself is accepted whatever the other cells' formulas read,
   * and afterwards still no other cell has a forward edge to `p`. A cycle
   * through the cleared position is therefore accepted.
   */
  lemma WriteAfterClearAccepted(parse: string -> Option<Ast>, p: Position, text: string, r: Outcome,
                                c: Contents, caches: map<Position, Value>, d: Graph, rd: Graph, t: Tables)
    requires var t0 := Created(Tables(c - {p}, caches, Prune(d, p), Prune(rd, p)), p);
      p in t0.contents && SetEffect(parse, p, text, r, t0, t)
    requires NewImpl(parse, text).Some? && p !in ImplReferenced(NewImpl(parse, text).value)
    ensures r == Ok
    ensures forall x | x != p :: p !in Succ(t.deps, x)
  {
    var t0 := Created(Tables(c - {p}, caches, Prune(d, p), Prune(rd, p)), p);
    assert t0.contents[p].None?;
    NothingLeadsToCleared(d, p);
    var refs := ImplReferenced(NewImpl(parse, text).value);
    var keys := t.contents.Keys;
    assert t.deps == Restrict(t0.deps, keys)[p := RefSet(Upto(refs, p)) - {p}];
  }

  /**
   * The first write to a position without a cell: SetCell creates the cell
   * with no content, and a formula that does not parse leaves it so. The
   * readers of a cell (GetValue, GetText) need a content, which this cell
   * never gets.
   */
  lemma FailedFirstWriteLeavesNoContent(parse: string -> Option<Ast>, p: Position, text: string, r: Outcome,
                                        t1: Tables, t: Tables)
    requires p !in t1.contents && p in Created(t1, p).contents
    requires SetEffect(parse, p, text, r, Created(t1, p), t)
    requires NewImpl(parse, text).None?
    ensures r == Fail(FormulaParse)
    ensures p in t.contents && t.contents[p].None?
  {
  }

  /**
   * The first write to a position without a cell leaves it without content
   * exactly when the formula does not parse. The cycle check cannot fail
   * there: the cell was just created, so no forward edge leads to it, and a
   * self-reference is caught only after the content is stored.
   */
  lemma FirstWriteEmptyOnlyOnParseFailure(parse: string -> Option<Ast>, p: Position, text: string, r: Outcome,
                                          t1: Tables, t: Tables)
    requires CellGraph(t1.contents, t1.deps, t1.rdeps) && p !in t1.contents
    requires p in Created(t1, p).contents && SetEffect(parse, p, text, r, Created(t1, p), t)
    ensures p in t.contents
    ensures t.contents[p].None? <==> r == Fail(FormulaParse)
  {
    var t0 := Created(t1, p);
    assert t0.contents[p].None?;
    NothingLeadsToCreated(t1.contents, t1.deps, t1.rdeps, p);
    var next := NewImpl(parse, text);
    if next.Some? {
      assert !exists q | q in ImplReferenced(next.value) :: Reaches(t0.deps, q, p);
      assert t.contents[p] == next;
    }
  }

  /** A cell created afresh has no edge into it, so nothing reaches it. */
  lemma NothingLeadsToCreated(c: Contents, d: Graph, rd: Graph, p: Position)
    requires CellGraph(c, d, rd) && p !in c
    ensures forall q :: !Reaches(WithCell(d, p, {}), q, p)
  {
    var g := WithCell(d, p, {});
    forall z ensures p !in Succ(g, z) {
      assert g == d[p := {}];
    }
    forall q ensures !Reaches(g, q, p) {
      NoPredecessorsReachedFromNothing(g, q, p);
    }
  }

  /** A cell nothing depends on invalidates only itself. */
  lemma InvalidatedNoDependants(keys: set<Position>, rd: Graph, p: Position)
    requires p in keys && Succ(rd, p) == {}
    ensures InvalidatedIn(keys, rd, p) == {p}
  {
    forall q ensures !Reaches(rd, p, q) {
      NoSuccessorsReachNothing(rd, p, q);
    }
  }

  /** The committed branch of SetEffect, read off for one call. */
  lemma SetEffectCommitted(parse: string -> Option<Ast>, p: Position, text: string, r: Outcome, t0: Tables, t: Tables)
    requires p in t0.contents && SetEffect(parse, p, text, r, t0, t)
    requires !(t0.contents[p].Some? && ImplText(t0.contents[p].value) == text)
    requires NewImpl(parse, text).Some?
    requires forall q | q in ImplReferenced(NewImpl(parse, text).value) :: !Reaches(t0.deps, q, p)
    ensures var refs := ImplReferenced(NewImpl(parse, text).value);
      var reached := RefSet(Upto(refs, p));
      var filled := Filled(t0, t.contents.Keys);
      && t.contents.Keys == t0.contents.Keys + RefSet(refs)
      && (r == Ok <==> p !in refs)
      && t == Tables(filled.contents[p := NewImpl(parse, text)],
                     t0.caches - InvalidatedIn(t0.contents.Keys, t0.rdeps, p),
                     filled.deps[p := reached - {p}],
                     WithBackEdge(t0.rdeps, t.contents.Keys, p, reached))
  {
  }

  /**
   * The tables Cell::Set commits when the empty text is written to a freshly
   * created cell: the cell becomes Empty and nothing else changes.
   */
  lemma FreshEmptyWrite(pos: Position, t0: Tables)
    requires t0.deps.Keys == t0.contents.Keys && t0.rdeps.Keys == t0.contents.Keys
    requires t0.caches.Keys <= t0.contents.Keys && pos !in t0.contents
    ensures var tc := Created(t0, pos);
      var filled := Filled(tc, tc.contents.Keys);
      && filled.contents[pos := Some(EmptyImpl)] == t0.contents[pos := Some(EmptyImpl)]
      && tc.caches - InvalidatedIn(tc.contents.Keys, tc.rdeps, pos) == t0.caches
      && filled.deps[pos := RefSet(Upto([], pos)) - {pos}] == t0.deps[pos := {}]
      && WithBackEdge(tc.rdeps, tc.contents.Keys, pos, RefSet(Upto([], pos))) == t0.rdeps[pos := {}]
  {
    var tc := Created(t0, pos);
    var keys := tc.contents.Keys;
    assert tc == Tables(t0.contents[pos := None], t0.caches, t0.deps[pos := {}], t0.rdeps[pos := {}]);
    assert keys == t0.contents.Keys + {pos} && tc.deps.Keys == keys && tc.rdeps.Keys == keys;
    assert RefSet(Upto([], pos)) == {};
    assert Filled(tc, keys) == tc by {
      FilledOwnKeys(tc);
    }
    assert tc.contents[pos := Some(EmptyImpl)] == t0.contents[pos := Some(EmptyImpl)] by {
      UpdateTwice(t0.contents, pos, None, Some(EmptyImpl));
    }
    assert tc.caches - InvalidatedIn(keys, tc.rdeps, pos) == t0.caches by {
      InvalidatedNoDependants(keys, tc.rdeps, pos);
      assert t0.caches - {pos} == t0.caches;
    }
    assert tc.deps[pos := {} - {pos}] == t0.deps[pos := {}] by {
      assert {} - {pos} == {};
      UpdateTwice(t0.deps, pos, {}, {});
    }
    assert WithBackEdge(tc.rdeps, keys, pos, {}) == t0.rdeps[pos := {}] by {
      NoBackEdges(tc.rdeps, pos);
    }
  }

  /** Sheet::SetCell(pos, "") at a position without a cell creates an Empty cell and changes nothing else. */
  lemma SetEmptyOnFresh(parse: string -> Option<Ast>, pos: Position, r: Outcome, t0: Tables, t: Tables)
    requires t0.deps.Keys == t0.contents.Keys && t0.rdeps.Keys == t0.contents.Keys
    requires t0.caches.Keys <= t0.contents.Keys && pos !in t0.contents
    requires SetEffect(parse, pos, "", r, Created(t0, pos), t)
    ensures r == Ok
    ensures t == Tables(t0.contents[pos := Some(EmptyImpl)], t0.caches, t0.deps[pos := {}], t0.rdeps[pos := {}])
  {
    var tc := Created(t0, pos);
    assert NewImpl(parse, "") == Some(EmptyImpl) && ImplReferenced(EmptyImpl) == [];
    SetEffectCommitted(parse, pos, "", r, tc, t);
    assert t.contents.Keys == tc.contents.Keys;
    FreshEmptyWrite(pos, t0);
  }

  /**
   * The loop of Cell::AddEdges over the edge tables `d` and `rd`: for each
   * reference `c` in order, record the back-edge from `c` to `p`, throw if
   * `c` is `p` itself, then record the edge from `p` to `c`.
   */
  method EdgesFor(d: Graph, rd: Graph, keys: set<Position>, p: Position, refs: seq<Position>)
    returns (d': Graph, rd': Graph, r: Outcome)
    requires rd.Keys == keys && p in d && d[p] == {} && RefSet(refs) <= keys
    ensures r == Ok <==> p !in refs
    ensures r != Ok ==> r == Fail(CircularDependency)
    ensures d' == d[p := RefSet(Upto(refs, p)) - {p}]
    ensures rd' == WithBackEdge(rd, keys, p, RefSet(Upto(refs, p)))
  {
    ghost var added: set<Position> := {};
    d', rd' := d, rd;
    NoBackEdges(rd, p);
    var i := 0;
    while i < |refs|
      invariant 0 <= i <= |refs|
      invariant added == RefSet(refs[..i]) && p !in added
      invariant d' == d[p := added]
      invariant rd' == WithBackEdge(rd, keys, p, added)
    {
      var c := refs[i];
      RefSetPrefix(refs, i);
      AddBackEdge(rd, keys, p, added, c);
      rd' := rd'[c := rd'[c] + {p}];
      if c == p {
        UptoAt(refs, p, i);
        return d', rd', Fail(CircularDependency);
      }
      UpdateTwice(d, p, added, added + {c});
      d' := d'[p := d'[p] + {c}];
      added := added + {c};
      i := i + 1;
    }
    assert refs[..i] == refs;
    assert added == added - {p};
    r := Ok;
  }

  /**
   * Cell::CheckCircularError(checked, ...) on the cell at `c`, over the
   * forward edges `g`: fail on an edge into `p`; otherwise visit every
   * unchecked successor once.
   */
  method CheckCircularFrom(g: Graph, p: Position, c: Position, checked: set<Position>)
    returns (cyclic: bool, checked': set<Position>)
    requires forall x | x in g :: g[x] <= g.Keys
    requires c in g && p in checked && checked <= g.Keys
    decreases g.Keys - checked
    ensures checked <= checked' <= g.Keys
    ensures cyclic ==> Reaches(g, c, p)
    ensures !cyclic ==> Succ(g, c) <= checked' && p !in Succ(g, c)
    ensures !cyclic ==> forall x | x in checked' - checked :: Succ(g, x) <= checked' && p !in Succ(g, x)
  {
    checked' := checked;
    var todo := g[c];
    while todo != {}
      invariant todo <= g[c]
      invariant checked <= checked' <= g.Keys
      invariant g[c] - todo <= checked'
      invariant p !in g[c] - todo
      invariant forall x | x in checked' - checked :: Succ(g, x) <= checked' && p !in Succ(g, x)
      decreases todo
    {
      var d :| d in todo;
      todo := todo - {d};
      if d == p {
        Step(g, c, p);
        return true, checked';
      }
      if d !in checked' {
        checked' := checked' + {d};
        var found;
        found, checked' := CheckCircularFrom(g, p, d, checked');
        if found {
          Prepend(g, c, d, p);
          return true, checked';
        }
      }
    }
    cyclic := false;
  }

  /** Every checked cell other than `p` keeps its successors checked and has no edge into `p`. */
  ghost predicate ClosedAwayFrom(d: Graph, p: Position, checked: set<Position>) {
    forall x | x in checked && x != p :: Succ(d, x) <= checked && p !in Succ(d, x)
  }

  /**
   * Where the loop of CheckCircularError stands after the first `i`
   * references: their cells exist, and their successors in `t0`'s edges are
   * checked and are not `p`.
   */
  ghost predicate SearchedUpTo(t0: Tables, p: Position, refs: seq<Position>, i: int,
                               checked: set<Position>, keys: set<Position>) {
    && 0 <= i <= |refs|
    && keys == t0.contents.Keys + RefSet(refs[..i])
    && p in checked && checked <= keys
    && ClosedAwayFrom(t0.deps, p, checked)
    && forall j | 0 <= j < i :: Succ(t0.deps, refs[j]) <= checked && p !in Succ(t0.deps, refs[j])
  }

  lemma SearchStart(t0: Tables, p: Position, refs: seq<Position>)
    requires p in t0.contents
    ensures SearchedUpTo(t0, p, refs, 0, {p}, t0.contents.Keys)
  {
    assert RefSet(refs[..0]) == {};
  }

  /** Materialising the next reference keeps the cells between the old ones and those of all references. */
  lemma SearchKeys(t0: Tables, p: Position, refs: seq<Position>, i: int,
                   checked: set<Position>, keys: set<Position>)
    requires SearchedUpTo(t0, p, refs, i, checked, keys) && i < |refs|
    ensures t0.contents.Keys <= keys + {refs[i]} <= t0.contents.Keys + RefSet(refs)
  {
    RefSetPrefix(refs, i);
  }

  /**
   * What one search of CheckCircularError from `q` tells about the graph
   * `d0`, which has the successors of the searched graph `g`: a failure is a
   * path back to `p`; otherwise there is none from `q`, and the checked set
   * stays closed and free of edges into `p`.
   */
  lemma SearchResult(g: Graph, d0: Graph, p: Position, q: Position,
                     checked: set<Position>, checked': set<Position>, found: bool)
    requires forall z :: Succ(g, z) == Succ(d0, z)
    requires p in checked && checked <= checked' && ClosedAwayFrom(d0, p, checked)
    requires found ==> Reaches(g, q, p)
    requires !found ==> Succ(g, q) <= checked' && p !in Succ(g, q)
    requires !found ==> forall x | x in checked' - checked :: Succ(g, x) <= checked' && p !in Succ(g, x)
    ensures found ==> Reaches(d0, q, p)
    ensures !found ==> Succ(d0, q) <= checked' && p !in Succ(d0, q) && ClosedAwayFrom(d0, p, checked')
  {
    SameSuccessorsSameReach(g, d0);
  }

  /** No reference the loop got past leads back to `p`. */
  lemma SearchedNoneBack(t0: Tables, p: Position, refs: seq<Position>, i: int, checked: set<Position>, keys: set<Position>)
    requires SearchedUpTo(t0, p, refs, i, checked, keys)
    ensures forall j | 0 <= j < i :: !Reaches(t0.deps, refs[j], p)
  {
    assert Closed(t0.deps, checked - {p});
    forall j | 0 <= j < i ensures !Reaches(t0.deps, refs[j], p) {
      ReachesStaysIn(t0.deps, checked - {p}, refs[j], p);
    }
  }

  /**
   * The search from `refs[i]` found a path back: the cells are then the old
   * ones and those of the searched prefix.
   */
  lemma SearchFoundKeys(t0: Tables, p: Position, refs: seq<Position>, i: int, checked: set<Position>, keys: set<Position>)
    requires SearchedUpTo(t0, p, refs, i, checked, keys) && i < |refs| && Reaches(t0.deps, refs[i], p)
    ensures keys + {refs[i]} == t0.contents.Keys + RefSet(Searched(t0.deps, p, refs))
  {
    SearchedNoneBack(t0, p, refs, i, checked, keys);
    SearchedFirst(t0.deps, p, refs, i);
    RefSetPrefix(refs, i);
  }

  /** A search from the next reference that found nothing moves the loop one reference on. */
  lemma SearchedPrefix(t0: Tables, p: Position, refs: seq<Position>, i: int,
                       checked: set<Position>, checked': set<Position>, keys: set<Position>)
    requires SearchedUpTo(t0, p, refs, i, checked, keys) && i < |refs|
    requires checked <= checked' <= keys + {refs[i]} && ClosedAwayFrom(t0.deps, p, checked')
    requires Succ(t0.deps, refs[i]) <= checked' && p !in Succ(t0.deps, refs[i])
    ensures SearchedUpTo(t0, p, refs, i + 1, checked', keys + {refs[i]})
  {
    RefSetPrefix(refs, i);
  }

  /**
   * Once every reference has its successors in the checked set, which is
   * closed and has no edge into `p`, no reference leads back to `p`.
   */
  lemma NoneLeadsBack(t0: Tables, p: Position, refs: seq<Position>, checked: set<Position>, keys: set<Position>)
    requires SearchedUpTo(t0, p, refs, |refs|, checked, keys)
    ensures keys == t0.contents.Keys + RefSet(refs)
    ensures forall q | q in refs :: !Reaches(t0.deps, q, p)
  {
    assert refs[..|refs|] == refs;
    SearchedNoneBack(t0, p, refs, |refs|, checked, keys);
  }

}
