/**
 * Cell::ClearCache and Cell::ClearCaches as they are written in cell.cpp,
 * beside the sweep that Sheet.ClearCache performs. ClearEdges calls the
 * sweep to clear the caches of the cells that use this cell. Two lines of
 * ClearCaches do something else:
 *  - the reset under "the visited cell has a cached value" clears the cache
 *    of the cell the sweep started from, not that of the visited cell;
 *  - every visited cell is marked and recursed into whether or not it was
 *    already checked, so a cycle of back-edges never ends.
 */
module ClearCacheFindings {
  import opened Wrappers
  import opened Positions
  import opened Cells
  import opened Graphs
  import opened CellTables

  /** Back-edge lists, each in the order its std::set<Cell*> iterates. */
  type BackLists = map<Position, seq<Position>>

  function Listed(rd: BackLists, c: Position): seq<Position> {
    if c in rd then rd[c] else []
  }

  /** The caches and the checked set a sweep threads through its calls. */
  datatype Sweep = Sweep(caches: map<Position, Value>, checked: set<Position>)

  /**
   * The loop of Cell::ClearCaches as written, always running on the cell
   * `self` that started the sweep. `fuel` bounds the depth of the
   * recursion; None means the recursion had not ended when it ran out.
   */
  function ClearCachesAsWritten(rd: BackLists, self: Position, s: Sweep, refs: seq<Position>, fuel: nat): (r: Option<Sweep>)
    ensures r.Some? ==> r.value.caches.Keys <= s.caches.Keys
    ensures r.Some? ==> forall q | q in s.caches && q != self :: q in r.value.caches && r.value.caches[q] == s.caches[q]
    ensures r.Some? ==> s.checked + RefSet(refs) <= r.value.checked
    decreases fuel, |refs|
  {
    if refs == [] then Some(s)
    else if fuel == 0 then None
    else
      var c := refs[0];
      var caches := if c !in s.checked && c in s.caches then s.caches - {self} else s.caches;
      match ClearCachesAsWritten(rd, self, Sweep(caches, s.checked + {c}), Listed(rd, c), fuel - 1)
      case None => None
      case Some(s') => ClearCachesAsWritten(rd, self, s', refs[1..], fuel)
  }

  /**
   * Cell::ClearCache as written on the cell at `p`: the caches it leaves,
   * or None if the sweep does not end within `fuel`. When it ends, only
   * `p`'s own cached value is gone; no dependant loses its cache.
   */
  function ClearCacheAsWritten(rd: BackLists, p: Position, caches: map<Position, Value>, fuel: nat): (r: Option<map<Position, Value>>)
    ensures r.Some? ==> r.value == caches - {p}
    ensures Listed(rd, p) == [] ==> r.Some?
  {
    var s := Sweep(caches - {p}, {p});
    if Listed(rd, p) == [] then Some(s.caches)
    else
      match ClearCachesAsWritten(rd, p, s, Listed(rd, p), fuel)
      case None => None
      case Some(s') => Some(s'.caches)
  }

  /**
   * A1 is used by B1's formula and both hold cached values. Clearing A1's
   * cache as written leaves B1's cached value in place, while B1 is among
   * the cells the intended sweep (Sheet.ClearCache) invalidates.
   */
  lemma StaleDependant(fuel: nat)
    requires fuel >= 1
    ensures var a1, b1, v := Position(0, 0), Position(0, 1), TextValue("");
      && ClearCacheAsWritten(map[a1 := [b1], b1 := []], a1, map[a1 := v, b1 := v], fuel) == Some(map[b1 := v])
      && InvalidatedIn({a1, b1}, map[a1 := {b1}, b1 := {}], a1) == {a1, b1}
  {
    var a1, b1, v := Position(0, 0), Position(0, 1), TextValue("");
    var rd := map[a1 := [b1], b1 := []];
    var s := Sweep(map[a1 := v, b1 := v] - {a1}, {a1});
    assert s.caches == map[b1 := v] && s.caches - {a1} == s.caches;
    assert Listed(rd, a1) == [b1] && [b1][1..] == [] && Listed(rd, b1) == [];
    var after := Sweep(s.caches, {a1, b1});
    assert Sweep(s.caches - {a1}, s.checked + {b1}) == after;
    assert ClearCachesAsWritten(rd, a1, after, Listed(rd, b1), fuel - 1) == Some(after);
    assert ClearCachesAsWritten(rd, a1, after, [b1][1..], fuel) == Some(after);
    assert ClearCachesAsWritten(rd, a1, s, [b1], fuel) == Some(after);
    Step(map[a1 := {b1}, b1 := {}], a1, b1);
  }

  /**
   * A sweep as written that meets two cells listing each other as
   * back-edges (or one cell listing itself, when `x == y`) never ends.
   */
  lemma {:induction false} ListedCycleNeverEnds(rd: BackLists, self: Position, x: Position, y: Position, s: Sweep, fuel: nat)
    requires Listed(rd, x) == [y] && Listed(rd, y) == [x]
    ensures ClearCachesAsWritten(rd, self, s, [x], fuel) == None
    decreases fuel
  {
    if fuel > 0 {
      var caches := if x !in s.checked && x in s.caches then s.caches - {self} else s.caches;
      ListedCycleNeverEnds(rd, self, y, x, Sweep(caches, s.checked + {x}), fuel - 1);
    }
  }

  /**
   * Writing "=A1" into A1 leaves A1 in its own back-edges (Cell::AddEdges
   * inserts the back-edge before it throws; see CellTables.SetSelfReference).
   * From then on ClearCache on A1 as written never ends, for any fuel,
   * while the intended sweep only has A1 itself to invalidate.
   */
  lemma SelfBackEdgeDiverges(caches: map<Position, Value>, fuel: nat)
    ensures var a1 := Position(0, 0);
      && ClearCacheAsWritten(map[a1 := [a1]], a1, caches, fuel) == None
      && InvalidatedIn({a1}, map[a1 := {a1}], a1) == {a1}
  {
    var a1 := Position(0, 0);
    ListedCycleNeverEnds(map[a1 := [a1]], a1, a1, a1, Sweep(caches - {a1}, {a1}), fuel);
  }

  /**
   * The same without a self-reference. Writing "=B1" into A1 and then "1"
   * leaves A1 in B1's back-edges, since Cell::Set never removes one
   * (CellTables.SetKeepsBackEdges). Writing "=A1" into B1 then puts B1 in
   * A1's back-edges, so each lists the other. The next accepted write to
   * A1 clears its cache, and as written that never ends, while the
   * intended sweep invalidates A1 and B1.
   */
  lemma StaleBackEdgesDiverge(caches: map<Position, Value>, fuel: nat)
    ensures var a1, b1 := Position(0, 0), Position(0, 1);
      && ClearCacheAsWritten(map[a1 := [b1], b1 := [a1]], a1, caches, fuel) == None
      && InvalidatedIn({a1, b1}, map[a1 := {b1}, b1 := {a1}], a1) == {a1, b1}
  {
    var a1, b1 := Position(0, 0), Position(0, 1);
    var rd := map[a1 := [b1], b1 := [a1]];
    assert Listed(rd, a1) == [b1] && Listed(rd, b1) == [a1];
    ListedCycleNeverEnds(rd, a1, b1, a1, Sweep(caches - {a1}, {a1}), fuel);
    Step(map[a1 := {b1}, b1 := {a1}], a1, b1);
  }
}
