/**
 * Reachability over the cell reference graph. A cell's forward edges
 * (cells_included_in_formula_) and its back-edges (referenced_in_cells_)
 * are both stored as a map from a position to a set of positions; a
 * position the map does not hold has no successors.
 */
module Graphs {
  import opened Positions

  type Graph = map<Position, set<Position>>

  function Succ(g: Graph, x: Position): set<Position> {
    if x in g then g[x] else {}
  }

  ghost predicate IsPath(g: Graph, p: seq<Position>) {
    |p| >= 1 && forall i | 0 <= i < |p| - 1 :: p[i + 1] in Succ(g, p[i])
  }

  /** `b` can be reached from `a` in one or more steps. */
  ghost predicate Reaches(g: Graph, a: Position, b: Position) {
    exists p :: IsPath(g, p) && |p| >= 2 && p[0] == a && p[|p| - 1] == b
  }

  /** No position reaches itself. */
  ghost predicate Acyclic(g: Graph) {
    forall a :: !Reaches(g, a, a)
  }

  /** Every edge of `h` is an edge of `g`. */
  ghost predicate Subgraph(h: Graph, g: Graph) {
    forall z :: Succ(h, z) <= Succ(g, z)
  }

  /** The successors of every member of `c` are in `c`. */
  ghost predicate Closed(g: Graph, c: set<Position>) {
    forall x | x in c :: Succ(g, x) <= c
  }

  lemma Step(g: Graph, a: Position, b: Position)
    requires b in Succ(g, a)
    ensures Reaches(g, a, b)
  {
    assert IsPath(g, [a, b]);
  }

  /** Any two positions of a path, the later one reached from the earlier one. */
  lemma Segment(g: Graph, p: seq<Position>, i: int, j: int)
    requires IsPath(g, p) && 0 <= i < j < |p|
    ensures Reaches(g, p[i], p[j])
  {
    var q := p[i..j + 1];
    forall k | 0 <= k < |q| - 1 ensures q[k + 1] in Succ(g, q[k]) {
      assert q[k] == p[i + k] && q[k + 1] == p[i + k + 1];
    }
    assert IsPath(g, q);
  }

  lemma Trans(g: Graph, a: Position, b: Position, c: Position)
    requires Reaches(g, a, b) && Reaches(g, b, c)
    ensures Reaches(g, a, c)
  {
    var p :| IsPath(g, p) && |p| >= 2 && p[0] == a && p[|p| - 1] == b;
    var q :| IsPath(g, q) && |q| >= 2 && q[0] == b && q[|q| - 1] == c;
    var r := p + q[1..];
    forall k | 0 <= k < |r| - 1 ensures r[k + 1] in Succ(g, r[k]) {
      if k < |p| - 1 {
        assert r[k] == p[k] && r[k + 1] == p[k + 1];
      } else {
        assert r[k] == q[k - |p| + 1] && r[k + 1] == q[k - |p| + 2];
      }
    }
    assert IsPath(g, r);
  }

  lemma Prepend(g: Graph, a: Position, b: Position, c: Position)
    requires b in Succ(g, a) && Reaches(g, b, c)
    ensures Reaches(g, a, c)
  {
    Step(g, a, b);
    Trans(g, a, b, c);
  }

  /** Whatever is reached from `a` stays in a closed set holding `a`'s successors. */
  lemma {:induction false} ReachesStaysIn(g: Graph, c: set<Position>, a: Position, b: Position)
    requires Closed(g, c) && Succ(g, a) <= c
    ensures Reaches(g, a, b) ==> b in c
  {
    if Reaches(g, a, b) {
      var p :| IsPath(g, p) && |p| >= 2 && p[0] == a && p[|p| - 1] == b;
      var i := 1;
      while i < |p| - 1
        invariant 1 <= i <= |p| - 1
        invariant p[i] in c
      {
        i := i + 1;
      }
    }
  }

  lemma {:induction false} SubgraphReaches(h: Graph, g: Graph, a: Position, b: Position)
    requires Subgraph(h, g)
    ensures Reaches(h, a, b) ==> Reaches(g, a, b)
  {
    if Reaches(h, a, b) {
      var p :| IsPath(h, p) && |p| >= 2 && p[0] == a && p[|p| - 1] == b;
      forall i | 0 <= i < |p| - 1 ensures p[i + 1] in Succ(g, p[i]) {
        assert p[i + 1] in Succ(h, p[i]);
      }
      assert IsPath(g, p);
    }
  }

  /** Dropping edges keeps a graph acyclic. */
  lemma SubgraphAcyclic(h: Graph, g: Graph)
    requires Subgraph(h, g) && Acyclic(g)
    ensures Acyclic(h)
  {
    forall a ensures !Reaches(h, a, a) {
      SubgraphReaches(h, g, a, a);
    }
  }

  /** Graphs with the same successors everywhere have the same paths. */
  lemma SameSuccessorsSameReach(g1: Graph, g2: Graph)
    requires forall z :: Succ(g1, z) == Succ(g2, z)
    ensures forall a, b :: Reaches(g1, a, b) <==> Reaches(g2, a, b)
  {
    forall a, b ensures Reaches(g1, a, b) <==> Reaches(g2, a, b) {
      SubgraphReaches(g1, g2, a, b);
      SubgraphReaches(g2, g1, a, b);
    }
  }

  /** A position without successors reaches nothing. */
  lemma NoSuccessorsReachNothing(g: Graph, a: Position, b: Position)
    requires Succ(g, a) == {}
    ensures !Reaches(g, a, b)
  {
    ReachesStaysIn(g, {}, a, b);
  }

  /** A position that no edge points at is reached from nowhere. */
  lemma NoPredecessorsReachedFromNothing(g: Graph, a: Position, b: Position)
    requires forall z :: b !in Succ(g, z)
    ensures !Reaches(g, a, b)
  {
    forall p | IsPath(g, p) && |p| >= 2 ensures p[|p| - 1] != b {
      var j := |p| - 2;
      assert p[j + 1] in Succ(g, p[j]);
    }
  }

  /**
   * Paths into `x` do not depend on `x`'s own successors: two graphs that
   * agree everywhere except at `x` let the same positions reach `x`.
   */
  lemma {:induction false} ReachesTargetIgnoresItsEdges(g1: Graph, g2: Graph, x: Position, y: Position)
    requires forall z | z != x :: Succ(g1, z) == Succ(g2, z)
    requires y != x
    ensures Reaches(g1, y, x) ==> Reaches(g2, y, x)
  {
    if !Reaches(g1, y, x) { return; }
    var p :| IsPath(g1, p) && |p| >= 2 && p[0] == y && p[|p| - 1] == x;
    var j := 0;
    while p[j] != x
      invariant 0 <= j < |p|
      invariant forall k | 0 <= k < j :: p[k] != x
      decreases |p| - j
    {
      j := j + 1;
    }
    var q := p[..j + 1];
    forall k | 0 <= k < |q| - 1 ensures q[k + 1] in Succ(g2, q[k]) {
      assert q[k] == p[k] && q[k + 1] == p[k + 1] && p[k] != x;
    }
    assert IsPath(g2, q);
  }

  /**
   * Replacing the successors of `x` in an acyclic graph by `s` leaves it
   * acyclic exactly when `x` is not in `s` and no member of `s` reaches `x`.
   */
  lemma RedirectAcyclic(g: Graph, x: Position, s: set<Position>)
    requires Acyclic(g)
    ensures Acyclic(g[x := s]) <==> x !in s && forall y | y in s :: !Reaches(g, y, x)
  {
    var g' := g[x := s];
    if x in s {
      Step(g', x, x);
    } else if y :| y in s && Reaches(g, y, x) {
      ReachesTargetIgnoresItsEdges(g, g', x, y);
      Prepend(g', x, y, x);
    } else {
      forall a ensures !Reaches(g', a, a) {
        CycleAfterRedirect(g, x, s, a);
      }
    }
  }

  /**
   * A cycle of the redirected graph is a cycle of the old one, or it runs
   * through `x` and then one of the new successors reaches `x` in the old graph.
   */
  lemma CycleAfterRedirect(g: Graph, x: Position, s: set<Position>, a: Position)
    ensures Reaches(g[x := s], a, a) ==>
      x in s || (exists y | y in s :: Reaches(g, y, x)) || Reaches(g, a, a)
  {
    var g' := g[x := s];
    if Reaches(g', a, a) {
      var p :| IsPath(g', p) && |p| >= 2 && p[0] == a && p[|p| - 1] == a;
      if i :| 0 <= i < |p| - 1 && p[i] == x {
        // the cycle passes through x, so x reaches itself in g'
        assert Reaches(g', x, x) by {
          Segment(g', p, i, |p| - 1);
          if i > 0 {
            Segment(g', p, 0, i);
            Trans(g', x, a, x);
          }
        }
        var r :| IsPath(g', r) && |r| >= 2 && r[0] == x && r[|r| - 1] == x;
        var y := r[1];
        assert y in s;
        if y != x {
          Segment(g', r, 1, |r| - 1);
          ReachesTargetIgnoresItsEdges(g', g, x, y);
        }
      } else {
        forall k | 0 <= k < |p| - 1 ensures p[k + 1] in Succ(g, p[k]) {
          assert p[k] != x;
        }
        assert IsPath(g, p);
      }
    }
  }
}
