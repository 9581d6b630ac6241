/**
 * The Formula wrapper of formula.cpp around the external formula AST.
 *
 * The AST library (ParseFormulaAST, FormulaAST::Execute, PrintFormula) is
 * not part of this model. The cell layer observes an AST only through the
 * list of cells it mentions, its canonical printed form and its execution,
 * so `Ast` keeps the first two and execution is a function supplied by the
 * caller.
 */
module Formulas {
  import opened Wrappers
  import opened Positions

  /** The numeric payload of a formula result; no arithmetic is modelled. */
  type Number(==)

  /** FormulaError categories. */
  datatype Category = Ref | WrongValue | Div0

  datatype FormulaError = FormulaError(category: Category)

  /** What the parser hands back: the cells the expression mentions, in its order, and its printed form. */
  datatype Ast = Ast(cells: seq<Position>, printed: string)

  /** How FormulaAST::Execute ends: it returns a number or throws a FormulaError. */
  datatype Execution = Returned(number: Number) | Raised(error: FormulaError)

  /** FormulaInterface::Value: a number or a FormulaError. */
  datatype FormulaValue = Num(number: Number) | Err(error: FormulaError)

  /** Parsing failed: FormulaException. */
  datatype ParseError = FormulaException

  /** A constructed Formula: its AST and the referenced-cells list built from it. */
  datatype Formula = Formula(ast: Ast, referenced: seq<Position>) {
    /** The invariant the constructor establishes. */
    ghost predicate WellFormed() {
      referenced == ReferencedFrom(ast.cells, NONE)
    }
  }

  /**
   * The constructor's filter: keep a valid position unless it equals the
   * last one kept (`prev`, initially NONE).
   */
  function ReferencedFrom(cells: seq<Position>, prev: Position): seq<Position>
  {
    if cells == [] then []
    else if cells[0].IsValid() && cells[0] != prev then [cells[0]] + ReferencedFrom(cells[1..], cells[0])
    else ReferencedFrom(cells[1..], prev)
  }

  /** `a` is `b` with some entries dropped, order kept. */
  ghost predicate IsSubsequence(a: seq<Position>, b: seq<Position>)
    decreases |b|
  {
    if a == [] then true
    else if b == [] then false
    else if a[0] == b[0] then IsSubsequence(a[1..], b[1..])
    else IsSubsequence(a, b[1..])
  }

  ghost predicate NoAdjacentDuplicates(s: seq<Position>) {
    forall i | 0 <= i < |s| - 1 :: s[i] != s[i + 1]
  }

  /** The loop of the Formula constructor over the AST's cell list. */
  method FilterReferenced(cells: seq<Position>) returns (referenced: seq<Position>)
    ensures referenced == ReferencedFrom(cells, NONE)
  {
    referenced := [];
    var prev := NONE;
    var i := 0;
    while i < |cells|
      invariant 0 <= i <= |cells|
      invariant referenced + ReferencedFrom(cells[i..], prev) == ReferencedFrom(cells, NONE)
    {
      assert cells[i..][1..] == cells[i + 1..];
      var cell := cells[i];
      if cell.IsValid() && cell != prev {
        referenced := referenced + [cell];
        prev := cell;
      }
      i := i + 1;
    }
  }

  /** Every kept position is valid. */
  lemma {:induction false} ReferencedAreValid(cells: seq<Position>, prev: Position)
    ensures forall p | p in ReferencedFrom(cells, prev) :: p.IsValid()
    decreases |cells|
  {
    if cells != [] {
      ReferencedAreValid(cells[1..], cells[0]);
      ReferencedAreValid(cells[1..], prev);
    }
  }

  /** The list never starts with `prev` and never repeats an entry twice in a row. */
  lemma {:induction false} ReferencedNoAdjacentDuplicates(cells: seq<Position>, prev: Position)
    ensures var r := ReferencedFrom(cells, prev);
      NoAdjacentDuplicates(r) && (r != [] ==> r[0] != prev)
    decreases |cells|
  {
    if cells != [] {
      ReferencedNoAdjacentDuplicates(cells[1..], cells[0]);
      ReferencedNoAdjacentDuplicates(cells[1..], prev);
      if cells[0].IsValid() && cells[0] != prev {
        var rest := ReferencedFrom(cells[1..], cells[0]);
        var r := [cells[0]] + rest;
        forall i | 0 <= i < |r| - 1 ensures r[i] != r[i + 1] {
          if i > 0 { assert r[i] == rest[i - 1] && r[i + 1] == rest[i]; }
        }
      }
    }
  }

  /** The list keeps the AST's order: it is a subsequence of the cell list. */
  lemma {:induction false} ReferencedIsSubsequence(cells: seq<Position>, prev: Position)
    ensures IsSubsequence(ReferencedFrom(cells, prev), cells)
    decreases |cells|
  {
    if cells != [] {
      var r := ReferencedFrom(cells, prev);
      if cells[0].IsValid() && cells[0] != prev {
        ReferencedIsSubsequence(cells[1..], cells[0]);
        assert r[0] == cells[0] && r[1..] == ReferencedFrom(cells[1..], cells[0]);
      } else {
        ReferencedIsSubsequence(cells[1..], prev);
        SubsequenceOfTail(r, cells);
      }
    }
  }

  lemma {:induction false} SubsequenceOfTail(a: seq<Position>, b: seq<Position>)
    requires b != [] && IsSubsequence(a, b[1..])
    ensures IsSubsequence(a, b)
    decreases |b|, 1
  {
    if a != [] && a[0] == b[0] {
      // a[1..] is a subsequence of b[1..] because a is
      SubsequenceDropHead(a, b[1..]);
    }
  }

  lemma {:induction false} SubsequenceDropHead(a: seq<Position>, b: seq<Position>)
    requires a != [] && IsSubsequence(a, b)
    ensures IsSubsequence(a[1..], b)
    decreases |b|, 2
  {
    assert b != [];
    if a[0] == b[0] {
      if a[1..] != [] { SubsequenceOfTail(a[1..], b); }
    } else {
      SubsequenceDropHead(a, b[1..]);
      if a[1..] != [] { SubsequenceOfTail(a[1..], b); }
    }
  }

  /**
   * Nothing valid is lost: every valid position of the AST's list is in the
   * result or equals `prev`, since a skipped entry equals the last one kept.
   */
  lemma {:induction false} ReferencedCoversValid(cells: seq<Position>, prev: Position)
    ensures forall p | p in cells && p.IsValid() :: p in ReferencedFrom(cells, prev) || p == prev
    decreases |cells|
  {
    if cells != [] {
      ReferencedCoversValid(cells[1..], cells[0]);
      ReferencedCoversValid(cells[1..], prev);
      var r := ReferencedFrom(cells, prev);
      forall p | p in cells && p.IsValid() ensures p in r || p == prev {
        if p != cells[0] {
          assert p in cells[1..];
        }
      }
    }
  }

  /** Starting from NONE, every valid position of the AST's list is referenced. */
  lemma ReferencedExactlyValid(cells: seq<Position>)
    ensures forall p :: p in ReferencedFrom(cells, NONE) <==> p in cells && p.IsValid()
  {
    ReferencedAreValid(cells, NONE);
    ReferencedCoversValid(cells, NONE);
    ReferencedIsSubsequence(cells, NONE);
    forall p | p in ReferencedFrom(cells, NONE) ensures p in cells {
      SubsequenceMembers(ReferencedFrom(cells, NONE), cells, p);
    }
  }

  lemma {:induction false} SubsequenceMembers(a: seq<Position>, b: seq<Position>, p: Position)
    requires IsSubsequence(a, b) && p in a
    ensures p in b
    decreases |b|
  {
    if a[0] == b[0] {
      if p != a[0] { SubsequenceMembers(a[1..], b[1..], p); }
    } else {
      SubsequenceMembers(a, b[1..], p);
    }
  }

  /**
   * The Formula constructor: parse the expression (a failure surfaces as
   * FormulaException and no Formula exists), then filter its cell list.
   */
  method ParseFormula(parse: string -> Option<Ast>, expression: string) returns (r: Result<Formula, ParseError>)
    ensures r.Failure? <==> parse(expression).None?
    ensures r.Success? ==> r.value.ast == parse(expression).value && r.value.WellFormed()
  {
    var parsed := parse(expression);
    if parsed.None? {
      return Failure(FormulaException);
    }
    var referenced := FilterReferenced(parsed.value.cells);
    r := Success(Formula(parsed.value, referenced));
  }

  /**
   * Formula::GetReferencedCells: the list built at construction, with the
   * guarantees the constructor gives it.
   */
  function GetReferencedCells(f: Formula): (r: seq<Position>)
    ensures f.WellFormed() ==> forall p :: p in r <==> p in f.ast.cells && p.IsValid()
    ensures f.WellFormed() ==> NoAdjacentDuplicates(r)
    ensures f.WellFormed() ==> IsSubsequence(r, f.ast.cells)
  {
    ReferencedExactlyValid(f.ast.cells);
    ReferencedNoAdjacentDuplicates(f.ast.cells, NONE);
    ReferencedIsSubsequence(f.ast.cells, NONE);
    f.referenced
  }

  /** Formula::GetExpression: the AST's canonical printed form. */
  function GetExpression(f: Formula): string {
    f.ast.printed
  }

  /**
   * Formula::Evaluate: run the AST against the sheet; a thrown FormulaError
   * becomes an error value instead of propagating.
   */
  function Evaluate<S>(f: Formula, execute: (Ast, S) -> Execution, sheet: S): (v: FormulaValue)
    ensures v.Num? <==> execute(f.ast, sheet).Returned?
    ensures v.Num? ==> v.number == execute(f.ast, sheet).number
    ensures v.Err? ==> v.error == execute(f.ast, sheet).error
  {
    match execute(f.ast, sheet)
    case Returned(n) => Num(n)
    case Raised(e) => Err(e)
  }
}
