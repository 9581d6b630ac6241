/**
 * Cell contents and their projections (cell.cpp): the Empty, Text and
 * Formula implementations, how Cell::Set picks one from the raw text, and
 * what each gives for GetValue, GetText and GetReferencedCells.
 */
module Cells {
  import opened Wrappers
  import opened Positions
  import opened Formulas

  const FORMULA_SIGN: char := '='
  const ESCAPE_SIGN: char := '\''

  /** CellInterface::Value: a string, a number or a FormulaError. */
  datatype Value = TextValue(text: string) | NumberValue(number: Number) | ErrorValue(error: FormulaError)

  /** The three Cell::Impl classes. */
  datatype Content = EmptyImpl | TextImpl(text: string) | FormulaImpl(formula: Formula)

  /** What a cell is, seen from outside: its impl_ (None while impl_ is null), cache and edges. */
  datatype CellRec = CellRec(impl: Option<Content>, cache: Option<Value>, deps: set<Position>, rdeps: set<Position>)

  /** The sheet as the formula evaluator reads it: every cell's content and cached value. */
  datatype SheetView = SheetView(contents: map<Position, Option<Content>>, caches: map<Position, Value>)

  /** Which implementation Cell::Set builds for a raw text. */
  datatype Kind = FormulaKind | EmptyKind | TextKind

  /**
   * The decision of Cell::Set: a formula needs the formula sign and at least
   * one more character; the empty text is Empty; anything else, a lone
   * formula sign included, is Text.
   */
  function KindOf(text: string): (k: Kind)
    ensures k == FormulaKind <==> |text| > 1 && text[0] == FORMULA_SIGN
    ensures k == EmptyKind <==> text == []
    ensures text == [FORMULA_SIGN] ==> k == TextKind
  {
    if |text| > 1 && text[0] == FORMULA_SIGN then FormulaKind
    else if text == [] then EmptyKind
    else TextKind
  }

  /** The implementation Cell::Set stores for a text that is not a formula. */
  function PlainImpl(text: string): (c: Content)
    requires KindOf(text) != FormulaKind
    ensures c.EmptyImpl? <==> text == []
    ensures ImplText(c) == text
    ensures ImplReferenced(c) == []
  {
    if text == [] then EmptyImpl else TextImpl(text)
  }

  /** What Cell::Set can store: text that is neither empty nor a formula, or a constructed Formula. */
  ghost predicate WellFormedContent(c: Content) {
    match c
    case EmptyImpl => true
    case TextImpl(text) => KindOf(text) == TextKind
    case FormulaImpl(f) => f.WellFormed()
  }

  /** Impl::GetText. A formula prints as the formula sign and the canonical expression. */
  function ImplText(c: Content): (t: string)
    ensures c.FormulaImpl? ==> |t| == 1 + |GetExpression(c.formula)| && t[0] == FORMULA_SIGN && t[1..] == GetExpression(c.formula)
    ensures c.TextImpl? ==> t == c.text
    ensures c.EmptyImpl? ==> t == []
  {
    match c
    case EmptyImpl => ""
    case TextImpl(text) => text
    case FormulaImpl(f) => [FORMULA_SIGN] + GetExpression(f)
  }

  /** Impl::GetReferencedCells: only a formula references cells. */
  function ImplReferenced(c: Content): (refs: seq<Position>)
    ensures !c.FormulaImpl? ==> refs == []
    ensures c.FormulaImpl? && c.formula.WellFormed() ==>
      (forall p :: p in refs <==> p in c.formula.ast.cells && p.IsValid())
  {
    match c
    case EmptyImpl => []
    case TextImpl(_) => []
    case FormulaImpl(f) => GetReferencedCells(f)
  }

  /**
   * Impl::GetValue. Empty is the empty string; Text drops one leading escape
   * sign; a formula maps its evaluation (number or FormulaError) into a Value.
   */
  function ImplValue(c: Content, execute: (Ast, SheetView) -> Execution, sheet: SheetView): (v: Value)
    ensures !c.FormulaImpl? ==> v.TextValue?
    ensures c.FormulaImpl? ==> !v.TextValue?
    ensures v.ErrorValue? <==> c.FormulaImpl? && execute(c.formula.ast, sheet).Raised?
    ensures v.NumberValue? ==> c.FormulaImpl? && v.number == execute(c.formula.ast, sheet).number
    ensures v.ErrorValue? ==> v.error == execute(c.formula.ast, sheet).error
  {
    match c
    case EmptyImpl => TextValue("")
    case TextImpl(text) =>
      if |text| > 0 && text[0] == ESCAPE_SIGN then TextValue(text[1..]) else TextValue(text)
    case FormulaImpl(f) =>
      match Evaluate(f, execute, sheet)
      case Num(n) => NumberValue(n)
      case Err(e) => ErrorValue(e)
  }

  /**
   * For non-formula content GetText is the stored text verbatim and GetValue
   * is that text with exactly one leading escape sign removed when present.
   */
  lemma TextValueAgainstText(c: Content, execute: (Ast, SheetView) -> Execution, sheet: SheetView)
    requires !c.FormulaImpl?
    ensures var t, v := ImplText(c), ImplValue(c, execute, sheet).text;
      if t != [] && t[0] == ESCAPE_SIGN then t == [ESCAPE_SIGN] + v else t == v
  {
  }

  /**
   * Writing back the text a formula cell shows is classified as a formula
   * again whenever the printed expression is not empty.
   */
  lemma FormulaTextIsFormula(f: Formula)
    requires GetExpression(f) != []
    ensures KindOf(ImplText(FormulaImpl(f))) == FormulaKind
  {
  }
}
