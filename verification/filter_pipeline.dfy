/**
 * The sidebar's filter pipeline (app.py lines 131-165) lifted into a pure
 * function. Each step is a boolean mask over the rows; the steps run in the
 * page's order: search, category, size, then the unconditional stock step.
 */
module FilterPipeline {
  import opened Wrappers
  import opened Seqs
  import opened Strings
  import opened Catalog

  /** One mask of the pipeline. */
  datatype Step =
    | Search(column: string, text: string)
    | Category(value: Cell)
    | Size(value: Cell)
    | PositiveStock

  /**
   * pandas refuses to compare a text cell with the number 0, so a text stock
   * cell that reaches the stock step stops the page.
   */
  datatype FilterError = StockNotComparable

  predicate Holds(step: Step, row: Row) {
    match step
    case Search(column, text) => ContainsIgnoringCase(CellText(Get(row, column)), text)
    case Category(value) => Matches(Get(row, CategoryKey), value)
    case Size(value) => Matches(Get(row, SizeKey), value)
    case PositiveStock => InStock(row)
  }

  function Keeps(step: Step): Row -> bool {
    row => Holds(step, row)
  }

  predicate AllHold(steps: seq<Step>, row: Row) {
    forall i :: 0 <= i < |steps| ==> Holds(steps[i], row)
  }

  function KeepsAll(steps: seq<Step>): Row -> bool {
    row => AllHold(steps, row)
  }

  /** Applies the masks one after the other, as the page reassigns `df_filtrado`. */
  function Pipeline(steps: seq<Step>, rows: seq<Row>): seq<Row>
    decreases |steps|
  {
    if steps == [] then rows else Pipeline(steps[1..], Where(rows, Keeps(steps[0])))
  }

  /** The steps the sidebar criteria switch on, in the page's order. */
  function UserSteps(columns: seq<string>, c: Criteria): seq<Step>
    requires |columns| > 0
  {
    (if c.search != "" then [Search(SearchColumn(columns), c.search)] else [])
    + (if CategoryKey in columns && c.category != AllCategories then [Category(c.category)] else [])
    + (if SizeKey in columns && c.size != AllSizes then [Size(c.size)] else [])
  }

  /** The stock step runs whenever the column exists, whatever the criteria. */
  function StockSteps(columns: seq<string>): seq<Step> {
    if StockKey in columns then [PositiveStock] else []
  }

  function ActiveSteps(columns: seq<string>, c: Criteria): seq<Step>
    requires |columns| > 0
  {
    UserSteps(columns, c) + StockSteps(columns)
  }

  predicate HasTextStock(rows: seq<Row>) {
    exists i :: 0 <= i < |rows| && Get(rows[i], StockKey).Str?
  }

  /**
   * The filtered table. An empty table yields pandas' bare empty frame, which
   * has no columns; otherwise the columns are kept and the rows narrowed.
   */
  function Filter(t: Table, c: Criteria): Result<Table, FilterError> {
    if IsEmpty(t) then Ok(Table([], []))
    else
      var narrowed := Pipeline(UserSteps(t.columns, c), t.rows);
      if StockKey in t.columns && HasTextStock(narrowed) then Err(StockNotComparable)
      else Ok(Table(t.columns, Pipeline(StockSteps(t.columns), narrowed)))
  }

  // ---------------------------------------------------------------------
  // The criteria stated independently of the steps.

  /** What the sidebar asks of a row, one conjunct per selection. */
  predicate UserSelected(columns: seq<string>, c: Criteria, row: Row)
    requires |columns| > 0
  {
    && (c.search != "" ==> ContainsIgnoringCase(CellText(Get(row, SearchColumn(columns))), c.search))
    && (CategoryKey in columns && c.category != AllCategories ==> Matches(Get(row, CategoryKey), c.category))
    && (SizeKey in columns && c.size != AllSizes ==> Matches(Get(row, SizeKey), c.size))
  }

  /** What the page shows: the sidebar's selection, in stock when stock is tracked. */
  predicate Selected(columns: seq<string>, c: Criteria, row: Row)
    requires |columns| > 0
  {
    UserSelected(columns, c, row) && (StockKey in columns ==> InStock(row))
  }

  // ---------------------------------------------------------------------
  // The pipeline is the conjunction of its steps.

  lemma AllHoldCons(steps: seq<Step>, row: Row)
    requires steps != []
    ensures AllHold(steps, row) <==> Holds(steps[0], row) && AllHold(steps[1..], row)
  {
    if Holds(steps[0], row) && AllHold(steps[1..], row) {
      forall i | 0 <= i < |steps| ensures Holds(steps[i], row) {
        if i > 0 {
          assert steps[i] == steps[1..][i - 1];
        }
      }
    }
  }

  /** Running the masks in sequence keeps exactly the rows that pass all of them. */
  lemma {:induction false} PipelineIsConjunction(steps: seq<Step>, rows: seq<Row>)
    ensures Pipeline(steps, rows) == Where(rows, KeepsAll(steps))
    decreases |steps|
  {
    if steps == [] {
      WhereAll(rows, KeepsAll(steps));
    } else {
      PipelineIsConjunction(steps[1..], Where(rows, Keeps(steps[0])));
      forall row: Row ensures KeepsAll(steps)(row) == (Keeps(steps[0])(row) && KeepsAll(steps[1..])(row)) {
        AllHoldCons(steps, row);
      }
      WhereFuse(rows, Keeps(steps[0]), KeepsAll(steps[1..]), KeepsAll(steps));
    }
  }

  /** Two step lists with the same members keep the same rows, whatever their order. */
  lemma PipelineOrderIrrelevant(first: seq<Step>, second: seq<Step>, rows: seq<Row>)
    requires forall s :: s in first <==> s in second
    ensures Pipeline(first, rows) == Pipeline(second, rows)
  {
    PipelineIsConjunction(first, rows);
    PipelineIsConjunction(second, rows);
    forall row | row in rows ensures KeepsAll(first)(row) == KeepsAll(second)(row) {
      if AllHold(first, row) {
        forall i | 0 <= i < |second| ensures Holds(second[i], row) {
          assert second[i] in first;
        }
      }
      if AllHold(second, row) {
        forall i | 0 <= i < |first| ensures Holds(first[i], row) {
          assert first[i] in second;
        }
      }
    }
    WhereExtensional(rows, KeepsAll(first), KeepsAll(second));
  }

  /** Running one list of masks after another is running their concatenation. */
  lemma {:induction false} PipelineAppend(first: seq<Step>, second: seq<Step>, rows: seq<Row>)
    ensures Pipeline(first + second, rows) == Pipeline(second, Pipeline(first, rows))
    decreases |first|
  {
    if first == [] {
      assert first + second == second;
    } else {
      assert (first + second)[1..] == first[1..] + second;
      PipelineAppend(first[1..], second, Where(rows, Keeps(first[0])));
    }
  }

  /** The steps the criteria switch on hold of a row exactly when the sidebar selects it. */
  lemma UserStepsMeaning(columns: seq<string>, c: Criteria, row: Row)
    requires |columns| > 0
    ensures AllHold(UserSteps(columns, c), row) <==> UserSelected(columns, c, row)
  {
    var search := if c.search != "" then [Search(SearchColumn(columns), c.search)] else [];
    var category := if CategoryKey in columns && c.category != AllCategories then [Category(c.category)] else [];
    var size := if SizeKey in columns && c.size != AllSizes then [Size(c.size)] else [];
    var user := UserSteps(columns, c);
    assert user == search + category + size;
    assert forall s :: s in user <==> s in search || s in category || s in size;
    AllHoldMembers(user, row);
    if c.search != "" {
      assert Search(SearchColumn(columns), c.search) in user;
    }
    if CategoryKey in columns && c.category != AllCategories {
      assert Category(c.category) in user;
    }
    if SizeKey in columns && c.size != AllSizes {
      assert Size(c.size) in user;
    }
  }

  /** All the active steps hold of a row exactly when the page selects it. */
  lemma ActiveStepsMeaning(columns: seq<string>, c: Criteria, row: Row)
    requires |columns| > 0
    ensures AllHold(ActiveSteps(columns, c), row) <==> Selected(columns, c, row)
  {
    var user := UserSteps(columns, c);
    var active := ActiveSteps(columns, c);
    UserStepsMeaning(columns, c, row);
    assert forall s :: s in active <==> s in user || s in StockSteps(columns);
    AllHoldMembers(user, row);
    AllHoldMembers(active, row);
    if StockKey in columns {
      assert PositiveStock in active;
    }
  }

  lemma AllHoldMembers(steps: seq<Step>, row: Row)
    ensures AllHold(steps, row) <==> forall s :: s in steps ==> Holds(s, row)
  {
    if forall s :: s in steps ==> Holds(s, row) {
      forall i | 0 <= i < |steps| ensures Holds(steps[i], row) {
        assert steps[i] in steps;
      }
    }
  }

  /** The page's result rows are the active steps' conjunction over the input rows. */
  lemma FilterRows(t: Table, c: Criteria)
    requires !IsEmpty(t) && Filter(t, c).Ok?
    ensures Filter(t, c).value == Table(t.columns, Pipeline(ActiveSteps(t.columns, c), t.rows))
  {
    PipelineAppend(UserSteps(t.columns, c), StockSteps(t.columns), t.rows);
  }
}
