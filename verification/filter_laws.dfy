/** What the filtered table promises, stated against the criteria rather than the steps. */
module FilterLaws {
  import opened Wrappers
  import opened Seqs
  import opened Strings
  import opened Catalog
  import opened FilterPipeline

  /** The result rows are the input rows passing every active step, in input order. */
  lemma FilterIsWhere(t: Table, c: Criteria)
    requires !IsEmpty(t) && Filter(t, c).Ok?
    ensures Filter(t, c).value == Table(t.columns, Where(t.rows, KeepsAll(ActiveSteps(t.columns, c))))
  {
    FilterRows(t, c);
    PipelineIsConjunction(ActiveSteps(t.columns, c), t.rows);
  }

  /**
   * A row is shown exactly when it is an input row the criteria select, as
   * often as it occurs in the input, and in input order; the columns are kept.
   */
  lemma FilterSurvivors(t: Table, c: Criteria)
    requires !IsEmpty(t) && Filter(t, c).Ok?
    ensures Filter(t, c).value.columns == t.columns
    ensures IsSubsequence(Filter(t, c).value.rows, t.rows)
    ensures forall row :: row in Filter(t, c).value.rows <==> row in t.rows && Selected(t.columns, c, row)
    ensures forall row :: multiset(Filter(t, c).value.rows)[row] ==
                         if Selected(t.columns, c, row) then multiset(t.rows)[row] else 0
  {
    FilterIsWhere(t, c);
    forall row: Row ensures KeepsAll(ActiveSteps(t.columns, c))(row) == Selected(t.columns, c, row) {
      ActiveStepsMeaning(t.columns, c, row);
    }
  }

  /**
   * The shape of every outcome: an empty table gives pandas' bare empty frame,
   * and otherwise a successful filter keeps the columns and a subsequence of the rows.
   */
  lemma FilterShape(t: Table, c: Criteria)
    ensures IsEmpty(t) ==> Filter(t, c) == Ok(Table([], []))
    ensures Filter(t, c).Ok? ==> IsSubsequence(Filter(t, c).value.rows, t.rows)
    ensures !IsEmpty(t) && Filter(t, c).Ok? ==> Filter(t, c).value.columns == t.columns
  {
    if !IsEmpty(t) && Filter(t, c).Ok? {
      FilterSurvivors(t, c);
    }
  }

  /** Whatever the criteria, every shown row has a positive whole stock when stock is tracked. */
  lemma StockAlwaysPositive(t: Table, c: Criteria, r: Table)
    requires Filter(t, c) == Ok(r) && StockKey in t.columns
    ensures forall row :: row in r.rows ==> InStock(row)
  {
    if !IsEmpty(t) {
      FilterSurvivors(t, c);
    }
  }

  /** A chosen category (other than "Todos") is the category of every shown row. */
  lemma CategorySelected(t: Table, c: Criteria, r: Table)
    requires Filter(t, c) == Ok(r)
    requires CategoryKey in t.columns && c.category != AllCategories
    ensures forall row :: row in r.rows ==> Get(row, CategoryKey) == c.category && !c.category.Missing?
  {
    if !IsEmpty(t) {
      FilterSurvivors(t, c);
    }
  }

  /** A chosen size (other than "Todas") is the size of every shown row. */
  lemma SizeSelected(t: Table, c: Criteria, r: Table)
    requires Filter(t, c) == Ok(r)
    requires SizeKey in t.columns && c.size != AllSizes
    ensures forall row :: row in r.rows ==> Get(row, SizeKey) == c.size && !c.size.Missing?
  {
    if !IsEmpty(t) {
      FilterSurvivors(t, c);
    }
  }

  /**
   * A non-empty search keeps exactly the selected rows whose name cell, as
   * text, contains the search ignoring case: no row is shown that fails the
   * match, and no input row that passes it and the other criteria is dropped.
   */
  lemma SearchMatches(t: Table, c: Criteria, r: Table)
    requires !IsEmpty(t) && Filter(t, c) == Ok(r) && c.search != ""
    ensures forall row :: row in r.rows ==>
              ContainsIgnoringCase(CellText(Get(row, SearchColumn(t.columns))), c.search)
    ensures forall row :: row in t.rows && Selected(t.columns, c, row) ==> row in r.rows
  {
    FilterSurvivors(t, c);
  }

  /** Without a `categoria` column, or with "Todos", the category selection changes nothing. */
  lemma CategoryIgnored(t: Table, c: Criteria)
    requires CategoryKey !in t.columns || c.category == AllCategories
    ensures Filter(t, c) == Filter(t, c.(category := AllCategories))
  {
    if !IsEmpty(t) {
      assert UserSteps(t.columns, c) == UserSteps(t.columns, c.(category := AllCategories));
    }
  }

  /** Without a `talla` column, or with "Todas", the size selection changes nothing. */
  lemma SizeIgnored(t: Table, c: Criteria)
    requires SizeKey !in t.columns || c.size == AllSizes
    ensures Filter(t, c) == Filter(t, c.(size := AllSizes))
  {
    if !IsEmpty(t) {
      assert UserSteps(t.columns, c) == UserSteps(t.columns, c.(size := AllSizes));
    }
  }

  /**
   * With every criterion at its "no filter" value only the stock step runs:
   * the result is the in-stock rows, or every row when stock is not tracked.
   */
  lemma NoCriteriaOnlyStock(t: Table)
    requires !IsEmpty(t) && Filter(t, NoFilter).Ok?
    ensures StockKey in t.columns ==>
              Filter(t, NoFilter).value.rows == Where(t.rows, Keeps(PositiveStock))
    ensures StockKey !in t.columns ==> Filter(t, NoFilter).value.rows == t.rows
  {
    var user := UserSteps(t.columns, NoFilter);
    assert user == [] by {
      assert NoFilter.search == "";
      assert NoFilter.category == AllCategories && NoFilter.size == AllSizes;
    }
    assert Pipeline(user, t.rows) == t.rows;
    if StockKey in t.columns {
      assert StockSteps(t.columns) == [PositiveStock];
      assert Pipeline([PositiveStock], t.rows) == Pipeline([], Where(t.rows, Keeps(PositiveStock)));
    }
  }

  /** The rows reaching the stock step are the input rows the sidebar selects. */
  lemma NarrowedRows(t: Table, c: Criteria)
    requires |t.columns| > 0
    ensures forall row :: row in Pipeline(UserSteps(t.columns, c), t.rows) <==>
                          row in t.rows && UserSelected(t.columns, c, row)
  {
    var user := UserSteps(t.columns, c);
    PipelineIsConjunction(user, t.rows);
    forall row: Row ensures KeepsAll(user)(row) == UserSelected(t.columns, c, row) {
      UserStepsMeaning(t.columns, c, row);
    }
  }

  lemma HasTextStockMeaning(rows: seq<Row>)
    ensures HasTextStock(rows) <==> exists row :: row in rows && Get(row, StockKey).Str?
  {
    if HasTextStock(rows) {
      var i :| 0 <= i < |rows| && Get(rows[i], StockKey).Str?;
      assert rows[i] in rows;
    }
  }

  /**
   * The page stops exactly when stock is tracked and some input row that the
   * sidebar selects holds text in its stock cell.
   */
  lemma FilterFailsExactly(t: Table, c: Criteria)
    ensures Filter(t, c).Err? <==>
              && !IsEmpty(t)
              && StockKey in t.columns
              && exists row :: row in t.rows && UserSelected(t.columns, c, row) && Get(row, StockKey).Str?
  {
    if !IsEmpty(t) {
      var narrowed := Pipeline(UserSteps(t.columns, c), t.rows);
      NarrowedRows(t, c);
      HasTextStockMeaning(narrowed);
    }
  }

  /**
   * Filtering the shown table again with the same criteria shows the same
   * rows; an empty result comes back as pandas' bare empty frame.
   */
  lemma FilterIdempotent(t: Table, c: Criteria, r: Table)
    requires Filter(t, c) == Ok(r)
    ensures Filter(r, c) == Ok(if r.rows == [] then Table([], []) else r)
  {
    if !IsEmpty(t) && r.rows != [] {
      FilterSurvivors(t, c);
      assert !IsEmpty(r);
      var user := UserSteps(r.columns, c);
      PipelineIsConjunction(user, r.rows);
      forall row | row in r.rows ensures KeepsAll(user)(row) {
        UserStepsMeaning(r.columns, c, row);
      }
      WhereAll(r.rows, KeepsAll(user));
      assert Pipeline(user, r.rows) == r.rows;
      if StockKey in r.columns {
        StockStepKeepsStocked(r.columns, r.rows);
      }
    }
  }

  /** Rows that are all in stock pass the stock step untouched and raise no error. */
  lemma StockStepKeepsStocked(columns: seq<string>, rows: seq<Row>)
    requires forall row :: row in rows ==> InStock(row)
    ensures !HasTextStock(rows)
    ensures Pipeline(StockSteps(columns), rows) == rows
  {
    forall i | 0 <= i < |rows| ensures !Get(rows[i], StockKey).Str? {
      assert rows[i] in rows;
    }
    PipelineIsConjunction(StockSteps(columns), rows);
    forall row | row in rows ensures KeepsAll(StockSteps(columns))(row) {
      assert Holds(PositiveStock, row);
    }
    WhereAll(rows, KeepsAll(StockSteps(columns)));
  }

  /** Listing the active steps in any order gives the same rows: the masks commute. */
  lemma FilterOrderIrrelevant(t: Table, c: Criteria, order: seq<Step>)
    requires !IsEmpty(t) && Filter(t, c).Ok?
    requires forall s :: s in order <==> s in ActiveSteps(t.columns, c)
    ensures Pipeline(order, t.rows) == Filter(t, c).value.rows
  {
    FilterRows(t, c);
    PipelineOrderIrrelevant(order, ActiveSteps(t.columns, c), t.rows);
  }

  /** Choosing a category only narrows what "Todos" shows, keeping its order. */
  lemma CategoryNarrows(t: Table, c: Criteria, r: Table, all: Table)
    requires Filter(t, c) == Ok(r)
    requires Filter(t, c.(category := AllCategories)) == Ok(all)
    ensures IsSubsequence(r.rows, all.rows)
  {
    if !IsEmpty(t) {
      var wide := c.(category := AllCategories);
      FilterIsWhere(t, c);
      FilterIsWhere(t, wide);
      forall row: Row ensures KeepsAll(ActiveSteps(t.columns, c))(row) ==> KeepsAll(ActiveSteps(t.columns, wide))(row) {
        ActiveStepsMeaning(t.columns, c, row);
        ActiveStepsMeaning(t.columns, wide, row);
      }
      WhereMonotone(t.rows, KeepsAll(ActiveSteps(t.columns, c)), KeepsAll(ActiveSteps(t.columns, wide)));
    }
  }
}

/** A two-product catalog: one in stock, one sold out. */
module FilterExamples {
  import opened Wrappers
  import opened Seqs
  import opened Catalog
  import opened FilterPipeline
  import opened FilterLaws

  const Short: Row := map[ProductKey := Str("Short Negro"), CategoryKey := Str("Shorts"),
                          SizeKey := Str("M"), StockKey := Num(1)]
  const Playera: Row := map[ProductKey := Str("Playera Roja"), CategoryKey := Str("Playeras"),
                            SizeKey := Str("M"), StockKey := Num(0)]
  const Columns: seq<string> := [ProductKey, CategoryKey, SizeKey, StockKey]
  const TwoProducts := Table(Columns, [Short, Playera])

  /** Whatever the criteria, the sold-out shirt is never shown and nothing fails. */
  lemma SoldOutNeverShown(c: Criteria)
    ensures Filter(TwoProducts, c).Ok?
    ensures forall row :: row in Filter(TwoProducts, c).value.rows ==> row == Short
  {
    var t := TwoProducts;
    assert !IsEmpty(t);
    assert StockKey in t.columns;
    assert forall row :: row in t.rows ==> Get(row, StockKey).Num? by {
      assert t.rows == [Short, Playera];
    }
    FilterFailsExactly(t, c);
    assert !InStock(Playera);
    FilterSurvivors(t, c);
  }

  /** With no criteria the in-stock short is shown. */
  lemma NoCriteriaShowsShort()
    ensures Filter(TwoProducts, NoFilter) == Ok(Table(Columns, [Short]))
  {
    var t := TwoProducts;
    SoldOutNeverShown(NoFilter);
    FilterSurvivors(t, NoFilter);
    var rows := Filter(t, NoFilter).value.rows;
    assert Short != Playera by {
      assert Short[StockKey] != Playera[StockKey];
    }
    assert multiset(t.rows)[Short] == 1;
    assert Selected(t.columns, NoFilter, Short);
    OnlyOccupant(rows, Short);
  }

  lemma OnlyOccupant(rows: seq<Row>, x: Row)
    requires forall row :: row in rows ==> row == x
    requires multiset(rows)[x] == 1
    ensures rows == [x]
  {
    assert multiset(rows) == multiset{x} by {
      forall y ensures multiset(rows)[y] == multiset{x}[y] {
        if y != x {
          assert y !in rows;
        }
      }
    }
    assert |rows| == |multiset(rows)| == 1;
    assert rows[0] in rows;
  }
}
