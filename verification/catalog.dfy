/**
 * The product table as the catalog page holds it once loaded: named columns
 * (already normalised keys such as `producto`) and rows of spreadsheet cells,
 * together with the criteria the sidebar collects.
 */
module Catalog {
  import opened Strings

  /** A spreadsheet cell: text, a whole number, or empty (pandas' NaN). */
  datatype Cell = Str(text: string) | Num(value: int) | Missing

  /**
   * A row maps column keys to cells. Rows read from a table carry every column
   * of it, so a key a row lacks is a column the table does not have: the filter
   * never consults such a key (each of its steps runs only when its column
   * exists), and the order message prints `None` for it.
   */
  type Row = map<string, Cell>

  datatype Table = Table(columns: seq<string>, rows: seq<Row>)

  /** The column keys the page looks for. */
  const ProductKey := "producto"
  const CategoryKey := "categoria"
  const SizeKey := "talla"
  const StockKey := "stock"

  /** The first entry of each selection box, meaning "no filter". */
  const AllCategories := Str("Todos")
  const AllSizes := Str("Todas")

  /** What the sidebar collects: the search text and the two selections. */
  datatype Criteria = Criteria(search: string, category: Cell, size: Cell)

  /** Every criterion at its "no filter" value. */
  const NoFilter := Criteria("", AllCategories, AllSizes)

  /** The cell of a row in a column; `Missing` for a key the row lacks. */
  function Get(row: Row, column: string): Cell {
    if column in row then row[column] else Missing
  }

  /** pandas calls a frame empty when it has no rows or no columns. */
  predicate IsEmpty(t: Table) {
    |t.columns| == 0 || |t.rows| == 0
  }

  /** A cell rendered as text (`astype(str)`): an empty cell becomes `nan`. */
  function CellText(c: Cell): (s: string)
    ensures c.Str? ==> s == c.text
    ensures c.Num? ==> |s| >= 1 && (s[0] == '-' <==> c.value < 0)
    ensures c.Num? ==> Denotes(s, c.value)
    ensures c.Missing? ==> s == "nan"
  {
    match c
    case Str(text) => text
    case Num(value) => IntToDecimal(value)
    case Missing => "nan"
  }

  /** The column searched by name: `producto` when present, else the first column. */
  function SearchColumn(columns: seq<string>): (column: string)
    requires |columns| > 0
    ensures column in columns
    ensures ProductKey in columns ==> column == ProductKey
    ensures ProductKey !in columns ==> column == columns[0]
  {
    if ProductKey in columns then ProductKey else columns[0]
  }

  /** A row reaches the shop window only with a whole, strictly positive stock. */
  predicate InStock(row: Row) {
    Get(row, StockKey).Num? && Get(row, StockKey).value > 0
  }

  /** pandas `==` against a selection: an empty cell equals nothing, not even itself. */
  predicate Matches(cell: Cell, selection: Cell) {
    cell == selection && !selection.Missing?
  }
}
