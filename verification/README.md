# BOLD FIT catalog: a Dafny model of the page logic

The BOLD FIT catalog is a Streamlit page (`app.py`). It loads a spreadsheet of
products, normalises the column headers and lets a customer narrow the list.
The narrowing is done by a search box and by category and size selections.
Products with no stock are always hidden. The page lays out the remaining
products three to a row. Each product card has two buttons that open a
WhatsApp chat with one of two sellers, with the order message filled in.

This project models the pure logic inside that page and proves properties of it:

- `unicode_tables.dfy`: the character classes that `normalizar_columna` relies on.
  - `UnicodeTables` covers lower-casing, Python's white-space set and the non-spacing marks (general category `Mn`).
  - It also holds the canonical decompositions of the accented Latin-1 letters.
- `strings.dfy`: `Strings` holds lower-casing of whole strings, substring search and decimal rendering.
- `header_keys.dfy`: `HeaderKeys` is `normalizar_columna` itself (lower, strip, NFD, drop `Mn`, spaces to `_`).
  - `HeaderKeyLaws` holds its laws.
  - `HeaderExamples` works through the spellings of the category header.
- `catalog.dfy`: `Catalog` holds cells, rows, tables, the column keys the page looks for and the sidebar criteria.
- `filter_pipeline.dfy`: `FilterPipeline` is the filter pipeline lifted into a pure `Filter(table, criteria)`.
  - Each step is a mask over the rows, and the steps run in the page's order.
- `filter_laws.dfy`: `FilterLaws` states what the filtered table promises in terms of the criteria.
  - `FilterExamples` works through a two-product catalog.
- `grid.dfy`: `Grid` cuts the product list into rows of three.
- `whatsapp.dfy`: `WhatsApp` builds the order message and the `wa.me` links.
  - It also models how the receiving side reads the `text` parameter back.
- `seqs.dfy`, `wrappers.dfy`: generic helpers.
  - `Where` is an order-preserving filter with its laws, and `Flatten` concatenates a list of lists.
  - `Option` and `Result` are the usual wrappers.

Some behaviours of the code are easy to misremember. The model follows the code on each of these:

- The search runs on the name column converted to text (`astype(str)`), so an empty cell is searched as the text `nan`. A search for `na` therefore keeps products with no name.
- A table with no rows or no columns is "empty" to pandas. The page then replaces it with a bare `pd.DataFrame()`, so the result has no columns either.
- The category and size steps compare with pandas `==`. That is exact equality of cell values, and an empty (NaN) cell equals nothing.
- The stock step compares `stock > 0`. If a row that reaches this step holds text in its stock cell, pandas raises `TypeError` and the page stops. The model returns `Err(StockNotComparable)` in that case and never silently drops such a row.
- Rows read from a table carry every column of it, so a key a row lacks is a column the table does not have. The filter never consults such a key, because each step runs only when its column exists. The order message prints `None` for it, as `row.get` does.
- With the two-product sample (one product in stock, one not), the sold-out product is never shown. The in-stock one is shown only if it also matches the criteria.

## Model

| member | source | states |
|---|---|---|
| HeaderKeys.Normalize | app.py:92-96 | A column key never contains a space (each one became `_`) and never contains a non-spacing mark. |
| HeaderKeys.NormalizeYieldsKeyChars | app.py:93-96 | Every character of a key is already lower-case, fully decomposed, not a mark and not a space. |
| HeaderKeys.Strip | app.py:93 | `strip` returns a text that neither starts nor ends with white space, and the input is that text padded with white space only. |
| HeaderKeys.StripUnique | app.py:93 | Any trimmed text that the input is padded around is exactly what `strip` returns. |
| UnicodeTables.Decompose | app.py:94-95 | A decomposition is the character itself or a non-mark base followed by one mark; only a non-mark, non-space character decomposes. |
| HeaderKeyLaws.NormalizeFixesKeys | app.py:92-96 | A trimmed text made only of key characters is its own key. |
| HeaderKeyLaws.NormalizeIdempotentWhenTrimmed | app.py:92-96 | Normalising a key again changes nothing when the key does not start or end with white space. |
| HeaderKeyLaws.NormalizeNotIdempotent | app.py:93-95 | A mark in front of a tab shields the tab from `strip`. The key then starts with the tab, and normalising again removes it, so normalising is not idempotent. |
| HeaderKeyLaws.NormalizeIgnoresPadding | app.py:93 | White space before and after a header never changes its key. |
| HeaderKeyLaws.NormalizeIgnoresCaseAndDiacritics | app.py:93-95 | Two headers of the same length whose characters fold position by position to the same base letters get the same key. Folding means lower-casing, decomposing and dropping marks. |
| HeaderKeyLaws.NormalizeBySameBaseLetters | app.py:93-95 | Two headers of the same length whose characters have position by position the same base letters (read from the tables) get the same key. |
| HeaderKeyLaws.NormalizeIsFoldedStrip | app.py:92-96 | The key of any header is its stripped text folded character by character, with each space turned into `_`. |
| HeaderKeyLaws.NormalizeBySameFolding | app.py:93-95 | Headers whose stripped texts fold to the same letters get the same key, whatever their lengths. A separately typed combining accent counts like the precomposed letter. |
| HeaderExamples.AccentedCategoryHeader | app.py:92-96 | `Categoría` becomes the key `categoria`. |
| HeaderExamples.CombiningAccentHeader | app.py:92-96 | `Categori` followed by a combining acute accent (U+0301) and `a` gets the same key as the precomposed `Categoría` (which `AccentedCategoryHeader` shows is `categoria`). |
| HeaderExamples.PaddedUpperCategoryHeader | app.py:92-96 | `CATEGORIA ` (with a trailing space) becomes the key `categoria`. |
| Strings.Contains | app.py:139-140 | The search matches exactly when the search text occurs at some position of the cell text. |
| Catalog.SearchColumn | app.py:138 | The searched column is `producto` whenever that column exists, and otherwise the table's first column. |
| Catalog.CellText | app.py:139 | A cell is searched as text: a text cell as itself, an empty cell as `nan`, and a number as an optional `-` (exactly when negative) followed by decimal digits, without a leading zero, that read back as its magnitude. |
| Strings.IntToDecimal | app.py:139 | `str(n)` writes `-` exactly for a negative `n`, followed by digits with no leading zero that read back, most significant first, as the magnitude of `n`. |
| Strings.DecimalRoundTrip | app.py:139 | Reading the digits written for a natural number gives that number back. |
| FilterPipeline.Filter | app.py:131-165 | The page's filter as one function. Its contract is stated by `FilterLaws.FilterSurvivors` (which rows are shown, how often and in which order) and `FilterLaws.FilterFailsExactly` (when the filter fails). |
| FilterPipeline.PipelineIsConjunction | app.py:136-165 | Applying the masks one after another keeps exactly the rows that pass every mask, in input order. |
| FilterPipeline.PipelineOrderIrrelevant | app.py:136-165 | Any two lists holding the same masks keep the same rows, so the steps commute. |
| FilterPipeline.ActiveStepsMeaning | app.py:136-165 | The steps the page switches on all hold of a row exactly when the row meets the search, category, size and stock conditions. |
| FilterLaws.FilterSurvivors | app.py:131-165 | A row is shown exactly when it is an input row the criteria select, as often as it appears in the input, in input order, with the columns unchanged. |
| FilterLaws.FilterShape | app.py:131-133 | An empty table gives the bare empty frame. Otherwise a successful filter keeps the columns and returns a subsequence of the rows. |
| FilterLaws.SearchMatches | app.py:136-140 | With a search text, every shown row's name cell contains it, ignoring case. No input row that matches it and the other criteria is dropped. |
| FilterLaws.CategorySelected | app.py:143-149 | When a category other than `Todos` is chosen and the column exists, every shown row has exactly that category. |
| FilterLaws.CategoryIgnored | app.py:143-152 | Without a `categoria` column the category selection has no effect. |
| FilterLaws.SizeSelected | app.py:155-159 | When a size other than `Todas` is chosen and the column exists, every shown row has exactly that size. |
| FilterLaws.SizeIgnored | app.py:155-161 | Without a `talla` column the size selection has no effect. |
| FilterLaws.StockAlwaysPositive | app.py:164-165 | When the table tracks stock, every shown row has a whole, strictly positive stock, whatever the criteria. |
| FilterLaws.FilterFailsExactly | app.py:164-165 | The filter fails exactly when stock is tracked and some row the sidebar selects has text in its stock cell. |
| FilterLaws.NoCriteriaOnlyStock | app.py:133-165 | With every criterion at its "no filter" value, the result is the in-stock rows, or every row if there is no stock column. |
| FilterLaws.FilterIdempotent | app.py:131-165 | Filtering the shown table again with the same criteria gives the same table. An empty result comes back as the bare empty frame. |
| FilterLaws.FilterOrderIrrelevant | app.py:136-165 | Running the active masks in any order gives the page's result. |
| FilterLaws.CategoryNarrows | app.py:148-149 | Choosing a category shows a subsequence of what `Todos` shows. |
| FilterExamples.SoldOutNeverShown | app.py:164-165 | In the two-product sample, whatever the criteria, nothing fails and only the in-stock short can be shown. |
| FilterExamples.NoCriteriaShowsShort | app.py:164-165 | In the two-product sample, with no criteria, exactly the in-stock short is shown. |
| Grid.Batches | app.py:193-195 | The rows of the grid concatenate back to the product list. There are ⌈n/3⌉ of them, each holds 1 to 3 products, all but the last hold exactly 3, and the k-th starts at product 3k. |
| Grid.CardPlacement | app.py:193-199 | Product m appears in grid row m / 3, column m % 3. |
| WhatsApp.Message | app.py:235 | The message starts with the greeting, continues with the product's name (or `None` when the row has no name column) and ends with exactly ` (Talla: `, the size (or `None`) and `)`. |
| WhatsApp.EncodeSpaces | app.py:236 | The encoded text contains no space. |
| WhatsApp.SpacesRoundTrip | app.py:235-236 | A message with no `%`, `&` or `#` reaches the seller exactly as written. |
| WhatsApp.AmpersandTruncates | app.py:236-240 | A text whose part before the first `&` has no `%` or `#` reaches the seller as exactly that part. |
| WhatsApp.AmpersandProductCutsMessage | app.py:235-240 | For a product whose name has an `&` with no `%` or `#` before it, either link the page builds is the seller's `wa.me` prefix followed by text the seller reads as the greeting and the part of the name before the `&`, nothing more. |
| WhatsApp.QueryTextRoundTrip | app.py:236 | With `%`, `&`, `#` and space escaped, any text reaches the seller exactly as written. |
| WhatsApp.SellerReceivesMessage | app.py:235-240 | Each seller's link is that seller's `wa.me` prefix followed by text the seller reads back as the full message. |

## Left out

- Loading (`cargar_datos`, app.py:99-116) is left out because it is I/O and framework caching. This covers:
  - the CSV fetch from the configured URL
  - the 60-second cache
  - the local `inventario.xlsx` fallback
  - the empty table on failure

  The fallback returns the spreadsheet with its headers *not* normalised. The model therefore never assumes that loaded headers are keys.
- Page setup, CSS, sidebar widgets, the warnings for missing columns, the admin password check, the inventory metrics, images and their paths, the low-stock badge and the footer are left out. They are UI, file-system checks or secret lookups.
- Building the selection lists is left out: `["Todos"] + sorted(unique values)`. The criteria are taken as given values.
  - Sorting a column that mixes text and NaN raises `TypeError` in the page; that failure is not modelled.
- `str.contains` treats the search text as a regular expression. The model does a literal substring match.
  - Case-insensitive matching uses the model's Latin-1 lower-casing instead of Python's full Unicode rules.
- Cells are text, whole numbers or empty. Floating-point cells are left out.
  - pandas renders a numeric column that holds a missing value as floats (`1.0`), which affects searching such a column by name.
- UnicodeTables.ToLower: is a Latin-1 table (ASCII and U+00C0..U+00DE). It is not Python's full `str.lower`.
- UnicodeTables.Decompose: covers only the accented Latin-1 letters, upper- and lower-case (U+00C0..U+00FF). It is not the full Unicode decomposition table.
  - NFD's canonical reordering of several marks is not modelled.
  - `Mn` is taken to be U+0300..U+036F (combining diacritical marks).
- `str(col)` for headers that are not strings (numbers, NaN) is left out. Headers are modelled as strings.
- Two headers that normalise to the same key are not modelled. pandas would keep both as duplicate columns.
- The stock comparison is modelled as pandas' element-wise comparison on a mixed column: text raises, NaN compares false. The exact failure depends on the pandas version and the column's dtype.
- WhatsApp decoding is left partly out:
  - Escapes of bytes 0x80 and above are left undecoded; real links would carry UTF-8 there.
  - Treating `+` as a space (form decoding) is not modelled.
  - How WhatsApp itself reads links is outside this code. It is modelled as the standard query-string reading: the value ends at `&` or `#`, then escapes are percent-decoded.

## Findings

| source | as written | input that shows it | evidently intended | confidence | as-written member | corrected member |
|---|---|---|---|---|---|---|
| app.py:236-240 | Only spaces are escaped in the `text` parameter (`msg.replace(' ', '%20')`). | A product named `Short & Top`: the seller receives `Hola BOLD FIT, me interesa: Short `. Everything from the `&` on is read as another query parameter and lost. | The seller receives the whole message. This needs `&`, `#` and `%` escaped as well as the space. | not executed | WhatsApp.AmpersandProductCutsMessage | WhatsApp.SellerReceivesMessage |
