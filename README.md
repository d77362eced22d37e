# markdown_to_docx: element-to-block mapping and table grid

This project models, in Dafny, the core of the zerox markdown-to-DOCX
converter: the function `markdown_to_docx` in `py_zerox/src/run_to_docx.py`.
The function takes the HTML that the markdown renders to and visits its
`h1`, `h2`, `h3`, `p`, `strong` and `a` elements in document order. For each
one it appends one block to a word-processing document. It saves the
document only if no exception was raised on the way.

The project has three modules, one per concern of the source:

- `DocxDocument` (`docx_document.dfy`) is the document object the loop
  fills. `Document` is a class whose field `blocks` is the append-only list of
  blocks. Its methods are the library calls the code makes: `add_heading`,
  `add_paragraph`, the two paragraph-format assignments, `add_run`, and the
  `bold` and `italic` assignments. A paragraph keeps the text it was created
  with, the runs added to it afterwards, and its space-after and
  line-spacing values, all in points.
- `MarkdownToDocx` (`markdown_to_docx.dfy`) holds the loop. Its input is
  the sequence of all HTML elements in document order, each with a tag
  name, its plain text and an optional `href`.
  - `Visited` keeps the elements whose names are in the list at line 35.
  - `BlockFor` is the if/elif dispatch.
  - `Conversion` is the reference definition of the saved document. It is
    `None` when some visited link has no `href`. Otherwise it holds one block
    per visited element, in order.
  - `ConvertMarkdown` is the loop itself. It runs over a `Document` object
    and is proved to save exactly `Conversion(elements)`.
- `TableBuilder` (`table_builder.dfy`) holds the table branch (lines
  53-65). It is modelled on its own, because `"table"` is not in the tag list
  and the loop never reaches that branch.
  - `Table` is a class holding `cols` and `rows`, with `AddColumn`, `AddRow`
    and `SetCellText`. Its invariant is that the grid is rectangular.
  - `BuildTable` and `FillRow` are the nested loops.
  - `Built` and `AfterRow` are a closed-form description of the grid the
    loops produce.

The code behaves as follows, and the model with it:

- All three heading levels become level-2 headings.
- A `p` gets 0 pt space after and 12 pt line spacing.
- A `strong` becomes a paragraph of its own with one bold run.
- An `a` becomes a paragraph with two italic runs: the link text, then
  `"(" + href + ")"`.
- Elements nest, and the parser yields the enclosing element first. So a
  `<p><strong>x</strong></p>` yields two blocks: a plain paragraph `x`, then
  the bold one.
- A link without `href` raises `KeyError` at line 52. The single handler
  at line 70 catches it, so `doc.save` never runs and no document is
  written at all. The model takes every element text and `href` to be
  XML-compatible. python-docx also raises, with `ValueError`, on a text
  holding NUL or another control character that XML forbids, and that
  error path is left out (see "## Left out").
- In the table branch, a cell whose index reaches the current column count
  adds a column and then a whole new row, and its text lands in that new
  row. A table with at least one row therefore ends up with
  `max(1, widest row)` columns and `rows + columns - 1` rows, and each cell
  sits in column `j` of a row determined by `CellRow`. A table with no rows
  ends up with no rows and no columns.

Four consequences of the code are easy to miss:

- A link without `href` does not just skip that element. The whole
  conversion is abandoned and nothing is saved (`AllOrNothing`).
- A heading, a paragraph, an emphasised line and a link line, four lines
  of markdown, give six blocks, not four. The emphasis and the link each
  sit inside a `p`, and the `p` is visited too (`FourLineExample`).
- A table's final column count is not always its widest row's cell count.
  Any table with a row gets at least one column. A cell that does not fit
  goes to a new row instead of extending its own row (`BuiltColumns`,
  `BuiltRowCount`, `BuiltPlacesEveryCell`).
- `table` elements are never visited, so the table branch never runs from
  the loop (`UnrecognizedIgnored`).

The conversion is a function of its input, so running it twice on the same
elements gives the same blocks.

## Model

| member | source | states |
|---|---|---|
| `MarkdownToDocx.Visited` | py_zerox/src/run_to_docx.py:35 | the visited elements are no more than the document's, and each has one of the six tag names asked for |
| `MarkdownToDocx.BlockFor` | py_zerox/src/run_to_docx.py:36-52 | for XML-compatible texts, building a visited element's block fails exactly when it is an `a` without `href` |
| `MarkdownToDocx.ConvertMarkdown` | py_zerox/src/run_to_docx.py:19-71 | for XML-compatible texts, the loop over a document object saves exactly the reference conversion: one block per visited element in order, or nothing at all if a visited link lacks `href` |
| `MarkdownToDocx.AddBlock` | py_zerox/src/run_to_docx.py:36-52 | one loop pass appends exactly the element's block; for a link without `href` it reports the exception, after the paragraph and its first italic run were already added |
| `MarkdownToDocx.VisitedMembers` | py_zerox/src/run_to_docx.py:35 | an element is visited if and only if it is in the document and its tag name is one of the six |
| `MarkdownToDocx.VisitedAppend` | py_zerox/src/run_to_docx.py:35 | the visited elements of two consecutive parts of a document are those of the first part followed by those of the second |
| `MarkdownToDocx.PositionsLocate` | py_zerox/src/run_to_docx.py:35 | visited element `i` is the document element at position `Positions[i]` |
| `MarkdownToDocx.PositionsIncrease` | py_zerox/src/run_to_docx.py:35 | those positions strictly increase, so visiting keeps the document's order |
| `MarkdownToDocx.PositionsCover` | py_zerox/src/run_to_docx.py:35 | every element with one of the six tag names is visited |
| `MarkdownToDocx.Conversion` | py_zerox/src/run_to_docx.py:35-71 | the reference definition of the saved document: the blocks of the visited elements, or none saved; a saved document never has more blocks than the document has elements |
| `MarkdownToDocx.BlocksOf` | py_zerox/src/run_to_docx.py:36-52 | a sequence of visited elements converts unless one of them fails in `BlockFor`, and then gives exactly one block per element, block `i` being that of element `i` |
| `MarkdownToDocx.Positions` | py_zerox/src/run_to_docx.py:35 | the document positions of the visited elements, exactly one per visited element |
| `MarkdownToDocx.AllOrNothing` | py_zerox/src/run_to_docx.py:20-71 | for XML-compatible texts, no document is saved if and only if some `a` element of the document lacks `href` |
| `MarkdownToDocx.ConversionBlocks` | py_zerox/src/run_to_docx.py:35-52 | a saved document has as many blocks as visited elements; block `i` is the block of visited element `i`, which is the document element at `Positions[i]`, so the blocks keep the document's order |
| `MarkdownToDocx.ConversionAppend` | py_zerox/src/run_to_docx.py:35-52 | converting two consecutive parts gives the first part's blocks followed by the second's, and fails if either part fails |
| `MarkdownToDocx.UnrecognizedIgnored` | py_zerox/src/run_to_docx.py:35 | inserting an element with any other tag name, `table` included, leaves the saved document unchanged |
| `MarkdownToDocx.NothingRecognized` | py_zerox/src/run_to_docx.py:35 | a document with none of the six tag names visits nothing and is saved with no blocks |
| `MarkdownToDocx.HeadingsFlattened` | py_zerox/src/run_to_docx.py:36-41 | `h1`, `h2` and `h3` with the same text give the same block, a level-2 heading with that text |
| `MarkdownToDocx.ParagraphCompact` | py_zerox/src/run_to_docx.py:42-45 | a `p` gives a paragraph with the element's text and no runs, space after 0 pt and line spacing 12 pt |
| `MarkdownToDocx.StrongBold` | py_zerox/src/run_to_docx.py:46-48 | a `strong` gives a separate paragraph holding exactly one run, bold and not italic, with the element's text |
| `MarkdownToDocx.LinkItalic` | py_zerox/src/run_to_docx.py:49-52 | an `a` with `href` gives a paragraph of exactly two italic runs, the link text and then `(href)`, whose visible text is their concatenation with nothing between |
| `MarkdownToDocx.FourLineExample` | py_zerox/src/run_to_docx.py:35-52 | a heading, a paragraph, a paragraph holding `strong` and a paragraph holding a link give six blocks in document order |
| `DocxDocument.Document.constructor` | py_zerox/src/run_to_docx.py:28 | a new document has no blocks |
| `DocxDocument.Document.AddHeading` | py_zerox/src/run_to_docx.py:37 | appends exactly one heading with the given level and text, and changes nothing else |
| `DocxDocument.Document.AddParagraph` | py_zerox/src/run_to_docx.py:43 | appends one paragraph with the given text, no runs and no format set, and returns its index |
| `DocxDocument.Document.SetSpaceAfter` | py_zerox/src/run_to_docx.py:44 | sets the space after of that paragraph only |
| `DocxDocument.Document.SetLineSpacing` | py_zerox/src/run_to_docx.py:45 | sets the line spacing of that paragraph only |
| `DocxDocument.Document.AddRun` | py_zerox/src/run_to_docx.py:48 | appends one unstyled run with the given text to that paragraph only, and returns its index |
| `DocxDocument.Document.SetBold` | py_zerox/src/run_to_docx.py:48 | makes that one run bold and changes nothing else |
| `DocxDocument.Document.SetItalic` | py_zerox/src/run_to_docx.py:51-52 | makes that one run italic and changes nothing else |
| `TableBuilder.ColumnAdded` | py_zerox/src/run_to_docx.py:63 | adding a column adds one grid column and one empty cell at the end of every row, and keeps the grid rectangular |
| `TableBuilder.RowAdded` | py_zerox/src/run_to_docx.py:60 | adding a row keeps the earlier rows and appends one row of empty cells, one per column |
| `TableBuilder.CellSet` | py_zerox/src/run_to_docx.py:65 | setting a cell's text changes that cell only and keeps the grid's shape |
| `TableBuilder.AfterRow` | py_zerox/src/run_to_docx.py:57-65 | processing a table row leaves the grid rectangular |
| `TableBuilder.Built` | py_zerox/src/run_to_docx.py:54-65 | the grid after any sequence of table rows is rectangular |
| `TableBuilder.Table.constructor` | py_zerox/src/run_to_docx.py:54 | a new table has no rows and no columns |
| `TableBuilder.Table.AddColumn` | py_zerox/src/run_to_docx.py:59 | the table's grid becomes the grid with one more column, and stays rectangular |
| `TableBuilder.Table.AddRow` | py_zerox/src/run_to_docx.py:60 | the table's grid gains one empty row; returns the new row's index and its cell count, which equals the column count |
| `TableBuilder.Table.SetCellText` | py_zerox/src/run_to_docx.py:65 | writes one cell's text and nothing else |
| `TableBuilder.BuildTable` | py_zerox/src/run_to_docx.py:54-65 | the nested loops leave a fresh rectangular table whose grid is `Built` of the rows' cell texts |
| `TableBuilder.FillRow` | py_zerox/src/run_to_docx.py:57-65 | one pass over a row's cells turns the grid into `AfterRow` of the old grid |
| `TableBuilder.AfterRowStart` | py_zerox/src/run_to_docx.py:58-60 | before any cell, an empty table first gets a column, then one row is added |
| `TableBuilder.AfterRowNext` | py_zerox/src/run_to_docx.py:61-65 | a cell that fits is written into the last row at its index; a cell whose index reaches the column count first adds exactly one column and one row, and is written into that new row at its index |
| `TableBuilder.AfterRowSnocFits` | py_zerox/src/run_to_docx.py:65 | a cell below the column count goes into the last row and changes nothing else |
| `TableBuilder.AfterRowSnocOverflow` | py_zerox/src/run_to_docx.py:62-65 | an overflow cell adds a column, then a row, and is written into the new row |
| `TableBuilder.AfterRowKeepsCells` | py_zerox/src/run_to_docx.py:59-64 | processing a row keeps every existing cell; earlier rows only gain empty cells at their ends |
| `TableBuilder.AfterRowPlacesCells` | py_zerox/src/run_to_docx.py:57-65 | after a row, the column count is max(previous, cells, 1); one extra row is added per overflow cell; cell `j` is in column `j` of the first new row, or of new row `j - c + 1` when it overflows; every other new cell is empty |
| `TableBuilder.BuiltColumns` | py_zerox/src/run_to_docx.py:54-65 | a table with no rows ends with no rows and no columns; otherwise it has at least one row and as many columns as its widest row, and at least one |
| `TableBuilder.BuiltRowCount` | py_zerox/src/run_to_docx.py:59-64 | a table of `n > 0` rows ends with `n + cols - 1` rows |
| `TableBuilder.BuiltKeepsCells` | py_zerox/src/run_to_docx.py:56-65 | rows processed later never reduce the column count or the row count, and never change a cell already written |
| `TableBuilder.BuiltPlacesEveryCell` | py_zerox/src/run_to_docx.py:56-65 | no cell text is lost: cell `j` of row `i` ends in column `j` of row `CellRow(i, j)`, and the rows of a later table row come after it |

## Left out

- MarkdownToDocx.AllOrNothing: the "only if" half assumes that every
  element text and every `href` is XML-compatible. python-docx raises
  `ValueError` when a text passed to `add_heading`, `add_paragraph` or
  `add_run` (lines 37-52) holds NUL or another control character that XML
  forbids. The handler at line 70 catches that error too, and nothing is
  saved. The model does not represent it, so for such input it predicts a
  saved document where the code saves none. Modelling it would need the
  library's exact character rules.
- MarkdownToDocx.BlockFor: its failure condition covers only the missing
  `href`; the `ValueError` for XML-incompatible text described above is
  not part of it.
- MarkdownToDocx.ConvertMarkdown: it returns `None` only for the missing
  `href`, under the same XML-compatibility assumption.

- Markdown rendering (`markdown2.markdown`, line 22) and HTML parsing
  (BeautifulSoup, lines 31-32) are foreign libraries. The model takes their
  result as input: the document-order sequence of all elements, each with
  its tag name, plain text (`get_text()`) and optional `href`. The recursive
  search of `find_all` (line 35) is represented by that order. The
  failures of these libraries are not modelled.
- `doc.save` (line 68) is file I/O. The model returns the blocks it would
  write. A save that fails is caught by the same handler and is not
  modelled.
- The `print` diagnostics (lines 23-25, 69, 71), the `.env` loading and
  environment update (lines 12-15), `process_model` and `main` (lines
  75-119), and all of `py_zerox/src/run_to_md.py` are left out. They are
  I/O, an external OCR service and batch driving, with no logic of their
  own.
- python-docx internals are left out. These are heading styles, the
  internal run that `add_paragraph(text)` creates, point-to-EMU conversion
  (`Pt` values are plain point counts), the `'Table Grid'` style and the
  `Pt(100)` column widths (lines 55, 59, 63). Bold and italic are booleans
  that start out false, not python-docx's unset/true/false.
- The table branch is not part of the loop in `ConvertMarkdown`, because
  line 35 never yields a `table` element. `BuildTable` takes the cell texts
  of the table's `tr` rows directly, with `td` and `th` treated alike. The
  texts of rows nested in an inner table, which the recursive
  `find_all("tr")` would also return, are assumed to be already in that
  sequence.
- The table's block is not appended to `Document.blocks`. `BuildTable`
  returns the table object, whose grid is the table block's content.
