/** The values the converter passes between its stages: cell grids as the PDF
    library returns them, and the (page, table) pairs the extraction loop keeps. */
module Tables {

  /** Python's `None` or a value. */
  datatype Option<T> = None | Some(value: T)

  /** A cell of an extracted grid: pdfplumber gives a string or `None`. */
  type Cell = Option<string>

  type Row = seq<Cell>

  /** A raw table: a list of rows of possibly different lengths, the first
      holding the header candidates. */
  type Grid = seq<Row>

  /** A DataFrame built from a grid: its column labels and its data rows. */
  datatype Table = Table(header: seq<Cell>, rows: seq<Row>)

  /** One entry of the list `tables`: a 1-based page number and its table. */
  datatype PageResult = PageResult(page: nat, table: Table)
}
