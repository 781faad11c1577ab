/** `convert_to_excel` without the serialisation, and the summary counts shown
    after extraction.

    In combined mode the workbook has the one sheet "Combined" holding the
    data rows of every table, in result order; otherwise it has one sheet per
    result, in result order, named "Page_<n>" cut to 31 characters. */
module Workbook {
  import opened Tables
  import opened Text
  import Extraction

  /** A sheet as handed to the spreadsheet writer. The combined sheet's header
      is what pandas' concatenation makes of the page headers (columns are
      matched by label); that alignment is not modelled, so its header is
      `None`. */
  datatype Sheet = Sheet(name: string, header: Option<seq<Cell>>, rows: seq<Row>)

  const MaxSheetNameLength: nat := 31
  const CombinedSheetName: string := "Combined"
  const SheetPrefix: string := "Page_"

  /** `f"Page_{page_num}"[:31]`: the 31-character prefix of "Page_<n>". */
  function SheetName(page: nat): (name: string)
    ensures |name| <= MaxSheetNameLength
    ensures name <= SheetPrefix + NatToString(page)
    ensures |name| == MaxSheetNameLength || name == SheetPrefix + NatToString(page)
  {
    Truncate(SheetPrefix + NatToString(page), MaxSheetNameLength)
  }

  /** Page numbers of at most 26 digits are not cut. */
  lemma SheetNameNotCut(page: nat)
    requires page < Pow10(26)
    ensures SheetName(page) == SheetPrefix + NatToString(page)
  {
    NatToStringLength(page, 26);
  }

  /** Distinct page numbers of at most 26 digits give distinct sheet names. */
  lemma SheetNamesDistinct(p: nat, q: nat)
    requires p < Pow10(26) && q < Pow10(26) && p != q
    ensures SheetName(p) != SheetName(q)
  {
    SheetNameNotCut(p);
    SheetNameNotCut(q);
    DigitsValueOfNatToString(p);
    DigitsValueOfNatToString(q);
    assert SheetName(p)[|SheetPrefix|..] == NatToString(p);
    assert SheetName(q)[|SheetPrefix|..] == NatToString(q);
  }

  /** The sheet written for one result in separate-sheet mode. */
  function PageSheet(r: PageResult): Sheet {
    Sheet(SheetName(r.page), Some(r.table.header), r.table.rows)
  }

  /** The sheets written, in order, by the separate-sheet loop. */
  function SeparateSheets(tables: seq<PageResult>): seq<Sheet> {
    if tables == [] then []
    else SeparateSheets(tables[..|tables| - 1]) + [PageSheet(tables[|tables| - 1])]
  }

  /** `pd.concat(...)` with `ignore_index=True`: the data rows of all tables, in
      result order. */
  function CombinedRows(tables: seq<PageResult>): seq<Row> {
    if tables == [] then [] else tables[0].table.rows + CombinedRows(tables[1..])
  }

  /** `total_rows = sum(len(df) for _, df in tables)` */
  function TotalRows(tables: seq<PageResult>): nat {
    if tables == [] then 0 else |tables[0].table.rows| + TotalRows(tables[1..])
  }

  /** `total_cols = max(len(df.columns) for _, df in tables) if tables else 0` */
  function MaxColumns(tables: seq<PageResult>): nat {
    if tables == [] then 0
    else
      var rest := MaxColumns(tables[1..]);
      if |tables[0].table.header| >= rest then |tables[0].table.header| else rest
  }

  /** The sheets `convert_to_excel` writes. */
  function SheetPlan(tables: seq<PageResult>, combineSheets: bool): seq<Sheet> {
    if combineSheets then [Sheet(CombinedSheetName, None, CombinedRows(tables))]
    else SeparateSheets(tables)
  }

  lemma {:induction false} SeparateSheetsAt(tables: seq<PageResult>)
    ensures |SeparateSheets(tables)| == |tables|
    ensures forall i | 0 <= i < |tables| :: SeparateSheets(tables)[i] == PageSheet(tables[i])
  {
    if tables != [] {
      SeparateSheetsAt(tables[..|tables| - 1]);
    }
  }

  /** Separate-sheet mode: one sheet per result, in result order, named after
      its page and holding that page's header and rows. */
  lemma SeparatePlan(tables: seq<PageResult>)
    ensures var plan := SheetPlan(tables, false);
            |plan| == |tables| &&
            forall i | 0 <= i < |tables| ::
              plan[i].name == SheetName(tables[i].page) &&
              plan[i].header == Some(tables[i].table.header) &&
              plan[i].rows == tables[i].table.rows
  {
    SeparateSheetsAt(tables);
  }

  /** The concatenation of two result lists has the rows of the first followed
      by the rows of the second. */
  lemma {:induction false} CombinedRowsAppend(a: seq<PageResult>, b: seq<PageResult>)
    ensures CombinedRows(a + b) == CombinedRows(a) + CombinedRows(b)
  {
    if a != [] {
      CombinedRowsAppend(a[1..], b);
      assert (a + b)[1..] == a[1..] + b;
    } else {
      assert a + b == b;
    }
  }

  lemma {:induction false} CombinedRowCount(tables: seq<PageResult>)
    ensures |CombinedRows(tables)| == TotalRows(tables)
  {
    if tables != [] {
      CombinedRowCount(tables[1..]);
    }
  }

  /** Combined mode: exactly one sheet, "Combined", whose row count is the sum
      of the row counts of all results, which is `total_rows`. */
  lemma CombinedPlan(tables: seq<PageResult>)
    ensures var plan := SheetPlan(tables, true);
            |plan| == 1 && plan[0].name == CombinedSheetName && |plan[0].rows| == TotalRows(tables)
  {
    CombinedRowCount(tables);
  }

  /** `total_cols` is the column count of some table, and no table has more;
      it is 0 only when there are no tables or every header is empty. */
  lemma {:induction false} MaxColumnsIsMax(tables: seq<PageResult>)
    ensures forall i | 0 <= i < |tables| :: |tables[i].table.header| <= MaxColumns(tables)
    ensures tables != [] ==> exists i :: 0 <= i < |tables| && |tables[i].table.header| == MaxColumns(tables)
    ensures tables == [] ==> MaxColumns(tables) == 0
  {
    if tables != [] {
      var rest := tables[1..];
      MaxColumnsIsMax(rest);
      forall i | 0 <= i < |tables| ensures |tables[i].table.header| <= MaxColumns(tables) {
        if i > 0 { assert tables[i] == rest[i - 1]; }
      }
      if rest != [] && MaxColumns(rest) > |tables[0].table.header| {
        var j :| 0 <= j < |rest| && |rest[j].table.header| == MaxColumns(rest);
        assert tables[j + 1] == rest[j];
      }
    }
  }

  /** For a document of fewer than 10^26 pages, the sheets written in
      separate-sheet mode for the extraction result have pairwise distinct
      names, so no sheet is written twice. */
  lemma ExtractedSheetNamesDistinct(pdf: seq<Extraction.Page>, selected: seq<int>)
    requires |pdf| < Pow10(26)
    ensures var plan := SheetPlan(Extraction.ExtractTables(pdf, selected).tables, false);
            forall i, j | 0 <= i < j < |plan| :: plan[i].name != plan[j].name
  {
    var tables := Extraction.ExtractTables(pdf, selected).tables;
    Extraction.ExtractedPagesOrdered(pdf, selected);
    SeparateSheetsAt(tables);
    forall i, j | 0 <= i < j < |tables| ensures SheetName(tables[i].page) != SheetName(tables[j].page) {
      assert Extraction.ResultPages(tables)[i] < Extraction.ResultPages(tables)[j];
      SheetNamesDistinct(tables[i].page, tables[j].page);
    }
  }

  /** The sheet-writing part of `convert_to_excel`. Its caller only calls it
      with at least one result. */
  method ConvertToExcel(tables: seq<PageResult>, combineSheets: bool) returns (sheets: seq<Sheet>)
    requires tables != []
    ensures sheets == SheetPlan(tables, combineSheets)
  {
    if combineSheets {
      var combined := CombinedRows(tables);
      sheets := [Sheet(CombinedSheetName, None, combined)];
    } else {
      sheets := [];
      for i := 0 to |tables|
        invariant sheets == SeparateSheets(tables[..i])
      {
        var PageResult(pageNum, df) := tables[i];
        var sheetName := SheetName(pageNum);
        assert tables[..i + 1][..i] == tables[..i];
        sheets := sheets + [Sheet(sheetName, Some(df.header), df.rows)];
      }
      assert tables[..|tables|] == tables;
    }
  }
}
