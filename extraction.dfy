/** `extract_tables_from_pdf`: the loop over the pages of an open document.

    The document is given as the sequence of its pages, each described by what
    the three library calls made on it do (an oracle for pdfplumber and the
    DataFrame constructor). For every page index in order, a page whose
    1-based number is not selected is skipped; otherwise the primary
    extraction is tried, the first table of the fallback strategy is taken
    when the primary result is empty or `None`, and a non-empty table becomes
    a DataFrame whose header is the de-duplicated first row and whose data
    are the remaining rows. Any exception on the way adds one warning for the
    page and the loop goes on with the next page. */
module Extraction {
  import opened Tables
  import opened Text
  import opened Headers

  /** What a call into a library did: returned a value, or raised an
      exception whose `str()` is `message`. */
  datatype Outcome<T> = Returned(value: T) | Raised(message: string)

  /** How one page responds to the calls the loop makes on it. */
  datatype Page = Page(
    primary: Outcome<Option<Grid>>,   // page.extract_table()
    fallback: Outcome<seq<Grid>>,     // page.extract_tables with vertical "lines", horizontal "text"
    frameError: Option<string>)       // what pd.DataFrame(table[1:], columns=table[0]) raises, if anything

  /** One call to `st.warning`: the page number and the exception text. */
  datatype Warning = Warning(page: nat, detail: string)

  /** The message the loop hands to `st.warning` for a failed page: the fixed
      lead-in, the 1-based page number and the exception text. It is only
      displayed; nothing else in the model depends on it. */
  function WarningText(w: Warning): string {
    "Could not extract table from page " + NatToString(w.page) + ": " + w.detail
  }

  /** Python truthiness of an extraction result: `None` and `[]` are false. */
  predicate Truthy(t: Option<Grid>) {
    t.Some? && t.value != []
  }

  /** The value of `table` after lines 134-141, or the exception raised there. */
  function ChosenTable(p: Page): Outcome<Option<Grid>> {
    match p.primary
    case Raised(e) => Raised(e)
    case Returned(t) =>
      if Truthy(t) then Returned(t)
      else
        match p.fallback
        case Raised(e) => Raised(e)
        case Returned(onPage) => if onPage != [] then Returned(Some(onPage[0])) else Returned(t)
  }

  /** What happens to one selected page. */
  datatype PageStep = Accepted(table: Table) | NoTable | Failed(detail: string)

  function ProcessPage(p: Page): PageStep {
    match ChosenTable(p)
    case Raised(e) => Failed(e)
    case Returned(t) =>
      if !Truthy(t) then NoTable
      else if p.frameError.Some? then Failed(p.frameError.value)
      else Accepted(Table(Deduplicated(t.value[0]), t.value[1..]))
  }

  /** The lists `tables` and the warnings emitted. */
  datatype Run = Run(tables: seq<PageResult>, warnings: seq<Warning>)

  /** What happens to each page of the document, were it selected. */
  function Steps(pdf: seq<Page>): seq<PageStep> {
    seq(|pdf|, i requires 0 <= i < |pdf| => ProcessPage(pdf[i]))
  }

  /** The state after the loop has handled the page indices 0 .. n-1, where
      `steps[i]` is what happens to page i + 1. The pages are independent: what
      one page contributes depends on nothing but its own step. */
  function RunPrefix(steps: seq<PageStep>, selected: seq<int>, n: nat): Run
    requires n <= |steps|
  {
    if n == 0 then Run([], [])
    else
      var r := RunPrefix(steps, selected, n - 1);
      if n !in selected then r
      else
        match steps[n - 1]
        case Accepted(t) => r.(tables := r.tables + [PageResult(n, t)])
        case NoTable => r
        case Failed(e) => r.(warnings := r.warnings + [Warning(n, e)])
  }

  /** What `extract_tables_from_pdf` returns, with the warnings it shows. */
  function ExtractTables(pdf: seq<Page>, selected: seq<int>): Run {
    RunPrefix(Steps(pdf), selected, |pdf|)
  }

  /** The page numbers of the result list, in order. */
  function ResultPages(tables: seq<PageResult>): seq<nat> {
    seq(|tables|, i requires 0 <= i < |tables| => tables[i].page)
  }

  /** The page numbers of the warnings, in order. */
  function WarningPages(warnings: seq<Warning>): seq<nat> {
    seq(|warnings|, i requires 0 <= i < |warnings| => warnings[i].page)
  }

  predicate StrictlyIncreasing(ps: seq<nat>) {
    forall i, j | 0 <= i < j < |ps| :: ps[i] < ps[j]
  }

  /** The fallback strategy matters only when the primary result is empty or
      `None`; then its first table, if it found any, is the one taken, and an
      exception it raises is the page's. An exception from the primary call
      ends the page's extraction before the fallback is tried. */
  lemma FallbackOnlyWhenPrimaryEmpty(p: Page)
    ensures p.primary.Returned? && Truthy(p.primary.value) ==>
              forall f :: ChosenTable(p.(fallback := f)) == p.primary
    ensures p.primary.Returned? && !Truthy(p.primary.value) && p.fallback.Returned? && p.fallback.value != [] ==>
              ChosenTable(p) == Returned(Some(p.fallback.value[0]))
    ensures p.primary.Returned? && !Truthy(p.primary.value) && p.fallback == Returned([]) ==>
              !Truthy(ChosenTable(p).value)
    ensures p.primary.Raised? ==> forall f :: ChosenTable(p.(fallback := f)) == p.primary
    ensures p.primary.Returned? && !Truthy(p.primary.value) && p.fallback.Raised? ==>
              ChosenTable(p) == Raised(p.fallback.message)
  {
  }

  /** A selected page is accepted exactly when the chosen table is non-empty and
      nothing raised; its table then has the de-duplicated first row as header
      and the other rows, one fewer than the grid, as data. */
  lemma AcceptedIff(p: Page)
    ensures ProcessPage(p).Accepted? <==>
              ChosenTable(p).Returned? && Truthy(ChosenTable(p).value) && p.frameError.None?
    ensures ProcessPage(p).Accepted? ==>
              var grid := ChosenTable(p).value.value;
              var t := ProcessPage(p).table;
              t.header == Deduplicated(grid[0]) && |t.header| == |grid[0]| &&
              t.rows == grid[1..] && |t.rows| == |grid| - 1
    ensures ProcessPage(p).Failed? <==>
              ChosenTable(p).Raised? || (Truthy(ChosenTable(p).value) && p.frameError.Some?)
  {
  }

  lemma ResultPagesSnoc(tables: seq<PageResult>, x: PageResult)
    ensures ResultPages(tables + [x]) == ResultPages(tables) + [x.page]
  {
    assert ResultPages(tables + [x])[|tables|] == x.page;
  }

  lemma WarningPagesSnoc(warnings: seq<Warning>, w: Warning)
    ensures WarningPages(warnings + [w]) == WarningPages(warnings) + [w.page]
  {
    assert WarningPages(warnings + [w])[|warnings|] == w.page;
  }

  /** Page numbers in the result are 1-based, within the pages visited,
      selected, and strictly increasing. */
  lemma {:induction false} ResultPagesOrdered(steps: seq<PageStep>, selected: seq<int>, n: nat)
    requires n <= |steps|
    ensures forall i | 0 <= i < |RunPrefix(steps, selected, n).tables| ::
              1 <= RunPrefix(steps, selected, n).tables[i].page <= n &&
              RunPrefix(steps, selected, n).tables[i].page as int in selected
    ensures StrictlyIncreasing(ResultPages(RunPrefix(steps, selected, n).tables))
  {
    if n > 0 {
      ResultPagesOrdered(steps, selected, n - 1);
      var prev := RunPrefix(steps, selected, n - 1).tables;
      var ts := RunPrefix(steps, selected, n).tables;
      if n as int in selected && steps[n - 1].Accepted? {
        var x := PageResult(n, steps[n - 1].table);
        assert ts == prev + [x];
        ResultPagesSnoc(prev, x);
        forall i | 0 <= i < |ts| ensures 1 <= ts[i].page <= n && ts[i].page as int in selected {
          if i < |prev| { assert ts[i] == prev[i]; }
        }
      } else {
        assert ts == prev;
      }
    }
  }

  /** The same for the warnings. */
  lemma {:induction false} WarningPagesOrdered(steps: seq<PageStep>, selected: seq<int>, n: nat)
    requires n <= |steps|
    ensures forall i | 0 <= i < |RunPrefix(steps, selected, n).warnings| ::
              1 <= RunPrefix(steps, selected, n).warnings[i].page <= n &&
              RunPrefix(steps, selected, n).warnings[i].page as int in selected
    ensures StrictlyIncreasing(WarningPages(RunPrefix(steps, selected, n).warnings))
  {
    if n > 0 {
      WarningPagesOrdered(steps, selected, n - 1);
      var prev := RunPrefix(steps, selected, n - 1).warnings;
      var ws := RunPrefix(steps, selected, n).warnings;
      if n as int in selected && steps[n - 1].Failed? {
        var x := Warning(n, steps[n - 1].detail);
        assert ws == prev + [x];
        WarningPagesSnoc(prev, x);
        forall i | 0 <= i < |ws| ensures 1 <= ws[i].page <= n && ws[i].page as int in selected {
          if i < |prev| { assert ws[i] == prev[i]; }
        }
      } else {
        assert ws == prev;
      }
    }
  }

  /** Page number q has an entry in the result exactly when it is a selected
      page whose step is acceptance, and every entry for q holds the
      table made from that page. */
  lemma {:induction false} ResultPageIff(steps: seq<PageStep>, selected: seq<int>, n: nat, q: nat)
    requires n <= |steps|
    ensures q in ResultPages(RunPrefix(steps, selected, n).tables) <==>
              1 <= q <= n && q as int in selected && steps[q - 1].Accepted?
    ensures forall i | 0 <= i < |RunPrefix(steps, selected, n).tables| && ResultPages(RunPrefix(steps, selected, n).tables)[i] == q ::
              RunPrefix(steps, selected, n).tables[i].table == steps[q - 1].table
  {
    if n > 0 {
      ResultPageIff(steps, selected, n - 1, q);
      ResultPagesOrdered(steps, selected, n - 1);
      var prev := RunPrefix(steps, selected, n - 1).tables;
      var ts := RunPrefix(steps, selected, n).tables;
      if n as int in selected && steps[n - 1].Accepted? {
        var x := PageResult(n, steps[n - 1].table);
        assert ts == prev + [x];
        ResultPagesSnoc(prev, x);
        if q == n {
          assert q !in ResultPages(prev);
        }
      } else {
        assert ts == prev;
      }
    }
  }

  /** Page number q has a warning exactly when it is a selected page whose step
      is a failure, and every warning for q carries the
      exception text of that page. */
  lemma {:induction false} WarningPageIff(steps: seq<PageStep>, selected: seq<int>, n: nat, q: nat)
    requires n <= |steps|
    ensures q in WarningPages(RunPrefix(steps, selected, n).warnings) <==>
              1 <= q <= n && q as int in selected && steps[q - 1].Failed?
    ensures forall i | 0 <= i < |RunPrefix(steps, selected, n).warnings| && WarningPages(RunPrefix(steps, selected, n).warnings)[i] == q ::
              RunPrefix(steps, selected, n).warnings[i].detail == steps[q - 1].detail
  {
    if n > 0 {
      WarningPageIff(steps, selected, n - 1, q);
      WarningPagesOrdered(steps, selected, n - 1);
      var prev := RunPrefix(steps, selected, n - 1).warnings;
      var ws := RunPrefix(steps, selected, n).warnings;
      if n as int in selected && steps[n - 1].Failed? {
        var w := Warning(n, steps[n - 1].detail);
        assert ws == prev + [w];
        WarningPagesSnoc(prev, w);
        if q == n {
          assert q !in WarningPages(prev);
        }
      } else {
        assert ws == prev;
      }
    }
  }

  /** For the whole document: page q is in the result exactly when it is a
      selected page of the document that is accepted, with the table made from
      it; and q has a warning exactly when it is a selected page on which
      something raised, with that exception's text. This holds whatever
      happens on the other pages. */
  lemma ExtractedPageIff(pdf: seq<Page>, selected: seq<int>, q: nat)
    ensures q in ResultPages(ExtractTables(pdf, selected).tables) <==>
              1 <= q <= |pdf| && q as int in selected && ProcessPage(pdf[q - 1]).Accepted?
    ensures forall i | 0 <= i < |ExtractTables(pdf, selected).tables| && ResultPages(ExtractTables(pdf, selected).tables)[i] == q ::
              ExtractTables(pdf, selected).tables[i].table == ProcessPage(pdf[q - 1]).table
    ensures q in WarningPages(ExtractTables(pdf, selected).warnings) <==>
              1 <= q <= |pdf| && q as int in selected && ProcessPage(pdf[q - 1]).Failed?
    ensures forall i | 0 <= i < |ExtractTables(pdf, selected).warnings| && WarningPages(ExtractTables(pdf, selected).warnings)[i] == q ::
              ExtractTables(pdf, selected).warnings[i].detail == ProcessPage(pdf[q - 1]).detail
  {
    ResultPageIff(Steps(pdf), selected, |pdf|, q);
    WarningPageIff(Steps(pdf), selected, |pdf|, q);
  }

  /** For the whole document: result and warning page numbers are 1-based,
      within the document, selected and strictly increasing. */
  lemma ExtractedPagesOrdered(pdf: seq<Page>, selected: seq<int>)
    ensures var r := ExtractTables(pdf, selected);
            StrictlyIncreasing(ResultPages(r.tables)) && StrictlyIncreasing(WarningPages(r.warnings))
    ensures forall i | 0 <= i < |ExtractTables(pdf, selected).tables| ::
              1 <= ExtractTables(pdf, selected).tables[i].page <= |pdf| &&
              ExtractTables(pdf, selected).tables[i].page as int in selected
    ensures forall i | 0 <= i < |ExtractTables(pdf, selected).warnings| ::
              1 <= ExtractTables(pdf, selected).warnings[i].page <= |pdf| &&
              ExtractTables(pdf, selected).warnings[i].page as int in selected
  {
    ResultPagesOrdered(Steps(pdf), selected, |pdf|);
    WarningPagesOrdered(Steps(pdf), selected, |pdf|);
  }

  /** Three pages all selected, the second raising: the result holds pages 1
      and 3 and there is exactly one warning, for page 2. */
  lemma FailingPageSkipped(g1: Grid, g3: Grid, e: string)
    requires g1 != [] && g3 != []
    ensures var pdf := [Page(Returned(Some(g1)), Returned([]), None),
                        Page(Raised(e), Returned([]), None),
                        Page(Returned(Some(g3)), Returned([]), None)];
            var r := ExtractTables(pdf, [1, 2, 3]);
            ResultPages(r.tables) == [1, 3] && r.warnings == [Warning(2, e)]
  {
    var pdf := [Page(Returned(Some(g1)), Returned([]), None),
                Page(Raised(e), Returned([]), None),
                Page(Returned(Some(g3)), Returned([]), None)];
    var sel := [1, 2, 3];
    var t1 := Table(Deduplicated(g1[0]), g1[1..]);
    var t3 := Table(Deduplicated(g3[0]), g3[1..]);
    assert ProcessPage(pdf[0]) == Accepted(t1);
    assert ProcessPage(pdf[1]) == Failed(e);
    assert ProcessPage(pdf[2]) == Accepted(t3);
    assert RunPrefix(Steps(pdf), sel, 0) == Run([], []);
    assert RunPrefix(Steps(pdf), sel, 1) == Run([PageResult(1, t1)], []);
    assert RunPrefix(Steps(pdf), sel, 2) == Run([PageResult(1, t1)], [Warning(2, e)]);
    assert RunPrefix(Steps(pdf), sel, 3) == Run([PageResult(1, t1), PageResult(3, t3)], [Warning(2, e)]);
    assert ResultPages([PageResult(1, t1), PageResult(3, t3)]) == [1, 3];
  }

  /** The page loop. `pdf.pages[i]` is `pdf[i]`; `selectedPages` is the list
      chosen in the page selector. */
  method ExtractTablesFromPdf(pdf: seq<Page>, selectedPages: seq<int>) returns (tables: seq<PageResult>, warnings: seq<Warning>)
    ensures Run(tables, warnings) == ExtractTables(pdf, selectedPages)
  {
    tables, warnings := [], [];
    var totalPages := |pdf|;
    for pageNum := 0 to totalPages
      invariant Run(tables, warnings) == RunPrefix(Steps(pdf), selectedPages, pageNum)
    {
      if pageNum + 1 !in selectedPages {
        continue;
      }
      var page := pdf[pageNum];
      // the body of the `try`; `error` is what its `except` catches
      var error: Option<string> := None;
      var table: Option<Grid> := None;
      match page.primary {
        case Raised(e) =>
          error := Some(e);
        case Returned(t) =>
          table := t;
          if !Truthy(table) {
            match page.fallback {
              case Raised(e) =>
                error := Some(e);
              case Returned(tablesOnPage) =>
                if tablesOnPage != [] {
                  table := Some(tablesOnPage[0]);
                }
            }
          }
      }
      if error.None? && Truthy(table) {
        if page.frameError.Some? {
          error := page.frameError;
        } else {
          var header := table.value[0];
          var columns := new Cell[|header|](i requires 0 <= i < |header| => header[i]);
          assert columns[..] == header;
          var deduplicated := DeduplicateColumns(columns);
          tables := tables + [PageResult(pageNum + 1, Table(deduplicated[..], table.value[1..]))];
        }
      }
      if error.Some? {
        warnings := warnings + [Warning(pageNum + 1, error.value)];
      }
    }
  }
}
