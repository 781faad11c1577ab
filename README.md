# PDF table converter: a Dafny model of its core

The converter is a Streamlit page. The user uploads a PDF and picks pages.
For each picked page it asks pdfplumber for a table, trying a second
strategy when the first finds nothing. It turns each table found into a
DataFrame whose header row has had repeated names rewritten. It then writes
an Excel workbook, either one sheet per page or a single "Combined" sheet,
and shows summary counts. This project models the three pieces of logic in
that pipeline and proves what they do:

- `Headers`: header de-duplication (`deduplicate_columns`). The loop
  rewrites a list of header cells in place, using a dictionary `seen` of keys
  and counters. It is modelled by the method `DeduplicateColumns` over an
  `array`, proved equal to the function `Deduplicated`. The lemmas about
  `Deduplicated` give its meaning position by position: which cells change,
  how a repeat is numbered, and what `seen` counts.
- `Extraction`: the page loop of `extract_tables_from_pdf`. The PDF library
  and the DataFrame constructor are an oracle: each page is described by what
  `extract_table()`, the fallback `extract_tables(...)` and
  `pd.DataFrame(...)` do there (return a value or raise). The method
  `ExtractTablesFromPdf` appends to the result list and the warning log, and
  is proved equal to the function `ExtractTables`. The lemmas cover page
  order, when a page is accepted or warned about, and the shape of a stored
  table.
- `Workbook`: what `convert_to_excel` writes (sheet names, headers and data
  rows, without the serialisation), and the summary counts `total_rows` and
  `total_cols`.
- `Text`: the Python string operations these rely on: `str.strip()` (with
  the exact set of characters `str.isspace()` accepts), `str(n)` and the
  slice `s[:31]`.
- `Tables`: the shared types (cells are `Option<string>`, since pdfplumber
  gives `None` for missing cells).

The model follows what the code does, including these points a reader might
not expect:

- The code's counter starts at 1 and is incremented before use. So the first
  repeat of a name gets the suffix `_2`, not `_1`: `["a","a","a"]` becomes
  `["a","a_2","a_3"]`.
- A blank or `None` cell is looked up under the key "Unnamed". Only the
  local variable is reassigned, so the first blank cell stays as it is:
  `[None, "", " "]` becomes `[None, "Unnamed_2", "Unnamed_3"]`.
- The names it writes are never added to `seen`, so the result can still
  contain repeats: `["a","a","a_2"]` becomes `["a","a_2","a_2"]`. No
  uniqueness property is claimed.
- Every non-empty grid is accepted; the code checks no minimum size or row
  shape.
- A page where no table is found is skipped silently. Only exceptions produce
  a warning.
- In combined mode, `pd.concat` matches columns by label, not by position.

## Definitions

The functions that stand for the code, with the lines they model and the
lemmas (in the table below) that pin their meaning:

- `Text.IsSpace`, `Text.Strip` (pdf_to_excel.py:111): `str.isspace()` and `str.strip()`; pinned by `Text.StripEmptyIff`.
- `Headers.Key` (pdf_to_excel.py:111-112): the name a cell is looked up under; pinned by `Headers.KeyIsPlaceholderIff` and `Headers.KeyByStrip`.
- `Headers.Seen` (pdf_to_excel.py:109-117): the dictionary `seen` after a prefix of the header; pinned by `Headers.SeenCounts`.
- `Headers.Renamed` (pdf_to_excel.py:113-117): what one pass leaves at a position; pinned by `Headers.RenamedChangedIff`.
- `Headers.Deduplicated` (pdf_to_excel.py:108-118): the returned header; pinned by `Headers.DeduplicatedAt`, `Headers.ChangedIff` and `Headers.DistinctKeysUnchanged`, and computed by `Headers.DeduplicateColumns`.
- `Extraction.ChosenTable` (pdf_to_excel.py:134-141): the table chosen for a page, with the fallback; pinned by `Extraction.FallbackOnlyWhenPrimaryEmpty`.
- `Extraction.ProcessPage` (pdf_to_excel.py:132-148): what happens to one selected page; pinned by `Extraction.AcceptedIff`.
- `Extraction.RunPrefix`, `Extraction.ExtractTables` (pdf_to_excel.py:127-151): the result list and warning log; pinned by `Extraction.ExtractedPageIff` and `Extraction.ExtractedPagesOrdered`, and computed by `Extraction.ExtractTablesFromPdf`.
- `Extraction.WarningText` (pdf_to_excel.py:148): the f-string passed to `st.warning`. It is only displayed, and no lemma is stated about it.
- `Workbook.PageSheet`, `Workbook.SeparateSheets`, `Workbook.SheetPlan` (pdf_to_excel.py:156-162): the sheets written; pinned by `Workbook.SeparateSheetsAt`, `Workbook.SeparatePlan` and `Workbook.CombinedPlan`, and computed by `Workbook.ConvertToExcel`.
- `Workbook.CombinedRows` (pdf_to_excel.py:157): the rows of the combined sheet; pinned by `Workbook.CombinedRowsAppend` and `Workbook.CombinedRowCount`.
- `Workbook.TotalRows` (pdf_to_excel.py:184): `total_rows`; pinned by `Workbook.CombinedRowCount`.
- `Workbook.MaxColumns` (pdf_to_excel.py:185): `total_cols`; pinned by `Workbook.MaxColumnsIsMax`.

## Model

| member | source | states |
|---|---|---|
| `Text.StripEmptyIff` | pdf_to_excel.py:111 | `s.strip() == ''` holds exactly when every character of `s` is Python white space, the empty string included |
| `Text.NatToString` | pdf_to_excel.py:115 | `str(n)` is a non-empty string of decimal digits with no leading zero |
| `Text.DigitsValueOfNatToString` | pdf_to_excel.py:115 | reading back the digits of `str(n)` gives `n`, so `str` is injective on counters and page numbers |
| `Text.Truncate` | pdf_to_excel.py:161 | `s[:n]` is the prefix of `s` of length `min(len(s), n)` |
| `Headers.KeyIsPlaceholderIff` | pdf_to_excel.py:111-112 | a cell is compared under "Unnamed" exactly when it is `None`, blank or white space only, or literally "Unnamed"; otherwise under its own text |
| `Headers.KeyByStrip` | pdf_to_excel.py:111-112 | the loop's test `not col or col.strip() == ''` selects the key "Unnamed" exactly where the key function does |
| `Headers.SeenCounts` | pdf_to_excel.py:109-117 | after the loop, `seen` has exactly the keys that occur, each mapped to its number of occurrences |
| `Headers.DeduplicatedAt` | pdf_to_excel.py:110-117 | a cell whose key has not occurred earlier is kept exactly as given; the j-th repeat (j >= 1) of key k becomes `k + "_" + str(j + 1)` |
| `Headers.RenamedChangedIff` | pdf_to_excel.py:113-115 | a cell is overwritten exactly when its key is already in `seen` |
| `Headers.ChangedIffRepeated` | pdf_to_excel.py:110-117 | a position is changed exactly when its key occurs among the cells before it |
| `Headers.RewriteDiffers` | pdf_to_excel.py:115 | a rewritten name never equals the cell it replaces |
| `Headers.ChangedIff` | pdf_to_excel.py:110-117 | a position is changed if and only if its key already occurred at an earlier position |
| `Headers.DistinctKeysUnchanged` | pdf_to_excel.py:108-118 | a header whose keys are pairwise distinct comes back unchanged |
| `Headers.SeenSnoc` | pdf_to_excel.py:113-117 | visiting one more cell increments the count of its key, or starts it at 1, and leaves every other key's count alone (a one-step unfolding of `Seen` used by the loop proof; the meaning of `seen` is `Headers.SeenCounts`) |
| `Headers.LoopStep` | pdf_to_excel.py:110-117 | one pass at position i: for a key already seen, `seen` goes up by one and the cell becomes `key + "_" + str(new count)`; for a new key, the count starts at 1 and the cell is kept (a one-step unfolding of `Seen` and `Deduplicated` that carries the proof of `Headers.DeduplicateColumns`; the meaning of the result is `Headers.DeduplicatedAt`) |
| `Headers.RepeatsNumberedFromTwo` | pdf_to_excel.py:113-117 | `["a","a","a"]` becomes `["a","a_2","a_3"]` |
| `Headers.FirstBlankKept` | pdf_to_excel.py:111-117 | `[None, "", " "]` becomes `[None, "Unnamed_2", "Unnamed_3"]` |
| `Headers.ResultMayRepeat` | pdf_to_excel.py:113-117 | `["a","a","a_2"]` becomes `["a","a_2","a_2"]`, which repeats a name |
| `Headers.DeduplicateColumns` | pdf_to_excel.py:108-118 | the in-place loop returns the same list, now holding `Deduplicated` of its old contents |
| `Extraction.FallbackOnlyWhenPrimaryEmpty` | pdf_to_excel.py:134-141 | the fallback is irrelevant when the primary result is non-empty, and when the primary call raised (its exception is the page's, the fallback is never called); otherwise its first table is taken when it found any, the page yields no table when it found none, and an exception it raises is the page's |
| `Extraction.AcceptedIff` | pdf_to_excel.py:143-148 | a page is accepted exactly when the chosen table is non-empty and nothing raised; the stored table has header `Deduplicated(table[0])` (same width) and rows `table[1:]` (one fewer than the grid); a page fails exactly when an extraction call or the DataFrame constructor raised |
| `Extraction.ResultPagesOrdered` | pdf_to_excel.py:127-146 | result page numbers are 1-based, at most the number of pages, selected, and strictly increasing |
| `Extraction.WarningPagesOrdered` | pdf_to_excel.py:127-148 | warning page numbers are 1-based, at most the number of pages, selected, and strictly increasing, so there is at most one warning per page |
| `Extraction.ResultPageIff` | pdf_to_excel.py:127-146 | page q is in the result if and only if it is a selected page of the document that is accepted, and its entry holds that page's table, whatever happened on other pages |
| `Extraction.WarningPageIff` | pdf_to_excel.py:132-148 | page q has a warning if and only if it is a selected page of the document on which a call raised, and the warning carries that exception's text |
| `Extraction.ExtractedPageIff` | pdf_to_excel.py:127-148 | for the whole document: page q is in the result exactly when it is selected and accepted, with the table made from it, and has a warning exactly when it is selected and something raised there, with that exception's text |
| `Extraction.ExtractedPagesOrdered` | pdf_to_excel.py:127-148 | for the whole document: result and warning page numbers are 1-based, within the document, selected and strictly increasing |
| `Extraction.FailingPageSkipped` | pdf_to_excel.py:127-148 | with three selected pages where page 2 raises, the result holds pages 1 and 3 and the log holds one warning, for page 2 |
| `Extraction.ExtractTablesFromPdf` | pdf_to_excel.py:120-151 | the page loop returns exactly the result list and warning log of `ExtractTables` |
| `Workbook.SheetName` | pdf_to_excel.py:161 | a sheet name is a prefix of `"Page_" + str(n)` of at most 31 characters, and either the whole of it or 31 characters long |
| `Workbook.SheetNameNotCut` | pdf_to_excel.py:161 | for page numbers of at most 26 digits the name is `"Page_" + str(n)` in full |
| `Workbook.SheetNamesDistinct` | pdf_to_excel.py:161 | distinct page numbers below 10^26 give distinct sheet names |
| `Workbook.SeparateSheetsAt` | pdf_to_excel.py:160-162 | the separate-sheet loop writes one sheet per result, the i-th for the i-th result |
| `Workbook.SeparatePlan` | pdf_to_excel.py:159-162 | separate-sheet mode: as many sheets as results, in result order, each named after its page and holding that page's header and rows |
| `Workbook.CombinedRowsAppend` | pdf_to_excel.py:157 | the combined rows of two result lists joined are the rows of the first followed by those of the second |
| `Workbook.CombinedRowCount` | pdf_to_excel.py:157-184 | the combined sheet has `total_rows` rows, the sum of the results' row counts |
| `Workbook.CombinedPlan` | pdf_to_excel.py:156-158 | combined mode: exactly one sheet, named "Combined", with `total_rows` rows |
| `Workbook.MaxColumnsIsMax` | pdf_to_excel.py:185 | `total_cols` bounds every table's column count and equals one of them; it is 0 for no tables |
| `Workbook.ExtractedSheetNamesDistinct` | pdf_to_excel.py:127-162 | for a document of fewer than 10^26 pages, the separate sheets written for the extraction result have pairwise distinct names |
| `Workbook.ConvertToExcel` | pdf_to_excel.py:153-164 | the sheets written are exactly `SheetPlan(tables, combine_sheets)` |

## Left out

- The Streamlit interface is not modelled because it is presentation only. This covers the page setup, the title, the sidebar checkbox, the uploader, the page multiselect, the button, the expanders, the success, info and error messages, the status text and the download button (pdf_to_excel.py:93-106, 124-125, 131, 150, 166-207). The chosen pages and the combine flag are parameters.
- The progress bar value `(page_num + 1) / total_pages` (pdf_to_excel.py:149) is not modelled. It is floating point and only displayed.
- pdfplumber is an oracle: `Extraction.Page` records what `extract_table()` and `extract_tables(...)` return or raise on each page. How the library finds tables is not modelled. Neither is a failure of `pdfplumber.open` itself (pdf_to_excel.py:122, 168), which happens before any page is processed.
- `pd.DataFrame(table[1:], columns=table[0])` is an oracle too. `Page.frameError` says whether it raises (for example on ragged rows). When it succeeds, the model takes its columns to be `table[0]` and its rows to be `table[1:]`. For data rows of uneven length, pandas pads the shorter ones with `None` to the width of the longest, and raises unless that width equals the header's (or there are no data rows). The model keeps `table[1:]` as given, so a `Sheet`'s rows can be ragged where the written sheet is not. Row counts are unaffected.
- `Workbook.ConvertToExcel`: requires at least one result. Its only caller checks this (pdf_to_excel.py:180). With no results, `pd.concat` raises and a workbook with no sheets cannot be saved; neither is modelled.
- `Workbook.CombinedPlan`: does not model how `pd.concat` aligns columns by label. The combined sheet's header is left `None`, and its rows are the pages' rows in order, as given. The cell reordering and padding that label alignment does when the pages' headers differ is not captured. The row count is exact. Nor is the case where `pd.concat` raises: frames whose labels differ, one of which repeats a label, cannot be aligned. A repeated label can survive de-duplication (`Headers.ResultMayRepeat`), and `convert_to_excel` is called outside any `try` (pdf_to_excel.py:197), so combined mode can fail on such pages where the model writes a sheet. This reading of pandas' behaviour comes from its documented semantics.
- `Workbook.SeparatePlan`: models the writer as an ordered list of sheets. What `to_excel` does when a sheet name repeats is not modelled. `Workbook.ExtractedSheetNamesDistinct` proves that this cannot happen for documents of fewer than 10^26 pages. Beyond that, the 31-character cut could make two names equal.
- Writing the workbook to a `BytesIO` stream with openpyxl (pdf_to_excel.py:154-155, 158, 162-164) is not modelled. It is serialisation by a library.
- The text of a warning is given by `Extraction.WarningText`. Displaying it with `st.warning` is not modelled.
- Header cells are modelled only as strings or `None`, which is what pdfplumber produces. Other Python values, on which `col.strip()` could raise, are not modelled.
- The commented-out earlier version (pdf_to_excel.py:1-71) is dead code and is not modelled. Its counter started at 0 (pdf_to_excel.py:21), so its first repeat got `_1`.
