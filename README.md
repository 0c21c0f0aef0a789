# PDF tables to text chunks — a Dafny model

This project models the two data-shaping stages of a small PDF ingestion
pipeline.

**Extraction** (`scripts/extractor.py`):
- Every PDF is run through a table extractor (pdfplumber). When that finds
  nothing, a second one (tabula) is tried.
- Each detected table row becomes a flat record: source file, page, the row's
  position in its table and exactly ten columns `col_0 .. col_9`.
- Every column is stripped of surrounding whitespace. Missing cells, `None`
  or NaN, become empty strings; long rows are cut and short rows are padded.
- Only directory entries whose lower-cased name ends in `.pdf` are parsed.
  Their records are concatenated in listing order.

**Chunking** (`scripts/make_chunks.py`):
- Each record's columns are joined with single spaces and stripped into a
  *line*.
- Records are grouped by (source file, page). A group's lines, ordered by row
  index, are joined with newlines and stripped into the *page text*.
- A group with an empty page text is skipped.
- Any other page text is cut into slices of at most 1000 characters. The
  slices become chunks with the id `doc_id:page:index` and meta
  `{source_file, page, chunk_index}`.
- `doc_id` is the first 16 hex digits of the SHA-256 digest of the file name.

Modules:
- `Text` models Python's `str.strip()` with the exact `str.isspace` character
  set, `sep.join` and concatenation.
- `Format` models `str()` of integers and `hexdigest()`.
- `Extractor` and `Chunker` model the two scripts.

Imperative parts are methods with loops, each proved equal to a
specification function:
- the nested loops of `parse_file` (`EmitFrame`, `ParseFile`);
- the loop of `parse_pdfs_to_csv` (`ParsePdfs`);
- the `while` loop of `_chunk` (`ChunkText`);
- the loops of `make_chunks` (`EmitGroup`, `EmitKey`, `MakeChunks`).

The properties are then proved as lemmas about those functions.

The following are parameters of the model:
- the two extraction engines: any functions from a path to a list of
  `(page, table)` frames;
- SHA-256: any function from a string to 32 bytes;
- the order in which pandas' `groupby` yields the groups: a list `keys` given
  to `MakeChunks`, which must name every (file, page) of the table exactly
  once (`Chunker.GroupOrder`).

Behaviour of the code as written that the model keeps:
- `parse_file` always joins the file name onto the constant `PDF_DIR`, even
  when `parse_pdfs_to_csv` listed another directory (`Extractor.PdfPath`).
- `row_index` restarts at 0 for every table. If one page holds two tables,
  their rows are interleaved by the sort on `row_index` when the page text is
  built: row j + 1 of the first table comes before row j of the second in the
  flat table, but after it in the page text (`Chunker.TablesInterleave`,
  `Chunker.SortedPutsSmallerFirst`).
- `_chunk` loops forever when `max_len <= 0` and the text is not empty. The
  model requires `maxLen > 0`; `make_chunks` always uses 1000.

## Model

| member | source | states |
|---|---|---|
| Text.IsSpace | scripts/extractor.py:18 | the characters `str.strip()` removes: exactly those for which Python's `str.isspace` holds |
| Text.LeadingSpaces | scripts/extractor.py:18 | the count of characters `lstrip` removes: every character before it is whitespace, the one at it is not |
| Text.TrailingSpaces | scripts/extractor.py:18 | the count of characters `rstrip` removes: every character after the kept part is whitespace, the last kept one is not |
| Text.Strip | scripts/extractor.py:18 | `str.strip()` leaves no whitespace at either end and never lengthens the string |
| Text.StripRemovesOnlyEnds | scripts/extractor.py:18 | the stripped string is a contiguous piece of the input, with only whitespace before it and only whitespace after it |
| Text.StripEmptyIff | scripts/make_chunks.py:26 | a string strips to `""` exactly when it consists of whitespace only |
| Text.StripStripped | scripts/extractor.py:18 | stripping an already stripped string changes nothing |
| Text.StrippedBlankIsEmpty | scripts/make_chunks.py:30-31 | a stripped string is all whitespace only when it is empty |
| Text.Join | scripts/make_chunks.py:26 | `sep.join(parts)`: the parts in order with one separator between neighbours; its whitespace behaviour is `Text.JoinAllSpace` |
| Text.JoinAllSpace | scripts/make_chunks.py:26 | joining with a whitespace separator gives an all-whitespace string exactly when every part is all whitespace |
| Format.NatToString | scripts/make_chunks.py:38 | `str(n)` is a non-empty string of decimal digits, a single digit exactly when n < 10 |
| Format.IntToString | scripts/make_chunks.py:38 | `str(page)` contains no colon; it is `"-"` before the digits for a negative page |
| Format.NatToStringInjective | scripts/make_chunks.py:38 | distinct indices have distinct decimal forms |
| Format.IntToStringInjective | scripts/make_chunks.py:38 | distinct pages have distinct decimal forms |
| Format.HexOf | scripts/make_chunks.py:12 | `hexdigest()` gives two lower-case hex digits per byte |
| Format.HexOfPrefix | scripts/make_chunks.py:12 | the first 2k hex digits depend only on the first k bytes of the digest |
| Extractor.CellText | scripts/extractor.py:18 | one cell's text: `""` for `None`, `str(nan)` = `"nan"` for a NaN, the stripped value otherwise; always stripped |
| Extractor.Take | scripts/extractor.py:19 | `row[:n]` keeps the first min(len, n) cells of the row, in order |
| Extractor.SanitizeRow | scripts/extractor.py:17-22 | whatever the row's length, the result has exactly MAX_COLS (10) cells |
| Extractor.SanitizeRowSpec | scripts/extractor.py:18-21 | cell i < min(len(row), 10) is that cell's text, so a long row keeps its first 10 values in order; cells from len(row) on are `""`, so an empty row gives 10 empty strings; every cell is stripped |
| Extractor.SanitizeRowIdempotent | scripts/extractor.py:17-22 | sanitising a sanitised row again, as string cells, returns it unchanged |
| Extractor.FillCell | scripts/extractor.py:65 | `fillna("")` on one cell: `None` and NaN both become `""`, every other value is kept |
| Extractor.FillRow | scripts/extractor.py:65 | filling a row keeps its length |
| Extractor.FillNa | scripts/extractor.py:65 | `fillna("")` keeps the table's shape, turns every missing cell, `None` or NaN, into `""` and leaves every other cell alone |
| Extractor.FilledRowText | scripts/extractor.py:65-67 | after filling, a row sanitises to `""` at every missing cell of either kind and to the stripped value elsewhere |
| Extractor.FillNaInvisible | scripts/extractor.py:65-67 | for a row without NaN cells, filling before sanitising makes no difference, since `_sanitize_row` already maps `None` to `""` |
| Extractor.NaNNeedsFillNa | scripts/extractor.py:65-67 | for a NaN cell the filling matters: sanitising alone gives `"nan"`, filling first gives `""` |
| Extractor.SelectFrames | scripts/extractor.py:55-58 | the frames used are the primary engine's when it found any, otherwise the secondary's; always exactly one of the two lists, never a merge; empty only when both are empty |
| Extractor.PdfPath | scripts/extractor.py:52 | the path handed to both engines is the file name joined onto the constant `PDF_DIR` |
| Extractor.FramesOf | scripts/extractor.py:52-58 | the frames of one file: the engines' results on its path, chosen by `SelectFrames` |
| Extractor.MakeRecord | scripts/extractor.py:67-75 | a record carries the file name, the page and the row index it is given, and exactly ten columns |
| Extractor.FrameRecords | scripts/extractor.py:65-75 | a frame yields one record per row of its filled table, row j numbered j |
| Extractor.FileRecords | scripts/extractor.py:64-77 | the records of a file are those of its frames, frame after frame; its properties are `FileRecordsCount`, `FileRecordsAt` and `FileRecordsFrom` |
| Extractor.RowCount | scripts/extractor.py:64-66 | the number of table rows over a list of frames |
| Extractor.FileRecordsCount | scripts/extractor.py:64-75 | a file yields one record per table row over all its frames |
| Extractor.FileRecordsAt | scripts/extractor.py:64-75 | row j of frame k is the record at offset (rows of frames before k) + j, with the file name, the frame's page, row index j and the filled, sanitised row |
| Extractor.FileRecordsFrom | scripts/extractor.py:64-75 | every record of a file carries that file name and ten columns, and comes from some frame with its page, a row index inside that frame and that row's filled, sanitised cells |
| Extractor.RowCountGrows | scripts/extractor.py:64-66 | frames are emitted in order: every row of frame k1 comes before the first row of any later frame k2 |
| Extractor.FileRecordsStep | scripts/extractor.py:64 | processing one more frame appends exactly that frame's records |
| Extractor.EmitFrame | scripts/extractor.py:65-75 | the inner loop of `parse_file` builds exactly the frame's records, in row order, numbered from 0 |
| Extractor.ParseFile | scripts/extractor.py:51-77 | `parse_file` returns the records of the selected frames, frame after frame, one per row; it returns `[]` when both engines find nothing |
| Extractor.LowerAscii | scripts/extractor.py:81 | `f.lower()` keeps the name's length, lower-casing ASCII capitals |
| Extractor.IsPdfName | scripts/extractor.py:81 | the filter `f.lower().endswith(".pdf")`; decided by `PdfNameIff` |
| Extractor.PdfNameIff | scripts/extractor.py:81 | `f.lower().endswith(".pdf")` holds exactly when the name's last four characters are `.` and p, d, f in either case |
| Extractor.PdfNames | scripts/extractor.py:81 | a name is kept exactly when it is in the listing and its lower-cased form ends in `.pdf`; no more names than listed |
| Extractor.CorpusRecords | scripts/extractor.py:82-85 | the flat table of a list of files: each file's records, file after file; its properties are `CorpusAppend` and `CorpusRecordsFrom` |
| Extractor.CorpusAppend | scripts/extractor.py:82-85 | files are independent: the records of two lists of files are the concatenation of their records |
| Extractor.CorpusStep | scripts/extractor.py:83-85 | parsing one more file appends exactly that file's records |
| Extractor.CorpusRecordsFrom | scripts/extractor.py:81-85 | every record comes from a parsed file name, has ten stripped columns and a page of one of that file's frames |
| Extractor.ParsePdfs | scripts/extractor.py:79-85 | `parse_pdfs_to_csv` yields the records of the PDF names of the listing, file after file, in listing order |
| Extractor.ParsedFromPdfNamesOnly | scripts/extractor.py:81-85 | every output record's file is in the listing and its name ends in `.pdf` regardless of case |
| Chunker.DocId | scripts/make_chunks.py:11-12 | `_doc_id` depends on the file name only; it is 16 lower-case hex digits, namely those of the digest's first 8 bytes |
| Chunker.Split | scripts/make_chunks.py:14-18 | the pieces `_chunk` yields; its properties are `SplitCount`, `SplitJoin`, `SplitSizes` and `SplitAt` |
| Chunker.SplitCount | scripts/make_chunks.py:14-18 | `_chunk` yields ceil(L / M) pieces: none for empty text and at least one otherwise |
| Chunker.SplitJoin | scripts/make_chunks.py:14-18 | the pieces laid end to end give back the text exactly |
| Chunker.SplitSizes | scripts/make_chunks.py:17 | every piece is non-empty and at most M long; every piece but the last is exactly M long |
| Chunker.SplitAt | scripts/make_chunks.py:15-18 | piece k is the text from position k·M up to k·M + M or the end of the text |
| Chunker.SplitShort | scripts/make_chunks.py:16-17 | a text no longer than M gives at most one piece |
| Chunker.SplitStep | scripts/make_chunks.py:16-18 | from position i, the pieces are `text[i:i+M]` followed by the pieces from i + M on |
| Chunker.ChunkText | scripts/make_chunks.py:14-18 | the loop of `_chunk` yields pieces paired with the indices 0, 1, ..., n-1, with no gaps, piece k being the k-th slice |
| Chunker.ChunkId | scripts/make_chunks.py:38 | the id `f"{doc}:{page}:{idx}"`; `ChunkIdInjective` shows it can be read back |
| Chunker.ColonSplit | scripts/make_chunks.py:38 | a colon-free head before a colon is recovered exactly, and so is the rest |
| Chunker.ChunkIdInjective | scripts/make_chunks.py:38 | `f"{doc}:{page}:{idx}"` with a colon-free doc determines doc, page and index |
| Chunker.Line | scripts/make_chunks.py:26 | the `line` column: the columns joined with single spaces, then stripped; it is always stripped |
| Chunker.LineEmptyIff | scripts/make_chunks.py:26 | a row's line is empty exactly when every column is blank; with stripped columns, exactly when every column is `""` |
| Chunker.KeyOf | scripts/make_chunks.py:29 | the groupby key `(source_file, page)` of a row |
| Chunker.GroupRows | scripts/make_chunks.py:29 | a group holds exactly the rows, by membership, with its (file, page) key |
| Chunker.GroupRowsCount | scripts/make_chunks.py:29 | a group holds each row of its key as many times as the table does, and no row of another key |
| Chunker.GroupRowsAppend | scripts/make_chunks.py:29 | grouping keeps table order: the group of a concatenation is the group of the first part followed by that of the second |
| Chunker.Insert | scripts/make_chunks.py:30 | insertion adds the one row to the multiset of rows |
| Chunker.InsertSorted | scripts/make_chunks.py:30 | insertion into rows sorted by row index keeps them sorted |
| Chunker.SortByRowIndex | scripts/make_chunks.py:30 | `sort_values("row_index")` returns a permutation of the group's rows in non-decreasing row index |
| Chunker.TablesInterleave | scripts/extractor.py:64-72 | two tables on one page: row j + 1 of the earlier table precedes row j of the later one in the flat table, has the same (file, page) and a larger row index |
| Chunker.SortedPutsSmallerFirst | scripts/make_chunks.py:30 | in a group sorted by row index, a row with a smaller row index always comes first |
| Chunker.Lines | scripts/make_chunks.py:30 | the group's `line` column, one line per row |
| Chunker.LinesBlankIff | scripts/make_chunks.py:30 | the lines of some rows are all blank exactly when every row's line is empty |
| Chunker.PageText | scripts/make_chunks.py:30 | the page text: lines in row-index order joined with newlines, then stripped; it is always stripped |
| Chunker.PageTextEmptyIff | scripts/make_chunks.py:30-32 | a page text is empty exactly when every line of the group is empty |
| Chunker.MakeChunk | scripts/make_chunks.py:35-41 | one chunk row: doc id, id `doc:page:idx`, the piece and the meta (file, page, idx) |
| Chunker.TextChunks | scripts/make_chunks.py:31-41 | the chunks of one page text: none when it is empty, else one per slice |
| Chunker.GroupChunks | scripts/make_chunks.py:29-41 | the chunks one group contributes; its properties are `GroupChunksSpec`, `GroupChunkIdsDistinct` and `GroupSkippedIff` |
| Chunker.GroupChunksSpec | scripts/make_chunks.py:30-41 | a group yields ceil(len(page text) / 1000) chunks with indices 0..n-1 and matching ids and meta; their texts spell out the page text and are non-empty and at most 1000 long |
| Chunker.GroupChunkIdsDistinct | scripts/make_chunks.py:34-38 | within one (file, page) group the chunk ids are pairwise distinct |
| Chunker.GroupSkippedIff | scripts/make_chunks.py:26-32 | a group contributes no chunks exactly when every column of every one of its rows is blank |
| Chunker.AllChunks | scripts/make_chunks.py:28-41 | the chunk table: each listed group's chunks, group after group |
| Chunker.AllChunksStep | scripts/make_chunks.py:29-41 | the next group's chunks are appended after those of the groups before it |
| Chunker.AllChunksFrom | scripts/make_chunks.py:28-41 | every output chunk is the chunk at its own meta index of the group named by its meta, and that group is one of the listed groups |
| Chunker.AllChunksPrefix | scripts/make_chunks.py:28-41 | the output for the first m groups is a prefix of the whole output: chunks are only ever appended |
| Chunker.AllChunksContains | scripts/make_chunks.py:28-41 | every chunk of a listed group appears in the output |
| Chunker.NonBlankRowsReachOutput | scripts/make_chunks.py:26-41 | when every row's group is listed, each row with a non-empty line has its (file, page) in the output, starting with chunk 0 |
| Chunker.MetasDistinct | scripts/make_chunks.py:29-35 | when no group is listed twice, no two positions of the output carry the same (file, page, chunk index) meta |
| Chunker.ChunkShape | scripts/make_chunks.py:33-38 | every output chunk has its file's doc id, which has no colon, and the id `doc:page:index` from its own meta |
| Chunker.ChunkIdsIdentify | scripts/make_chunks.py:33-38 | two output chunks with the same id have the same doc id, page and index, and are the same chunk when they come from the same file |
| Chunker.EmitGroup | scripts/make_chunks.py:33-41 | the inner loop of `make_chunks` emits exactly the chunks of the page text |
| Chunker.EmitKey | scripts/make_chunks.py:29-41 | one outer iteration emits the chunks of the group, and nothing when its page text is empty |
| Chunker.MakeChunks | scripts/make_chunks.py:28-41 | given the groups as `groupby` visits them, each (file, page) once, `make_chunks` emits the chunks of every group, group after group, and no two output chunks share a meta |

## Left out

- CSV writing in `parse_pdfs_to_csv` and CSV reading in `make_chunks` are not
  modelled. Nor are `os.listdir`, `os.makedirs`, the `FileNotFoundError`
  check, logging and the `__main__` entry points. The directory listing is a
  parameter. The records go straight from extraction to chunking.
- `pd.read_csv` type inference is not modelled. The model treats the CSV round
  trip as the identity on strings. In the source it is not:
  - a column holding `"1.50"` comes back as the float `1.5` and prints
    differently;
  - a cell whose text is one of pandas' default missing-value markers (`NA`,
    `N/A`, `null`, `None`, `nan`, `NaN`, `#N/A` and the like) comes back as
    NaN, which `fillna("")` in `make_chunks` turns into `""`, so that text
    never reaches the line or the chunks.
- The extraction engines (`parse_with_pdfplumber`, `parse_with_tabula`) are
  parameters, for the following reasons:
  - they call foreign libraries;
  - their `df.empty` and `dropna(how="all")` filtering is pandas semantics;
  - tabula's page numbering by table position is engine-specific.
- Exceptions from the primary engine are not modelled. `parse_with_tabula`
  catches its own failures and returns `[]`, which an engine parameter can
  return. `parse_with_pdfplumber` has no handler: an unreadable PDF or a
  missing library raises out of `parse_file` and aborts `parse_pdfs_to_csv`,
  so no CSV is written at all. The engines of the model are total functions,
  so `Extractor.ParsePdfs` always returns the records of every file.
- `str(v)` of a non-string cell other than NaN is folded into the cell, which
  is modelled as the string it prints as.
- Chunker.DocId: SHA-256 is a parameter. Its UTF-8 encoding input is folded
  into that parameter. Nothing is claimed about distinct file names giving
  distinct ids.
- Extractor.LowerAscii: models `str.lower()` on ASCII letters only. That is
  enough to decide whether a name ends in `.pdf`, because no other character
  lower-cases to one of `.`, `p`, `d`, `f`.
- The order in which pandas' `groupby` yields the groups is not modelled;
  `MakeChunks` takes it as the list `keys`. It requires only what `groupby`
  guarantees about that list: each (file, page) of the table occurs in it
  exactly once (`Chunker.GroupOrder`). Which order pandas picks (it sorts the
  keys) is left free, and so is the extra group `dropna=False` makes for
  missing keys.
- Chunker.SortByRowIndex: pandas' default sort is not stable, so the model
  fixes one order, an insertion sort, for rows with equal row index. Only
  sortedness and permutation are claimed.
- The record's `col_i` dictionary keys are modelled as positions in a
  sequence. `json.dumps` of the meta is modelled as the `Meta` value.
- Chunker.ChunkText: requires `maxLen > 0`. With `max_len <= 0` the source
  loop never ends.
