/**
 * Table extraction and row normalisation (scripts/extractor.py).
 *
 * A PDF yields a list of frames, each a page number and a table of raw cells.
 * The two engines (pdfplumber first, tabula second) are parameters of the
 * model: any functions from a file path to frames. Every table row is forced
 * into exactly MAX_COLS stripped strings and becomes one flat record.
 */
module Extractor {
  import opened Text

  const MAX_COLS: nat := 10

  /** The directory `parse_file` joins every file name onto. */
  const PDF_DIR: string := "/opt/airflow/pdf_data"

  /** A raw cell as it reaches `_sanitize_row`: Python's `None` (pdfplumber's
      empty cell), a floating NaN (pandas' missing value) or any other value,
      represented by its `str()` form. */
  datatype Cell = Null | NaN | Str(s: string)

  /** A detected table as `df.values.tolist()` gives it: a list of rows. */
  type Table = seq<seq<Cell>>

  /** A detected table with the page number it was found on. */
  type Frame = (int, Table)

  /** An extraction engine: from a file path to the frames it detects. */
  type Engine = string -> seq<Frame>

  /** One row of the flat extraction table; `cols[i]` is column `col_i`. */
  datatype Record = Record(sourceFile: string, page: int, rowIndex: nat, cols: seq<string>)

  /** The text a single cell contributes: empty for `None`, `str(nan)` for a
      NaN, else the stripped value. */
  function CellText(c: Cell): (r: string)
    ensures IsStripped(r)
  {
    match c
    case Null => ""
    case NaN => "nan"
    case Str(v) => Strip(v)
  }

  /** `row[:n]`: Python's slice, which stops at the end of a short row. */
  function Take<T>(s: seq<T>, n: nat): (r: seq<T>)
    ensures |r| == if |s| < n then |s| else n
    ensures r == s[..|r|]
  {
    if |s| <= n then s else s[..n]
  }

  /** `_sanitize_row`: every cell cleaned, the row cut to MAX_COLS cells and
      right-padded with empty strings. */
  function SanitizeRow(row: seq<Cell>): (r: seq<string>)
    ensures |r| == MAX_COLS
  {
    var cleaned := seq(|row|, i requires 0 <= i < |row| => CellText(row[i]));
    var cut := Take(cleaned, MAX_COLS);
    if |cut| < MAX_COLS then cut + seq(MAX_COLS - |cut|, _ => "") else cut
  }

  /** What `_sanitize_row` promises for any row, short or long: the first
      MAX_COLS cells are kept in order, each turned into its `CellText`; the positions past the row's end are `""`;
      every cell is stripped. */
  lemma SanitizeRowSpec(row: seq<Cell>)
    ensures var r := SanitizeRow(row);
      && (forall i :: 0 <= i < |row| && i < MAX_COLS ==> r[i] == CellText(row[i]))
      && (forall i :: |row| <= i < MAX_COLS ==> r[i] == "")
      && (forall i :: 0 <= i < MAX_COLS ==> IsStripped(r[i]))
  {
    var r := SanitizeRow(row);
    forall i | 0 <= i < MAX_COLS ensures IsStripped(r[i]) {
      if i < |row| {
        assert r[i] == CellText(row[i]);
      } else {
        assert r[i] == "";
      }
    }
  }

  /** Sanitising is idempotent: feeding a sanitised row back in, as present
      cells, gives the same row. */
  lemma SanitizeRowIdempotent(row: seq<Cell>)
    ensures var r := SanitizeRow(row);
            SanitizeRow(seq(|r|, i requires 0 <= i < |r| => Str(r[i]))) == r
  {
    var r := SanitizeRow(row);
    var cells := seq(|r|, i requires 0 <= i < |r| => Str(r[i]));
    var again := SanitizeRow(cells);
    SanitizeRowSpec(row);
    SanitizeRowSpec(cells);
    forall i | 0 <= i < MAX_COLS ensures again[i] == r[i] {
      StripStripped(r[i]);
    }
  }

  /** `fillna("")` on one cell: both kinds of missing value become `""`. */
  function FillCell(c: Cell): (r: Cell)
    ensures r.Str?
    ensures c.Str? ==> r == c
    ensures !c.Str? ==> r == Str("")
  {
    if c.Str? then c else Str("")
  }

  function FillRow(row: seq<Cell>): (r: seq<Cell>)
    ensures |r| == |row|
  {
    seq(|row|, i requires 0 <= i < |row| => FillCell(row[i]))
  }

  /** `df.fillna("")`: every missing cell of a table, `None` or NaN, becomes
      the empty string and every other cell is kept. */
  function FillNa(table: Table): (t: Table)
    ensures |t| == |table|
    ensures forall j :: 0 <= j < |t| ==> |t[j]| == |table[j]|
    ensures forall j, i :: 0 <= j < |t| && 0 <= i < |t[j]| ==>
              t[j][i] == (if table[j][i].Str? then table[j][i] else Str(""))
  {
    seq(|table|, j requires 0 <= j < |table| => FillRow(table[j]))
  }

  /** After `fillna("")` a row sanitises to `""` in every missing position,
      whichever kind of missing value was there, and to the stripped value
      elsewhere. */
  lemma FilledRowText(row: seq<Cell>)
    ensures var r := SanitizeRow(FillRow(row));
      forall i :: 0 <= i < |row| && i < MAX_COLS ==>
        r[i] == (if row[i].Str? then Strip(row[i].s) else "")
  {
    SanitizeRowSpec(FillRow(row));
    assert Strip("") == "";
  }

  /** Filling makes no difference to a row without NaN cells: `_sanitize_row`
      alone already turns `None` into `""`. */
  lemma FillNaInvisible(row: seq<Cell>)
    requires forall i :: 0 <= i < |row| ==> !row[i].NaN?
    ensures SanitizeRow(FillRow(row)) == SanitizeRow(row)
  {
    var a, b := SanitizeRow(FillRow(row)), SanitizeRow(row);
    SanitizeRowSpec(FillRow(row));
    SanitizeRowSpec(row);
    assert Strip("") == "";
    forall i | 0 <= i < MAX_COLS ensures a[i] == b[i] {
      if i < |row| {
        assert FillRow(row)[i] == FillCell(row[i]);
      }
    }
  }

  /** For a NaN cell the filling is what matters: `_sanitize_row` alone would
      write the text `nan`, after `fillna("")` the column is empty. */
  lemma NaNNeedsFillNa(row: seq<Cell>)
    requires 0 < |row| && row[0].NaN?
    ensures SanitizeRow(row)[0] == "nan"
    ensures SanitizeRow(FillRow(row))[0] == ""
  {
    SanitizeRowSpec(row);
    FilledRowText(row);
  }

  /** The strict fallback of `parse_file`: the primary engine's frames when it
      found any, otherwise the secondary's; never a merge of the two. */
  function SelectFrames(primary: seq<Frame>, secondary: seq<Frame>): (r: seq<Frame>)
    ensures r == primary || r == secondary
    ensures primary != [] ==> r == primary
    ensures primary == [] ==> r == secondary
    ensures r == [] <==> primary == [] && secondary == []
  {
    if primary != [] then primary else secondary
  }

  function PdfPath(pdfFile: string): string
  {
    PDF_DIR + "/" + pdfFile
  }

  /** The frames `parse_file` works on for one file. */
  function FramesOf(pdfFile: string, primary: Engine, secondary: Engine): seq<Frame>
  {
    SelectFrames(primary(PdfPath(pdfFile)), secondary(PdfPath(pdfFile)))
  }

  /** One record: a row's sanitised cells with its file, page and position. */
  function MakeRecord(pdfFile: string, page: int, rowIndex: nat, row: seq<Cell>): (r: Record)
    ensures r.sourceFile == pdfFile && r.page == page && r.rowIndex == rowIndex
    ensures |r.cols| == MAX_COLS
  {
    Record(pdfFile, page, rowIndex, SanitizeRow(row))
  }

  /** The records of one frame: its missing cells filled, its rows numbered
      by position from 0. */
  function FrameRecords(pdfFile: string, frame: Frame): (r: seq<Record>)
    ensures |r| == |frame.1|
  {
    var table := FillNa(frame.1);
    seq(|table|, j requires 0 <= j < |table| => MakeRecord(pdfFile, frame.0, j, table[j]))
  }

  /** The records of all frames of a file, frame after frame. */
  function FileRecords(pdfFile: string, frames: seq<Frame>): seq<Record>
    decreases |frames|
  {
    if frames == [] then []
    else FileRecords(pdfFile, frames[..|frames| - 1]) + FrameRecords(pdfFile, frames[|frames| - 1])
  }

  /** The total number of table rows over all frames. */
  function RowCount(frames: seq<Frame>): nat
    decreases |frames|
  {
    if frames == [] then 0 else RowCount(frames[..|frames| - 1]) + |frames[|frames| - 1].1|
  }

  /** One record per table row. */
  lemma {:induction false} FileRecordsCount(pdfFile: string, frames: seq<Frame>)
    ensures |FileRecords(pdfFile, frames)| == RowCount(frames)
    decreases |frames|
  {
    if frames != [] {
      FileRecordsCount(pdfFile, frames[..|frames| - 1]);
    }
  }

  /** Row `j` of frame `k` becomes the record at offset `RowCount(frames[..k]) + j`,
      carrying the file name, the frame's page and `j` as its row index. */
  lemma {:induction false} FileRecordsAt(pdfFile: string, frames: seq<Frame>, k: nat, j: nat)
    requires k < |frames| && j < |frames[k].1|
    ensures RowCount(frames[..k]) + j < |FileRecords(pdfFile, frames)|
    ensures FileRecords(pdfFile, frames)[RowCount(frames[..k]) + j]
            == MakeRecord(pdfFile, frames[k].0, j, FillRow(frames[k].1[j]))
    decreases |frames|
  {
    var n := |frames| - 1;
    var init := frames[..n];
    var front := FileRecords(pdfFile, init);
    var last := FrameRecords(pdfFile, frames[n]);
    assert FileRecords(pdfFile, frames) == front + last;
    FileRecordsCount(pdfFile, init);
    if k == n {
      assert frames[..k] == init;
      assert (front + last)[|front| + j] == last[j];
      assert FillNa(frames[k].1)[j] == FillRow(frames[k].1[j]);
    } else {
      assert init[..k] == frames[..k];
      FileRecordsAt(pdfFile, init, k, j);
      assert (front + last)[RowCount(frames[..k]) + j] == front[RowCount(frames[..k]) + j];
    }
  }

  /** Every record of a file comes from some row of some frame: the file name,
      that frame's page, the row's position and the row's sanitised cells. */
  lemma {:induction false} FileRecordsFrom(pdfFile: string, frames: seq<Frame>, rec: Record)
    requires rec in FileRecords(pdfFile, frames)
    ensures rec.sourceFile == pdfFile && |rec.cols| == MAX_COLS
    ensures exists k :: 0 <= k < |frames| && frames[k].0 == rec.page && rec.rowIndex < |frames[k].1|
                        && rec.cols == SanitizeRow(FillRow(frames[k].1[rec.rowIndex]))
    decreases |frames|
  {
    var n := |frames| - 1;
    var init := frames[..n];
    if rec in FileRecords(pdfFile, init) {
      FileRecordsFrom(pdfFile, init, rec);
      var k :| 0 <= k < |init| && init[k].0 == rec.page && rec.rowIndex < |init[k].1|
               && rec.cols == SanitizeRow(FillRow(init[k].1[rec.rowIndex]));
      assert frames[k] == init[k];
    } else {
      assert rec in FrameRecords(pdfFile, frames[n]);
      var table := FillNa(frames[n].1);
      var j :| 0 <= j < |table| && rec == MakeRecord(pdfFile, frames[n].0, j, table[j]);
      assert table[j] == FillRow(frames[n].1[j]);
    }
  }

  /** Frames come out in order: all rows of frame `k1` precede the first row
      of any later frame `k2`. */
  lemma {:induction false} RowCountGrows(frames: seq<Frame>, k1: nat, k2: nat)
    requires k1 < k2 <= |frames|
    ensures RowCount(frames[..k1]) + |frames[k1].1| <= RowCount(frames[..k2])
    decreases k2
  {
    var fs := frames[..k2];
    assert fs[..k2 - 1] == frames[..k2 - 1];
    assert fs[k2 - 1] == frames[k2 - 1];
    if k1 + 1 < k2 {
      RowCountGrows(frames, k1, k2 - 1);
    }
  }

  lemma FileRecordsStep(pdfFile: string, frames: seq<Frame>, k: nat)
    requires k < |frames|
    ensures FileRecords(pdfFile, frames[..k + 1])
            == FileRecords(pdfFile, frames[..k]) + FrameRecords(pdfFile, frames[k])
  {
    var fs := frames[..k + 1];
    assert fs[..|fs| - 1] == frames[..k];
    assert fs[|fs| - 1] == frames[k];
  }

  /** The inner loop of `parse_file` for one frame: missing cells filled, each
      row sanitised and numbered by its position. */
  method EmitFrame(pdfFile: string, frame: Frame) returns (out: seq<Record>)
    ensures out == FrameRecords(pdfFile, frame)
  {
    var (pageNum, df) := frame;
    var table := FillNa(df);
    ghost var expected := FrameRecords(pdfFile, frame);
    out := [];
    var j := 0;
    while j < |table|
      invariant j <= |table| == |expected|
      invariant out == expected[..j]
    {
      var cleaned := SanitizeRow(table[j]);
      assert expected[..j + 1] == expected[..j] + [expected[j]];
      out := out + [Record(pdfFile, pageNum, j, cleaned)];
      j := j + 1;
    }
    assert expected[..j] == expected;
  }

  /** `parse_file`: the fallback between the engines, then one record per row
      of every frame in order; no frames at all gives no records. */
  method ParseFile(pdfFile: string, primary: Engine, secondary: Engine) returns (records: seq<Record>)
    ensures records == FileRecords(pdfFile, FramesOf(pdfFile, primary, secondary))
    ensures |records| == RowCount(FramesOf(pdfFile, primary, secondary))
    ensures primary(PdfPath(pdfFile)) == [] && secondary(PdfPath(pdfFile)) == [] ==> records == []
  {
    var path := PdfPath(pdfFile);
    records := [];
    var frames := primary(path);
    if frames == [] {
      frames := secondary(path);
    }
    FileRecordsCount(pdfFile, frames);
    if frames == [] {
      return;
    }
    var k := 0;
    while k < |frames|
      invariant k <= |frames|
      invariant records == FileRecords(pdfFile, frames[..k])
    {
      FileRecordsStep(pdfFile, frames, k);
      var frameRecords := EmitFrame(pdfFile, frames[k]);
      records := records + frameRecords;
      k := k + 1;
    }
    assert frames[..k] == frames;
  }

  /** `f.lower()` on the characters that can end a PDF file name (ASCII letters). */
  function LowerAscii(s: string): (r: string)
    ensures |r| == |s|
  {
    seq(|s|, i requires 0 <= i < |s| => if 'A' <= s[i] <= 'Z' then (s[i] as int + 32) as char else s[i])
  }

  predicate EndsWith(s: string, suffix: string)
  {
    |suffix| <= |s| && s[|s| - |suffix|..] == suffix
  }

  /** `f.lower().endswith(".pdf")`. */
  predicate IsPdfName(name: string)
  {
    EndsWith(LowerAscii(name), ".pdf")
  }

  /** A name passes the filter exactly when its last four characters are a
      dot and the letters p, d, f, each in either case. */
  lemma PdfNameIff(name: string)
    ensures IsPdfName(name) <==>
      && |name| >= 4
      && name[|name| - 4] == '.'
      && (name[|name| - 3] == 'p' || name[|name| - 3] == 'P')
      && (name[|name| - 2] == 'd' || name[|name| - 2] == 'D')
      && (name[|name| - 1] == 'f' || name[|name| - 1] == 'F')
  {
    var low := LowerAscii(name);
    if |name| >= 4 {
      var n := |name|;
      var tail := low[n - 4..];
      assert tail[0] == low[n - 4] && tail[1] == low[n - 3] && tail[2] == low[n - 2] && tail[3] == low[n - 1];
    }
  }

  /** The listing filtered to PDF names, in listing order. */
  function PdfNames(listing: seq<string>): (names: seq<string>)
    ensures |names| <= |listing|
    ensures forall x :: x in names <==> x in listing && IsPdfName(x)
    decreases |listing|
  {
    if listing == [] then []
    else (if IsPdfName(listing[0]) then [listing[0]] else []) + PdfNames(listing[1..])
  }

  /** The flat table for a list of files: each file's records, file after file. */
  function CorpusRecords(names: seq<string>, primary: Engine, secondary: Engine): seq<Record>
    decreases |names|
  {
    if names == [] then []
    else CorpusRecords(names[..|names| - 1], primary, secondary)
         + FileRecords(names[|names| - 1], FramesOf(names[|names| - 1], primary, secondary))
  }

  /** Files are independent: the flat table of two lists of files is the
      concatenation of their flat tables. */
  lemma {:induction false} CorpusAppend(a: seq<string>, b: seq<string>, primary: Engine, secondary: Engine)
    ensures CorpusRecords(a + b, primary, secondary)
            == CorpusRecords(a, primary, secondary) + CorpusRecords(b, primary, secondary)
    decreases |b|
  {
    if b != [] {
      var n := |b| - 1;
      assert (a + b)[..|a + b| - 1] == a + b[..n];
      assert (a + b)[|a + b| - 1] == b[n];
      CorpusAppend(a, b[..n], primary, secondary);
    } else {
      assert a + b == a;
    }
  }

  /** Every record of the flat table comes from a listed PDF name, has
      MAX_COLS stripped columns and stems from a row of one of that file's frames. */
  lemma {:induction false} CorpusRecordsFrom(names: seq<string>, primary: Engine, secondary: Engine, rec: Record)
    requires rec in CorpusRecords(names, primary, secondary)
    ensures rec.sourceFile in names
    ensures |rec.cols| == MAX_COLS && forall i :: 0 <= i < MAX_COLS ==> IsStripped(rec.cols[i])
    ensures exists k :: 0 <= k < |FramesOf(rec.sourceFile, primary, secondary)|
                        && FramesOf(rec.sourceFile, primary, secondary)[k].0 == rec.page
    decreases |names|
  {
    var n := |names| - 1;
    if rec in CorpusRecords(names[..n], primary, secondary) {
      CorpusRecordsFrom(names[..n], primary, secondary, rec);
    } else {
      var frames := FramesOf(names[n], primary, secondary);
      FileRecordsFrom(names[n], frames, rec);
      var k :| 0 <= k < |frames| && frames[k].0 == rec.page && rec.rowIndex < |frames[k].1|
               && rec.cols == SanitizeRow(FillRow(frames[k].1[rec.rowIndex]));
      SanitizeRowSpec(FillRow(frames[k].1[rec.rowIndex]));
    }
  }

  /** `parse_pdfs_to_csv` without the CSV writing: the PDF names of the
      directory listing are parsed one after the other and their records
      concatenated in that order. */
  method ParsePdfs(listing: seq<string>, primary: Engine, secondary: Engine) returns (allRows: seq<Record>)
    ensures allRows == CorpusRecords(PdfNames(listing), primary, secondary)
  {
    var pdfs := PdfNames(listing);
    allRows := [];
    var i := 0;
    while i < |pdfs|
      invariant i <= |pdfs|
      invariant allRows == CorpusRecords(pdfs[..i], primary, secondary)
    {
      CorpusStep(pdfs, primary, secondary, i);
      var recs := ParseFile(pdfs[i], primary, secondary);
      allRows := allRows + recs;
      i := i + 1;
    }
    assert pdfs[..i] == pdfs;
  }

  lemma CorpusStep(names: seq<string>, primary: Engine, secondary: Engine, i: nat)
    requires i < |names|
    ensures CorpusRecords(names[..i + 1], primary, secondary)
            == CorpusRecords(names[..i], primary, secondary)
               + FileRecords(names[i], FramesOf(names[i], primary, secondary))
  {
    var ns := names[..i + 1];
    assert ns[..|ns| - 1] == names[..i];
    assert ns[|ns| - 1] == names[i];
  }

  /** Every record of the extraction artifact comes from a listed PDF name. */
  lemma ParsedFromPdfNamesOnly(listing: seq<string>, primary: Engine, secondary: Engine, rec: Record)
    requires rec in CorpusRecords(PdfNames(listing), primary, secondary)
    ensures rec.sourceFile in listing && IsPdfName(rec.sourceFile)
    ensures |rec.cols| == MAX_COLS
  {
    CorpusRecordsFrom(PdfNames(listing), primary, secondary, rec);
  }
}
