/**
 * The rows the snapshot script writes, and the normalisation both writers
 * apply to each before output: every header column present, a missing or
 * `None` cell written as "", and the file name sanitised once more.
 */
module SnapshotOutput {
  import opened Wrappers
  import opened Text
  import opened SnapshotNames

  /**
   * A row by column: `id`, `date`, `title`, `link`, `pdf_link`,
   * `pdf_filename`, `pdf_downloaded`, `created_at`, `source_commit`. A
   * master row read back from the CSV may lack a column or hold no value
   * for it (None); a new row has a value in every column.
   */
  datatype Row = Row(
    id: Option<string>, date: Option<string>, title: Option<string>, link: Option<string>,
    pdfLink: Option<string>, pdfFilename: Option<string>, pdfDownloaded: Option<string>,
    createdAt: Option<string>, sourceCommit: Option<string>)

  /** A row as written, with a string in each of the nine header columns, in header order. */
  datatype WrittenRow = WrittenRow(
    id: string, date: string, title: string, link: string,
    pdfLink: string, pdfFilename: string, pdfDownloaded: string,
    createdAt: string, sourceCommit: string)

  /** The fallback the writers give `safe_filename` for the file name. */
  const WrittenFallback: string := "document.pdf"

  /** `"" if r.get(k) is None else str(r.get(k))` */
  function CellText(cell: Option<string>): string {
    cell.GetOr("")
  }

  /**
   * One written row: each header column's value or "", then the file
   * name sanitised with `document.pdf` as the fallback.
   */
  function NormalizeRow(r: Row): WrittenRow
  {
    WrittenRow(
      CellText(r.id), CellText(r.date), CellText(r.title), CellText(r.link), CellText(r.pdfLink),
      SafeFilename(CellText(r.pdfFilename), WrittenFallback),
      CellText(r.pdfDownloaded), CellText(r.createdAt), CellText(r.sourceCommit))
  }

  /** The file name a written row carries is a clean name ending in `.pdf`, never longer than 154 characters. */
  lemma WrittenNameSafe(r: Row)
    ensures var name := NormalizeRow(r).pdfFilename;
      EndsWithPdf(name) && Clean(name) && |name| <= MaxBase + 4
  {
  }

  /** A row with a value in every column. */
  predicate Filled(r: Row) {
    && r.id.Some? && r.date.Some? && r.title.Some? && r.link.Some? && r.pdfLink.Some?
    && r.pdfFilename.Some? && r.pdfDownloaded.Some? && r.createdAt.Some? && r.sourceCommit.Some?
  }

  /** The values of a filled row, column by column. */
  function Values(r: Row): WrittenRow
    requires Filled(r)
  {
    WrittenRow(
      r.id.value, r.date.value, r.title.value, r.link.value, r.pdfLink.value,
      r.pdfFilename.value, r.pdfDownloaded.value, r.createdAt.value, r.sourceCommit.value)
  }

  /**
   * A filled row whose file name was made by `safe_filename` and is at
   * most 150 characters long is written unchanged.
   */
  lemma NormalizeKeepsFullRow(r: Row, name: string, fallback: string)
    requires Filled(r)
    requires r.pdfFilename == Some(SafeFilename(name, fallback))
    requires |SafeFilename(name, fallback)| <= MaxBase
    ensures NormalizeRow(r) == Values(r)
  {
    SafeFilenameIdempotent(name, fallback, WrittenFallback);
  }

  /** The rows as written, in the same order. */
  function NormalizeAll(rows: seq<Row>): (out: seq<WrittenRow>)
    ensures |out| == |rows|
  {
    seq(|rows|, k requires 0 <= k < |rows| => NormalizeRow(rows[k]))
  }

  /** Normalising one more row appends its written form. */
  lemma NormalizeAllSnoc(rows: seq<Row>, r: Row)
    ensures NormalizeAll(rows + [r]) == NormalizeAll(rows) + [NormalizeRow(r)]
  {
    var a, b := NormalizeAll(rows + [r]), NormalizeAll(rows) + [NormalizeRow(r)];
    forall k | 0 <= k < |a| ensures a[k] == b[k] {
      assert (rows + [r])[k] == if k < |rows| then rows[k] else r;
    }
  }

  /**
   * How the master's cells travel through the CSV file to the next run.
   * As the code stands (`AsWritten`), `write_csv` escapes with a backslash,
   * so every backslash in a cell goes out as two; `load_master_csv` reads
   * with no escape character and keeps both; and the pass that turns the
   * file's CR LF line ends into LF turns a CR LF inside a cell into LF as
   * well. Under the corrected pairing (`RoundTrip`) every cell is loaded
   * exactly as it was written.
   */
  datatype MasterIo = AsWritten | RoundTrip

  /** A cell with no backslash and no CR LF pair, which the file carries unchanged. */
  predicate PlainText(s: string) {
    && (forall i :: 0 <= i < |s| ==> s[i] != '\\')
    && (forall i :: 0 <= i < |s| - 1 ==> !(s[i] == '\r' && s[i + 1] == '\n'))
  }

  /** The writer's escaping of a cell: each backslash comes out as two. */
  function DoubleBackslashes(s: string): (r: string)
    ensures (forall i :: 0 <= i < |s| ==> s[i] != '\\') ==> r == s
    ensures (exists i :: 0 <= i < |s| && s[i] == '\\') ==> |r| > |s|
    ensures |r| >= |s|
    decreases |s|
  {
    if s == [] then []
    else
      assert forall i :: 1 <= i < |s| ==> s[1..][i - 1] == s[i];
      (if s[0] == '\\' then "\\\\" else [s[0]]) + DoubleBackslashes(s[1..])
  }

  /** The pass over the written file: every CR LF pair becomes LF. */
  function CrLfToLf(s: string): (r: string)
    ensures (forall i :: 0 <= i < |s| - 1 ==> !(s[i] == '\r' && s[i + 1] == '\n')) ==> r == s
    ensures |r| <= |s|
    decreases |s|
  {
    if |s| >= 2 && s[0] == '\r' && s[1] == '\n' then "\n" + CrLfToLf(s[2..])
    else if s == [] then []
    else
      assert forall i :: 1 <= i < |s| ==> s[1..][i - 1] == s[i];
      [s[0]] + CrLfToLf(s[1..])
  }

  /** The text a cell written as `s` holds when the next run loads the master. */
  function LoadedCell(s: string, io: MasterIo): (r: string)
    ensures io == RoundTrip || PlainText(s) ==> r == s
  {
    match io
    case AsWritten => CrLfToLf(DoubleBackslashes(s))
    case RoundTrip => s
  }

  /** Every cell of a written row is plain. */
  predicate PlainRow(w: WrittenRow) {
    && PlainText(w.id) && PlainText(w.date) && PlainText(w.title) && PlainText(w.link)
    && PlainText(w.pdfLink) && PlainText(w.pdfFilename) && PlainText(w.pdfDownloaded)
    && PlainText(w.createdAt) && PlainText(w.sourceCommit)
  }

  /**
   * A written row as `load_master_csv` reads it back: every header column
   * present, holding the text written to it when the pairing round-trips
   * or the row is plain.
   */
  function ReadBack(w: WrittenRow, io: MasterIo): (r: Row)
    ensures Filled(r)
    ensures io == RoundTrip || PlainRow(w) ==> Values(r) == w
  {
    Row(Some(LoadedCell(w.id, io)), Some(LoadedCell(w.date, io)), Some(LoadedCell(w.title, io)),
        Some(LoadedCell(w.link, io)), Some(LoadedCell(w.pdfLink, io)), Some(LoadedCell(w.pdfFilename, io)),
        Some(LoadedCell(w.pdfDownloaded, io)), Some(LoadedCell(w.createdAt, io)),
        Some(LoadedCell(w.sourceCommit, io)))
  }

  /** The rows of a written master as the next run loads them, in order. */
  function ReadBackAll(ws: seq<WrittenRow>, io: MasterIo): (rows: seq<Row>)
    ensures |rows| == |ws|
  {
    seq(|ws|, k requires 0 <= k < |ws| => ReadBack(ws[k], io))
  }

  /** The loops of `write_csv` (lines 166-171) and `write_json` (lines 192-201). */
  method NormalizeRows(rows: seq<Row>) returns (out: seq<WrittenRow>)
    ensures out == NormalizeAll(rows)
  {
    out := [];
    var i := 0;
    while i < |rows|
      invariant 0 <= i <= |rows|
      invariant out == NormalizeAll(rows[..i])
    {
      assert rows[..i + 1] == rows[..i] + [rows[i]];
      NormalizeAllSnoc(rows[..i], rows[i]);
      var safeRow := NormalizeRow(rows[i]);
      out := out + [safeRow];
      i := i + 1;
    }
    assert rows[..i] == rows;
  }
}
