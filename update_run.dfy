/**
 * The per-run catalogue update of the update script: load the title keys
 * of the CSV, take the first ten listing entries, skip those whose key is
 * known, and for each other entry open its page, look for its PDF and
 * append one row, adding the key so that a repeat later in the run is
 * skipped too.
 */
module UpdateRun {
  import opened Wrappers
  import opened Text
  import opened Page
  import opened Listing
  import opened Catalog
  import opened UpdateNames
  import opened UpdateResolve
  import opened Dedup

  /** One appended CSV row, by column. */
  datatype CsvRow = CsvRow(date: string, title: string, link: string, pdfLink: string, pdfFilename: string, pdfDownloaded: string)

  /**
   * What the run does not compute itself: the detail pages that load, by
   * address (a missing address is a page that failed or timed out); the
   * URL helpers; the PDF addresses whose download succeeds; and the entry
   * numbers whose row the CSV writer fails to append.
   */
  datatype Env = Env(pages: map<string, DetailPage>, ops: UrlOps, downloads: set<string>, failedWrites: set<nat>)

  /**
   * Line 290 as written passes two arguments to the one-argument `log`,
   * which raises a `TypeError` that line 309 absorbs; the corrected call
   * passes one.
   */
  datatype LogCall = TwoArguments | OneArgument

  /** `e.get("title", "") or f"entry_{idx}"` */
  function EntryTitle(c: Candidate, idx: nat): (r: string)
    ensures r != ""
  {
    if c.title != "" then c.title else "entry_" + NatToString(idx)
  }

  /** `title_raw.strip().lower()` */
  function EntryKey(c: Candidate, idx: nat): string {
    TitleKey(EntryTitle(c, idx))
  }

  /** The key of the entry at position `k`, which the loop numbers `k + 1`. */
  function KeyAt(entries: seq<Candidate>, k: nat): string
    requires k < |entries|
  {
    EntryKey(entries[k], k + 1)
  }

  /** An entry with a stripped title always has a non-empty key. */
  lemma EntryKeyNonEmpty(c: Candidate, idx: nat)
    requires Stripped(c.title)
    ensures EntryKey(c, idx) != ""
  {
    var t := EntryTitle(c, idx);
    TitleKeyEmpty(t);
    assert !IsSpace(t[0]);
  }

  /**
   * The value of `pdf_url` after line 289: the address the resolver
   * settled on, joined to the page's address; None when the page did not
   * load or nothing true was found.
   */
  function PdfUrlOf(link: string, env: Env): (r: Option<string>)
    ensures r.Some? <==> link in env.pages && ResolvePdf(env.pages[link], env.ops).Some?
    ensures link in env.pages && ResolvePdf(env.pages[link], env.ops).Some? ==>
      r == Some(env.ops.join(env.pages[link].url, ResolvePdf(env.pages[link], env.ops).value))
  {
    if link in env.pages then
      var page := env.pages[link];
      match ResolvePdf(page, env.ops)
      case Some(u) => Some(env.ops.join(page.url, u))
      case None => None
    else None
  }

  /**
   * Lines 288-321 as written: once a PDF address is found the two-argument
   * `log` call raises, so the row keeps the address but records no file
   * and no download.
   */
  function RowAsWritten(c: Candidate, idx: nat, pdfUrl: Option<string>): (r: CsvRow)
    ensures r.pdfDownloaded == "no" && r.pdfFilename == ""
    ensures r.title == EntryTitle(c, idx) && r.date == c.date && r.link == c.link
    ensures r.pdfLink == pdfUrl.GetOr("")
  {
    CsvRow(c.date, EntryTitle(c, idx), c.link, pdfUrl.GetOr(""), "", "no")
  }

  /**
   * Lines 288-321 with a one-argument `log`: a found address is downloaded
   * to the chosen path; the row records the path and "yes" exactly when
   * the download succeeds.
   */
  function RowCorrected(c: Candidate, idx: nat, pdfUrl: Option<string>, env: Env): (r: CsvRow)
    ensures r.title == EntryTitle(c, idx) && r.date == c.date && r.link == c.link
    ensures r.pdfLink == pdfUrl.GetOr("")
    ensures r.pdfDownloaded == "yes" <==> pdfUrl.Some? && pdfUrl.value in env.downloads
    ensures r.pdfDownloaded == "yes" ==> EndsWithPdf(r.pdfFilename) && r.pdfLink in env.downloads
    ensures r.pdfDownloaded == "yes" ==>
      r.pdfFilename == DestPath(ChooseNameForPdf(pdfUrl.value, EntryTitle(c, idx), env.ops))
    ensures r.pdfDownloaded != "yes" ==> r.pdfDownloaded == "no" && r.pdfFilename == ""
  {
    match pdfUrl
    case Some(url) =>
      var dest := DestPath(ChooseNameForPdf(url, EntryTitle(c, idx), env.ops));
      if url in env.downloads then CsvRow(c.date, EntryTitle(c, idx), c.link, url, dest, "yes")
      else CsvRow(c.date, EntryTitle(c, idx), c.link, url, "", "no")
    case None => CsvRow(c.date, EntryTitle(c, idx), c.link, "", "", "no")
  }

  function RowFor(call: LogCall, c: Candidate, idx: nat, pdfUrl: Option<string>, env: Env): (r: CsvRow)
    ensures r.title == EntryTitle(c, idx) && r.pdfLink == pdfUrl.GetOr("")
  {
    match call
    case TwoArguments => RowAsWritten(c, idx, pdfUrl)
    case OneArgument => RowCorrected(c, idx, pdfUrl, env)
  }

  /** The row appended for entry number `idx`. */
  function EntryRow(call: LogCall, c: Candidate, idx: nat, env: Env): (r: CsvRow)
    ensures r.title == EntryTitle(c, idx)
  {
    RowFor(call, c, idx, PdfUrlOf(c.link, env), env)
  }

  /** The key an appended row contributes when the CSV is read again. */
  function RowKey(r: CsvRow): string {
    TitleKey(r.title)
  }

  /** The keys of all entries, in listing order. */
  function EntryKeys(entries: seq<Candidate>): (r: seq<string>)
    ensures |r| == |entries|
  {
    seq(|entries|, k requires 0 <= k < |entries| => KeyAt(entries, k))
  }

  /** The row each entry would get, by position: entry `j` is numbered `j + 1`. */
  function EntryRows(entries: seq<Candidate>, call: LogCall, env: Env): (r: seq<CsvRow>)
    ensures |r| == |entries|
    ensures forall j :: 0 <= j < |entries| ==> RowKey(r[j]) == EntryKeys(entries)[j]
  {
    seq(|entries|, j requires 0 <= j < |entries| => EntryRow(call, entries[j], j + 1, env))
  }

  /** The rows appended for the given entry numbers, in order. */
  function RowsOf(entries: seq<Candidate>, written: seq<nat>, call: LogCall, env: Env): (r: seq<CsvRow>)
    requires InRange(written, |entries|)
    ensures |r| == |written|
  {
    Select(EntryRows(entries, call, env), written)
  }

  /** The `title` cells the appended rows add to the CSV. */
  function TitleCells(rows: seq<CsvRow>): (r: seq<Option<string>>)
    ensures |r| == |rows|
    decreases |rows|
  {
    if rows == [] then [] else TitleCells(rows[..|rows| - 1]) + [Some(rows[|rows| - 1].title)]
  }

  /** Read back from the CSV, the selected rows give exactly their entries' keys, when those are non-empty. */
  lemma {:induction false} RowsReadBack(rows: seq<CsvRow>, keys: seq<string>, written: seq<nat>)
    requires |rows| == |keys| && InRange(written, |keys|)
    requires forall j :: 0 <= j < |keys| ==> TitleKey(rows[j].title) == keys[j] && keys[j] != ""
    ensures KeySet(TitleCells(Select(rows, written))) == WrittenKeys(keys, written)
    decreases |written|
  {
    if written != [] {
      var m := |written| - 1;
      var sel := Select(rows, written);
      assert InRange(written[..m], |keys|);
      RowsReadBack(rows, keys, written[..m]);
      assert sel[..m] == Select(rows, written[..m]);
      assert TitleCells(sel)[..m] == TitleCells(sel[..m]);
    }
  }

  /**
   * Running twice is running once, for any rows that carry their entries'
   * non-empty keys: when no write failed, the next run, reading the CSV
   * with the appended rows, skips every entry.
   */
  lemma ReRunAddsNothing(cells: seq<Option<string>>, rows: seq<CsvRow>, keys: seq<string>, failedWrites: set<nat>, failed2: set<nat>)
    requires |rows| == |keys|
    requires forall j :: 0 <= j < |keys| ==> TitleKey(rows[j].title) == keys[j] && keys[j] != ""
    requires forall idx :: 1 <= idx <= |keys| ==> idx !in failedWrites
    ensures var first := RunUpTo(keys, |keys|, KeySet(cells), failedWrites);
      InRange(first.written, |keys|) &&
      RunUpTo(keys, |keys|, KeySet(cells + TitleCells(Select(rows, first.written))), failed2).written == []
  {
    var init := KeySet(cells);
    var first := RunUpTo(keys, |keys|, init, failedWrites);
    RunKeepsInvariant(keys, |keys|, init, failedWrites);
    var sel := Select(rows, first.written);
    RowsReadBack(rows, keys, first.written);
    KeySetAppend(cells, TitleCells(sel));
    var next := KeySet(cells + TitleCells(sel));
    assert next == first.titles;
    AllKeysKnown(keys, init, failedWrites);
    RunWithKnownKeys(keys, |keys|, first.titles, failed2);
  }

  /** The update script's own run, twice over the same listing: the second appends nothing. */
  lemma NextRunAddsNothing(cells: seq<Option<string>>, entries: seq<Candidate>, call: LogCall, env: Env, failed2: set<nat>)
    requires forall k :: 0 <= k < |entries| ==> EntryKeys(entries)[k] != ""
    requires forall idx :: 1 <= idx <= |entries| ==> idx !in env.failedWrites
    ensures var first := RunUpTo(EntryKeys(entries), |entries|, KeySet(cells), env.failedWrites);
      InRange(first.written, |entries|) &&
      RunUpTo(EntryKeys(entries), |entries|, KeySet(cells + TitleCells(RowsOf(entries, first.written, call, env))), failed2).written == []
  {
    ReRunAddsNothing(cells, EntryRows(entries, call, env), EntryKeys(entries), env.failedWrites, failed2);
  }

  /** No row's key was known before the run. */
  predicate RowsFresh(init: set<string>, rows: seq<CsvRow>) {
    forall k :: 0 <= k < |rows| ==> RowKey(rows[k]) !in init
  }

  /** No two rows share a key. */
  predicate KeysDistinct(rows: seq<CsvRow>) {
    forall p, q :: 0 <= p < q < |rows| ==> RowKey(rows[p]) != RowKey(rows[q])
  }

  /**
   * The rows a run appends: at most one per entry examined, none with a
   * key known before the run, no two with the same key.
   */
  lemma RunRows(entries: seq<Candidate>, init: set<string>, call: LogCall, env: Env)
    ensures var st := RunUpTo(EntryKeys(entries), |entries|, init, env.failedWrites);
      InRange(st.written, |entries|) &&
      var rows := RowsOf(entries, st.written, call, env);
      |rows| <= |entries| && RowsFresh(init, rows) && KeysDistinct(rows)
  {
    SelectedFresh(EntryRows(entries, call, env), RowKey, EntryKeys(entries), init, env.failedWrites);
    SelectedDistinct(EntryRows(entries, call, env), RowKey, EntryKeys(entries), init, env.failedWrites);
  }

  /** Every row has no file and "no" download. */
  predicate NothingDownloaded(rows: seq<CsvRow>) {
    forall k :: 0 <= k < |rows| ==> rows[k].pdfDownloaded == "no" && rows[k].pdfFilename == ""
  }

  /** As written, no row ever records a download, whatever the pages and the network do. */
  lemma AsWrittenRowNoDownload(c: Candidate, idx: nat, env: Env)
    ensures var r := EntryRow(TwoArguments, c, idx, env);
      r.pdfDownloaded == "no" && r.pdfFilename == ""
  {
  }

  lemma AsWrittenNeverDownloads(entries: seq<Candidate>, written: seq<nat>, env: Env)
    requires InRange(written, |entries|)
    ensures NothingDownloaded(RowsOf(entries, written, TwoArguments, env))
  {
    var all := EntryRows(entries, TwoArguments, env);
    forall j | 0 <= j < |all| ensures all[j].pdfDownloaded == "no" && all[j].pdfFilename == "" {
      AsWrittenRowNoDownload(entries[j], j + 1, env);
    }
    SelectNothingDownloaded(all, written);
  }

  /** Selecting from rows none of which records a download gives such rows. */
  lemma SelectNothingDownloaded(all: seq<CsvRow>, written: seq<nat>)
    requires InRange(written, |all|) && NothingDownloaded(all)
    ensures NothingDownloaded(Select(all, written))
  {
    SelectAt(all, written);
  }

  /**
   * The discrepancy line 290 causes: for an entry whose PDF address is
   * found and downloadable, the row as written records no download while
   * the corrected row records it.
   */
  lemma AsWrittenLosesDownload(c: Candidate, idx: nat, env: Env)
    requires PdfUrlOf(c.link, env).Some? && PdfUrlOf(c.link, env).value in env.downloads
    ensures EntryRow(TwoArguments, c, idx, env).pdfDownloaded == "no"
    ensures EntryRow(OneArgument, c, idx, env).pdfDownloaded == "yes"
    ensures EntryRow(TwoArguments, c, idx, env).pdfLink == PdfUrlOf(c.link, env).value
    ensures EntryRow(OneArgument, c, idx, env).pdfLink == PdfUrlOf(c.link, env).value
  {
  }

  /** A corrected run records "yes" only with a `.pdf` file and an address whose download succeeded. */
  predicate DownloadsRecorded(rows: seq<CsvRow>, env: Env) {
    forall k :: 0 <= k < |rows| ==>
      (rows[k].pdfDownloaded == "yes" ==> EndsWithPdf(rows[k].pdfFilename) && rows[k].pdfLink in env.downloads)
  }

  lemma CorrectedRowRecordsDownload(c: Candidate, idx: nat, env: Env)
    ensures var r := EntryRow(OneArgument, c, idx, env);
      r.pdfDownloaded == "yes" ==> EndsWithPdf(r.pdfFilename) && r.pdfLink in env.downloads
  {
  }

  lemma CorrectedRecordsDownloads(entries: seq<Candidate>, written: seq<nat>, env: Env)
    requires InRange(written, |entries|)
    ensures DownloadsRecorded(RowsOf(entries, written, OneArgument, env), env)
  {
    var all := EntryRows(entries, OneArgument, env);
    forall j | 0 <= j < |all| && all[j].pdfDownloaded == "yes"
      ensures EndsWithPdf(all[j].pdfFilename) && all[j].pdfLink in env.downloads
    {
      CorrectedRowRecordsDownload(entries[j], j + 1, env);
    }
    SelectDownloadsRecorded(all, written, env);
  }

  /** Selecting from rows whose downloads are all recorded gives such rows. */
  lemma SelectDownloadsRecorded(all: seq<CsvRow>, written: seq<nat>, env: Env)
    requires InRange(written, |all|) && DownloadsRecorded(all, env)
    ensures DownloadsRecorded(Select(all, written), env)
  {
    SelectAt(all, written);
  }

  /** Lines 203-205: the table entries, or the fallback's when the table gives none. */
  function UpdateEntries(listing: ListingPage, ops: UrlOps): (r: seq<Candidate>)
    ensures AllStripped(r)
  {
    var table := match listing.table case Some(rows) => TableCandidates(rows, TitleOrDate, ops) case None => [];
    if table != [] then
      TableStripped(listing.table.value, TitleOrDate, ops);
      table
    else
      FallbackStripped(listing.contentAnchors, ops);
      FallbackCandidates(listing.contentAnchors, ops)
  }

  /** Every listing entry has a non-empty key. */
  lemma UpdateEntriesKeyed(listing: ListingPage, ops: UrlOps, j: nat)
    requires j < |UpdateEntries(listing, ops)|
    ensures EntryKeys(UpdateEntries(listing, ops))[j] != ""
  {
    EntryKeyNonEmpty(UpdateEntries(listing, ops)[j], j + 1);
  }

  method ExtractUpdateEntries(listing: ListingPage, ops: UrlOps) returns (entries: seq<Candidate>)
    ensures entries == UpdateEntries(listing, ops)
  {
    entries := [];
    if listing.table.Some? {
      entries := CollectTableCandidates(listing.table.value, TitleOrDate, ops);
    }
    if entries == [] {
      entries := CollectFallbackCandidates(listing.contentAnchors, ops);
    }
  }

  /** How a run ends. */
  datatype Outcome =
    | NoEntries                               // lines 207-210
    | CsvNotWritable                          // lines 219-222
    | Appended(rows: seq<CsvRow>, added: nat) // lines 330-332

  /** Lines 243-303 for one entry: open its page, resolve its PDF, build its row. */
  method ProcessEntry(call: LogCall, e: Candidate, idx: nat, env: Env) returns (row: CsvRow)
    ensures row == EntryRow(call, e, idx, env)
  {
    var pdfUrl: Option<string> := None;
    if e.link in env.pages {
      var page := env.pages[e.link];
      var found := ResolveEntryPdf(page, env.ops);
      if found.Some? {
        pdfUrl := Some(env.ops.join(page.url, found.value));
      }
    }
    row := RowFor(call, e, idx, pdfUrl, env);
  }

  /**
   * One pass of the loop of lines 231-328 for entry number `i + 1`: skip
   * it when its key is known, else open its page and, unless writing its
   * row raised, append the row and remember the key.
   */
  method AppendEntry(entries: seq<Candidate>, i: nat, call: LogCall, env: Env,
                     titles: set<string>, ghost written: seq<nat>, rows: seq<CsvRow>, added: nat)
    returns (titles': set<string>, ghost written': seq<nat>, rows': seq<CsvRow>, added': nat)
    requires i < |entries| && InRange(written, |entries|)
    requires rows == Select(EntryRows(entries, call, env), written) && added == |rows|
    ensures RunState(titles', written') == Step(RunState(titles, written), EntryKeys(entries), i + 1, env.failedWrites)
    ensures InRange(written', |entries|) && rows' == Select(EntryRows(entries, call, env), written')
    ensures added' == |rows'|
  {
    titles', written', rows', added' := titles, written, rows, added;
    var idx := i + 1;
    var e := entries[i];
    var titleKey := EntryKey(e, idx);
    assert titleKey == EntryKeys(entries)[i];
    if titleKey !in titles {
      var row := ProcessEntry(call, e, idx, env);
      if idx !in env.failedWrites {
        assert row == EntryRows(entries, call, env)[i];
        SelectSnoc(EntryRows(entries, call, env), written, idx);
        rows' := rows + [row];
        written' := written + [idx];
        titles' := titles + {titleKey};
        added' := added + 1;
      }
    }
  }

  /** The row-by-row loop of lines 231-328. */
  method AppendNewEntries(entries: seq<Candidate>, init: set<string>, call: LogCall, env: Env)
    returns (titles: set<string>, rows: seq<CsvRow>, added: nat)
    ensures var st := RunUpTo(EntryKeys(entries), |entries|, init, env.failedWrites);
      InRange(st.written, |entries|) && titles == st.titles && rows == RowsOf(entries, st.written, call, env)
    ensures added == |rows|
  {
    ghost var keys := EntryKeys(entries);
    ghost var all := EntryRows(entries, call, env);
    titles := init;
    rows := [];
    added := 0;
    ghost var written: seq<nat> := [];
    var i := 0;
    while i < |entries|
      invariant 0 <= i <= |entries|
      invariant RunState(titles, written) == RunUpTo(keys, i, init, env.failedWrites)
      invariant InRange(written, |entries|)
      invariant rows == Select(all, written)
      invariant added == |rows|
    {
      titles, written, rows, added := AppendEntry(entries, i, call, env, titles, written, rows, added);
      i := i + 1;
    }
  }

  /**
   * `main`: load the CSV's keys, extract the listing, stop when it is
   * empty or the CSV cannot be opened, then run the loop over the first
   * ten entries. The rows appended are fresh, pairwise distinct by key,
   * at most ten, and counted by `added`.
   */
  method RunUpdate(csvTitles: seq<Option<string>>, listing: ListingPage, csvOpens: bool, call: LogCall, env: Env)
    returns (out: Outcome)
    ensures UpdateEntries(listing, env.ops) == [] ==> out == NoEntries
    ensures UpdateEntries(listing, env.ops) != [] && !csvOpens ==> out == CsvNotWritable
    ensures UpdateEntries(listing, env.ops) != [] && csvOpens ==>
      var entries := Examined(UpdateEntries(listing, env.ops));
      var st := RunUpTo(EntryKeys(entries), |entries|, KeySet(csvTitles), env.failedWrites);
      InRange(st.written, |entries|) && out == Appended(RowsOf(entries, st.written, call, env), |st.written|)
    ensures out.Appended? ==>
      |out.rows| <= NumEntries && RowsFresh(KeySet(csvTitles), out.rows) && KeysDistinct(out.rows)
  {
    var existing := LoadTitleKeys(csvTitles);
    var entries := ExtractUpdateEntries(listing, env.ops);
    if entries == [] {
      return NoEntries;
    }
    entries := Examined(entries);
    if !csvOpens {
      return CsvNotWritable;
    }
    var titles, rows, added := AppendNewEntries(entries, existing, call, env);
    RunRows(entries, existing, call, env);
    return Appended(rows, added);
  }
}
