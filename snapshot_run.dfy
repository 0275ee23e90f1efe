/**
 * The snapshot script's run: extract the listing, take the first ten
 * entries, skip those whose title key the master CSV already holds, and
 * for each other entry open its page, look for its PDF and build one new
 * row. The master is rewritten with the new rows after the old ones, and
 * the new rows alone go to the JSON file.
 */
module SnapshotRun {
  import opened Wrappers
  import opened Text
  import opened Page
  import opened Listing
  import opened Catalog
  import opened Dedup
  import opened PdfTiers
  import opened SnapshotNames
  import opened SnapshotOutput

  /**
   * What the run does not compute itself: the detail pages that load, by
   * address (a missing address is a page whose loading raised); the URL
   * helpers; `make_id` (a SHA-1 digest of the three fields); and the clock
   * reading taken when the row of entry `j` is built.
   */
  datatype SnapEnv = SnapEnv(
    pages: map<string, DetailPage>,
    ops: UrlOps,
    makeId: (string, string, string) -> string,
    clock: nat -> string)

  /**
   * `extract_entries_from_listing`: the table pass when there is a table,
   * even one that yields nothing, else the fallback pass. Every entry has
   * a stripped, non-empty title.
   */
  function SnapshotEntries(listing: ListingPage, ops: UrlOps): (r: seq<Candidate>)
    ensures AllStripped(r) && AllTitled(r)
    ensures listing.table.Some? ==>
      (r == [] <==> forall i :: 0 <= i < |listing.table.value| ==> !RowKept(listing.table.value[i], TitleOnly, ops))
  {
    match listing.table
    case Some(rows) =>
      TableStripped(rows, TitleOnly, ops);
      TableCandidatesEmpty(rows, TitleOnly, ops);
      TableCandidates(rows, TitleOnly, ops)
    case None =>
      FallbackStripped(listing.contentAnchors, ops);
      FallbackTitled(listing.contentAnchors, ops);
      FallbackCandidates(listing.contentAnchors, ops)
  }

  method ExtractSnapshotEntries(listing: ListingPage, ops: UrlOps) returns (entries: seq<Candidate>)
    ensures entries == SnapshotEntries(listing, ops)
  {
    if listing.table.Some? {
      entries := CollectTableCandidates(listing.table.value, TitleOnly, ops);
    } else {
      entries := CollectFallbackCandidates(listing.contentAnchors, ops);
    }
  }

  /** A stripped, non-empty title has a non-empty key. */
  lemma TitledKeyNonEmpty(title: string)
    requires title != "" && Stripped(title)
    ensures TitleKey(title) != ""
  {
    TitleKeyEmpty(title);
    assert !IsSpace(title[0]);
  }

  /** `title.strip().lower()` of each entry, in listing order. */
  function SnapKeys(entries: seq<Candidate>): (r: seq<string>)
    ensures |r| == |entries|
  {
    seq(|entries|, k requires 0 <= k < |entries| => TitleKey(entries[k].title))
  }

  /** Entries with stripped, non-empty titles have non-empty keys. */
  lemma SnapKeysNonEmpty(entries: seq<Candidate>)
    requires AllStripped(entries) && AllTitled(entries)
    ensures forall k :: 0 <= k < |entries| ==> SnapKeys(entries)[k] != ""
  {
    forall k | 0 <= k < |entries| ensures SnapKeys(entries)[k] != "" {
      TitledKeyNonEmpty(entries[k].title);
    }
  }

  /**
   * The value of `pdf_url`: what `find_pdf_url_on_page` returns on the
   * entry's page, or None when the page did not load.
   */
  function PdfLinkOf(link: string, env: SnapEnv): (r: Option<string>)
    ensures r.None? <==> link !in env.pages || NoPdfAttribute(env.pages[link].elements)
    ensures r.Some? ==> r == FindPdfUrlOnPage(env.pages[link], FileParamOnly, env.ops)
  {
    if link in env.pages then
      SnapshotFindNone(env.pages[link], env.ops);
      FindPdfUrlOnPage(env.pages[link], FileParamOnly, env.ops)
    else None
  }

  /** The `try` / `except` around the detail page: open it and resolve, or None. */
  method ResolveSnapshotPdf(link: string, env: SnapEnv) returns (pdfUrl: Option<string>)
    ensures pdfUrl == PdfLinkOf(link, env)
  {
    pdfUrl := None;
    if link in env.pages {
      pdfUrl := FindPdfUrl(env.pages[link], FileParamOnly, env.ops);
    }
  }

  /**
   * The row built for a new entry: its id, fields, PDF address or "",
   * the file name made from its title, "no" download, the time it was
   * built and an empty commit.
   */
  function NewRow(e: Candidate, pdfUrl: Option<string>, id: string, createdAt: string): Row
  {
    Row(Some(id), Some(e.date), Some(e.title), Some(e.link), Some(pdfUrl.GetOr("")),
        Some(SafeFilename(e.title, DefaultFallback)), Some("no"), Some(createdAt), Some(""))
  }

  /** The row entry `j` gets when it is new. */
  function RowAt(entries: seq<Candidate>, j: nat, env: SnapEnv): Row
    requires j < |entries|
  {
    var e := entries[j];
    NewRow(e, PdfLinkOf(e.link, env), env.makeId(e.date, e.title, e.link), env.clock(j))
  }

  /** The row each entry would get, by position. */
  function SnapRows(entries: seq<Candidate>, env: SnapEnv): (r: seq<Row>)
    ensures |r| == |entries|
  {
    seq(|entries|, j requires 0 <= j < |entries| => RowAt(entries, j, env))
  }

  /** The `title` cells of the master rows, a missing one read as None. */
  function TitleCellsOf(rows: seq<Row>): (r: seq<Option<string>>)
    ensures |r| == |rows|
  {
    seq(|rows|, k requires 0 <= k < |rows| => rows[k].title)
  }

  /** The key a stored row contributes, "" when it has no title. */
  function RowKey(r: Row): string {
    CellKey(r.title)
  }

  /** The state of the dedup loop after all examined entries, from the master's keys; no write fails. */
  function MergeState(entries: seq<Candidate>, master: seq<Row>): (st: RunState)
    ensures InRange(st.written, |entries|) && |st.written| <= |entries|
  {
    RunKeepsInvariant(SnapKeys(entries), |entries|, KeySet(TitleCellsOf(master)), {});
    RunUpTo(SnapKeys(entries), |entries|, KeySet(TitleCellsOf(master)), {})
  }

  /** `new_entries`: the rows of the entries the loop finds new, in listing order. */
  function NewEntries(entries: seq<Candidate>, master: seq<Row>, env: SnapEnv): (r: seq<Row>)
    ensures |r| <= |entries|
  {
    Select(SnapRows(entries, env), MergeState(entries, master).written)
  }

  /** A new row is keyed by its entry's title key. */
  lemma RowAtKey(entries: seq<Candidate>, j: nat, env: SnapEnv)
    requires j < |entries|
    ensures RowKey(RowAt(entries, j, env)) == SnapKeys(entries)[j]
  {
  }

  /**
   * What the row of entry `j` records: the id `make_id` gives its date,
   * title and link; its own fields; a clean `.pdf` file name made from its
   * title; "no" download; no commit; and the PDF address found on its
   * page, which is empty when the page did not load or no element carries
   * a `.pdf` attribute.
   */
  lemma NewRowFields(entries: seq<Candidate>, j: nat, env: SnapEnv)
    requires j < |entries|
    ensures var e := entries[j];
      var r := RowAt(entries, j, env);
      && r.id == Some(env.makeId(e.date, e.title, e.link))
      && r.date == Some(e.date) && r.title == Some(e.title) && r.link == Some(e.link)
      && r.pdfFilename == Some(SafeFilename(e.title, DefaultFallback))
      && EndsWithPdf(r.pdfFilename.value) && Clean(r.pdfFilename.value)
      && r.pdfDownloaded == Some("no") && r.sourceCommit == Some("") && r.createdAt == Some(env.clock(j))
      && r.pdfLink == Some(PdfLinkOf(e.link, env).GetOr(""))
      && (PdfLinkOf(e.link, env).Some? ==>
            r.pdfLink == Some(FindPdfUrlOnPage(env.pages[e.link], FileParamOnly, env.ops).value))
      && (r.pdfLink == Some("") <== e.link !in env.pages || NoPdfAttribute(env.pages[e.link].elements))
  {
  }

  /** Read back from the master, the selected rows give exactly their entries' keys, when those are non-empty. */
  lemma {:induction false} NewRowsReadBack(rows: seq<Row>, keys: seq<string>, written: seq<nat>)
    requires |rows| == |keys| && InRange(written, |keys|)
    requires forall j :: 0 <= j < |keys| ==> RowKey(rows[j]) == keys[j] && keys[j] != ""
    ensures KeySet(TitleCellsOf(Select(rows, written))) == WrittenKeys(keys, written)
    decreases |written|
  {
    if written != [] {
      var m := |written| - 1;
      var sel := Select(rows, written);
      assert InRange(written[..m], |keys|);
      NewRowsReadBack(rows, keys, written[..m]);
      var cells := TitleCellsOf(sel);
      assert sel[..m] == Select(rows, written[..m]);
      assert cells[..m] == TitleCellsOf(sel[..m]);
      assert CellKey(cells[m]) == keys[written[m] - 1] by {
        assert cells[m] == rows[written[m] - 1].title;
      }
    }
  }

  /** The title cells of two runs of rows, one after the other. */
  lemma TitleCellsAppend(a: seq<Row>, b: seq<Row>)
    ensures TitleCellsOf(a + b) == TitleCellsOf(a) + TitleCellsOf(b)
  {
  }

  /** Every entry row carries its entry's key. */
  lemma SnapRowsKeyed(entries: seq<Candidate>, env: SnapEnv)
    ensures forall j :: 0 <= j < |entries| ==> RowKey(SnapRows(entries, env)[j]) == SnapKeys(entries)[j]
  {
    forall j | 0 <= j < |entries| ensures RowKey(SnapRows(entries, env)[j]) == SnapKeys(entries)[j] {
      RowAtKey(entries, j, env);
    }
  }

  /**
   * After the run, the new master knows the key of every examined entry:
   * its keys are the old master's plus those of the new rows, and every
   * entry was either known already or added.
   */
  lemma MasterCoversEntries(entries: seq<Candidate>, master: seq<Row>, env: SnapEnv)
    requires AllStripped(entries) && AllTitled(entries)
    ensures var newMaster := master + NewEntries(entries, master, env);
      && KeySet(TitleCellsOf(newMaster)) == MergeState(entries, master).titles
      && forall k :: 0 <= k < |entries| ==> SnapKeys(entries)[k] in KeySet(TitleCellsOf(newMaster))
  {
    var keys := SnapKeys(entries);
    var init := KeySet(TitleCellsOf(master));
    var st := MergeState(entries, master);
    RunKeepsInvariant(keys, |entries|, init, {});
    var added := NewEntries(entries, master, env);
    SnapKeysNonEmpty(entries);
    SnapRowsKeyed(entries, env);
    NewRowsReadBack(SnapRows(entries, env), keys, st.written);
    TitleCellsAppend(master, added);
    KeySetAppend(TitleCellsOf(master), TitleCellsOf(added));
    AllKeysKnown(keys, init, {});
  }

  /** Running again over the same entries with the new master finds nothing new. */
  lemma NextSnapshotAddsNothing(entries: seq<Candidate>, master: seq<Row>, env: SnapEnv, env2: SnapEnv)
    requires AllStripped(entries) && AllTitled(entries)
    ensures NewEntries(entries, master + NewEntries(entries, master, env), env2) == []
  {
    var newMaster := master + NewEntries(entries, master, env);
    MasterCoversEntries(entries, master, env);
    RunWithKnownKeys(SnapKeys(entries), |entries|, KeySet(TitleCellsOf(newMaster)), {});
  }

  /** Every row's `title` cell is written as plain text. */
  predicate TitlesPlain(rows: seq<Row>) {
    forall k :: 0 <= k < |rows| ==> PlainText(CellText(rows[k].title))
  }

  /**
   * Writing the master and loading it again keeps its title keys when the
   * pairing round-trips or no title holds a backslash or a CR LF: a
   * missing title is written as "", which has no key.
   */
  lemma WrittenTitleKeys(rows: seq<Row>, io: MasterIo)
    requires io == RoundTrip || TitlesPlain(rows)
    ensures KeySet(TitleCellsOf(ReadBackAll(NormalizeAll(rows), io))) == KeySet(TitleCellsOf(rows))
  {
    var a, b := TitleCellsOf(ReadBackAll(NormalizeAll(rows), io)), TitleCellsOf(rows);
    forall i | 0 <= i < |a| ensures CellKey(a[i]) == CellKey(b[i]) {
      assert a[i] == Some(LoadedCell(CellText(rows[i].title), io));
    }
    KeySetSameKeys(a, b);
  }

  /**
   * Running again over the same entries with the master as written to the
   * CSV, and loaded back, finds nothing new, when the pairing round-trips
   * or no title of the old master or of the entries holds a backslash or
   * a CR LF.
   */
  lemma NextSnapshotFromWritten(entries: seq<Candidate>, master: seq<Row>, env: SnapEnv, env2: SnapEnv, io: MasterIo)
    requires AllStripped(entries) && AllTitled(entries)
    requires io == RoundTrip || (TitlesPlain(master) && forall k :: 0 <= k < |entries| ==> PlainText(entries[k].title))
    ensures var newMaster := master + NewEntries(entries, master, env);
      NewEntries(entries, ReadBackAll(NormalizeAll(newMaster), io), env2) == []
  {
    var added := NewEntries(entries, master, env);
    var newMaster := master + added;
    if io == AsWritten {
      NewEntriesFromEntries(entries, master, env);
      forall k | 0 <= k < |newMaster| ensures PlainText(CellText(newMaster[k].title)) {
        if k >= |master| {
          assert newMaster[k] == added[k - |master|];
        }
      }
    }
    WrittenTitleKeys(newMaster, io);
    NextSnapshotAddsNothing(entries, master, env, env2);
    assert MergeState(entries, ReadBackAll(NormalizeAll(newMaster), io)) == MergeState(entries, newMaster);
  }

  /** The first run over one titled entry with an empty master adds that entry's row. */
  lemma OneEntryFirstRun(e: Candidate, env: SnapEnv)
    requires Stripped(e.title) && e.title != ""
    ensures NewEntries([e], [], env) == [RowAt([e], 0, env)]
  {
    var keys := SnapKeys([e]);
    StripSpec(e.title);
    assert keys[0] != "";
    assert KeySet(TitleCellsOf([])) == {};
    assert MergeState([e], []).written == [1] by {
      assert RunUpTo(keys, 0, {}, {}) == RunState({}, []);
    }
  }

  /** A run over one entry finds it new when the master holds one row of another key. */
  lemma OneEntryAgainstOneRow(e: Candidate, r: Row, env: SnapEnv)
    requires TitleKey(e.title) != RowKey(r)
    ensures |NewEntries([e], [r], env)| == 1
  {
    var keys := SnapKeys([e]);
    var cells := TitleCellsOf([r]);
    assert cells[..0] == [];
    assert KeySet(cells) <= {RowKey(r)};
    assert MergeState([e], [r]).written == [1] by {
      assert keys[0] !in KeySet(cells);
      assert RunUpTo(keys, 0, KeySet(cells), {}) == RunState(KeySet(cells), []);
    }
  }

  /** Two stripped titles of different lengths have different keys. */
  lemma KeysDiffer(a: string, b: string)
    requires Stripped(a) && Stripped(b) && |a| != |b|
    ensures TitleKey(a) != TitleKey(b)
  {
    StripSpec(a);
    StripSpec(b);
  }

  /** The stored form of the title `a\b`: its backslash doubled. */
  lemma BackslashStored()
    ensures LoadedCell("a\\b", AsWritten) == "a\\\\b"
  {
    var title := "a\\b";
    assert DoubleBackslashes(title[2..]) == "b";
    assert DoubleBackslashes(title[1..]) == "\\\\b";
  }

  /** A master of one row, written and loaded again, is one row whose title is the loaded title cell. */
  lemma LoadOneRow(r: Row, io: MasterIo) returns (loaded: Row)
    ensures ReadBackAll(NormalizeAll([r]), io) == [loaded]
    ensures loaded.title == Some(LoadedCell(CellText(r.title), io))
  {
    loaded := ReadBack(NormalizeRow(r), io);
  }

  /**
   * An entry whose title changes key on its way through the file is added
   * on the first run and found new again on the next.
   */
  lemma ReaddedWhenKeyChanges(e: Candidate, env: SnapEnv, env2: SnapEnv, io: MasterIo)
    requires Stripped(e.title) && e.title != ""
    requires TitleKey(LoadedCell(e.title, io)) != TitleKey(e.title)
    ensures var newMaster := NewEntries([e], [], env);
      && |newMaster| == 1
      && |NewEntries([e], ReadBackAll(NormalizeAll(newMaster), io), env2)| == 1
  {
    OneEntryFirstRun(e, env);
    var r := RowAt([e], 0, env);
    assert r.title == Some(e.title);
    var loaded := LoadOneRow(r, io);
    OneEntryAgainstOneRow(e, loaded, env2);
  }

  /**
   * As the code stands, an entry whose title holds a backslash is found
   * new on every run: the master stores the title with the backslash
   * doubled, so the loaded key no longer matches the entry's.
   */
  lemma BackslashTitleReadded(date: string, link: string, env: SnapEnv, env2: SnapEnv)
    ensures var entries := [Candidate(date, "a\\b", link)];
      var newMaster := NewEntries(entries, [], env);
      && |newMaster| == 1
      && |NewEntries(entries, ReadBackAll(NormalizeAll(newMaster), AsWritten), env2)| == 1
  {
    var title, stored := "a\\b", "a\\\\b";
    BackslashStored();
    KeysDiffer(stored, title);
    ReaddedWhenKeyChanges(Candidate(date, title, link), env, env2, AsWritten);
  }

  /** No new row's key is in the old master, and no two new rows share a key. */
  lemma NewEntriesFreshDistinct(entries: seq<Candidate>, master: seq<Row>, env: SnapEnv)
    ensures var added := NewEntries(entries, master, env);
      && (forall k :: 0 <= k < |added| ==> RowKey(added[k]) !in KeySet(TitleCellsOf(master)))
      && (forall p, q :: 0 <= p < q < |added| ==> RowKey(added[p]) != RowKey(added[q]))
  {
    var rows, keys, init := SnapRows(entries, env), SnapKeys(entries), KeySet(TitleCellsOf(master));
    var w := RunUpTo(keys, |keys|, init, {}).written;
    SnapRowsKeyed(entries, env);
    SelectedFresh(rows, RowKey, keys, init, {});
    SelectedDistinct(rows, RowKey, keys, init, {});
    assert NewEntries(entries, master, env) == Select(rows, w);
  }

  /** Stored rows with non-empty keys, no two alike. */
  predicate KeysDistinct(rows: seq<Row>) {
    && (forall k :: 0 <= k < |rows| ==> RowKey(rows[k]) != "")
    && (forall p, q :: 0 <= p < q < |rows| ==> RowKey(rows[p]) != RowKey(rows[q]))
  }

  /** Entries with stripped, non-empty titles give new rows with non-empty keys. */
  lemma NewEntriesKeyed(entries: seq<Candidate>, master: seq<Row>, env: SnapEnv)
    requires AllStripped(entries) && AllTitled(entries)
    ensures var added := NewEntries(entries, master, env);
      forall k :: 0 <= k < |added| ==> RowKey(added[k]) != ""
  {
    var added := NewEntries(entries, master, env);
    var st := MergeState(entries, master);
    NewEntriesFromEntries(entries, master, env);
    SnapKeysNonEmpty(entries);
    forall k | 0 <= k < |added| ensures RowKey(added[k]) != "" {
      RowAtKey(entries, st.written[k] - 1, env);
    }
  }

  /**
   * A master whose keys are non-empty and pairwise distinct stays so once
   * the new rows are appended after it.
   */
  lemma NewMasterDistinct(entries: seq<Candidate>, master: seq<Row>, env: SnapEnv)
    requires AllStripped(entries) && AllTitled(entries)
    requires KeysDistinct(master)
    ensures KeysDistinct(master + NewEntries(entries, master, env))
  {
    var added := NewEntries(entries, master, env);
    var newMaster := master + added;
    var cells := TitleCellsOf(master);
    NewEntriesKeyed(entries, master, env);
    NewEntriesFreshDistinct(entries, master, env);
    forall k | 0 <= k < |newMaster| ensures RowKey(newMaster[k]) != "" {
      if k >= |master| {
        assert newMaster[k] == added[k - |master|];
      }
    }
    forall p, q | 0 <= p < q < |newMaster| ensures RowKey(newMaster[p]) != RowKey(newMaster[q]) {
      if q >= |master| {
        assert newMaster[q] == added[q - |master|];
        if p < |master| {
          assert newMaster[p] == master[p] && cells[p] == master[p].title;
          KeySetMember(cells, RowKey(master[p]));
        } else {
          assert newMaster[p] == added[p - |master|];
        }
      }
    }
  }

  /** Every row of `new_entries` is the row of the examined entry it was built for. */
  lemma NewEntriesFromEntries(entries: seq<Candidate>, master: seq<Row>, env: SnapEnv)
    ensures var st := MergeState(entries, master);
      InRange(st.written, |entries|) &&
      forall k :: 0 <= k < |st.written| ==> NewEntries(entries, master, env)[k] == RowAt(entries, st.written[k] - 1, env)
  {
    SelectAt(SnapRows(entries, env), MergeState(entries, master).written);
  }

  /**
   * A new row whose title gives a file name of at most 150 characters is
   * written to both files exactly as built.
   */
  lemma NewRowWrittenAsBuilt(entries: seq<Candidate>, j: nat, env: SnapEnv)
    requires j < |entries| && |SafeFilename(entries[j].title, DefaultFallback)| <= MaxBase
    ensures NormalizeRow(RowAt(entries, j, env)) == Values(RowAt(entries, j, env))
  {
    NormalizeKeepsFullRow(RowAt(entries, j, env), entries[j].title, DefaultFallback);
  }

  /**
   * The file name written for a 148-letter title is not the one the row
   * was built with: the base is cut again after `.pdf` was appended.
   */
  lemma LongTitleRenamedOnOutput(a: string, e: Candidate, pdfUrl: Option<string>, id: string, createdAt: string)
    requires |a| == 148 && forall i :: 0 <= i < |a| ==> a[i] == 'a'
    requires e.title == a
    ensures NewRow(e, pdfUrl, id, createdAt).pdfFilename == Some(a + PdfSuffix)
    ensures NormalizeRow(NewRow(e, pdfUrl, id, createdAt)).pdfFilename == a + ".p.pdf"
  {
    LetterTitleName(a);
    LetterTitleRename(a);
  }

  /** Lines 243-271 for one new entry: open its page, resolve its PDF, build its row. */
  method BuildRow(entries: seq<Candidate>, j: nat, env: SnapEnv) returns (row: Row)
    requires j < |entries|
    ensures row == RowAt(entries, j, env)
  {
    var e := entries[j];
    var pdfUrl := ResolveSnapshotPdf(e.link, env);
    var entryId := env.makeId(e.date, e.title, e.link);
    row := NewRow(e, pdfUrl, entryId, env.clock(j));
  }

  /**
   * One pass of the loop of lines 234-274 for entry `i`: skip it when its
   * key is known, else build its row, append it and remember the key.
   */
  method MergeEntry(entries: seq<Candidate>, env: SnapEnv, i: nat, titles: set<string>,
                    ghost written: seq<nat>, newEntries: seq<Row>)
    returns (titles': set<string>, ghost written': seq<nat>, newEntries': seq<Row>)
    requires i < |entries| && InRange(written, |entries|)
    requires newEntries == Select(SnapRows(entries, env), written)
    ensures RunState(titles', written') == Step(RunState(titles, written), SnapKeys(entries), i + 1, {})
    ensures InRange(written', |entries|) && newEntries' == Select(SnapRows(entries, env), written')
  {
    var e := entries[i];
    var titleKey := TitleKey(e.title);
    assert titleKey == SnapKeys(entries)[i];
    titles', written', newEntries' := titles, written, newEntries;
    if titleKey !in titles {
      var row := BuildRow(entries, i, env);
      assert row == SnapRows(entries, env)[i];
      SelectSnoc(SnapRows(entries, env), written, i + 1);
      newEntries' := newEntries + [row];
      titles' := titles + {titleKey};
      written' := written + [i + 1];
    }
  }

  /** The loop of lines 234-274, after the master's keys were loaded. */
  method MergeNew(entries: seq<Candidate>, master: seq<Row>, env: SnapEnv)
    returns (newMaster: seq<Row>, newEntries: seq<Row>)
    ensures newEntries == NewEntries(entries, master, env)
    ensures newMaster == master + newEntries
  {
    ghost var keys := SnapKeys(entries);
    ghost var init := KeySet(TitleCellsOf(master));
    var titles := LoadTitleKeys(TitleCellsOf(master));
    newEntries := [];
    ghost var written: seq<nat> := [];
    var i := 0;
    while i < |entries|
      invariant 0 <= i <= |entries|
      invariant RunState(titles, written) == RunUpTo(keys, i, init, {})
      invariant InRange(written, |entries|)
      invariant newEntries == Select(SnapRows(entries, env), written)
    {
      titles, written, newEntries := MergeEntry(entries, env, i, titles, written, newEntries);
      i := i + 1;
    }
    newMaster := master + newEntries;
  }

  /** How a run ends. */
  datatype SnapOutcome =
    | NoEntries                                                            // lines 216-219
    | Written(csvRows: seq<WrittenRow>, jsonRows: seq<WrittenRow>) // lines 278 and 282

  /**
   * `main`: extract the listing, stop when it yields nothing, merge the
   * first ten entries into the master, then write the whole master to
   * the CSV and the new rows to the JSON file, both normalised.
   */
  method RunSnapshot(listing: ListingPage, master: seq<Row>, env: SnapEnv) returns (out: SnapOutcome)
    ensures SnapshotEntries(listing, env.ops) == [] <==> out == NoEntries
    ensures out.Written? ==>
      var added := NewEntries(Examined(SnapshotEntries(listing, env.ops)), master, env);
      out.csvRows == NormalizeAll(master + added) && out.jsonRows == NormalizeAll(added) && |added| <= NumEntries
  {
    var entries := ExtractSnapshotEntries(listing, env.ops);
    if entries == [] {
      return NoEntries;
    }
    entries := Examined(entries);
    var newMaster, newEntries := MergeNew(entries, master, env);
    var csvRows := NormalizeRows(newMaster);
    var jsonRows := NormalizeRows(newEntries);
    return Written(csvRows, jsonRows);
  }
}
