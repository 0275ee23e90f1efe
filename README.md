# SEBI circular scrapers, modelled in Dafny

This project models the core of two scrapers that keep a catalogue of the
circulars on the SEBI listing page.

- **The update script** (`sebi_update_and_download_missing.py`) runs on each invocation. It:
  - loads the title keys already in its CSV;
  - extracts the listing and takes the first ten entries;
  - skips every entry whose stripped, lower-cased title is already known;
  - for each other entry, opens the detail page and resolves the PDF address through several tiers;
  - tries to download the PDF under `pdfs/` (as written it never does; see below) and appends one CSV row;
  - remembers the new key, so a repeat later in the same run is skipped.
- **The snapshot script** (`sebi_make_two_csvs.py`) runs the same dedup loop against a master CSV. It:
  - does not download;
  - builds a nine-column row for each new entry;
  - rewrites the master with the new rows after the old ones;
  - writes the new rows alone to a JSON file.
  
  Both writers pass each row through a normaliser that sanitises the file name once more.

Modules and what they hold:

- `Text`: the Python string operations the scripts use.
  - `strip`, ASCII `lower`, `in`, `endswith`, `replace`;
  - `re.sub` of a character-class run;
  - the sanitising chain both `safe_filename` versions share.
- `Page`: the rendered pages as data.
  - elements in document order, frames, table rows, anchors;
  - the URL helpers as uninterpreted functions.
- `Listing`: the table pass and the fallback anchor pass, as functions and as the loops that compute them.
- `Catalog`: the set of known title keys, and the loop that loads it.
- `Dedup`: the dedup loop over the entries' keys.
  - It is stated as a fold `RunUpTo` over `Step`.
  - Lemmas cover the invariant it keeps, completeness, and "a second run adds nothing".
- `PdfTiers`: `find_pdf_url_on_page`, which both scripts define.
  - its targeted-selector, scan and iframe tiers;
  - the proof that the iframe `file=` rule can never fire.
- `UpdateNames`: the update script's naming.
  - its own `safe_filename`, `choose_name_for_pdf`;
  - the destination path under `pdfs/`.
- `UpdateResolve`: the update script's resolution chain.
  - resolver, then anchor heuristic, then frames;
  - the proof that the anchor heuristic can never fire.
- `UpdateRun`: the update script's `main` as methods with loops, proved against the `Dedup` fold.
- `SnapshotNames`: the snapshot script's `safe_filename`.
  - It is idempotent up to 150 characters.
  - A counterexample shows it is not idempotent above that.
- `SnapshotOutput`: the row normalisation of `write_csv` and `write_json`.
- `SnapshotRun`: the snapshot script's `main`.

Each loop of the source is a method whose `while` loop carries the invariants. Its postcondition ties the result to a specification function, and the properties the scripts promise are lemmas about those functions:

- freshness and distinctness of the appended rows;
- idempotence of a second run;
- what a row records;
- which tiers can fire.

Two behaviours of the source are worth knowing:

- **The update script never downloads.**
  - Line 290 calls the one-parameter `log` with two arguments.
  - So every entry whose PDF address is found raises a `TypeError`, and line 309 swallows it.
  - The row keeps the address but records no file and `no` download (see Findings).
  - The model carries both the call as written and the corrected call (`UpdateRun.LogCall`).
- **The snapshot script can rename a file on output.**
  - A title of 148 letters gets the 152-character name `aaa….pdf` when its row is built.
  - Re-sanitising that name when it is written cuts it to 150 characters and appends the suffix again, giving `aaa….p.pdf`.
  - The name written is therefore not the one built (`SnapshotRun.LongTitleRenamedOnOutput`).
  - Below 151 characters, the written row equals the built row (`SnapshotRun.NewRowWrittenAsBuilt`).

Where the update script's docstring and its code differ, the model follows the code:

- The docstring (`sebi_update_and_download_missing.py:9-11`) promises that each new entry's PDF is downloaded and its row records `downloaded=yes`. The code as written never downloads (line 290), and the model carries both that behaviour and the corrected one.
- The row is written after the `try` (lines 313-321), so `pdf_link` keeps the joined address from line 289 even when a later step raises. The model's rows record that address whichever `log` call is used.

## Model

| member | source | states |
|---|---|---|
| Text.TrimStartSpec | sebi_update_and_download_missing.py:54-55 | `lstrip` removes exactly a leading run of whitespace and keeps the rest of the text as a suffix |
| Text.TrimEndSpec | sebi_update_and_download_missing.py:54-55 | `rstrip` removes exactly a trailing run of whitespace and keeps the rest of the text as a prefix |
| Text.StripSpec | sebi_update_and_download_missing.py:54-55 | `normalize_text`'s `strip` gives a text that starts and ends with no whitespace, is empty exactly when the input is blank, and is the input itself when that was already stripped |
| Text.StripIdempotent | sebi_make_two_csvs.py:51-52 | normalising a normalised text changes nothing |
| Text.TitleKeyEmpty | sebi_update_and_download_missing.py:66-67 | the dedup key `strip().lower()` is empty exactly when the title is blank, which is why blank titles never become keys |
| Text.SubRunsShape | sebi_update_and_download_missing.py:41-42 | `re.sub` of a run pattern leaves text exactly when it was given text, and what remains is the replacement or characters outside the class |
| Text.SubRunsNoAdjacent | sebi_update_and_download_missing.py:42 | after the substitution no two characters of the class stand side by side |
| Text.SubRunsFree | sebi_update_and_download_missing.py:41-42 | a class that neither the input nor the replacement contains stays absent, so collapsing whitespace brings back no illegal character |
| Text.SubRunsIdentity | sebi_make_two_csvs.py:35-37 | a text whose class characters are already single replacements is left unchanged by the substitution |
| Text.SanitiseSpec | sebi_update_and_download_missing.py:40-42 | the sanitising chain yields a clean name: no character illegal in file names, no whitespace but the plain space, no two spaces in a row; it is never longer than the input and is empty exactly when the input is blank |
| Text.SubRunsFirst | sebi_make_two_csvs.py:35-37 | the substitution keeps the first character, or puts the replacement in its place when it is of the class |
| Text.SubRunsLast | sebi_make_two_csvs.py:35-37 | the substitution keeps the last character, or puts the replacement in its place when it is of the class |
| Text.SanitiseStripped | sebi_make_two_csvs.py:33-37 | a sanitised text neither starts nor ends with whitespace |
| Text.SanitiseFixesClean | sebi_make_two_csvs.py:33-37 | the chain leaves a clean, stripped text unchanged |
| Text.AppendPdf | sebi_update_and_download_missing.py:293-294 | appending `.pdf` always passes the case-insensitive `.pdf` suffix test |
| Text.LowerContains | sebi_update_and_download_missing.py:142 | lower-casing never destroys an occurrence of a substring |
| Text.ContainsPdfHasPdf | sebi_update_and_download_missing.py:128-143 | a value a `*='.pdf'` selector matches also passes the case-insensitive `".pdf" in v.lower()` test |
| Text.EndsWithPdfHasPdf | sebi_update_and_download_missing.py:128-143 | a value a `$='.pdf'` selector matches also passes that test |
| Text.EndsWithPdfAfterSlash | sebi_update_and_download_missing.py:293 | behind `pdfs/`, the path passes the `.pdf` test exactly when the name does |
| Text.NatToString | sebi_update_and_download_missing.py:234 | `str(idx)` is never empty |
| Listing.TableCandidates | sebi_update_and_download_missing.py:76-99 | the table pass gives at most one entry per row, and every entry satisfies the script's keep rule (`title or date` in one script, `title` in the other) |
| Listing.TableCandidatesAppend | sebi_update_and_download_missing.py:82-98 | the table pass is a filter: the entries of two runs of rows are the entries of the first run followed by those of the second |
| Listing.TableCandidatesOne | sebi_update_and_download_missing.py:83-98 | one row yields its entry exactly when it has a cell and passes the keep rule |
| Listing.TableCandidatesEmpty | sebi_update_and_download_missing.py:76-99 | the table pass yields nothing exactly when no row is kept |
| Listing.TableStripped | sebi_update_and_download_missing.py:86-96 | every title of the table pass is stripped |
| Listing.CollectTableCandidates | sebi_update_and_download_missing.py:80-99 | the row loop computes exactly the table pass |
| Listing.FallbackKeys | sebi_update_and_download_missing.py:101-122 | the fallback's `seen` set ends as exactly the (title, link) pairs of the anchors that have a title |
| Listing.FallbackComplete | sebi_update_and_download_missing.py:105-121 | every titled anchor's (title, link) pair is among the results: only repeats are dropped |
| Listing.FallbackTitled | sebi_update_and_download_missing.py:110 | no fallback entry has an empty title |
| Listing.FallbackStripped | sebi_update_and_download_missing.py:106 | every fallback title is stripped |
| Listing.FallbackDistinct | sebi_update_and_download_missing.py:109-121 | the (title, link) pairs of the fallback entries are pairwise distinct |
| Listing.CollectFallbackCandidates | sebi_update_and_download_missing.py:101-122 | the anchor loop with its `seen` set computes exactly the fallback pass; its entries have titles and distinct pairs |
| Catalog.KeySet | sebi_update_and_download_missing.py:57-72 | the set of known keys never holds the empty key |
| Catalog.KeySetMember | sebi_update_and_download_missing.py:65-68 | a key is known exactly when it is non-empty and some stored row's title yields it |
| Catalog.BlankTitleNoKey | sebi_update_and_download_missing.py:66-68 | a stored row with a blank title adds no key |
| Catalog.LoadTitleKeys | sebi_update_and_download_missing.py:57-72 | the loop over the stored rows builds exactly the set of known keys |
| Catalog.KeySetAppend | sebi_make_two_csvs.py:223-231 | the keys of two runs of rows are the union of their keys |
| Catalog.KeySetSameKeys | sebi_make_two_csvs.py:223-228 | title cells that give the same keys position by position give the same known keys |
| Dedup.StepKeepsInvariant | sebi_update_and_download_missing.py:239-325 | appending an entry whose key is new keeps the loop invariant |
| Dedup.RunKeepsInvariant | sebi_update_and_download_missing.py:231-328 | at every point of the loop, the known keys are the initial ones plus those of the rows appended; rows follow listing order; no row's key was known before; no two rows share a key; at most one row per entry |
| Dedup.RunComplete | sebi_update_and_download_missing.py:239-328 | after the loop, the key of every entry whose row did not fail to be written is known |
| Dedup.AllKeysKnown | sebi_update_and_download_missing.py:239-328 | when no write fails, every entry's key is known after the loop |
| Dedup.RunWithKnownKeys | sebi_update_and_download_missing.py:239-241 | a run over entries whose keys are all known appends nothing and learns nothing |
| Dedup.RunFreshDistinct | sebi_update_and_download_missing.py:239-325 | the keys of the appended entries were unknown before the run and are pairwise distinct |
| Dedup.SelectedFresh | sebi_update_and_download_missing.py:239-324 | for rows keyed by their entries, the rows a run selects have keys unknown before it (the snapshot script's lines 239-274 select the same way) |
| Dedup.SelectedDistinct | sebi_update_and_download_missing.py:239-324 | for rows keyed by their entries, no two rows a run selects share a key |
| PdfTiers.QuerySelector | sebi_update_and_download_missing.py:138 | the element found is on the page and matches the selector; nothing is found exactly when no element matches |
| PdfTiers.PdfAttr | sebi_update_and_download_missing.py:140-143 | the value returned mentions `.pdf` in some case; nothing is returned exactly when none of the named attributes does |
| PdfTiers.TargetedTier | sebi_update_and_download_missing.py:137-143 | any value the eight selectors find mentions `.pdf` |
| PdfTiers.ScanTier | sebi_update_and_download_missing.py:146-154 | the scan finds a `.pdf` value, and finds nothing exactly when no element has one among `src`, `href`, `data`, `data-src` |
| PdfTiers.ScanNoneIff | sebi_update_and_download_missing.py:146-154 | the scan finds nothing exactly when no element carries a `.pdf` attribute |
| PdfTiers.TargetedNeedsPdfAttribute | sebi_update_and_download_missing.py:137-154 | the targeted tier finds a value only on a page the scan tier would also find one on |
| PdfTiers.FirstMatch | sebi_update_and_download_missing.py:161 | `re.search` finds the leftmost match at or after the start, and reports none only when there is none |
| PdfTiers.AmpFreePrefix | sebi_update_and_download_missing.py:161 | `[^&]+` takes the longest prefix without `&` |
| PdfTiers.SearchGroup | sebi_update_and_download_missing.py:161-163 | the captured group is non-empty and holds no `&`; there is none exactly when the pattern matches nowhere |
| PdfTiers.FileCandidate | sebi_update_and_download_missing.py:159-165 | the `file=` rule gives a value only when the `src` and the decoded candidate both contain `.pdf` |
| PdfTiers.ViewerCandidate | sebi_update_and_download_missing.py:166-171 | the viewer rule gives a value only for a `pdfjs` or `viewer` frame, and that value contains `.pdf` |
| PdfTiers.IframeTier | sebi_update_and_download_missing.py:157-172 | any value of the iframe tier contains `.pdf` |
| PdfTiers.ViewerTier | sebi_update_and_download_missing.py:166-171 | any value of the viewer rule contains `.pdf` |
| PdfTiers.AttributeTiers | sebi_update_and_download_missing.py:127-154 | the first two tiers give a `.pdf` value, and nothing exactly when no element carries a `.pdf` attribute |
| PdfTiers.FindPdfUrlOnPage | sebi_update_and_download_missing.py:126-172 | the resolver finds nothing exactly when no element has a `.pdf` attribute and the iframe tier finds nothing |
| PdfTiers.FileCandidateUnreachable | sebi_update_and_download_missing.py:159-165 | on a page without `.pdf` attributes the `file=` rule never fires |
| PdfTiers.IframeTierWithoutPdfAttribute | sebi_update_and_download_missing.py:157-172 | on such a page the iframe tier is the viewer rule alone, and nothing at all in the snapshot script |
| PdfTiers.FileParamTierDead | sebi_make_two_csvs.py:83-91 | in both scripts, the resolver equals the attribute tiers followed only by the viewer rule (update script) or by nothing (snapshot script) |
| PdfTiers.SnapshotFindNone | sebi_make_two_csvs.py:55-92 | the snapshot script's resolver finds nothing exactly when no element carries a `.pdf` attribute |
| PdfTiers.UpdateFindNone | sebi_update_and_download_missing.py:126-172 | the update script's resolver finds nothing exactly when no element carries a `.pdf` attribute and no viewer frame names a `.pdf` |
| PdfTiers.FirstPdfAttr | sebi_update_and_download_missing.py:140-143 | the attribute loop returns the first `.pdf` attribute value |
| PdfTiers.TryTargetedSelectors | sebi_update_and_download_missing.py:137-143 | the selector loop computes the targeted tier |
| PdfTiers.ScanAllElements | sebi_update_and_download_missing.py:146-154 | the element loop computes the scan tier |
| PdfTiers.ScanIframes | sebi_update_and_download_missing.py:157-171 | the iframe loop computes the iframe tier |
| PdfTiers.FindPdfUrl | sebi_update_and_download_missing.py:126-172 | the method with early returns computes the resolver, and returns nothing exactly when no element has a `.pdf` attribute and the iframe tier finds nothing |
| UpdateNames.SafeFilename | sebi_update_and_download_missing.py:39-45 | a blank input gives the fallback; any other gives a non-empty, clean prefix of the sanitised text whose length is that text's, capped at 180 |
| UpdateNames.SafeFilenameFixes | sebi_update_and_download_missing.py:39-45 | a clean, stripped name of at most 180 characters is kept as it is |
| UpdateNames.TitleNameClean | sebi_update_and_download_missing.py:51-52 | the title-based name is clean even when it is the `document` fallback |
| UpdateNames.ChooseNameForPdf | sebi_update_and_download_missing.py:47-52 | the chosen name is non-empty and clean; a URL segment with a dot gives the prefix of its sanitised text capped at 180 characters; any other gives the sanitised title plus `.pdf` |
| UpdateNames.TitleNamePdfClean | sebi_update_and_download_missing.py:51-52 | the sanitised title with `.pdf` appended is a clean file name |
| UpdateNames.DestPath | sebi_update_and_download_missing.py:292-294 | the destination always passes the case-insensitive `.pdf` test; for a name other than `.` it is `pdfs/` + name when the name already ends in `.pdf` (in any case), else `pdfs/` + name + `.pdf` |
| UpdateNames.DestPathInside | sebi_update_and_download_missing.py:292-294 | a name without separators, other than `.`, gives a path with no separator after `pdfs/` |
| UpdateNames.StoredPdfPath | sebi_update_and_download_missing.py:291-294 | an entry's PDF path ends with `.pdf` and stays inside `pdfs/` unless the chosen name is `.`; a URL segment with a dot gives `pdfs/` + a prefix of that segment's sanitised text (`.pdf` added unless present); a segment without a dot gives `pdfs/` + sanitised title + `.pdf` |
| UpdateResolve.EndsWithPdfIsHasPdf | sebi_update_and_download_missing.py:260 | an `href` ending with `.pdf` in some case also contains it |
| UpdateResolve.AnchorTier | sebi_update_and_download_missing.py:256-262 | the anchor heuristic finds nothing exactly when no anchor passes it |
| UpdateResolve.FrameSelectorHit | sebi_update_and_download_missing.py:273-282 | a frame's selector search only gives a non-empty address |
| UpdateResolve.FrameHit | sebi_update_and_download_missing.py:268-282 | a frame only gives a non-empty address |
| UpdateResolve.FrameTier | sebi_update_and_download_missing.py:265-286 | the frames loop only gives a non-empty address |
| UpdateResolve.ResolvePdf | sebi_update_and_download_missing.py:253-286 | the address settled on is never empty |
| UpdateResolve.FindTruthy | sebi_update_and_download_missing.py:253-254 | whatever the resolver returns is true in Python's sense |
| UpdateResolve.NoPdfLinkWithoutPdfAttribute | sebi_update_and_download_missing.py:256-262 | on a page without `.pdf` attributes no anchor passes the heuristic |
| UpdateResolve.AnchorTierUnreachable | sebi_update_and_download_missing.py:254-262 | the anchor heuristic runs only when it cannot find anything |
| UpdateResolve.ResolvePdfNone | sebi_update_and_download_missing.py:253-286 | no address is found exactly when no element has a `.pdf` attribute, no viewer frame names one, and no frame yields one |
| UpdateResolve.FindPdfAnchor | sebi_update_and_download_missing.py:256-262 | the anchor loop with its `break` computes the heuristic |
| UpdateResolve.SearchFrame | sebi_update_and_download_missing.py:267-282 | the per-frame search computes the frame's hit |
| UpdateResolve.SearchFrames | sebi_update_and_download_missing.py:265-286 | the frames loop computes the frames tier |
| UpdateResolve.ResolveEntryPdf | sebi_update_and_download_missing.py:253-286 | the three tiers in sequence compute the address settled on |
| UpdateRun.EntryTitle | sebi_update_and_download_missing.py:234 | the raw title, or `entry_N` in its place, is never empty |
| UpdateRun.EntryKeyNonEmpty | sebi_update_and_download_missing.py:234-235 | an entry with a stripped title has a non-empty key |
| UpdateRun.PdfUrlOf | sebi_update_and_download_missing.py:245-289 | `pdf_url` is set exactly when the page loaded and the resolver found an address, and then it is that address joined to the page's URL |
| UpdateRun.RowAsWritten | sebi_update_and_download_missing.py:288-321 | as written, the row records no file and `no` download; it keeps the title, date and link, and its `pdf_link` is the address found or "" |
| UpdateRun.RowCorrected | sebi_update_and_download_missing.py:288-321 | corrected, `pdf_link` is the address found or ""; the row records `yes` exactly when an address was found and downloaded, and then its file name is the destination path chosen for it, ending with `.pdf`; otherwise it records `no` and no file |
| UpdateRun.RowFor | sebi_update_and_download_missing.py:313-321 | the title cell is the raw title or its `entry_N` replacement, and `pdf_link` the address found or "" |
| UpdateRun.EntryRow | sebi_update_and_download_missing.py:313-321 | the row of an entry carries the title its key is made from |
| UpdateRun.EntryRows | sebi_update_and_download_missing.py:232-321 | the row of entry `j` reads back as entry `j`'s key |
| UpdateRun.RowsReadBack | sebi_update_and_download_missing.py:313-324 | read back from the CSV, the appended rows yield exactly their entries' keys |
| UpdateRun.ReRunAddsNothing | sebi_update_and_download_missing.py:239-324 | for rows keyed by their entries: when no write failed, a second run over the CSV with the appended rows appends nothing |
| UpdateRun.NextRunAddsNothing | sebi_update_and_download_missing.py:192-328 | the update script run twice over the same listing appends nothing the second time |
| UpdateRun.RunRows | sebi_update_and_download_missing.py:231-328 | a run appends at most one row per examined entry, none with a key known before, no two with the same key |
| UpdateRun.AsWrittenRowNoDownload | sebi_update_and_download_missing.py:290 | as written, an entry's row never records a download |
| UpdateRun.AsWrittenNeverDownloads | sebi_update_and_download_missing.py:288-321 | as written, no appended row records a file or a download, whatever the pages and the network do |
| UpdateRun.AsWrittenLosesDownload | sebi_update_and_download_missing.py:288-303 | for an entry whose PDF is found and downloadable, the row as written says `no` where the corrected row says `yes`, with the same address |
| UpdateRun.CorrectedRowRecordsDownload | sebi_update_and_download_missing.py:297-320 | corrected, a row says `yes` only with a `.pdf` file name and an address whose download succeeded |
| UpdateRun.CorrectedRecordsDownloads | sebi_update_and_download_missing.py:297-320 | corrected, every appended row says `yes` only with a `.pdf` file name and an address whose download succeeded |
| UpdateRun.UpdateEntries | sebi_update_and_download_missing.py:203-205 | the entries examined are the table's, or the fallback's when the table gives none; every title is stripped |
| UpdateRun.UpdateEntriesKeyed | sebi_update_and_download_missing.py:234-235 | every listing entry has a non-empty key |
| UpdateRun.ExtractUpdateEntries | sebi_update_and_download_missing.py:203-205 | the extraction computes the entries examined |
| Listing.Examined | sebi_update_and_download_missing.py:212 | the first ten entries are examined, or all of them when the listing has fewer; the snapshot script slices the same way at its line 220 |
| UpdateRun.ProcessEntry | sebi_update_and_download_missing.py:243-303 | opening the page, resolving and building the row gives the entry's row |
| UpdateRun.AppendEntry | sebi_update_and_download_missing.py:232-328 | one pass of the loop body performs one step of the dedup fold and appends that entry's row when it does |
| UpdateRun.AppendNewEntries | sebi_update_and_download_missing.py:231-328 | the loop ends with the fold's known keys, the rows of the entries the fold appends, and `added` equal to their number |
| UpdateRun.RunUpdate | sebi_update_and_download_missing.py:191-332 | no entries ends the run; an unopenable CSV ends it; otherwise the rows of the fold are appended: at most ten, all with fresh keys, no two with the same key |
| SnapshotNames.CutBase | sebi_make_two_csvs.py:39-40 | the cut base has at most 150 characters, is stripped, and is clean when its input was |
| SnapshotNames.SafeFilename | sebi_make_two_csvs.py:25-44 | the name is clean, ends with `.pdf`, and has 4 to 154 characters; a non-empty blank input gives just `.pdf` |
| SnapshotNames.CutBaseOfStripped | sebi_make_two_csvs.py:39-40 | cutting a sanitised text keeps a prefix of it at most one character shorter than the cut, and keeps a text of at most 150 characters whole |
| SnapshotNames.SafeFilenameFromText | sebi_make_two_csvs.py:25-44 | the name is the sanitised input (the fallback's when the input is empty) cut to a prefix of 149 or 150 characters, or whole when it fits, with `.pdf` added unless it already ends so |
| SnapshotNames.SafeFilenameOfCleanTitle | sebi_make_two_csvs.py:25-44 | a clean, stripped title of at most 150 characters without the suffix gets exactly `.pdf` added |
| SnapshotNames.SafeFilenameOfEmpty | sebi_make_two_csvs.py:30-31 | an empty input is named as its fallback would be |
| SnapshotNames.SafeFilenameFixes | sebi_make_two_csvs.py:25-44 | a clean, stripped `.pdf` name of at most 150 characters is kept as it is |
| SnapshotNames.SafeFilenameIdempotent | sebi_make_two_csvs.py:25-44 | re-sanitising a name of at most 150 characters changes nothing, whatever the fallbacks |
| SnapshotNames.LetterTitleName | sebi_make_two_csvs.py:38-44 | a 148-letter title gives that title plus `.pdf` |
| SnapshotNames.LetterTitleRename | sebi_make_two_csvs.py:38-44 | re-sanitising that 152-character name gives the title plus `.p.pdf` |
| SnapshotNames.SafeFilenameNotIdempotent | sebi_make_two_csvs.py:38-44 | the 150-character bound is needed: above it, re-sanitising changes the name |
| SnapshotOutput.NormalizeAll | sebi_make_two_csvs.py:167-172 | each row gives exactly one written row |
| SnapshotOutput.DoubleBackslashes | sebi_make_two_csvs.py:159-165 | the writer's escaping leaves a text with no backslash as it is, and lengthens any text that holds one |
| SnapshotOutput.CrLfToLf | sebi_make_two_csvs.py:175-183 | the line-end pass leaves a text with no CR LF pair as it is and never lengthens a text |
| SnapshotOutput.LoadedCell | sebi_make_two_csvs.py:140-183 | a cell comes back from the file as it was written when the pairing round-trips or the cell holds no backslash and no CR LF |
| SnapshotOutput.ReadBack | sebi_make_two_csvs.py:140-183 | a written row loaded back has every column; each column holds exactly the text written when the pairing round-trips or the row holds no backslash and no CR LF |
| SnapshotOutput.WrittenNameSafe | sebi_make_two_csvs.py:169-171 | every written file name is clean, ends with `.pdf`, and has at most 154 characters |
| SnapshotOutput.NormalizeKeepsFullRow | sebi_make_two_csvs.py:169-171 | a filled row whose file name came from `safe_filename` and has at most 150 characters is written unchanged |
| SnapshotOutput.NormalizeAllSnoc | sebi_make_two_csvs.py:167-172 | writing one more row appends its written form |
| SnapshotOutput.NormalizeRows | sebi_make_two_csvs.py:167-172 | the writers' loop produces the rows in order, each normalised |
| SnapshotRun.SnapshotEntries | sebi_make_two_csvs.py:94-138 | every entry has a stripped, non-empty title; with a table present the result is empty exactly when no row is kept, and no fallback runs |
| SnapshotRun.ExtractSnapshotEntries | sebi_make_two_csvs.py:94-138 | the extraction computes the entries |
| SnapshotRun.TitledKeyNonEmpty | sebi_make_two_csvs.py:238 | a stripped, non-empty title has a non-empty key |
| SnapshotRun.SnapKeysNonEmpty | sebi_make_two_csvs.py:238 | every extracted entry has a non-empty key |
| SnapshotRun.PdfLinkOf | sebi_make_two_csvs.py:244-251 | `pdf_url` is None exactly when the page did not load or carries no `.pdf` attribute; otherwise it is what the page search returns |
| SnapshotRun.ResolveSnapshotPdf | sebi_make_two_csvs.py:244-256 | opening the page and resolving computes `pdf_url` |
| SnapshotRun.MergeState | sebi_make_two_csvs.py:234-274 | the loop appends at most one row per entry, all from the entries examined |
| SnapshotRun.NewEntries | sebi_make_two_csvs.py:234-274 | there are no more new rows than entries |
| SnapshotRun.RowAtKey | sebi_make_two_csvs.py:238-264 | a new row reads back as its entry's key |
| SnapshotRun.NewRowFields | sebi_make_two_csvs.py:258-271 | a new row holds `make_id` of its fields, its own date, title and link, a clean `.pdf` file name from its title, `no`, an empty commit, its build time, and as `pdf_link` the address found on its page, which is empty when the page did not load or has no `.pdf` attribute |
| SnapshotRun.NewRowsReadBack | sebi_make_two_csvs.py:223-228 | read back from the master, the new rows yield exactly their entries' keys |
| SnapshotRun.SnapRowsKeyed | sebi_make_two_csvs.py:261-274 | every entry's row reads back as its entry's key |
| SnapshotRun.MasterCoversEntries | sebi_make_two_csvs.py:223-274 | the new master's keys are the old master's plus the new rows', and they include every examined entry's key |
| SnapshotRun.NextSnapshotAddsNothing | sebi_make_two_csvs.py:223-274 | running again over the same entries with the new master (old rows then new ones) finds nothing new |
| SnapshotRun.WrittenTitleKeys | sebi_make_two_csvs.py:140-183 | writing the master and loading it back keeps its set of title keys, when the pairing round-trips or no title holds a backslash or a CR LF |
| SnapshotRun.NextSnapshotFromWritten | sebi_make_two_csvs.py:140-281 | running again over the same entries with the master as written to the CSV and loaded back finds nothing new, when the pairing round-trips or no title of the old master or the entries holds a backslash or a CR LF |
| SnapshotRun.OneEntryFirstRun | sebi_make_two_csvs.py:234-274 | with an empty master, one titled entry gets its row |
| SnapshotRun.OneEntryAgainstOneRow | sebi_make_two_csvs.py:223-274 | one entry whose key differs from the only master row's is found new |
| SnapshotRun.LoadOneRow | sebi_make_two_csvs.py:140-171 | a one-row master, written and loaded, is one row holding the loaded title cell |
| SnapshotRun.KeysDiffer | sebi_make_two_csvs.py:238 | stripped titles of different lengths have different keys |
| SnapshotRun.BackslashStored | sebi_make_two_csvs.py:159-165 | the title `a\b` is loaded back as `a\\b` |
| SnapshotRun.ReaddedWhenKeyChanges | sebi_make_two_csvs.py:140-281 | an entry whose title changes key through the file is added on the first run and found new again on the next |
| SnapshotRun.BackslashTitleReadded | sebi_make_two_csvs.py:140-281 | as the code stands, an entry titled `a\b` is added on the first run and again on the next |
| SnapshotRun.NewEntriesFreshDistinct | sebi_make_two_csvs.py:234-274 | no new row's key is in the old master, and no two new rows share a key |
| SnapshotRun.NewEntriesKeyed | sebi_make_two_csvs.py:238-271 | every new row built from an extracted entry has a non-empty title key |
| SnapshotRun.NewMasterDistinct | sebi_make_two_csvs.py:223-274 | when the master's title keys are non-empty and pairwise distinct, so are those of the new master (old rows then new ones) |
| SnapshotRun.NewEntriesFromEntries | sebi_make_two_csvs.py:258-273 | each new row is the row built for the entry it was appended for |
| SnapshotRun.NewRowWrittenAsBuilt | sebi_make_two_csvs.py:258-278 | a new row whose file name has at most 150 characters is written to both files exactly as built |
| SnapshotRun.LongTitleRenamedOnOutput | sebi_make_two_csvs.py:258-282 | for a 148-letter title the row is built with `….pdf` but written with `….p.pdf` |
| SnapshotRun.BuildRow | sebi_make_two_csvs.py:243-271 | opening the page, resolving and building gives the entry's row |
| SnapshotRun.MergeEntry | sebi_make_two_csvs.py:234-274 | one pass of the loop body performs one step of the dedup fold and appends that entry's row when it does |
| SnapshotRun.MergeNew | sebi_make_two_csvs.py:230-274 | the loop yields the new rows of the fold and the master with them appended after the old rows |
| SnapshotRun.RunSnapshot | sebi_make_two_csvs.py:206-284 | no entries ends the run; otherwise the CSV gets the normalised old master plus new rows and the JSON the normalised new rows, at most ten of them |

## Left out

- The browser is not modelled: Playwright, page loading, waits, timeouts, the CSS selector engine and the JavaScript `evaluate` calls. A page is given as data, and a page that fails or times out is an address missing from `pages`.
- `urljoin`, `unquote`, `urlparse(...).path` and `Path(...).name` are uninterpreted functions. Only "`urljoin` of a non-empty reference is non-empty" is assumed, as a stated precondition where it is needed.
- The result of each download is a parameter: the set of addresses whose download succeeds. HTTP, headers and writing the bytes are not modelled.
- The update script's CSV writer is modelled only as a parameter: the entry numbers whose row append raises. File creation, the header line and `flush` are not modelled.
- File I/O is not modelled:
  - the JSON serialisation, and the CSV's quoting and `|` delimiter, which the reader undoes;
  - the existence checks for the CSV files.
  What the master CSV does to a cell's text is modelled, by `SnapshotOutput.LoadedCell`: the backslash escaping and the CR LF pass.
- A missing CSV is an empty list of title cells. A read error part-way through `read_existing_titles` corresponds to giving the rows read before it.
- Columns are fields of a datatype in header order. Extra columns of a master row read back are not represented; the writers keep only the header columns anyway.
- `make_id` (SHA-1) and the UTC clock are parameters of the snapshot run.
- `lower()` folds only ASCII letters. Unicode case folding is not modelled.
- The logging and `print` calls are left out. The one exception is line 290's arity, which is modelled as `UpdateRun.LogCall`.
- The iframe tier's regular expressions are modelled only for the two patterns the scripts use.
- `entry_page.close()` being skipped when an exception is raised is not modelled.
- A title or date value that Python treats as false (`None` or `""`) is modelled as `""` throughout, which is how every use in the scripts treats it.
- SnapshotRun.WrittenTitleKeys: as the code stands (`AsWritten`), it holds only for titles with no backslash and no CR LF pair. A title with a backslash is loaded with the backslash doubled and gets another key (see Findings).
- SnapshotRun.NextSnapshotFromWritten: as the code stands, it holds only when no title of the old master or of the entries holds a backslash or a CR LF pair. `SnapshotRun.BackslashTitleReadded` shows an entry that is added again.
- SnapshotOutput.ReadBack: as the code stands, a loaded row equals the written row only when no cell holds a backslash or a CR LF pair.
- `UpdateRun.ReRunAddsNothing` and `UpdateRun.NextRunAddsNothing`: they assume that no row append failed in the first run. A failed append leaves its key unknown, so a second run may append that entry.

## Findings

| source | as written | input that shows it | evidently intended | confidence | as-written member | corrected member |
|---|---|---|---|---|---|---|
| sebi_update_and_download_missing.py:290 | the one-parameter `log` is called with two arguments once a PDF address is found; the `TypeError` goes to the handler at line 309, so the download never runs and the row records the address with no file and `no` download | any new entry whose detail page has an element with a `src` ending in `.pdf` and whose download would succeed | log the address, download the PDF, and record its path with `yes` | high (not executed) | UpdateRun.AsWrittenNeverDownloads | UpdateRun.CorrectedRecordsDownloads |
| sebi_make_two_csvs.py:145 | `write_csv` escapes with a backslash (lines 159-165), which writes each backslash in a cell as two; `load_master_csv` reads with no escape character and keeps both. The title key read back therefore differs from the entry's, and the entry is appended again on every run | an entry titled `a\b`, written as `a\\b` | read the master with the same escape character, so that a title is loaded as it was written and a known entry is skipped | medium (not executed; it relies on the csv writer escaping the escape character itself) | SnapshotRun.BackslashTitleReadded | SnapshotRun.NextSnapshotFromWritten |
