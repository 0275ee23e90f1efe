/**
 * Listing extraction shared by both scrapers: the structured pass over
 * the rows of the listing table, and the fallback pass over the anchors
 * of the generic content areas, which drops repeated (title, link) pairs.
 */
module Listing {
  import opened Wrappers
  import opened Text
  import opened Page

  /** The listing address both scrapers open and resolve links against. */
  const BaseUrl: string := "https://www.sebi.gov.in/sebiweb/home/HomeAction.do?doListing=yes&sid=1&ssid=7&smid=0"

  /** One listing entry as extracted: raw date text, title, detail-page link. */
  datatype Candidate = Candidate(date: string, title: string, link: string)

  /** `NUM_ENTRIES`: how many listing entries either scraper examines. */
  const NumEntries: nat := 10

  /**
   * `entries[:NUM_ENTRIES]`: the first ten entries, or all of them when
   * the listing has fewer.
   */
  function Examined(entries: seq<Candidate>): (r: seq<Candidate>)
    ensures |r| == if |entries| <= NumEntries then |entries| else NumEntries
    ensures r == entries[..|r|]
  {
    if |entries| <= NumEntries then entries else entries[..NumEntries]
  }

  /** `urljoin(BASE_URL, a.get_attribute("href") or "")` */
  function AnchorLink(a: Anchor, ops: UrlOps): string {
    ops.join(BaseUrl, a.href.GetOr(""))
  }

  /**
   * The candidate of one table row: the first cell is the date; the row's
   * hyperlink gives title and link, and without one the second cell (if
   * any) gives the title and the link stays empty.
   */
  function RowCandidate(row: TableRow, ops: UrlOps): Candidate {
    var date := if |row.cells| >= 1 then Strip(row.cells[0]) else "";
    match row.anchor
    case Some(a) => Candidate(date, Strip(a.text), AnchorLink(a, ops))
    case None => Candidate(date, if |row.cells| >= 2 then Strip(row.cells[1]) else "", "")
  }

  /** Which rows the table pass keeps beyond "has a cell". */
  datatype KeepRule =
    | TitleOrDate  // the update script: `if title or date`
    | TitleOnly    // the snapshot script: `if title`

  predicate Keeps(rule: KeepRule, c: Candidate) {
    match rule
    case TitleOrDate => c.title != "" || c.date != ""
    case TitleOnly => c.title != ""
  }

  predicate RowKept(row: TableRow, rule: KeepRule, ops: UrlOps) {
    |row.cells| >= 1 && Keeps(rule, RowCandidate(row, ops))
  }

  /** The table pass: the candidates of the kept rows, in row order. */
  function TableCandidates(rows: seq<TableRow>, rule: KeepRule, ops: UrlOps): (r: seq<Candidate>)
    ensures |r| <= |rows|
    ensures forall k :: 0 <= k < |r| ==> Keeps(rule, r[k])
    decreases |rows|
  {
    if rows == [] then []
    else
      var n := |rows| - 1;
      TableCandidates(rows[..n], rule, ops)
        + (if RowKept(rows[n], rule, ops) then [RowCandidate(rows[n], ops)] else [])
  }

  /**
   * The table pass is a filter: splitting the rows anywhere splits the
   * result at the same place, so kept rows stay in row order and each row
   * contributes only its own candidate.
   */
  lemma {:induction false} TableCandidatesAppend(a: seq<TableRow>, b: seq<TableRow>, rule: KeepRule, ops: UrlOps)
    ensures TableCandidates(a + b, rule, ops) == TableCandidates(a, rule, ops) + TableCandidates(b, rule, ops)
    decreases |b|
  {
    if b == [] {
      assert a + b == a;
    } else {
      var n := |b| - 1;
      var last := if RowKept(b[n], rule, ops) then [RowCandidate(b[n], ops)] else [];
      assert (a + b)[..|a + b| - 1] == a + b[..n];
      assert (a + b)[|a + b| - 1] == b[n];
      assert TableCandidates(a + b, rule, ops) == TableCandidates(a + b[..n], rule, ops) + last;
      TableCandidatesAppend(a, b[..n], rule, ops);
      assert TableCandidates(b, rule, ops) == TableCandidates(b[..n], rule, ops) + last;
    }
  }

  /** One row gives its candidate exactly when it is kept. */
  lemma TableCandidatesOne(row: TableRow, rule: KeepRule, ops: UrlOps)
    ensures TableCandidates([row], rule, ops) == if RowKept(row, rule, ops) then [RowCandidate(row, ops)] else []
  {
    assert [row][..0] == [];
  }

  /** The table pass gives nothing exactly when no row is kept. */
  lemma {:induction false} TableCandidatesEmpty(rows: seq<TableRow>, rule: KeepRule, ops: UrlOps)
    ensures TableCandidates(rows, rule, ops) == [] <==> forall i :: 0 <= i < |rows| ==> !RowKept(rows[i], rule, ops)
    decreases |rows|
  {
    if rows != [] {
      var n := |rows| - 1;
      var prev := TableCandidates(rows[..n], rule, ops);
      var last := if RowKept(rows[n], rule, ops) then [RowCandidate(rows[n], ops)] else [];
      assert TableCandidates(rows, rule, ops) == prev + last;
      TableCandidatesEmpty(rows[..n], rule, ops);
      assert forall i :: 0 <= i < n ==> rows[..n][i] == rows[i];
    }
  }

  /** Every title is a stripped text. */
  predicate AllStripped(cs: seq<Candidate>) {
    forall k :: 0 <= k < |cs| ==> Stripped(cs[k].title)
  }

  /** Table titles come out of `normalize_text`, so none starts or ends with whitespace. */
  lemma {:induction false} TableStripped(rows: seq<TableRow>, rule: KeepRule, ops: UrlOps)
    ensures AllStripped(TableCandidates(rows, rule, ops))
    decreases |rows|
  {
    if rows != [] {
      var n := |rows| - 1;
      var prev := TableCandidates(rows[..n], rule, ops);
      TableStripped(rows[..n], rule, ops);
      if RowKept(rows[n], rule, ops) {
        var c := RowCandidate(rows[n], ops);
        assert Stripped(c.title) by {
          match rows[n].anchor
          case Some(a) => StripSpec(a.text);
          case None => if |rows[n].cells| >= 2 { StripSpec(rows[n].cells[1]); }
        }
        assert TableCandidates(rows, rule, ops) == prev + [c];
      } else {
        assert TableCandidates(rows, rule, ops) == prev;
      }
    }
  }

  /** The table loop of `extract_entries_from_table` / `extract_entries_from_listing`. */
  method CollectTableCandidates(rows: seq<TableRow>, rule: KeepRule, ops: UrlOps) returns (results: seq<Candidate>)
    ensures results == TableCandidates(rows, rule, ops)
  {
    results := [];
    var i := 0;
    while i < |rows|
      invariant 0 <= i <= |rows|
      invariant results == TableCandidates(rows[..i], rule, ops)
    {
      var r := rows[i];
      assert rows[..i + 1][..i] == rows[..i];
      if |r.cells| != 0 {
        var c := RowCandidate(r, ops);
        if Keeps(rule, c) {
          results := results + [c];
        }
      }
      i := i + 1;
    }
    assert rows[..i] == rows;
  }

  /** The fallback date rule: the previous sibling's stripped text, else the parent's previous sibling's. */
  function AnchorDate(a: Anchor): string {
    var p := Strip(a.prevSiblingText);
    if p != "" then p else Strip(a.parentPrevSiblingText)
  }

  function AnchorCandidate(a: Anchor, ops: UrlOps): Candidate {
    Candidate(AnchorDate(a), Strip(a.text), AnchorLink(a, ops))
  }

  /** The fallback's `seen` key of an anchor: (title, link). */
  function AnchorKey(a: Anchor, ops: UrlOps): (string, string) {
    (Strip(a.text), AnchorLink(a, ops))
  }

  function PairKey(c: Candidate): (string, string) {
    (c.title, c.link)
  }

  /** The (title, link) pairs of a candidate list. */
  function PairKeys(cs: seq<Candidate>): set<(string, string)>
    decreases |cs|
  {
    if cs == [] then {} else PairKeys(cs[..|cs| - 1]) + {PairKey(cs[|cs| - 1])}
  }

  /** The (title, link) pairs of the anchors that have a title. */
  function TitledKeys(anchors: seq<Anchor>, ops: UrlOps): set<(string, string)>
    decreases |anchors|
  {
    if anchors == [] then {}
    else
      var n := |anchors| - 1;
      TitledKeys(anchors[..n], ops) + (if Strip(anchors[n].text) != "" then {AnchorKey(anchors[n], ops)} else {})
  }

  /** Anchor `i` has a title and no earlier titled anchor has its (title, link) pair. */
  predicate FirstOccurrence(anchors: seq<Anchor>, i: nat, ops: UrlOps)
    requires i < |anchors|
  {
    Strip(anchors[i].text) != "" && AnchorKey(anchors[i], ops) !in TitledKeys(anchors[..i], ops)
  }

  /** The fallback pass: the candidates of the first occurrences of each titled (title, link) pair, in anchor order. */
  function FallbackCandidates(anchors: seq<Anchor>, ops: UrlOps): seq<Candidate>
    decreases |anchors|
  {
    if anchors == [] then []
    else
      var n := |anchors| - 1;
      FallbackCandidates(anchors[..n], ops)
        + (if FirstOccurrence(anchors, n, ops) then [AnchorCandidate(anchors[n], ops)] else [])
  }

  lemma PairKeysSnoc(cs: seq<Candidate>, c: Candidate)
    ensures PairKeys(cs + [c]) == PairKeys(cs) + {PairKey(c)}
  {
    assert (cs + [c])[..|cs|] == cs;
  }

  lemma {:induction false} PairKeysHas(cs: seq<Candidate>, k: nat)
    requires k < |cs|
    ensures PairKey(cs[k]) in PairKeys(cs)
    decreases |cs|
  {
    if k < |cs| - 1 {
      PairKeysHas(cs[..|cs| - 1], k);
    }
  }

  /** The fallback's `seen` set is exactly the set of pairs of the titled anchors seen so far. */
  lemma {:induction false} FallbackKeys(anchors: seq<Anchor>, ops: UrlOps)
    ensures PairKeys(FallbackCandidates(anchors, ops)) == TitledKeys(anchors, ops)
    decreases |anchors|
  {
    if anchors != [] {
      var n := |anchors| - 1;
      var pre := anchors[..n];
      var prev := FallbackCandidates(pre, ops);
      var key := AnchorKey(anchors[n], ops);
      FallbackKeys(pre, ops);
      if FirstOccurrence(anchors, n, ops) {
        var c := AnchorCandidate(anchors[n], ops);
        assert FallbackCandidates(anchors, ops) == prev + [c];
        PairKeysSnoc(prev, c);
        assert PairKey(c) == key;
      } else {
        assert FallbackCandidates(anchors, ops) == prev;
      }
    }
  }

  /** Nothing but repeats is dropped: every titled anchor's (title, link) pair is among the results. */
  lemma {:induction false} FallbackComplete(anchors: seq<Anchor>, ops: UrlOps, j: nat)
    requires j < |anchors| && Strip(anchors[j].text) != ""
    ensures AnchorKey(anchors[j], ops) in PairKeys(FallbackCandidates(anchors, ops))
    decreases |anchors|
  {
    FallbackKeys(anchors, ops);
    var n := |anchors| - 1;
    if j < n {
      assert anchors[..n][j] == anchors[j];
      FallbackComplete(anchors[..n], ops, j);
      FallbackKeys(anchors[..n], ops);
    }
  }

  /** Every candidate has a non-empty title. */
  predicate AllTitled(cs: seq<Candidate>) {
    forall k :: 0 <= k < |cs| ==> cs[k].title != ""
  }

  /** The fallback never yields an empty title. */
  lemma {:induction false} FallbackTitled(anchors: seq<Anchor>, ops: UrlOps)
    ensures AllTitled(FallbackCandidates(anchors, ops))
    decreases |anchors|
  {
    if anchors != [] {
      var n := |anchors| - 1;
      var prev := FallbackCandidates(anchors[..n], ops);
      FallbackTitled(anchors[..n], ops);
      if FirstOccurrence(anchors, n, ops) {
        var c := AnchorCandidate(anchors[n], ops);
        assert FallbackCandidates(anchors, ops) == prev + [c];
        assert c.title != "";
      } else {
        assert FallbackCandidates(anchors, ops) == prev;
      }
    }
  }

  /** Fallback titles come out of `normalize_text` too. */
  lemma {:induction false} FallbackStripped(anchors: seq<Anchor>, ops: UrlOps)
    ensures AllStripped(FallbackCandidates(anchors, ops))
    decreases |anchors|
  {
    if anchors != [] {
      var n := |anchors| - 1;
      var prev := FallbackCandidates(anchors[..n], ops);
      FallbackStripped(anchors[..n], ops);
      if FirstOccurrence(anchors, n, ops) {
        var c := AnchorCandidate(anchors[n], ops);
        StripSpec(anchors[n].text);
        assert FallbackCandidates(anchors, ops) == prev + [c];
      } else {
        assert FallbackCandidates(anchors, ops) == prev;
      }
    }
  }

  /** A candidate whose pair is not yet among the keys differs from every earlier one. */
  lemma FreshPair(cs: seq<Candidate>, c: Candidate)
    requires PairKey(c) !in PairKeys(cs)
    ensures forall k :: 0 <= k < |cs| ==> PairKey(cs[k]) != PairKey(c)
  {
    forall k | 0 <= k < |cs| ensures PairKey(cs[k]) != PairKey(c) {
      PairKeysHas(cs, k);
    }
  }

  /** The fallback's (title, link) pairs are pairwise distinct. */
  lemma {:induction false} FallbackDistinct(anchors: seq<Anchor>, ops: UrlOps)
    ensures var r := FallbackCandidates(anchors, ops);
      forall p, q :: 0 <= p < q < |r| ==> PairKey(r[p]) != PairKey(r[q])
    decreases |anchors|
  {
    if anchors != [] {
      var n := |anchors| - 1;
      var pre := anchors[..n];
      var prev := FallbackCandidates(pre, ops);
      FallbackDistinct(pre, ops);
      if FirstOccurrence(anchors, n, ops) {
        var c := AnchorCandidate(anchors[n], ops);
        assert FallbackCandidates(anchors, ops) == prev + [c];
        FallbackKeys(pre, ops);
        FreshPair(prev, c);
      } else {
        assert FallbackCandidates(anchors, ops) == prev;
      }
    }
  }

  /** The loop of `fallback_extract_entries` (and the fallback branch of `extract_entries_from_listing`). */
  method CollectFallbackCandidates(anchors: seq<Anchor>, ops: UrlOps) returns (results: seq<Candidate>)
    ensures results == FallbackCandidates(anchors, ops)
    ensures AllTitled(results)
    ensures forall p, q :: 0 <= p < q < |results| ==> PairKey(results[p]) != PairKey(results[q])
  {
    results := [];
    var seen: set<(string, string)> := {};
    var i := 0;
    while i < |anchors|
      invariant 0 <= i <= |anchors|
      invariant results == FallbackCandidates(anchors[..i], ops)
      invariant seen == PairKeys(results)
    {
      var a := anchors[i];
      var title := Strip(a.text);
      var link := AnchorLink(a, ops);
      var key := (title, link);
      FallbackKeys(anchors[..i], ops);
      assert anchors[..i + 1][..i] == anchors[..i];
      if title != "" && key !in seen {
        var date := "";
        var prev := a.prevSiblingText;
        if prev != "" {
          date := Strip(prev);
        }
        if date == "" {
          date := Strip(a.parentPrevSiblingText);
        }
        PairKeysSnoc(results, Candidate(date, title, link));
        results := results + [Candidate(date, title, link)];
        seen := seen + {key};
      }
      i := i + 1;
    }
    assert anchors[..i] == anchors;
    FallbackTitled(anchors, ops);
    FallbackDistinct(anchors, ops);
  }
}
