/**
 * The set of title keys a scraper already knows: the stripped, lower-cased
 * `title` cell of every stored row, blank ones left out. Both scrapers
 * build it the same way before looking at the listing.
 */
module Catalog {
  import opened Wrappers
  import opened Text

  /** The key of a stored row's `title` cell, a missing cell read as "". */
  function CellKey(cell: Option<string>): string {
    TitleKey(cell.GetOr(""))
  }

  /** The non-empty keys of the given `title` cells. */
  function KeySet(cells: seq<Option<string>>): (r: set<string>)
    ensures "" !in r
    decreases |cells|
  {
    if cells == [] then {}
    else
      var n := |cells| - 1;
      KeySet(cells[..n]) + (if CellKey(cells[n]) != "" then {CellKey(cells[n])} else {})
  }

  /** A key is known exactly when it is non-empty and some stored row has it. */
  lemma {:induction false} KeySetMember(cells: seq<Option<string>>, k: string)
    ensures k in KeySet(cells) <==> k != "" && exists i :: 0 <= i < |cells| && CellKey(cells[i]) == k
    decreases |cells|
  {
    if cells != [] {
      var n := |cells| - 1;
      var prev := cells[..n];
      KeySetMember(prev, k);
      var last := CellKey(cells[n]);
      assert KeySet(cells) == KeySet(prev) + (if last != "" then {last} else {});
      if k in KeySet(prev) {
        var i :| 0 <= i < n && CellKey(prev[i]) == k;
        assert cells[i] == prev[i];
      } else if k != "" && last != k {
        forall i | 0 <= i < n ensures CellKey(cells[i]) != k {
          assert prev[i] == cells[i];
        }
      }
    }
  }

  /** Cells that give the same keys, position by position, give the same key set. */
  lemma KeySetSameKeys(a: seq<Option<string>>, b: seq<Option<string>>)
    requires |a| == |b| && forall i :: 0 <= i < |a| ==> CellKey(a[i]) == CellKey(b[i])
    ensures KeySet(a) == KeySet(b)
  {
    forall k | true ensures k in KeySet(a) <==> k in KeySet(b) {
      KeySetMember(a, k);
      KeySetMember(b, k);
    }
  }

  /** A row whose title is blank adds nothing. */
  lemma BlankTitleNoKey(cells: seq<Option<string>>, title: string)
    requires IsBlank(title)
    ensures KeySet(cells + [Some(title)]) == KeySet(cells)
  {
    TitleKeyEmpty(title);
    assert (cells + [Some(title)])[..|cells|] == cells;
  }

  /**
   * The loop of `read_existing_titles` (and lines 224-228 of the snapshot
   * script) over the `title` cells of the rows read: every non-empty key
   * goes into the set.
   */
  method LoadTitleKeys(cells: seq<Option<string>>) returns (titles: set<string>)
    ensures titles == KeySet(cells)
  {
    titles := {};
    var i := 0;
    while i < |cells|
      invariant 0 <= i <= |cells|
      invariant titles == KeySet(cells[..i])
    {
      assert cells[..i + 1][..i] == cells[..i];
      var t := TitleKey(cells[i].GetOr(""));
      if t != "" {
        titles := titles + {t};
      }
      i := i + 1;
    }
    assert cells[..i] == cells;
  }

  /** The keys of two runs of cells are the union of their keys. */
  lemma {:induction false} KeySetAppend(a: seq<Option<string>>, b: seq<Option<string>>)
    ensures KeySet(a + b) == KeySet(a) + KeySet(b)
    decreases |b|
  {
    if b == [] {
      assert a + b == a;
    } else {
      var n := |b| - 1;
      assert (a + b)[..|a + b| - 1] == a + b[..n];
      KeySetAppend(a, b[..n]);
      assert (a + b)[|a + b| - 1] == b[n];
    }
  }
}
