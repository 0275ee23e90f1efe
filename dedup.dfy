/**
 * The dedup loop both scrapers run over the listing entries, reduced to
 * the entries' title keys: an entry whose key is already known is
 * skipped; any other gets a row (unless writing it fails) and its key
 * becomes known, so a repeat later in the same run is skipped too.
 */
module Dedup {
  /**
   * The known keys and the numbers (counting from 1) of the entries whose
   * row was appended so far.
   */
  datatype RunState = RunState(titles: set<string>, written: seq<nat>)

  /** One pass of the loop body for entry number `idx` (counting from 1), whose key is `keys[idx - 1]`. */
  function Step(st: RunState, keys: seq<string>, idx: nat, failedWrites: set<nat>): RunState
    requires 1 <= idx <= |keys|
  {
    if keys[idx - 1] in st.titles || idx in failedWrites then st
    else RunState(st.titles + {keys[idx - 1]}, st.written + [idx])
  }

  /** The state after the first `n` entries. */
  function RunUpTo(keys: seq<string>, n: nat, init: set<string>, failedWrites: set<nat>): RunState
    requires n <= |keys|
    decreases n
  {
    if n == 0 then RunState(init, [])
    else Step(RunUpTo(keys, n - 1, init, failedWrites), keys, n, failedWrites)
  }

  /** Every number is an entry number among the first `n`. */
  predicate InRange(written: seq<nat>, n: nat) {
    forall k :: 0 <= k < |written| ==> 1 <= written[k] <= n
  }

  /** The keys of the given entry numbers. */
  function WrittenKeys(keys: seq<string>, written: seq<nat>): set<string>
    requires InRange(written, |keys|)
    decreases |written|
  {
    if written == [] then {}
    else
      var m := |written| - 1;
      WrittenKeys(keys, written[..m]) + {keys[written[m] - 1]}
  }

  /** Entry numbers strictly increase: rows follow listing order. */
  predicate Increasing(written: seq<nat>) {
    forall p, q :: 0 <= p < q < |written| ==> written[p] < written[q]
  }

  /** No appended row's key is among `init`. */
  predicate FreshKeys(keys: seq<string>, written: seq<nat>, init: set<string>)
    requires InRange(written, |keys|)
  {
    forall k :: 0 <= k < |written| ==> keys[written[k] - 1] !in init
  }

  /** No two appended rows share a key. */
  predicate DistinctKeys(keys: seq<string>, written: seq<nat>)
    requires InRange(written, |keys|)
  {
    forall p, q :: 0 <= p < q < |written| ==> keys[written[p] - 1] != keys[written[q] - 1]
  }

  /**
   * What the loop keeps true after `n` entries: the known keys are the
   * initial ones plus those of the appended rows; the rows follow entry
   * order; no row's key was known before; no two rows share a key.
   */
  predicate RunInvariant(keys: seq<string>, n: nat, init: set<string>, st: RunState)
    requires n <= |keys|
  {
    && InRange(st.written, n)
    && InRange(st.written, |keys|)
    && st.titles == init + WrittenKeys(keys, st.written)
    && Increasing(st.written)
    && FreshKeys(keys, st.written, init)
    && DistinctKeys(keys, st.written)
  }

  lemma {:induction false} WrittenKeysHas(keys: seq<string>, written: seq<nat>, k: nat)
    requires InRange(written, |keys|) && k < |written|
    ensures keys[written[k] - 1] in WrittenKeys(keys, written)
    decreases |written|
  {
    var m := |written| - 1;
    if k < m {
      assert written[..m][k] == written[k];
      WrittenKeysHas(keys, written[..m], k);
    }
  }

  /** Appending entry `n`, whose key is new, keeps the invariant. */
  lemma StepKeepsInvariant(keys: seq<string>, n: nat, init: set<string>, st: RunState)
    requires 1 <= n <= |keys|
    requires RunInvariant(keys, n - 1, init, st)
    requires keys[n - 1] !in st.titles
    ensures RunInvariant(keys, n, init, RunState(st.titles + {keys[n - 1]}, st.written + [n]))
  {
    var w := st.written + [n];
    var m := |st.written|;
    assert InRange(w, n);
    assert w[..m] == st.written;
    assert WrittenKeys(keys, w) == WrittenKeys(keys, st.written) + {keys[n - 1]};
    assert Increasing(w) by {
      forall p, q | 0 <= p < q < |w| ensures w[p] < w[q] {
        if q < m {
          assert w[p] == st.written[p] && w[q] == st.written[q];
        }
      }
    }
    assert FreshKeys(keys, w, init);
    assert DistinctKeys(keys, w) by {
      forall p, q | 0 <= p < q < |w| ensures keys[w[p] - 1] != keys[w[q] - 1] {
        if q == m {
          WrittenKeysHas(keys, st.written, p);
        } else {
          assert w[p] == st.written[p] && w[q] == st.written[q];
        }
      }
    }
  }

  /** The loop invariant holds at every point of the run, and at most one row is appended per entry. */
  lemma {:induction false} RunKeepsInvariant(keys: seq<string>, n: nat, init: set<string>, failedWrites: set<nat>)
    requires n <= |keys|
    ensures RunInvariant(keys, n, init, RunUpTo(keys, n, init, failedWrites))
    ensures |RunUpTo(keys, n, init, failedWrites).written| <= n
    decreases n
  {
    if n > 0 {
      var st := RunUpTo(keys, n - 1, init, failedWrites);
      RunKeepsInvariant(keys, n - 1, init, failedWrites);
      if keys[n - 1] !in st.titles && n !in failedWrites {
        StepKeepsInvariant(keys, n, init, st);
      } else {
        assert RunUpTo(keys, n, init, failedWrites) == st;
      }
    }
  }

  /**
   * Nothing is lost but failed writes: after the run, the key of every
   * entry whose row did not fail to be written is known, so an entry with
   * a new key got its row.
   */
  lemma {:induction false} RunComplete(keys: seq<string>, n: nat, init: set<string>, failedWrites: set<nat>, j: nat)
    requires n <= |keys| && 1 <= j <= n && j !in failedWrites
    ensures keys[j - 1] in RunUpTo(keys, n, init, failedWrites).titles
    decreases n
  {
    if j < n {
      RunComplete(keys, n - 1, init, failedWrites, j);
    }
  }

  /** With no failed write, every entry's key is known after the run. */
  lemma AllKeysKnown(keys: seq<string>, init: set<string>, failedWrites: set<nat>)
    requires forall idx :: 1 <= idx <= |keys| ==> idx !in failedWrites
    ensures forall k :: 0 <= k < |keys| ==> keys[k] in RunUpTo(keys, |keys|, init, failedWrites).titles
  {
    forall k | 0 <= k < |keys| ensures keys[k] in RunUpTo(keys, |keys|, init, failedWrites).titles {
      RunComplete(keys, |keys|, init, failedWrites, k + 1);
    }
  }

  /** A run over entries whose keys are all known appends nothing. */
  lemma {:induction false} RunWithKnownKeys(keys: seq<string>, n: nat, init: set<string>, failedWrites: set<nat>)
    requires n <= |keys|
    requires forall k :: 0 <= k < n ==> keys[k] in init
    ensures RunUpTo(keys, n, init, failedWrites) == RunState(init, [])
    decreases n
  {
    if n > 0 {
      RunWithKnownKeys(keys, n - 1, init, failedWrites);
    }
  }

  /** The elements at the given (1-based) positions, in the given order. */
  function Select<T>(xs: seq<T>, written: seq<nat>): (r: seq<T>)
    requires InRange(written, |xs|)
    ensures |r| == |written|
    decreases |written|
  {
    if written == [] then []
    else
      var m := |written| - 1;
      Select(xs, written[..m]) + [xs[written[m] - 1]]
  }

  /** The `k`-th element selected is the element at position `written[k]`. */
  lemma {:induction false} SelectAt<T>(xs: seq<T>, written: seq<nat>)
    requires InRange(written, |xs|)
    ensures forall k :: 0 <= k < |written| ==> Select(xs, written)[k] == xs[written[k] - 1]
    decreases |written|
  {
    if written != [] {
      var m := |written| - 1;
      assert InRange(written[..m], |xs|);
      SelectAt(xs, written[..m]);
    }
  }

  /** Selecting one more position appends that element. */
  lemma SelectSnoc<T>(xs: seq<T>, written: seq<nat>, idx: nat)
    requires InRange(written, |xs|) && 1 <= idx <= |xs|
    ensures InRange(written + [idx], |xs|)
    ensures Select(xs, written + [idx]) == Select(xs, written) + [xs[idx - 1]]
  {
    var w := written + [idx];
    forall k | 0 <= k < |w| ensures 1 <= w[k] <= |xs| {
      if k < |written| {
        assert w[k] == written[k];
      }
    }
    assert w[..|written|] == written;
  }

  /** After a run, no appended entry's key was known before and no two share one. */
  lemma RunFreshDistinct(keys: seq<string>, init: set<string>, failedWrites: set<nat>)
    ensures var w := RunUpTo(keys, |keys|, init, failedWrites).written;
      InRange(w, |keys|) && |w| <= |keys| && FreshKeys(keys, w, init) && DistinctKeys(keys, w)
  {
    RunKeepsInvariant(keys, |keys|, init, failedWrites);
  }

  /**
   * For any items that carry their entries' keys (`key` gives an item's
   * key), the items a run selects have keys unknown before it.
   */
  lemma SelectedFresh<T>(all: seq<T>, key: T -> string, keys: seq<string>, init: set<string>, failedWrites: set<nat>)
    requires |all| == |keys|
    requires forall j :: 0 <= j < |keys| ==> key(all[j]) == keys[j]
    ensures var w := RunUpTo(keys, |keys|, init, failedWrites).written;
      && InRange(w, |keys|) && |w| <= |keys|
      && forall k :: 0 <= k < |w| ==> key(Select(all, w)[k]) !in init
  {
    var w := RunUpTo(keys, |keys|, init, failedWrites).written;
    RunFreshDistinct(keys, init, failedWrites);
    var rows := Select(all, w);
    SelectAt(all, w);
    forall k | 0 <= k < |rows| ensures key(rows[k]) !in init {
      assert key(rows[k]) == keys[w[k] - 1];
    }
  }

  /** For any items that carry their entries' keys, no two items a run selects share a key. */
  lemma SelectedDistinct<T>(all: seq<T>, key: T -> string, keys: seq<string>, init: set<string>, failedWrites: set<nat>)
    requires |all| == |keys|
    requires forall j :: 0 <= j < |keys| ==> key(all[j]) == keys[j]
    ensures var w := RunUpTo(keys, |keys|, init, failedWrites).written;
      && InRange(w, |keys|)
      && forall p, q :: 0 <= p < q < |w| ==> key(Select(all, w)[p]) != key(Select(all, w)[q])
  {
    var w := RunUpTo(keys, |keys|, init, failedWrites).written;
    RunFreshDistinct(keys, init, failedWrites);
    var rows := Select(all, w);
    SelectAt(all, w);
    forall p, q | 0 <= p < q < |rows| ensures key(rows[p]) != key(rows[q]) {
      assert key(rows[p]) == keys[w[p] - 1] && key(rows[q]) == keys[w[q] - 1];
    }
  }
}
