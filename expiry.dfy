/** The expiry index: records of pending expirations kept sorted by timestamp,
    the lower-bound insertion point found by binary search, and the two runs
    (leading due records, trailing pending records) that the sweep splits it into. */
module Expiry {

  /** One pending expiration: the logical key and the time, in milliseconds
      since the epoch, at which it falls due. */
  datatype Record = Record(key: string, timestamp: int)

  /** The index invariant: non-decreasing by timestamp. */
  predicate Sorted(rs: seq<Record>) {
    forall i, j :: 0 <= i < j < |rs| ==> rs[i].timestamp <= rs[j].timestamp
  }

  // ---------------------------------------------------------------------------
  // The sweep's split: lodash's `first` and `last` with a predicate
  // ---------------------------------------------------------------------------

  /** The leading run of records due at or before `now` (takeWhile). */
  function DuePrefix(rs: seq<Record>, now: int): (d: seq<Record>)
    ensures |d| <= |rs| && d == rs[..|d|]
    ensures forall i :: 0 <= i < |d| ==> d[i].timestamp <= now
    ensures |d| < |rs| ==> rs[|d|].timestamp > now
  {
    if rs == [] || rs[0].timestamp > now then [] else [rs[0]] + DuePrefix(rs[1..], now)
  }

  /** The trailing run of records due after `now` (takeRightWhile). */
  function PendingSuffix(rs: seq<Record>, now: int): (p: seq<Record>)
    ensures |p| <= |rs| && p == rs[|rs| - |p|..]
    ensures forall i :: 0 <= i < |p| ==> p[i].timestamp > now
    ensures |p| < |rs| ==> rs[|rs| - |p| - 1].timestamp <= now
  {
    if rs == [] || rs[|rs| - 1].timestamp <= now then []
    else PendingSuffix(rs[..|rs| - 1], now) + [rs[|rs| - 1]]
  }

  /** Reference definition: the records of `rs`, in order, that are due at or
      before `now` (when `due`) or after it (when not). */
  function Filtered(rs: seq<Record>, now: int, due: bool): seq<Record> {
    if rs == [] then [] else Select(rs[0], now, due) + Filtered(rs[1..], now, due)
  }

  /** The record alone when its due-ness is `due`, nothing otherwise. */
  function Select(r: Record, now: int, due: bool): seq<Record> {
    if (r.timestamp <= now) == due then [r] else []
  }

  /** In a sorted index everything from a pending record on is pending. */
  lemma {:induction false} PendingFrom(rs: seq<Record>, now: int, n: nat)
    requires Sorted(rs)
    requires n < |rs| && rs[n].timestamp > now
    ensures forall i :: n <= i < |rs| ==> rs[i].timestamp > now
  {
    forall i | n <= i < |rs| ensures rs[i].timestamp > now {
      assert rs[n].timestamp <= rs[i].timestamp;
    }
  }

  /** When the first `n` records are due and the rest pending, the leading
      due run has `n` records and the trailing pending run the rest. */
  lemma {:induction false} RunLengthsAtBoundary(rs: seq<Record>, now: int, n: nat)
    requires n <= |rs|
    requires forall i :: 0 <= i < n ==> rs[i].timestamp <= now
    requires forall i :: n <= i < |rs| ==> rs[i].timestamp > now
    ensures |DuePrefix(rs, now)| == n
    ensures |PendingSuffix(rs, now)| == |rs| - n
  {
    var d, p := DuePrefix(rs, now), PendingSuffix(rs, now);
    assert |d| > 0 ==> d[|d| - 1] == rs[|d| - 1];
    assert |p| > 0 ==> p[0] == rs[|rs| - |p|];
  }

  /** On a sorted index the trailing pending run is as long as what the
      leading due run leaves over. */
  lemma {:induction false} RunLengthsOfSorted(rs: seq<Record>, now: int)
    requires Sorted(rs)
    ensures |DuePrefix(rs, now)| + |PendingSuffix(rs, now)| == |rs|
  {
    var n := |DuePrefix(rs, now)|;
    if n < |rs| {
      PendingFrom(rs, now, n);
    }
    RunLengthsAtBoundary(rs, now, n);
  }

  /** The leading due run and the trailing pending run of a sorted index are
      an exact prefix/suffix split of it. */
  lemma {:induction false} PartitionOfSorted(rs: seq<Record>, now: int)
    requires Sorted(rs)
    ensures DuePrefix(rs, now) + PendingSuffix(rs, now) == rs
  {
    var d, p := DuePrefix(rs, now), PendingSuffix(rs, now);
    RunLengthsOfSorted(rs, now);
    SplitAt(rs, |d|);
  }

  lemma {:induction false} SplitAt(rs: seq<Record>, n: nat)
    requires n <= |rs|
    ensures rs[..n] + rs[|rs| - (|rs| - n)..] == rs
  {
    assert rs[|rs| - (|rs| - n)..] == rs[n..];
  }

  /** No pending record stands before a due one. */
  predicate DueBeforePending(rs: seq<Record>, now: int) {
    forall i, j :: 0 <= i < j < |rs| && rs[j].timestamp <= now ==> rs[i].timestamp <= now
  }

  /** The two runs split the index exactly when no pending record stands
      before a due one; a sorted index is one such. */
  lemma {:induction false} ExactSplitIffDueBeforePending(rs: seq<Record>, now: int)
    ensures DuePrefix(rs, now) + PendingSuffix(rs, now) == rs <==> DueBeforePending(rs, now)
    ensures Sorted(rs) ==> DueBeforePending(rs, now)
  {
    if DueBeforePending(rs, now) {
      OrderedRunsSplitExactly(rs, now);
    }
    if DuePrefix(rs, now) + PendingSuffix(rs, now) == rs {
      ExactSplitOrdersRuns(rs, now);
    }
  }

  lemma {:induction false} OrderedRunsSplitExactly(rs: seq<Record>, now: int)
    requires DueBeforePending(rs, now)
    ensures DuePrefix(rs, now) + PendingSuffix(rs, now) == rs
  {
    var n := |DuePrefix(rs, now)|;
    forall j | n < j < |rs| ensures rs[j].timestamp > now {
      assert rs[n].timestamp > now;
    }
    RunLengthsAtBoundary(rs, now, n);
    SplitAt(rs, n);
  }

  lemma {:induction false} ExactSplitOrdersRuns(rs: seq<Record>, now: int)
    requires DuePrefix(rs, now) + PendingSuffix(rs, now) == rs
    ensures DueBeforePending(rs, now)
  {
    var d, p := DuePrefix(rs, now), PendingSuffix(rs, now);
    forall k | |d| <= k < |rs| ensures rs[k].timestamp > now {
      assert rs[k] == p[k - |d|];
    }
    forall k | 0 <= k < |d| ensures rs[k].timestamp <= now {
      assert rs[k] == d[k];
    }
  }

  /** Without the sort order the two runs need not cover the index: a due
      record behind a pending one is neither expired nor kept. */
  lemma {:induction false} PartitionNeedsSortedOrder()
    ensures var rs := [Record("a", 1), Record("b", 5), Record("c", 2)];
            DuePrefix(rs, 3) + PendingSuffix(rs, 3) != rs
  {
    var rs := [Record("a", 1), Record("b", 5), Record("c", 2)];
    assert DuePrefix(rs[1..], 3) == [];
    assert DuePrefix(rs, 3) == [rs[0]];
    assert PendingSuffix(rs, 3) == [];
  }

  /** In a sorted index every record due at or before `now` lies in the leading run. */
  lemma {:induction false} DueRecordsLieInPrefix(rs: seq<Record>, now: int, i: int)
    requires Sorted(rs)
    requires 0 <= i < |rs| && rs[i].timestamp <= now
    ensures i < |DuePrefix(rs, now)|
  {
    var n := |DuePrefix(rs, now)|;
    assert forall j :: n <= j < |rs| ==> rs[n].timestamp <= rs[j].timestamp;
  }

  lemma {:induction false} FilteredAppend(a: seq<Record>, b: seq<Record>, now: int, due: bool)
    ensures Filtered(a + b, now, due) == Filtered(a, now, due) + Filtered(b, now, due)
  {
    if a != [] {
      var ab := a + b;
      assert ab[0] == a[0] && ab[1..] == a[1..] + b;
      FilteredAppend(a[1..], b, now, due);
      var h := Select(a[0], now, due);
      assert Filtered(ab, now, due) == h + (Filtered(a[1..], now, due) + Filtered(b, now, due));
    } else {
      assert a + b == b;
    }
  }

  /** Filtering keeps every record that passes and drops every one that fails. */
  lemma {:induction false} FilteredAll(rs: seq<Record>, now: int, due: bool)
    ensures (forall i :: 0 <= i < |rs| ==> (rs[i].timestamp <= now) == due) ==> Filtered(rs, now, due) == rs
    ensures (forall i :: 0 <= i < |rs| ==> (rs[i].timestamp <= now) != due) ==> Filtered(rs, now, due) == []
  {
    if rs != [] {
      FilteredAll(rs[1..], now, due);
      assert forall i :: 1 <= i < |rs| ==> rs[1..][i - 1] == rs[i];
    }
  }

  /** Filtering a due run followed by a pending run gives back each run. */
  lemma {:induction false} FiltersOfRuns(d: seq<Record>, p: seq<Record>, now: int)
    requires forall i :: 0 <= i < |d| ==> d[i].timestamp <= now
    requires forall i :: 0 <= i < |p| ==> p[i].timestamp > now
    ensures Filtered(d + p, now, true) == d
    ensures Filtered(d + p, now, false) == p
  {
    FilteredAppend(d, p, now, true);
    FilteredAppend(d, p, now, false);
    FilteredAll(d, now, true);
    FilteredAll(d, now, false);
    FilteredAll(p, now, true);
    FilteredAll(p, now, false);
  }

  /** On a sorted index the leading run is exactly the due records and the
      trailing run exactly the pending ones. */
  lemma {:induction false} RunsAreFilters(rs: seq<Record>, now: int)
    requires Sorted(rs)
    ensures DuePrefix(rs, now) == Filtered(rs, now, true)
    ensures PendingSuffix(rs, now) == Filtered(rs, now, false)
  {
    PartitionOfSorted(rs, now);
    FiltersOfRuns(DuePrefix(rs, now), PendingSuffix(rs, now), now);
  }

  /** The trailing pending run holds nothing due, so a second split at the
      same `now` finds no leading due run. */
  lemma {:induction false} PendingSuffixHasNoDuePrefix(rs: seq<Record>, now: int)
    ensures DuePrefix(PendingSuffix(rs, now), now) == []
  {
    var p := PendingSuffix(rs, now);
    if p != [] {
      assert p[0].timestamp > now;
    }
  }

  /** A suffix of a sorted index is sorted. */
  lemma {:induction false} SuffixSorted(rs: seq<Record>, k: nat)
    requires Sorted(rs) && k <= |rs|
    ensures Sorted(rs[k..])
  {
    forall i, j | 0 <= i < j < |rs| - k ensures rs[k..][i].timestamp <= rs[k..][j].timestamp {
      assert rs[k..][i] == rs[k + i] && rs[k..][j] == rs[k + j];
    }
  }

  /** The kept run of a sorted index is sorted. */
  lemma {:induction false} PendingSuffixSorted(rs: seq<Record>, now: int)
    requires Sorted(rs)
    ensures Sorted(PendingSuffix(rs, now))
  {
    SuffixSorted(rs, |rs| - |PendingSuffix(rs, now)|);
  }

  /** `_.first(expiries, due)`: counts the leading due records. */
  method FirstDue(rs: seq<Record>, now: int) returns (expired: seq<Record>)
    ensures expired == DuePrefix(rs, now)
  {
    var n := 0;
    while n < |rs| && rs[n].timestamp <= now
      invariant 0 <= n <= |rs|
      invariant forall j :: 0 <= j < n ==> rs[j].timestamp <= now
    {
      n := n + 1;
    }
    expired := rs[..n];
    var d := DuePrefix(rs, now);
    assert forall i :: 0 <= i < |d| ==> rs[i].timestamp <= now;
    assert n < |rs| ==> rs[n].timestamp > now;
    assert |d| == n;
  }

  /** `_.last(expiries, pending)`: counts the trailing pending records. */
  method LastPending(rs: seq<Record>, now: int) returns (kept: seq<Record>)
    ensures kept == PendingSuffix(rs, now)
  {
    var n := 0;
    while n < |rs| && rs[|rs| - 1 - n].timestamp > now
      invariant 0 <= n <= |rs|
      invariant forall j :: |rs| - n <= j < |rs| ==> rs[j].timestamp > now
    {
      n := n + 1;
    }
    kept := rs[|rs| - n..];
    var p := PendingSuffix(rs, now);
    assert forall i :: |rs| - |p| <= i < |rs| ==> rs[i].timestamp > now;
    assert n < |rs| ==> rs[|rs| - 1 - n].timestamp <= now;
    assert |p| == n;
  }

  // ---------------------------------------------------------------------------
  // Sorted insertion: lodash's `sortedIndex` and the splice
  // ---------------------------------------------------------------------------

  /** The binary search of `sortedIndex` over the window [lo, hi), comparing
      by timestamp: a record strictly earlier than `t` moves the window right. */
  function Search(rs: seq<Record>, t: int, lo: nat, hi: nat): (i: nat)
    requires lo <= hi <= |rs|
    ensures lo <= i <= hi
    decreases hi - lo
  {
    if lo < hi then
      var mid := (lo + hi) / 2;
      if rs[mid].timestamp < t then Search(rs, t, mid + 1, hi) else Search(rs, t, lo, mid)
    else lo
  }

  /** Where `sortedIndex(expiries, {timestamp: t}, 'timestamp')` lands. */
  function SortedIndex(rs: seq<Record>, t: int): (i: nat)
    ensures i <= |rs|
  {
    Search(rs, t, 0, |rs|)
  }

  lemma {:induction false} SearchIsLowerBound(rs: seq<Record>, t: int, lo: nat, hi: nat)
    requires Sorted(rs) && lo <= hi <= |rs|
    requires forall j :: 0 <= j < lo ==> rs[j].timestamp < t
    requires forall j :: hi <= j < |rs| ==> rs[j].timestamp >= t
    ensures forall j :: 0 <= j < Search(rs, t, lo, hi) ==> rs[j].timestamp < t
    ensures forall j :: Search(rs, t, lo, hi) <= j < |rs| ==> rs[j].timestamp >= t
    decreases hi - lo
  {
    if lo < hi {
      var mid := (lo + hi) / 2;
      if rs[mid].timestamp < t {
        SearchIsLowerBound(rs, t, mid + 1, hi);
      } else {
        SearchIsLowerBound(rs, t, lo, mid);
      }
    }
  }

  /** On a sorted index the insertion point is the lowest one that keeps the
      order: every record before it is strictly earlier than `t`, every record
      from it on is at `t` or later. */
  lemma {:induction false} SortedIndexIsLowerBound(rs: seq<Record>, t: int)
    requires Sorted(rs)
    ensures SortedIndex(rs, t) <= |rs|
    ensures forall j :: 0 <= j < SortedIndex(rs, t) ==> rs[j].timestamp < t
    ensures forall j :: SortedIndex(rs, t) <= j < |rs| ==> rs[j].timestamp >= t
  {
    SearchIsLowerBound(rs, t, 0, |rs|);
  }

  /** The binary search loop of `sortedIndex`. */
  method FindInsertIndex(rs: seq<Record>, t: int) returns (i: nat)
    ensures i == SortedIndex(rs, t)
    ensures Sorted(rs) ==> i <= |rs| && (forall j :: 0 <= j < i ==> rs[j].timestamp < t)
                                     && (forall j :: i <= j < |rs| ==> rs[j].timestamp >= t)
  {
    var lo, hi := 0, |rs|;
    while lo < hi
      invariant lo <= hi <= |rs|
      invariant Search(rs, t, lo, hi) == SortedIndex(rs, t)
      decreases hi - lo
    {
      var mid := (lo + hi) / 2;
      if rs[mid].timestamp < t {
        lo := mid + 1;
      } else {
        hi := mid;
      }
    }
    i := lo;
    if Sorted(rs) {
      SortedIndexIsLowerBound(rs, t);
    }
  }

  /** The index after `splice(sortedIndex(...), 0, r)`. */
  function Inserted(rs: seq<Record>, r: Record): (s: seq<Record>)
    ensures |s| == |rs| + 1 && s[SortedIndex(rs, r.timestamp)] == r
  {
    var i := SortedIndex(rs, r.timestamp);
    rs[..i] + [r] + rs[i..]
  }

  /** Inserting keeps a sorted index sorted. */
  lemma {:induction false} InsertedKeepsSorted(rs: seq<Record>, r: Record)
    requires Sorted(rs)
    ensures Sorted(Inserted(rs, r))
  {
    var i := SortedIndex(rs, r.timestamp);
    SortedIndexIsLowerBound(rs, r.timestamp);
    var s := Inserted(rs, r);
    assert forall k :: 0 <= k < i ==> s[k] == rs[k];
    assert s[i] == r;
    assert forall k :: i < k < |s| ==> s[k] == rs[k - 1];
  }

  /** The splice removes nothing: the index grows by exactly the new record,
      and taking it out again gives back the old index in its old order. */
  lemma {:induction false} InsertedAddsExactlyOne(rs: seq<Record>, r: Record)
    ensures |Inserted(rs, r)| == |rs| + 1
    ensures SortedIndex(rs, r.timestamp) <= |rs|
    ensures Inserted(rs, r)[SortedIndex(rs, r.timestamp)] == r
    ensures Inserted(rs, r)[..SortedIndex(rs, r.timestamp)]
            + Inserted(rs, r)[SortedIndex(rs, r.timestamp) + 1..] == rs
    ensures multiset(Inserted(rs, r)) == multiset(rs) + multiset{r}
  {
    var i := SortedIndex(rs, r.timestamp);
    var s := Inserted(rs, r);
    assert s[..i] == rs[..i];
    assert s[i + 1..] == rs[i..];
    assert rs == rs[..i] + rs[i..];
  }
}
