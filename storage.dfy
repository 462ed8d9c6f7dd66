/** The storage facade: every logical key lives in a shared string-keyed
    medium under the prefix "localstorage:", and the expiry index lives under
    the reserved logical key "expiries". Reads through the exported `get` and
    `has` first sweep the index, evicting every entry whose record is due. */
module LocalStorage {
  import opened Expiry

  datatype Option<T> = None | Some(value: T)

  /** A value as the medium holds it once decoded: a string, a number, or a
      list of expiry records (the stored index). */
  datatype Value = Str(s: string) | Num(n: int) | Index(records: seq<Record>)

  const Prefix: string := "localstorage:"
  const ExpiryKey: string := "expiries"

  /** The medium key under which a logical key is stored. */
  function Entry(key: string): (k: string)
    ensures |k| == |Prefix| + |key| && k[..|Prefix|] == Prefix && k[|Prefix|..] == key
  {
    Prefix + key
  }

  /** Distinct logical keys never share a medium entry. */
  lemma {:induction false} EntryInjective(a: string, b: string)
    ensures Entry(a) == Entry(b) <==> a == b
  {
    if Entry(a) == Entry(b) {
      assert a == Entry(a)[|Prefix|..];
      assert b == Entry(b)[|Prefix|..];
    }
  }

  /** The medium entries named by some records. */
  function Entries(rs: seq<Record>): set<string> {
    set r | r in rs :: Entry(r.key)
  }

  /** Whether the medium holds a list under the index entry. */
  predicate HasIndex(m: map<string, Value>) {
    Entry(ExpiryKey) in m && m[Entry(ExpiryKey)].Index?
  }

  /** The index invariant, stated of the medium: a stored index is sorted. */
  predicate IndexSorted(m: map<string, Value>) {
    HasIndex(m) ==> Sorted(m[Entry(ExpiryKey)].records)
  }

  // ---------------------------------------------------------------------------
  // The sweep
  // ---------------------------------------------------------------------------

  /** The records the sweep splits: the stored list, or nothing when there is
      no index entry or it holds no list (lodash's `first` then finds nothing). */
  function SweepView(m: map<string, Value>): (rs: seq<Record>)
    ensures rs != [] ==> HasIndex(m)
    ensures HasIndex(m) ==> rs == m[Entry(ExpiryKey)].records
  {
    if HasIndex(m) then m[Entry(ExpiryKey)].records else []
  }

  /** The medium after one sweep at `now`: when the index has a leading run of
      due records, their keys are removed and the trailing pending run is
      written back as the new index; otherwise nothing changes. */
  function Swept(m: map<string, Value>, now: int): (r: map<string, Value>)
    ensures r.Keys <= m.Keys
    ensures Entry(ExpiryKey) in r <==> Entry(ExpiryKey) in m
  {
    var rs := SweepView(m);
    var expired := DuePrefix(rs, now);
    if expired == [] then m
    else (m - Entries(expired))[Entry(ExpiryKey) := Index(PendingSuffix(rs, now))]
  }

  /** Removing the keys of one more record removes one more entry. */
  lemma {:induction false} EntriesOfLonger(rs: seq<Record>, j: nat)
    requires j < |rs|
    ensures Entries(rs[..j + 1]) == Entries(rs[..j]) + {Entry(rs[j].key)}
  {
    assert rs[..j + 1] == rs[..j] + [rs[j]];
  }

  /** The sweep changes nothing when there is no index, or when its first
      record is not yet due. */
  lemma {:induction false} SweepWithoutDueRecordIsNoop(m: map<string, Value>, now: int)
    requires !HasIndex(m) || m[Entry(ExpiryKey)].records == []
             || m[Entry(ExpiryKey)].records[0].timestamp > now
    ensures Swept(m, now) == m
  {
  }

  /** After a sweep over a sorted index no key named by a record due at or
      before `now` remains (the index's own entry is written back). */
  lemma {:induction false} SweepEvictsDueKeys(m: map<string, Value>, now: int, r: Record)
    requires IndexSorted(m)
    requires r in SweepView(m) && r.timestamp <= now && r.key != ExpiryKey
    ensures Entry(r.key) !in Swept(m, now)
  {
    var rs := SweepView(m);
    var i :| 0 <= i < |rs| && rs[i] == r;
    DueRecordsLieInPrefix(rs, now, i);
    var expired := DuePrefix(rs, now);
    assert expired[i] == r;
    assert Entry(r.key) in Entries(expired);
    EntryInjective(r.key, ExpiryKey);
  }

  /** After a sweep over a sorted index, the stored index is exactly the
      records due after `now`, and the expired run followed by it is the old index. */
  lemma {:induction false} SweptIndexIsPending(m: map<string, Value>, now: int)
    requires HasIndex(m) && IndexSorted(m)
    ensures HasIndex(Swept(m, now))
    ensures Swept(m, now)[Entry(ExpiryKey)].records == Filtered(SweepView(m), now, false)
    ensures DuePrefix(SweepView(m), now) + Swept(m, now)[Entry(ExpiryKey)].records == SweepView(m)
  {
    var rs := SweepView(m);
    RunsAreFilters(rs, now);
    PartitionOfSorted(rs, now);
    if DuePrefix(rs, now) == [] {
      assert PendingSuffix(rs, now) == rs;
    }
  }

  /** Every entry other than the index survives a sweep unchanged unless a due
      record of the leading run names it, and nothing new appears. */
  lemma {:induction false} SweepLeavesOtherEntries(m: map<string, Value>, now: int, k: string)
    requires k != Entry(ExpiryKey)
    ensures k in Swept(m, now) <==> k in m && k !in Entries(DuePrefix(SweepView(m), now))
    ensures k in Swept(m, now) ==> Swept(m, now)[k] == m[k]
  {
    var expired := DuePrefix(SweepView(m), now);
    if expired == [] {
      assert Entries(expired) == {};
    }
  }

  /** A sweep changes the medium exactly when the index has a leading due
      record: it then at least shortens the stored index. */
  lemma {:induction false} SweepChangesIffDue(m: map<string, Value>, now: int)
    ensures Swept(m, now) == m <==> DuePrefix(SweepView(m), now) == []
  {
    var rs := SweepView(m);
    var d, p := DuePrefix(rs, now), PendingSuffix(rs, now);
    if d != [] {
      assert rs[0].timestamp <= now;
      assert |p| < |rs|;
      assert Swept(m, now)[Entry(ExpiryKey)] == Index(p);
      assert m[Entry(ExpiryKey)] == Index(rs);
    }
  }

  /** A second sweep at the same `now` changes nothing, whatever the index. */
  lemma {:induction false} SweepIdempotent(m: map<string, Value>, now: int)
    ensures Swept(Swept(m, now), now) == Swept(m, now)
  {
    var rs := SweepView(m);
    if DuePrefix(rs, now) != [] {
      var m' := Swept(m, now);
      assert SweepView(m') == PendingSuffix(rs, now);
      PendingSuffixHasNoDuePrefix(rs, now);
    }
  }

  /** A sweep keeps a sorted index sorted. */
  lemma {:induction false} SweepKeepsIndexSorted(m: map<string, Value>, now: int)
    requires IndexSorted(m)
    ensures IndexSorted(Swept(m, now))
  {
    var rs := SweepView(m);
    if DuePrefix(rs, now) != [] {
      PendingSuffixSorted(rs, now);
    }
  }

  // ---------------------------------------------------------------------------
  // Sorted insertion into the stored index
  // ---------------------------------------------------------------------------

  /** The index as `expireAt` loads it: the empty list when none is stored,
      None when the entry holds something that is not a list (the splice then
      throws). */
  function LoadedIndex(m: map<string, Value>): (o: Option<seq<Record>>)
    ensures o.None? <==> Entry(ExpiryKey) in m && !HasIndex(m)
    ensures o.Some? ==> o.value == SweepView(m)
  {
    if Entry(ExpiryKey) !in m then Some([])
    else if m[Entry(ExpiryKey)].Index? then Some(m[Entry(ExpiryKey)].records)
    else None
  }

  /** The medium after `expireAt(key, t)`, or None when it throws. */
  function AfterExpireAt(m: map<string, Value>, key: string, t: int): (r: Option<map<string, Value>>)
    ensures r.Some? <==> LoadedIndex(m).Some?
    ensures r.Some? ==> HasIndex(r.value) && r.value.Keys == m.Keys + {Entry(ExpiryKey)}
    ensures r.Some? ==> |SweepView(r.value)| == |LoadedIndex(m).value| + 1
  {
    match LoadedIndex(m)
    case None => None
    case Some(rs) => Some(m[Entry(ExpiryKey) := Index(Inserted(rs, Record(key, t)))])
  }

  /** `expireAt` fails exactly when the index entry holds something other than a list. */
  lemma {:induction false} ExpireAtFailsOnlyOnForeignIndex(m: map<string, Value>, key: string, t: int)
    ensures AfterExpireAt(m, key, t) == None <==> Entry(ExpiryKey) in m && !HasIndex(m)
  {
  }

  /** With no index stored yet, `expireAt` stores the single new record. */
  lemma {:induction false} ExpireAtStartsEmptyIndex(m: map<string, Value>, key: string, t: int)
    requires Entry(ExpiryKey) !in m
    ensures AfterExpireAt(m, key, t) == Some(m[Entry(ExpiryKey) := Index([Record(key, t)])])
  {
    var empty: seq<Record> := [];
    assert SortedIndex(empty, t) == 0;
    assert Inserted(empty, Record(key, t)) == [Record(key, t)];
  }

  /** `expireAt` grows the index by exactly the record {key, t}, keeps the
      order of the other records, and touches no other entry. */
  lemma {:induction false} ExpireAtInsertsOneRecord(m: map<string, Value>, key: string, t: int)
    requires LoadedIndex(m).Some?
    ensures AfterExpireAt(m, key, t).Some?
    ensures var m', rs := AfterExpireAt(m, key, t).value, LoadedIndex(m).value;
            var s, i := m'[Entry(ExpiryKey)].records, SortedIndex(rs, t);
            HasIndex(m') && |s| == |rs| + 1 && i <= |rs| && s[i] == Record(key, t)
            && s[..i] + s[i + 1..] == rs
            && multiset(s) == multiset(rs) + multiset{Record(key, t)}
    ensures var m' := AfterExpireAt(m, key, t).value;
            m'.Keys == m.Keys + {Entry(ExpiryKey)}
            && forall x :: x in m && x != Entry(ExpiryKey) ==> m'[x] == m[x]
  {
    InsertedAddsExactlyOne(LoadedIndex(m).value, Record(key, t));
  }

  /** `expireAt` keeps a sorted index sorted. */
  lemma {:induction false} ExpireAtKeepsIndexSorted(m: map<string, Value>, key: string, t: int)
    requires IndexSorted(m) && LoadedIndex(m).Some?
    ensures IndexSorted(AfterExpireAt(m, key, t).value)
  {
    InsertedKeepsSorted(LoadedIndex(m).value, Record(key, t));
  }

  // ---------------------------------------------------------------------------
  // What callers of the exported get/has observe
  // ---------------------------------------------------------------------------

  /** After `expireAt(key, t)` with `t <= now`, the sweep that the exported
      `has` and `get` run first evicts the key. */
  lemma {:induction false} ExpiredKeyIsGone(m: map<string, Value>, key: string, t: int, now: int)
    requires IndexSorted(m) && LoadedIndex(m).Some?
    requires key != ExpiryKey && t <= now
    ensures AfterExpireAt(m, key, t).Some?
    ensures Entry(key) !in Swept(AfterExpireAt(m, key, t).value, now)
  {
    var m' := AfterExpireAt(m, key, t).value;
    ExpireAtKeepsIndexSorted(m, key, t);
    ExpireAtInsertsOneRecord(m, key, t);
    var s := m'[Entry(ExpiryKey)].records;
    assert Record(key, t) in s;
    SweepEvictsDueKeys(m', now, Record(key, t));
  }

  /** A record appears in the leading due run only if it is in the index and due. */
  lemma {:induction false} DueRunMember(rs: seq<Record>, now: int, r: Record)
    requires r in DuePrefix(rs, now)
    ensures r in rs && r.timestamp <= now
  {
    var d := DuePrefix(rs, now);
    var i :| 0 <= i < |d| && d[i] == r;
    assert rs[i] == r;
  }

  /** No record of the leading due run of an index grown by a future record
      for `key` names `key`, when no record of the old index due by `now` did. */
  lemma {:induction false} NoDueRecordNames(rs: seq<Record>, key: string, t: int, now: int)
    requires t > now
    requires forall r :: r in rs && r.key == key ==> r.timestamp > now
    ensures Entry(key) !in Entries(DuePrefix(Inserted(rs, Record(key, t)), now))
  {
    var s := Inserted(rs, Record(key, t));
    InsertedAddsExactlyOne(rs, Record(key, t));
    forall x | x in DuePrefix(s, now) ensures Entry(x.key) != Entry(key) {
      DueRunMember(s, now, x);
      assert x in multiset(s);
      EntryInjective(x.key, key);
    }
  }

  /** A key set and then given an expiry in the future is still readable
      through the exported `get` at the same `now`, provided no record already
      due names it. */
  lemma {:induction false} FutureExpiryKeepsValue(m: map<string, Value>, key: string, v: Value, ms: int, now: int)
    requires key != ExpiryKey && ms > 0
    requires LoadedIndex(m).Some?
    requires forall r :: r in LoadedIndex(m).value && r.key == key ==> r.timestamp > now
    ensures AfterExpireAt(m[Entry(key) := v], key, now + ms).Some?
    ensures var m' := AfterExpireAt(m[Entry(key) := v], key, now + ms).value;
            Entry(key) in Swept(m', now) && Swept(m', now)[Entry(key)] == v
  {
    var m' := SetThenExpireAt(m, key, v, now + ms, now);
    assert AfterExpireAt(m[Entry(key) := v], key, now + ms).value == m';
    SweepLeavesOtherEntries(m', now, Entry(key));
  }

  /** After `set(key, v)` and `expireAt(key, t)` with `t > now`, the entry
      holds `v` and no record of the expired run names it. */
  lemma {:induction false} SetThenExpireAt(m: map<string, Value>, key: string, v: Value, t: int, now: int)
    returns (m': map<string, Value>)
    requires key != ExpiryKey && t > now
    requires LoadedIndex(m).Some?
    requires forall r :: r in LoadedIndex(m).value && r.key == key ==> r.timestamp > now
    ensures AfterExpireAt(m[Entry(key) := v], key, t) == Some(m')
    ensures Entry(key) != Entry(ExpiryKey) && Entry(key) in m' && m'[Entry(key)] == v
    ensures Entry(key) !in Entries(DuePrefix(SweepView(m'), now))
  {
    EntryInjective(key, ExpiryKey);
    var m1 := m[Entry(key) := v];
    assert LoadedIndex(m1) == LoadedIndex(m);
    var rs := LoadedIndex(m).value;
    var s := Inserted(rs, Record(key, t));
    m' := m1[Entry(ExpiryKey) := Index(s)];
    assert SweepView(m') == s;
    NoDueRecordNames(rs, key, t, now);
  }

  /** Records are never deduplicated: a stale due record for a key evicts it
      even after the key was set again and given an expiry an hour away. */
  lemma {:induction false} StaleRecordEvictsRewrittenKey()
    ensures var m := map[Entry(ExpiryKey) := Index([Record("a", 1)])];
            var m1 := m[Entry("a") := Num(2)];
            AfterExpireAt(m1, "a", 5 + 3600000).Some?
            && Entry("a") !in Swept(AfterExpireAt(m1, "a", 5 + 3600000).value, 5)
  {
    var m := map[Entry(ExpiryKey) := Index([Record("a", 1)])];
    var m1 := m[Entry("a") := Num(2)];
    assert Entry("a") != Entry(ExpiryKey) by { EntryInjective("a", ExpiryKey); }
    assert LoadedIndex(m1) == Some([Record("a", 1)]);
    SortedIndexIsLowerBound([Record("a", 1)], 5 + 3600000);
    var s := Inserted([Record("a", 1)], Record("a", 5 + 3600000));
    assert s == [Record("a", 1), Record("a", 5 + 3600000)];
    var m' := AfterExpireAt(m1, "a", 5 + 3600000).value;
    assert SweepView(m') == s;
    SweepEvictsDueKeys(m', 5, Record("a", 1));
  }

  // ---------------------------------------------------------------------------
  // The facade over the medium
  // ---------------------------------------------------------------------------

  /** The wrapper around one storage medium, given at construction. */
  class LocalStorageWrapper {
    /** The medium, keyed by full (prefixed) keys; it may hold entries of
        other namespaces too. */
    var medium: map<string, Value>

    constructor (medium: map<string, Value>)
      ensures this.medium == medium
    {
      this.medium := medium;
    }

    /** Writes exactly the entry of `key`. */
    method Set(key: string, value: Value)
      modifies this
      ensures medium == old(medium)[Entry(key) := value]
    {
      medium := medium[Entry(key) := value];
    }

    /** Reads the entry of `key` without sweeping; None stands for null. */
    method Get(key: string) returns (v: Option<Value>)
      ensures Entry(key) in medium ==> v == Some(medium[Entry(key)])
      ensures Entry(key) !in medium ==> v == None
    {
      v := if Entry(key) in medium then Some(medium[Entry(key)]) else None;
    }

    /** Whether the entry of `key` is present, without sweeping. */
    method Has(key: string) returns (present: bool)
      ensures present <==> Entry(key) in medium
    {
      var v := Get(key);
      present := v != None;
    }

    /** Deletes the entry of `key` if present and no other entry. */
    method Remove(key: string)
      modifies this
      ensures medium == old(medium) - {Entry(key)}
      ensures Entry(key) !in medium
      ensures forall k :: k != Entry(key) ==> (k in medium <==> k in old(medium))
    {
      medium := medium - {Entry(key)};
    }

    /** Wipes the whole medium, other namespaces and the index included. */
    method Clear()
      modifies this
      ensures medium == map[]
    {
      medium := map[];
    }

    /** Whether the medium holds no entry at all, of any namespace. */
    method IsEmpty() returns (empty: bool)
      ensures empty <==> medium == map[]
    {
      empty := |medium| == 0;
    }

    /** Inserts the record {key, t} into the index at its sorted position;
        `ok` is false where the source throws because the index entry holds
        something other than a list, and then nothing changes. */
    method ExpireAt(key: string, t: int) returns (ok: bool)
      modifies this
      ensures ok <==> AfterExpireAt(old(medium), key, t).Some?
      ensures medium == if ok then AfterExpireAt(old(medium), key, t).value else old(medium)
      ensures IndexSorted(old(medium)) ==> IndexSorted(medium)
    {
      var rs: seq<Record> := [];
      var present := Has(ExpiryKey);
      if present {
        var stored := Get(ExpiryKey);
        if !stored.value.Index? {
          return false;
        }
        rs := stored.value.records;
      }
      var i := FindInsertIndex(rs, t);
      rs := rs[..i] + [Record(key, t)] + rs[i..];
      if IndexSorted(old(medium)) {
        ExpireAtKeepsIndexSorted(old(medium), key, t);
      }
      Set(ExpiryKey, Index(rs));
      ok := true;
    }

    /** `expire(key, ms)` is `expireAt(key, now + ms)`. */
    method Expire(key: string, msFromNow: int, now: int) returns (ok: bool)
      modifies this
      ensures ok <==> AfterExpireAt(old(medium), key, now + msFromNow).Some?
      ensures medium == if ok then AfterExpireAt(old(medium), key, now + msFromNow).value else old(medium)
      ensures IndexSorted(old(medium)) ==> IndexSorted(medium)
    {
      ok := ExpireAt(key, now + msFromNow);
    }

    /** The sweep: removes the key of every record in the leading due run,
        one by one, then writes back the trailing pending run. */
    method ExpireKeys(now: int)
      modifies this
      ensures medium == Swept(old(medium), now)
    {
      var present := Has(ExpiryKey);
      if !present {
        return;
      }
      var stored := Get(ExpiryKey);
      var rs := if stored.value.Index? then stored.value.records else [];
      assert rs == SweepView(medium);
      var toBeExpired := FirstDue(rs, now);
      if toBeExpired == [] {
        return;
      }
      var toBeKept := LastPending(rs, now);
      RemoveEach(toBeExpired);
      Set(ExpiryKey, Index(toBeKept));
    }

    /** `_.each(records, remove)`: removes the entry of every record's key. */
    method RemoveEach(records: seq<Record>)
      modifies this
      ensures medium == old(medium) - Entries(records)
    {
      var j := 0;
      while j < |records|
        invariant 0 <= j <= |records|
        invariant medium == old(medium) - Entries(records[..j])
      {
        EntriesOfLonger(records, j);
        Remove(records[j].key);
        j := j + 1;
      }
      assert records[..j] == records;
    }

    /** The exported `get`: sweeps, then reads. */
    method GetAfterSweep(key: string, now: int) returns (v: Option<Value>)
      modifies this
      ensures medium == Swept(old(medium), now)
      ensures v == if Entry(key) in medium then Some(medium[Entry(key)]) else None
    {
      ExpireKeys(now);
      v := Get(key);
    }

    /** The exported `has`: sweeps, then tests presence. */
    method HasAfterSweep(key: string, now: int) returns (present: bool)
      modifies this
      ensures medium == Swept(old(medium), now)
      ensures present <==> Entry(key) in medium
    {
      ExpireKeys(now);
      present := Has(key);
    }
  }

  /** A caller's view: a key given an expiry in the past is gone on the next read. */
  method PastExpiryScenario(now: int)
  {
    var storage := new LocalStorageWrapper(map[]);
    storage.Set("temp", Num(1));
    var ok := storage.ExpireAt("temp", now - 1);
    assert ok;
    ExpiredKeyIsGone(map[Entry("temp") := Num(1)], "temp", now - 1, now);
    var present := storage.HasAfterSweep("temp", now);
    assert !present;
    var v := storage.GetAfterSweep("temp", now);
    assert v == None;
  }

  /** A caller's view: a value stays readable before its expiry, and `clear`
      empties the medium. */
  method FutureExpiryScenario(now: int)
  {
    var storage := new LocalStorageWrapper(map[]);
    storage.Set("score", Num(42));
    var ok := storage.Expire("score", 10000, now);
    FutureExpiryKeepsValue(map[], "score", Num(42), 10000, now);
    var v := storage.GetAfterSweep("score", now);
    assert v == Some(Num(42));
    storage.Clear();
    var empty := storage.IsEmpty();
    assert empty;
  }
}
