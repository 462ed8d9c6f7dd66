# localstorage-wrapper: the expiry subsystem in Dafny

`local-storage.js` is a key-value facade with per-key expiry, layered over a
string-only, process-wide storage medium. Every logical key is stored under
`"localstorage:" + key`. The reserved logical key `"expiries"` holds the
expiry index: a list of `{key, timestamp}` records kept sorted by timestamp.
`expireAt` inserts a record at the position lodash's `sortedIndex` finds by
binary search. The exported `get` and `has` first run a sweep (`expireKeys`).
The sweep takes the leading run of records due at or before `now`
(lodash 2.x `first` with a predicate) and the trailing run due after `now`
(lodash 2.x `last` with a predicate). It removes the keys of the leading run and
writes the trailing run back as the index.

The project has two modules:

- `Expiry` (`expiry.dfy`): the record type and the sort order. It defines the
  two runs as functions, and the loops `FirstDue` and `LastPending` compute
  them. It models the binary search of `sortedIndex` exactly: `Search`
  specifies it and `FindInsertIndex` runs it as a loop. `Inserted` is the
  splice. Lemmas prove that on a sorted index the insertion point is the lowest
  one that keeps the order, that insertion keeps the index sorted, and that the
  two runs split the index exactly.
- `LocalStorage` (`storage.dfy`): the facade. `LocalStorageWrapper` is a class
  whose field `medium` (a `map` over full, prefixed keys) stands for the shared
  medium. Its constructor takes the medium. `Swept` and `AfterExpireAt` give the
  medium after a sweep and after `expireAt`. The methods are proved against
  them, and the lemmas beside them state what a caller of the exported
  `get`/`has` observes.

Two behaviours of the code are easy to misread. The model keeps both as written:

- The sweep does not partition the index by timestamp. It takes a leading and
  a trailing run, and these split the index exactly when every record due by
  `now` stands before every pending one, which a sorted index guarantees
  (`ExactSplitIffDueBeforePending`). `PartitionNeedsSortedOrder` shows an
  index where they do not. In this model, whose timestamps are integers, an
  unsorted index can only arise if a caller stores one directly with
  `set("expiries", ...)`, or if the medium given to the constructor already
  holds one (the medium persists, and other code may write
  `"localstorage:expiries"` itself).
- Records are never deduplicated. An older due record still evicts a key after
  that key has been set again with a later expiry.
  `StaleRecordEvictsRewrittenKey` exhibits this.

Two methods without contracts of their own act out a caller's view on a
fresh wrapper, and their assertions are checked: `PastExpiryScenario` (a key
given an expiry in the past is gone for the exported `has` and `get`) and
`FutureExpiryScenario` (a value stays readable before its expiry, and `clear`
then leaves the medium empty).

## Model

| member | source | states |
|---|---|---|
| `Expiry.DuePrefix` | local-storage.js:26-28 | the leading due run is a prefix of the index, every record in it is due at or before `now`, and the record after it (if any) is due later |
| `Expiry.PendingSuffix` | local-storage.js:34-36 | the trailing pending run is a suffix of the index, every record in it is due after `now`, and the record before it (if any) is due by `now` |
| `Expiry.FirstDue` | local-storage.js:26-28 | the counting loop of `_.first(expiries, due)` returns exactly the leading due run |
| `Expiry.LastPending` | local-storage.js:34-36 | the backward counting loop of `_.last(expiries, pending)` returns exactly the trailing pending run |
| `Expiry.PendingFrom` | local-storage.js:26-36 | in a sorted index every record after a pending record is pending |
| `Expiry.RunLengthsAtBoundary` | local-storage.js:26-36 | when exactly the first `n` records are due, the leading due run has `n` records and the trailing pending run the rest |
| `Expiry.RunLengthsOfSorted` | local-storage.js:26-36 | on a sorted index the two runs together are as long as the index |
| `Expiry.PartitionOfSorted` | local-storage.js:26-36 | on a sorted index the expired run followed by the kept run is the whole index |
| `Expiry.ExactSplitIffDueBeforePending` | local-storage.js:26-36 | the expired run followed by the kept run is the whole index exactly when no pending record stands before a due one, and every sorted index is such an index |
| `Expiry.PartitionNeedsSortedOrder` | local-storage.js:26-36 | on the unsorted index [1, 5, 2] at now = 3 the two runs do not cover the index |
| `Expiry.DueRecordsLieInPrefix` | local-storage.js:26-28 | in a sorted index every record due by `now` is in the leading run |
| `Expiry.FilteredAppend` | local-storage.js:26-36 | filtering by due-ness distributes over concatenation |
| `Expiry.FilteredAll` | local-storage.js:26-36 | filtering keeps a list whose records all pass and empties one whose records all fail |
| `Expiry.FiltersOfRuns` | local-storage.js:26-36 | filtering a due run followed by a pending run gives back each run |
| `Expiry.RunsAreFilters` | local-storage.js:26-36 | on a sorted index the expired run is exactly the records with timestamp <= now and the kept run exactly those with timestamp > now |
| `Expiry.PendingSuffixHasNoDuePrefix` | local-storage.js:30-36 | the kept run has no leading due record, so sweeping it again at the same `now` finds nothing |
| `Expiry.SuffixSorted` | local-storage.js:34-36 | every suffix of a sorted index is sorted |
| `Expiry.PendingSuffixSorted` | local-storage.js:34-36 | the kept run of a sorted index is sorted |
| `Expiry.Search` | local-storage.js:88 | the binary search over a window returns an index within that window |
| `Expiry.SortedIndex` | local-storage.js:88 | the insertion point `sortedIndex` returns, the binary search over the whole index, lies within the index |
| `Expiry.SearchIsLowerBound` | local-storage.js:88 | on a sorted index, a search whose window keeps the lower-bound invariant ends on the lower bound |
| `Expiry.SortedIndexIsLowerBound` | local-storage.js:86-88 | on a sorted index the insertion point has every earlier record strictly before `t` and every later one at `t` or after |
| `Expiry.FindInsertIndex` | local-storage.js:88 | the binary search loop of `sortedIndex` returns the specified insertion point, which on a sorted index is the lower bound |
| `Expiry.Inserted` | local-storage.js:88-89 | the index after `splice(insertIndex, 0, expiryInfo)` is one record longer and holds the new record at the insertion point |
| `Expiry.InsertedKeepsSorted` | local-storage.js:86-89 | splicing the record in at the insertion point keeps a sorted index sorted |
| `Expiry.InsertedAddsExactlyOne` | local-storage.js:81-89 | the splice removes nothing: the index grows by one, the new record sits at the insertion point, taking it out gives back the old index in order, and the multiset gains exactly that record |
| `LocalStorage.Entry` | local-storage.js:4 | the medium key of a logical key is `"localstorage:"` followed by the key, so the key can be read back from it; `set`, `get`, `has` and `remove` (local-storage.js:48, 57, 70, 94) all address the medium through it |
| `LocalStorage.EntryInjective` | local-storage.js:4 | two logical keys share a medium entry exactly when they are equal |
| `LocalStorage.EntriesOfLonger` | local-storage.js:38-40 | each removal step of the sweep removes the entry of one more record |
| `LocalStorage.SweepView` | local-storage.js:22-26 | the records the sweep splits: the stored list, and nothing when the index entry is missing or holds no list |
| `LocalStorage.Swept` | local-storage.js:21-44 | the medium after one sweep: it only removes entries, never adds one, and keeps the index entry exactly when there was one |
| `LocalStorage.SweepWithoutDueRecordIsNoop` | local-storage.js:22-32 | with no list stored under the index entry, or a first record not yet due, the sweep changes nothing |
| `LocalStorage.SweepEvictsDueKeys` | local-storage.js:26-42 | after a sweep over a sorted index no key named by a record due by `now` remains, except the index entry, which the sweep writes back |
| `LocalStorage.SweptIndexIsPending` | local-storage.js:34-42 | after a sweep over a sorted index the stored index is exactly the records due after `now`, and the expired run followed by it is the old index |
| `LocalStorage.SweepLeavesOtherEntries` | local-storage.js:38-42 | an entry other than the index survives a sweep, with its value unchanged, exactly when no record of the expired run names it |
| `LocalStorage.SweepChangesIffDue` | local-storage.js:26-42 | the sweep leaves the medium unchanged exactly when the index has no leading due record |
| `LocalStorage.SweepIdempotent` | local-storage.js:21-44 | a second sweep at the same `now` changes nothing |
| `LocalStorage.SweepKeepsIndexSorted` | local-storage.js:42 | a sweep keeps a sorted index sorted |
| `LocalStorage.LoadedIndex` | local-storage.js:79 | the list `expireAt` loads is missing exactly when the index entry holds something other than a list, and otherwise is the list the sweep would see (the empty list when no index is stored) |
| `LocalStorage.AfterExpireAt` | local-storage.js:78-92 | `expireAt` succeeds exactly when the index loads, and then stores a list one record longer under the index entry and adds no other entry |
| `LocalStorage.ExpireAtFailsOnlyOnForeignIndex` | local-storage.js:79-89 | `expireAt` fails exactly when the index entry holds something other than a list |
| `LocalStorage.ExpireAtStartsEmptyIndex` | local-storage.js:79 | with no index stored, `expireAt` stores the single new record |
| `LocalStorage.ExpireAtInsertsOneRecord` | local-storage.js:79-91 | `expireAt` grows the index by exactly `{key, t}`, keeps the other records in order, and leaves every other entry unchanged |
| `LocalStorage.ExpireAtKeepsIndexSorted` | local-storage.js:86-91 | `expireAt` keeps a sorted index sorted |
| `LocalStorage.ExpiredKeyIsGone` | local-storage.js:107-114 | after `expireAt(k, t)` with `t <= now`, the sweep run by the exported `has`/`get` removes `k` |
| `LocalStorage.DueRunMember` | local-storage.js:26-28 | every record of the expired run is in the index and due |
| `LocalStorage.NoDueRecordNames` | local-storage.js:86-89 | after inserting a future record for `k`, no record of the expired run names `k`, provided none in the old index due by `now` did |
| `LocalStorage.SetThenExpireAt` | local-storage.js:78-91 | after `set(k, v)` and `expireAt(k, t)` with `t` in the future, the entry holds `v` and no record of the expired run names it |
| `LocalStorage.FutureExpiryKeepsValue` | local-storage.js:107-110 | after `set(k, v)` and `expire(k, ms)` with `ms > 0`, the exported `get` at the same `now` still returns `v`, provided no record already due names `k` |
| `LocalStorage.StaleRecordEvictsRewrittenKey` | local-storage.js:78-91 | a due record left from an earlier `expireAt` evicts a key even after it was set again and given an expiry an hour away |
| `LocalStorage.LocalStorageWrapper.constructor` | local-storage.js:2 | the wrapper starts over the medium it is given |
| `LocalStorage.LocalStorageWrapper.Set` | local-storage.js:47-55 | `set` writes exactly the entry `prefix + key` and no other |
| `LocalStorage.LocalStorageWrapper.Get` | local-storage.js:56-58 | the unswept `get` returns the value under `prefix + key`, or null when absent |
| `LocalStorage.LocalStorageWrapper.Has` | local-storage.js:69-72 | the unswept `has` is true exactly when `prefix + key` is present |
| `LocalStorage.LocalStorageWrapper.Remove` | local-storage.js:93-96 | `remove` deletes `prefix + key` if present, so `has` is then false, and touches no other entry |
| `LocalStorage.LocalStorageWrapper.Clear` | local-storage.js:97-99 | `clear` empties the whole medium, so `isEmpty` is then true |
| `LocalStorage.LocalStorageWrapper.IsEmpty` | local-storage.js:100-102 | `isEmpty` is true exactly when the medium holds no entry of any namespace |
| `LocalStorage.LocalStorageWrapper.ExpireAt` | local-storage.js:78-92 | the new medium is the one `AfterExpireAt` gives, or the old one when the source throws, and a sorted index stays sorted |
| `LocalStorage.LocalStorageWrapper.Expire` | local-storage.js:73-77 | `expire(k, ms)` behaves exactly as `expireAt(k, now + ms)` |
| `LocalStorage.LocalStorageWrapper.ExpireKeys` | local-storage.js:21-44 | the has-check, the two runs, the removal loop and the write-back leave the medium `Swept` gives |
| `LocalStorage.LocalStorageWrapper.RemoveEach` | local-storage.js:38-40 | the removal loop deletes exactly the entries named by the records and leaves every other entry as it was |
| `LocalStorage.LocalStorageWrapper.GetAfterSweep` | local-storage.js:107-110 | the exported `get` sweeps, then returns what the swept medium holds under `prefix + key` |
| `LocalStorage.LocalStorageWrapper.HasAfterSweep` | local-storage.js:111-114 | the exported `has` sweeps, then tests presence in the swept medium |

## Left out

- The value codec (`isJSON`, `isNumeric`, `JSON.parse`, `JSON.stringify`, `parseFloat`, local-storage.js:7-19, 49-67) is not modelled. It relies on JavaScript type coercion, floating point and a library JSON parser. The medium holds an abstract `Value` (a string, an integer or a list of records), and storing then reading a value is the identity. So the ambiguity between a stored string `"42"` and the number 42 is not captured, and neither is `setItem(key, null)` storing the string `"null"`.
- The stored index can only be a list of records. A JSON array of other values under `"expiries"` is not modelled, and the sweep treats any non-list value as an empty index, as lodash does.
- Exceptions are not modelled: `expireAt` returns `ok == false` and changes nothing where the source throws a `TypeError` from `splice` on a non-list index.
- `window.localStorage` is the class's `medium` field, given to the constructor. Its quota failures and cross-tab or concurrent access are not modelled.
- `Date.now()` is the parameter `now` of `Expire`, `ExpireKeys`, `GetAfterSweep` and `HasAfterSweep`.
- Timestamps are unbounded integers, not JavaScript doubles. Rounding and precision above 2^53 are not modelled.
- Non-finite and non-numeric timestamps are not modelled. `JSON.stringify` (local-storage.js:50) stores `NaN` and `Infinity` as `null`, which the comparisons at local-storage.js:27, 35 and 88 then treat as 0, so in the source an `expireAt(k, Infinity)` can leave the stored index unsorted. A timestamp given as a string is compared numerically against numeric timestamps and against `now` (local-storage.js:27, 35, 88), but as text against another string timestamp at local-storage.js:88. `expire(k, ms)` with a string `ms` concatenates instead of adding at local-storage.js:75.
- `splice` on the freshly decoded index array is modelled on sequences, as `rs[..i] + [r] + rs[i..]`. The array is a private copy, so no aliasing is lost.
- lodash is modelled only through the sequence semantics of the five helpers the expiry code uses (`isArray` and `isPlainObject` at local-storage.js:49 belong to the codec, left out above). `each` (local-storage.js:38) is the loop of `RemoveEach`, and `isEmpty` (local-storage.js:30) is the test `toBeExpired == []`. The other three are taken as lodash 1.x and 2.x define them: `first` and `last` with a predicate (take-while from the front and from the back), and `sortedIndex` by property. From lodash 3 on, `first` ignores a predicate and returns only the head. The source does not pin a lodash version, and the model assumes 2.x.
