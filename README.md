# yii-pdooci-httpsession in Dafny

A model of the database-backed Yii 1 session handler `DbHttpSession` and of
the three-way merge it runs when it writes to a session row that already
exists. The merge lives in `ArrayHelper`. The first write of a session stores
its data as given (DbHttpSession.php:159-161).

A request reads its session when it opens, and by the time it writes, other
requests may have written the same row. So the handler does not overwrite the
row. It re-reads the row under lock and computes three steps:

- `arrayRecursiveDiff(final, init)`: what this request changed.
- `merge(current, changes)`: lays those changes over the re-read row.
- `arrayRemovedRecursiveDiff(merged, init, final)`: deletes again the keys
  this request deleted.

It then stores the result.

The project has these modules:

- `PhpArray` (`php_array.dfy`): PHP ordered arrays as lists of key/value
  entries. It covers `$a[$k]`, `array_key_exists`, `$a[$k] = $v`, `unset`,
  `$a[] = $v` (the next free integer key) and the list part of an array.
- `ArrayHelper` (`array_helper.dfy`): the three PHP functions.
  - Each is a specification function that folds the loop body over a prefix
    of the walked array: `Diff`, `Overlay` and `Prune`.
  - Each is also a method with the loop itself, proved equal to that
    function: `ArrayRecursiveDiff`, `Merge` and `ArrayRemovedRecursiveDiff`.
- `DiffProps`, `MergeProps` and `PruneProps`: key-by-key characterisations of
  the three functions.
- `ConflictResolver`: their composition `Resolve`, and what it guarantees to
  two racing writers.
- `Scenarios`: concrete races, worked through the model.
- `CorrectedDiff` (`diff_corrected.dfy`): a corrected diff for the finding
  below, and the resolution built on it.
- `DbHttpSession` (`db_http_session.dfy`): the handler as a class.
  - Its state is the session table as the request's connection sees it, the
    table at the start of the open transaction (what a rollback restores),
    the transaction flag, the snapshot `initSessionData` and the `exclusive`
    flag.
  - The clock (`now`), the session ids, the codec and the database failures
    are parameters.

Points where the code's behaviour is easy to misread:

- **The diff recurses whenever the writer's value is an array**
  (ArrayHelper.php:19-20), even when the snapshot held a non-array there.
  This is the case listed under "## Findings".
- **`merge` handles integer keys as follows** (ArrayHelper.php:77-82). It
  appends only an integer key that is *already present* in the target. An
  absent one is set under its own key.
- **writeSession checks whether a row exists without the expiry filter**
  (DbHttpSession.php:156-158). So an expired row is merged, with an empty
  re-read, rather than replaced verbatim.
- **The Oci8 driver writes LOBs into an `empty_blob()`**
  (DbHttpSession.php:97-104). So an Oci8 copy of a row whose data is NULL
  holds empty data.

## Model

| member | source | states |
|---|---|---|
| PhpArray.Set | ArrayHelper.php:22 | `$r[$k] = $v` gives `k` the value `v`, keeps every other key's value and position, appends `k` only when new, and keeps keys unique |
| PhpArray.Unset | ArrayHelper.php:58 | after `unset($r[$k])` the key is gone, every other key reads as before, and no entry is invented; an absent key leaves the array as it was, and in an array with unique keys exactly the entry for `k` is removed, the others keeping their order |
| PhpArray.NextIndex | ArrayHelper.php:79 | the key `$res[] =` uses is non-negative, above every integer key, one past the largest when positive, 0 when there is no integer key, and free |
| PhpArray.Push | ArrayHelper.php:79 | `$res[] = $v` leaves the existing entries untouched and appends `v` under `NextIndex` |
| ArrayHelper.Diff | ArrayHelper.php:13-39 | every key of the diff is a key of `a`, and the diff has unique keys |
| ArrayHelper.ArrayRecursiveDiff | ArrayHelper.php:13-39 | the foreach loop with its recursion computes exactly `Diff(a, b)` |
| ArrayHelper.Overlay | ArrayHelper.php:71-92 | `merge` keeps every key of `a` in its place, in order (the keys of `a` are a prefix of the result's), and keeps keys unique |
| ArrayHelper.Merge | ArrayHelper.php:71-92 | the while/foreach loop with its recursion computes exactly `Overlay(a, b)` |
| ArrayHelper.Prune | ArrayHelper.php:48-63 | a non-array `a` comes back unchanged; for an array, the result only has keys of `a`, and keeps keys unique |
| ArrayHelper.ArrayRemovedRecursiveDiff | ArrayHelper.php:48-63 | the foreach loop with its recursion computes exactly `Prune(a, b, c)` |
| DiffProps.DiffLookup | ArrayHelper.php:17-35 | a key is absent when `a` lacks it; it has `a`'s value when `b` lacks it; a non-array value is kept exactly when it differs from `b`'s; an array is kept as its recursive diff, exactly when that diff is non-empty |
| DiffProps.DiffOfSelf | ArrayHelper.php:19-31 | `arrayRecursiveDiff($a, $a)` is empty, at every depth |
| DiffProps.DiffAgainstEmpty | ArrayHelper.php:33-35 | against an empty base every entry of `a` is kept as is |
| DiffProps.DiffListPart | ArrayHelper.php:17-35 | against a base without integer keys, the list entries of the diff are all of `a`'s, in order |
| MergeProps.OverlayNothing | ArrayHelper.php:71-92 | `merge($a, [])` is `$a` |
| MergeProps.OverlayKeepsListEntries | ArrayHelper.php:77-82 | the result's list entries are `a`'s followed by `b`'s, in order |
| MergeProps.OverlayKeepsIntEntries | ArrayHelper.php:77-82 | every integer-keyed entry of `a` stays at its position with its value |
| MergeProps.OverlayIntStep | ArrayHelper.php:77-82 | an integer-keyed entry of `b` leaves the result so far untouched and appends its value: under its own key if free, otherwise under the next free integer key `NextIndex` of the result so far, which is above every integer key |
| MergeProps.OverlayStringKey | ArrayHelper.php:83-87 | a string key of `b` gets `b`'s value, merged recursively when both values are arrays; a string key absent from `b` keeps `a`'s value |
| PruneProps.PruneNothing | ArrayHelper.php:50-62 | with an empty `b` the result is `a` |
| PruneProps.PruneLookup | ArrayHelper.php:52-59 | a key `b` lacks is untouched; a key `b` holds with a non-array value survives exactly when `c` has it; a key `b` holds with an array is never deleted, only recursed into when present |
| PruneProps.PruneKeepsAll | ArrayHelper.php:52-59 | when `c` holds every key of `b` and `b`'s arrays as they are, nothing is deleted |
| PruneProps.PruneOfSame | ArrayHelper.php:48-63 | `arrayRemovedRecursiveDiff($a, $b, $b)` is `$a` |
| PruneProps.PruneKeepsListPart | ArrayHelper.php:52-59 | with no integer keys in `b`, the list entries of `a` survive in order |
| ConflictResolver.Resolve | DbHttpSession.php:275-277 | the resolved session has unique keys when the re-read row has |
| ConflictResolver.ResolveNoOp | DbHttpSession.php:275-277 | writing back exactly the snapshot stores the re-read row unchanged |
| ConflictResolver.ResolveUntouchedKey | DbHttpSession.php:275-277 | a string key the writer left as it found it gets the re-read row's value |
| ConflictResolver.ResolveKeepsLocalEdit | DbHttpSession.php:275-277 | a string key the writer set to a new non-array value gets the writer's value |
| ConflictResolver.ResolveDropsDeleted | DbHttpSession.php:275-277 | a non-array key the writer deleted is absent, even when the re-read row has it |
| ConflictResolver.ResolveKeepsListEntries | DbHttpSession.php:275-277 | with no list entries in the snapshot, the re-read row's list entries come first, then the writer's |
| Scenarios.Deletion | DbHttpSession.php:275-277 | snapshot `{a:1, b:2}`, written `{a:1}`, re-read `{a:1, b:2}` resolves to `{a:1}` |
| Scenarios.BothWritersKept | DbHttpSession.php:275-277 | snapshot `{a:1}`, written `{a:9}`, re-read `{a:1, b:2}` resolves to `{a:9, b:2}` |
| Scenarios.ListAppend | DbHttpSession.php:275-277 | two pushes onto an empty list, `[8]` re-read and `[7]` written, resolve to `[8, 7]` |
| Scenarios.NestedListAppend | DbHttpSession.php:275-277 | the same race in a list under a string key resolves to both elements |
| Scenarios.EmptyArrayEditLost | ArrayHelper.php:19-23 | changing a scalar to `[]` yields an empty diff, and the re-read value is stored |
| CorrectedDiff.DiffFixed | ArrayHelper.php:13-39 | the corrected diff keeps only keys of `a`, with unique keys |
| CorrectedDiff.DiffFixedLookup | ArrayHelper.php:17-35 | key by key, the corrected diff records `a`'s value when it differs from `b`'s, recursing only where both are arrays |
| CorrectedDiff.DiffFixedRecordsEdits | DbHttpSession.php:251-252 | a key whose old or new value is not an array is recorded, with its new value, exactly when it changed |
| CorrectedDiff.ResolveFixed | DbHttpSession.php:275-277 | the resolution over the corrected diff has unique keys when the re-read row has |
| CorrectedDiff.ResolveFixedKeepsEdit | DbHttpSession.php:251-252 | a string key changed away from a non-array value is stored with the writer's value, arrays included, unless the re-read row holds an array the new array is merged into |
| CorrectedDiff.EmptyArrayEditKept | DbHttpSession.php:251-252 | snapshot `{k: 5}`, written `{k: []}`, re-read `{k: 5}` resolves to `{k: []}` |
| DbHttpSession.LiveData | DbHttpSession.php:233-247 | a missing or expired row reads as ''; a live row reads as its data; NULL data reads as '' under Oci8 and as NULL otherwise |
| DbHttpSession.WrittenRowReadsBack | DbHttpSession.php:233-247 | a row written with an expiry reads back its data before that time and as '' from then on |
| DbHttpSession.RenamedRowReadsSame | DbHttpSession.php:86-91 | after a rename the new id reads what the old one read, and the old id reads as missing |
| DbHttpSession.SaveUnchanged | DbHttpSession.php:258-280 | a writer whose data decodes as its snapshot stores the decoded re-read row |
| DbHttpSession.SaveMergesByKey | DbHttpSession.php:258-280 | a key the writer did not change takes the re-read value; a key it set to a new non-array value takes the writer's value |
| DbHttpSession.SessionHandler.constructor | DbHttpSession.php:19-34 | a handler starts with no transaction, no snapshot and non-exclusive reads |
| DbHttpSession.SessionHandler.SetExclusive | DbHttpSession.php:49-52 | sets the exclusive flag and nothing else |
| DbHttpSession.SessionHandler.OpenSession | DbHttpSession.php:125-129 | clears the snapshot, returns true, changes nothing else |
| DbHttpSession.SessionHandler.GetSessionData | DbHttpSession.php:227-248 | returns `LiveData`; a locking read opens a transaction unless one is open, recording the table to roll back to |
| DbHttpSession.SessionHandler.ReadSession | DbHttpSession.php:134-143 | returns the live data (read under lock when exclusive); keeps it as the snapshot only when none is held |
| DbHttpSession.SessionHandler.GetDataForSave | DbHttpSession.php:258-280 | returns the encoding of `Resolve(decode(snapshot), decode(data), decode(locked re-read))`, leaves a transaction open and the table unchanged |
| DbHttpSession.SessionHandler.Rollback | DbHttpSession.php:209-212 | an open transaction is rolled back to the table it began with and closed |
| DbHttpSession.SessionHandler.WriteSession | DbHttpSession.php:148-218 | returns true exactly when no database call throws. On success the row is stored with expiry `now + timeout`, holding the data verbatim for a new row and the resolved merge for an existing one. On failure the open transaction is rolled back. Either way no transaction is left open |
| DbHttpSession.SessionHandler.RegenerateID | DbHttpSession.php:57-120 | an empty old id changes nothing. Otherwise, whether or not the old row has expired: the old row is renamed (with `deleteOld`) or copied (without it). With no old row, an empty row expiring at `now + timeout` is inserted. A primary-key clash fails and changes nothing |

## Findings

| source | as written | input that shows it | evidently intended | confidence | as-written member | corrected member |
|---|---|---|---|---|---|---|
| ArrayHelper.php:19-23 | `arrayRecursiveDiff` recurses whenever the written value is an array, even where the snapshot held a non-array, and drops an empty result; the key is then not in the changes | snapshot `{k: 5}`, written `{k: []}`, re-read `{k: 5}`: the stored session is `{k: 5}` | the getDataForSave docblock (DbHttpSession.php:251-252) replaces the fields modified during execution, so `k` is stored as `[]` | medium, not executed | Scenarios.EmptyArrayEditLost | CorrectedDiff.ResolveFixedKeepsEdit |

The session handler (`GetDataForSave`) keeps the diff as written, as the
code runs it. `CorrectedDiff` holds the corrected diff and the properties it
restores.

## Left out

- SQL text, the driver-specific LOB handling (Oci8 `RETURNING ... INTO`, the pgsql `::bytea` cast, the MSSQL `CONVERT`) and `isOci8Driver`: the table is a map, and `oci8` is a constant of the handler.
- Row locking by `FOR UPDATE` and other connections: a handler sees one connection's table. Another request's commit is a change to that table between calls, and the model is faithful to it only while no transaction of this handler is open (see the `Rollback` line).
- Rollback: the model rolls back the whole table to what the connection saw when the transaction began (`table := txnStart`). A database rollback undoes only this connection's own writes, so the model is faithful only while no other request changes the table during the transaction; a row another request commits meanwhile is erased by the model's rollback. WriteSession's `!ok ==> table == old(txnStart)` inherits this.
- The byte format of `session_decode` / `session_encode` and the global `$_SESSION`: the codec is a pair of functions given to the handler.
- `session_id`, `session_regenerate_id` and `getIsStarted`: the old and new ids are parameters of `RegenerateID`. The callbacks `session_regenerate_id` makes before line 78 are not part of `RegenerateID`. Those are destroy or write for the old id, and, from PHP 7.1 on, close, open and read for the new id. The table passed to `RegenerateID` already reflects the destroy or the write. A caller stands for the rest by running `OpenSession` and `ReadSession(newId)` first. So the snapshot is cleared and captured again, and with `exclusive` set a transaction is opened.
- `init`, `createSessionTable`, the `YII_DEBUG` echo, and what the parent `CDbHttpSession::openSession` does beyond returning true (table creation and removal of expired rows). CDbHttpSession is not part of this model.
- `time()`: `now` is a parameter. writeSession reads the clock twice, once for the expiry and once in the locked read; the model uses one `now` for both.
- Database errors other than the primary-key clash in regenerateID, and any error in readSession: exceptions there propagate out of the PHP code and are not modelled. In writeSession the lookup, the locked read, the store and the commit may throw, as the `Fault` parameter says.
- WriteSession: the exception message printed under `YII_DEBUG` is not modelled.
- WriteSession: `ensures !transaction` takes the `rollback()` in the catch block (DbHttpSession.php:210) to succeed. If it throws, the exception leaves writeSession before line 211, and the transaction stays set.
- Merge: `merge` accepts any number of arrays; the session code passes two, and only two are modelled.
- PHP 8 `TypeError`s for `array_key_exists` on a non-array are not modelled. For a scalar or null, PHP 7 returns null there, so a non-array or missing `$b[$key]` / `$c[$key]` behaves as `[]`, and so does the model.
- AsArray: an object where ArrayHelper expects an array is treated as `[]`. PHP 7's `array_key_exists` (ArrayHelper.php:18, 54, 57) looks up an object's public properties instead. When one matches, the next `$b[$key]` (ArrayHelper.php:20, 25-26) or `$result[$key]` / `$c[$key]` (ArrayHelper.php:55) throws `Error: Cannot use object … as array`. writeSession's `catch (Exception $e)` (DbHttpSession.php:204) does not catch it, so the write aborts with the transaction open. At line 57 a matching property of `$c` also keeps a key that the model deletes. For example, the snapshot `{k: stdClass{x:1}}`, written `{k: [x => 2]}` and re-read `{k: stdClass{x:1}}` throws at line 25 in PHP 7, while the model stores `{k: [x => 2]}`.
- Floats, resources and the loose `!=` of ArrayHelper.php:26 are not modelled. Objects compare by class and serialized state, and other values compare strictly. PHP's `!=` compares two objects of one class property by property, loosely, so an object holding `1` and one holding `"1"` are equal to PHP, while the model records the key as changed. The model likewise does not follow `!=` between an object and a non-object.
- NextIndex: follows PHP 7, where `$a[] =` uses one past the largest integer key and never less than 0; PHP 8.3 instead uses the largest key + 1 when every integer key is negative. Arrays are taken to come fresh from `session_decode`, so no larger key was ever unset.
- NextIndex: integer keys are unbounded. PHP keys are 64-bit, and `$res[] = $v` (ArrayHelper.php:79) fails when the largest key is `PHP_INT_MAX`: PHP 7 warns and adds nothing, and PHP 8 throws an `Error`, which writeSession's `catch (Exception)` does not catch. The model appends under `PHP_INT_MAX + 1`.
- Numeric-string keys: a `StrKey` is never a canonical decimal string, since PHP stores those as integer keys.
