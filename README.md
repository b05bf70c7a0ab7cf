# Translation data connection, modelled in Dafny

This project models the MongoDB data-connection layer of the translation
service (`data_connection/MongooseDataConnection.js`). The model has six
modules: `Wrappers` (an `Option` type), `Translations` (the record and the
JavaScript identity values it carries) and the four below.

- **Escaping**: the search-term escaper `_escapeSpecialCharacters`. A
  JavaScript string is a sequence of UTF-16 code units (`CodeUnit`). The
  allowed class `[A-Za-z0-9\sÖÜÄöüäß]` is written out in full. `\s` is the
  explicit predicate `IsJsWhitespace` (ECMAScript WhiteSpace plus
  LineTerminator). The `head`/`tail` loop is a `method` proved equal to the
  pure specification `Escape`. `Escape` comes with its inverse `Unescape` and
  its image `IsEscaped`.
- **Reconciliation**: `updateTranslation` and the four store paths it starts.
  - The array `forEach` is the method `Classify`. It is proved to partition
    the input by the identity test `_id || id`, keep input order, and stamp
    the update part.
  - The branch on the parameter's shape is `Plan`, used as the specification
    of the method `UpdateTranslation`.
  - The add and update paths are functions from the store's replies to the
    promise's `Settlement` (`Pending`, `Resolved` or `Rejected`).
  - `updateMultipleTranslations` is a method that sends one request per item
    and feeds the callbacks into a `Latch`.
  - The `{add, update}` pair stays two independent channels. Nothing merges
    them.
- **Join**: the completion-count join behind `updateMultipleTranslations` and
  `deleteTranslation`. It combines the closed-over counter, the shared result
  array and an exposed promise.
  - `Latch` is a class with `total`, `count`, `results` and `resolved` fields.
    Its method `OnComplete` is the shared callback.
  - A settlement order is a sequence of item indices. A complete one is a
    permutation of `0 .. N-1`.
  - The lemmas prove that a complete round resolves once, never rejects, and
    holds exactly the successful values in callback order.
- **Deletion**: `deleteSingleTranslation` and `deleteTranslation`.
  - The collection is a `map<Id, Translation>`, and `findByIdAndRemove`
    returns an `Option`.
  - Each delete settles, and changes the store, in the given settlement
    order. The method `DeleteMultipleTranslations` fuses the source's `for`
    loop, which starts the deletes in input order, with the callbacks that
    follow: its one loop walks the settlement order, running each delete
    against the current store and feeding its result to a `Latch`.

The code's quirks are modelled as written:

| Quirk | Source lines | Where it shows in the model |
|---|---|---|
| `deleteTranslation([])` never resolves | 95-119 | `EmptyArrayNeverResolves` |
| A batch update counts as a success only on `!err && status.ok === 1` | 180 | `UpdateOutcome` |
| The batch update filters on `_id` alone, although the classifier also accepts `id` | 193 | `IdOnlyItemIsSentUnkeyed` |
| The single update rejects on a store error | 141 | `UpdateSingleTranslation` |
| The single add reads the clock twice | 51-52 | `AddSingleTranslation` |
| The single update sets no date: the payload comes back with its dates and `id` as sent, unlike the batch path's `editDate = now` | 141-145 | `UpdateSingleTranslation` |
| A delete of `{_id: null}` passes the `typeof` test, then asks the store to remove `undefined`; under the store-lookup assumption of "## Left out" it resolves with nothing removed instead of rejecting | 67-72 | `NullIdIsLookedUpAsUndefined` |
| `to_add` receives the unstamped item | 224 | `Adds` |
| `addMultipleTranslations` is started even for an empty array, since a promise is always truthy | 229 | `AddMultipleTranslations` |

Time, store identities and store answers are parameters:

- `now` and per-item clock readings stand for the real clock;
- `SaveReply`, `CreateReply` and `UpdateReply` stand for the store's answers;
- a `faults` set marks the deletes whose store call raised an error;
- the settlement order stands for the event loop.

## Model

| member | source | states |
|---|---|---|
| `Escaping.FirstSpecial` | data_connection/MongooseDataConnection.js:10-28 | `regex.exec(tail)`: the result is the index of a disallowed code unit with only allowed ones before it; there is none exactly when every code unit is allowed |
| `Escaping.Escape` | data_connection/MongooseDataConnection.js:27-33 | the escaper's specification, one code unit at a time (a backslash before each disallowed one): the output is empty iff the input is; its length, inverse and image are the lemmas below |
| `Escaping.EscapeSpecialCharacters` | data_connection/MongooseDataConnection.js:21-34 | the `head`/`tail` loop, which terminates because `tail` shrinks, returns exactly `Escape(str)` |
| `Escaping.EscapeLength` | data_connection/MongooseDataConnection.js:27-33 | the output is as long as the input plus the number of disallowed code units |
| `Escaping.EscapeAllowed` | data_connection/MongooseDataConnection.js:27-33 | an input of only allowed code units, the empty one included, comes back unchanged |
| `Escaping.EscapeUnchangedOnlyIfAllowed` | data_connection/MongooseDataConnection.js:27-33 | conversely, an input that comes back unchanged has no disallowed code unit |
| `Escaping.EscapeAppend` | data_connection/MongooseDataConnection.js:27-33 | escaping works code unit by code unit: it distributes over concatenation, so order is kept |
| `Escaping.UnescapeEscape` | data_connection/MongooseDataConnection.js:27-33 | removing each inserted backslash gives the input back; an input backslash is itself escaped, so it is never mistaken for a marker |
| `Escaping.EscapeIsEscaped` | data_connection/MongooseDataConnection.js:27-33 | in the output, every disallowed code unit is either an inserted backslash or the unit right after one |
| `Escaping.EscapeUnescape` | data_connection/MongooseDataConnection.js:27-33 | every string in escaped form is the escape of its unescaping, so `Escape` maps onto exactly those strings |
| `Escaping.EscapeAtFirstSpecial` | data_connection/MongooseDataConnection.js:28-30 | one loop pass: the escape is the allowed prefix, a backslash, the special unit, then the escape of the rest |
| `Escaping.IsJsWhitespace` | data_connection/MongooseDataConnection.js:10 | `\s`: ECMAScript WhiteSpace and LineTerminator, written out; tab, line feed, carriage return, space and no-break space are among them |
| `Escaping.IsAllowed` | data_connection/MongooseDataConnection.js:10 | the class `[A-Za-z0-9\sÖÜÄöüäß]`; a backslash is never in it, so every backslash of the input gets escaped |
| `Escaping.KeepsPlainText` | data_connection/test/MongooseDataConnection.test.js:58-59 | the test's string of letters, digits, spaces and umlauts escapes to itself |
| `Escaping.EscapesBackslash` | data_connection/test/MongooseDataConnection.test.js:56-57 | on the end `Z\ab` of the test string, the backslash gets one backslash before it and the letters are kept |
| `Translations.Or` | data_connection/MongooseDataConnection.js:213 | JavaScript's or-operator on identity properties: the result is truthy iff either operand is; it is `a` when `a` is truthy and `b` otherwise |
| `Translations.HasIdentity` | data_connection/MongooseDataConnection.js:213-214 | the classifier's test holds iff `_id` is truthy or `id` is defined; a falsy `_id` with no `id` fails it |
| `Reconciliation.Classify` | data_connection/MongooseDataConnection.js:205-226 | the `forEach` produces exactly `Updates(items, now)` as `to_update` and `Adds(items)` as `to_add` |
| `Reconciliation.ClassifierPartition` | data_connection/MongooseDataConnection.js:209-226 | the two parts together are as long as the input; each item lands in exactly one part, with its multiplicity, chosen by the identity test; update items keep their content, get `editDate = now`, and have a string `creationDate` parsed |
| `Reconciliation.PartitionLength` | data_connection/MongooseDataConnection.js:209-226 | the lengths of `to_update` and `to_add` add up to the input's length |
| `Reconciliation.PartitionCounts` | data_connection/MongooseDataConnection.js:213-225 | an item with identity is in `to_update` (before stamping) as often as in the input and never in `to_add`; an item without identity the other way round |
| `Reconciliation.WithIdentityCount` | data_connection/MongooseDataConnection.js:213-225 | the multiplicity of an item in a part is its input multiplicity when the identity test matches the part, else zero |
| `Reconciliation.WithIdentityMembers` | data_connection/MongooseDataConnection.js:213-214 | every item of a part passes or fails the identity test as that part requires |
| `Reconciliation.WithIdentityAppend` | data_connection/MongooseDataConnection.js:209-226 | partitioning distributes over concatenation, so input order is kept within each part |
| `Reconciliation.NormalizeDate` | data_connection/MongooseDataConnection.js:215-218 | a string `creationDate` becomes a parsed date, any other value is kept; the result is never a string |
| `Reconciliation.Touch` | data_connection/MongooseDataConnection.js:215-220 | an update item keeps its identity and content, gets `editDate = now`, and has its `creationDate` normalised |
| `Reconciliation.UpdatesStamped` | data_connection/MongooseDataConnection.js:215-220 | the k-th update item is the k-th identified input with its content kept, `editDate = now`, and `creationDate` converted to a date only when it was a string |
| `Reconciliation.AddSingleTranslation` | data_connection/MongooseDataConnection.js:49-64 | rejects exactly when `save()` fails; otherwise resolves with one document carrying the assigned identity as `_id` and as `id`, the payload, and the two separate clock readings as its dates |
| `Reconciliation.StampAll` | data_connection/MongooseDataConnection.js:157-162 | each item gets `creationDate == editDate ==` its own clock reading; all other content is kept |
| `Reconciliation.WithIds` | data_connection/MongooseDataConnection.js:163 | each document `create` returns carries its assigned identity as `_id` and as Mongoose's `id` getter, and keeps the stamped item's payload and both dates |
| `Reconciliation.AddMultipleTranslations` | data_connection/MongooseDataConnection.js:156-170 | rejects exactly when `create` fails; otherwise resolves with one document per item, each with an identity that its `id` repeats, its payload, and equal creation and edit dates from its own clock reading |
| `Reconciliation.UpdateSingleTranslation` | data_connection/MongooseDataConnection.js:138-154 | rejects exactly on a store error, whatever the status otherwise; resolves with a one-element array holding the payload with `_id` set to the filter of the request sent, and with `id`, `creationDate` and `editDate` as sent: this path stamps no date |
| `Reconciliation.SingleUpdateRequest` | data_connection/MongooseDataConnection.js:139-141 | the single update is sent with the whole payload and filtered on `_id`, else `id`: `_id` when that one is truthy and `id` otherwise, so the filter is truthy iff either property is |
| `Reconciliation.BatchUpdateRequest` | data_connection/MongooseDataConnection.js:193-195 | each batch update is filtered on `_id` alone and writes every other field as sent, with `_id` omitted |
| `Reconciliation.UpdateOutcome` | data_connection/MongooseDataConnection.js:178-185 | a callback counts as a success iff there was no error and `status.ok === 1`, and then it reports the item as sent |
| `Reconciliation.UpdateOutcomes` | data_connection/MongooseDataConnection.js:191-197 | one callback outcome per item |
| `Reconciliation.UpdateMultipleOutcome` | data_connection/MongooseDataConnection.js:172-202 | never rejects; an empty batch is `NO_OP_PROMISE` (resolved with `[]`); a non-empty one resolves iff all N callbacks have run |
| `Reconciliation.UpdateMultipleTranslations` | data_connection/MongooseDataConnection.js:172-202 | sends one update per item, filtered on `_id` with `_id` omitted from the fields, and leaves the promise exactly as `UpdateMultipleOutcome` says after the callbacks in settlement order |
| `Reconciliation.SuccessesAreAcknowledged` | data_connection/MongooseDataConnection.js:180-185 | the results pushed are exactly the items acknowledged with `ok === 1`, in order |
| `Reconciliation.UnacknowledgedIsCountErr` | data_connection/MongooseDataConnection.js:180-182 | the failed callbacks are exactly the updates not acknowledged |
| `Reconciliation.UpdateMultipleComplete` | data_connection/MongooseDataConnection.js:178-198 | once all N > 0 callbacks have run, in any order, the promise resolves (never rejects) with the successes in callback order; as a multiset these are exactly the acknowledged items, N minus the failures |
| `Reconciliation.IdOnlyItemIsSentUnkeyed` | data_connection/MongooseDataConnection.js:193-195 | an item identified only by `id` goes to `to_update`, yet its batch update is filtered on its absent `_id`, i.e. on the fresh id `ObjectId(undefined)` makes, which names no stored document |
| `Reconciliation.Plan` | data_connection/MongooseDataConnection.js:204-246 | an array starts the batch add on exactly `Adds(items)` and the batch update on exactly `Updates(items, now)`, the two parts of the partition; an object starts the single update when `_id`, else `id`, is defined, else the single add; anything else starts neither |
| `Reconciliation.UpdateTranslation` | data_connection/MongooseDataConnection.js:204-246 | the branch on the parameter's shape, with the `forEach` for arrays, dispatches exactly as `Plan` says |
| `Reconciliation.Settle` | data_connection/MongooseDataConnection.js:228-244 | a channel that was not started resolves with `[]` (`NO_OP_PROMISE`) |
| `Reconciliation.NotAnObjectIsNoOp` | data_connection/test/MongooseDataConnection.test.js:98-114 | a non-object parameter gives two promises that both resolve with `[]` |
| `Reconciliation.EmptyArrayIsNoOp` | data_connection/test/MongooseDataConnection.test.js:116-132 | `[]` gives two promises that resolve with `[]`: the update through `NO_OP_PROMISE`, the add through an empty `create` |
| `Reconciliation.AllAcknowledgedReported` | data_connection/MongooseDataConnection.js:178-198 | when every update is acknowledged, the completed batch reports every item sent |
| `Reconciliation.AllSucceededAccountsForEveryItem` | data_connection/test/MongooseDataConnection.test.js:167-199 | when every store call succeeds, the added and updated documents together number the input; added ones have identities and equal dates, updated ones `editDate = now` |
| `Reconciliation.AcknowledgedAll` | data_connection/MongooseDataConnection.js:180-185 | all replies `ok === 1` means every item is acknowledged |
| `Join.Resolution` | data_connection/MongooseDataConnection.js:186-188 | the join never rejects, and it resolves iff at least N > 0 callbacks have run |
| `Join.Latch.constructor` | data_connection/MongooseDataConnection.js:175-177 | `complete_count = 0`, `results = []`, and a pending promise |
| `Join.Latch.OnComplete` | data_connection/MongooseDataConnection.js:178-189 | the callback adds one to the count, appends a success (and only a success) to the results, leaves an already resolved promise alone, and resolves a pending one only when the count reaches N, with the results so far |
| `Join.RunJoin` | data_connection/MongooseDataConnection.js:175-198 | feeding a latch the callbacks in settlement order leaves its promise exactly as `Resolution` says |
| `Join.ResolvesOnce` | data_connection/MongooseDataConnection.js:186-188 | once resolved, the promise is not resolved again by later callbacks: `resolve` takes effect once, at the N-th callback |
| `Join.CompleteJoin` | data_connection/MongooseDataConnection.js:178-198 | a complete round of N > 0 callbacks, in any order, resolves with the successes in callback order; as a multiset these are the successes in item order, N minus the failures |
| `Join.SuccessesCount` | data_connection/MongooseDataConnection.js:183-185 | a value is collected exactly as often as it was reported as a success |
| `Join.SuccessesLength` | data_connection/MongooseDataConnection.js:179-185 | N callbacks with F failures collect N - F results |
| `Join.SuccessesReordered` | data_connection/MongooseDataConnection.js:178-189 | the multiset of collected results does not depend on the order the callbacks ran in |
| `Join.SuccessesAppend` | data_connection/MongooseDataConnection.js:183-185 | collection distributes over consecutive callbacks |
| `Join.PermutationIsValid` | data_connection/MongooseDataConnection.js:191-197 | in a complete settlement order, every item settles exactly once |
| `Join.InOrderPermutation` | data_connection/MongooseDataConnection.js:191-197 | over a complete order, the settled outcomes are the per-item outcomes reordered |
| `Deletion.FindByIdAndRemove` | data_connection/MongooseDataConnection.js:72 | finds a document iff the key is a truthy identity in the store; then it returns that document and removes it, otherwise the store is unchanged |
| `Deletion.DeleteSingleTranslation` | data_connection/MongooseDataConnection.js:66-88 | rejects without touching the store when neither `_id` nor `id` is defined, or on a store error; otherwise it resolves, with a document iff `_id`, else `id`, names a stored one, which is then removed; when nothing is found the store is unchanged |
| `Deletion.HasIdProperty` | data_connection/MongooseDataConnection.js:67-69 | the delete's `typeof` test: every item passing the classifier's test passes it, and the only items passing it but not the classifier's are `{_id: null}`-like ones with a falsy `_id` and no `id` |
| `Deletion.NullIdIsLookedUpAsUndefined` | data_connection/MongooseDataConnection.js:67-72 | a falsy `_id` with no `id` passes the test and is looked up as `undefined`; under the store-lookup assumption, it resolves with nothing removed |
| `Deletion.OnDeleteSettled` | data_connection/MongooseDataConnection.js:99-103 | whether reached through `.then` or `.catch`, a result is kept iff it is a document (not `null`, not an error), and what is kept is that document |
| `Deletion.DeleteInOrder` | data_connection/MongooseDataConnection.js:111-118 | one callback outcome per settled delete, each delete running against the store the earlier ones left; the store only loses identities |
| `Deletion.DeleteTranslation` | data_connection/MongooseDataConnection.js:93-136 | a non-object rejects and leaves the store alone; otherwise the call never rejects; an array resolves iff it is non-empty and all its deletes have settled; the store only loses documents; every value resolved was a stored document |
| `Deletion.DeleteInOrderOnlyRemoves` | data_connection/MongooseDataConnection.js:111-118 | the deletes only ever remove: what is left was stored, unchanged, and every document a callback receives was stored |
| `Deletion.DeleteMultipleTranslations` | data_connection/MongooseDataConnection.js:94-119 | the fused loop, walking the settlement order with its shared latch, leaves the promise and the store exactly as `DeleteTranslation` says for the array |
| `Deletion.DeleteComplete` | data_connection/MongooseDataConnection.js:99-118 | once all N > 0 deletes have settled, in any order, the batch resolves with the removed documents in settlement order; as a multiset these are exactly the stored documents its identified, non-failing items name |
| `Deletion.ExpectedAllIsRemovable` | data_connection/MongooseDataConnection.js:99-103 | the successes of the items' stand-alone deletes are exactly the removable documents, in input order |
| `Deletion.ObjectIsSingletonArray` | data_connection/MongooseDataConnection.js:121-124 | a single object behaves exactly as the one-element array `[data]` |
| `Deletion.EmptyArrayNeverResolves` | data_connection/MongooseDataConnection.js:95-119 | `deleteTranslation([])` stays pending: no callback ever runs to reach the count |
| `Deletion.DeleteInOrderStore` | data_connection/MongooseDataConnection.js:111-118 | the store after the batch is the store before it minus exactly the identities that settled, non-failing deletes named |
| `Deletion.TargetedMembers` | data_connection/MongooseDataConnection.js:67-72 | an identity is removed iff some settled, non-failing item names it |
| `Deletion.MixedBatchDeletesTheStoredOne` | data_connection/test/MongooseDataConnection.test.js:203-221 | for the test's batch (an item with no identity, a stored document, and an unsaved document), in any order: resolves with the stored document only, and removes only it |
| `Deletion.DeleteOneObject` | data_connection/MongooseDataConnection.js:121-124 | a single object resolves, as an array, with what its one delete found, and leaves the store as that delete did |
| `Deletion.DeleteStoredObject` | data_connection/test/MongooseDataConnection.test.js:223-234 | deleting a stored object resolves with `[that document]` and removes it |
| `Deletion.DeleteUnsavedObject` | data_connection/test/MongooseDataConnection.test.js:242-248 | deleting a never-saved document resolves with `[]` and leaves the store as it was |

## Left out

- `searchTranslation` is not modelled. It depends on the JavaScript regular-expression engine, case-insensitive matching and Mongoose's `find().limit()`, beyond `Escape`.
- `close()` and every `log.info` call are left out: they are connection I/O and logging.
- `_createExposedPromise` and JavaScript promise scheduling are reduced to `Settlement` values and an explicit settlement order.
- The `tr instanceof Translation` / `toObject()` conversions (lines 143-144, 210-212) are left out. Items are already plain records.
- The synchronous-throw path for a `null` parameter (lines 121-128) is not modelled. The model has no `null` object.
- Array elements that are not objects are not modelled. `Input` only has translation records as elements.
- Fields outside the schema are not modelled.
- Mongo's update semantics, `ObjectId` generation and the identities `save`/`create` assign are given replies. `ObjectId(undefined)` is an `Undefined` filter.
- Store lookups assume that a key which is not a truthy identity matches no document. This covers `undefined`, the reachable case: `{_id: null}` passes the test at line 67, and `null || undefined` asks `findByIdAndRemove` for `undefined` at line 72. It also covers `null` and `""`. Whether Mongoose matches nothing there is not established. `Deletion.FindByIdAndRemove`, `Deletion.DeleteSingleTranslation` (its clause that an identified delete without a fault finds a document only by a truthy stored identity), `Deletion.NullIdIsLookedUpAsUndefined`, `Deletion.DeleteInOrderStore`, `Deletion.TargetedMembers`, and, through `TargetOf`, `Deletion.DeleteComplete` and `Deletion.ExpectedAllIsRemovable` rest on this assumption.
- Reconciliation.BatchUpdateRequest: always builds a request. `ObjectId(translation._id)` at line 193 throws synchronously for a truthy `_id` that is not a valid ObjectId (12 bytes or 24 hex digits). `updateTranslation` would then throw after `addMultipleTranslations` (line 229) has already started. The model has no ObjectId format, so it does not capture that throw.
- `Settlement.Rejected` carries no reason. The model does not say that `deleteTranslation` and `deleteSingleTranslation` reject with a `TypeError` (lines 84-86, 132-134), only that they reject.
- `new Date(text)` is kept symbolic as `ParsedDate(text)`. Date parsing is not modelled.
- The route handlers, the app bootstrap, the build script and test helpers are not part of this model. This includes `routes/translations.js:26` calling `.then` on the `{add, update}` object.
- Deletion.NullIdIsLookedUpAsUndefined: its "nothing removed" rests on the store-lookup assumption above. If Mongoose treated the `undefined` key as an empty condition, `{_id: null}` would remove some stored document, which the model does not express.
- Join.ResolvesOnce: the resolved value is modelled as a copy of `results` taken at the N-th callback. The source resolves with the shared array itself (lines 107, 187), which a further callback would still push into. No further callback happens, since each of the N calls reports once, so the aliasing is not modelled.
- Join.Latch.OnComplete: after resolution, a success is still appended to `results`, but the promise keeps the copy made at resolution; the source's promise holds the shared array, so it would see that append. For the same reason as for `Join.ResolvesOnce`, this aliasing is not modelled.
- Deletion.DeleteComplete: assumes that no two items name the same document (`DistinctTargets`). When two items do, the later delete finds nothing. `Deletion.DeleteTranslation` and `Deletion.DeleteInOrderStore` cover that case without the assumption.
- Deletion.MixedBatchDeletesTheStoredOne: states the test's batch with distinct identities only, for the same reason.
- Escaping.EscapesBackslash: proves only the end `Z\ab` of the escaping test's first string as a concrete instance, not the whole string. The general lemmas cover that string.
