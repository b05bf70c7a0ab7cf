/**
 * `updateTranslation` and the four store paths it dispatches to:
 * `addSingleTranslation`, `addMultipleTranslations`, `updateSingleTranslation`
 * and `updateMultipleTranslations`. Each path's promise is modelled as a
 * `Settlement` computed from the replies the store gives.
 */
module Reconciliation {
  import opened Translations
  import opened Join

  // ---------------------------------------------------------------------
  // The classifier: one pass over an array input
  // ---------------------------------------------------------------------

  /** `creationDate` as the batch path normalises it: a string becomes `new Date(string)`,
      any other value is kept. */
  function NormalizeDate(d: Stamp): (r: Stamp)
    ensures !r.DateText?
    ensures d.DateText? ==> r == ParsedDate(d.text)
    ensures !d.DateText? ==> r == d
  {
    if d.DateText? then ParsedDate(d.text) else d
  }

  /** `{...tr, creationDate, editDate: now}` for an item classified as an update. */
  function Touch(t: Translation, now: Time): (r: Translation)
    ensures SameContent(r, t)
    ensures r.editDate == At(now)
    ensures r.creationDate == NormalizeDate(t.creationDate) && !r.creationDate.DateText?
  {
    t.(creationDate := NormalizeDate(t.creationDate), editDate := At(now))
  }

  /** The items of `s` whose identity test gives `has`, in input order. */
  function WithIdentity(s: seq<Translation>, has: bool): seq<Translation> {
    if s == [] then []
    else WithIdentity(s[..|s| - 1], has) + (if HasIdentity(s[|s| - 1]) == has then [s[|s| - 1]] else [])
  }

  function TouchAll(s: seq<Translation>, now: Time): (r: seq<Translation>)
    ensures |r| == |s|
  {
    seq(|s|, k requires 0 <= k < |s| => Touch(s[k], now))
  }

  /** `to_update` after the `forEach`. */
  function Updates(items: seq<Translation>, now: Time): seq<Translation> {
    TouchAll(WithIdentity(items, true), now)
  }

  /** `to_add` after the `forEach`: the items pushed unstamped. */
  function Adds(items: seq<Translation>): seq<Translation> {
    WithIdentity(items, false)
  }

  /** The `forEach` of `updateTranslation`, pushing each item onto `to_update`
      (stamped) or `to_add` (as it came). */
  method Classify(items: seq<Translation>, now: Time) returns (toUpdate: seq<Translation>, toAdd: seq<Translation>)
    ensures toUpdate == Updates(items, now)
    ensures toAdd == Adds(items)
  {
    toUpdate, toAdd := [], [];
    for i := 0 to |items|
      invariant toUpdate == Updates(items[..i], now)
      invariant toAdd == Adds(items[..i])
    {
      var tr := items[i];
      assert items[..i + 1][..i] == items[..i];
      var id := Or(tr.docId, tr.id);
      if id != Undefined {
        var creationDate := tr.creationDate;
        if creationDate.DateText? {
          creationDate := ParsedDate(creationDate.text);
        }
        toUpdate := toUpdate + [tr.(creationDate := creationDate, editDate := At(now))];
      } else {
        toAdd := toAdd + [tr];
      }
    }
    assert items[..|items|] == items;
  }

  /** Every item lands in exactly one partition, with its multiplicity: the
      identified ones in `to_update`, the others in `to_add`. */
  lemma {:induction false} WithIdentityCount(s: seq<Translation>, has: bool, x: Translation)
    ensures multiset(WithIdentity(s, has))[x] == if HasIdentity(x) == has then multiset(s)[x] else 0
  {
    if s != [] {
      var init, last := s[..|s| - 1], s[|s| - 1];
      assert s == init + [last];
      WithIdentityCount(init, has, x);
      CountStep(init, last, WithIdentity(init, has), HasIdentity(last) == has, x);
    }
  }

  /** Every item of a partition passes (or fails) the identity test accordingly. */
  lemma WithIdentityMembers(s: seq<Translation>, has: bool)
    ensures forall k :: 0 <= k < |WithIdentity(s, has)| ==> HasIdentity(WithIdentity(s, has)[k]) == has
  {
    var w := WithIdentity(s, has);
    forall k | 0 <= k < |w|
      ensures HasIdentity(w[k]) == has
    {
      assert w[k] in multiset(w);
      WithIdentityCount(s, has, w[k]);
    }
  }

  /** The partition keeps input order: it distributes over concatenation. */
  lemma {:induction false} WithIdentityAppend(a: seq<Translation>, b: seq<Translation>, has: bool)
    ensures WithIdentity(a + b, has) == WithIdentity(a, has) + WithIdentity(b, has)
    decreases |b|
  {
    if b == [] {
      assert a + b == a;
    } else {
      var init, last := b[..|b| - 1], b[|b| - 1];
      assert (a + b)[..|a + b| - 1] == a + init;
      assert (a + b)[|a + b| - 1] == last;
      WithIdentityAppend(a, init, has);
    }
  }

  /** The two partitions together are exactly as long as the input. */
  lemma {:induction false} PartitionLength(items: seq<Translation>, now: Time)
    ensures |Updates(items, now)| + |Adds(items)| == |items|
  {
    if items != [] {
      PartitionLength(items[..|items| - 1], now);
    }
  }

  /** What the classifier promises about an array input: a partition of the
      input by the identity test, input order kept within each part; the
      update part stamped with the batch's single `now` and a string
      `creationDate` parsed, everything else kept; the add part unchanged. */
  lemma ClassifierPartition(items: seq<Translation>, now: Time)
    ensures |Updates(items, now)| + |Adds(items)| == |items|
    ensures forall x :: multiset(Adds(items))[x] == if HasIdentity(x) then 0 else multiset(items)[x]
    ensures forall x :: multiset(WithIdentity(items, true))[x] == if HasIdentity(x) then multiset(items)[x] else 0
    ensures |Updates(items, now)| == |WithIdentity(items, true)|
    ensures forall k :: 0 <= k < |Updates(items, now)| ==>
      var u, t := Updates(items, now)[k], WithIdentity(items, true)[k];
      && SameContent(u, t)
      && HasIdentity(u)
      && u.editDate == At(now)
      && u.creationDate == (if t.creationDate.DateText? then ParsedDate(t.creationDate.text) else t.creationDate)
  {
    PartitionLength(items, now);
    PartitionCounts(items);
    UpdatesStamped(items, now);
  }

  lemma PartitionCounts(items: seq<Translation>)
    ensures forall x :: multiset(Adds(items))[x] == if HasIdentity(x) then 0 else multiset(items)[x]
    ensures forall x :: multiset(WithIdentity(items, true))[x] == if HasIdentity(x) then multiset(items)[x] else 0
  {
    forall x
      ensures multiset(Adds(items))[x] == if HasIdentity(x) then 0 else multiset(items)[x]
    {
      WithIdentityCount(items, false, x);
    }
    forall x
      ensures multiset(WithIdentity(items, true))[x] == if HasIdentity(x) then multiset(items)[x] else 0
    {
      WithIdentityCount(items, true, x);
    }
  }

  lemma UpdatesStamped(items: seq<Translation>, now: Time)
    ensures |Updates(items, now)| == |WithIdentity(items, true)|
    ensures forall k :: 0 <= k < |Updates(items, now)| ==>
      var u, t := Updates(items, now)[k], WithIdentity(items, true)[k];
      && SameContent(u, t)
      && HasIdentity(u)
      && u.editDate == At(now)
      && u.creationDate == (if t.creationDate.DateText? then ParsedDate(t.creationDate.text) else t.creationDate)
  {
    WithIdentityMembers(items, true);
  }

  // ---------------------------------------------------------------------
  // The store paths
  // ---------------------------------------------------------------------

  /** What an add path's promise resolves with: `save()` gives one document,
      `create(array)` an array of them. */
  datatype AddValue = SavedOne(doc: Translation) | SavedAll(docs: seq<Translation>)

  /** `NO_OP_PROMISE` on the add channel and on the update channel. */
  const AddNoOpValue: Settlement<AddValue> := Resolved(SavedAll([]))
  const UpdateNoOpValue: Settlement<seq<Translation>> := Resolved([])

  /** The store's answer to `translation.save()`: a failure or the identity it assigned. */
  datatype SaveReply = SaveFailed | SavedAs(id: Id)

  /** The store's answer to `Translation.create(array)`: all-or-nothing, one
      assigned identity per document. */
  datatype CreateReply = CreateFailed | Created(ids: seq<Id>)

  /** The store's answer to `Translation.update(...)`: an error, or a status whose `ok` field is given. */
  datatype UpdateReply = UpdateFailed | Status(ok: int)

  /** An update sent to the store: the `_id` filter and the fields to write. */
  datatype UpdateRequest = UpdateRequest(filter: Key, fields: Translation)

  /** The schema fields the store keeps as sent (everything but identity and dates). */
  predicate SamePayload(a: Translation, b: Translation) {
    a.origin == b.origin && a.kind == b.kind && a.translation == b.translation
  }

  /** `addSingleTranslation`: two separate `new Date()` readings for the two
      dates, then `save()`. The saved document's `id` is Mongoose's getter for
      its `_id`, so both name the identity the store assigned. */
  function AddSingleTranslation(t: Translation, creation: Time, edit: Time, reply: SaveReply): (r: Settlement<AddValue>)
    ensures reply.SaveFailed? <==> r.Rejected?
    ensures r.Resolved? ==>
      && r.value.SavedOne?
      && r.value.doc.docId == Truthy(reply.id)
      && r.value.doc.id == Truthy(reply.id)
      && SamePayload(r.value.doc, t)
      && r.value.doc.creationDate == At(creation)
      && r.value.doc.editDate == At(edit)
  {
    match reply
    case SaveFailed => Rejected
    case SavedAs(id) =>
      Resolved(SavedOne(t.(docId := Truthy(id), id := Truthy(id), creationDate := At(creation), editDate := At(edit))))
  }

  /** The `map` of `addMultipleTranslations`: each item gets `creationDate`
      and `editDate` from one `new Date()` of its own. */
  function StampAll(items: seq<Translation>, clock: seq<Time>): (r: seq<Translation>)
    requires |clock| == |items|
    ensures |r| == |items|
    ensures forall k :: 0 <= k < |r| ==> r[k].creationDate == r[k].editDate == At(clock[k])
    ensures forall k :: 0 <= k < |r| ==> SameContent(r[k], items[k])
  {
    seq(|items|, k requires 0 <= k < |items| => items[k].(creationDate := At(clock[k]), editDate := At(clock[k])))
  }

  /** The documents `create` hands back: the stamped items with the identities
      it assigned, as `_id` and as the `id` getter Mongoose derives from it. */
  function WithIds(docs: seq<Translation>, ids: seq<Id>): (r: seq<Translation>)
    requires |ids| == |docs|
    ensures |r| == |docs|
    ensures forall k :: 0 <= k < |r| ==> r[k].docId == Truthy(ids[k]) && r[k].id == Truthy(ids[k])
    ensures forall k :: 0 <= k < |r| ==>
      SamePayload(r[k], docs[k])
      && r[k].creationDate == docs[k].creationDate && r[k].editDate == docs[k].editDate
  {
    seq(|docs|, k requires 0 <= k < |docs| => docs[k].(docId := Truthy(ids[k]), id := Truthy(ids[k])))
  }

  /** `addMultipleTranslations`: stamp, then one all-or-nothing `create`. It is
      dispatched even for an empty array (the `|| NO_OP_PROMISE` never applies,
      a promise being truthy); an empty `create` gives `[]`. */
  function AddMultipleTranslations(items: seq<Translation>, clock: seq<Time>, reply: CreateReply): (r: Settlement<AddValue>)
    requires |clock| == |items|
    requires reply.Created? ==> |reply.ids| == |items|
    ensures reply.CreateFailed? <==> r.Rejected?
    ensures r.Resolved? ==>
      && r.value.SavedAll?
      && |r.value.docs| == |items|
      && forall k :: 0 <= k < |items| ==>
           var d := r.value.docs[k];
           && d.docId.Truthy?
           && d.id == d.docId
           && SamePayload(d, items[k])
           && d.creationDate == d.editDate == At(clock[k])
  {
    match reply
    case CreateFailed => Rejected
    case Created(ids) => Resolved(SavedAll(WithIds(StampAll(items, clock), ids)))
  }

  /** `updateSingleTranslation`: the update is sent with filter `_id || id`
      and the payload as it came (no date is touched on this path). */
  function SingleUpdateRequest(t: Translation): (q: UpdateRequest)
    ensures q.filter.Truthy? <==> t.docId.Truthy? || t.id.Truthy?
    ensures t.docId.Truthy? ==> q.filter == t.docId
    ensures !t.docId.Truthy? ==> q.filter == t.id
    ensures q.fields == t
  {
    UpdateRequest(IdentityOf(t), t)
  }

  /** The promise of `updateSingleTranslation`: a store error rejects the whole
      call; any other answer, whatever its status, resolves with the payload
      tagged with the identity used. */
  function UpdateSingleTranslation(t: Translation, reply: UpdateReply): (r: Settlement<seq<Translation>>)
    ensures reply.UpdateFailed? <==> r.Rejected?
    ensures r.Resolved? ==> |r.value| == 1 && r.value[0].docId == SingleUpdateRequest(t).filter && SamePayload(r.value[0], t)
    ensures r.Resolved? ==>
      && r.value[0].id == t.id
      && r.value[0].creationDate == t.creationDate
      && r.value[0].editDate == t.editDate
  {
    var q := SingleUpdateRequest(t);
    if reply.UpdateFailed? then Rejected else Resolved([q.fields.(docId := q.filter)])
  }

  /** One update of `updateMultipleTranslations`: filter `ObjectId(translation._id)`
      (the `_id` alone; an `Undefined` filter stands for the fresh ObjectId that
      `ObjectId(undefined)` makes), fields `_.omit(translation, "_id")`. */
  function BatchUpdateRequest(t: Translation): (q: UpdateRequest)
    ensures q.filter == t.docId
    ensures q.fields.docId == Undefined
    ensures q.fields.id == t.id && SamePayload(q.fields, t)
    ensures q.fields.creationDate == t.creationDate && q.fields.editDate == t.editDate
  {
    UpdateRequest(t.docId, t.(docId := Undefined))
  }

  /** What one update's callback reports: success exactly when there was no
      error and `status.ok === 1`, and then it is the item as sent. */
  function UpdateOutcome(t: Translation, reply: UpdateReply): (o: Outcome<Translation>)
    ensures o.Ok? <==> reply == Status(1)
    ensures o.Ok? ==> o.value == t
  {
    if reply == Status(1) then Ok(t) else Err
  }

  function UpdateOutcomes(items: seq<Translation>, replies: seq<UpdateReply>): (outs: seq<Outcome<Translation>>)
    requires |replies| == |items|
    ensures |outs| == |items|
  {
    seq(|items|, i requires 0 <= i < |items| => UpdateOutcome(items[i], replies[i]))
  }

  /** The promise of `updateMultipleTranslations` after the callbacks of
      `order` have run: `NO_OP_PROMISE` for an empty batch, otherwise the join
      over all the updates. */
  function UpdateMultipleOutcome(items: seq<Translation>, replies: seq<UpdateReply>, order: seq<nat>): (r: Settlement<seq<Translation>>)
    requires |replies| == |items|
    requires ValidOrder(order, |items|)
    ensures !r.Rejected?
    ensures |items| == 0 ==> r == Resolved([])
    ensures |items| > 0 ==> (r.Resolved? <==> |order| >= |items|)
  {
    if |items| == 0 then UpdateNoOpValue
    else Resolution(|items|, InOrder(UpdateOutcomes(items, replies), order))
  }

  /** `updateMultipleTranslations`: the `for` loop sends one update per item,
      each with its own callback into a shared latch; the callbacks then run
      in settlement order. */
  method UpdateMultipleTranslations(items: seq<Translation>, replies: seq<UpdateReply>, order: seq<nat>)
    returns (requests: seq<UpdateRequest>, promise: Settlement<seq<Translation>>)
    requires |replies| == |items|
    requires ValidOrder(order, |items|)
    ensures |requests| == |items|
    ensures forall i :: 0 <= i < |items| ==> requests[i] == BatchUpdateRequest(items[i])
    ensures promise == UpdateMultipleOutcome(items, replies, order)
  {
    requests := [];
    if |items| == 0 {
      promise := UpdateNoOpValue;
      return;
    }
    var latch := new Latch<Translation>(|items|);
    for i := 0 to |items|
      invariant |requests| == i
      invariant forall j :: 0 <= j < i ==> requests[j] == BatchUpdateRequest(items[j])
    {
      requests := requests + [BatchUpdateRequest(items[i])];
    }
    var outs := UpdateOutcomes(items, replies);
    for k := 0 to |order|
      invariant latch.Valid() && latch.total == |items|
      invariant latch.settled == InOrder(outs, order[..k])
    {
      InOrderAppend(outs, order[..k], [order[k]]);
      assert order[..k + 1] == order[..k] + [order[k]];
      latch.OnComplete(outs[order[k]]);
    }
    assert order[..|order|] == order;
    promise := latch.resolved;
  }

  /** The items acknowledged with `status.ok === 1`, in input order: an
      independent statement of what the batch update should report. */
  function Acknowledged(items: seq<Translation>, replies: seq<UpdateReply>): seq<Translation>
    requires |replies| == |items|
  {
    if items == [] then []
    else (if replies[0] == Status(1) then [items[0]] else []) + Acknowledged(items[1..], replies[1..])
  }

  lemma {:induction false} SuccessesAreAcknowledged(items: seq<Translation>, replies: seq<UpdateReply>)
    requires |replies| == |items|
    ensures Successes(UpdateOutcomes(items, replies)) == Acknowledged(items, replies)
  {
    if items != [] {
      SuccessesAreAcknowledged(items[1..], replies[1..]);
      assert UpdateOutcomes(items, replies)[1..] == UpdateOutcomes(items[1..], replies[1..]);
    }
  }

  /** Number of updates that count as failed. */
  function Unacknowledged(replies: seq<UpdateReply>): nat {
    if replies == [] then 0 else (if replies[0] == Status(1) then 0 else 1) + Unacknowledged(replies[1..])
  }

  lemma {:induction false} UnacknowledgedIsCountErr(items: seq<Translation>, replies: seq<UpdateReply>)
    requires |replies| == |items|
    ensures CountErr(UpdateOutcomes(items, replies)) == Unacknowledged(replies)
  {
    if items != [] {
      UnacknowledgedIsCountErr(items[1..], replies[1..]);
      assert UpdateOutcomes(items, replies)[1..] == UpdateOutcomes(items[1..], replies[1..]);
    }
  }

  /** Once all N > 0 callbacks have run, in any order, the batch update
      resolves (it never rejects) with exactly the acknowledged items, each as
      often as it was acknowledged, in callback order: N - F of them when F
      updates failed. */
  lemma UpdateMultipleComplete(items: seq<Translation>, replies: seq<UpdateReply>, order: seq<nat>)
    requires |replies| == |items| > 0
    requires IsPermutation(order, |items|)
    ensures ValidOrder(order, |items|)
    ensures UpdateMultipleOutcome(items, replies, order).Resolved?
    ensures UpdateMultipleOutcome(items, replies, order).value == Successes(InOrder(UpdateOutcomes(items, replies), order))
    ensures multiset(UpdateMultipleOutcome(items, replies, order).value) == multiset(Acknowledged(items, replies))
    ensures |UpdateMultipleOutcome(items, replies, order).value| == |items| - Unacknowledged(replies)
  {
    PermutationIsValid(order, |items|);
    var outs := UpdateOutcomes(items, replies);
    CompleteJoin(outs, order);
    SuccessesAreAcknowledged(items, replies);
    UnacknowledgedIsCountErr(items, replies);
  }

  /** The classifier also accepts `id`, yet the batch update filters on `_id`
      alone: an item identified only by `id` is sent filtered on the fresh id
      that `ObjectId(undefined)` makes, which names no stored document. */
  lemma IdOnlyItemIsSentUnkeyed(t: Translation, now: Time)
    requires t.docId == Undefined && t.id.Truthy?
    ensures HasIdentity(t)
    ensures Updates([t], now) == [Touch(t, now)]
    ensures BatchUpdateRequest(Touch(t, now)).filter == Undefined
  {
    assert [t][..0] == [];
    assert WithIdentity([t], true) == [t];
  }

  // ---------------------------------------------------------------------
  // The dispatch on the shape of the parameter
  // ---------------------------------------------------------------------

  datatype AddCall = AddNoOp | AddOne(item: Translation) | AddMany(items: seq<Translation>)
  datatype UpdateCall = UpdateNoOp | UpdateOne(item: Translation) | UpdateMany(items: seq<Translation>)

  /** The `{add, update}` pair `updateTranslation` returns, as the two calls it starts. */
  datatype Dispatch = Dispatch(add: AddCall, update: UpdateCall)

  /** Which paths `updateTranslation` starts, on what. */
  function Plan(input: Input, now: Time): (d: Dispatch)
    ensures input.ArrayInput? ==> d == Dispatch(AddMany(Adds(input.items)), UpdateMany(Updates(input.items, now)))
    ensures input.ObjectInput? ==>
      if HasIdentity(input.item) then d == Dispatch(AddNoOp, UpdateOne(input.item))
      else d == Dispatch(AddOne(input.item), UpdateNoOp)
    ensures input.OtherInput? ==> d == Dispatch(AddNoOp, UpdateNoOp)
  {
    match input
    case ArrayInput(items) => Dispatch(AddMany(Adds(items)), UpdateMany(Updates(items, now)))
    case ObjectInput(t) =>
      if HasIdentity(t) then Dispatch(AddNoOp, UpdateOne(t)) else Dispatch(AddOne(t), UpdateNoOp)
    case OtherInput => Dispatch(AddNoOp, UpdateNoOp)
  }

  /** `updateTranslation`: branch on the shape; for an array, run the `forEach`. */
  method UpdateTranslation(input: Input, now: Time) returns (d: Dispatch)
    ensures d == Plan(input, now)
  {
    match input {
      case ArrayInput(items) =>
        var toUpdate, toAdd := Classify(items, now);
        d := Dispatch(AddMany(toAdd), UpdateMany(toUpdate));
      case ObjectInput(t) =>
        var id := Or(t.docId, t.id);
        if id != Undefined {
          d := Dispatch(AddNoOp, UpdateOne(t));
        } else {
          d := Dispatch(AddOne(t), UpdateNoOp);
        }
      case OtherInput =>
        d := Dispatch(AddNoOp, UpdateNoOp);
    }
  }

  /** Everything the store answers to one `updateTranslation` call, and the
      clock readings its add path takes. */
  datatype StoreReplies = StoreReplies(
    creationTime: Time, editTime: Time, save: SaveReply,
    clock: seq<Time>, create: CreateReply,
    singleUpdate: UpdateReply,
    updates: seq<UpdateReply>, order: seq<nat>)

  /** The replies fit the dispatched calls: one clock reading, one identity and
      one update reply per item, and a valid settlement order. */
  predicate Fits(d: Dispatch, env: StoreReplies) {
    && (d.add.AddMany? ==> |env.clock| == |d.add.items| && (env.create.Created? ==> |env.create.ids| == |d.add.items|))
    && (d.update.UpdateMany? ==> |env.updates| == |d.update.items| && ValidOrder(env.order, |d.update.items|))
  }

  /** The two independent channels; nothing here merges them. */
  datatype BatchOutcome = BatchOutcome(add: Settlement<AddValue>, update: Settlement<seq<Translation>>)

  function SettleAdd(call: AddCall, env: StoreReplies): Settlement<AddValue>
    requires call.AddMany? ==> |env.clock| == |call.items| && (env.create.Created? ==> |env.create.ids| == |call.items|)
  {
    match call
    case AddNoOp => AddNoOpValue
    case AddOne(t) => AddSingleTranslation(t, env.creationTime, env.editTime, env.save)
    case AddMany(items) => AddMultipleTranslations(items, env.clock, env.create)
  }

  function SettleUpdate(call: UpdateCall, env: StoreReplies): Settlement<seq<Translation>>
    requires call.UpdateMany? ==> |env.updates| == |call.items| && ValidOrder(env.order, |call.items|)
  {
    match call
    case UpdateNoOp => UpdateNoOpValue
    case UpdateOne(t) => UpdateSingleTranslation(t, env.singleUpdate)
    case UpdateMany(items) => UpdateMultipleOutcome(items, env.updates, env.order)
  }

  /** The `{add, update}` pair once the store has answered. */
  function Settle(d: Dispatch, env: StoreReplies): (r: BatchOutcome)
    requires Fits(d, env)
    ensures d.add.AddNoOp? ==> r.add == Resolved(SavedAll([]))
    ensures d.update.UpdateNoOp? ==> r.update == Resolved([])
  {
    BatchOutcome(SettleAdd(d.add, env), SettleUpdate(d.update, env))
  }

  /** A parameter that is not an object gives two promises that both resolve with `[]`. */
  lemma NotAnObjectIsNoOp(now: Time, env: StoreReplies)
    ensures Fits(Plan(OtherInput, now), env)
    ensures Settle(Plan(OtherInput, now), env) == BatchOutcome(Resolved(SavedAll([])), Resolved([]))
  {
  }

  /** `[]` gives an empty update through `NO_OP_PROMISE`, and an empty add
      through a `create([])` that, when the store accepts it, resolves with `[]`. */
  lemma {:induction false} EmptyArrayIsNoOp(now: Time, env: StoreReplies)
    requires env.clock == [] && env.create == Created([]) && env.updates == [] && env.order == []
    ensures Fits(Plan(ArrayInput([]), now), env)
    ensures Settle(Plan(ArrayInput([]), now), env) == BatchOutcome(Resolved(SavedAll([])), Resolved([]))
  {
    assert WithIdentity([], true) == [] && WithIdentity([], false) == [];
    assert StampAll([], []) == [];
  }

  /** When every update succeeds and every callback has run, the batch update
      reports every item it was given. */
  lemma AllAcknowledgedReported(upd: seq<Translation>, replies: seq<UpdateReply>, order: seq<nat>)
    requires |replies| == |upd| > 0
    requires forall k :: 0 <= k < |replies| ==> replies[k] == Status(1)
    requires IsPermutation(order, |upd|)
    ensures ValidOrder(order, |upd|)
    ensures UpdateMultipleOutcome(upd, replies, order).Resolved?
    ensures multiset(UpdateMultipleOutcome(upd, replies, order).value) == multiset(upd)
  {
    UpdateMultipleComplete(upd, replies, order);
    AcknowledgedAll(upd, replies);
  }

  /** When every store call succeeds and every update callback has run, the
      two channels together account for every item of an array input: the
      added ones with fresh identities and equal dates, the updated ones with
      `editDate == now`. */
  lemma AllSucceededAccountsForEveryItem(items: seq<Translation>, now: Time, env: StoreReplies)
    requires Fits(Plan(ArrayInput(items), now), env)
    requires env.create.Created?
    requires forall k :: 0 <= k < |env.updates| ==> env.updates[k] == Status(1)
    requires IsPermutation(env.order, |Updates(items, now)|)
    ensures var r := Settle(Plan(ArrayInput(items), now), env);
      && r.add.Resolved? && r.add.value.SavedAll? && r.update.Resolved?
      && |r.add.value.docs| + |r.update.value| == |items|
      && (forall k :: 0 <= k < |r.add.value.docs| ==>
            r.add.value.docs[k].docId.Truthy? && r.add.value.docs[k].creationDate == r.add.value.docs[k].editDate)
      && (forall k :: 0 <= k < |r.update.value| ==> r.update.value[k].editDate == At(now))
  {
    var upd := Updates(items, now);
    PartitionLength(items, now);
    var r := Settle(Plan(ArrayInput(items), now), env);
    assert r.add == AddMultipleTranslations(Adds(items), env.clock, env.create);
    assert r.update == UpdateMultipleOutcome(upd, env.updates, env.order);
    if |upd| == 0 {
      assert r.update == Resolved([]);
    } else {
      AllAcknowledgedReported(upd, env.updates, env.order);
      var v := r.update.value;
      assert |v| == |upd| by {
        assert |v| == |multiset(v)| == |multiset(upd)| == |upd|;
      }
      forall k | 0 <= k < |v|
        ensures v[k].editDate == At(now)
      {
        assert v[k] in multiset(upd);
        var j :| 0 <= j < |upd| && upd[j] == v[k];
        assert upd[j] == Touch(WithIdentity(items, true)[j], now);
      }
    }
  }

  lemma {:induction false} AcknowledgedAll(items: seq<Translation>, replies: seq<UpdateReply>)
    requires |replies| == |items|
    requires forall k :: 0 <= k < |replies| ==> replies[k] == Status(1)
    ensures Acknowledged(items, replies) == items
  {
    if items != [] {
      AcknowledgedAll(items[1..], replies[1..]);
    }
  }
}
