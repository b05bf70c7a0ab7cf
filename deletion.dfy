/**
 * `deleteSingleTranslation` and `deleteTranslation`: each item of a delete
 * batch is looked up and removed on its own, and a completion-count join
 * collects the documents actually removed.
 */
module Deletion {
  import opened Wrappers
  import opened Translations
  import opened Join

  /** The translation collection, keyed by document identity. */
  type Store = map<Id, Translation>

  /** `Translation.findByIdAndRemove(id)`: the removed document, or `null` when
      no document has that identity (a key that is not a truthy identity
      matches none). */
  function FindByIdAndRemove(store: Store, key: Key): (r: (Option<Translation>, Store))
    ensures r.0.Some? <==> key.Truthy? && key.id in store
    ensures r.0.Some? ==> r.0.value == store[key.id] && r.1 == store - {key.id}
    ensures r.0.None? ==> r.1 == store
  {
    if key.Truthy? && key.id in store then (Some(store[key.id]), store - {key.id}) else (None, store)
  }

  /** `deleteSingleTranslation`'s test: `typeof _id` or `typeof id` is not
      `"undefined"` (a `null` identity passes it). */
  predicate HasIdProperty(t: Translation)
    ensures HasIdentity(t) ==> HasIdProperty(t)
    ensures HasIdProperty(t) && !HasIdentity(t) ==> t.docId == Falsy && t.id == Undefined
  {
    t.docId != Undefined || t.id != Undefined
  }

  /** `deleteSingleTranslation`: without an identity property it rejects with a
      `TypeError`; otherwise it asks the store to remove `_id || id`, and a
      store error (`fault`) rejects. */
  function DeleteSingleTranslation(t: Translation, store: Store, fault: bool): (r: (Settlement<Option<Translation>>, Store))
    ensures !HasIdProperty(t) || fault ==> r == (Rejected, store)
    ensures r.0.Resolved? && r.0.value.Some? ==>
      IdentityOf(t).Truthy? && IdentityOf(t).id in store
      && r.0.value.value == store[IdentityOf(t).id] && r.1 == store - {IdentityOf(t).id}
    ensures !(r.0.Resolved? && r.0.value.Some?) ==> r.1 == store
    ensures HasIdProperty(t) && !fault ==>
      r.0.Resolved? && (r.0.value.Some? <==> IdentityOf(t).Truthy? && IdentityOf(t).id in store)
  {
    if !HasIdProperty(t) then (Rejected, store)
    else if fault then (Rejected, store)
    else
      var (found, after) := FindByIdAndRemove(store, IdentityOf(t));
      (Resolved(found), after)
  }

  /** `onSingleDeleteComplete`, reached from both `.then` and `.catch`: only a
      result that is neither `null` nor an `Error` is kept. */
  function OnDeleteSettled(s: Settlement<Option<Translation>>): (o: Outcome<Translation>)
    ensures o.Ok? <==> s.Resolved? && s.value.Some?
    ensures o.Ok? ==> o.value == s.value.value
  {
    if s.Resolved? && s.value.Some? then Ok(s.value.value) else Err
  }

  /** `{_id: null}` passes the `typeof` test, yet `null || undefined` asks the
      store to remove `undefined`, which finds nothing: the call resolves with
      `null` rather than rejecting. */
  lemma NullIdIsLookedUpAsUndefined(t: Translation, store: Store)
    requires t.docId == Falsy && t.id == Undefined
    ensures HasIdProperty(t) && !HasIdentity(t) && IdentityOf(t) == Undefined
    ensures DeleteSingleTranslation(t, store, false) == (Resolved(None), store)
  {
  }

  /** The deletes of `items` settling in `order` against a store that each
      removal changes: what each callback received, and the store afterwards. */
  function DeleteInOrder(items: seq<Translation>, order: seq<nat>, store: Store, faults: set<nat>): (r: (seq<Outcome<Translation>>, Store))
    requires InRange(order, |items|)
    ensures |r.0| == |order|
    ensures r.1.Keys <= store.Keys
    decreases |order|
  {
    if order == [] then ([], store)
    else
      var (s, after) := DeleteSingleTranslation(items[order[0]], store, order[0] in faults);
      var (outs, final) := DeleteInOrder(items, order[1..], after, faults);
      ([OnDeleteSettled(s)] + outs, final)
  }

  /** Every document left in `st` is in `store`, unchanged. */
  predicate Within(st: Store, store: Store) {
    forall id :: id in st ==> id in store && st[id] == store[id]
  }

  /** Every document a callback received is one of `store`'s. */
  predicate FromStore(outs: seq<Outcome<Translation>>, store: Store) {
    forall k :: 0 <= k < |outs| && outs[k].Ok? ==> outs[k].value in store.Values
  }

  lemma WithinValues(st: Store, store: Store, v: Translation)
    requires Within(st, store) && v in st.Values
    ensures v in store.Values
  {
    var id :| id in st && st[id] == v;
    assert store[id] == v;
  }

  /** Deleting only removes: what is left was stored, unchanged, and every
      document a callback receives was a stored one. */
  lemma {:induction false} DeleteInOrderOnlyRemoves(items: seq<Translation>, order: seq<nat>, store: Store, faults: set<nat>)
    requires forall k :: 0 <= k < |order| ==> order[k] < |items|
    ensures Within(DeleteInOrder(items, order, store, faults).1, store)
    ensures FromStore(DeleteInOrder(items, order, store, faults).0, store)
    decreases |order|
  {
    if order != [] {
      var (s, after) := DeleteSingleTranslation(items[order[0]], store, order[0] in faults);
      assert Within(after, store);
      assert forall k :: 0 <= k < |order[1..]| ==> order[1..][k] == order[k + 1];
      DeleteInOrderOnlyRemoves(items, order[1..], after, faults);
      var r := DeleteInOrder(items, order, store, faults);
      var tail := DeleteInOrder(items, order[1..], after, faults);
      assert r == ([OnDeleteSettled(s)] + tail.0, tail.1);
      forall k | 0 <= k < |r.0| && r.0[k].Ok?
        ensures r.0[k].value in store.Values
      {
        if k > 0 {
          assert r.0[k] == tail.0[k - 1];
          WithinValues(after, store, r.0[k].value);
        }
      }
    }
  }

  /** `deleteTranslation`: an array is joined over all its deletes; a single
      object is handled as `[data]`; anything else rejects with a `TypeError`. */
  function DeleteTranslation(input: Input, store: Store, order: seq<nat>, faults: set<nat>): (r: (Settlement<seq<Translation>>, Store))
    requires input.ArrayInput? ==> ValidOrder(order, |input.items|)
    requires input.ObjectInput? ==> ValidOrder(order, 1)
    ensures input.OtherInput? ==> r == (Rejected, store)
    ensures !input.OtherInput? ==> !r.0.Rejected?
    ensures input.ArrayInput? ==> (r.0.Resolved? <==> 0 < |input.items| <= |order|)
    ensures input.ObjectInput? ==> (r.0.Resolved? <==> |order| >= 1)
    ensures Within(r.1, store)
    ensures r.0.Resolved? ==> forall k :: 0 <= k < |r.0.value| ==> r.0.value[k] in store.Values
    decreases if input.ObjectInput? then 1 else 0
  {
    match input
    case ArrayInput(items) =>
      var (outs, final) := DeleteInOrder(items, order, store, faults);
      var promise := Resolution(|items|, outs);
      DeleteInOrderOnlyRemoves(items, order, store, faults);
      ResolvedFromStore(|items|, outs, store);
      (promise, final)
    case ObjectInput(t) => DeleteTranslation(ArrayInput([t]), store, order, faults)
    case OtherInput => (Rejected, store)
  }

  lemma ResolvedFromStore(total: nat, outs: seq<Outcome<Translation>>, store: Store)
    requires FromStore(outs, store)
    ensures Resolution(total, outs).Resolved? ==>
      forall k :: 0 <= k < |Resolution(total, outs).value| ==> Resolution(total, outs).value[k] in store.Values
  {
    if Resolution(total, outs).Resolved? {
      var settled := outs[..total];
      forall k | 0 <= k < |Successes(settled)|
        ensures Successes(settled)[k] in store.Values
      {
        var v := Successes(settled)[k];
        assert v in multiset(Successes(settled));
        SuccessesCount(settled, v);
        assert Ok(v) in multiset(settled);
        var j :| 0 <= j < |settled| && settled[j] == Ok(v);
        assert outs[j] == Ok(v);
      }
    }
  }

  /** `deleteTranslation` on an array. The source's `for` loop starts one
      `deleteSingleTranslation` per item in input order, each reporting to a
      shared latch; here that loop is fused with the callbacks that follow:
      the one loop walks `order`, running each delete against the current
      store and feeding its result to the latch. */
  method DeleteMultipleTranslations(items: seq<Translation>, store: Store, order: seq<nat>, faults: set<nat>)
    returns (promise: Settlement<seq<Translation>>, after: Store)
    requires ValidOrder(order, |items|)
    ensures (promise, after) == DeleteTranslation(ArrayInput(items), store, order, faults)
  {
    var latch := new Latch<Translation>(|items|);
    after := store;
    ghost var whole := DeleteInOrder(items, order, store, faults);
    assert order[0..] == order;
    for k := 0 to |order|
      invariant latch.Valid() && latch.total == |items|
      invariant Tracks(whole, latch.settled, items, order, k, after, faults)
    {
      var one := DeleteSingleTranslation(items[order[k]], after, order[k] in faults);
      TracksStep(whole, latch.settled, items, order, k, after, faults, one);
      latch.OnComplete(OnDeleteSettled(one.0));
      after := one.1;
    }
    TracksEnd(whole, latch.settled, items, order, after, faults);
    promise := latch.resolved;
    DeleteArray(items, store, order, faults);
  }

  /** The loop's invariant: the callbacks run so far, followed by the deletes
      still to settle against the current store, make up the whole batch. */
  ghost predicate Tracks(whole: (seq<Outcome<Translation>>, Store), settled: seq<Outcome<Translation>>,
                         items: seq<Translation>, order: seq<nat>, k: nat, st: Store, faults: set<nat>)
  {
    && k <= |order| && InRange(order[k..], |items|)
    && whole.0 == settled + DeleteInOrder(items, order[k..], st, faults).0
    && whole.1 == DeleteInOrder(items, order[k..], st, faults).1
  }

  lemma TracksStep(whole: (seq<Outcome<Translation>>, Store), settled: seq<Outcome<Translation>>,
                   items: seq<Translation>, order: seq<nat>, k: nat, st: Store, faults: set<nat>,
                   one: (Settlement<Option<Translation>>, Store))
    requires InRange(order, |items|) && k < |order|
    requires Tracks(whole, settled, items, order, k, st, faults)
    requires one == DeleteSingleTranslation(items[order[k]], st, order[k] in faults)
    ensures Tracks(whole, settled + [OnDeleteSettled(one.0)], items, order, k + 1, one.1, faults)
  {
    DeleteStep(items, order, k, st, faults, one);
    InRangeSuffix(order, |items|, k + 1);
  }

  lemma TracksEnd(whole: (seq<Outcome<Translation>>, Store), settled: seq<Outcome<Translation>>,
                  items: seq<Translation>, order: seq<nat>, st: Store, faults: set<nat>)
    requires Tracks(whole, settled, items, order, |order|, st, faults)
    ensures whole.0 == settled && whole.1 == st
  {
    assert order[|order|..] == [];
    assert DeleteInOrder(items, [], st, faults) == ([], st);
    assert settled + [] == settled;
  }

  lemma DeleteArray(items: seq<Translation>, store: Store, order: seq<nat>, faults: set<nat>)
    requires ValidOrder(order, |items|)
    ensures DeleteTranslation(ArrayInput(items), store, order, faults)
      == (Resolution(|items|, DeleteInOrder(items, order, store, faults).0), DeleteInOrder(items, order, store, faults).1)
  {
  }

  /** One settlement of the loop above: the first of the remaining deletes. */
  lemma DeleteStep(items: seq<Translation>, order: seq<nat>, k: nat, st: Store, faults: set<nat>, one: (Settlement<Option<Translation>>, Store))
    requires InRange(order, |items|)
    requires k < |order|
    requires one == DeleteSingleTranslation(items[order[k]], st, order[k] in faults)
    ensures DeleteInOrder(items, order[k..], st, faults).0 == [OnDeleteSettled(one.0)] + DeleteInOrder(items, order[k + 1..], one.1, faults).0
    ensures DeleteInOrder(items, order[k..], st, faults).1 == DeleteInOrder(items, order[k + 1..], one.1, faults).1
  {
    var rest := order[k..];
    assert rest[0] == order[k] && rest[1..] == order[k + 1..];
  }

  // ---------------------------------------------------------------------
  // What a complete delete batch removes
  // ---------------------------------------------------------------------

  /** The identity an item's delete would actually find a document by. */
  function TargetOf(t: Translation): Option<Id> {
    if IdentityOf(t).Truthy? then Some(IdentityOf(t).id) else None
  }

  /** No two items of the batch name the same document. */
  predicate DistinctTargets(items: seq<Translation>) {
    forall i, j :: 0 <= i < |items| && 0 <= j < |items| && i != j && TargetOf(items[i]).Some? ==>
      TargetOf(items[i]) != TargetOf(items[j])
  }

  /** What one item's callback receives when its delete runs against `store`
      on its own: the document its identity names, if not faulted and present. */
  function Expected(t: Translation, store: Store, fault: bool): Outcome<Translation> {
    if !fault && TargetOf(t).Some? && TargetOf(t).value in store then Ok(store[TargetOf(t).value]) else Err
  }

  function ExpectedAll(items: seq<Translation>, store: Store, faults: set<nat>): (r: seq<Outcome<Translation>>)
    ensures |r| == |items|
  {
    seq(|items|, i requires 0 <= i < |items| => Expected(items[i], store, i in faults))
  }

  /** The documents a batch should remove, in input order: for every item
      with an identity that names a stored document and whose delete did not
      fail, that document. An independent statement of the result. */
  function Removable(items: seq<Translation>, store: Store, faults: set<nat>, offset: nat): seq<Translation> {
    if items == [] then []
    else
      var t := items[0];
      (if offset !in faults && TargetOf(t).Some? && TargetOf(t).value in store then [store[TargetOf(t).value]] else [])
        + Removable(items[1..], store, faults, offset + 1)
  }

  /** `st` has not yet lost any document that an item still to settle names. */
  predicate AgreesOn(st: Store, store: Store, t: Translation) {
    TargetOf(t).Some? ==>
      (TargetOf(t).value in st <==> TargetOf(t).value in store)
      && (TargetOf(t).value in st ==> st[TargetOf(t).value] == store[TargetOf(t).value])
  }

  /** With distinct targets, the order of settlement changes only the order of
      the callbacks: each receives what its item's delete alone would give. */
  lemma {:induction false} SettlementIsIndependent(items: seq<Translation>, order: seq<nat>, st: Store, store: Store, faults: set<nat>)
    requires ValidOrder(order, |items|)
    requires DistinctTargets(items)
    requires forall k :: 0 <= k < |order| ==> AgreesOn(st, store, items[order[k]])
    ensures DeleteInOrder(items, order, st, faults).0 == InOrder(ExpectedAll(items, store, faults), order)
    decreases |order|
  {
    if order != [] {
      var i := order[0];
      var t := items[i];
      var (s, after) := DeleteSingleTranslation(t, st, i in faults);
      assert OnDeleteSettled(s) == Expected(t, store, i in faults);
      assert ValidOrder(order[1..], |items|) by {
        assert forall k :: 0 <= k < |order[1..]| ==> order[1..][k] == order[k + 1];
      }
      forall k | 0 <= k < |order[1..]|
        ensures AgreesOn(after, store, items[order[1..][k]])
      {
        var u := items[order[1..][k]];
        assert order[1..][k] == order[k + 1] != i;
        assert AgreesOn(st, store, u);
        assert TargetOf(t).Some? ==> TargetOf(u) != TargetOf(t);
      }
      SettlementIsIndependent(items, order[1..], after, store, faults);
    }
  }

  lemma {:induction false} ExpectedSuccesses(items: seq<Translation>, store: Store, faults: set<nat>, offset: nat)
    ensures Successes(seq(|items|, i requires 0 <= i < |items| => Expected(items[i], store, offset + i in faults)))
      == Removable(items, store, faults, offset)
  {
    var e := seq(|items|, i requires 0 <= i < |items| => Expected(items[i], store, offset + i in faults));
    if items != [] {
      var e' := seq(|items[1..]|, i requires 0 <= i < |items[1..]| => Expected(items[1..][i], store, offset + 1 + i in faults));
      assert e[1..] == e';
      ExpectedSuccesses(items[1..], store, faults, offset + 1);
    }
  }

  /** Once all N > 0 deletes of a batch with distinct targets have settled, in
      any order, the batch resolves with exactly the stored documents that its
      identified, non-failing items name: items without `_id` and `id`, and
      identities not in the store, contribute nothing. The values arrive in
      settlement order, each being what its item's delete alone would give. */
  lemma DeleteComplete(items: seq<Translation>, store: Store, order: seq<nat>, faults: set<nat>)
    requires |items| > 0
    requires IsPermutation(order, |items|)
    requires DistinctTargets(items)
    ensures ValidOrder(order, |items|)
    ensures DeleteTranslation(ArrayInput(items), store, order, faults).0.Resolved?
    ensures DeleteTranslation(ArrayInput(items), store, order, faults).0.value
      == Successes(InOrder(ExpectedAll(items, store, faults), order))
    ensures multiset(DeleteTranslation(ArrayInput(items), store, order, faults).0.value)
      == multiset(Removable(items, store, faults, 0))
  {
    PermutationIsValid(order, |items|);
    var exp := ExpectedAll(items, store, faults);
    SettlementIsIndependent(items, order, store, store, faults);
    var outs := DeleteInOrder(items, order, store, faults).0;
    assert DeleteTranslation(ArrayInput(items), store, order, faults).0 == Resolution(|items|, outs);
    assert outs == InOrder(exp, order);
    CompleteJoin(exp, order);
    ExpectedAllIsRemovable(items, store, faults);
  }

  lemma ExpectedAllIsRemovable(items: seq<Translation>, store: Store, faults: set<nat>)
    ensures Successes(ExpectedAll(items, store, faults)) == Removable(items, store, faults, 0)
  {
    ExpectedSuccesses(items, store, faults, 0);
    assert ExpectedAll(items, store, faults) == seq(|items|, i requires 0 <= i < |items| => Expected(items[i], store, 0 + i in faults));
  }

  /** A single object is handled exactly as the one-element array `[data]`. */
  lemma ObjectIsSingletonArray(t: Translation, store: Store, order: seq<nat>, faults: set<nat>)
    requires ValidOrder(order, 1)
    ensures DeleteTranslation(ObjectInput(t), store, order, faults) == DeleteTranslation(ArrayInput([t]), store, order, faults)
  {
  }

  /** An empty array never resolves: no callback ever runs to reach a count of zero. */
  lemma EmptyArrayNeverResolves(store: Store, order: seq<nat>, faults: set<nat>)
    requires ValidOrder(order, 0)
    ensures DeleteTranslation(ArrayInput([]), store, order, faults).0 == Pending
  {
  }

  /** The identities a settled batch asked the store to remove. */
  function Targeted(items: seq<Translation>, order: seq<nat>, faults: set<nat>): set<Id>
    requires forall k :: 0 <= k < |order| ==> order[k] < |items|
    decreases |order|
  {
    if order == [] then {}
    else
      var t := items[order[0]];
      (if order[0] !in faults && TargetOf(t).Some? then {TargetOf(t).value} else {})
        + Targeted(items, order[1..], faults)
  }

  /** The store after a batch is the store before it without exactly the
      identities the settled, non-failing deletes named; duplicates and
      identities not in the store change nothing. */
  lemma {:induction false} DeleteInOrderStore(items: seq<Translation>, order: seq<nat>, st: Store, faults: set<nat>)
    requires forall k :: 0 <= k < |order| ==> order[k] < |items|
    ensures DeleteInOrder(items, order, st, faults).1 == st - Targeted(items, order, faults)
    decreases |order|
  {
    if order == [] {
      assert st - {} == st;
    } else {
      var t := items[order[0]];
      var (s, after) := DeleteSingleTranslation(t, st, order[0] in faults);
      var head: set<Id> := if order[0] !in faults && TargetOf(t).Some? then {TargetOf(t).value} else {};
      assert after == st - head;
      assert forall k :: 0 <= k < |order[1..]| ==> order[1..][k] == order[k + 1];
      DeleteInOrderStore(items, order[1..], after, faults);
      assert Targeted(items, order, faults) == head + Targeted(items, order[1..], faults);
      assert (st - head) - Targeted(items, order[1..], faults) == st - (head + Targeted(items, order[1..], faults));
    }
  }

  lemma SingletonMultiset<T>(v: seq<T>, x: T)
    requires multiset(v) == multiset([x])
    ensures v == [x]
  {
    assert |v| == |multiset(v)| == 1;
    assert v[0] in multiset(v);
  }

  /** The test-suite batch: an item with no identity, a stored document, and a
      new document never saved. Exactly the stored one is removed, and
      reported, whatever order the three deletes settle in. */
  lemma MixedBatchDeletesTheStoredOne(
    noise: Translation, stored: Translation, unsaved: Translation, k: Id, j: Id,
    store: Store, order: seq<nat>)
    requires noise.docId == Undefined && noise.id == Undefined
    requires stored.docId == Truthy(k) && k in store
    requires unsaved.docId == Truthy(j) && j !in store
    requires IsPermutation(order, 3)
    ensures ValidOrder(order, 3)
    ensures DeleteTranslation(ArrayInput([noise, stored, unsaved]), store, order, {}).0 == Resolved([store[k]])
    ensures DeleteTranslation(ArrayInput([noise, stored, unsaved]), store, order, {}).1 == store - {k}
  {
    var items := [noise, stored, unsaved];
    PermutationIsValid(order, 3);
    MixedBatchResolves(items, store, order);
    MixedBatchStore(items, store, order, k, j);
  }

  lemma MixedBatchDistinct(items: seq<Translation>, store: Store)
    requires |items| == 3
    requires items[0].docId == Undefined && items[0].id == Undefined
    requires items[1].docId.Truthy? && items[1].docId.id in store
    requires items[2].docId.Truthy? && items[2].docId.id !in store
    ensures DistinctTargets(items)
  {
    assert TargetOf(items[0]) == None;
    assert TargetOf(items[1]) == Some(items[1].docId.id);
    assert TargetOf(items[2]) == Some(items[2].docId.id);
  }

  lemma MixedBatchResolves(items: seq<Translation>, store: Store, order: seq<nat>)
    requires |items| == 3
    requires items[0].docId == Undefined && items[0].id == Undefined
    requires items[1].docId.Truthy? && items[1].docId.id in store
    requires items[2].docId.Truthy? && items[2].docId.id !in store
    requires IsPermutation(order, 3)
    requires ValidOrder(order, 3)
    ensures DeleteTranslation(ArrayInput(items), store, order, {}).0 == Resolved([store[items[1].docId.id]])
  {
    MixedBatchDistinct(items, store);
    DeleteComplete(items, store, order, {});
    RemovableOfMixedBatch(items, store);
    var r := DeleteTranslation(ArrayInput(items), store, order, {});
    SingletonMultiset(r.0.value, store[items[1].docId.id]);
  }

  lemma MixedBatchStore(items: seq<Translation>, store: Store, order: seq<nat>, k: Id, j: Id)
    requires |items| == 3
    requires items[0].docId == Undefined && items[0].id == Undefined
    requires items[1].docId == Truthy(k)
    requires items[2].docId == Truthy(j) && j !in store
    requires IsPermutation(order, 3)
    requires ValidOrder(order, 3)
    ensures DeleteTranslation(ArrayInput(items), store, order, {}).1 == store - {k}
  {
    DeleteInOrderStore(items, order, store, {});
    TargetedOfMixedBatch(items, order, k, j);
    assert store - {k, j} == store - {k};
  }

  lemma RemovableOfMixedBatch(items: seq<Translation>, store: Store)
    requires |items| == 3
    requires items[0].docId == Undefined && items[0].id == Undefined
    requires items[1].docId.Truthy? && items[1].docId.id in store
    requires items[2].docId.Truthy? && items[2].docId.id !in store
    ensures Removable(items, store, {}, 0) == [store[items[1].docId.id]]
  {
    assert TargetOf(items[0]) == None;
    assert TargetOf(items[1]) == Some(items[1].docId.id);
    assert TargetOf(items[2]) == Some(items[2].docId.id);
    assert items[1..][1..][1..] == [];
    assert Removable(items[1..][1..][1..], store, {}, 3) == [];
    assert Removable(items[1..][1..], store, {}, 2) == [];
    assert Removable(items[1..], store, {}, 1) == [store[items[1].docId.id]];
  }

  /** An identity is targeted exactly when some settled, non-failing delete named it. */
  lemma {:induction false} TargetedMembers(items: seq<Translation>, order: seq<nat>, faults: set<nat>, id: Id)
    requires forall k :: 0 <= k < |order| ==> order[k] < |items|
    ensures id in Targeted(items, order, faults) <==>
      exists k :: 0 <= k < |order| && order[k] !in faults && TargetOf(items[order[k]]) == Some(id)
    decreases |order|
  {
    if order != [] {
      assert forall k :: 0 <= k < |order[1..]| ==> order[1..][k] == order[k + 1];
      TargetedMembers(items, order[1..], faults, id);
      if exists k :: 0 <= k < |order| && order[k] !in faults && TargetOf(items[order[k]]) == Some(id) {
        var k :| 0 <= k < |order| && order[k] !in faults && TargetOf(items[order[k]]) == Some(id);
        if k > 0 {
          assert order[1..][k - 1] == order[k];
        }
      }
    }
  }

  lemma TargetedOfMixedBatch(items: seq<Translation>, order: seq<nat>, k: Id, j: Id)
    requires |items| == 3
    requires items[0].docId == Undefined && items[0].id == Undefined
    requires items[1].docId == Truthy(k)
    requires items[2].docId == Truthy(j)
    requires IsPermutation(order, 3)
    ensures ValidOrder(order, 3)
    ensures Targeted(items, order, {}) == {k, j}
  {
    PermutationIsValid(order, 3);
    assert TargetOf(items[0]) == None && TargetOf(items[1]) == Some(k) && TargetOf(items[2]) == Some(j);
    var a := IndexOf(order, 3, 1);
    var b := IndexOf(order, 3, 2);
    forall id
      ensures id in Targeted(items, order, {}) <==> id in {k, j}
    {
      TargetedMembers(items, order, {}, id);
      if id == k { assert TargetOf(items[order[a]]) == Some(id); }
      if id == j { assert TargetOf(items[order[b]]) == Some(id); }
    }
  }

  /** A single object settles once: the batch resolves with what that one
      delete found, as a one- or zero-element array. */
  lemma DeleteOneObject(t: Translation, store: Store, order: seq<nat>, faults: set<nat>)
    requires IsPermutation(order, 1)
    ensures ValidOrder(order, 1)
    ensures DeleteTranslation(ObjectInput(t), store, order, faults)
      == (Resolved(Successes([OnDeleteSettled(DeleteSingleTranslation(t, store, 0 in faults).0)])),
          DeleteSingleTranslation(t, store, 0 in faults).1)
  {
    PermutationIsValid(order, 1);
    assert order == [0] by { RangeCount(1, 0); assert order[0] in multiset(order); }
    var one := DeleteSingleTranslation(t, store, 0 in faults);
    var outs := [OnDeleteSettled(one.0)];
    assert order[1..] == [];
    assert DeleteInOrder([t], order[1..], one.1, faults) == ([], one.1);
    assert [t][order[0]] == t && order[0] == 0;
    assert outs + [] == outs;
    assert DeleteInOrder([t], order, store, faults) == (outs, one.1);
    assert outs[..1] == outs;
  }

  /** A single stored document is removed and reported inside an array. */
  lemma DeleteStoredObject(t: Translation, k: Id, store: Store, order: seq<nat>)
    requires t.docId == Truthy(k) && k in store
    requires IsPermutation(order, 1)
    ensures ValidOrder(order, 1)
    ensures DeleteTranslation(ObjectInput(t), store, order, {}) == (Resolved([store[k]]), store - {k})
  {
    DeleteOneObject(t, store, order, {});
    assert IdentityOf(t) == t.docId;
    assert DeleteSingleTranslation(t, store, false) == (Resolved(Some(store[k])), store - {k});
    assert Successes([Ok(store[k])]) == [store[k]] by {
      assert [Ok(store[k])][1..] == [];
    }
  }

  /** A document that was never saved resolves with an empty array and leaves
      the store as it was. */
  lemma DeleteUnsavedObject(t: Translation, j: Id, store: Store, order: seq<nat>)
    requires t.docId == Truthy(j) && j !in store
    requires IsPermutation(order, 1)
    ensures ValidOrder(order, 1)
    ensures DeleteTranslation(ObjectInput(t), store, order, {}) == (Resolved([]), store)
  {
    DeleteOneObject(t, store, order, {});
    assert IdentityOf(t) == t.docId;
    assert DeleteSingleTranslation(t, store, false) == (Resolved(None), store);
    var none: seq<Outcome<Translation>> := [Err];
    assert Successes(none) == [] by {
      assert none[1..] == [];
    }
  }
}
