/**
 * The completion-count join that `updateMultipleTranslations` and
 * `deleteTranslation` build from a closed-over `complete_count`, a shared
 * result array and an exposed promise: N independent store calls report to
 * one callback, which counts them, keeps the successful results and resolves
 * the promise when the count reaches N.
 */
module Join {

  /** What one store call reports to the shared callback. */
  datatype Outcome<T> = Ok(value: T) | Err

  /** The state of a promise. */
  datatype Settlement<T> = Pending | Resolved(value: T) | Rejected

  /** The values of the successful outcomes, in the order they arrived. */
  function Successes<T>(outs: seq<Outcome<T>>): seq<T> {
    if outs == [] then []
    else (if outs[0].Ok? then [outs[0].value] else []) + Successes(outs[1..])
  }

  /** Number of failed outcomes. */
  function CountErr<T>(outs: seq<Outcome<T>>): nat {
    if outs == [] then 0 else (if outs[0].Err? then 1 else 0) + CountErr(outs[1..])
  }

  /** The promise of a join expecting `total` callbacks after the callbacks in
      `settled` have run: it resolves, with the results collected by then, at
      the callback that brings the count to `total`, and never rejects. */
  function Resolution<T>(total: nat, settled: seq<Outcome<T>>): (r: Settlement<seq<T>>)
    ensures !r.Rejected?
    ensures r.Resolved? <==> 0 < total <= |settled|
  {
    if 0 < total <= |settled| then Resolved(Successes(settled[..total])) else Pending
  }

  lemma {:induction false} SuccessesAppend<T>(a: seq<Outcome<T>>, b: seq<Outcome<T>>)
    ensures Successes(a + b) == Successes(a) + Successes(b)
  {
    if a == [] {
      assert a + b == b;
    } else {
      var ab := a + b;
      assert ab[0] == a[0];
      assert ab[1..] == a[1..] + b;
      SuccessesAppend(a[1..], b);
      var head := if a[0].Ok? then [a[0].value] else [];
      calc {
        Successes(ab);
        head + Successes(ab[1..]);
        head + (Successes(a[1..]) + Successes(b));
        (head + Successes(a[1..])) + Successes(b);
      }
    }
  }

  /** A value is collected exactly as often as it was reported as a success. */
  lemma {:induction false} SuccessesCount<T>(outs: seq<Outcome<T>>, v: T)
    ensures multiset(Successes(outs))[v] == multiset(outs)[Ok(v)]
  {
    if outs != [] {
      var head := if outs[0].Ok? then [outs[0].value] else [];
      assert multiset(Successes(outs))[v] == multiset(head)[v] + multiset(Successes(outs[1..]))[v] by {
        assert Successes(outs) == head + Successes(outs[1..]);
      }
      assert multiset(outs)[Ok(v)] == multiset([outs[0]])[Ok(v)] + multiset(outs[1..])[Ok(v)] by {
        assert outs == [outs[0]] + outs[1..];
      }
      assert multiset(head)[v] == multiset([outs[0]])[Ok(v)] by {
        assert outs[0] == Ok(v) <==> outs[0].Ok? && outs[0].value == v;
      }
      SuccessesCount(outs[1..], v);
    }
  }

  /** N settled callbacks with F failures collect N - F results. */
  lemma {:induction false} SuccessesLength<T>(outs: seq<Outcome<T>>)
    ensures |Successes(outs)| == |outs| - CountErr(outs)
  {
    if outs != [] {
      SuccessesLength(outs[1..]);
    }
  }

  /** What is collected does not depend on the order the callbacks ran in. */
  lemma {:induction false} SuccessesReordered<T>(a: seq<Outcome<T>>, b: seq<Outcome<T>>)
    requires multiset(a) == multiset(b)
    ensures multiset(Successes(a)) == multiset(Successes(b))
    decreases |a|
  {
    if a == [] {
      assert |b| == |multiset(b)| == 0;
    } else {
      assert a[0] in multiset(b);
      var i :| 0 <= i < |b| && b[i] == a[0];
      var p, q := b[..i], b[i + 1..];
      var one := Successes([a[0]]);
      assert multiset(Successes(a[1..])) == multiset(Successes(p + q)) by {
        RemoveFirst(a, b, i);
        SuccessesReordered(a[1..], p + q);
      }
      assert multiset(Successes(b)) == multiset(one) + multiset(Successes(p + q)) by {
        RemoveFirst(a, b, i);
        SuccessesAround(p, b[i], q);
        MultisetAround(Successes(p), one, Successes(q));
      }
      assert multiset(Successes(a)) == multiset(one) + multiset(Successes(a[1..])) by {
        assert a == [a[0]] + a[1..];
        SuccessesAppend([a[0]], a[1..]);
      }
    }
  }

  /** Taking the first element of `a` out of `b`, where it stands at `i`,
      keeps the two permutations of each other. */
  lemma RemoveFirst<U>(a: seq<U>, b: seq<U>, i: nat)
    requires a != [] && i < |b| && b[i] == a[0]
    requires multiset(a) == multiset(b)
    ensures b == b[..i] + ([b[i]] + b[i + 1..])
    ensures multiset(a[1..]) == multiset(b[..i] + b[i + 1..])
  {
    assert b == b[..i] + ([b[i]] + b[i + 1..]);
    assert a == [a[0]] + a[1..];
    assert multiset(a[1..]) == multiset(a) - multiset{a[0]};
    assert multiset(b[..i] + b[i + 1..]) == multiset(b) - multiset{b[i]};
  }

  lemma SuccessesAround<T>(p: seq<Outcome<T>>, x: Outcome<T>, q: seq<Outcome<T>>)
    ensures Successes(p + ([x] + q)) == Successes(p) + (Successes([x]) + Successes(q))
    ensures Successes(p + q) == Successes(p) + Successes(q)
  {
    SuccessesAppend(p, [x] + q);
    SuccessesAppend([x], q);
    SuccessesAppend(p, q);
  }

  lemma MultisetAround<U>(p: seq<U>, m: seq<U>, q: seq<U>)
    ensures multiset(p + (m + q)) == multiset(m) + multiset(p + q)
  {
  }

  /** The item indices `0, 1, ..., n - 1`. */
  function Range(n: nat): (r: seq<nat>)
    ensures |r| == n
  {
    if n == 0 then [] else Range(n - 1) + [n - 1]
  }

  lemma {:induction false} RangeAt(n: nat, k: nat)
    requires k < n
    ensures Range(n)[k] == k
  {
    if k < n - 1 {
      RangeAt(n - 1, k);
    }
  }

  /** Item indices below `n`. */
  predicate InRange(order: seq<nat>, n: nat) {
    forall k :: 0 <= k < |order| ==> order[k] < n
  }

  lemma InRangeSuffix(order: seq<nat>, n: nat, k: nat)
    requires InRange(order, n) && k <= |order|
    ensures InRange(order[k..], n)
  {
    assert forall j :: 0 <= j < |order[k..]| ==> order[k..][j] == order[k + j];
  }

  /** A settlement order: item indices below `n`, each settling at most once. */
  predicate ValidOrder(order: seq<nat>, n: nat) {
    && InRange(order, n)
    && (forall k, l :: 0 <= k < l < |order| ==> order[k] != order[l])
  }

  /** A complete settlement order: every one of the `n` calls settles exactly once. */
  predicate IsPermutation(order: seq<nat>, n: nat) {
    multiset(order) == multiset(Range(n))
  }

  lemma {:induction false} RangeCount(n: nat, x: nat)
    ensures multiset(Range(n))[x] == if x < n then 1 else 0
  {
    if n > 0 {
      var init := Range(n - 1);
      assert Range(n) == init + [n - 1];
      RangeCount(n - 1, x);
      CountStep(init, n - 1, [], false, x);
      assert multiset(Range(n))[x] == multiset(init)[x] + (if x == n - 1 then 1 else 0);
    }
  }

  /** Multiplicities after appending one element, kept or not. */
  lemma CountStep<U>(init: seq<U>, last: U, kept: seq<U>, keep: bool, x: U)
    ensures multiset(kept + (if keep then [last] else []))[x] == multiset(kept)[x] + (if keep && x == last then 1 else 0)
    ensures multiset(init + [last])[x] == multiset(init)[x] + (if x == last then 1 else 0)
  {
  }

  /** A complete order is a valid one. */
  lemma PermutationIsValid(order: seq<nat>, n: nat)
    requires IsPermutation(order, n)
    ensures ValidOrder(order, n) && |order| == n
  {
    assert |order| == |multiset(order)| == |multiset(Range(n))| == n;
    forall k | 0 <= k < |order|
      ensures order[k] < n
    {
      assert order[k] in multiset(order);
      RangeCount(n, order[k]);
    }
    forall k, l | 0 <= k < l < |order|
      ensures order[k] != order[l]
    {
      if order[k] == order[l] {
        var v := order[k];
        assert order == order[..l] + order[l..];
        assert order[k] == order[..l][k];
        assert order[l] == order[l..][0];
        assert multiset(order)[v] == multiset(order[..l])[v] + multiset(order[l..])[v];
        assert multiset(order[..l])[v] >= 1;
        assert multiset(order[l..])[v] >= 1;
        RangeCount(n, v);
        assert false;
      }
    }
  }

  /** Every item of a complete order settles somewhere in it. */
  lemma IndexOf(order: seq<nat>, n: nat, x: nat) returns (i: nat)
    requires IsPermutation(order, n) && x < n
    ensures i < |order| && order[i] == x
  {
    RangeCount(n, x);
    assert x in multiset(order);
    i :| 0 <= i < |order| && order[i] == x;
  }

  /** The per-item values `vals` in settlement order. */
  function InOrder<T>(vals: seq<T>, order: seq<nat>): (r: seq<T>)
    requires forall k :: 0 <= k < |order| ==> order[k] < |vals|
    ensures |r| == |order|
  {
    if order == [] then [] else [vals[order[0]]] + InOrder(vals, order[1..])
  }

  /** The value settling `k`-th is that of the item settling `k`-th. */
  lemma {:induction false} InOrderAt<T>(vals: seq<T>, order: seq<nat>, k: nat)
    requires forall j :: 0 <= j < |order| ==> order[j] < |vals|
    requires k < |order|
    ensures InOrder(vals, order)[k] == vals[order[k]]
  {
    if k > 0 {
      InOrderAt(vals, order[1..], k - 1);
    }
  }

  lemma {:induction false} InOrderAppend<T>(vals: seq<T>, a: seq<nat>, b: seq<nat>)
    requires forall k :: 0 <= k < |a| ==> a[k] < |vals|
    requires forall k :: 0 <= k < |b| ==> b[k] < |vals|
    ensures InOrder(vals, a + b) == InOrder(vals, a) + InOrder(vals, b)
  {
    if a == [] {
      assert a + b == b;
    } else {
      assert (a + b)[1..] == a[1..] + b;
      InOrderAppend(vals, a[1..], b);
    }
  }

  /** Reordering the indices reorders the values the same way. */
  lemma {:induction false} InOrderReordered<T>(vals: seq<T>, a: seq<nat>, b: seq<nat>)
    requires forall k :: 0 <= k < |a| ==> a[k] < |vals|
    requires forall k :: 0 <= k < |b| ==> b[k] < |vals|
    requires multiset(a) == multiset(b)
    ensures multiset(InOrder(vals, a)) == multiset(InOrder(vals, b))
    decreases |a|
  {
    if a == [] {
      assert |b| == |multiset(b)| == 0;
    } else {
      assert a[0] in multiset(b);
      var i :| 0 <= i < |b| && b[i] == a[0];
      var rest := RemoveMatched(a, b, i, |vals|);
      InOrderReordered(vals, a[1..], rest);
      InOrderSplit(vals, b, i, rest);
      assert InOrder(vals, a) == [vals[a[0]]] + InOrder(vals, a[1..]);
    }
  }

  /** Taking the `i`-th index out of `b` takes its value out of the values. */
  lemma {:induction false} InOrderSplit<T>(vals: seq<T>, b: seq<nat>, i: nat, rest: seq<nat>)
    requires forall k :: 0 <= k < |b| ==> b[k] < |vals|
    requires i < |b| && rest == b[..i] + b[i + 1..]
    requires forall k :: 0 <= k < |rest| ==> rest[k] < |vals|
    ensures multiset(InOrder(vals, b)) == multiset{vals[b[i]]} + multiset(InOrder(vals, rest))
    decreases i
  {
    if i == 0 {
      assert rest == b[1..];
    } else {
      var tail := b[1..][..i - 1] + b[1..][i..];
      assert rest == [b[0]] + tail;
      assert rest[1..] == tail;
      assert forall k :: 0 <= k < |b[1..]| ==> b[1..][k] == b[k + 1];
      assert forall k :: 0 <= k < |tail| ==> tail[k] == rest[k + 1];
      InOrderSplit(vals, b[1..], i - 1, tail);
      assert b[1..][i - 1] == b[i];
    }
  }

  /** Taking the first index of `a` out of `b`, where it stands at `i`, keeps
      the two index sequences permutations of each other. */
  lemma RemoveMatched(a: seq<nat>, b: seq<nat>, i: nat, n: nat) returns (rest: seq<nat>)
    requires a != [] && i < |b| && b[i] == a[0]
    requires forall k :: 0 <= k < |a| ==> a[k] < n
    requires forall k :: 0 <= k < |b| ==> b[k] < n
    requires multiset(a) == multiset(b)
    ensures rest == b[..i] + b[i + 1..]
    ensures b == b[..i] + ([b[i]] + b[i + 1..])
    ensures multiset(a[1..]) == multiset(rest)
    ensures forall k :: 0 <= k < |rest| ==> rest[k] < n
    ensures forall k :: 0 <= k < |a[1..]| ==> a[1..][k] < n
  {
    rest := b[..i] + b[i + 1..];
    RemoveFirst(a, b, i);
    forall k | 0 <= k < |rest| ensures rest[k] < n {
      if k < i { assert rest[k] == b[k]; } else { assert rest[k] == b[k + 1]; }
    }
    forall k | 0 <= k < |a[1..]| ensures a[1..][k] < n {
      assert a[1..][k] == a[k + 1];
    }
  }

  lemma InOrderRange<T>(vals: seq<T>)
    ensures forall k :: 0 <= k < |Range(|vals|)| ==> Range(|vals|)[k] < |vals|
    ensures InOrder(vals, Range(|vals|)) == vals
  {
    var r := Range(|vals|);
    forall k | 0 <= k < |vals|
      ensures r[k] == k
    {
      RangeAt(|vals|, k);
    }
    forall k | 0 <= k < |vals|
      ensures InOrder(vals, r)[k] == vals[k]
    {
      InOrderAt(vals, r, k);
    }
  }

  /** Over a complete order, the settled values are the per-item values, reordered. */
  lemma InOrderPermutation<T>(vals: seq<T>, order: seq<nat>)
    requires IsPermutation(order, |vals|)
    ensures |order| == |vals|
    ensures forall k :: 0 <= k < |order| ==> order[k] < |vals|
    ensures multiset(InOrder(vals, order)) == multiset(vals)
  {
    PermutationIsValid(order, |vals|);
    InOrderRange(vals);
    InOrderReordered(vals, order, Range(|vals|));
  }

  /** The shared state of one join: the closed-over counter, the result array
      and the promise, with the callbacks that have run so far as ghost history. */
  class Latch<T> {
    const total: nat
    var count: nat
    var results: seq<T>
    var resolved: Settlement<seq<T>>
    ghost var settled: seq<Outcome<T>>

    ghost predicate Valid()
      reads this
    {
      && count == |settled|
      && results == Successes(settled)
      && resolved == Resolution(total, settled)
    }

    /** `complete_count = 0`, `results = []` and a fresh pending promise. */
    constructor (total: nat)
      ensures Valid()
      ensures this.total == total && settled == []
      ensures count == 0 && results == [] && resolved == Pending
    {
      this.total := total;
      count := 0;
      results := [];
      resolved := Pending;
      settled := [];
    }

    /** The shared callback: count, keep a success, resolve when the count reaches `total`. */
    method OnComplete(outcome: Outcome<T>)
      requires Valid()
      modifies this
      ensures Valid()
      ensures settled == old(settled) + [outcome]
      ensures count == old(count) + 1
      ensures results == old(results) + (if outcome.Ok? then [outcome.value] else [])
      ensures old(resolved).Resolved? ==> resolved == old(resolved)
      ensures resolved.Resolved? && old(resolved).Pending? ==> count == total && resolved.value == results
    {
      SuccessesAppend(settled, [outcome]);
      count := count + 1;
      if outcome.Ok? {
        results := results + [outcome.value];
      }
      settled := settled + [outcome];
      if count == total {
        assert settled[..total] == settled;
        resolved := Resolved(results);
      } else {
        assert count > total ==> settled[..total] == old(settled)[..total];
      }
    }
  }

  /** The join driven by the event loop: a latch for `total` calls, fed the
      callbacks in settlement order. */
  method RunJoin<T>(total: nat, outcomes: seq<Outcome<T>>) returns (promise: Settlement<seq<T>>)
    ensures promise == Resolution(total, outcomes)
  {
    var latch := new Latch<T>(total);
    for i := 0 to |outcomes|
      invariant latch.Valid()
      invariant latch.total == total
      invariant latch.settled == outcomes[..i]
    {
      latch.OnComplete(outcomes[i]);
      assert outcomes[..i + 1] == outcomes[..i] + [outcomes[i]];
    }
    assert outcomes[..|outcomes|] == outcomes;
    promise := latch.resolved;
  }

  /** Once resolved, a join keeps its value whatever callbacks follow: it fires once. */
  lemma {:induction false} ResolvesOnce<T>(total: nat, settled: seq<Outcome<T>>, later: seq<Outcome<T>>)
    requires Resolution(total, settled).Resolved?
    ensures Resolution(total, settled + later) == Resolution(total, settled)
  {
    assert (settled + later)[..total] == settled[..total];
  }

  /** A complete round of `total` callbacks resolves with exactly the successful
      values, in the order their callbacks ran, whatever that order was, and
      never with a failure. */
  lemma CompleteJoin<T>(outs: seq<Outcome<T>>, order: seq<nat>)
    requires |outs| > 0
    requires IsPermutation(order, |outs|)
    ensures forall k :: 0 <= k < |order| ==> order[k] < |outs|
    ensures Resolution(|outs|, InOrder(outs, order)).Resolved?
    ensures Resolution(|outs|, InOrder(outs, order)).value == Successes(InOrder(outs, order))
    ensures multiset(Resolution(|outs|, InOrder(outs, order)).value) == multiset(Successes(outs))
    ensures |Resolution(|outs|, InOrder(outs, order)).value| == |outs| - CountErr(outs)
  {
    InOrderPermutation(outs, order);
    var settled := InOrder(outs, order);
    assert settled[..|outs|] == settled;
    SuccessesReordered(settled, outs);
    SuccessesLength(outs);
    assert |Successes(settled)| == |multiset(Successes(settled))| == |multiset(Successes(outs))| == |Successes(outs)|;
  }
}
