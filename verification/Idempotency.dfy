/**
 The idempotency middleware as a protocol: clients of one store, interleaved step by step.
 Each store operation is atomic; a result is never `None`.
 */
module Idempotency {
  import opened Wrappers
  import opened Collections

  /** What the store holds for a key. */
  datatype Slot<R> = Free | Claimed | Done(result: R)

  /** Where a client is in `execute`: each arrow between stages is one step of the protocol. */
  datatype Stage<R> =
    | Start
    | Missed                  // the first `get` found nothing
    | Refused                 // `claim` failed; about to `get` again
    | Executing               // holds the claim, running the inner backend
    | Computed(result: R)     // the inner backend returned; about to `complete`
    | Failed                  // the inner backend raised; about to `release`
    | Returned(result: R)
    | Raised                  // "key is claimed", or the inner error after release
    | Crashed                 // stopped while holding the claim; nothing releases it

  datatype Client<K, R> = Client(key: K, stage: Stage<R>)

  /** `completed` counts, per key, the inner executions whose result was stored. */
  datatype State<!K, R> = State(store: map<K, Slot<R>>, clients: seq<Client<K, R>>, completed: map<K, nat>)

  function SlotOf<K, R>(s: State<K, R>, key: K): Slot<R> {
    if key in s.store then s.store[key] else Free
  }

  function CompletedOf<K, R>(s: State<K, R>, key: K): nat {
    if key in s.completed then s.completed[key] else 0
  }

  function Move<K(==), R>(s: State<K, R>, i: nat, stage: Stage<R>): State<K, R>
    requires i < |s.clients|
  {
    s.(clients := s.clients[i := s.clients[i].(stage := stage)])
  }

  function Store<K(==), R>(s: State<K, R>, key: K, slot: Slot<R>): State<K, R> {
    s.(store := s.store[key := slot])
  }

  // ---- the steps ----

  /** The client holds the claim on its key. */
  predicate HoldsClaim<K, R>(c: Client<K, R>) {
    c.stage.Executing? || c.stage.Computed? || c.stage.Failed? || c.stage.Crashed?
  }

  /** `store.get` before anything else. */
  ghost predicate FirstGet<K(!new), R(!new)>(s: State<K, R>, t: State<K, R>, i: nat) {
    && i < |s.clients| && s.clients[i].stage.Start?
    && t == Move(s, i, match SlotOf(s, s.clients[i].key) case Done(r) => Returned(r) case _ => Missed)
  }

  /** `store.claim`: succeeds only on a free key. */
  ghost predicate Claim<K(!new), R(!new)>(s: State<K, R>, t: State<K, R>, i: nat) {
    && i < |s.clients| && s.clients[i].stage.Missed?
    && var key := s.clients[i].key;
       t == if SlotOf(s, key).Free? then Store(Move(s, i, Executing), key, Claimed) else Move(s, i, Refused)
  }

  /** `store.get` after a refused claim: the stored result, or the "is claimed" error. */
  ghost predicate SecondGet<K(!new), R(!new)>(s: State<K, R>, t: State<K, R>, i: nat) {
    && i < |s.clients| && s.clients[i].stage.Refused?
    && t == Move(s, i, match SlotOf(s, s.clients[i].key) case Done(r) => Returned(r) case _ => Raised)
  }

  /** The inner backend returns some result, or raises. */
  ghost predicate Inner<K(!new), R(!new)>(s: State<K, R>, t: State<K, R>, i: nat) {
    && i < |s.clients| && s.clients[i].stage.Executing?
    && (t == Move(s, i, Failed) || exists r: R :: t == Move(s, i, Computed(r)))
  }

  /** `store.complete` */
  ghost predicate Complete<K(!new), R(!new)>(s: State<K, R>, t: State<K, R>, i: nat) {
    && i < |s.clients| && s.clients[i].stage.Computed?
    && var key, r := s.clients[i].key, s.clients[i].stage.result;
       t == Store(Move(s, i, Returned(r)), key, Done(r)).(completed := s.completed[key := CompletedOf(s, key) + 1])
  }

  /** `store.release` */
  ghost predicate Release<K(!new), R(!new)>(s: State<K, R>, t: State<K, R>, i: nat) {
    && i < |s.clients| && s.clients[i].stage.Failed?
    && t == Store(Move(s, i, Raised), s.clients[i].key, Free)
  }

  /**
   A client that holds the claim is gone: it is stopped at any point (the handlers catch only
   `Exception`), or `complete` or `release` itself raises.
   */
  ghost predicate Stop<K(!new), R(!new)>(s: State<K, R>, t: State<K, R>, i: nat) {
    i < |s.clients| && HoldsClaim(s.clients[i]) && !s.clients[i].stage.Crashed? && t == Move(s, i, Crashed)
  }

  ghost predicate Next<K(!new), R(!new)>(s: State<K, R>, t: State<K, R>, i: nat) {
    || FirstGet(s, t, i) || Claim(s, t, i) || SecondGet(s, t, i)
    || Inner(s, t, i) || Complete(s, t, i) || Release(s, t, i) || Stop(s, t, i)
  }

  ghost predicate SomeStep<K(!new), R(!new)>(s: State<K, R>, t: State<K, R>) {
    exists i: nat :: Next(s, t, i)
  }

  ghost predicate Initial<K(!new), R(!new)>(s: State<K, R>) {
    s.store == map[] && s.completed == map[] && forall i :: 0 <= i < |s.clients| ==> s.clients[i].stage.Start?
  }

  /** A run: any interleaving of client steps. */
  ghost predicate IsRun<K(!new), R(!new)>(run: seq<State<K, R>>) {
    && run != [] && Initial(run[0])
    && forall k :: 0 <= k < |run| - 1 ==> SomeStep(run[k], run[k + 1])
  }

  // ---- the invariant ----

  ghost predicate Invariant<K(!new), R(!new)>(s: State<K, R>) {
    && (forall i, j :: 0 <= i < j < |s.clients| && HoldsClaim(s.clients[i]) && HoldsClaim(s.clients[j]) ==>
          s.clients[i].key != s.clients[j].key)
    && (forall i :: 0 <= i < |s.clients| && HoldsClaim(s.clients[i]) ==> SlotOf(s, s.clients[i].key).Claimed?)
    && (forall i :: 0 <= i < |s.clients| && s.clients[i].stage.Returned? ==>
          SlotOf(s, s.clients[i].key) == Done(s.clients[i].stage.result))
    && (forall key :: CompletedOf(s, key) == if SlotOf(s, key).Done? then 1 else 0)
  }

  /** Steps that only move a client: it gains no claim, and returns only a stored result. */
  lemma {:induction false} MoveKeeps<K(!new), R(!new)>(s: State<K, R>, i: nat, stage: Stage<R>)
    requires Invariant(s) && i < |s.clients|
    requires HoldsClaim(Client(s.clients[i].key, stage)) ==> HoldsClaim(s.clients[i])
    requires stage.Returned? ==> SlotOf(s, s.clients[i].key) == Done(stage.result)
    ensures Invariant(Move(s, i, stage))
  {
    var t := Move(s, i, stage);
    assert forall k :: 0 <= k < |s.clients| ==> t.clients[k].key == s.clients[k].key;
    assert forall key :: SlotOf(t, key) == SlotOf(s, key) && CompletedOf(t, key) == CompletedOf(s, key);
  }

  lemma {:induction false} ClaimKeeps<K(!new), R(!new)>(s: State<K, R>, t: State<K, R>, i: nat)
    requires Invariant(s) && Claim(s, t, i)
    ensures Invariant(t)
  {
    var key := s.clients[i].key;
    if SlotOf(s, key).Free? {
      assert forall k :: 0 <= k < |s.clients| && k != i ==> t.clients[k] == s.clients[k];
      assert forall other :: other != key ==> SlotOf(t, other) == SlotOf(s, other);
      assert forall other :: CompletedOf(t, other) == CompletedOf(s, other);
      assert t.clients[i].stage.Executing? && SlotOf(t, key).Claimed?;
    } else {
      MoveKeeps(s, i, Refused);
    }
  }

  lemma {:induction false} CompleteKeeps<K(!new), R(!new)>(s: State<K, R>, t: State<K, R>, i: nat)
    requires Invariant(s) && Complete(s, t, i)
    ensures Invariant(t)
  {
    var key := s.clients[i].key;
    assert HoldsClaim(s.clients[i]) && SlotOf(s, key).Claimed? && CompletedOf(s, key) == 0;
    assert forall k :: 0 <= k < |s.clients| && k != i ==> t.clients[k] == s.clients[k];
    assert forall other :: other != key ==>
             SlotOf(t, other) == SlotOf(s, other) && CompletedOf(t, other) == CompletedOf(s, other);
  }

  lemma {:induction false} ReleaseKeeps<K(!new), R(!new)>(s: State<K, R>, t: State<K, R>, i: nat)
    requires Invariant(s) && Release(s, t, i)
    ensures Invariant(t)
  {
    var key := s.clients[i].key;
    assert HoldsClaim(s.clients[i]) && SlotOf(s, key).Claimed? && CompletedOf(s, key) == 0;
    assert forall k :: 0 <= k < |s.clients| && k != i ==> t.clients[k] == s.clients[k];
    assert forall other :: other != key ==>
             SlotOf(t, other) == SlotOf(s, other) && CompletedOf(t, other) == CompletedOf(s, other);
  }

  lemma {:induction false} StepKeepsInvariant<K(!new), R(!new)>(s: State<K, R>, t: State<K, R>, i: nat)
    requires Invariant(s) && Next(s, t, i)
    ensures Invariant(t) && |t.clients| == |s.clients|
  {
    if Claim(s, t, i) {
      ClaimKeeps(s, t, i);
    } else if Complete(s, t, i) {
      CompleteKeeps(s, t, i);
    } else if Release(s, t, i) {
      ReleaseKeeps(s, t, i);
    } else {
      MoveKeeps(s, i, t.clients[i].stage);
      assert t == Move(s, i, t.clients[i].stage);
    }
  }

  /** Over every interleaving, every state of the run satisfies the invariant. */
  lemma {:induction false} RunKeepsInvariant<K(!new), R(!new)>(run: seq<State<K, R>>, k: nat)
    requires IsRun(run) && k < |run|
    ensures Invariant(run[k]) && |run[k].clients| == |run[0].clients|
    decreases k
  {
    if k > 0 {
      RunKeepsInvariant(run, k - 1);
      assert SomeStep(run[k - 1], run[k - 1 + 1]);
      var i: nat :| Next(run[k - 1], run[k], i);
      StepKeepsInvariant(run[k - 1], run[k], i);
    }
  }

  /** A stored result and a returned client never change again. */
  lemma {:induction false} StepKeepsResults<K(!new), R(!new)>(s: State<K, R>, t: State<K, R>, i: nat, key: K)
    requires Invariant(s) && Next(s, t, i)
    ensures SlotOf(s, key).Done? ==> SlotOf(t, key) == SlotOf(s, key)
    ensures forall j :: 0 <= j < |s.clients| && s.clients[j].stage.Returned? ==>
              j < |t.clients| && t.clients[j] == s.clients[j]
  {
  }

  lemma {:induction false} RunKeepsResults<K(!new), R(!new)>(run: seq<State<K, R>>, k: nat, l: nat, key: K)
    requires IsRun(run) && k <= l < |run|
    ensures SlotOf(run[k], key).Done? ==> SlotOf(run[l], key) == SlotOf(run[k], key)
    decreases l - k
  {
    if k < l {
      RunKeepsInvariant(run, k);
      assert SomeStep(run[k], run[k + 1]);
      var i: nat :| Next(run[k], run[k + 1], i);
      StepKeepsResults(run[k], run[k + 1], i, key);
      RunKeepsResults(run, k + 1, l, key);
    }
  }

  /**
   Over any interleaving: at most one client per key is executing, at most one execution per
   key is completed, and any two clients that have returned for a key, at any two moments of
   the run, returned the same result.
   */
  lemma {:induction false} AtMostOnce<K(!new), R(!new)>(run: seq<State<K, R>>, k: nat, l: nat, i: nat, j: nat)
    requires IsRun(run) && k <= l < |run| && i < |run[k].clients| && j < |run[l].clients|
    ensures i != j && k == l && run[k].clients[i].stage.Executing? && run[k].clients[j].stage.Executing? ==>
              run[k].clients[i].key != run[k].clients[j].key
    ensures CompletedOf(run[l], run[l].clients[j].key) <= 1
    ensures run[k].clients[i].stage.Returned? && run[l].clients[j].stage.Returned?
            && run[k].clients[i].key == run[l].clients[j].key ==>
              run[k].clients[i].stage.result == run[l].clients[j].stage.result
  {
    RunKeepsInvariant(run, k);
    RunKeepsInvariant(run, l);
    RunKeepsResults(run, k, l, run[k].clients[i].key);
  }

  lemma {:induction false} StaysCrashed<K(!new), R(!new)>(run: seq<State<K, R>>, k: nat, l: nat, i: nat)
    requires IsRun(run) && k <= l < |run| && i < |run[k].clients| && run[k].clients[i].stage.Crashed?
    ensures i < |run[l].clients| && run[l].clients[i] == run[k].clients[i]
    decreases l - k
  {
    if k < l {
      assert SomeStep(run[k], run[k + 1]);
      var j: nat :| Next(run[k], run[k + 1], j);
      StaysCrashed(run, k + 1, l, i);
    }
  }

  /**
   The claim of a client that is stopped while it holds one is never released: from then on the
   key stays claimed, so no client ever returns a result for it.
   */
  lemma {:induction false} CrashBlocksKey<K(!new), R(!new)>(run: seq<State<K, R>>, k: nat, l: nat, i: nat, j: nat)
    requires IsRun(run) && k <= l < |run| && i < |run[k].clients| && run[k].clients[i].stage.Crashed?
    requires j < |run[l].clients| && run[l].clients[j].key == run[k].clients[i].key
    ensures SlotOf(run[l], run[k].clients[i].key).Claimed? && !run[l].clients[j].stage.Returned?
  {
    StaysCrashed(run, k, l, i);
    RunKeepsInvariant(run, l);
    assert HoldsClaim(run[l].clients[i]);
  }

  // ---- what callers get ----

  /** The client has not claimed its key and has not ended. */
  predicate Pending<R>(stage: Stage<R>) {
    stage.Start? || stage.Missed? || stage.Refused?
  }

  /** Where a pending client can be once its key is done: no further than it was, or served. */
  ghost predicate ServedFrom<R>(before: Stage<R>, after: Stage<R>, r: R) {
    || after == Returned(r) || after == before || (before.Missed? && after.Refused?)
  }

  lemma {:induction false} StepServes<K(!new), R(!new)>(s: State<K, R>, t: State<K, R>, j: nat, i: nat, r: R)
    requires Invariant(s) && Next(s, t, j) && i < |s.clients|
    requires Pending(s.clients[i].stage) && SlotOf(s, s.clients[i].key) == Done(r)
    ensures i < |t.clients| && t.clients[i].key == s.clients[i].key && SlotOf(t, t.clients[i].key) == Done(r)
    ensures ServedFrom(s.clients[i].stage, t.clients[i].stage, r)
  {
    StepKeepsResults(s, t, j, s.clients[i].key);
  }

  /**
   Over every run, a client that has not claimed its key by the time it is done with a result
   never executes and never raises: it waits, or has returned that result.  One that has not
   started yet gets it at its first lookup.
   */
  lemma {:induction false} CallerIsServed<K(!new), R(!new)>(run: seq<State<K, R>>, k: nat, l: nat, i: nat, r: R)
    requires IsRun(run) && k <= l < |run| && i < |run[k].clients|
    requires Pending(run[k].clients[i].stage) && SlotOf(run[k], run[k].clients[i].key) == Done(r)
    ensures i < |run[l].clients| && run[l].clients[i].key == run[k].clients[i].key
    ensures ServedFrom(run[k].clients[i].stage, run[l].clients[i].stage, r)
    ensures run[k].clients[i].stage.Start? ==> run[l].clients[i].stage in {Start, Returned(r)}
    decreases l - k
  {
    if k < l {
      RunKeepsInvariant(run, k);
      assert SomeStep(run[k], run[k + 1]);
      var j: nat :| Next(run[k], run[k + 1], j);
      StepServes(run[k], run[k + 1], j, i, r);
      if Pending(run[k + 1].clients[i].stage) {
        CallerIsServed(run, k + 1, l, i, r);
      } else {
        StaysReturned(run, k + 1, l, i);
      }
    }
  }

  lemma {:induction false} StaysReturned<K(!new), R(!new)>(run: seq<State<K, R>>, k: nat, l: nat, i: nat)
    requires IsRun(run) && k <= l < |run| && i < |run[k].clients| && run[k].clients[i].stage.Returned?
    ensures i < |run[l].clients| && run[l].clients[i] == run[k].clients[i]
    decreases l - k
  {
    if k < l {
      RunKeepsInvariant(run, k);
      assert SomeStep(run[k], run[k + 1]);
      var j: nat :| Next(run[k], run[k + 1], j);
      StepKeepsResults(run[k], run[k + 1], j, run[k].clients[i].key);
      StaysReturned(run, k + 1, l, i);
    }
  }

  /** The client's own call of the inner backend failed at that moment. */
  predicate InnerFailed<K, R>(run: seq<State<K, R>>, i: nat, k: nat) {
    && k + 1 < |run| && i < |run[k].clients| && i < |run[k + 1].clients|
    && run[k].clients[i].stage.Executing? && run[k + 1].clients[i].stage.Failed?
  }

  /** The client was refused and found its key not done at its second lookup. */
  predicate LookedInVain<K(==), R>(run: seq<State<K, R>>, i: nat, k: nat) {
    && k + 1 < |run| && i < |run[k].clients| && i < |run[k + 1].clients|
    && run[k].clients[i].stage.Refused? && run[k + 1].clients[i].stage.Raised?
    && !SlotOf(run[k], run[k].clients[i].key).Done?
  }

  lemma {:induction false} StepInto<K(!new), R(!new)>(s: State<K, R>, t: State<K, R>, j: nat, i: nat)
    requires Next(s, t, j) && i < |s.clients|
    ensures i < |t.clients| && t.clients[i].key == s.clients[i].key
    ensures t.clients[i].stage.Failed? ==> s.clients[i].stage.Failed? || s.clients[i].stage.Executing?
    ensures t.clients[i].stage.Raised? ==>
              || s.clients[i].stage.Raised? || s.clients[i].stage.Failed?
              || (s.clients[i].stage.Refused? && !SlotOf(s, s.clients[i].key).Done?)
  {
    if i != j {
      assert t.clients[i] == s.clients[i];
    }
  }

  lemma {:induction false} LastStep<K(!new), R(!new)>(run: seq<State<K, R>>, l: nat, i: nat) returns (j: nat)
    requires IsRun(run) && l < |run| && i < |run[l].clients| && !run[l].clients[i].stage.Start?
    ensures l > 0 && i < |run[l - 1].clients| && Next(run[l - 1], run[l], j)
  {
    RunKeepsInvariant(run, l);
    assert l > 0;
    RunKeepsInvariant(run, l - 1);
    assert SomeStep(run[l - 1], run[l - 1 + 1]);
    j :| Next(run[l - 1], run[l], j);
  }

  lemma {:induction false} FailedInside<K(!new), R(!new)>(run: seq<State<K, R>>, l: nat, i: nat) returns (k: nat)
    requires IsRun(run) && l < |run| && i < |run[l].clients| && run[l].clients[i].stage.Failed?
    ensures k < l && InnerFailed(run, i, k)
    decreases l
  {
    var j := LastStep(run, l, i);
    StepInto(run[l - 1], run[l], j, i);
    k := l - 1;
    if run[l - 1].clients[i].stage.Failed? {
      k := FailedInside(run, l - 1, i);
    }
  }

  /** A client raises only after its own inner call failed, or on a second lookup that finds the key not done. */
  lemma {:induction false} RaisesOnlyThen<K(!new), R(!new)>(run: seq<State<K, R>>, l: nat, i: nat) returns (k: nat)
    requires IsRun(run) && l < |run| && i < |run[l].clients| && run[l].clients[i].stage.Raised?
    ensures k < l && (InnerFailed(run, i, k) || LookedInVain(run, i, k))
    decreases l
  {
    var j := LastStep(run, l, i);
    StepInto(run[l - 1], run[l], j, i);
    k := l - 1;
    if run[l - 1].clients[i].stage.Raised? {
      k := RaisesOnlyThen(run, l - 1, i);
    } else if run[l - 1].clients[i].stage.Failed? {
      k := FailedInside(run, l - 1, i);
    }
  }

  /** The run can go on so that the client returns the result. */
  ghost predicate CanReturn<K(!new), R(!new)>(run: seq<State<K, R>>, more: seq<State<K, R>>, i: nat, r: R) {
    && IsRun(run + more)
    && var last := (run + more)[|run + more| - 1];
       i < |last.clients| && last.clients[i].stage == Returned(r) && SlotOf(last, last.clients[i].key) == Done(r)
  }

  /**
   After any run, a client that has not started can be served: a done key gives its result, a
   free key whatever the inner call gives.
   */
  lemma {:induction false} CanBeServed<K(!new), R(!new)>(run: seq<State<K, R>>, i: nat, r: R)
    returns (more: seq<State<K, R>>)
    requires IsRun(run) && i < |run[|run| - 1].clients| && run[|run| - 1].clients[i].stage.Start?
    requires SlotOf(run[|run| - 1], run[|run| - 1].clients[i].key) in {Free, Done(r)}
    ensures CanReturn(run, more, i, r)
  {
    var s := run[|run| - 1];
    var key := s.clients[i].key;
    if SlotOf(s, key) == Done(r) {
      var t := Move(s, i, Returned(r));
      assert FirstGet(s, t, i);
      RunSnoc(run, t, i);
      more := [t];
    } else {
      var t := Move(s, i, Missed);
      assert FirstGet(s, t, i);
      RunSnoc(run, t, i);
      var u := Store(Move(t, i, Executing), key, Claimed);
      assert Claim(t, u, i);
      RunSnoc(run + [t], u, i);
      var rest := HolderReturns(run + [t] + [u], i, r);
      more := [t] + [u] + rest;
      assert run + more == run + [t] + [u] + rest;
    }
  }

  lemma {:induction false} HolderReturns<K(!new), R(!new)>(run: seq<State<K, R>>, i: nat, r: R)
    returns (more: seq<State<K, R>>)
    requires IsRun(run) && i < |run[|run| - 1].clients| && run[|run| - 1].clients[i].stage.Executing?
    ensures CanReturn(run, more, i, r)
  {
    var s := run[|run| - 1];
    var key := s.clients[i].key;
    var t := Move(s, i, Computed(r));
    assert Inner(s, t, i);
    RunSnoc(run, t, i);
    var u := Store(Move(t, i, Returned(r)), key, Done(r)).(completed := t.completed[key := CompletedOf(t, key) + 1]);
    assert Complete(t, u, i);
    RunSnoc(run + [t], u, i);
    more := [t] + [u];
    assert run + more == run + [t] + [u];
  }

  // ---- exactly when a key can be served again ----

  /** Every claimed key has a client that holds the claim. */
  ghost predicate Held<K(!new), R(!new)>(s: State<K, R>) {
    forall key :: SlotOf(s, key).Claimed? ==> exists i :: 0 <= i < |s.clients| && Holds(s.clients[i], key)
  }

  predicate Holds<K(==), R>(c: Client<K, R>, key: K) {
    c.key == key && HoldsClaim(c)
  }

  lemma {:induction false} StepKeepsHeld<K(!new), R(!new)>(s: State<K, R>, t: State<K, R>, i: nat)
    requires Held(s) && Invariant(s) && Next(s, t, i)
    ensures Held(t)
  {
    forall key | SlotOf(t, key).Claimed? ensures exists j :: 0 <= j < |t.clients| && Holds(t.clients[j], key) {
      if SlotOf(s, key).Claimed? {
        var j :| 0 <= j < |s.clients| && Holds(s.clients[j], key);
        assert j != i ==> t.clients[j] == s.clients[j];
        assert Holds(t.clients[j], key);
      } else {
        assert Holds(t.clients[i], key);
      }
    }
  }

  lemma {:induction false} RunKeepsHeld<K(!new), R(!new)>(run: seq<State<K, R>>, k: nat)
    requires IsRun(run) && k < |run|
    ensures Held(run[k])
    decreases k
  {
    if k > 0 {
      RunKeepsHeld(run, k - 1);
      RunKeepsInvariant(run, k - 1);
      assert SomeStep(run[k - 1], run[k - 1 + 1]);
      var i: nat :| Next(run[k - 1], run[k], i);
      StepKeepsHeld(run[k - 1], run[k], i);
    }
  }

  /** The run can go on as `more` and then ends with the key free or done. */
  ghost predicate Settles<K(!new), R(!new)>(run: seq<State<K, R>>, more: seq<State<K, R>>, key: K) {
    IsRun(run + more) && !SlotOf((run + more)[|run + more| - 1], key).Claimed?
  }

  ghost predicate NoneCrashed<K(!new), R(!new)>(s: State<K, R>, key: K) {
    forall i :: 0 <= i < |s.clients| && s.clients[i].key == key ==> !s.clients[i].stage.Crashed?
  }

  lemma {:induction false} RunSnoc<K(!new), R(!new)>(run: seq<State<K, R>>, t: State<K, R>, i: nat)
    requires IsRun(run) && Next(run[|run| - 1], t, i)
    ensures IsRun(run + [t])
  {
    var longer := run + [t];
    forall k | 0 <= k < |longer| - 1 ensures SomeStep(longer[k], longer[k + 1]) {
      if k < |run| - 1 {
        assert SomeStep(run[k], run[k + 1]);
      }
    }
  }

  /** A live holder can always finish: it stores its result, or it fails and releases. */
  lemma {:induction false} HolderSettles<K(!new), R(!new)>(run: seq<State<K, R>>, i: nat)
    returns (more: seq<State<K, R>>)
    requires IsRun(run) && i < |run[|run| - 1].clients|
    requires HoldsClaim(run[|run| - 1].clients[i]) && !run[|run| - 1].clients[i].stage.Crashed?
    ensures Settles(run, more, run[|run| - 1].clients[i].key)
  {
    var s := run[|run| - 1];
    var key := s.clients[i].key;
    if s.clients[i].stage.Computed? {
      var r := s.clients[i].stage.result;
      var t := Store(Move(s, i, Returned(r)), key, Done(r)).(completed := s.completed[key := CompletedOf(s, key) + 1]);
      assert Complete(s, t, i);
      RunSnoc(run, t, i);
      more := [t];
    } else if s.clients[i].stage.Failed? {
      more := FailedSettles(run, i);
    } else {
      var t := Move(s, i, Failed);
      assert Inner(s, t, i);
      RunSnoc(run, t, i);
      var rest := FailedSettles(run + [t], i);
      more := [t] + rest;
      assert run + more == run + [t] + rest;
    }
  }

  lemma {:induction false} FailedSettles<K(!new), R(!new)>(run: seq<State<K, R>>, i: nat)
    returns (more: seq<State<K, R>>)
    requires IsRun(run) && i < |run[|run| - 1].clients| && run[|run| - 1].clients[i].stage.Failed?
    ensures Settles(run, more, run[|run| - 1].clients[i].key)
  {
    var s := run[|run| - 1];
    var t := Store(Move(s, i, Raised), s.clients[i].key, Free);
    assert Release(s, t, i);
    RunSnoc(run, t, i);
    more := [t];
  }

  /**
   After any run, some continuation leaves the key free or done if and only if no client of
   the key was stopped while it held the claim.
   */
  lemma {:induction false} SettlesUnlessCrashed<K(!new), R(!new)>(run: seq<State<K, R>>, key: K)
    requires IsRun(run)
    ensures (exists more :: Settles(run, more, key)) <==> NoneCrashed(run[|run| - 1], key)
  {
    var s := run[|run| - 1];
    if NoneCrashed(s, key) {
      if SlotOf(s, key).Claimed? {
        RunKeepsHeld(run, |run| - 1);
        var i :| 0 <= i < |s.clients| && Holds(s.clients[i], key);
        var more := HolderSettles(run, i);
      } else {
        assert run + [] == run;
        assert Settles(run, [], key);
      }
    } else {
      var i :| 0 <= i < |s.clients| && s.clients[i].key == key && s.clients[i].stage.Crashed?;
      forall more ensures !Settles(run, more, key) {
        if IsRun(run + more) {
          StaysBlocked(run, more, i);
        }
      }
    }
  }

  lemma {:induction false} StaysBlocked<K(!new), R(!new)>(run: seq<State<K, R>>, more: seq<State<K, R>>, i: nat)
    requires IsRun(run) && IsRun(run + more) && i < |run[|run| - 1].clients| && run[|run| - 1].clients[i].stage.Crashed?
    ensures !Settles(run, more, run[|run| - 1].clients[i].key)
  {
    var longer := run + more;
    assert longer[|run| - 1] == run[|run| - 1];
    StaysCrashed(longer, |run| - 1, |longer| - 1, i);
    CrashBlocksKey(longer, |run| - 1, |longer| - 1, i, i);
  }

  /** One client, stopped after its execution and before `complete`: a run that ends with its key blocked. */
  lemma {:induction false} SomeRunBlocks()
    ensures exists run: seq<State<string, int>> :: IsRun(run) && !NoneCrashed(run[|run| - 1], "key")
  {
    var s0: State<string, int> := State(map[], [Client("key", Start)], map[]);
    var s1 := Move(s0, 0, Missed);
    var s2 := Store(Move(s1, 0, Executing), "key", Claimed);
    var s3 := Move(s2, 0, Computed(7));
    var s4 := Move(s3, 0, Crashed);
    assert FirstGet(s0, s1, 0) && Claim(s1, s2, 0) && Inner(s2, s3, 0) && Stop(s3, s4, 0);
    assert IsRun([s0]);
    RunSnoc([s0], s1, 0);
    RunSnoc([s0] + [s1], s2, 0);
    RunSnoc([s0] + [s1] + [s2], s3, 0);
    RunSnoc([s0] + [s1] + [s2] + [s3], s4, 0);
    var run := [s0] + [s1] + [s2] + [s3] + [s4];
    assert run[|run| - 1].clients[0] == Client("key", Crashed);
  }
}
