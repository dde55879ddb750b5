/** Runs over hashed elements: with keys as generated, no operation ever fails to invert. */
module HashedRuns {
  import opened Arithmetic
  import opened Modular
  import opened Rsa
  import opened Updates
  import opened CLRSAB
  import opened HashToPrime
  import opened Runs

  /** What `hash_to_prime` returns. */
  ghost predicate HashedElement(x: nat) {
    IsPrime(x) && InHashRange(x)
  }

  ghost predicate HashedElements(xs: seq<nat>) {
    forall i | 0 <= i < |xs| :: HashedElement(xs[i])
  }

  ghost predicate HashedEvent(e: Event) {
    match e
    case Insert(x) => HashedElement(x)
    case InsertBatch(xs) => HashedElements(xs)
    case Issue(x) => HashedElement(x)
    case Remove(x) => HashedElement(x)
    case RemoveBatch(xs) => HashedElements(xs)
    case ApplyNext(x, a, b) => true
  }

  /** What an event needs of the state alone: the element to issue for is in the list, the
      holder exists, lags behind, and computed a Bezout pair. */
  ghost predicate Applicable(s: System, e: Event) {
    match e
    case Issue(x) => x in s.elements
    case ApplyNext(x, a, b) =>
      && x in s.holders
      && s.holders[x].seen < |s.log|
      && var update := s.log[s.holders[x].seen].update;
         (update.Removal? ==> IsBezout(a, b, x, update.x))
    case _ => true
  }

  /** Every inversion the event performs has a result. */
  ghost predicate InversionsSucceed(k: Key, e: Event) {
    var phi := k.Phi();
    match e
    case Insert(x) => Invert(x, phi).Some?
    case InsertBatch(xs) => Invert(FoldReduced(1, xs, phi), phi).Some?
    case Issue(x) => Invert(x, phi).Some?
    case Remove(x) => Invert(x, phi).Some?
    case RemoveBatch(xs) => Invert(FoldRaw(1, xs), phi).Some?
    case ApplyNext(x, a, b) => true
  }

  /** On hashed elements the trapdoor never stands in the way of an event. */
  lemma HashedEventSucceeds(k: Key, s: System, e: Event)
    requires LargeKey(k) && HashedEvent(e) && Applicable(s, e)
    ensures Enabled(k, s, e) && InversionsSucceed(k, e)
  {
    hide Unit, IsPrime, InHashRange, ModMul, FoldRaw, FoldReduced, LargeKey, IsBezout;
    match e
    case Insert(x) => HashedPrimeInverts(k, x);
    case Issue(x) => HashedPrimeInverts(k, x);
    case Remove(x) => HashedPrimeInverts(k, x);
    case InsertBatch(xs) => HashedBatchSucceeds(k, xs);
    case RemoveBatch(xs) => HashedBatchSucceeds(k, xs);
    case ApplyNext(x, a, b) =>
  }

  lemma HashedBatchSucceeds(k: Key, xs: seq<nat>)
    requires LargeKey(k) && HashedElements(xs)
    ensures Elements(k, xs)
    ensures Invert(FoldRaw(1, xs), k.Phi()).Some? && Invert(FoldReduced(1, xs, k.Phi()), k.Phi()).Some?
  {
    hide Unit, IsPrime, InHashRange, ModMul, FoldRaw, FoldReduced, LargeKey;
    forall i | 0 <= i < |xs| ensures IsPrime(xs[i]) && InHashRange(xs[i]) {
      assert HashedElement(xs[i]);
    }
    InversionsNeverFail(k, xs);
  }

  /** Any run goes on with any applicable event over hashed elements. */
  lemma RunContinues(k: Key, v: int, events: seq<Event>, states: seq<System>, e: Event)
    requires IsRun(k, v, events, states) && LargeKey(k)
    requires HashedEvent(e) && Applicable(states[|events|], e)
    ensures Enabled(k, states[|events|], e) && InversionsSucceed(k, e)
    ensures IsRun(k, v, events + [e], states + [Step(k, states[|events|], e)])
  {
    hide LargeKey, HashedEvent, Applicable, Enabled, Step, InversionsSucceed, UnitResidue;
    HashedEventSucceeds(k, states[|events|], e);
    ExtendRun(k, v, events, states, e);
  }

  /** Every sequence of insertions and removals of hashed elements, beside any list, is a run: none of its
      inversions fails. */
  lemma {:induction false} HashedRun(k: Key, v: int, items: seq<nat>, events: seq<Event>) returns (states: seq<System>)
    requires LargeKey(k) && UnitResidue(v, k.N())
    requires forall i | 0 <= i < |events| ::
               HashedEvent(events[i]) && !events[i].Issue? && !events[i].ApplyNext?
    ensures IsRun(k, v, events, states) && states[0] == Initial(v, items)
    ensures forall i | 0 <= i < |events| :: InversionsSucceed(k, events[i])
    decreases |events|
  {
    hide HashedEvent, InversionsSucceed, UnitResidue, Enabled, Step;
    if events == [] {
      states := [Initial(v, items)];
    } else {
      var m := |events| - 1;
      states := HashedRun(k, v, items, events[..m]);
      RunContinues(k, v, events[..m], states, events[m]);
      states := states + [Step(k, states[m], events[m])];
      assert events == events[..m] + [events[m]];
    }
  }
}
