/** Whole runs: one issuer publishing updates, and holders that consume them in order, each
    at its own pace. */
module Runs {
  import opened Arithmetic
  import opened Modular
  import opened Options
  import opened Rsa
  import opened Roots
  import opened Updates
  import opened CLRSAB

  /** A published update together with the accumulator value published with it. */
  datatype Entry = Entry(update: Update, value: int)

  /** A holder's witness and how many published updates it has applied. */
  datatype Holder = Holder(u: int, seen: nat)

  datatype System = System(initial: int, log: seq<Entry>, elements: seq<nat>, holders: map<nat, Holder>) {
    /** The accumulator value after the first `i` published updates. */
    function Value(i: nat): int
      requires i <= |log|
    {
      if i == 0 then initial else log[i - 1].value
    }

    function Current(): int {
      Value(|log|)
    }
  }

  /** `Remove` stands for `remove` and `update_after_remove`, `RemoveBatch` for their batch
      forms: each pair has one effect on the value, the list and what is published. */
  datatype Event =
    | Insert(x: nat)
    | InsertBatch(xs: seq<nat>)
    | Issue(x: nat)
    | Remove(x: nat)
    | RemoveBatch(xs: seq<nat>)
    | ApplyNext(x: nat, a: int, b: int)

  /** A new accumulator beside a list of elements, which it ignores. */
  function Initial(v: int, items: seq<nat>): System {
    System(v, [], items, map[])
  }

  ghost predicate Element(k: Key, x: nat) {
    IsPrime(x) && Unit(x, k.Phi())
  }

  ghost predicate Elements(k: Key, xs: seq<nat>) {
    forall i | 0 <= i < |xs| :: Element(k, xs[i])
  }

  ghost predicate Enabled(k: Key, s: System, e: Event) {
    match e
    case Insert(x) => Element(k, x)
    case InsertBatch(xs) => Elements(k, xs)
    case Issue(x) => x in s.elements && Element(k, x)
    case Remove(x) => Element(k, x)
    case RemoveBatch(xs) => Elements(k, xs)
    case ApplyNext(x, a, b) =>
      && x in s.holders
      && s.holders[x].seen < |s.log|
      && var update := s.log[s.holders[x].seen].update;
         (update.Removal? ==> IsBezout(a, b, x, update.x))
  }

  /** What a holder computes from the next published entry. */
  function Applied(k: Key, h: Holder, entry: Entry, a: int, b: int): Holder {
    match entry.update
    case Insertion => Holder(h.u, h.seen + 1)
    case Removal(d) => Holder(UpdatedWitness(k.N(), entry.value, h.u, a, b), h.seen + 1)
  }

  function Live(holders: map<nat, Holder>, gone: seq<nat>): map<nat, Holder> {
    map x | x in holders && x !in gone :: holders[x]
  }

  ghost function Step(k: Key, s: System, e: Event): System
    requires Enabled(k, s, e)
  {
    var v := s.Current();
    match e
    case Insert(x) =>
      s.(log := s.log + [Entry(Insertion, v)], elements := s.elements + [x],
         holders := s.holders[x := Holder(Root(k, v, x), |s.log| + 1)])
    case InsertBatch(xs) =>
      s.(log := s.log + [Entry(Insertion, v)], elements := s.elements + xs)
    case Issue(x) =>
      s.(holders := s.holders[x := Holder(Root(k, v, x), |s.log|)])
    case Remove(x) =>
      s.(log := s.log + [Entry(Removal(x), Root(k, v, x))], elements := Without(s.elements, [x]),
         holders := Live(s.holders, [x]))
    case RemoveBatch(xs) =>
      s.(log := s.log + [Entry(Removal(Product(xs)), ValueAfter(k, v, xs))],
         elements := Without(s.elements, xs), holders := Live(s.holders, xs))
    case ApplyNext(x, a, b) =>
      s.(holders := s.holders[x := Applied(k, s.holders[x], s.log[s.holders[x].seen], a, b)])
  }

  ghost predicate Next(k: Key, s: System, e: Event, t: System) {
    Enabled(k, s, e) && t == Step(k, s, e)
  }

  /** A finite run from the accumulator's initial value, with any list of elements: any interleaving of events, each
      enabled where it happens. */
  ghost predicate IsRun(k: Key, v: int, events: seq<Event>, states: seq<System>) {
    && k.Valid() && UnitResidue(v, k.N())
    && |states| == |events| + 1
    && states[0] == Initial(v, states[0].elements)
    && forall i | 0 <= i < |events| :: Next(k, states[i], events[i], states[i + 1])
  }

  // ----- the invariant -----

  /** Every published entry moves the value as its update says. */
  ghost predicate ValidEntry(k: Key, before: int, entry: Entry) {
    && UnitResidue(entry.value, k.N())
    && match entry.update
       case Insertion => entry.value == before
       case Removal(d) => Unit(d, k.Phi()) && entry.value == Root(k, before, d)
  }

  ghost predicate ValidLog(k: Key, s: System) {
    && UnitResidue(s.initial, k.N())
    && forall i | 0 <= i < |s.log| :: ValidEntry(k, s.Value(i), s.log[i])
  }

  ghost predicate CoprimeEntry(x: nat, entry: Entry) {
    entry.update.Removal? ==> Gcd(x, entry.update.x) == 1
  }

  /** A live holder: its witness verifies for the value it has caught up with, and nothing
      still pending removes its element. */
  ghost predicate ValidHolder(k: Key, s: System, x: nat, h: Holder) {
    && Element(k, x) && x in s.elements
    && h.seen <= |s.log|
    && Residue(h.u, k.N())
    && Verifies(k.N(), s.Value(h.seen), x, h.u)
    && forall i | h.seen <= i < |s.log| :: CoprimeEntry(x, s.log[i])
  }

  ghost predicate Inv(k: Key, s: System) {
    && k.Valid()
    && ValidLog(k, s)
    && forall x | x in s.holders :: ValidHolder(k, s, x, s.holders[x])
  }

  lemma ValueIsUnit(k: Key, s: System, i: nat)
    requires ValidLog(k, s) && i <= |s.log|
    ensures UnitResidue(s.Value(i), k.N())
  {}

  /** Publishing one more entry keeps the holders whose elements it does not remove. */
  lemma PublishKeepsInv(k: Key, s: System, entry: Entry, t: System)
    requires Inv(k, s) && ValidEntry(k, s.Current(), entry)
    requires t.initial == s.initial && t.log == s.log + [entry]
    requires forall x | x in t.holders :: x in s.holders && t.holders[x] == s.holders[x]
    requires forall x | x in t.holders :: x in t.elements && CoprimeEntry(x, entry)
    ensures Inv(k, t)
  {
    hide Unit, Root, ModPow, Gcd, IsPrime, UnitResidue, Verifies;
    assert forall i: nat | i <= |s.log| :: t.Value(i) == s.Value(i);
    forall i | 0 <= i < |t.log| ensures ValidEntry(k, t.Value(i), t.log[i]) {
      if i < |s.log| {
        assert ValidEntry(k, s.Value(i), s.log[i]);
      }
    }
    forall x | x in t.holders ensures ValidHolder(k, t, x, t.holders[x]) {
      assert ValidHolder(k, s, x, s.holders[x]);
      forall i | t.holders[x].seen <= i < |t.log| ensures CoprimeEntry(x, t.log[i]) {
        if i < |s.log| {
          assert CoprimeEntry(x, s.log[i]);
        }
      }
    }
  }

  /** A freshly issued witness makes a valid holder. */
  lemma IssueKeepsInv(k: Key, s: System, x: nat, t: System)
    requires Inv(k, s) && Element(k, x) && x in s.elements
    requires t == s.(holders := s.holders[x := Holder(Root(k, s.Current(), x), |s.log|)])
    ensures Inv(k, t)
  {
    hide Unit, ModPow, Gcd, IsPrime;
    ValueIsUnit(k, s, |s.log|);
    RootIsRoot(k, s.Current(), x);
    assert forall i: nat | i <= |s.log| :: t.Value(i) == s.Value(i);
    forall y | y in t.holders ensures ValidHolder(k, t, y, t.holders[y]) {
      if y != x {
        assert ValidHolder(k, s, y, s.holders[y]);
      }
    }
    assert forall i | 0 <= i < |s.log| :: ValidEntry(k, s.Value(i), s.log[i]);
  }

  lemma RemovalKeepsInv(k: Key, s: System, xs: seq<nat>, d: nat, v': int)
    requires Inv(k, s) && Elements(k, xs)
    requires d == Product(xs) && Unit(d, k.Phi()) && v' == Root(k, s.Current(), d)
    ensures Inv(k, s.(log := s.log + [Entry(Removal(d), v')], elements := Without(s.elements, xs),
                      holders := Live(s.holders, xs)))
  {
    hide Unit, ModPow, Gcd, IsPrime, Root;
    ValueIsUnit(k, s, |s.log|);
    RootOfUnit(k, s.Current(), d);
    var entry := Entry(Removal(d), v');
    var t := s.(log := s.log + [entry], elements := Without(s.elements, xs), holders := Live(s.holders, xs));
    forall x | x in t.holders ensures x in t.elements && CoprimeEntry(x, entry) {
      assert ValidHolder(k, s, x, s.holders[x]);
      assert forall y | y in xs :: Element(k, y);
      PrimeAgainstProduct(x, xs);
    }
    PublishKeepsInv(k, s, entry, t);
  }

  lemma ApplyKeepsHolder(k: Key, s: System, x: nat, a: int, b: int)
    requires Inv(k, s) && Enabled(k, s, ApplyNext(x, a, b))
    ensures ValidHolder(k, s, x, Applied(k, s.holders[x], s.log[s.holders[x].seen], a, b))
  {
    hide Unit, ModPow, Gcd, IsPrime, Root, ValidEntry, Verifies, UnitResidue, IsBezout;
    var h := s.holders[x];
    var entry := s.log[h.seen];
    assert ValidHolder(k, s, x, h);
    assert ValidEntry(k, s.Value(h.seen), entry);
    assert CoprimeEntry(x, entry);
    ValueIsUnit(k, s, h.seen);
    AppliedVerifies(k, s.Value(h.seen), h, entry, x, a, b);
  }

  lemma AppliedVerifies(k: Key, v: int, h: Holder, entry: Entry, x: nat, a: int, b: int)
    requires k.Valid() && UnitResidue(v, k.N()) && ValidEntry(k, v, entry) && Unit(x, k.Phi())
    requires Residue(h.u, k.N()) && Verifies(k.N(), v, x, h.u) && CoprimeEntry(x, entry)
    requires entry.update.Removal? ==> IsBezout(a, b, x, entry.update.x)
    ensures var h' := Applied(k, h, entry, a, b);
      Residue(h'.u, k.N()) && Verifies(k.N(), entry.value, x, h'.u)
  {
    hide Unit, ModPow, Gcd, Root, UpdatedWitness;
    if entry.update.Removal? {
      UpdateKeepsWitness(k, v, h.u, x, entry.update.x, a, b);
      RootIsRoot(k, entry.value, x);
    }
  }

  lemma StepKeepsInv(k: Key, s: System, e: Event)
    requires Inv(k, s) && Enabled(k, s, e)
    ensures Inv(k, Step(k, s, e))
  {
    hide Unit, ModPow, Gcd, IsPrime, Root, UpdatedWitness, Verifies;
    var v, t := s.Current(), Step(k, s, e);
    ValueIsUnit(k, s, |s.log|);
    match e
    case Insert(x) =>
      var entry := Entry(Insertion, v);
      var mid := s.(log := s.log + [entry], elements := s.elements + [x]);
      KeepsElements(k, s, mid);
      PublishKeepsInv(k, s, entry, mid);
      IssueKeepsInv(k, mid, x, t);
    case InsertBatch(xs) =>
      KeepsElements(k, s, t);
      PublishKeepsInv(k, s, Entry(Insertion, v), t);
    case Issue(x) =>
      IssueKeepsInv(k, s, x, t);
    case Remove(x) =>
      assert Product([x]) == x * Product([]);
      RemovalKeepsInv(k, s, [x], x, Root(k, v, x));
    case RemoveBatch(xs) =>
      BatchReachesLoopValue(k, v, xs);
      RemovalKeepsInv(k, s, xs, Product(xs), ValueAfter(k, v, xs));
    case ApplyNext(x, a, b) =>
      ApplyKeepsHolder(k, s, x, a, b);
      ReplaceHolder(k, s, x, Applied(k, s.holders[x], s.log[s.holders[x].seen], a, b), t);
  }

  lemma KeepsElements(k: Key, s: System, t: System)
    requires Inv(k, s) && s.elements <= t.elements && t.holders == s.holders
    ensures forall x | x in t.holders :: x in t.elements
  {}

  lemma ReplaceHolder(k: Key, s: System, x: nat, h: Holder, t: System)
    requires Inv(k, s) && ValidHolder(k, s, x, h) && t == s.(holders := s.holders[x := h])
    ensures Inv(k, t)
  {
    hide Unit, ModPow, Gcd, IsPrime, Root, UnitResidue, Verifies;
    assert forall i: nat | i <= |s.log| :: t.Value(i) == s.Value(i);
    forall y | y in t.holders ensures ValidHolder(k, t, y, t.holders[y]) {
      if y != x {
        assert ValidHolder(k, s, y, s.holders[y]);
      }
    }
    forall i | 0 <= i < |t.log| ensures ValidEntry(k, t.Value(i), t.log[i]) {
      assert ValidEntry(k, s.Value(i), s.log[i]);
    }
  }

  lemma {:induction false} RunKeepsInv(k: Key, v: int, events: seq<Event>, states: seq<System>, i: nat)
    requires IsRun(k, v, events, states) && i < |states|
    ensures Inv(k, states[i])
  {
    hide Inv, Enabled, Step, UnitResidue;
    if i == 0 {
      InitialInv(k, v, states[0].elements);
    } else {
      RunKeepsInv(k, v, events, states, i - 1);
      assert Next(k, states[i - 1], events[i - 1], states[i - 1 + 1]);
      StepKeepsInv(k, states[i - 1], events[i - 1]);
    }
  }

  lemma InitialInv(k: Key, v: int, items: seq<nat>)
    requires k.Valid() && UnitResidue(v, k.N())
    ensures Inv(k, Initial(v, items))
  {}

  lemma ReachableHolder(k: Key, v: int, events: seq<Event>, states: seq<System>, i: nat, x: nat)
    requires IsRun(k, v, events, states) && i < |states| && x in states[i].holders
    ensures k.Valid() && ValidLog(k, states[i]) && ValidHolder(k, states[i], x, states[i].holders[x])
  {
    hide Next, ValidLog, ValidHolder;
    RunKeepsInv(k, v, events, states, i);
  }

  // ----- the theorems -----

  // ----- who is live -----

  predicate Issues(e: Event, x: nat) {
    (e.Insert? || e.Issue?) && e.x == x
  }

  predicate Removes(e: Event, x: nat) {
    (e.Remove? && e.x == x) || (e.RemoveBatch? && x in e.xs)
  }

  /** What an event does to the holders: it adds the one it issues for, up to date; it drops
      those it removes; an update is one step of its holder.  All others keep what they have. */
  lemma StepHolders(k: Key, s: System, e: Event, x: nat)
    requires Enabled(k, s, e)
    ensures var t := Step(k, s, e);
      && (x in t.holders <==> Issues(e, x) || (x in s.holders && !Removes(e, x)))
      && (Issues(e, x) ==> t.holders[x].seen == |t.log|)
      && (e.ApplyNext? && e.x == x ==>
            && t.holders[x].seen == s.holders[x].seen + 1
            && t.(holders := s.holders) == s)
      && (x in t.holders && !Issues(e, x) && !(e.ApplyNext? && e.x == x) ==> t.holders[x] == s.holders[x])
  {
    hide Root, UpdatedWitness, ValueAfter, Product, Without, IsPrime, Unit;
  }

  /** Among the first i events there is one that issues for x, and none after it removes x. */
  predicate LiveAfter(events: seq<Event>, i: nat, x: nat)
    requires i <= |events|
  {
    exists m | 0 <= m < i :: Issues(events[m], x) && forall l | m < l < i :: !Removes(events[l], x)
  }

  /** The live holders of a run are those with a witness issued and not removed since. */
  lemma {:induction false} LiveIffIssued(k: Key, v: int, events: seq<Event>, states: seq<System>, i: nat, x: nat)
    requires IsRun(k, v, events, states) && i < |states|
    ensures x in states[i].holders <==> LiveAfter(events, i, x)
  {
    hide Enabled, Step, UnitResidue, Issues, Removes;
    if i == 0 {
    } else {
      LiveIffIssued(k, v, events, states, i - 1, x);
      assert Next(k, states[i - 1], events[i - 1], states[i - 1 + 1]);
      StepHolders(k, states[i - 1], events[i - 1], x);
      LiveAfterStep(events, i - 1, x);
    }
  }

  lemma LiveAfterStep(events: seq<Event>, i: nat, x: nat)
    requires i < |events|
    ensures LiveAfter(events, i + 1, x) <==> Issues(events[i], x) || (LiveAfter(events, i, x) && !Removes(events[i], x))
  {
    hide Issues, Removes;
    if LiveAfter(events, i, x) && !Removes(events[i], x) {
      var m :| 0 <= m < i && Issues(events[m], x) && forall l | m < l < i :: !Removes(events[l], x);
      assert forall l | m < l < i + 1 :: !Removes(events[l], x);
    }
  }

  /** In every state of every run, every holder with a witness issued and not removed since is
      live and still in the list, its witness is the one `witness_mem` would issue for the value
      it has caught up with, and once it has applied everything published its witness verifies
      against the current value. */
  lemma RunSafety(k: Key, v: int, events: seq<Event>, states: seq<System>, i: nat, x: nat)
    requires IsRun(k, v, events, states) && i < |states| && LiveAfter(events, i, x)
    ensures x in states[i].holders
    ensures var s, h := states[i], states[i].holders[x];
      && x in s.elements && Element(k, x) && h.seen <= |s.log|
      && h.u == Root(k, s.Value(h.seen), x)
      && Verifies(k.N(), s.Value(h.seen), x, h.u)
      && (h.seen == |s.log| ==> Verifies(k.N(), s.Current(), x, h.u))
  {
    hide Unit, ModPow, Gcd, IsPrime, Root, IsRun, LiveAfter;
    LiveIffIssued(k, v, events, states, i, x);
    ReachableHolder(k, v, events, states, i, x);
    var s, h := states[i], states[i].holders[x];
    ValueIsUnit(k, s, h.seen);
    RootIsUnique(k, s.Value(h.seen), x, h.u);
  }

  // ----- catching up -----

  /** A lagging holder can always take its next step: a Bezout pair exists. */
  lemma HolderCanApply(k: Key, s: System, x: nat) returns (a: int, b: int)
    requires x in s.holders && s.holders[x].seen < |s.log|
    ensures Enabled(k, s, ApplyNext(x, a, b))
  {
    hide Gcd;
    match s.log[s.holders[x].seen].update
    case Insertion => a, b := 0, 0;
    case Removal(d) => a, b := Bezout(x, d);
  }

  /** From every state of every run a live holder can catch up, by its own steps alone: the run
      goes on with as many updates as the holder lags behind, and then nothing but its own
      witness has changed and that verifies against the current value. */
  lemma {:induction false} CatchesUp(k: Key, v: int, events: seq<Event>, states: seq<System>, x: nat)
    returns (events': seq<Event>, states': seq<System>)
    requires IsRun(k, v, events, states) && x in states[|events|].holders
    requires states[|events|].holders[x].seen <= |states[|events|].log|
    ensures var s := states[|events|];
      && IsRun(k, v, events', states')
      && events <= events' && |events'| == |events| + |s.log| - s.holders[x].seen
      && forall l | |events| <= l < |events'| :: events'[l].ApplyNext? && events'[l].x == x
    ensures var s, t := states[|events|], states'[|events'|];
      && x in t.holders && t.holders[x].seen == |t.log|
      && t == s.(holders := s.holders[x := t.holders[x]])
      && Verifies(k.N(), t.Current(), x, t.holders[x].u)
    decreases |states[|events|].log| - states[|events|].holders[x].seen
  {
    hide Unit, ModPow, Gcd, IsPrime, Root, Enabled, Step, UnitResidue, Inv, Verifies;
    var s := states[|events|];
    if s.holders[x].seen == |s.log| {
      events', states' := events, states;
      ReachableHolder(k, v, events, states, |events|, x);
      CaughtUpVerifies(k, s, x);
    } else {
      var a, b := HolderCanApply(k, s, x);
      var e := ApplyNext(x, a, b);
      StepHolders(k, s, e, x);
      var t := Step(k, s, e);
      ApplyChangesOneHolder(k, s, e);
      ExtendRun(k, v, events, states, e);
      events', states' := CatchesUp(k, v, events + [e], states + [t], x);
    }
  }

  lemma CaughtUpVerifies(k: Key, s: System, x: nat)
    requires x in s.holders && ValidHolder(k, s, x, s.holders[x]) && s.holders[x].seen == |s.log|
    ensures Verifies(k.N(), s.Current(), x, s.holders[x].u)
  {
    hide Verifies;
  }

  lemma ApplyChangesOneHolder(k: Key, s: System, e: Event)
    requires e.ApplyNext? && Enabled(k, s, e)
    ensures var t := Step(k, s, e);
      e.x in t.holders && t == s.(holders := s.holders[e.x := t.holders[e.x]])
  {
    hide Gcd, UpdatedWitness;
  }

  lemma ExtendRun(k: Key, v: int, events: seq<Event>, states: seq<System>, e: Event)
    requires IsRun(k, v, events, states) && Enabled(k, states[|events|], e)
    ensures IsRun(k, v, events + [e], states + [Step(k, states[|events|], e)])
  {
    hide Enabled, Step, UnitResidue;
    var es, ss := events + [e], states + [Step(k, states[|events|], e)];
    forall i | 0 <= i < |es| ensures Next(k, ss[i], es[i], ss[i + 1]) {
      if i < |events| {
        assert Next(k, states[i], events[i], states[i + 1]);
      }
    }
  }

  /** The removals published from position `i` on. */
  function Pending(s: System, i: nat): seq<nat>
    requires i <= |s.log|
    decreases |s.log| - i
  {
    if i == |s.log| then []
    else
      match s.log[i].update
      case Insertion => Pending(s, i + 1)
      case Removal(d) => [d] + Pending(s, i + 1)
  }

  /** The product of the elements removed from position `i` on. */
  function Missed(s: System, i: nat): nat
    requires i <= |s.log|
  {
    Product(Pending(s, i))
  }

  lemma {:induction false} PendingReachesCurrent(k: Key, s: System, i: nat)
    requires k.Valid() && ValidLog(k, s) && i <= |s.log|
    ensures Invertible(Pending(s, i), k.Phi())
    ensures ValueAfter(k, s.Value(i), Pending(s, i)) == s.Current()
    decreases |s.log| - i
  {
    hide Unit, ModPow, Root, UnitResidue;
    if i == |s.log| {
    } else {
      assert ValidEntry(k, s.Value(i), s.log[i]);
      PendingReachesCurrent(k, s, i + 1);
      if s.log[i].update.Removal? {
        assert Pending(s, i)[1..] == Pending(s, i + 1);
      }
    }
  }

  /** What is pending comes from the log. */
  lemma {:induction false} PendingFromLog(s: System, i: nat, m: nat) returns (l: nat)
    requires i <= |s.log| && m < |Pending(s, i)|
    ensures i <= l < |s.log| && s.log[l].update == Removal(Pending(s, i)[m])
    decreases |s.log| - i
  {
    if s.log[i].update.Removal? && m == 0 {
      l := i;
    } else {
      l := PendingFromLog(s, i + 1, if s.log[i].update.Removal? then m - 1 else m);
    }
  }

  /** A live holder that lags behind catches up in one update with the product of everything
      it missed: the result is the witness issued afresh for the current value. */
  lemma CatchUpInOneUpdate(k: Key, v: int, events: seq<Event>, states: seq<System>, i: nat, x: nat, a: int, b: int)
    requires IsRun(k, v, events, states) && i < |states| && x in states[i].holders
    requires states[i].holders[x].seen <= |states[i].log|
    requires IsBezout(a, b, x, Missed(states[i], states[i].holders[x].seen))
    ensures Unit(x, k.Phi())
    ensures var s := states[i];
      var w := UpdatedWitness(k.N(), s.Current(), s.holders[x].u, a, b);
      w == Root(k, s.Current(), x) && Verifies(k.N(), s.Current(), x, w)
  {
    hide IsRun, Inv, Root, ModPow, Unit, IsPrime, Gcd, ValidLog;
    ReachableHolder(k, v, events, states, i, x);
    CatchUp(k, states[i], x, states[i].holders[x], a, b);
  }

  lemma CatchUp(k: Key, s: System, x: nat, h: Holder, a: int, b: int)
    requires k.Valid() && ValidLog(k, s) && ValidHolder(k, s, x, h)
    requires IsBezout(a, b, x, Missed(s, h.seen))
    ensures var w := UpdatedWitness(k.N(), s.Current(), h.u, a, b);
      w == Root(k, s.Current(), x) && Verifies(k.N(), s.Current(), x, w)
  {
    hide Unit, ModPow, Gcd, IsPrime, Root, UpdatedWitness, NatPow, ModMul, Pending, Product, ValueAfter;
    var v, ds := s.Value(h.seen), Pending(s, h.seen);
    ValueIsUnit(k, s, h.seen);
    ValueIsUnit(k, s, |s.log|);
    PendingReachesCurrent(k, s, h.seen);
    forall m | 0 <= m < |ds| ensures Gcd(x, ds[m]) == 1 {
      var l := PendingFromLog(s, h.seen, m);
      assert CoprimeEntry(x, s.log[l]);
    }
    CoprimeToAll(x, ds);
    BatchReachesLoopValue(k, v, ds);
    UpdateKeepsWitness(k, v, h.u, x, Product(ds), a, b);
    RootIsRoot(k, s.Current(), x);
  }

  lemma {:induction false} ValuesStayQuadratic(k: Key, s: System, i: nat)
    requires k.Valid() && ValidLog(k, s) && i <= |s.log|
    requires QuadraticResidue(s.initial, k.N()) && s.initial != 1
    ensures QuadraticResidue(s.Value(i), k.N()) && s.Value(i) != 1
  {
    hide Unit, Root, ModPow, QuadraticResidue, UnitResidue;
    if i == 0 {
    } else {
      ValuesStayQuadratic(k, s, i - 1);
      assert ValidEntry(k, s.Value(i - 1), s.log[i - 1]);
      if s.log[i - 1].update.Removal? {
        RootOfQuadraticResidue(k, s.Value(i - 1), s.log[i - 1].update.x);
      }
    }
  }

  lemma {:induction false} InitialNeverChanges(k: Key, v: int, events: seq<Event>, states: seq<System>, i: nat)
    requires IsRun(k, v, events, states) && i < |states|
    ensures states[i].initial == v
  {
    hide Enabled;
    if i == 0 {
    } else {
      InitialNeverChanges(k, v, events, states, i - 1);
      assert Next(k, states[i - 1], events[i - 1], states[i - 1 + 1]);
    }
  }

  /** A removal other than that of the element alone: the trapdoor inverts it, so it is not 0,
      and it is either coprime to the element or a larger multiple of it. */
  lemma RemovalCases(x: nat, d: nat, phi: Modulus)
    requires IsPrime(x) && Unit(d, phi) && d != x
    ensures LaterRemoval(x, d)
  {
    hide Gcd, Unit;
    PrimeCoprime(x, d);
    if Divides(x, d) {
      ZeroIsNoUnit(phi);
      DivisorAtMost(x, d);
    }
  }

  /** In every state of every run: a holder whose element was in the j-th published removal may
      apply that removal and everything published since, batches with its element included;
      its witness does not verify against the current value. */
  lemma RevocationInRuns(k: Key, v: int, events: seq<Event>, states: seq<System>, i: nat,
                         j: nat, x: nat, u: int, a: int, b: int, pairs: seq<(int, int)>)
    requires IsRun(k, v, events, states) && i < |states|
    requires k.Safe() && QuadraticResidue(v, k.N()) && v != 1
    requires Element(k, x) && x < k.MinHalf() && j < |states[i].log|
    requires Residue(u, k.N()) && Verifies(k.N(), states[i].Value(j), x, u)
    requires states[i].log[j].update.Removal? && Gcd(x, states[i].log[j].update.x) == x
    requires IsBezout(a, b, x, states[i].log[j].update.x)
    requires forall l | j < l < |states[i].log| :: states[i].log[l].update != Removal(x)
    requires |pairs| == |Pending(states[i], j + 1)|
    requires forall l | 0 <= l < |pairs| :: LibraryPair(pairs[l].0, pairs[l].1, x, Pending(states[i], j + 1)[l])
    ensures Invertible(Pending(states[i], j + 1), k.Phi())
    ensures var s := states[i];
      var w := UpdatedWitness(k.N(), s.Value(j + 1), u, a, b);
      !Verifies(k.N(), s.Current(), x, OneByOne(k, s.Value(j + 1), w, Pending(s, j + 1), pairs))
  {
    hide Unit, ModPow, Gcd, Root, UpdatedWitness, OneByOne, ValueAfter, Pending, QuadraticResidue, Verifies, LibraryPair,
         Next, UnitResidue, Divides, LaterRemoval;
    var s := states[i];
    RunKeepsInv(k, v, events, states, i);
    InitialNeverChanges(k, v, events, states, i);
    ValuesStayQuadratic(k, s, j);
    assert ValidEntry(k, s.Value(j), s.log[j]);
    PendingReachesCurrent(k, s, j + 1);
    var ds := Pending(s, j + 1);
    forall m | 0 <= m < |ds| ensures LaterRemoval(x, ds[m]) {
      var l := PendingFromLog(s, j + 1, m);
      RemovalCases(x, ds[m], k.Phi());
    }
    RevokedForever(k, s.Value(j), u, x, s.log[j].update.x, a, b, ds, pairs);
  }

  /** The accumulator's methods carry out the issuer's events: after the call the object and
      the caller's list are what the next state says, and so are the published update and the
      witness handed out.  With `updateOnly` a removal goes through `update_after_remove` or its
      batch form, without it through `remove` or `remove_batch`. */
  method Perform(acc: Accumulator, all: ElementList, aux: Option<Modulus>, e: Event, updateOnly: bool, ghost s: System)
    returns (issued: Option<Witness>, update: Option<Update>)
    requires acc.Valid() && acc.Trapdoor(aux) && Inv(acc.key, s) && Enabled(acc.key, s, e)
    requires !e.ApplyNext?
    requires acc.value == s.Current() && all.items == s.elements
    modifies acc`value, all
    ensures acc.Valid()
    ensures var t := Step(acc.key, s, e);
      && acc.value == t.Current() && all.items == t.elements
      && update == (if |t.log| == |s.log| then None else Some(t.log[|s.log|].update))
      && issued == (if e.Insert? || e.Issue? then Some(Membership(t.holders[e.x].u)) else None)
  {
    hide Unit, ModPow, Gcd, IsPrime, Root, Verifies, ModMul;
    issued, update := None, None;
    match e
    case Insert(x) =>
      issued, update := acc.Insert(x, aux, all);
    case InsertBatch(xs) =>
      update := acc.InsertBatch(xs, aux, all);
    case Issue(x) =>
      var w := acc.WitnessMem(x, aux, all);
      issued := Some(w);
    case Remove(x) =>
      if updateOnly {
        update := acc.UpdateAfterRemove(x, aux, all);
      } else {
        issued, update := acc.Remove(x, aux, all);
      }
    case RemoveBatch(xs) =>
      if updateOnly {
        update := acc.UpdateAfterRemoveBatch(xs, aux, all);
      } else {
        update := acc.RemoveBatch(xs, aux, all);
      }
  }

  /** A holder's copy of the accumulator, at the next published value, carries out its event. */
  method PerformApply(acc: Accumulator, x: nat, ghost s: System, u: int, update: Update) returns (w: Witness)
    requires acc.Valid() && x in s.holders && s.holders[x].seen < |s.log|
    requires s.holders[x].u == u && s.log[s.holders[x].seen] == Entry(update, acc.value)
    ensures exists a, b ::
              && Enabled(acc.key, s, ApplyNext(x, a, b))
              && w.u == Step(acc.key, s, ApplyNext(x, a, b)).holders[x].u
  {
    hide Gcd, ModPow, UpdatedWitness;
    w := acc.Update(Membership(u), Some(x), update);
    if update.Insertion? {
      assert Enabled(acc.key, s, ApplyNext(x, 0, 0));
      assert w.u == Step(acc.key, s, ApplyNext(x, 0, 0)).holders[x].u;
    } else {
      ghost var a, b :| LibraryPair(a, b, x, update.x) && w.u == UpdatedWitness(acc.modulus, acc.value, u, a, b);
      assert Enabled(acc.key, s, ApplyNext(x, a, b));
      assert w.u == Step(acc.key, s, ApplyNext(x, a, b)).holders[x].u;
    }
  }
}
