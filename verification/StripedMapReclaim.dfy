/**
 What reclaiming nodes does over whole runs: when an erasure takes an element with it, when an entry without an
 element stays behind, and that neither happens on a key whose handles do not overlap.
 */
module StripedMapReclaim {

  import opened Collections
  import opened Options
  import opened StripedMap

  // ---- Lost elements ----

  /** Whether a step is an action on the node handle `h` is on. */
  predicate ActsOn<K, V>(s: State<K, V>, step: Step<K, V>, h: nat)
    requires Enabled(s, step)
  {
    step.Act? && h in s.handles && s.handles[step.handle].node == s.handles[h].node
  }

  /** Since the deleter of `h` read under the mutex that the element is gone, the last action on its node kept the element. */
  ghost predicate Revived<K(!new), V>(steps: seq<Step<K, V>>, h: nat, dflt: V)
    requires Runs(Init(), steps, dflt)
    decreases |steps|
  {
    steps != [] &&
    var init, last := steps[..|steps| - 1], steps[|steps| - 1];
    RunInit(Init(), steps, dflt);
    var s := Run(Init(), init, dflt);
    if last.RecheckValid? && last.handle == h then false
    else if ActsOn(s, last, h) then Next(s, last, dflt).nodes[s.handles[h].node].isValid
    else Revived(init, h, dflt)
  }

  predicate Deciding<K, V>(s: State<K, V>, h: nat) {
    h in s.handles && (s.handles[h].phase == Confirmed || s.handles[h].phase == Condemned)
  }

  /** Past the first read under the mutex, a handle's element is there exactly when an action has brought it back. */
  lemma {:induction false} DecidingIsRevived<K(!new), V>(steps: seq<Step<K, V>>, h: nat, dflt: V)
    requires Runs(Init(), steps, dflt) && Deciding(Run(Init(), steps, dflt), h)
    ensures var s := Run(Init(), steps, dflt);
            s.handles[h].node in s.nodes && (s.nodes[s.handles[h].node].isValid <==> Revived(steps, h, dflt))
    decreases |steps|
  {
    var t := Run(Init(), steps, dflt);
    ReachableInv(steps, dflt);
    assert HandleInv(t, h);
    if steps != [] {
      var init, last := steps[..|steps| - 1], steps[|steps| - 1];
      RunInit(Init(), steps, dflt);
      var s := Run(Init(), init, dflt);
      ReachableInv(init, dflt);
      if !(last.RecheckValid? && last.handle == h) {
        StaysDeciding(s, last, h, dflt);
        DecidingIsRevived(init, h, dflt);
      }
    }
  }

  lemma StaysDeciding<K(!new), V>(s: State<K, V>, step: Step<K, V>, h: nat, dflt: V)
    requires Inv(s, dflt) && Enabled(s, step) && Deciding(Next(s, step, dflt), h) && !(step.RecheckValid? && step.handle == h)
    ensures Deciding(s, h) && Next(s, step, dflt).handles[h].node == s.handles[h].node && s.handles[h].node in s.nodes
    ensures !ActsOn(s, step, h) ==> Next(s, step, dflt).nodes[s.handles[h].node] == s.nodes[s.handles[h].node]
  {
    assert HandleInv(s, h);
  }

  /** Once a deleter has read the count under the mutex, nobody else can act on its node. */
  lemma CondemnedIsUntouched<K(!new), V>(s: State<K, V>, step: Step<K, V>, h: nat, dflt: V)
    requires Inv(s, dflt) && Enabled(s, step) && In(s, h, Condemned)
    ensures !ActsOn(s, step, h)
  {
    assert HandleInv(s, h);
    forall g <- s.handles | s.handles[g].node == s.handles[h].node ensures g == h {
      assert g in Holders(s, s.handles[h].node);
    }
  }

  /**
   In every interleaving, an erasure takes a live element with it exactly when, since its deleter read under
   the mutex that the element is gone, the last action on the node has brought it back.
   */
  lemma LosesExactlyWhen<K(!new), V>(steps: seq<Step<K, V>>, h: nat, dflt: V)
    requires Runs(Init(), steps, dflt) && Enabled(Run(Init(), steps, dflt), Erase(h))
    ensures var s := Run(Init(), steps, dflt);
            var k, s' := s.handles[h].key, Next(s, Erase(h), dflt);
            && k in s.entries && k !in s'.entries && Abs(s') == Abs(s) - {k}
            && (k in Abs(s) <==> Revived(steps, h, dflt))
  {
    var s := Run(Init(), steps, dflt);
    ReachableInv(steps, dflt);
    assert HandleInv(s, h);
    EraseRefines(s, Erase(h), dflt);
    DecidingIsRevived(steps, h, dflt);
  }

  // ---- Entries that stay behind ----

  /** A deleter on node `n` finds the element gone, and leaves because of another reference. */
  predicate SeesOther<K, V>(s: State<K, V>, step: Step<K, V>, n: nat)
    requires Enabled(s, step)
  {
    && (step.CheckCount? || step.RecheckCount?)
    && s.handles[step.handle].node == n && UseCount(s, n) > 2 && !s.nodes[n].isValid
  }

  /** Since the last action on node `n`, a deleter on it found the element gone and another reference beside its own. */
  ghost predicate Spared<K(!new), V>(steps: seq<Step<K, V>>, n: nat, dflt: V)
    requires Runs(Init(), steps, dflt)
    decreases |steps|
  {
    steps != [] &&
    var init, last := steps[..|steps| - 1], steps[|steps| - 1];
    RunInit(Init(), steps, dflt);
    var s := Run(Init(), init, dflt);
    if SeesOther(s, last, n) then true
    else if last.Act? && s.handles[last.handle].node == n then false
    else Spared(init, n, dflt)
  }

  /** No handle on `k` has anything left to do but to be released. */
  predicate Quiet<K, V>(s: State<K, V>, k: K) {
    forall h <- s.handles | s.handles[h].key == k :: s.handles[h].phase == Leaving || s.handles[h].phase == Erased
  }

  predicate DeadEntry<K, V>(s: State<K, V>, k: K) {
    k in s.entries && k !in Abs(s)
  }

  lemma {:induction false} SparedIsDead<K(!new), V>(steps: seq<Step<K, V>>, n: nat, dflt: V)
    requires Runs(Init(), steps, dflt) && Spared(steps, n, dflt)
    ensures var s := Run(Init(), steps, dflt); n in s.nodes && !s.nodes[n].isValid
    decreases |steps|
  {
    var init, last := steps[..|steps| - 1], steps[|steps| - 1];
    RunInit(Init(), steps, dflt);
    var s := Run(Init(), init, dflt);
    ReachableInv(init, dflt);
    if !SeesOther(s, last, n) {
      SparedIsDead(init, n, dflt);
    }
  }

  /** The step of a handle on `k` that leaves the entry dead and the handles quiet has seen another reference. */
  lemma QuietOwnStep<K(!new), V>(s: State<K, V>, step: Step<K, V>, k: K, dflt: V)
    requires Inv(s, dflt) && Enabled(s, step) && !step.Acquire? && !step.Release? && s.handles[step.handle].key == k
    requires var s' := Next(s, step, dflt); DeadEntry(s', k) && Quiet(s', k)
    ensures SeesOther(s, step, Next(s, step, dflt).entries[k])
  {
    var s', h := Next(s, step, dflt), step.handle;
    assert HandleInv(s, h);
    assert h in s'.handles && s'.handles[h].key == k;
  }

  /** Any other step that does so found the entry dead and the handles quiet. */
  lemma QuietOtherStep<K(!new), V>(s: State<K, V>, step: Step<K, V>, k: K, dflt: V)
    requires Inv(s, dflt) && Enabled(s, step)
    requires step.Acquire? || step.Release? || s.handles[step.handle].key != k
    requires var s' := Next(s, step, dflt); DeadEntry(s', k) && Quiet(s', k)
    ensures DeadEntry(s, k) && Quiet(s, k) && s.entries[k] == Next(s, step, dflt).entries[k]
    ensures !(step.Act? && s.handles[step.handle].node == s.entries[k])
  {
    var s', h := Next(s, step, dflt), step.handle;
    if step.Acquire? {
      assert s'.handles[h].phase == Held;
    } else {
      assert HandleInv(s, h);
    }
    forall g <- s.handles | s.handles[g].key == k ensures s.handles[g].phase == Leaving || s.handles[g].phase == Erased {
      assert g != h ==> g in s'.handles && s'.handles[g] == s.handles[g];
    }
  }

  lemma {:induction false} DeadIsSpared<K(!new), V>(steps: seq<Step<K, V>>, k: K, dflt: V)
    requires Runs(Init(), steps, dflt)
    requires var s := Run(Init(), steps, dflt); DeadEntry(s, k) && Quiet(s, k)
    ensures Spared(steps, Run(Init(), steps, dflt).entries[k], dflt)
    decreases |steps|
  {
    if steps != [] {
      var init, last := steps[..|steps| - 1], steps[|steps| - 1];
      RunInit(Init(), steps, dflt);
      var s := Run(Init(), init, dflt);
      ReachableInv(init, dflt);
      if last.Acquire? || last.Release? || s.handles[last.handle].key != k {
        QuietOtherStep(s, last, k, dflt);
        DeadIsSpared(init, k, dflt);
      } else {
        QuietOwnStep(s, last, k, dflt);
      }
    }
  }

  /**
   In every interleaving, once the handles on a key are past their deleters, its entry has lost its element
   exactly when a deleter spared it because of another reference, with no action on it since.
   */
  lemma DeadExactlyWhen<K(!new), V>(steps: seq<Step<K, V>>, k: K, dflt: V)
    requires Runs(Init(), steps, dflt)
    requires var s := Run(Init(), steps, dflt); k in s.entries && Quiet(s, k)
    ensures var s := Run(Init(), steps, dflt); k !in Abs(s) <==> Spared(steps, s.entries[k], dflt)
  {
    var s := Run(Init(), steps, dflt);
    if k !in Abs(s) {
      DeadIsSpared(steps, k, dflt);
    }
    if Spared(steps, s.entries[k], dflt) {
      SparedIsDead(steps, s.entries[k], dflt);
    }
  }

  // ---- Handles that do not overlap ----

  /** At most one handle on `k` that has not erased its entry. */
  predicate OneHandle<K, V>(s: State<K, V>, k: K) {
    forall g, h | g in s.handles && h in s.handles && s.handles[g].key == s.handles[h].key == k
                  && s.handles[g].phase != Erased && s.handles[h].phase != Erased :: g == h
  }

  /** No two handles on `k` overlap anywhere in a run; those on other keys may. */
  ghost predicate Exclusive<K(!new), V>(steps: seq<Step<K, V>>, k: K, dflt: V)
    requires Runs(Init(), steps, dflt)
    decreases |steps|
  {
    && OneHandle(Run(Init(), steps, dflt), k)
    && (steps != [] ==> (RunInit(Init(), steps, dflt); Exclusive(steps[..|steps| - 1], k, dflt)))
  }

  /** Two handles on a node are on one key. */
  lemma SameNodeSameKey<K(!new), V>(s: State<K, V>, g: nat, h: nat, dflt: V)
    requires Inv(s, dflt) && g in s.handles && h in s.handles && s.handles[g].node == s.handles[h].node
    ensures g != h ==> s.handles[g].phase != Erased && s.handles[h].phase != Erased && s.handles[g].key == s.handles[h].key
  {
    assert HandleInv(s, g) && HandleInv(s, h);
    assert g in Holders(s, s.handles[g].node) && h in Holders(s, s.handles[g].node);
  }

  lemma OneHandleIsAlone<K(!new), V>(s: State<K, V>, h: nat, dflt: V)
    requires Inv(s, dflt) && h in s.handles && s.handles[h].phase != Erased && OneHandle(s, s.handles[h].key)
    ensures UseCount(s, s.handles[h].node) <= 2
  {
    forall g <- Holders(s, s.handles[h].node) ensures g == h {
      SameNodeSameKey(s, g, h, dflt);
    }
    assert Holders(s, s.handles[h].node) == {h};
  }

  lemma {:induction false} ExclusiveIsNotRevived<K(!new), V>(steps: seq<Step<K, V>>, h: nat, dflt: V)
    requires Runs(Init(), steps, dflt) && Deciding(Run(Init(), steps, dflt), h)
    requires Exclusive(steps, Run(Init(), steps, dflt).handles[h].key, dflt)
    ensures !Revived(steps, h, dflt)
    decreases |steps|
  {
    if steps != [] {
      var init, last := steps[..|steps| - 1], steps[|steps| - 1];
      RunInit(Init(), steps, dflt);
      var s := Run(Init(), init, dflt);
      ReachableInv(init, dflt);
      if !(last.RecheckValid? && last.handle == h) {
        StaysDeciding(s, last, h, dflt);
        assert s.handles[h].key == Next(s, last, dflt).handles[h].key;
        if ActsOn(s, last, h) {
          SameNodeSameKey(s, last.handle, h, dflt);
        }
        ExclusiveIsNotRevived(init, h, dflt);
      }
    }
  }

  lemma {:induction false} ExclusiveIsNotSpared<K(!new), V>(steps: seq<Step<K, V>>, k: K, dflt: V)
    requires Runs(Init(), steps, dflt) && k in Run(Init(), steps, dflt).entries && Exclusive(steps, k, dflt)
    ensures !Spared(steps, Run(Init(), steps, dflt).entries[k], dflt)
    decreases |steps|
  {
    if steps != [] {
      var init, last := steps[..|steps| - 1], steps[|steps| - 1];
      RunInit(Init(), steps, dflt);
      var s := Run(Init(), init, dflt);
      var n := Next(s, last, dflt).entries[k];
      ReachableInv(init, dflt);
      if k in s.entries && s.entries[k] == n {
        if SeesOther(s, last, n) {
          assert HandleInv(s, last.handle);
          OneHandleIsAlone(s, last.handle, dflt);
        }
        ExclusiveIsNotSpared(init, k, dflt);
      } else {
        NewIsNotSpared(init, n, dflt);
      }
    }
  }

  /** A node that does not exist yet was spared by nobody. */
  lemma NewIsNotSpared<K(!new), V>(steps: seq<Step<K, V>>, n: nat, dflt: V)
    requires Runs(Init(), steps, dflt) && n !in Run(Init(), steps, dflt).nodes
    ensures !Spared(steps, n, dflt)
  {
    if Spared(steps, n, dflt) {
      SparedIsDead(steps, n, dflt);
    }
  }

  /** On a key whose handles do not overlap, no entry is without its element once the handles are past their deleters. */
  lemma NoDeadEntryWithoutOverlap<K(!new), V>(steps: seq<Step<K, V>>, k: K, dflt: V)
    requires Runs(Init(), steps, dflt) && Exclusive(steps, k, dflt) && Quiet(Run(Init(), steps, dflt), k)
    ensures var s := Run(Init(), steps, dflt); k in s.entries <==> k in Abs(s)
  {
    var s := Run(Init(), steps, dflt);
    if k in s.entries {
      DeadExactlyWhen(steps, k, dflt);
      ExclusiveIsNotSpared(steps, k, dflt);
    }
  }

  ghost predicate NoLoss<K, V>(ops: seq<Op<K, V>>, k: K) {
    forall i | 0 <= i < |ops| :: !(ops[i].Lose? && ops[i].key == k)
  }

  lemma {:induction false} EffectsAppend<K(!new), V>(s: State<K, V>, a: seq<Step<K, V>>, step: Step<K, V>, dflt: V)
    requires Runs(s, a, dflt) && Enabled(Run(s, a, dflt), step)
    ensures Runs(s, a + [step], dflt)
    ensures Effects(s, a + [step], dflt) == Effects(s, a, dflt) + Effect(Run(s, a, dflt), step)
    decreases |a|
  {
    RunSnoc(s, a, step, dflt);
    if a == [] {
      assert a + [step] == [step];
      OneEffect(s, [step], dflt);
    } else {
      var next := Next(s, a[0], dflt);
      assert (a + [step])[0] == a[0] && (a + [step])[1..] == a[1..] + [step];
      EffectsAppend(next, a[1..], step, dflt);
      Associates(Effect(s, a[0]), Effects(next, a[1..], dflt), Effect(Run(s, a, dflt), step));
    }
  }

  lemma OneEffect<K(!new), V>(s: State<K, V>, steps: seq<Step<K, V>>, dflt: V)
    requires Runs(s, steps, dflt) && |steps| == 1
    ensures Effects(s, steps, dflt) == Effect(s, steps[0])
  {
    assert |steps[1..]| == 0 && Effects(Next(s, steps[0], dflt), steps[1..], dflt) == [];
  }

  /** On a key whose handles do not overlap, no element is lost. */
  lemma {:induction false} NoLossWithoutOverlap<K(!new), V>(steps: seq<Step<K, V>>, k: K, dflt: V)
    requires Runs(Init(), steps, dflt) && Exclusive(steps, k, dflt)
    ensures NoLoss(Effects(Init(), steps, dflt), k)
    decreases |steps|
  {
    if steps != [] {
      var init, last := steps[..|steps| - 1], steps[|steps| - 1];
      RunInit(Init(), steps, dflt);
      EffectsAppend(Init(), init, last, dflt);
      assert init + [last] == steps;
      NoLossWithoutOverlap(init, k, dflt);
      NoLossAtLast(init, last, k, dflt);
    }
  }

  lemma NoLossAtLast<K(!new), V>(init: seq<Step<K, V>>, last: Step<K, V>, k: K, dflt: V)
    requires Runs(Init(), init, dflt) && Enabled(Run(Init(), init, dflt), last) && Exclusive(init, k, dflt)
    ensures NoLoss(Effect(Run(Init(), init, dflt), last), k)
  {
    var s := Run(Init(), init, dflt);
    if last.Erase? && s.handles[last.handle].key == k {
      LosesExactlyWhen(init, last.handle, dflt);
      ReachableInv(init, dflt);
      EraseRefines(s, last, dflt);
      ExclusiveIsNotRevived(init, last.handle, dflt);
    }
  }

  lemma OnlyActions<K(!new), V>(ops: seq<Op<K, V>>)
    requires forall k: K :: NoLoss(ops, k)
    ensures forall i | 0 <= i < |ops| :: ops[i].Do?
  {
    forall i | 0 <= i < |ops| ensures ops[i].Do? {
      assert NoLoss(ops, ops[i].key);
    }
  }

  /** When handles overlap on no key, the elements are those the callers' actions leave one after the other. */
  lemma WithoutOverlapIsAtomic<K(!new), V>(steps: seq<Step<K, V>>, dflt: V)
    requires Runs(Init(), steps, dflt) && forall k :: Exclusive(steps, k, dflt)
    ensures var ops := Effects(Init(), steps, dflt);
            && (forall i | 0 <= i < |ops| :: ops[i].Do?)
            && Abs(Run(Init(), steps, dflt)) == ApplyOps(map[], ops, dflt)
  {
    var ops := Effects(Init(), steps, dflt);
    forall k: K ensures NoLoss(ops, k) {
      NoLossWithoutOverlap(steps, k, dflt);
    }
    OnlyActions(ops);
    RunFromInit(steps, dflt);
  }

  lemma RunFromInit<K(!new), V>(steps: seq<Step<K, V>>, dflt: V)
    requires Runs(Init(), steps, dflt)
    ensures Abs(Run(Init(), steps, dflt)) == ApplyOps(map[], Effects(Init(), steps, dflt), dflt)
  {
    InitInv<K, V>(dflt);
    RunRefines(Init(), steps, dflt);
    assert Abs(Init<K, V>()) == map[];
  }

  // ---- Runs with overlap ----

  /** One entry, for `k`, on node 0, with the given handles. */
  function One<K, V>(k: K, node: Node<V>, handles: map<nat, Handle<K>>, lock: Option<nat>): State<K, V> {
    State(map[k := 0], map[0 := node], handles, 1, lock)
  }

  /** That entry with handle `h` on it. */
  function Single<K, V>(k: K, node: Node<V>, h: nat, phase: Phase, lock: Option<nat>): State<K, V> {
    One(k, node, map[h := Handle(k, 0, phase)], lock)
  }

  /** That entry with handles 0 and 1 on it. */
  function Both<K, V>(k: K, node: Node<V>, first: Phase, second: Phase, lock: Option<nat>): State<K, V> {
    One(k, node, map[0 := Handle(k, 0, first), 1 := Handle(k, 0, second)], lock)
  }

  lemma Count<K(!new), V>(k: K, node: Node<V>, handles: map<nat, Handle<K>>, lock: Option<nat>)
    requires forall h <- handles :: handles[h].node == 0
    ensures UseCount(One(k, node, handles, lock), 0) == |handles.Keys| + 1
  {
    var s := One(k, node, handles, lock);
    assert Holders(s, 0) == handles.Keys;
    assert s.entries[k] == 0;
  }

  lemma SingleCount<K(!new), V>(k: K, node: Node<V>, h: nat, phase: Phase, lock: Option<nat>)
    ensures UseCount(Single(k, node, h, phase, lock), 0) == 2
  {
    Count(k, node, map[h := Handle(k, 0, phase)], lock);
    assert map[h := Handle(k, 0, phase)].Keys == {h};
  }

  lemma BothCount<K(!new), V>(k: K, node: Node<V>, first: Phase, second: Phase, lock: Option<nat>)
    ensures UseCount(Both(k, node, first, second, lock), 0) == 3
  {
    var handles := map[0 := Handle(k, 0, first), 1 := Handle(k, 0, second)];
    Count(k, node, handles, lock);
    assert handles.Keys == {0, 1};
  }

  /** Handle 0 is made for an element that is not there. */
  lemma {:induction false} Begin<K(!new), V>(k: K, dflt: V) returns (steps: seq<Step<K, V>>)
    ensures LeadsTo(Init(), steps, Single(k, Node(dflt, false), 0, Held, None), dflt)
  {
    steps := Extend(Init(), [], Init(), Acquire(0, k, true), Single(k, Node(dflt, false), 0, Held, None), dflt);
  }

  /** Its deleter gets as far as waiting for the mutex. */
  lemma {:induction false} UpToWait<K(!new), V>(k: K, dflt: V) returns (steps: seq<Step<K, V>>)
    ensures LeadsTo(Init(), steps, Single(k, Node(dflt, false), 0, Waiting, None), dflt)
  {
    var gone := Node(dflt, false);
    steps := Begin(k, dflt);
    steps := Extend(Init(), steps, Single(k, gone, 0, Held, None), CheckValid(0), Single(k, gone, 0, Doubted, None), dflt);
    SingleCount(k, gone, 0, Doubted, None);
    steps := Extend(Init(), steps, Single(k, gone, 0, Doubted, None), CheckCount(0), Single(k, gone, 0, Waiting, None), dflt);
  }

  /** It has read under the mutex that the element is gone, while handle 1 came in. */
  lemma {:induction false} UpToRecheck<K(!new), V>(k: K, dflt: V) returns (steps: seq<Step<K, V>>)
    ensures LeadsTo(Init(), steps, Both(k, Node(dflt, false), Confirmed, Held, Some(0)), dflt)
  {
    var gone := Node(dflt, false);
    steps := UpToWait(k, dflt);
    steps := Extend(Init(), steps, Single(k, gone, 0, Waiting, None), Acquire(1, k, true), Both(k, gone, Waiting, Held, None), dflt);
    steps := Extend(Init(), steps, Both(k, gone, Waiting, Held, None), Lock(0), Both(k, gone, Locked, Held, Some(0)), dflt);
    steps := Extend(Init(), steps, Both(k, gone, Locked, Held, Some(0)), RecheckValid(0),
                    Both(k, gone, Confirmed, Held, Some(0)), dflt);
  }

  /** Handle 1 stores `v` and goes away, before the count is read. */
  lemma {:induction false} UpToStored<K(!new), V>(k: K, v: V, dflt: V) returns (steps: seq<Step<K, V>>)
    ensures LeadsTo(Init(), steps, Single(k, Node(v, true), 0, Confirmed, Some(0)), dflt)
  {
    var gone, kept := Node(dflt, false), Node(v, true);
    steps := UpToRecheck(k, dflt);
    steps := Extend(Init(), steps, Both(k, gone, Confirmed, Held, Some(0)), Act(1, Compute, (_, _) => (v, true)),
                    Both(k, kept, Confirmed, Held, Some(0)), dflt);
    steps := Extend(Init(), steps, Both(k, kept, Confirmed, Held, Some(0)), CheckValid(1),
                    Both(k, kept, Confirmed, Leaving, Some(0)), dflt);
    steps := Extend(Init(), steps, Both(k, kept, Confirmed, Leaving, Some(0)), Release(1),
                    Single(k, kept, 0, Confirmed, Some(0)), dflt);
  }

  lemma {:induction false} UpToErased<K(!new), V>(steps: seq<Step<K, V>>, k: K, node: Node<V>, dflt: V)
    returns (after: seq<Step<K, V>>)
    requires LeadsTo(Init(), steps, Single(k, node, 0, Confirmed, Some(0)), dflt)
    ensures steps <= after && LeadsTo(Init(), after, State(map[], map[0 := node], map[], 1, None), dflt)
  {
    var erased := State(map[], map[0 := node], map[0 := Handle(k, 0, Phase.Erased)], 1, None);
    SingleCount(k, node, 0, Confirmed, Some(0));
    after := Extend(Init(), steps, Single(k, node, 0, Confirmed, Some(0)), RecheckCount(0),
                    Single(k, node, 0, Condemned, Some(0)), dflt);
    after := Extend(Init(), after, Single(k, node, 0, Condemned, Some(0)), Erase(0), erased, dflt);
    after := Extend(Init(), after, erased, Release(0), State(map[], map[0 := node], map[], 1, None), dflt);
  }

  /**
   A Compute that stores `v` and ends between the two reads under the mutex is lost: the element is there
   before the erasure, and gone after it, with no handle left.
   */
  lemma {:induction false} UpdateMayBeLost<K(!new), V>(k: K, v: V, dflt: V)
    returns (before: seq<Step<K, V>>, after: seq<Step<K, V>>)
    ensures Runs(Init(), before, dflt) && Abs(Run(Init(), before, dflt)) == map[k := v]
    ensures before <= after && Runs(Init(), after, dflt)
    ensures var s := Run(Init(), after, dflt); s.handles == map[] && s.entries == map[] && Abs(s) == map[]
  {
    before := UpToStored(k, v, dflt);
    assert Abs(Single(k, Node(v, true), 0, Confirmed, Some(0))) == map[k := v];
    after := UpToErased(before, k, Node(v, true), dflt);
  }

  /** Two deleters in turn read that the element is gone and that there is another reference. */
  lemma {:induction false} UpToLeaving<K(!new), V>(k: K, dflt: V) returns (steps: seq<Step<K, V>>)
    ensures LeadsTo(Init(), steps, Both(k, Node(dflt, false), Leaving, Held, None), dflt)
  {
    var gone := Node(dflt, false);
    steps := Begin(k, dflt);
    steps := Extend(Init(), steps, Single(k, gone, 0, Held, None), Acquire(1, k, true), Both(k, gone, Held, Held, None), dflt);
    steps := Extend(Init(), steps, Both(k, gone, Held, Held, None), CheckValid(0), Both(k, gone, Doubted, Held, None), dflt);
    BothCount(k, gone, Doubted, Held, None);
    steps := Extend(Init(), steps, Both(k, gone, Doubted, Held, None), CheckCount(0), Both(k, gone, Leaving, Held, None), dflt);
  }

  lemma {:induction false} UpToBothLeaving<K(!new), V>(k: K, dflt: V) returns (steps: seq<Step<K, V>>)
    ensures LeadsTo(Init(), steps, Both(k, Node(dflt, false), Leaving, Leaving, None), dflt)
  {
    var gone := Node(dflt, false);
    steps := UpToLeaving(k, dflt);
    steps := Extend(Init(), steps, Both(k, gone, Leaving, Held, None), CheckValid(1), Both(k, gone, Leaving, Doubted, None), dflt);
    BothCount(k, gone, Leaving, Doubted, None);
    steps := Extend(Init(), steps, Both(k, gone, Leaving, Doubted, None), CheckCount(1), Both(k, gone, Leaving, Leaving, None), dflt);
  }

  /** Overlapping handles may both see the other's reference: a dead entry can stay behind with no handle left. */
  lemma {:induction false} EntryMayStayBehind<K(!new), V>(k: K, dflt: V) returns (steps: seq<Step<K, V>>)
    ensures Runs(Init(), steps, dflt)
    ensures var s := Run(Init(), steps, dflt); s.handles == map[] && DeadEntry(s, k)
  {
    var gone := Node(dflt, false);
    steps := UpToBothLeaving(k, dflt);
    steps := Extend(Init(), steps, Both(k, gone, Leaving, Leaving, None), Release(0), Single(k, gone, 1, Leaving, None), dflt);
    steps := Extend(Init(), steps, Single(k, gone, 1, Leaving, None), Release(1), One(k, gone, map[], None), dflt);
  }
}
