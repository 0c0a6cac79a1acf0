/**
 Whole calls of the map's methods.  A Compute takes a handle, acts and lets the handle go; EraseIf clones the map,
 visits every clone, and lets the clones go.  Other threads may hold handles, in any phase but inside the map's
 mutex; what they do meanwhile are steps of the runs StripedMap is about.
 */
module StripedMapCalls {

  import opened Collections
  import opened Options
  import opened StripedMap

  // ---- Letting a handle go ----

  /** What a deleter that nobody interferes with decides on. */
  predicate Reclaimable<K, V>(s: State<K, V>, n: nat)
    requires n in s.nodes
  {
    !s.nodes[n].isValid && UseCount(s, n) <= 2
  }

  function Dropped<K, V>(s: State<K, V>, h: nat): State<K, V>
    requires h in s.handles && s.handles[h].node in s.nodes
  {
    var t := s.(handles := s.handles - {h});
    if Reclaimable(s, s.handles[h].node) then t.(entries := s.entries - {s.handles[h].key}) else t
  }

  ghost predicate DropsTo<K, V>(s: State<K, V>, t: State<K, V>, h: nat) {
    In(s, h, Held) && Dropped(s, h) == t
  }

  lemma MoveCount<K(!new), V>(s: State<K, V>, h: nat, phase: Phase, n: nat)
    requires h in s.handles
    ensures UseCount(Move(s, h, phase), n) == UseCount(s, n)
  {
    assert Holders(Move(s, h, phase), n) == Holders(s, n);
  }

  /** The two reads before the lock. */
  lemma {:induction false} CheckRuns<K(!new), V>(s: State<K, V>, h: nat, dflt: V) returns (steps: seq<Step<K, V>>)
    requires In(s, h, Held) && s.lock == None
    ensures LeadsTo(s, steps, Move(s, h, if Reclaimable(s, s.handles[h].node) then Waiting else Leaving), dflt)
  {
    var n := s.handles[h].node;
    var t := Move(s, h, if s.nodes[n].isValid then Leaving else Doubted);
    steps := Extend(s, [], s, CheckValid(h), t, dflt);
    if !s.nodes[n].isValid {
      MoveCount(s, h, Doubted, n);
      steps := Extend(s, steps, t, CheckCount(h), Move(s, h, if UseCount(s, n) > 2 then Leaving else Waiting), dflt);
    }
  }

  lemma {:induction false} LockRuns<K(!new), V>(s: State<K, V>, h: nat, dflt: V) returns (steps: seq<Step<K, V>>)
    requires In(s, h, Waiting) && s.lock == None && !s.nodes[s.handles[h].node].isValid
    ensures LeadsTo(s, steps, Move(s, h, Confirmed), dflt)
  {
    steps := Extend(s, [], s, Lock(h), Move(s, h, Locked), dflt);
    steps := Extend(s, steps, Move(s, h, Locked), RecheckValid(h), Move(s, h, Confirmed), dflt);
  }

  function WithoutEntry<K, V>(s: State<K, V>, h: nat): State<K, V>
    requires h in s.handles
  {
    Move(s, h, Erased).(entries := s.entries - {s.handles[h].key})
  }

  lemma {:induction false} EraseRuns<K(!new), V>(s: State<K, V>, h: nat, dflt: V) returns (steps: seq<Step<K, V>>)
    requires In(s, h, Confirmed) && s.lock == Some(h) && UseCount(s, s.handles[h].node) <= 2
    ensures LeadsTo(s, steps, WithoutEntry(s, h), dflt)
  {
    steps := Extend(s, [], s, RecheckCount(h), Move(s, h, Condemned), dflt);
    steps := Extend(s, steps, Move(s, h, Condemned), Erase(h), WithoutEntry(s, h), dflt);
  }

  /** The reads under the lock, and the erasure. */
  lemma {:induction false} ReclaimRuns<K(!new), V>(s: State<K, V>, h: nat, dflt: V) returns (steps: seq<Step<K, V>>)
    requires In(s, h, Waiting) && s.lock == None && Reclaimable(s, s.handles[h].node)
    ensures LeadsTo(s, steps, WithoutEntry(s, h), dflt)
  {
    var t := Move(s, h, Confirmed);
    steps := LockRuns(s, h, dflt);
    MoveCount(s, h, Confirmed, s.handles[h].node);
    var more := EraseRuns(t, h, dflt);
    assert WithoutEntry(t, h) == WithoutEntry(s, h);
    steps := Chain(s, steps, t, more, WithoutEntry(s, h), dflt);
  }

  lemma {:induction false} DeleterRuns<K(!new), V>(s: State<K, V>, h: nat, dflt: V)
    returns (steps: seq<Step<K, V>>, t: State<K, V>)
    requires In(s, h, Held) && s.lock == None
    ensures t == if Reclaimable(s, s.handles[h].node) then WithoutEntry(s, h) else Move(s, h, Leaving)
    ensures LeadsTo(s, steps, t, dflt)
  {
    steps := CheckRuns(s, h, dflt);
    t := Move(s, h, Leaving);
    if Reclaimable(s, s.handles[h].node) {
      MoveCount(s, h, Waiting, s.handles[h].node);
      var more := ReclaimRuns(Move(s, h, Waiting), h, dflt);
      t := WithoutEntry(s, h);
      assert WithoutEntry(Move(s, h, Waiting), h) == t;
      steps := Chain(s, steps, Move(s, h, Waiting), more, t, dflt);
    }
  }

  /** A handle goes away: its deleter runs, and its reference is dropped. */
  lemma {:induction false} DropRuns<K(!new), V>(s: State<K, V>, h: nat, dflt: V) returns (steps: seq<Step<K, V>>)
    requires In(s, h, Held) && s.lock == None
    ensures LeadsTo(s, steps, Dropped(s, h), dflt)
  {
    var t;
    steps, t := DeleterRuns(s, h, dflt);
    assert t.handles - {h} == s.handles - {h};
    steps := Extend(s, steps, t, Release(h), Dropped(s, h), dflt);
  }

  // ---- Compute ----

  /** Letting a handle go takes no element with it. */
  lemma DropKeepsElements<K(!new), V>(s: State<K, V>, h: nat, dflt: V)
    requires Inv(s, dflt) && In(s, h, Held)
    ensures Abs(Dropped(s, h)) == Abs(s)
  {
    assert HandleInv(s, h);
    if Reclaimable(s, s.handles[h].node) {
      assert s.handles[h].key !in Abs(s);
    }
  }

  /** The only handle on a key leaves no dead entry. */
  lemma DropLeavesNoDeadEntry<K(!new), V>(s: State<K, V>, h: nat, dflt: V)
    requires Inv(s, dflt) && In(s, h, Held) && forall g <- s.handles :: s.handles[g].key == s.handles[h].key ==> g == h
    ensures s.handles[h].key in Dropped(s, h).entries <==> s.handles[h].key in Abs(s)
  {
    var Handle(k, n, _) := s.handles[h];
    assert HandleInv(s, h);
    forall g <- s.handles | s.handles[g].node == n ensures g == h {
      assert HandleInv(s, g);
    }
    assert Holders(s, n) == {h};
    FewIsAlone(s, dflt, h);
  }

  lemma AcquireShape<K(!new), V>(s: State<K, V>, h: nat, k: K, dflt: V)
    requires h !in s.handles && s.lock == None && (k in s.entries ==> s.entries[k] in s.nodes)
    ensures var c := Next(s, Acquire(h, k, true), dflt);
            && c.lock == None && In(c, h, Held) && c.handles[h].key == k && c.handles - {h} == s.handles
  {
  }

  lemma AcquireFacts<K(!new), V>(s: State<K, V>, h: nat, k: K, dflt: V)
    requires Inv(s, dflt) && h !in s.handles && s.lock == None
    ensures var c := Next(s, Acquire(h, k, true), dflt); Inv(c, dflt) && Abs(c) == Abs(s)
  {
    var acquire := Acquire(h, k, true);
    NextKeeps(s, acquire, dflt);
    if k in s.entries {
      OtherRefines(s, acquire, dflt);
    } else {
      CreateRefines(s, acquire, dflt);
    }
  }

  lemma ActFacts<K(!new), V>(s: State<K, V>, h: nat, kind: Kind, action: Action<K, V>, dflt: V)
    requires Inv(s, dflt) && In(s, h, Held)
    ensures var t := Next(s, Act(h, kind, action), dflt);
            && Inv(t, dflt) && t.lock == s.lock && In(t, h, Held) && t.handles == s.handles
            && Abs(t) == ApplyOp(Abs(s), Do(s.handles[h].key, kind, action), dflt)
  {
    NextKeeps(s, Act(h, kind, action), dflt);
    ActRefines(s, Act(h, kind, action), dflt);
  }

  lemma CallRuns<K(!new), V>(s: State<K, V>, acquire: Step<K, V>, c: State<K, V>, act: Step<K, V>, a: State<K, V>, h: nat, dflt: V)
    returns (steps: seq<Step<K, V>>)
    requires Enabled(s, acquire) && Next(s, acquire, dflt) == c && Enabled(c, act) && Next(c, act, dflt) == a
    requires In(a, h, Held) && a.lock == None
    ensures LeadsTo(s, steps, Dropped(a, h), dflt)
  {
    steps := Extend(s, [], s, acquire, c, dflt);
    steps := Extend(s, steps, c, act, a, dflt);
    var more := DropRuns(a, h, dflt);
    steps := Chain(s, steps, a, more, Dropped(a, h), dflt);
  }

  lemma DropFacts<K(!new), V>(s: State<K, V>, a: State<K, V>, h: nat, dflt: V)
    requires Inv(a, dflt) && In(a, h, Held) && a.handles - {h} == s.handles
    ensures Dropped(a, h).handles == s.handles && Abs(Dropped(a, h)) == Abs(a)
    ensures var k := a.handles[h].key;
            (forall g <- s.handles :: s.handles[g].key != k) ==> (k in Dropped(a, h).entries <==> k in Abs(a))
  {
    DropKeepsElements(a, h, dflt);
    if forall g <- s.handles :: s.handles[g].key != a.handles[h].key {
      forall g <- a.handles | g != h ensures a.handles[g].key != a.handles[h].key {
        assert g in s.handles && s.handles[g] == a.handles[g];
      }
      DropLeavesNoDeadEntry(a, h, dflt);
    }
  }

  lemma PresentRuns<K(!new), V>(s: State<K, V>, h: nat, k: K, kind: Kind, action: Action<K, V>, dflt: V)
    returns (steps: seq<Step<K, V>>, t: State<K, V>)
    requires Inv(s, dflt) && h !in s.handles && s.lock == None
    ensures LeadsTo(s, steps, t, dflt) && t.handles == s.handles
    ensures Abs(t) == ApplyOp(Abs(s), Do(k, kind, action), dflt)
    ensures (forall g <- s.handles :: s.handles[g].key != k) ==> (k in t.entries <==> k in Abs(t))
  {
    var acquire, act := Acquire(h, k, true), Act(h, kind, action);
    var c := Next(s, acquire, dflt);
    AcquireShape(s, h, k, dflt);
    AcquireFacts(s, h, k, dflt);
    ActFacts(c, h, kind, action, dflt);
    var a := Next(c, act, dflt);
    t := Dropped(a, h);
    DropFacts(s, a, h, dflt);
    steps := CallRuns(s, acquire, c, act, a, h, dflt);
  }

  /** ComputeIfPresent of a key without an entry does nothing, which is what its action does to a missing element. */
  lemma AbsentIsNothing<K(!new), V>(s: State<K, V>, k: K, action: Action<K, V>, dflt: V)
    requires k !in s.entries
    ensures Abs(s) == ApplyOp(Abs(s), Do(k, ComputeIfPresent, action), dflt)
  {
    DoActionIsOp(Abs(s), k, Node(dflt, false), ComputeIfPresent, action, dflt);
  }

  /**
   A Compute or a ComputeIfPresent that no other thread interrupts: its action, if there is one, is applied to the
   element, and unless another handle is on the key there is an entry exactly when there is an element, if the key
   was looked up at all.  Compute says whether it had an action, ComputeIfPresent whether the element is there.
   */
  lemma ComputeRuns<K(!new), V>(s: State<K, V>, h: nat, k: K, kind: Kind, action: Option<Action<K, V>>, dflt: V)
    returns (steps: seq<Step<K, V>>, t: State<K, V>, ok: bool)
    requires Inv(s, dflt) && h !in s.handles && s.lock == None && kind != EraseVisit
    ensures LeadsTo(s, steps, t, dflt) && t.handles == s.handles
    ensures Abs(t) == if action.None? then Abs(s) else ApplyOp(Abs(s), Do(k, kind, action.value), dflt)
    ensures ok <==> action.Some? && (kind == ComputeIfPresent ==> k in Abs(t))
    ensures action.Some? && (forall g <- s.handles :: s.handles[g].key != k) ==> (k in t.entries <==> k in Abs(t))
  {
    if action.None? {
      steps, t, ok := [], s, false;
    } else if kind == ComputeIfPresent && k !in s.entries {
      AbsentIsNothing(s, k, action.value, dflt);
      steps, t, ok := [], s, false;
    } else {
      steps, t := PresentRuns(s, h, k, kind, action.value, dflt);
      ok := kind == Compute || k in Abs(t);
    }
  }

  // ---- Clones ----

  function CloneOf<K, V>(s: State<K, V>, cloned: seq<K>, base: nat, h: nat): Handle<K>
    requires base <= h < base + |cloned| && cloned[h - base] in s.entries
  {
    Handle(cloned[h - base], s.entries[cloned[h - base]], Held)
  }

  /** The handles on the keys of `cloned` from number `from` on; their ids begin at `base`. */
  function Clones<K, V>(s: State<K, V>, cloned: seq<K>, base: nat, from: nat): map<nat, Handle<K>>
    requires forall k <- cloned :: k in s.entries
  {
    map h: nat | base + from <= h < base + |cloned| :: CloneOf(s, cloned, base, h)
  }

  /** The state with those handles beside the ones of `others`. */
  function WithClones<K, V>(s: State<K, V>, others: map<nat, Handle<K>>, cloned: seq<K>, base: nat, from: nat): State<K, V>
    requires forall k <- cloned :: k in s.entries
  {
    s.(handles := others + Clones(s, cloned, base, from))
  }

  predicate Below<K>(handles: map<nat, Handle<K>>, base: nat) {
    forall h <- handles :: h < base
  }

  lemma CloneStep<K(!new), V>(s: State<K, V>, cloned: seq<K>, base: nat, k: K, dflt: V)
    requires (forall j <- cloned :: j in s.entries) && k in s.entries && s.lock == None && Below(s.handles, base)
    ensures var t, step := WithClones(s, s.handles, cloned, base, 0), Acquire(base + |cloned|, k, false);
            Enabled(t, step) && Next(t, step, dflt) == WithClones(s, s.handles, cloned + [k], base, 0)
  {
    var t := WithClones(s, s.handles, cloned, base, 0);
    assert t.handles[base + |cloned| := Handle(k, s.entries[k], Held)] == s.handles + Clones(s, cloned + [k], base, 0);
  }

  lemma {:induction false} CloneRuns<K(!new), V>(s: State<K, V>, cloned: seq<K>, base: nat, dflt: V)
    returns (steps: seq<Step<K, V>>)
    requires (forall k <- cloned :: k in s.entries) && s.lock == None && Below(s.handles, base)
    ensures LeadsTo(s, steps, WithClones(s, s.handles, cloned, base, 0), dflt)
    decreases |cloned|
  {
    if cloned == [] {
      steps := [];
      assert s.handles + Clones(s, cloned, base, 0) == s.handles;
    } else {
      var init, k := cloned[..|cloned| - 1], cloned[|cloned| - 1];
      assert cloned == init + [k];
      steps := CloneRuns(s, init, base, dflt);
      CloneStep(s, init, base, k, dflt);
      steps := Extend(s, steps, WithClones(s, s.handles, init, base, 0), Acquire(base + |init|, k, false),
                      WithClones(s, s.handles, cloned, base, 0), dflt);
    }
  }

  lemma AppendKey<K>(cloned: seq<K>, k: K)
    requires Distinct(cloned) && k !in cloned
    ensures Distinct(cloned + [k]) && (set j <- cloned + [k]) == (set j <- cloned) + {k}
  {
  }

  /** Takes a handle on every entry, beside the handles that are out. */
  method Clone<K(==, !new), V>(s: State<K, V>, base: nat, dflt: V) returns (t: State<K, V>, cloned: seq<K>)
    requires s.lock == None && Below(s.handles, base)
    ensures Distinct(cloned) && (set k <- cloned) == s.entries.Keys
    ensures t == WithClones(s, s.handles, cloned, base, 0)
  {
    t, cloned := s, [];
    var todo := s.entries.Keys;
    assert s.handles + Clones(s, cloned, base, 0) == s.handles;
    while todo != {}
      invariant todo !! (set k <- cloned) && todo + (set k <- cloned) == s.entries.Keys && Distinct(cloned)
      invariant t == WithClones(s, s.handles, cloned, base, 0)
      decreases todo
    {
      var k :| k in todo;
      CloneStep(s, cloned, base, k, dflt);
      AppendKey(cloned, k);
      t := Next(t, Acquire(base + |cloned|, k, false), dflt);
      cloned := cloned + [k];
      todo := todo - {k};
    }
  }

  // ---- Visits ----

  /** Every key of `keys` has an entry, and a node of its own. */
  predicate OwnNodes<K, V>(s: State<K, V>, keys: seq<K>) {
    && (forall k <- keys :: k in s.entries && s.entries[k] in s.nodes)
    && (forall i, j | 0 <= i < j < |keys| :: s.entries[keys[i]] != s.entries[keys[j]])
  }

  lemma EntriesOwnNodes<K(!new), V>(s: State<K, V>, keys: seq<K>, dflt: V)
    requires Inv(s, dflt) && Distinct(keys) && forall k <- keys :: k in s.entries
    ensures OwnNodes(s, keys)
  {
  }

  function Visited<K, V>(s: State<K, V>, k: K, action: Action<K, V>, dflt: V): Node<V>
    requires k in s.entries && s.entries[k] in s.nodes
  {
    DoAction(k, s.nodes[s.entries[k]], EraseVisit, action, dflt)
  }

  /** The elements the action does not ask to erase, as the action left them. */
  function EraseAll<K, V>(m: map<K, V>, action: Action<K, V>): map<K, V> {
    map k <- m | !action(k, m[k]).1 :: action(k, m[k]).0
  }

  /** The state once the first `i` handles from `base` on have visited their nodes. */
  function VisitEach<K, V>(s: State<K, V>, base: nat, action: Action<K, V>, dflt: V, i: nat): (t: State<K, V>)
    ensures t.entries == s.entries && t.handles == s.handles && t.lock == s.lock
    decreases i
  {
    if i == 0 then s
    else
      var t := VisitEach(s, base, action, dflt, i - 1);
      if In(t, base + (i - 1), Held) then Next(t, Act(base + (i - 1), EraseVisit, action), dflt) else t
  }

  lemma {:induction false} VisitEachRuns<K(!new), V>(s: State<K, V>, base: nat, action: Action<K, V>, dflt: V, i: nat)
    returns (steps: seq<Step<K, V>>)
    ensures LeadsTo(s, steps, VisitEach(s, base, action, dflt, i), dflt)
    decreases i
  {
    if i == 0 {
      steps := [];
    } else {
      steps := VisitEachRuns(s, base, action, dflt, i - 1);
      var t := VisitEach(s, base, action, dflt, i - 1);
      if In(t, base + (i - 1), Held) {
        var act := Act(base + (i - 1), EraseVisit, action);
        steps := Extend(s, steps, t, act, Next(t, act, dflt), dflt);
      }
    }
  }

  /** The clones are among the handles of the state. */
  predicate HasClones<K, V>(s: State<K, V>, cloned: seq<K>, base: nat)
    requires forall k <- cloned :: k in s.entries
  {
    forall i | 0 <= i < |cloned| :: HasClone(s, cloned, base, i)
  }

  predicate HasClone<K, V>(s: State<K, V>, cloned: seq<K>, base: nat, i: nat)
    requires i < |cloned| && cloned[i] in s.entries
  {
    base + i in s.handles && s.handles[base + i] == Handle(cloned[i], s.entries[cloned[i]], Held)
  }

  /** The nodes of the first `i` keys have been visited once, and those of the others not. */
  ghost predicate VisitedUpTo<K, V>(s: State<K, V>, nodes: map<nat, Node<V>>, cloned: seq<K>, action: Action<K, V>, dflt: V, i: nat)
    requires OwnNodes(s, cloned)
  {
    && nodes.Keys == s.nodes.Keys
    && forall j | 0 <= j < |cloned| :: VisitedAt(s, nodes, cloned[j], action, dflt, j < i)
  }

  ghost predicate VisitedAt<K, V>(s: State<K, V>, nodes: map<nat, Node<V>>, k: K, action: Action<K, V>, dflt: V, visited: bool)
    requires k in s.entries && s.entries[k] in s.nodes && s.entries[k] in nodes
  {
    nodes[s.entries[k]] == if visited then Visited(s, k, action, dflt) else s.nodes[s.entries[k]]
  }

  lemma VisitStep<K(!new), V>(
      s: State<K, V>, nodes: map<nat, Node<V>>, cloned: seq<K>, action: Action<K, V>, dflt: V, i: nat)
    requires OwnNodes(s, cloned) && i < |cloned| && VisitedUpTo(s, nodes, cloned, action, dflt, i)
    ensures VisitedUpTo(s, nodes[s.entries[cloned[i]] := Visited(s, cloned[i], action, dflt)], cloned, action, dflt, i + 1)
  {
    var nodes' := nodes[s.entries[cloned[i]] := Visited(s, cloned[i], action, dflt)];
    forall j | 0 <= j < |cloned| ensures VisitedAt(s, nodes', cloned[j], action, dflt, j < i + 1) {
      assert VisitedAt(s, nodes, cloned[j], action, dflt, j < i);
    }
  }

  lemma {:induction false} VisitEachVisits<K(!new), V>(
      s: State<K, V>, cloned: seq<K>, base: nat, action: Action<K, V>, dflt: V, i: nat)
    requires OwnNodes(s, cloned) && HasClones(s, cloned, base) && i <= |cloned|
    ensures VisitedUpTo(s, VisitEach(s, base, action, dflt, i).nodes, cloned, action, dflt, i)
    decreases i
  {
    if i > 0 {
      VisitEachVisits(s, cloned, base, action, dflt, i - 1);
      var t, k := VisitEach(s, base, action, dflt, i - 1), cloned[i - 1];
      assert HasClone(s, cloned, base, i - 1);
      assert VisitedAt(s, t.nodes, k, action, dflt, false);
      VisitStep(s, t.nodes, cloned, action, dflt, i - 1);
    }
  }

  /** What the visit of clone `i` does. */
  lemma VisitOne<K(!new), V>(s: State<K, V>, cloned: seq<K>, base: nat, action: Action<K, V>, dflt: V, i: nat)
    requires OwnNodes(s, cloned) && HasClones(s, cloned, base) && i < |cloned|
    ensures var t, t' := VisitEach(s, base, action, dflt, i), VisitEach(s, base, action, dflt, i + 1);
            && In(t, base + i, Held) && t' == Next(t, Act(base + i, EraseVisit, action), dflt)
            && s.entries[cloned[i]] in t'.nodes && t'.nodes[s.entries[cloned[i]]] == Visited(s, cloned[i], action, dflt)
  {
    VisitEachVisits(s, cloned, base, action, dflt, i);
    VisitEachVisits(s, cloned, base, action, dflt, i + 1);
    assert HasClone(s, cloned, base, i);
    assert VisitedAt(s, VisitEach(s, base, action, dflt, i + 1).nodes, cloned[i], action, dflt, true);
  }

  /** The keys whose element is gone after the visits. */
  function Dead<K, V>(s: State<K, V>, keys: seq<K>, action: Action<K, V>, dflt: V): set<K>
    requires forall k <- keys :: k in s.entries && s.entries[k] in s.nodes
  {
    set k <- keys | !Visited(s, k, action, dflt).isValid
  }

  /** Visits every clone, and counts those whose element is not there afterwards. */
  method VisitAll<K(==, !new), V>(s: State<K, V>, cloned: seq<K>, base: nat, action: Action<K, V>, dflt: V)
    returns (t: State<K, V>, count: nat)
    requires OwnNodes(s, cloned) && Distinct(cloned) && HasClones(s, cloned, base)
    ensures t == VisitEach(s, base, action, dflt, |cloned|)
    ensures count == |Dead(s, cloned, action, dflt)|
  {
    t, count := s, 0;
    for i := 0 to |cloned|
      invariant t == VisitEach(s, base, action, dflt, i)
      invariant count == |Dead(s, cloned[..i], action, dflt)|
    {
      VisitOne(s, cloned, base, action, dflt, i);
      t := Next(t, Act(base + i, EraseVisit, action), dflt);
      DeadGrows(s, cloned, action, i, dflt);
      if !t.nodes[t.entries[cloned[i]]].isValid {
        count := count + 1;
      }
    }
    assert cloned[..|cloned|] == cloned;
  }

  lemma PrefixMembers<T>(q: seq<T>, i: nat)
    requires Distinct(q) && i < |q|
    ensures q[i] !in q[..i] && forall x :: x in q[..i + 1] <==> x in q[..i] || x == q[i]
  {
    assert q[..i + 1] == q[..i] + [q[i]];
  }

  lemma DeadGrows<K(!new), V>(s: State<K, V>, keys: seq<K>, action: Action<K, V>, i: nat, dflt: V)
    requires (forall k <- keys :: k in s.entries && s.entries[k] in s.nodes) && Distinct(keys) && i < |keys|
    ensures |Dead(s, keys[..i + 1], action, dflt)| ==
            |Dead(s, keys[..i], action, dflt)| + if Visited(s, keys[i], action, dflt).isValid then 0 else 1
  {
    var a, b := Dead(s, keys[..i], action, dflt), Dead(s, keys[..i + 1], action, dflt);
    PrefixMembers(keys, i);
    assert b == if Visited(s, keys[i], action, dflt).isValid then a else a + {keys[i]};
  }

  // ---- Letting the clones go ----

  predicate OnNode<K>(handles: map<nat, Handle<K>>, n: nat) {
    exists h <- handles :: handles[h].node == n
  }

  /** The keys whose element is gone and whose node none of `others` is on. */
  function Reclaimed<K, V>(s: State<K, V>, others: map<nat, Handle<K>>, keys: seq<K>): set<K>
    requires OwnNodes(s, keys)
  {
    set k <- keys | !s.nodes[s.entries[k]].isValid && !OnNode(others, s.entries[k])
  }

  /** The state once the first `i` clones have gone away. */
  function AfterDrops<K, V>(s: State<K, V>, others: map<nat, Handle<K>>, cloned: seq<K>, base: nat, i: nat): State<K, V>
    requires OwnNodes(s, cloned) && i <= |cloned|
  {
    WithClones(s, others, cloned, base, i).(entries := s.entries - Reclaimed(s, others, cloned[..i]))
  }

  lemma NoDrops<K(!new), V>(s: State<K, V>, others: map<nat, Handle<K>>, cloned: seq<K>, base: nat)
    requires OwnNodes(s, cloned)
    ensures AfterDrops(s, others, cloned, base, 0) == WithClones(s, others, cloned, base, 0)
  {
    assert Reclaimed(s, others, cloned[..0]) == {};
    assert s.entries - {} == s.entries;
  }

  lemma ReclaimedGrows<K(!new), V>(s: State<K, V>, others: map<nat, Handle<K>>, cloned: seq<K>, i: nat)
    requires OwnNodes(s, cloned) && Distinct(cloned) && i < |cloned|
    ensures var n := s.entries[cloned[i]];
            && cloned[i] !in Reclaimed(s, others, cloned[..i])
            && Reclaimed(s, others, cloned[..i + 1]) ==
               Reclaimed(s, others, cloned[..i]) + if s.nodes[n].isValid || OnNode(others, n) then {} else {cloned[i]}
  {
    PrefixMembers(cloned, i);
  }

  lemma FewHolders(holders: set<nat>, h: nat)
    requires h in holders
    ensures |holders| <= 1 <==> holders == {h}
  {
    if g :| g in holders && g != h {
      SubsetSize({g, h}, holders);
    }
  }

  lemma CloneThere<K(!new), V>(s: State<K, V>, others: map<nat, Handle<K>>, cloned: seq<K>, base: nat, i: nat)
    requires OwnNodes(s, cloned) && Distinct(cloned) && Below(others, base) && i < |cloned|
    ensures var t := AfterDrops(s, others, cloned, base, i);
            && base + i in t.handles && t.handles[base + i] == Handle(cloned[i], s.entries[cloned[i]], Held)
            && cloned[i] in t.entries && t.entries[cloned[i]] == s.entries[cloned[i]]
  {
    ReclaimedGrows(s, others, cloned, i);
  }

  lemma CloneHolders<K(!new), V>(s: State<K, V>, others: map<nat, Handle<K>>, cloned: seq<K>, base: nat, i: nat)
    requires OwnNodes(s, cloned) && Below(others, base) && i < |cloned|
    ensures var holders := Holders(AfterDrops(s, others, cloned, base, i), s.entries[cloned[i]]);
            base + i in holders && (holders == {base + i} <==> !OnNode(others, s.entries[cloned[i]]))
  {
    var t, n := AfterDrops(s, others, cloned, base, i), s.entries[cloned[i]];
    assert t.handles[base + i] == Handle(cloned[i], n, Held);
    if h :| h in others && others[h].node == n {
      assert t.handles[h] == others[h];
      assert h in Holders(t, n);
    } else {
      assert Holders(t, n) == {base + i};
    }
  }

  /** Who holds the node of clone `i` when it goes: the clone, and those of `others` that are on it. */
  lemma DropHolders<K(!new), V>(s: State<K, V>, others: map<nat, Handle<K>>, cloned: seq<K>, base: nat, i: nat)
    requires OwnNodes(s, cloned) && Distinct(cloned) && Below(others, base) && i < |cloned|
    ensures UseCount(AfterDrops(s, others, cloned, base, i), s.entries[cloned[i]]) <= 2 <==>
            !OnNode(others, s.entries[cloned[i]])
  {
    var t, n := AfterDrops(s, others, cloned, base, i), s.entries[cloned[i]];
    CloneThere(s, others, cloned, base, i);
    CloneHolders(s, others, cloned, base, i);
    FewHolders(Holders(t, n), base + i);
    assert Mapped(t, n);
  }

  lemma DropStep<K(!new), V>(s: State<K, V>, others: map<nat, Handle<K>>, cloned: seq<K>, base: nat, i: nat)
    requires OwnNodes(s, cloned) && Distinct(cloned) && Below(others, base) && i < |cloned|
    ensures DropsTo(AfterDrops(s, others, cloned, base, i), AfterDrops(s, others, cloned, base, i + 1), base + i)
  {
    var t := AfterDrops(s, others, cloned, base, i);
    CloneThere(s, others, cloned, base, i);
    DropHolders(s, others, cloned, base, i);
    ReclaimedGrows(s, others, cloned, i);
    DropHandles(s, others, cloned, base, i);
    var gone := Reclaimed(s, others, cloned[..i]);
    assert s.entries - gone - {cloned[i]} == s.entries - (gone + {cloned[i]});
    assert gone + {} == gone;
  }

  lemma DropHandles<K(!new), V>(s: State<K, V>, others: map<nat, Handle<K>>, cloned: seq<K>, base: nat, i: nat)
    requires OwnNodes(s, cloned) && Below(others, base) && i < |cloned|
    ensures others + Clones(s, cloned, base, i) - {base + i} == others + Clones(s, cloned, base, i + 1)
  {
  }

  /** The state once the first `i` handles from `base` on have gone away. */
  function DropEach<K, V>(s: State<K, V>, base: nat, i: nat): (t: State<K, V>)
    ensures t.nodes == s.nodes && t.lock == s.lock
    decreases i
  {
    if i == 0 then s
    else
      var t := DropEach(s, base, i - 1);
      if In(t, base + (i - 1), Held) then Dropped(t, base + (i - 1)) else t
  }

  lemma {:induction false} DropEachRuns<K(!new), V>(s: State<K, V>, base: nat, dflt: V, i: nat)
    returns (steps: seq<Step<K, V>>)
    requires s.lock == None
    ensures LeadsTo(s, steps, DropEach(s, base, i), dflt)
    decreases i
  {
    if i == 0 {
      steps := [];
    } else {
      steps := DropEachRuns(s, base, dflt, i - 1);
      var t := DropEach(s, base, i - 1);
      if In(t, base + (i - 1), Held) {
        var more := DropRuns(t, base + (i - 1), dflt);
        steps := Chain(s, steps, t, more, Dropped(t, base + (i - 1)), dflt);
      }
    }
  }

  /** A way to show where letting go leads: state by state. */
  lemma {:induction false} DropEachFollows<K(!new), V>(states: seq<State<K, V>>, base: nat, i: nat)
    requires i < |states|
    requires forall j | 0 <= j < i :: DropsTo(states[j], states[j + 1], base + j)
    ensures DropEach(states[0], base, i) == states[i]
    decreases i
  {
    if i > 0 {
      DropEachFollows(states, base, i - 1);
      assert DropsTo(states[i - 1], states[i - 1 + 1], base + (i - 1));
    }
  }

  lemma {:induction false} DropEachDrops<K(!new), V>(
      s: State<K, V>, others: map<nat, Handle<K>>, cloned: seq<K>, base: nat, i: nat)
    requires OwnNodes(s, cloned) && Distinct(cloned) && Below(others, base) && i <= |cloned|
    requires s.handles == others + Clones(s, cloned, base, 0)
    ensures DropEach(s, base, i) == AfterDrops(s, others, cloned, base, i)
  {
    var states := seq(|cloned| + 1, j requires 0 <= j <= |cloned| => AfterDrops(s, others, cloned, base, j));
    NoDrops(s, others, cloned, base);
    forall j | 0 <= j < i ensures DropsTo(states[j], states[j + 1], base + j) {
      DropStep(s, others, cloned, base, j);
    }
    DropEachFollows(states, base, i);
  }

  lemma DropOne<K(!new), V>(s: State<K, V>, others: map<nat, Handle<K>>, cloned: seq<K>, base: nat, i: nat)
    requires OwnNodes(s, cloned) && Distinct(cloned) && Below(others, base) && i < |cloned|
    requires s.handles == others + Clones(s, cloned, base, 0)
    ensures var t := DropEach(s, base, i); In(t, base + i, Held) && DropEach(s, base, i + 1) == Dropped(t, base + i)
  {
    DropEachDrops(s, others, cloned, base, i);
    DropStep(s, others, cloned, base, i);
  }

  /** Lets every clone go. */
  method DropAll<K(==, !new), V>(s: State<K, V>, ghost others: map<nat, Handle<K>>, cloned: seq<K>, base: nat)
    returns (t: State<K, V>)
    requires OwnNodes(s, cloned) && Distinct(cloned) && Below(others, base)
    requires s.handles == others + Clones(s, cloned, base, 0)
    ensures t == DropEach(s, base, |cloned|)
  {
    t := s;
    for i := 0 to |cloned|
      invariant t == DropEach(s, base, i)
    {
      DropOne(s, others, cloned, base, i);
      t := Dropped(t, base + i);
    }
  }

  // ---- EraseIf ----

  /** Visited and let go: what becomes of the clones. */
  function AfterErase<K, V>(c: State<K, V>, base: nat, action: Action<K, V>, dflt: V, n: nat): State<K, V> {
    DropEach(VisitEach(c, base, action, dflt, n), base, n)
  }

  lemma CloneIsThere<K(!new), V>(s: State<K, V>, cloned: seq<K>, base: nat)
    requires OwnNodes(s, cloned)
    ensures OwnNodes(WithClones(s, s.handles, cloned, base, 0), cloned)
    ensures HasClones(WithClones(s, s.handles, cloned, base, 0), cloned, base)
  {
  }

  lemma {:induction false} EraseIfRuns<K(!new), V>(s: State<K, V>, cloned: seq<K>, action: Action<K, V>, dflt: V, base: nat)
    returns (steps: seq<Step<K, V>>)
    requires (forall k <- cloned :: k in s.entries) && s.lock == None && Below(s.handles, base)
    ensures LeadsTo(s, steps, AfterErase(WithClones(s, s.handles, cloned, base, 0), base, action, dflt, |cloned|), dflt)
  {
    var c := WithClones(s, s.handles, cloned, base, 0);
    steps := CloneRuns(s, cloned, base, dflt);
    steps := VisitAndDropRuns(s, steps, c, base, action, dflt, |cloned|);
  }

  lemma {:induction false} VisitAndDropRuns<K(!new), V>(
      s: State<K, V>, before: seq<Step<K, V>>, c: State<K, V>, base: nat, action: Action<K, V>, dflt: V, n: nat)
    returns (steps: seq<Step<K, V>>)
    requires LeadsTo(s, before, c, dflt) && c.lock == None
    ensures LeadsTo(s, steps, AfterErase(c, base, action, dflt, n), dflt)
  {
    var v := VisitEach(c, base, action, dflt, n);
    var more := VisitEachRuns(c, base, action, dflt, n);
    steps := Chain(s, before, c, more, v, dflt);
    more := DropEachRuns(v, base, dflt, n);
    steps := Chain(s, steps, v, more, AfterErase(c, base, action, dflt, n), dflt);
  }

  /** What EraseIf does to the entries and the nodes. */
  ghost predicate Erases<K(!new), V>(s: State<K, V>, t: State<K, V>, action: Action<K, V>, dflt: V) {
    && t.handles == s.handles
    && (forall k <- s.entries :: s.entries[k] in s.nodes && s.entries[k] in t.nodes)
    && (forall k <- s.entries :: t.nodes[s.entries[k]] == Visited(s, k, action, dflt))
    && t.entries == s.entries - Gone(s, action, dflt)
  }

  function Gone<K, V>(s: State<K, V>, action: Action<K, V>, dflt: V): set<K> {
    set k <- s.entries | s.entries[k] in s.nodes && !Visited(s, k, action, dflt).isValid && !OnNode(s.handles, s.entries[k])
  }

  lemma {:induction false} EraseEntries<K(!new), V>(s: State<K, V>, cloned: seq<K>, action: Action<K, V>, dflt: V, base: nat)
    requires OwnNodes(s, cloned) && Distinct(cloned) && (set k <- cloned) == s.entries.Keys && Below(s.handles, base)
    ensures Erases(s, AfterErase(WithClones(s, s.handles, cloned, base, 0), base, action, dflt, |cloned|), action, dflt)
  {
    var c := WithClones(s, s.handles, cloned, base, 0);
    var v := VisitEach(c, base, action, dflt, |cloned|);
    CloneIsThere(s, cloned, base);
    AllVisited(c, cloned, action, dflt, base);
    SameClones(s, v, cloned, base);
    DropEachDrops(v, s.handles, cloned, base, |cloned|);
    DroppedEntries(s, v, cloned, action, dflt, base);
  }

  lemma SameClones<K(!new), V>(s: State<K, V>, t: State<K, V>, cloned: seq<K>, base: nat)
    requires (forall k <- cloned :: k in s.entries) && s.entries == t.entries
    ensures Clones(s, cloned, base, 0) == Clones(t, cloned, base, 0)
  {
  }

  /** Once every key has been visited, so has the node of every entry. */
  lemma VisitedEntries<K(!new), V>(
      s: State<K, V>, nodes: map<nat, Node<V>>, cloned: seq<K>, action: Action<K, V>, dflt: V, k: K)
    requires OwnNodes(s, cloned) && k in cloned && VisitedUpTo(s, nodes, cloned, action, dflt, |cloned|)
    ensures s.entries[k] in nodes && nodes[s.entries[k]] == Visited(s, k, action, dflt)
  {
    var j :| 0 <= j < |cloned| && cloned[j] == k;
    assert VisitedAt(s, nodes, cloned[j], action, dflt, true);
  }

  lemma {:induction false} AllVisited<K(!new), V>(s: State<K, V>, cloned: seq<K>, action: Action<K, V>, dflt: V, base: nat)
    requires OwnNodes(s, cloned) && HasClones(s, cloned, base)
    ensures var v := VisitEach(s, base, action, dflt, |cloned|);
            && OwnNodes(v, cloned)
            && (forall k <- cloned :: s.entries[k] in v.nodes)
            && (forall k <- cloned :: v.nodes[s.entries[k]] == Visited(s, k, action, dflt))
  {
    var v := VisitEach(s, base, action, dflt, |cloned|);
    VisitEachVisits(s, cloned, base, action, dflt, |cloned|);
    forall k <- cloned ensures s.entries[k] in v.nodes && v.nodes[s.entries[k]] == Visited(s, k, action, dflt) {
      VisitedEntries(s, v.nodes, cloned, action, dflt, k);
    }
  }

  lemma DroppedEntries<K(!new), V>(s: State<K, V>, v: State<K, V>, cloned: seq<K>, action: Action<K, V>, dflt: V, base: nat)
    requires OwnNodes(s, cloned) && OwnNodes(v, cloned) && (set k <- cloned) == s.entries.Keys && v.entries == s.entries
    requires forall k <- cloned :: s.entries[k] in v.nodes
    requires forall k <- cloned :: v.nodes[s.entries[k]] == Visited(s, k, action, dflt)
    ensures Erases(s, AfterDrops(v, s.handles, cloned, base, |cloned|), action, dflt)
  {
    assert s.handles + Clones(v, cloned, base, |cloned|) == s.handles;
    assert cloned[..|cloned|] == cloned;
    assert forall k :: k in s.entries.Keys <==> k in cloned;
    assert Reclaimed(v, s.handles, cloned) == Gone(s, action, dflt);
  }

  lemma ErasedKeys<K(!new), V>(s: State<K, V>, t: State<K, V>, action: Action<K, V>, dflt: V)
    requires Erases(s, t, action, dflt)
    ensures forall k :: k in t.entries <==> k in s.entries && (k in Abs(t) || OnNode(s.handles, s.entries[k]))
    ensures Abs(t).Keys == set k <- s.entries | Visited(s, k, action, dflt).isValid
  {
  }

  lemma EraseElements<K(!new), V>(s: State<K, V>, t: State<K, V>, action: Action<K, V>, dflt: V)
    requires Erases(s, t, action, dflt)
    ensures Abs(t) == EraseAll(Abs(s), action)
  {
    ErasedKeys(s, t, action, dflt);
    assert Abs(t).Keys == EraseAll(Abs(s), action).Keys;
  }

  lemma DeadCount<K(!new), V>(s: State<K, V>, cloned: seq<K>, left: set<K>, action: Action<K, V>, dflt: V)
    requires OwnNodes(s, cloned) && (set k <- cloned) == s.entries.Keys
    requires left == set k <- s.entries | s.entries[k] in s.nodes && Visited(s, k, action, dflt).isValid
    ensures |Dead(s, cloned, action, dflt)| == |s.entries| - |left|
  {
    var dead := Dead(s, cloned, action, dflt);
    assert forall k :: k in s.entries.Keys <==> k in cloned;
    assert left == s.entries.Keys - dead;
    assert |left| == |s.entries.Keys| - |dead|;
  }

  lemma ClonesDead<K(!new), V>(s: State<K, V>, cloned: seq<K>, action: Action<K, V>, dflt: V, base: nat)
    requires OwnNodes(s, cloned)
    ensures OwnNodes(WithClones(s, s.handles, cloned, base, 0), cloned)
    ensures Dead(WithClones(s, s.handles, cloned, base, 0), cloned, action, dflt) == Dead(s, cloned, action, dflt)
  {
  }

  /** What EraseIf does to the elements. */
  lemma EraseResult<K(!new), V>(s: State<K, V>, t: State<K, V>, cloned: seq<K>, action: Action<K, V>, dflt: V)
    requires Erases(s, t, action, dflt) && OwnNodes(s, cloned) && (set k <- cloned) == s.entries.Keys
    ensures t.handles == s.handles && Abs(t) == EraseAll(Abs(s), action)
    ensures forall k :: k in t.entries <==> k in s.entries && (k in Abs(t) || OnNode(s.handles, s.entries[k]))
    ensures |Dead(s, cloned, action, dflt)| == |s.entries| - |Abs(t)|
  {
    ErasedKeys(s, t, action, dflt);
    EraseElements(s, t, action, dflt);
    assert |Abs(t)| == |Abs(t).Keys|;
    DeadCount(s, cloned, Abs(t).Keys, action, dflt);
  }

  method EraseClones<K(==, !new), V>(
      ghost s: State<K, V>, c: State<K, V>, cloned: seq<K>, action: Action<K, V>, dflt: V, base: nat)
    returns (t: State<K, V>, count: nat)
    requires OwnNodes(s, cloned) && Distinct(cloned) && Below(s.handles, base)
    requires c == WithClones(s, s.handles, cloned, base, 0)
    ensures t == AfterErase(c, base, action, dflt, |cloned|) && count == |Dead(s, cloned, action, dflt)|
  {
    ClonesDead(s, cloned, action, dflt, base);
    CloneIsThere(s, cloned, base);
    t, count := VisitAll(c, cloned, base, action, dflt);
    SameClones(s, t, cloned, base);
    AllVisited(c, cloned, action, dflt, base);
    t := DropAll(t, s.handles, cloned, base);
  }

  /**
   EraseIf leaves exactly the elements the action does not ask to erase, as the action left them, whoever else
   holds handles.  Dead entries go, those that were there before included, except where another handle is on
   them.  The count is of the entries without an element, dead ones included.  Without an action nothing happens.
   */
  method EraseIf<K(==, !new), V>(s: State<K, V>, action: Option<Action<K, V>>, dflt: V, base: nat)
    returns (t: State<K, V>, count: nat, ghost steps: seq<Step<K, V>>)
    requires Inv(s, dflt) && s.lock == None && Below(s.handles, base)
    ensures LeadsTo(s, steps, t, dflt) && t.handles == s.handles
    ensures action.None? ==> t == s && count == 0
    ensures action.Some? ==>
              && Abs(t) == EraseAll(Abs(s), action.value)
              && (forall k :: k in t.entries <==> k in s.entries && (k in Abs(t) || OnNode(s.handles, s.entries[k])))
              && count == |s.entries| - |Abs(t)|
  {
    if action.None? {
      return s, 0, [];
    }
    var c, cloned := Clone(s, base, dflt);
    assert forall k <- cloned :: k in s.entries.Keys;
    EntriesOwnNodes(s, cloned, dflt);
    t, count := EraseClones(s, c, cloned, action.value, dflt, base);
    steps := EraseIfRuns(s, cloned, action.value, dflt, base);
    EraseEntries(s, cloned, action.value, dflt, base);
    EraseResult(s, t, cloned, action.value, dflt);
  }
}
