/**
 ConcurrentStripedMap: a map whose values live in separately locked nodes, which are reclaimed by a
 reference-count check when the last handle on a node goes away.

 The protocol is a state machine.  Every step of a handle is one action under a node's mutex, one lookup under
 the map's mutex, one read of its deleter, or the erasure; any sequence of steps that are enabled is an
 interleaving of the threads using the map.  The deleter's reads are steps of their own: those before the
 lock are not synchronised at all, and those under it are synchronised with lookups only, because neither
 actions nor releases take the map's mutex.
 */
module StripedMap {

  import opened Collections
  import opened Options

  datatype Node<V> = Node(value: V, isValid: bool)

  /**
   Where a handle (the shared_ptr made by Convert2AutoNode) is in its life.  Its thread holds it; its deleter
   has read that the element is gone; it has read the count too and waits for the map's mutex; it has the
   mutex; it has read again that the element is gone; it has read the count again and will erase; it is past
   the deleter without erasing; it has erased.  Until it is released its reference on the node is counted.
   */
  datatype Phase = Held | Doubted | Waiting | Locked | Confirmed | Condemned | Leaving | Erased

  datatype Handle<K> = Handle(key: K, node: nat, phase: Phase)

  /** `lock` is the handle whose deleter has the map's mutex. */
  datatype State<K, V> = State(
    entries: map<K, nat>, nodes: map<nat, Node<V>>, handles: map<nat, Handle<K>>, next: nat, lock: Option<nat>)

  function Init<K, V>(): State<K, V> {
    State(map[], map[], map[], 0, None)
  }

  /** `use_count()` of a node's shared_ptr: the handles that hold it, and the map's own reference. */
  function UseCount<K, V>(s: State<K, V>, n: nat): nat {
    |Holders(s, n)| + (if Mapped(s, n) then 1 else 0)
  }

  predicate Mapped<K, V>(s: State<K, V>, n: nat) {
    exists k <- s.entries :: s.entries[k] == n
  }

  function Holders<K, V>(s: State<K, V>, n: nat): set<nat> {
    set h <- s.handles | s.handles[h].node == n
  }

  /** What a caller's action does with a value: the new value, and whether to keep the element. */
  type Action<!K, !V> = (K, V) -> (V, bool)

  datatype Kind = Compute | ComputeIfPresent | EraseVisit

  /** Leaving the mutex is part of the last access under it. */
  datatype Step<!K, !V> =
    | Acquire(handle: nat, key: K, create: bool)
    | Act(handle: nat, kind: Kind, action: Action<K, V>)
    | CheckValid(handle: nat)
    | CheckCount(handle: nat)
    | Lock(handle: nat)
    | RecheckValid(handle: nat)
    | RecheckCount(handle: nat)
    | Erase(handle: nat)
    | Release(handle: nat)

  /** Node::DoAction on the value of a node: an element that is not retained is reset to the default. */
  function DoAction<K, V>(k: K, n: Node<V>, kind: Kind, action: Action<K, V>, dflt: V): Node<V> {
    var r :=
      if kind == Compute || n.isValid then
        var (v, b) := action(k, n.value); Node(v, if kind == EraseVisit then !b else b)
      else Node(n.value, false);
    if r.isValid then r else Node(dflt, false)
  }

  predicate In<K, V>(s: State<K, V>, h: nat, phase: Phase) {
    h in s.handles && s.handles[h].phase == phase && s.handles[h].node in s.nodes
  }

  predicate Enabled<K, V>(s: State<K, V>, step: Step<K, V>) {
    match step
    case Acquire(h, k, create) => h !in s.handles && s.lock == None && (k in s.entries || create)
    case Act(h, _, _) => In(s, h, Held)
    case CheckValid(h) => In(s, h, Held)
    case CheckCount(h) => In(s, h, Doubted)
    case Lock(h) => In(s, h, Waiting) && s.lock == None
    case RecheckValid(h) => In(s, h, Locked)
    case RecheckCount(h) => In(s, h, Confirmed)
    case Erase(h) => In(s, h, Condemned)
    case Release(h) => In(s, h, Leaving) || In(s, h, Erased)
  }

  /** The phases in which a deleter has the map's mutex. */
  predicate InSection(phase: Phase) {
    phase == Locked || phase == Confirmed || phase == Condemned
  }

  function Move<K, V>(s: State<K, V>, h: nat, phase: Phase): State<K, V>
    requires h in s.handles
  {
    s.(handles := s.handles[h := s.handles[h].(phase := phase)],
       lock := if InSection(phase) then Some(h) else if s.lock == Some(h) then None else s.lock)
  }

  function Next<K, V>(s: State<K, V>, step: Step<K, V>, dflt: V): State<K, V>
    requires Enabled(s, step)
  {
    match step
    case Acquire(h, k, _) =>
      if k in s.entries then
        s.(handles := s.handles[h := Handle(k, s.entries[k], Held)])
      else
        s.(entries := s.entries[k := s.next], nodes := s.nodes[s.next := Node(dflt, false)],
           handles := s.handles[h := Handle(k, s.next, Held)], next := s.next + 1)
    case Act(h, kind, action) =>
      var Handle(k, n, _) := s.handles[h];
      s.(nodes := s.nodes[n := DoAction(k, s.nodes[n], kind, action, dflt)])
    case CheckValid(h) => Move(s, h, if s.nodes[s.handles[h].node].isValid then Leaving else Doubted)
    case CheckCount(h) => Move(s, h, if UseCount(s, s.handles[h].node) > 2 then Leaving else Waiting)
    case Lock(h) => Move(s, h, Locked)
    case RecheckValid(h) => Move(s, h, if s.nodes[s.handles[h].node].isValid then Leaving else Confirmed)
    case RecheckCount(h) => Move(s, h, if UseCount(s, s.handles[h].node) > 2 then Leaving else Condemned)
    case Erase(h) => Move(s, h, Erased).(entries := s.entries - {s.handles[h].key})
    case Release(h) => s.(handles := s.handles - {h})
  }

  // ---- The invariant ----

  ghost predicate Inv<K(!new), V>(s: State<K, V>, dflt: V) {
    && (forall k <- s.entries :: s.entries[k] in s.nodes)
    && (forall k, k' | k in s.entries && k' in s.entries && s.entries[k] == s.entries[k'] :: k == k')
    && (forall n <- s.nodes :: n < s.next && (s.nodes[n].isValid || s.nodes[n].value == dflt))
    && (forall h <- s.handles :: HandleInv(s, h))
    && (s.lock.Some? ==> s.lock.value in s.handles && InSection(s.handles[s.lock.value].phase))
  }

  /**
   A handle is on the very node the map holds for its key, unless it has erased that entry.  One that erases
   or has erased is the only holder of its node, and one deleter at a time has the mutex.
   */
  ghost predicate HandleInv<K, V>(s: State<K, V>, h: nat)
    requires h in s.handles
  {
    var Handle(k, n, phase) := s.handles[h];
    && n in s.nodes
    && (phase != Erased ==> k in s.entries && s.entries[k] == n)
    && (phase == Erased ==> !Mapped(s, n))
    && (phase == Condemned || phase == Erased ==> Holders(s, n) == {h})
    && (InSection(phase) ==> s.lock == Some(h))
  }

  lemma InitInv<K(!new), V>(dflt: V)
    ensures Inv(Init<K, V>(), dflt)
  {
  }

  /** A deleter that reads a count of at most two is the only holder. */
  lemma FewIsAlone<K(!new), V>(s: State<K, V>, dflt: V, h: nat)
    requires Inv(s, dflt) && h in s.handles && s.handles[h].phase != Erased
    ensures UseCount(s, s.handles[h].node) <= 2 <==> Holders(s, s.handles[h].node) == {h}
  {
    var n := s.handles[h].node;
    assert HandleInv(s, h);
    assert h in Holders(s, n);
    if g :| g in Holders(s, n) && g != h {
      SubsetSize({g, h}, Holders(s, n));
    }
  }

  // ---- Every step keeps the invariant ----

  lemma AcquireKeeps<K(!new), V>(s: State<K, V>, step: Step<K, V>, dflt: V)
    requires Inv(s, dflt) && Enabled(s, step) && step.Acquire?
    ensures Inv(Next(s, step, dflt), dflt)
  {
    var s' := Next(s, step, dflt);
    forall g <- s'.handles ensures HandleInv(s', g) {
      if g != step.handle {
        assert HandleInv(s, g);
        var n := s.handles[g].node;
        if s.handles[g].phase == Erased {
          assert s'.handles[step.handle].node != n;
          assert Holders(s', n) == Holders(s, n);
          assert !Mapped(s', n);
        }
      }
    }
  }

  lemma ActKeeps<K(!new), V>(s: State<K, V>, step: Step<K, V>, dflt: V)
    requires Inv(s, dflt) && Enabled(s, step) && step.Act?
    ensures Inv(Next(s, step, dflt), dflt)
  {
    var s' := Next(s, step, dflt);
    assert HandleInv(s, step.handle);
    forall g <- s'.handles ensures HandleInv(s', g) {
      assert HandleInv(s, g);
      assert Holders(s', s.handles[g].node) == Holders(s, s.handles[g].node);
    }
  }

  lemma MoveKeeps<K(!new), V>(s: State<K, V>, h: nat, phase: Phase, dflt: V)
    requires Inv(s, dflt) && h in s.handles && s.handles[h].phase != Erased && phase != Erased
    requires InSection(phase) ==> s.lock == None || s.lock == Some(h)
    requires phase == Condemned ==> Holders(s, s.handles[h].node) == {h}
    ensures Inv(Move(s, h, phase), dflt)
  {
    var s' := Move(s, h, phase);
    forall g <- s'.handles ensures HandleInv(s', g) {
      assert HandleInv(s, g);
      assert Holders(s', s.handles[g].node) == Holders(s, s.handles[g].node);
    }
  }

  lemma EraseKeeps<K(!new), V>(s: State<K, V>, step: Step<K, V>, dflt: V)
    requires Inv(s, dflt) && Enabled(s, step) && step.Erase?
    ensures Inv(Next(s, step, dflt), dflt)
  {
    var s' := Next(s, step, dflt);
    var h := step.handle;
    var Handle(k, n, _) := s.handles[h];
    assert HandleInv(s, h);
    assert !Mapped(s', n);
    forall g <- s'.handles ensures HandleInv(s', g) {
      assert HandleInv(s, g);
      assert Holders(s', s.handles[g].node) == Holders(s, s.handles[g].node);
      if g != h && s.handles[g].phase != Erased {
        assert g !in Holders(s, n);
        assert s.handles[g].key != k;
      } else if g != h {
        assert !Mapped(s', s.handles[g].node);
      }
    }
  }

  lemma ReleaseKeeps<K(!new), V>(s: State<K, V>, step: Step<K, V>, dflt: V)
    requires Inv(s, dflt) && Enabled(s, step) && step.Release?
    ensures Inv(Next(s, step, dflt), dflt)
  {
    var s' := Next(s, step, dflt);
    forall g <- s'.handles ensures HandleInv(s', g) {
      assert HandleInv(s, g);
      var n := s.handles[g].node;
      assert Holders(s', n) == Holders(s, n) - {step.handle};
    }
  }

  lemma NextKeeps<K(!new), V>(s: State<K, V>, step: Step<K, V>, dflt: V)
    requires Inv(s, dflt) && Enabled(s, step)
    ensures Inv(Next(s, step, dflt), dflt)
  {
    match step
    case Acquire(_, _, _) => AcquireKeeps(s, step, dflt);
    case Act(_, _, _) => ActKeeps(s, step, dflt);
    case Erase(_) => EraseKeeps(s, step, dflt);
    case Release(_) => ReleaseKeeps(s, step, dflt);
    case _ =>
      var h := step.handle;
      assert HandleInv(s, h);
      FewIsAlone(s, dflt, h);
      MoveKeeps(s, h, Next(s, step, dflt).handles[h].phase, dflt);
  }

  // ---- Runs ----

  predicate Runs<K, V>(s: State<K, V>, steps: seq<Step<K, V>>, dflt: V)
    decreases |steps|
  {
    steps != [] ==> Enabled(s, steps[0]) && Runs(Next(s, steps[0], dflt), steps[1..], dflt)
  }

  function Run<K, V>(s: State<K, V>, steps: seq<Step<K, V>>, dflt: V): State<K, V>
    requires Runs(s, steps, dflt)
    decreases |steps|
  {
    if steps == [] then s else Run(Next(s, steps[0], dflt), steps[1..], dflt)
  }

  lemma {:induction false} RunKeeps<K(!new), V>(s: State<K, V>, steps: seq<Step<K, V>>, dflt: V)
    requires Inv(s, dflt) && Runs(s, steps, dflt)
    ensures Inv(Run(s, steps, dflt), dflt)
    decreases |steps|
  {
    if steps != [] {
      NextKeeps(s, steps[0], dflt);
      RunKeeps(Next(s, steps[0], dflt), steps[1..], dflt);
    }
  }

  lemma ReachableInv<K(!new), V>(steps: seq<Step<K, V>>, dflt: V)
    requires Runs(Init(), steps, dflt)
    ensures Inv(Run(Init(), steps, dflt), dflt)
  {
    InitInv<K, V>(dflt);
    RunKeeps(Init(), steps, dflt);
  }

  lemma RunCons<K, V>(s: State<K, V>, step: Step<K, V>, rest: seq<Step<K, V>>, dflt: V)
    requires Enabled(s, step) && Runs(Next(s, step, dflt), rest, dflt)
    ensures Runs(s, [step] + rest, dflt) && Run(s, [step] + rest, dflt) == Run(Next(s, step, dflt), rest, dflt)
  {
    assert ([step] + rest)[1..] == rest;
  }

  lemma {:induction false} RunAppend<K, V>(s: State<K, V>, a: seq<Step<K, V>>, b: seq<Step<K, V>>, dflt: V)
    requires Runs(s, a, dflt) && Runs(Run(s, a, dflt), b, dflt)
    ensures Runs(s, a + b, dflt) && Run(s, a + b, dflt) == Run(Run(s, a, dflt), b, dflt)
    decreases |a|
  {
    if a == [] {
      assert a + b == b;
    } else {
      assert (a + b)[1..] == a[1..] + b;
      RunAppend(Next(s, a[0], dflt), a[1..], b, dflt);
    }
  }

  lemma RunSnoc<K, V>(s: State<K, V>, steps: seq<Step<K, V>>, step: Step<K, V>, dflt: V)
    requires Runs(s, steps, dflt) && Enabled(Run(s, steps, dflt), step)
    ensures Runs(s, steps + [step], dflt) && Run(s, steps + [step], dflt) == Next(Run(s, steps, dflt), step, dflt)
  {
    RunCons(Run(s, steps, dflt), step, [], dflt);
    assert [step] + [] == [step];
    RunAppend(s, steps, [step], dflt);
  }

  /** The steps are a run from `s` to `t`. */
  ghost predicate LeadsTo<K, V>(s: State<K, V>, steps: seq<Step<K, V>>, t: State<K, V>, dflt: V) {
    Runs(s, steps, dflt) && Run(s, steps, dflt) == t
  }

  lemma Extend<K, V>(s: State<K, V>, steps: seq<Step<K, V>>, t: State<K, V>, step: Step<K, V>, u: State<K, V>, dflt: V)
    returns (more: seq<Step<K, V>>)
    requires LeadsTo(s, steps, t, dflt) && Enabled(t, step) && Next(t, step, dflt) == u
    ensures more == steps + [step] && LeadsTo(s, more, u, dflt)
  {
    RunSnoc(s, steps, step, dflt);
    more := steps + [step];
  }

  lemma Chain<K, V>(s: State<K, V>, a: seq<Step<K, V>>, t: State<K, V>, b: seq<Step<K, V>>, u: State<K, V>, dflt: V)
    returns (steps: seq<Step<K, V>>)
    requires LeadsTo(s, a, t, dflt) && LeadsTo(t, b, u, dflt)
    ensures steps == a + b && LeadsTo(s, steps, u, dflt)
  {
    RunAppend(s, a, b, dflt);
    steps := a + b;
  }

  /** A run is a run up to its last step, and that step. */
  lemma {:induction false} RunInit<K, V>(s: State<K, V>, steps: seq<Step<K, V>>, dflt: V)
    requires Runs(s, steps, dflt) && steps != []
    ensures var init, last := steps[..|steps| - 1], steps[|steps| - 1];
            && Runs(s, init, dflt) && Enabled(Run(s, init, dflt), last)
            && Run(s, steps, dflt) == Next(Run(s, init, dflt), last, dflt)
    decreases |steps|
  {
    if |steps| > 1 {
      RunInit(Next(s, steps[0], dflt), steps[1..], dflt);
      assert steps[1..][..|steps| - 2] == steps[..|steps| - 1][1..];
    }
  }

  // ---- Ownership ----

  /** In every interleaving, a handle that has not erased its entry is on the node the map has for its key. */
  lemma HandlesOwnTheirEntry<K(!new), V>(steps: seq<Step<K, V>>, dflt: V, h: nat, g: nat)
    requires Runs(Init(), steps, dflt)
    requires var s := Run(Init(), steps, dflt);
             && h in s.handles && g in s.handles && s.handles[h].key == s.handles[g].key
             && s.handles[h].phase != Erased && s.handles[g].phase != Erased
    ensures var s := Run(Init(), steps, dflt);
            && s.handles[h].key in s.entries && s.entries[s.handles[h].key] == s.handles[h].node
            && s.handles[h].node == s.handles[g].node
  {
    var s := Run(Init(), steps, dflt);
    ReachableInv(steps, dflt);
    assert HandleInv(s, h) && HandleInv(s, g);
  }

  /** In every interleaving, an entry disappears only when no handle but the one that erases it is on it. */
  lemma OnlyHolderErases<K(!new), V>(steps: seq<Step<K, V>>, step: Step<K, V>, dflt: V, k: K)
    requires Runs(Init(), steps, dflt) && Enabled(Run(Init(), steps, dflt), step)
    requires k in Run(Init(), steps, dflt).entries && k !in Next(Run(Init(), steps, dflt), step, dflt).entries
    ensures var s := Run(Init(), steps, dflt);
            && step.Erase? && Holders(s, s.entries[k]) == {step.handle}
            && forall h <- s.handles | s.handles[h].key == k && s.handles[h].phase != Erased :: h == step.handle
  {
    var s := Run(Init(), steps, dflt);
    ReachableInv(steps, dflt);
    assert HandleInv(s, step.handle);
    forall h <- s.handles | s.handles[h].key == k && s.handles[h].phase != Erased ensures h == step.handle {
      assert HandleInv(s, h);
      assert h in Holders(s, s.entries[k]);
    }
  }

  // ---- Refinement: a plain map on which every action is atomic ----

  function Abs<K, V>(s: State<K, V>): map<K, V> {
    map k <- s.entries | s.entries[k] in s.nodes && s.nodes[s.entries[k]].isValid :: s.nodes[s.entries[k]].value
  }

  /** What can happen to the elements: a caller's action, or the loss of one. */
  datatype Op<!K, !V> = Do(key: K, kind: Kind, action: Action<K, V>) | Lose(key: K)

  function ApplyOp<K, V>(m: map<K, V>, op: Op<K, V>, dflt: V): map<K, V> {
    match op
    case Lose(k) => m - {k}
    case Do(k, kind, action) =>
      if k !in m && kind != Compute then m
      else
        var (v, b) := action(k, if k in m then m[k] else dflt);
        if b != (kind == EraseVisit) then m[k := v] else m - {k}
  }

  /** Actions take effect on the elements, and so does the erasure of an entry whose element is there. */
  function Effect<K, V>(s: State<K, V>, step: Step<K, V>): seq<Op<K, V>>
    requires Enabled(s, step)
  {
    if step.Act? then [Do(s.handles[step.handle].key, step.kind, step.action)]
    else if step.Erase? && s.nodes[s.handles[step.handle].node].isValid then [Lose(s.handles[step.handle].key)]
    else []
  }

  function ApplyOps<K, V>(m: map<K, V>, ops: seq<Op<K, V>>, dflt: V): map<K, V>
    decreases |ops|
  {
    if ops == [] then m else ApplyOps(ApplyOp(m, ops[0], dflt), ops[1..], dflt)
  }

  /** A change of the node of one key changes the element of that key. */
  lemma AbsAt<K(!new), V>(s: State<K, V>, k: K, node: Node<V>)
    requires k in s.entries && forall j <- s.entries :: s.entries[j] in s.nodes && (s.entries[j] == s.entries[k] ==> j == k)
    ensures Abs(s.(nodes := s.nodes[s.entries[k] := node])) == if node.isValid then Abs(s)[k := node.value] else Abs(s) - {k}
  {
  }

  lemma DoActionIsOp<K(!new), V>(m: map<K, V>, k: K, n: Node<V>, kind: Kind, action: Action<K, V>, dflt: V)
    requires n == if k in m then Node(m[k], true) else Node(dflt, false)
    ensures var n' := DoAction(k, n, kind, action, dflt);
            ApplyOp(m, Do(k, kind, action), dflt) == if n'.isValid then m[k := n'.value] else m - {k}
  {
  }

  /** DoAction is one atomic action on the elements. */
  lemma ActRefines<K(!new), V>(s: State<K, V>, step: Step<K, V>, dflt: V)
    requires Inv(s, dflt) && Enabled(s, step) && step.Act?
    ensures var op := Do(s.handles[step.handle].key, step.kind, step.action);
            var s' := Next(s, step, dflt);
            && Abs(s') == ApplyOp(Abs(s), op, dflt)
            && (op.key in Abs(s') <==> s'.nodes[s.handles[step.handle].node].isValid)
  {
    var Handle(k, n, _) := s.handles[step.handle];
    assert HandleInv(s, step.handle);
    DoActionIsOp(Abs(s), k, s.nodes[n], step.kind, step.action, dflt);
    AbsAt(s, k, DoAction(k, s.nodes[n], step.kind, step.action, dflt));
  }

  lemma CreateRefines<K(!new), V>(s: State<K, V>, step: Step<K, V>, dflt: V)
    requires Inv(s, dflt) && Enabled(s, step) && step.Acquire? && step.key !in s.entries
    ensures Abs(Next(s, step, dflt)) == Abs(s)
  {
    var s' := Next(s, step, dflt);
    forall k <- s.entries ensures s.entries[k] in s.nodes && s'.nodes[s.entries[k]] == s.nodes[s.entries[k]] {
      assert s.entries[k] != s.next;
    }
    InvalidIsUnseen(s, s', step.key, s.next);
  }

  lemma InvalidIsUnseen<K(!new), V>(s: State<K, V>, s': State<K, V>, key: K, n: nat)
    requires key !in s.entries && s'.entries == s.entries[key := n] && n in s'.nodes && !s'.nodes[n].isValid
    requires forall k <- s.entries ::
               s.entries[k] in s.nodes && s.entries[k] in s'.nodes && s'.nodes[s.entries[k]] == s.nodes[s.entries[k]]
    ensures Abs(s') == Abs(s)
  {
    assert Abs(s').Keys == Abs(s).Keys;
  }

  /** An erasure takes the element of its key, if there is one. */
  lemma EraseRefines<K(!new), V>(s: State<K, V>, step: Step<K, V>, dflt: V)
    requires Inv(s, dflt) && Enabled(s, step) && step.Erase?
    ensures var k := s.handles[step.handle].key;
            && Abs(Next(s, step, dflt)) == Abs(s) - {k}
            && (k in Abs(s) <==> s.nodes[s.handles[step.handle].node].isValid)
  {
    assert HandleInv(s, step.handle);
    assert Abs(Next(s, step, dflt)).Keys == Abs(s).Keys - {s.handles[step.handle].key};
  }

  /** Steps that are neither an action, nor an erasure, nor the making of a node leave the elements alone. */
  lemma OtherRefines<K(!new), V>(s: State<K, V>, step: Step<K, V>, dflt: V)
    requires Enabled(s, step) && !step.Act? && !step.Erase? && !(step.Acquire? && step.key !in s.entries)
    ensures Abs(Next(s, step, dflt)) == Abs(s)
  {
    var s' := Next(s, step, dflt);
    assert s'.entries == s.entries && s'.nodes == s.nodes;
  }

  /** Every step does to the elements what its effect says. */
  lemma StepRefines<K(!new), V>(s: State<K, V>, step: Step<K, V>, dflt: V)
    requires Inv(s, dflt) && Enabled(s, step)
    ensures Abs(Next(s, step, dflt)) == ApplyOps(Abs(s), Effect(s, step), dflt)
  {
    if step.Act? {
      ActRefines(s, step, dflt);
      OneOp(Abs(s), Effect(s, step)[0], dflt);
    } else if step.Erase? {
      EraseRefines(s, step, dflt);
      OneOp(Abs(s), Lose(s.handles[step.handle].key), dflt);
    } else if step.Acquire? && step.key !in s.entries {
      CreateRefines(s, step, dflt);
    } else {
      OtherRefines(s, step, dflt);
    }
  }

  lemma OneOp<K, V>(m: map<K, V>, op: Op<K, V>, dflt: V)
    ensures ApplyOps(m, [op], dflt) == ApplyOp(m, op, dflt)
  {
    assert |[op][1..]| == 0;
  }

  lemma {:induction false} ApplyOpsAppend<K, V>(m: map<K, V>, a: seq<Op<K, V>>, b: seq<Op<K, V>>, dflt: V)
    ensures ApplyOps(m, a + b, dflt) == ApplyOps(ApplyOps(m, a, dflt), b, dflt)
    decreases |a|
  {
    if a == [] {
      assert a + b == b;
    } else {
      assert (a + b)[1..] == a[1..] + b;
      ApplyOpsAppend(ApplyOp(m, a[0], dflt), a[1..], b, dflt);
    }
  }

  /** The effects of a run, in order. */
  function Effects<K, V>(s: State<K, V>, steps: seq<Step<K, V>>, dflt: V): seq<Op<K, V>>
    requires Runs(s, steps, dflt)
    decreases |steps|
  {
    if steps == [] then [] else Effect(s, steps[0]) + Effects(Next(s, steps[0], dflt), steps[1..], dflt)
  }

  /** Any interleaving leaves the elements that its actions and its losses leave when they come one after the other. */
  lemma {:induction false} RunRefines<K(!new), V>(s: State<K, V>, steps: seq<Step<K, V>>, dflt: V)
    requires Inv(s, dflt) && Runs(s, steps, dflt)
    ensures Abs(Run(s, steps, dflt)) == ApplyOps(Abs(s), Effects(s, steps, dflt), dflt)
    decreases |steps|
  {
    if steps != [] {
      var next := Next(s, steps[0], dflt);
      NextKeeps(s, steps[0], dflt);
      StepRefines(s, steps[0], dflt);
      RunRefines(next, steps[1..], dflt);
      ApplyOpsAppend(Abs(s), Effect(s, steps[0]), Effects(next, steps[1..], dflt), dflt);
    }
  }
}
