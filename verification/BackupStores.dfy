/**
 Recovery of all stores.  Init lists the key directory once, before it looks at the first store; two stores may keep
 their keys in the same file, so that the residue noted for the later one can be out of date.
 */
module BackupStores {

  import opened BackupManager
  import opened BackupSlot
  import opened ByteCodes
  import opened Collections
  import opened Options

  // ---- Recovery by older residue ----

  /** What recovery makes of the files `now`, going by the residue of `then'`. */
  function StaleClear(now: Slot, then': Slot): Slot {
    Exec(now, ClearOps(Residue(then')))
  }

  predicate IsKeyFile(f: File) {
    f == Key || f == KeyTmp || f == KeyV1
  }

  /** The part of a slot that another store can share. */
  function KeysOf(s: Slot): Slot {
    map f <- s | IsKeyFile(f) :: s[f]
  }

  predicate SameData(s: Slot, t: Slot) {
    SameFile(s, t, Data) && SameFile(s, t, DataTmp)
  }

  lemma KeysAt(s: Slot)
    ensures SameFile(s, KeysOf(s), Key) && SameFile(s, KeysOf(s), KeyTmp) && SameFile(s, KeysOf(s), KeyV1)
    ensures Data !in KeysOf(s) && DataTmp !in KeysOf(s)
  {
  }

  lemma SameKeys(s: Slot, t: Slot)
    ensures KeysOf(s) == KeysOf(t) <==> SameFile(s, t, Key) && SameFile(s, t, KeyTmp) && SameFile(s, t, KeyV1)
  {
    var a, b := KeysOf(s), KeysOf(t);
    KeysAt(s);
    KeysAt(t);
    if SameFile(s, t, Key) && SameFile(s, t, KeyTmp) && SameFile(s, t, KeyV1) {
      SameSlot(a, b);
    }
  }

  lemma SameParts(s: Slot, t: Slot)
    ensures s == t <==> SameData(s, t) && KeysOf(s) == KeysOf(t)
  {
    SameKeys(s, t);
    if SameData(s, t) && KeysOf(s) == KeysOf(t) {
      SameSlot(s, t);
    }
  }

  /** Whether recovery rolls the key back. */
  predicate RollsKey(s: Slot) {
    ChooseClear(Residue(s)) == Rollback || ChooseClear(Residue(s)) == RollbackKey
  }

  /** What one name's recovery does to the key files `k`, where `k0` are those that were listed. */
  function Turn(k: Slot, k0: Slot, rolls: bool): Slot {
    if KeyTmp !in k0 then k
    else if rolls then Undone(k, Key, KeyTmp, k0[KeyTmp] == [])
    else k - {KeyTmp}
  }

  /** Rolling the backup back does not touch the key files. */
  lemma DataUndone(now: Slot, dataCreated: bool, keyCreated: bool)
    ensures var d := Undone(now, Data, DataTmp, dataCreated);
            && KeysOf(Undone(d, Key, KeyTmp, keyCreated)) == KeysOf(Undone(now, Key, KeyTmp, keyCreated))
            && SameData(Undone(d, Key, KeyTmp, keyCreated), d)
  {
    var d := Undone(now, Data, DataTmp, dataCreated);
    SameKeys(Undone(d, Key, KeyTmp, keyCreated), Undone(now, Key, KeyTmp, keyCreated));
  }

  lemma StaleKeyRollback(now: Slot, then': Slot)
    requires ChooseClear(Residue(then')) == RollbackKey && SameData(now, then')
    ensures SameData(StaleClear(now, then'), Clear(then'))
    ensures KeysOf(StaleClear(now, then')) == KeysOf(Undone(now, Key, KeyTmp, then'[KeyTmp] == []))
  {
    ExecRollBack(now, Key, KeyTmp, then'[KeyTmp] == []);
  }

  lemma StaleFullRollback(now: Slot, then': Slot)
    requires ChooseClear(Residue(then')) == Rollback && SameData(now, then')
    ensures SameData(StaleClear(now, then'), Clear(then'))
    ensures KeysOf(StaleClear(now, then')) == KeysOf(Undone(now, Key, KeyTmp, then'[KeyTmp] == []))
  {
    var data, key := then'[DataTmp] == [], then'[KeyTmp] == [];
    var d := Undone(now, Data, DataTmp, data);
    ExecAppend(now, RollBackOps(Data, DataTmp, data), RollBackOps(Key, KeyTmp, key));
    ExecRollBack(now, Data, DataTmp, data);
    ExecRollBack(d, Key, KeyTmp, key);
    assert StaleClear(now, then') == Undone(d, Key, KeyTmp, key);
    DataUndone(now, data, key);
    assert SameData(d, Undone(then', Data, DataTmp, data));
    DataUndone(then', data, key);
  }

  lemma StaleRest(now: Slot, then': Slot)
    requires !RollsKey(then') && SameData(now, then') && (KeyTmp !in then' ==> KeyTmp !in now)
    ensures SameData(StaleClear(now, then'), Clear(then'))
    ensures KeysOf(StaleClear(now, then')) == KeysOf(if KeyTmp in then' then now - {KeyTmp} else now)
  {
    match ChooseClear(Residue(then'))
    case DoNothing =>
    case RollbackData =>
      ExecRollBack(now, Data, DataTmp, then'[DataTmp] == []);
      SameKeys(StaleClear(now, then'), now);
    case CleanTmp =>
      ExecTwo(now, Delete(DataTmp), Delete(KeyTmp));
      SameKeys(StaleClear(now, then'), if KeyTmp in then' then now - {KeyTmp} else now);
  }

  lemma TurnOfKeys(k: Slot, k0: Slot, rolls: bool)
    ensures KeysOf(Turn(k, k0, rolls)) == Turn(KeysOf(k), KeysOf(k0), rolls)
  {
    SameSlot(KeysOf(Turn(k, k0, rolls)), Turn(KeysOf(k), KeysOf(k0), rolls));
  }

  /** The backup files come out right however old the residue is; the key files take their turn. */
  lemma StaleClearParts(now: Slot, then': Slot)
    requires SameData(now, then') && (KeyTmp !in then' ==> KeyTmp !in now)
    ensures SameData(StaleClear(now, then'), Clear(then'))
    ensures KeysOf(StaleClear(now, then')) == Turn(KeysOf(now), KeysOf(then'), RollsKey(then'))
  {
    if ChooseClear(Residue(then')) == Rollback {
      StaleFullRollback(now, then');
    } else if ChooseClear(Residue(then')) == RollbackKey {
      StaleKeyRollback(now, then');
    } else {
      StaleRest(now, then');
    }
    TurnOfKeys(now, then', RollsKey(then'));
  }

  lemma ClearKeys(s: Slot)
    ensures KeysOf(Clear(s)) == Turn(KeysOf(s), KeysOf(s), RollsKey(s))
  {
    StaleClearParts(s, s);
    ClearExecutes(s);
  }

  // ---- Turns on the same key files ----

  /**
   Whether two turns on the key files `k0`, in this order, leave what each would leave alone.  Without a `.bk` file
   neither does anything.  An empty one says that there was no key: both must go by it, or neither.  One with
   contents is gone after the first turn, so the second must not roll back; and if the first does, the key must not
   change by it.
   */
  predicate InOrder(k0: Slot, first: bool, second: bool) {
    KeyTmp in k0 ==>
      if k0[KeyTmp] == [] then first == second
      else !second && (first ==> Key in k0 && k0[KeyTmp] == k0[Key])
  }

  /** A key that is not rolled back is there. */
  predicate CanTurn(k0: Slot, rolls: bool) {
    KeyTmp in k0 && !rolls ==> Key in k0
  }

  lemma RollsOrKeeps(s: Slot)
    ensures CanTurn(KeysOf(s), RollsKey(s))
  {
  }

  lemma TurnsInOrder(k0: Slot, first: bool, second: bool)
    requires CanTurn(k0, first) && CanTurn(k0, second) && InOrder(k0, first, second)
    ensures Turn(k0, k0, first) == Turn(k0, k0, second)
    ensures Turn(Turn(k0, k0, first), k0, second) == Turn(k0, k0, second)
  {
    SameSlot(Turn(k0, k0, first), Turn(k0, k0, second));
    SameSlot(Turn(Turn(k0, k0, first), k0, second), Turn(k0, k0, second));
  }

  lemma TurnsOutOfOrder(k0: Slot, first: bool, second: bool)
    requires CanTurn(k0, first) && CanTurn(k0, second) && !InOrder(k0, first, second)
    ensures Turn(k0, k0, first) != Turn(k0, k0, second) || (second && k0[KeyTmp] != [] && Key in Turn(k0, k0, second))
  {
    var a, b := Turn(k0, k0, first), Turn(k0, k0, second);
    if a == b {
      assert SameFile(a, b, Key);
    }
  }

  /** The turns of the stores in order; a store without a name for the key files has none. */
  function Play(k0: Slot, turns: seq<Option<bool>>): Slot
    decreases |turns|
  {
    if turns == [] then k0
    else
      var k, last := Play(k0, turns[..|turns| - 1]), turns[|turns| - 1];
      if last.Some? then Turn(k, k0, last.value) else k
  }

  predicate CanPlay(k0: Slot, turns: seq<Option<bool>>) {
    forall i | 0 <= i < |turns| && turns[i].Some? :: CanTurn(k0, turns[i].value)
  }

  predicate AllInOrder(k0: Slot, turns: seq<Option<bool>>) {
    forall i, j | 0 <= i < j < |turns| && turns[i].Some? && turns[j].Some? :: InOrder(k0, turns[i].value, turns[j].value)
  }

  lemma {:induction false} NobodysTurn(k0: Slot, turns: seq<Option<bool>>)
    requires forall i | 0 <= i < |turns| :: turns[i].None?
    ensures Play(k0, turns) == k0
    decreases |turns|
  {
    if turns != [] {
      NobodysTurn(k0, turns[..|turns| - 1]);
    }
  }

  /** In order, each turn leaves what it would leave alone. */
  lemma {:induction false} PlayInOrder(k0: Slot, turns: seq<Option<bool>>, i: nat)
    requires i < |turns| && turns[i].Some? && CanPlay(k0, turns) && AllInOrder(k0, turns)
    ensures Play(k0, turns) == Turn(k0, k0, turns[i].value)
    decreases |turns|
  {
    var init, last := turns[..|turns| - 1], turns[|turns| - 1];
    if i < |init| {
      PlayInOrder(k0, init, i);
      if last.Some? { TurnsInOrder(k0, turns[i].value, last.value); }
    } else if j :| 0 <= j < |init| && init[j].Some? {
      PlayInOrder(k0, init, j);
      TurnsInOrder(k0, turns[j].value, last.value);
    } else {
      NobodysTurn(k0, init);
    }
  }

  /** After somebody's turn there is no `.bk` file any more. */
  lemma {:induction false} TurnTakesTmp(k0: Slot, turns: seq<Option<bool>>, i: nat)
    requires i < |turns| && turns[i].Some? && KeyTmp in k0
    ensures KeyTmp !in Play(k0, turns)
    decreases |turns|
  {
    if i < |turns| - 1 {
      TurnTakesTmp(k0, turns[..|turns| - 1], i);
    }
  }

  /** A later rollback finds no copy and deletes the key, which nobody brings back. */
  lemma {:induction false} LateRollbackLosesKey(k0: Slot, turns: seq<Option<bool>>, i: nat, j: nat)
    requires i < j < |turns| && turns[i].Some? && turns[j] == Some(true) && KeyTmp in k0 && k0[KeyTmp] != []
    ensures Key !in Play(k0, turns)
    decreases |turns|
  {
    var init := turns[..|turns| - 1];
    TurnTakesTmp(k0, init, i);
    if j < |init| {
      LateRollbackLosesKey(k0, init, i, j);
    }
  }

  lemma PlayOutOfOrder(k0: Slot, turns: seq<Option<bool>>, i: nat, j: nat)
    requires i < j < |turns| && turns[i].Some? && turns[j].Some? && CanPlay(k0, turns)
    requires !InOrder(k0, turns[i].value, turns[j].value)
    ensures !(Play(k0, turns) == Turn(k0, k0, turns[i].value) == Turn(k0, k0, turns[j].value))
  {
    TurnsOutOfOrder(k0, turns[i].value, turns[j].value);
    if turns[j].value && k0[KeyTmp] != [] {
      LateRollbackLosesKey(k0, turns, i, j);
    }
  }

  // ---- Two names with one key file ----

  predicate Compatible(s: Slot, t: Slot) {
    InOrder(KeysOf(s), RollsKey(s), RollsKey(t))
  }

  lemma SharedKeys(fs: Fs, a: string, n: string, b: string, m: string)
    requires KeyName(a, n) == KeyName(b, m)
    ensures KeysOf(SlotOf(fs, a, n)) == KeysOf(SlotOf(fs, b, m))
  {
    assert At(a, n)(Key) == At(b, m)(Key) && At(a, n)(KeyTmp) == At(b, m)(KeyTmp) && At(a, n)(KeyV1) == At(b, m)(KeyV1);
    SameKeys(SlotOf(fs, a, n), SlotOf(fs, b, m));
  }

  /** Operations on a name of one store leave the backup files of another store alone. */
  lemma OtherDir(fs: Fs, b: string, m: string, ops: seq<Op<File>>, a: string, n: string)
    requires a != b
    ensures SameData(SlotOf(Exec(fs, Lift(At(b, m), ops)), a, n), SlotOf(fs, a, n))
  {
    var fs' := Exec(fs, Lift(At(b, m), ops));
    ExecOnName(fs, b, m, ops);
    forall f: File | f == Data || f == DataTmp ensures Agree(fs, fs', At(a, n)(f)) {
      assert !InSlot(At(b, m), At(a, n)(f)) by { NotInOtherDir(b, m, At(a, n)(f), a); }
    }
  }

  lemma NotInOtherDir(b: string, m: string, p: Path, a: string)
    requires a != b && p.dir == BackupDir(a)
    ensures !InSlot(At(b, m), p)
  {
  }

  /** The files after recovering one name and then another, both by the residue listed at first. */
  function BothCleared(fs: Fs, a: string, n: string, b: string, m: string): Fs {
    var fs1 := Exec(fs, Lift(At(a, n), ClearOps(Residue(SlotOf(fs, a, n)))));
    Exec(fs1, Lift(At(b, m), ClearOps(Residue(SlotOf(fs, b, m)))))
  }

  /** What becomes of the two slots: the backup files come out right, and the key files take two turns. */
  lemma BothTurns(fs: Fs, a: string, n: string, b: string, m: string)
    requires a != b && KeyName(a, n) == KeyName(b, m)
    ensures var s, t, fs2 := SlotOf(fs, a, n), SlotOf(fs, b, m), BothCleared(fs, a, n, b, m);
            && KeysOf(s) == KeysOf(t)
            && SameData(SlotOf(fs2, a, n), Clear(s)) && SameData(SlotOf(fs2, b, m), Clear(t))
            && KeysOf(SlotOf(fs2, a, n)) == KeysOf(SlotOf(fs2, b, m)) == Play(KeysOf(s), [Some(RollsKey(s)), Some(RollsKey(t))])
  {
    var s, t := SlotOf(fs, a, n), SlotOf(fs, b, m);
    var fs1 := Exec(fs, Lift(At(a, n), ClearOps(Residue(s))));
    var fs2 := Exec(fs1, Lift(At(b, m), ClearOps(Residue(t))));
    ExecOnName(fs, a, n, ClearOps(Residue(s)));
    ClearExecutes(s);
    OtherDir(fs, a, n, ClearOps(Residue(s)), b, m);
    ExecOnName(fs1, b, m, ClearOps(Residue(t)));
    OtherDir(fs1, b, m, ClearOps(Residue(t)), a, n);
    SharedKeys(fs, a, n, b, m);
    SharedKeys(fs1, a, n, b, m);
    SharedKeys(fs2, a, n, b, m);
    TwoTurns(s, t, SlotOf(fs1, b, m));
  }

  lemma TwoTurns(s: Slot, t: Slot, t1: Slot)
    requires KeysOf(s) == KeysOf(t) && SameData(t1, t) && KeysOf(t1) == KeysOf(Clear(s))
    ensures SameData(StaleClear(t1, t), Clear(t))
    ensures KeysOf(StaleClear(t1, t)) == Play(KeysOf(s), [Some(RollsKey(s)), Some(RollsKey(t))])
  {
    ClearKeys(s);
    NoTmpLeft(s, t, t1);
    StaleClearParts(t1, t);
    PlayTwo(KeysOf(s), RollsKey(s), RollsKey(t));
  }

  lemma PlayTwo(k0: Slot, first: bool, second: bool)
    ensures Play(k0, [Some(first), Some(second)]) == Turn(Turn(k0, k0, first), k0, second)
  {
    var turns := [Some(first), Some(second)];
    assert turns[..1] == [Some(first)] && turns[..1][..0] == [];
    assert Play(k0, turns[..1]) == Turn(k0, k0, first);
  }

  lemma TurnsDecide(k0: Slot, first: bool, second: bool)
    requires CanTurn(k0, first) && CanTurn(k0, second)
    ensures Play(k0, [Some(first), Some(second)]) == Turn(k0, k0, first) == Turn(k0, k0, second) <==> InOrder(k0, first, second)
  {
    var turns := [Some(first), Some(second)];
    if InOrder(k0, first, second) {
      PlayInOrder(k0, turns, 0);
      PlayInOrder(k0, turns, 1);
    } else {
      PlayOutOfOrder(k0, turns, 0, 1);
    }
  }

  lemma TwoSlots(s: Slot, t: Slot, s2: Slot, t2: Slot)
    requires KeysOf(s) == KeysOf(t) && SameData(s2, Clear(s)) && SameData(t2, Clear(t))
    requires KeysOf(s2) == KeysOf(t2) == Play(KeysOf(s), [Some(RollsKey(s)), Some(RollsKey(t))])
    ensures s2 == Clear(s) && t2 == Clear(t) <==> Compatible(s, t)
  {
    ClearKeys(s);
    ClearKeys(t);
    SameParts(s2, Clear(s));
    SameParts(t2, Clear(t));
    RollsOrKeeps(s);
    RollsOrKeeps(t);
    TurnsDecide(KeysOf(s), RollsKey(s), RollsKey(t));
  }

  /** Two names of different stores that share their key files are both recovered exactly when they are compatible. */
  lemma SharedKeyExactlyWhen(fs: Fs, a: string, n: string, b: string, m: string)
    requires a != b && KeyName(a, n) == KeyName(b, m)
    ensures var s, t, fs2 := SlotOf(fs, a, n), SlotOf(fs, b, m), BothCleared(fs, a, n, b, m);
            SlotOf(fs2, a, n) == Clear(s) && SlotOf(fs2, b, m) == Clear(t) <==> Compatible(s, t)
  {
    var fs2 := BothCleared(fs, a, n, b, m);
    BothTurns(fs, a, n, b, m);
    TwoSlots(SlotOf(fs, a, n), SlotOf(fs, b, m), SlotOf(fs2, a, n), SlotOf(fs2, b, m));
  }

  /**
   Store "s" with the name "a_b" and store "s_a" with the name "b", both interrupted once the old files were set
   aside: recovered by itself either name has its key again, and recovered one after the other neither has.
   */
  lemma SharedKeyMayBeLost()
    ensures var fs: Fs := map[PathOf("s", "a_b", DataTmp) := [1], PathOf("s_a", "b", DataTmp) := [2],
                              PathOf("s", "a_b", KeyTmp) := [3]];
            var s, t, fs2 := SlotOf(fs, "s", "a_b"), SlotOf(fs, "s_a", "b"), BothCleared(fs, "s", "a_b", "s_a", "b");
            && "a_b" in Names(fs, "s") && "b" in Names(fs, "s_a") && !Compatible(s, t)
            && Key in Clear(s) && Clear(s)[Key] == [3] && Key in Clear(t) && Clear(t)[Key] == [3]
            && KeysOf(SlotOf(fs2, "s", "a_b")) == KeysOf(SlotOf(fs2, "s_a", "b"))
            && Key !in SlotOf(fs2, "s", "a_b") && Key !in SlotOf(fs2, "s_a", "b")
  {
    var fs: Fs := map[PathOf("s", "a_b", DataTmp) := [1], PathOf("s_a", "b", DataTmp) := [2], PathOf("s", "a_b", KeyTmp) := [3]];
    var s, t := SlotOf(fs, "s", "a_b"), SlotOf(fs, "s_a", "b");
    StoresMayShareKeys();
    assert At("s", "a_b")(DataTmp) in fs && At("s_a", "b")(DataTmp) in fs && At("s", "a_b")(KeyTmp) in fs;
    assert s[KeyTmp] == [3];
    SharedKeyName();
    Listed(fs, "s", "a_b");
    Listed(fs, "s_a", "b");
    var fs2 := BothCleared(fs, "s", "a_b", "s_a", "b");
    BothTurns(fs, "s", "a_b", "s_a", "b");
    LostKey(s, t, SlotOf(fs2, "s", "a_b"), SlotOf(fs2, "s_a", "b"));
  }

  lemma SharedKeyName()
    ensures KeyName("s", "a_b") == KeyName("s_a", "b")
  {
    assert "s" + "_" + "a_b" == "s_a" + "_" + "b";
    assert KeyName("s", "a_b") == BACKUP_KEY_PREFIX + ("s" + "_" + "a_b");
    assert KeyName("s_a", "b") == BACKUP_KEY_PREFIX + ("s_a" + "_" + "b");
  }

  /** Two full rollbacks of one key lose it. */
  lemma LostKey(s: Slot, t: Slot, s2: Slot, t2: Slot)
    requires KeysOf(s) == KeysOf(t) && DataTmp in s && DataTmp in t && KeyTmp in s && s[KeyTmp] != []
    requires KeysOf(s2) == KeysOf(t2) == Play(KeysOf(s), [Some(RollsKey(s)), Some(RollsKey(t))])
    ensures !Compatible(s, t)
    ensures Key in Clear(s) && Clear(s)[Key] == s[KeyTmp] && Key in Clear(t) && Clear(t)[Key] == s[KeyTmp]
    ensures Key !in s2 && Key !in t2
  {
    KeysAt(s);
    KeysAt(t);
    assert RollsKey(s) && RollsKey(t) && t[KeyTmp] == s[KeyTmp];
    KeysAt(s2);
    KeysAt(t2);
    LateRollbackLosesKey(KeysOf(s), [Some(true), Some(true)], 0, 1);
  }

  lemma NoTmpLeft(s: Slot, t: Slot, t1: Slot)
    requires KeysOf(s) == KeysOf(t) && KeysOf(t1) == Turn(KeysOf(s), KeysOf(s), RollsKey(s))
    ensures KeyTmp !in t ==> KeyTmp !in t1
  {
    assert KeyTmp in t <==> KeyTmp in KeysOf(t);
    assert KeyTmp in t1 <==> KeyTmp in KeysOf(t1);
  }

  // ---- All stores ----

  /** `next` is what recovering a store makes of `now`, by the residue listed when the files were `fs`. */
  ghost predicate StaleRecovered(fs: Fs, now: Fs, storeId: string, next: Fs) {
    && (forall n <- Names(fs, storeId) ::
          SlotOf(next, storeId, n) == StaleClear(SlotOf(now, storeId, n), SlotOf(fs, storeId, n)))
    && (forall p: Path | !Considered(Names(fs, storeId), storeId, p) :: Agree(now, next, p))
  }

  /** By residue that is up to date it is the recovery of the store. */
  lemma FreshIsRecovered(fs: Fs, storeId: string, next: Fs)
    requires StaleRecovered(fs, fs, storeId, next)
    ensures Recovered(fs, storeId, next)
  {
    forall n <- Names(fs, storeId) ensures SlotOf(next, storeId, n) == Clear(SlotOf(fs, storeId, n)) {
      ClearExecutes(SlotOf(fs, storeId, n));
    }
  }

  /** The stores are recovered one after the other, all by the first listing. */
  ghost predicate InTurn(states: seq<Fs>, stores: seq<string>) {
    && |states| == |stores| + 1
    && forall i | 0 <= i < |stores| :: StaleRecovered(states[0], states[i], stores[i], states[i + 1])
  }

  /** Some name of the store has its key in the file `x` stands for. */
  ghost predicate Uses(fs: Fs, storeId: string, x: string) {
    exists n <- Names(fs, storeId) :: KeyName(storeId, n) == x
  }

  ghost function TurnOf(fs: Fs, storeId: string, x: string): Option<bool> {
    if Uses(fs, storeId, x) then
      var n :| n in Names(fs, storeId) && KeyName(storeId, n) == x; Some(RollsKey(SlotOf(fs, storeId, n)))
    else None
  }

  ghost function TurnsOf(fs: Fs, stores: seq<string>, x: string): seq<Option<bool>> {
    seq(|stores|, i requires 0 <= i < |stores| => TurnOf(fs, stores[i], x))
  }

  lemma OneNamePerKey(storeId: string, n: string, m: string)
    requires KeyName(storeId, n) == KeyName(storeId, m)
    ensures n == m
  {
    SameSuffix(BACKUP_KEY_PREFIX + storeId + "_", n, m);
  }

  lemma TurnOfName(fs: Fs, storeId: string, n: string)
    requires n in Names(fs, storeId)
    ensures TurnOf(fs, storeId, KeyName(storeId, n)) == Some(RollsKey(SlotOf(fs, storeId, n)))
  {
    var x := KeyName(storeId, n);
    assert Uses(fs, storeId, x);
    forall m <- Names(fs, storeId) | KeyName(storeId, m) == x ensures m == n {
      OneNamePerKey(storeId, n, m);
    }
  }

  // What one store's recovery does to the files of a name of any store.

  lemma OtherStoreData(fs: Fs, now: Fs, b: string, next: Fs, a: string, n: string)
    requires StaleRecovered(fs, now, b, next) && a != b
    ensures SameData(SlotOf(next, a, n), SlotOf(now, a, n))
  {
    forall f: File | f == Data || f == DataTmp ensures Agree(now, next, At(a, n)(f)) {
      forall m <- Names(fs, b) ensures !InSlot(At(b, m), At(a, n)(f)) {
        NotInOtherDir(b, m, At(a, n)(f), a);
      }
      assert !Considered(Names(fs, b), b, At(a, n)(f));
    }
  }

  lemma UnusedPath(fs: Fs, b: string, a: string, n: string, f: File)
    requires !Uses(fs, b, KeyName(a, n)) && IsKeyFile(f)
    ensures !Considered(Names(fs, b), b, At(a, n)(f))
  {
    forall m <- Names(fs, b) ensures !InSlot(At(b, m), At(a, n)(f)) {
      if InSlot(At(b, m), At(a, n)(f)) {
        var g: File :| At(a, n)(f) == At(b, m)(g);
        if a == b {
          PathsDiffer(a, n, f, m, g);
        } else {
          SharedPathsAreKeys(a, n, f, b, m, g);
        }
      }
    }
  }

  lemma UnusedKeys(fs: Fs, now: Fs, b: string, next: Fs, a: string, n: string)
    requires StaleRecovered(fs, now, b, next) && !Uses(fs, b, KeyName(a, n))
    ensures KeysOf(SlotOf(next, a, n)) == KeysOf(SlotOf(now, a, n))
  {
    forall f: File | IsKeyFile(f) ensures Agree(now, next, At(a, n)(f)) {
      UnusedPath(fs, b, a, n, f);
    }
    SameKeys(SlotOf(next, a, n), SlotOf(now, a, n));
  }

  lemma UsedKeys(fs: Fs, now: Fs, b: string, m: string, next: Fs, a: string, n: string)
    requires StaleRecovered(fs, now, b, next) && m in Names(fs, b) && KeyName(b, m) == KeyName(a, n)
    requires SameData(SlotOf(now, b, m), SlotOf(fs, b, m))
    requires KeyTmp !in KeysOf(SlotOf(fs, a, n)) ==> KeyTmp !in KeysOf(SlotOf(now, a, n))
    ensures KeysOf(SlotOf(next, a, n)) ==
            Turn(KeysOf(SlotOf(now, a, n)), KeysOf(SlotOf(fs, a, n)), RollsKey(SlotOf(fs, b, m)))
  {
    SharedKeys(fs, a, n, b, m);
    SharedKeys(now, a, n, b, m);
    SharedKeys(next, a, n, b, m);
    KeysAt(SlotOf(fs, b, m));
    KeysAt(SlotOf(now, b, m));
    StaleClearParts(SlotOf(now, b, m), SlotOf(fs, b, m));
  }

  // What all of them do.

  /** The backup files of a store change in its own turn alone. */
  lemma {:induction false} DataStays(states: seq<Fs>, stores: seq<string>, i: nat, j: nat, a: string, n: string)
    requires InTurn(states, stores) && i <= j <= |stores| && forall q | i <= q < j :: stores[q] != a
    ensures SameData(SlotOf(states[j], a, n), SlotOf(states[i], a, n))
    decreases j
  {
    if i < j {
      DataStays(states, stores, i, j - 1, a, n);
      assert StaleRecovered(states[0], states[j - 1], stores[j - 1], states[j - 1 + 1]);
      OtherStoreData(states[0], states[j - 1], stores[j - 1], states[j], a, n);
    }
  }

  lemma {:induction false} NoTmpInPlay(k0: Slot, turns: seq<Option<bool>>)
    requires KeyTmp !in k0
    ensures KeyTmp !in Play(k0, turns)
    decreases |turns|
  {
    if turns != [] {
      NoTmpInPlay(k0, turns[..|turns| - 1]);
    }
  }

  /** The key files of a name take the turns of the stores that use them. */
  lemma {:induction false} KeysTakeTurns(states: seq<Fs>, stores: seq<string>, i: nat, a: string, n: string)
    requires InTurn(states, stores) && Distinct(stores) && i <= |stores|
    ensures KeysOf(SlotOf(states[i], a, n)) ==
            Play(KeysOf(SlotOf(states[0], a, n)), TurnsOf(states[0], stores[..i], KeyName(a, n)))
    decreases i
  {
    if i > 0 {
      KeysTakeTurns(states, stores, i - 1, a, n);
      NextTurn(states, stores, i - 1, a, n);
      var x := KeyName(a, n);
      assert TurnsOf(states[0], stores[..i], x)[..i - 1] == TurnsOf(states[0], stores[..i - 1], x);
      assert TurnsOf(states[0], stores[..i], x)[i - 1] == TurnOf(states[0], stores[i - 1], x);
    }
  }

  lemma NextTurn(states: seq<Fs>, stores: seq<string>, i: nat, a: string, n: string)
    requires InTurn(states, stores) && Distinct(stores) && i < |stores|
    requires KeysOf(SlotOf(states[i], a, n)) ==
             Play(KeysOf(SlotOf(states[0], a, n)), TurnsOf(states[0], stores[..i], KeyName(a, n)))
    ensures var k, turn := KeysOf(SlotOf(states[i], a, n)), TurnOf(states[0], stores[i], KeyName(a, n));
            KeysOf(SlotOf(states[i + 1], a, n)) ==
            if turn.Some? then Turn(k, KeysOf(SlotOf(states[0], a, n)), turn.value) else k
  {
    var b, x := stores[i], KeyName(a, n);
    assert StaleRecovered(states[0], states[i], stores[i], states[i + 1]);
    if Uses(states[0], b, x) {
      var m :| m in Names(states[0], b) && KeyName(b, m) == x;
      TurnOfName(states[0], b, m);
      DataStays(states, stores, 0, i, b, m);
      if KeyTmp !in KeysOf(SlotOf(states[0], a, n)) {
        NoTmpInPlay(KeysOf(SlotOf(states[0], a, n)), TurnsOf(states[0], stores[..i], x));
      }
      UsedKeys(states[0], states[i], b, m, states[i + 1], a, n);
    } else {
      UnusedKeys(states[0], states[i], b, states[i + 1], a, n);
    }
  }

  /** The backup files of every name come out right. */
  lemma DataIsCleared(states: seq<Fs>, stores: seq<string>, i: nat, n: string)
    requires InTurn(states, stores) && Distinct(stores) && i < |stores| && n in Names(states[0], stores[i])
    ensures SameData(SlotOf(states[|stores|], stores[i], n), Clear(SlotOf(states[0], stores[i], n)))
  {
    var a := stores[i];
    assert StaleRecovered(states[0], states[i], a, states[i + 1]);
    DataStays(states, stores, 0, i, a, n);
    DataStays(states, stores, i + 1, |stores|, a, n);
    KeysTakeTurns(states, stores, i, a, n);
    KeysAt(SlotOf(states[0], a, n));
    KeysAt(SlotOf(states[i], a, n));
    if KeyTmp !in SlotOf(states[0], a, n) {
      NoTmpInPlay(KeysOf(SlotOf(states[0], a, n)), TurnsOf(states[0], stores[..i], KeyName(a, n)));
    }
    StaleClearParts(SlotOf(states[i], a, n), SlotOf(states[0], a, n));
  }

  /** So a name is recovered exactly when the turns leave its key files as its own turn would. */
  lemma NameIsCleared(states: seq<Fs>, stores: seq<string>, i: nat, n: string)
    requires InTurn(states, stores) && Distinct(stores) && i < |stores| && n in Names(states[0], stores[i])
    ensures var a := stores[i];
            var k0, turns := KeysOf(SlotOf(states[0], a, n)), TurnsOf(states[0], stores, KeyName(a, n));
            && turns[i] == Some(RollsKey(SlotOf(states[0], a, n)))
            && (SlotOf(states[|stores|], a, n) == Clear(SlotOf(states[0], a, n)) <==>
                Play(k0, turns) == Turn(k0, k0, turns[i].value))
  {
    var a := stores[i];
    DataIsCleared(states, stores, i, n);
    KeysTakeTurns(states, stores, |stores|, a, n);
    assert stores[..|stores|] == stores;
    TurnOfName(states[0], a, n);
    ClearKeys(SlotOf(states[0], a, n));
    SameParts(SlotOf(states[|stores|], a, n), Clear(SlotOf(states[0], a, n)));
  }

  ghost predicate StoreCleared(fs: Fs, storeId: string, fs': Fs) {
    forall n <- Names(fs, storeId) :: SlotOf(fs', storeId, n) == Clear(SlotOf(fs, storeId, n))
  }

  /** Names of different stores that have a key file in common are compatible in the order of the stores. */
  ghost predicate AllCompatible(fs: Fs, stores: seq<string>) {
    forall i, j, n, m | 0 <= i < j < |stores| && n in Names(fs, stores[i]) && m in Names(fs, stores[j])
                        && KeyName(stores[i], n) == KeyName(stores[j], m) ::
      Compatible(SlotOf(fs, stores[i], n), SlotOf(fs, stores[j], m))
  }

  lemma CanPlayTurns(fs: Fs, stores: seq<string>, a: string, n: string)
    ensures CanPlay(KeysOf(SlotOf(fs, a, n)), TurnsOf(fs, stores, KeyName(a, n)))
  {
    var x := KeyName(a, n);
    var turns := TurnsOf(fs, stores, x);
    forall i | 0 <= i < |turns| && turns[i].Some? ensures CanTurn(KeysOf(SlotOf(fs, a, n)), turns[i].value) {
      var m :| m in Names(fs, stores[i]) && KeyName(stores[i], m) == x;
      TurnOfName(fs, stores[i], m);
      SharedKeys(fs, a, n, stores[i], m);
      RollsOrKeeps(SlotOf(fs, stores[i], m));
    }
  }

  lemma CompatibleIsInOrder(fs: Fs, stores: seq<string>, a: string, n: string)
    requires AllCompatible(fs, stores)
    ensures AllInOrder(KeysOf(SlotOf(fs, a, n)), TurnsOf(fs, stores, KeyName(a, n)))
  {
    var k0, x := KeysOf(SlotOf(fs, a, n)), KeyName(a, n);
    var turns := TurnsOf(fs, stores, x);
    forall i, j | 0 <= i < j < |turns| && turns[i].Some? && turns[j].Some?
      ensures InOrder(k0, turns[i].value, turns[j].value) {
      var n' :| n' in Names(fs, stores[i]) && KeyName(stores[i], n') == x;
      var m' :| m' in Names(fs, stores[j]) && KeyName(stores[j], m') == x;
      TurnOfName(fs, stores[i], n');
      TurnOfName(fs, stores[j], m');
      SharedKeys(fs, a, n, stores[i], n');
      assert Compatible(SlotOf(fs, stores[i], n'), SlotOf(fs, stores[j], m'));
    }
  }

  /** Recovering all stores by one listing recovers every name exactly when those that share key files are compatible. */
  lemma RecoversAllExactlyWhen(states: seq<Fs>, stores: seq<string>)
    requires InTurn(states, stores) && Distinct(stores)
    ensures (forall a <- stores :: StoreCleared(states[0], a, states[|stores|])) <==> AllCompatible(states[0], stores)
  {
    if AllCompatible(states[0], stores) {
      CompatibleRecovers(states, stores);
    }
    if forall a <- stores :: StoreCleared(states[0], a, states[|stores|]) {
      RecoveredIsCompatible(states, stores);
    }
  }

  lemma CompatibleRecovers(states: seq<Fs>, stores: seq<string>)
    requires InTurn(states, stores) && Distinct(stores) && AllCompatible(states[0], stores)
    ensures forall a <- stores :: StoreCleared(states[0], a, states[|stores|])
  {
    var fs := states[0];
    forall a <- stores ensures StoreCleared(fs, a, states[|stores|]) {
      var i :| 0 <= i < |stores| && stores[i] == a;
      forall n <- Names(fs, a) ensures SlotOf(states[|stores|], a, n) == Clear(SlotOf(fs, a, n)) {
        NameIsCleared(states, stores, i, n);
        CanPlayTurns(fs, stores, a, n);
        CompatibleIsInOrder(fs, stores, a, n);
        PlayInOrder(KeysOf(SlotOf(fs, a, n)), TurnsOf(fs, stores, KeyName(a, n)), i);
      }
    }
  }

  lemma RecoveredIsCompatible(states: seq<Fs>, stores: seq<string>)
    requires InTurn(states, stores) && Distinct(stores)
    requires forall a <- stores :: StoreCleared(states[0], a, states[|stores|])
    ensures AllCompatible(states[0], stores)
  {
    var fs := states[0];
    forall i, j, n, m | 0 <= i < j < |stores| && n in Names(fs, stores[i]) && m in Names(fs, stores[j])
                        && KeyName(stores[i], n) == KeyName(stores[j], m)
      ensures Compatible(SlotOf(fs, stores[i], n), SlotOf(fs, stores[j], m)) {
      var k0, turns := KeysOf(SlotOf(fs, stores[i], n)), TurnsOf(fs, stores, KeyName(stores[i], n));
      assert StoreCleared(fs, stores[i], states[|stores|]) && StoreCleared(fs, stores[j], states[|stores|]);
      NameIsCleared(states, stores, i, n);
      NameIsCleared(states, stores, j, m);
      SharedKeys(fs, stores[i], n, stores[j], m);
      CanPlayTurns(fs, stores, stores[i], n);
      if !InOrder(k0, turns[i].value, turns[j].value) {
        PlayOutOfOrder(k0, turns, i, j);
      }
    }
  }

  ghost predicate ConsideredByAny(fs: Fs, stores: seq<string>, p: Path) {
    exists a <- stores :: Considered(Names(fs, a), a, p)
  }

  /** Files that belong to no name of any store stay as they are. */
  lemma {:induction false} OthersStay(states: seq<Fs>, stores: seq<string>, i: nat, p: Path)
    requires InTurn(states, stores) && i <= |stores| && !ConsideredByAny(states[0], stores, p)
    ensures Agree(states[0], states[i], p)
    decreases i
  {
    if i > 0 {
      OthersStay(states, stores, i - 1, p);
      assert StaleRecovered(states[0], states[i - 1], stores[i - 1], states[i - 1 + 1]);
      assert stores[i - 1] in stores;
      assert Agree(states[i - 1], states[i], p);
    }
  }
}
