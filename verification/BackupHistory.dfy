/**
 One Backup after another, each interrupted anywhere and followed by a recovery.
 */
module BackupHistory {

  import opened ByteCodes
  import opened Options
  import opened BackupSlot
  import opened BackupCrash

  /** The files Backup writes are not empty once they are finished. */
  predicate NotEmpty(p: Plan)
    requires p.Valid()
  {
    p.exportOk ==>
      && p.exported[|p.exported| - 1] != []
      && (p.encrypted && p.target == Key ==> p.saved[|p.saved| - 1] != [])
  }

  function SettledAfter(encrypted: bool): Slot -> bool {
    s => Settled(Clear(s), encrypted)
  }

  lemma GoodIsSettled(s: Slot, p: Plan)
    requires p.Valid() && Settled(s, p.encrypted) && NotEmpty(p)
    ensures forall t: Slot | Good(s, p)(t) :: SettledAfter(p.encrypted)(t)
  {
  }

  lemma BesideOldIsSettled(s: Slot, p: Plan, c: Bytes)
    requires Settled(s, true) && p.encrypted && p.exported != []
    ensures SettledAfter(true)(Exported(s, p)[KeyV1 := c])
    ensures SettledAfter(true)(Exported(s, p)[KeyV1 := c] - {KeyTmp})
  {
    SavedBesideOld(s, p, c);
    MixedPair(s, c);
  }

  lemma {:induction false} SafeFinishV1(ok: Slot -> bool, s: Slot, p: Plan)
    requires p.Valid() && Settled(s, p.encrypted) && p.exportOk && p.encrypted && p.target == KeyV1
    requires var x := Exported(s, p);
             && ok(x) && ok(NewSlot(p))
             && (forall c <- p.saved :: ok(x[KeyV1 := c])) && ok(x[KeyV1 := p.saved[|p.saved| - 1]] - {KeyTmp})
    ensures SafeAlong(ok, Exported(s, p), Finish(p, IsCreate(s)))
  {
    var x, last := Exported(s, p), p.saved[|p.saved| - 1];
    var w, d := Writes(KeyV1, p.saved), [Delete(KeyTmp), Delete(DataTmp)];
    SafeWrites(ok, x, KeyV1, p.saved);
    ExecWrites(x, KeyV1, p.saved);
    CleanedUp(s, p);
    assert last in p.saved;
    SafeTwo(ok, x[KeyV1 := last], Delete(KeyTmp), Delete(DataTmp));
    SafeAppend(ok, x, w, d);
    assert Finish(p, IsCreate(s)) == w + d;
  }

  lemma NewIsSettled(p: Plan)
    requires p.Valid() && NotEmpty(p) && p.exportOk
    ensures Settled(NewSlot(p), p.encrypted)
  {
  }

  lemma SettledIsSettledAfter(s: Slot, encrypted: bool)
    requires Settled(s, encrypted)
    ensures SettledAfter(encrypted)(s)
  {
    assert Clear(s) == s;
  }

  lemma {:induction false} FinishV1Settles(s: Slot, p: Plan)
    requires p.Valid() && Settled(s, p.encrypted) && NotEmpty(p) && p.exportOk && p.encrypted && p.target == KeyV1
    ensures SafeAlong(SettledAfter(true), Exported(s, p), Finish(p, IsCreate(s)))
  {
    forall c <- p.saved ensures SettledAfter(true)(Exported(s, p)[KeyV1 := c]) {
      BesideOldIsSettled(s, p, c);
    }
    BesideOldIsSettled(s, p, p.saved[|p.saved| - 1]);
    assert SettledAfter(true)(Exported(s, p)) by { ClearsExported(s, p); }
    NewIsSettled(p);
    SettledIsSettledAfter(NewSlot(p), true);
    SafeFinishV1(SettledAfter(true), s, p);
  }

  /** Wherever a Backup is interrupted, recovery leaves files the next Backup can begin with, whichever file the key goes to. */
  lemma {:induction false} RecoverySettles(s: Slot, p: Plan)
    requires p.Valid() && Settled(s, p.encrypted) && NotEmpty(p)
    requires p.exportOk && p.encrypted && p.target == Key ==> KeyV1 !in s
    ensures forall i | 0 <= i <= |BackupSteps(s, p)| :: Settled(Clear(Exec(s, BackupSteps(s, p)[..i])), p.encrypted)
  {
    var ok := SettledAfter(p.encrypted);
    GoodIsSettled(s, p);
    if p.exportOk && p.encrypted && p.target == KeyV1 {
      FinishV1Settles(s, p);
    } else {
      FinishIsSafe(s, p);
      SafeWeaker(Good(s, p), ok, Exported(s, p), Finish(p, IsCreate(s)));
    }
    SafeSteps(ok, s, p);
    SafeIsEveryPrefix(ok, s, BackupSteps(s, p));
    forall i | 0 <= i <= |BackupSteps(s, p)| ensures Settled(Clear(Exec(s, BackupSteps(s, p)[..i])), p.encrypted) {
      assert ok(Exec(s, BackupSteps(s, p)[..i]));
    }
  }

  /** A Backup that gets as far as `crash` steps, or to its end, and the recovery at the next start. */
  datatype Round = Round(plan: Plan, crash: nat)

  function AfterRound(s: Slot, r: Round): Slot {
    var ops := BackupSteps(s, r.plan);
    Clear(Exec(s, ops[..if r.crash < |ops| then r.crash else |ops|]))
  }

  function AfterRounds(s: Slot, rounds: seq<Round>): Slot
    decreases |rounds|
  {
    if rounds == [] then s else AfterRounds(AfterRound(s, rounds[0]), rounds[1..])
  }

  predicate Wellformed(r: Round, encrypted: bool) {
    r.plan.Valid() && r.plan.encrypted == encrypted && NotEmpty(r.plan) && r.plan.target == Key
  }

  /** These are the files the Backup of this round would finish with. */
  predicate Finishes(r: Round, s: Slot) {
    r.plan.Valid() && r.plan.exportOk && s == NewSlot(r.plan)
  }

  lemma RoundIsAtomic(s: Slot, r: Round, encrypted: bool)
    requires Wellformed(r, encrypted) && Settled(s, encrypted) && KeyV1 !in s
    ensures Settled(AfterRound(s, r), encrypted) && KeyV1 !in AfterRound(s, r)
    ensures AfterRound(s, r) == s || Finishes(r, AfterRound(s, r))
  {
    var ops := BackupSteps(s, r.plan);
    var i := if r.crash < |ops| then r.crash else |ops|;
    KeyFileIsCrashAtomic(s, r.plan);
    assert Restores(s, r.plan, Exec(s, ops[..i]));
  }

  /**
   However many Backups are made of a name and wherever each is interrupted, with keys in `.key`: its files are
   those it had at first, or those one of the Backups finished.
   */
  lemma {:induction false} KeyHistoryIsAtomic(s: Slot, rounds: seq<Round>, encrypted: bool)
    requires Settled(s, encrypted) && KeyV1 !in s && forall r <- rounds :: Wellformed(r, encrypted)
    ensures var t := AfterRounds(s, rounds);
            && Settled(t, encrypted)
            && (t == s || exists r <- rounds :: Finishes(r, t))
    decreases |rounds|
  {
    if rounds != [] {
      var r, rest := rounds[0], rounds[1..];
      assert r in rounds && forall q <- rest :: q in rounds;
      RoundIsAtomic(s, r, encrypted);
      KeyHistoryIsAtomic(AfterRound(s, r), rest, encrypted);
    }
  }

  /** Every round is of a store of this kind, and crash-atomic in the state it begins in; its key goes to either file. */
  predicate CoveredAlong(s: Slot, rounds: seq<Round>, encrypted: bool)
    decreases |rounds|
  {
    rounds != [] ==>
      var p := rounds[0].plan;
      && p.Valid() && p.encrypted == encrypted && NotEmpty(p) && Covered(s, p)
      && CoveredAlong(AfterRound(s, rounds[0]), rounds[1..], encrypted)
  }

  /** This is the pair the Backup of this round would finish with. */
  predicate FinishesPair(r: Round, view: Option<(Bytes, Option<Bytes>)>) {
    r.plan.Valid() && r.plan.exportOk && view == Finished(r.plan)
  }

  lemma RoundIsCovered(s: Slot, r: Round)
    requires r.plan.Valid() && NotEmpty(r.plan) && Settled(s, r.plan.encrypted) && Covered(s, r.plan)
    ensures Settled(AfterRound(s, r), r.plan.encrypted)
    ensures View(AfterRound(s, r)) == View(s) || FinishesPair(r, View(AfterRound(s, r)))
  {
    var ops := BackupSteps(s, r.plan);
    var i := if r.crash < |ops| then r.crash else |ops|;
    BackupIsCrashAtomic(s, r.plan);
    RecoverySettles(s, r.plan);
    assert Sees(View, s, r.plan, Exec(s, ops[..i]));
    assert Settled(Clear(Exec(s, ops[..i])), r.plan.encrypted);
    if r.plan.exportOk { FinishedView(r.plan); }
  }

  /**
   However many Backups are made of a name, whichever file their keys go to, and wherever each is interrupted: as
   long as each is crash-atomic in the state it begins in, the restorable pair is the one there was at first or one
   that a Backup finished.
   */
  lemma {:induction false} EveryHistoryIsAtomic(s: Slot, rounds: seq<Round>, encrypted: bool)
    requires Settled(s, encrypted) && CoveredAlong(s, rounds, encrypted)
    ensures var t := AfterRounds(s, rounds);
            && Settled(t, encrypted)
            && (View(t) == View(s) || exists r <- rounds :: FinishesPair(r, View(t)))
    decreases |rounds|
  {
    if rounds != [] {
      var r, rest := rounds[0], rounds[1..];
      assert r in rounds && forall q <- rest :: q in rounds;
      RoundIsCovered(s, r);
      EveryHistoryIsAtomic(AfterRound(s, r), rest, encrypted);
    }
  }

  /**
   The result of SaveDBPassword is not looked at: when it stores nothing, the old `.key` file goes all the same,
   and the new backup is left with an old `.key_v1` file or with no key at all.
   */
  lemma {:induction false} UnsavedKeyIsLost(s: Slot, p: Plan)
    requires Settled(s, true) && p.encrypted && p.exportOk && p.exported != [] && p.saved == []
    ensures Exec(s, BackupSteps(s, p)) == (s - {Key})[Data := p.exported[|p.exported| - 1]]
  {
    var a, d := Prepare(p, IsCreate(s)) + Writes(Data, p.exported), [Delete(KeyTmp), Delete(DataTmp)];
    ExecUpToExport(s, p);
    assert Finish(p, IsCreate(s)) == d;
    ExecAppend(s, a, d);
    ExecTwo(Exported(s, p), Delete(KeyTmp), Delete(DataTmp));
    SameSlot(Exported(s, p) - {KeyTmp} - {DataTmp}, (s - {Key})[Data := p.exported[|p.exported| - 1]]);
  }
}
