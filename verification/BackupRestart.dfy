/**
 A recovery that is itself interrupted and run again at the next start.
 */
module BackupRestart {

  import opened ByteCodes
  import opened Options
  import opened BackupSlot

  /** Interrupted anywhere and run again, recovery ends with the files an uninterrupted one leaves. */
  predicate Restartable(s: Slot) {
    var ops := ClearOps(Residue(s));
    forall i | 0 <= i <= |ops| :: Clear(Exec(s, ops[..i])) == Clear(s)
  }

  /** It ends with the same restorable pair. */
  predicate KeepsPair(s: Slot) {
    var ops := ClearOps(Residue(s));
    forall i | 0 <= i <= |ops| :: View(Clear(Exec(s, ops[..i]))) == View(Clear(s))
  }

  /**
   A full rollback with a key to be replaced: interrupted between the two files it leaves raw = 2, tmp = 1, which
   the next start cleans up.
   */
  predicate Torn(s: Slot) {
    && Key in s && KeyTmp in s && DataTmp in s && s[DataTmp] != []
    && (s[KeyTmp] == [] || s[KeyTmp] != s[Key])
  }

  function SameFiles(s: Slot): Slot -> bool {
    t => Clear(t) == Clear(s)
  }

  function SamePair(s: Slot): Slot -> bool {
    t => View(Clear(t)) == View(Clear(s))
  }

  // ---- The states recovery passes through ----

  /** Clearing a name that has been rolled back half way finishes the rollback, but for the key of a torn one. */
  lemma HalfRolledBack(s: Slot)
    requires DataTmp in s && KeyTmp in s
    ensures Clear(s - {Data}) == Clear(s)
    ensures Clear(RolledBack(s, Data, DataTmp)) == Clear(s) <==> !Torn(s)
  {
    var r := RolledBack(s, Data, DataTmp);
    assert RolledBack(s - {Data}, Data, DataTmp) == r;
    assert Clear(s) == RolledBack(r, Key, KeyTmp);
    if Key in s && s[DataTmp] != [] {
      assert Clear(r) == r - {DataTmp, KeyTmp};
      if Torn(s) {
        assert Key in Clear(r) && Clear(r)[Key] == s[Key];
      } else {
        SameSlot(Clear(r), Clear(s));
      }
    } else {
      SameSlot(Clear(r), Clear(s));
    }
  }

  lemma LastRolledBack(r: Slot)
    requires DataTmp !in r && KeyTmp in r
    ensures Clear(RolledBack(r, Key, KeyTmp)) == RolledBack(r, Key, KeyTmp)
    ensures Clear(r - {Key}) == RolledBack(r, Key, KeyTmp)
  {
    assert RolledBack(r - {Key}, Key, KeyTmp) == RolledBack(r, Key, KeyTmp);
  }

  lemma TornPair(s: Slot)
    requires Torn(s)
    ensures View(Clear(RolledBack(s, Data, DataTmp))) == View(Clear(s)) <==> KeyV1 in s
  {
    var r := RolledBack(s, Data, DataTmp);
    assert Clear(s) == RolledBack(r, Key, KeyTmp);
    assert Clear(r) == r - {DataTmp, KeyTmp};
  }

  lemma OneRolledBack(s: Slot)
    ensures ChooseClear(Residue(s)) == RollbackData ==>
              Clear(s - {Data}) == Clear(s) && Clear(RolledBack(s, Data, DataTmp)) == Clear(s)
    ensures ChooseClear(Residue(s)) == RollbackKey ==>
              Clear(s - {Key}) == Clear(s) && Clear(RolledBack(s, Key, KeyTmp)) == Clear(s)
  {
    if DataTmp in s { assert RolledBack(s - {Data}, Data, DataTmp) == RolledBack(s, Data, DataTmp); }
    if KeyTmp in s { assert RolledBack(s - {Key}, Key, KeyTmp) == RolledBack(s, Key, KeyTmp); }
  }

  lemma OneCleaned(s: Slot)
    requires ChooseClear(Residue(s)) == CleanTmp
    ensures Clear(s - {DataTmp}) == Clear(s) && Clear(s - {DataTmp} - {KeyTmp}) == Clear(s)
  {
    assert s - {DataTmp} - {KeyTmp} == s - {DataTmp, KeyTmp};
  }

  // ---- What has to hold of them ----

  /** `ok` of every state but the one between the two files of a full rollback. */
  predicate OkOutside(ok: Slot -> bool, s: Slot) {
    && ok(s)
    && match ChooseClear(Residue(s))
       case DoNothing => true
       case RollbackData => ok(s - {Data}) && ok(RolledBack(s, Data, DataTmp))
       case RollbackKey => ok(s - {Key}) && ok(RolledBack(s, Key, KeyTmp))
       case Rollback =>
         var r := RolledBack(s, Data, DataTmp);
         ok(s - {Data}) && ok(r - {Key}) && ok(RolledBack(r, Key, KeyTmp))
       case CleanTmp => ok(s - {DataTmp}) && ok(s - {DataTmp} - {KeyTmp})
  }

  lemma {:induction false} SafeFullRollback(ok: Slot -> bool, s: Slot)
    requires DataTmp in s && KeyTmp in s && ok(s) && ok(s - {Data})
    requires var r := RolledBack(s, Data, DataTmp); ok(r - {Key}) && ok(RolledBack(r, Key, KeyTmp))
    ensures SafeAlong(ok, s, RollBackOps(Data, DataTmp, s[DataTmp] == []) + RollBackOps(Key, KeyTmp, s[KeyTmp] == []))
            <==> ok(RolledBack(s, Data, DataTmp))
  {
    var r := RolledBack(s, Data, DataTmp);
    var a, b := RollBackOps(Data, DataTmp, s[DataTmp] == []), RollBackOps(Key, KeyTmp, s[KeyTmp] == []);
    ExecRollBack(s, Data, DataTmp, s[DataTmp] == []);
    SafeAppend(ok, s, a, b);
    if ok(r) {
      SafeRollBack(ok, s, Data, DataTmp, s[DataTmp] == []);
      SafeRollBack(ok, r, Key, KeyTmp, s[KeyTmp] == []);
    }
  }

  lemma {:induction false} SafePartRollback(ok: Slot -> bool, s: Slot)
    requires ChooseClear(Residue(s)) == RollbackData || ChooseClear(Residue(s)) == RollbackKey
    requires OkOutside(ok, s)
    ensures SafeAlong(ok, s, ClearOps(Residue(s)))
  {
    if ChooseClear(Residue(s)) == RollbackData {
      SafeRollBack(ok, s, Data, DataTmp, s[DataTmp] == []);
    } else {
      SafeRollBack(ok, s, Key, KeyTmp, s[KeyTmp] == []);
    }
  }

  lemma {:induction false} SafeClean(ok: Slot -> bool, s: Slot)
    requires ChooseClear(Residue(s)) == CleanTmp && OkOutside(ok, s)
    ensures SafeAlong(ok, s, ClearOps(Residue(s)))
  {
    SafeTwo(ok, s, Delete(DataTmp), Delete(KeyTmp));
  }

  /** Recovery is safe exactly when it is between the two files of a full rollback. */
  lemma {:induction false} SafeClear(ok: Slot -> bool, s: Slot)
    requires OkOutside(ok, s)
    ensures SafeAlong(ok, s, ClearOps(Residue(s))) <==>
            (ChooseClear(Residue(s)) == Rollback ==> ok(RolledBack(s, Data, DataTmp)))
  {
    match ChooseClear(Residue(s))
    case DoNothing =>
    case Rollback => SafeFullRollback(ok, s);
    case CleanTmp => SafeClean(ok, s);
    case _ => SafePartRollback(ok, s);
  }

  lemma SameFilesOutside(s: Slot)
    ensures OkOutside(SameFiles(s), s)
  {
    match ChooseClear(Residue(s))
    case Rollback =>
      HalfRolledBack(s);
      LastRolledBack(RolledBack(s, Data, DataTmp));
    case CleanTmp => OneCleaned(s);
    case _ => OneRolledBack(s);
  }

  lemma SamePairOutside(s: Slot)
    requires OkOutside(SameFiles(s), s)
    ensures OkOutside(SamePair(s), s)
  {
  }

  /** Of all file states, exactly the torn ones do not survive an interrupted recovery; with a newer key file, only the old key differs. */
  lemma {:induction false} RestartableExactlyWhen(s: Slot)
    ensures Restartable(s) <==> !Torn(s)
    ensures KeepsPair(s) <==> !(Torn(s) && KeyV1 !in s)
  {
    FilesExactlyWhen(s);
    PairExactlyWhen(s);
  }

  lemma {:induction false} FilesExactlyWhen(s: Slot)
    ensures Restartable(s) <==> !Torn(s)
  {
    var ops := ClearOps(Residue(s));
    SameFilesOutside(s);
    SafeClear(SameFiles(s), s);
    SafeIsEveryPrefix(SameFiles(s), s, ops);
    assert Restartable(s) <==> forall i | 0 <= i <= |ops| :: SameFiles(s)(Exec(s, ops[..i]));
    if ChooseClear(Residue(s)) == Rollback {
      HalfRolledBack(s);
    }
  }

  lemma {:induction false} KeepsPairIsSafe(s: Slot)
    ensures KeepsPair(s) <==> SafeAlong(SamePair(s), s, ClearOps(Residue(s)))
  {
    var ops := ClearOps(Residue(s));
    SafeIsEveryPrefix(SamePair(s), s, ops);
    assert KeepsPair(s) <==> forall i | 0 <= i <= |ops| :: SamePair(s)(Exec(s, ops[..i]));
  }

  lemma PairBetween(s: Slot)
    requires DataTmp in s && KeyTmp in s
    ensures SamePair(s)(RolledBack(s, Data, DataTmp)) <==> !(Torn(s) && KeyV1 !in s)
  {
    HalfRolledBack(s);
    if Torn(s) { TornPair(s); }
  }

  lemma {:induction false} PairExactlyWhen(s: Slot)
    ensures KeepsPair(s) <==> !(Torn(s) && KeyV1 !in s)
  {
    KeepsPairIsSafe(s);
    SameFilesOutside(s);
    SamePairOutside(s);
    SafeClear(SamePair(s), s);
    if ChooseClear(Residue(s)) == Rollback {
      PairBetween(s);
    }
  }
}
