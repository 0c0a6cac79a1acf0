/**
 Crash atomicity of one Backup: every crash point, followed by one recovery, leaves the old files or the finished
 new ones, or what looks like them to a Restore.
 */
module BackupCrash {

  import opened ByteCodes
  import opened Options
  import opened BackupSlot

  /** The slot once Backup has set the old files aside: `.bk` copies, or empty `.bk` markers for a first backup. */
  function Kept(s: Slot, p: Plan): Slot {
    var k := SetAside(s, Data, DataTmp, IsCreate(s));
    if p.encrypted then SetAside(k, Key, KeyTmp, IsCreate(s)) else k
  }

  /** The slot after the export: the backup file holds whatever was written last, if anything was. */
  function Exported(s: Slot, p: Plan): Slot {
    var k := Kept(s, p);
    if p.exported == [] then k else k[Data := p.exported[|p.exported| - 1]]
  }

  // What recovery makes of the states Backup passes through up to the end of the export.

  lemma ClearsAside(s: Slot, encrypted: bool)
    requires Settled(s, encrypted)
    ensures Clear(SetAside(s, Data, DataTmp, IsCreate(s))) == s
    ensures Clear(s) == s
  {
    SameSlot(Clear(SetAside(s, Data, DataTmp, IsCreate(s))), s);
  }

  lemma ClearsKeyAside(s: Slot, encrypted: bool)
    requires Settled(s, encrypted)
    ensures Clear(SetAside(s, Key, KeyTmp, IsCreate(s))) == s
  {
    SameSlot(Clear(SetAside(s, Key, KeyTmp, IsCreate(s))), s);
  }

  lemma ClearsKept(s: Slot, p: Plan)
    requires Settled(s, p.encrypted)
    ensures Clear(Kept(s, p)) == s
  {
    if p.encrypted {
      SameSlot(Clear(Kept(s, p)), s);
    } else {
      ClearsAside(s, false);
    }
  }

  lemma ClearsExport(s: Slot, p: Plan, c: Bytes)
    requires Settled(s, p.encrypted)
    ensures Clear(Kept(s, p)[Data := c]) == s
  {
    SameSlot(Clear(Kept(s, p)[Data := c]), s);
  }

  lemma ClearsExported(s: Slot, p: Plan)
    requires Settled(s, p.encrypted)
    ensures Clear(Exported(s, p)) == s
  {
    if p.exported == [] {
      ClearsKept(s, p);
    } else {
      ClearsExport(s, p, p.exported[|p.exported| - 1]);
    }
  }

  lemma {:induction false} SafePrepare(ok: Slot -> bool, s: Slot, p: Plan)
    requires DataTmp !in s && KeyTmp !in s
    requires ok(s) && ok(SetAside(s, Data, DataTmp, IsCreate(s))) && ok(Kept(s, p))
    ensures Exec(s, Prepare(p, IsCreate(s))) == Kept(s, p)
    ensures SafeAlong(ok, s, Prepare(p, IsCreate(s)))
  {
    var isCreate := IsCreate(s);
    var a, b := KeepOps(Data, DataTmp, isCreate), KeepOps(Key, KeyTmp, isCreate);
    var k := SetAside(s, Data, DataTmp, isCreate);
    ExecAppend(s, a, b);
    ExecKeep(s, Data, DataTmp, isCreate);
    ExecKeep(k, Key, KeyTmp, isCreate);
    SafeAppend(ok, s, a, b);
    SafeKeep(ok, s, Data, DataTmp, isCreate);
    if p.encrypted {
      SafeKeep(ok, k, Key, KeyTmp, isCreate);
    } else {
      assert Prepare(p, isCreate) == a;
    }
  }

  lemma {:induction false} PrepareIsSafe(s: Slot, p: Plan)
    requires Settled(s, p.encrypted)
    ensures Exec(s, Prepare(p, IsCreate(s))) == Kept(s, p)
    ensures SafeAlong(Good(s, p), s, Prepare(p, IsCreate(s)))
  {
    ClearsAside(s, p.encrypted);
    ClearsKept(s, p);
    SafePrepare(Good(s, p), s, p);
  }

  lemma {:induction false} ExportIsSafe(s: Slot, p: Plan)
    requires Settled(s, p.encrypted)
    ensures SafeAlong(Good(s, p), Kept(s, p), Writes(Data, p.exported))
  {
    var k := Kept(s, p);
    ClearsKept(s, p);
    forall c <- p.exported ensures Good(s, p)(k[Data := c]) {
      ClearsExport(s, p, c);
    }
    SafeWrites(Good(s, p), k, Data, p.exported);
  }

  // Undoing a failed export.

  lemma DataUndone(s: Slot, p: Plan)
    requires Settled(s, p.encrypted)
    ensures Exported(s, p) - {Data} == Kept(s, p)
    ensures Undone(Exported(s, p), Data, DataTmp, IsCreate(s)) == if p.encrypted then SetAside(s, Key, KeyTmp, IsCreate(s)) else s
  {
    var r := Undone(Exported(s, p), Data, DataTmp, IsCreate(s));
    assert Exported(s, p) - {Data} == Kept(s, p);
    SameSlot(r, if p.encrypted then SetAside(s, Key, KeyTmp, IsCreate(s)) else s);
  }

  lemma KeyUndone(s: Slot, p: Plan)
    requires Settled(s, p.encrypted)
    ensures var r := SetAside(s, Key, KeyTmp, IsCreate(s));
            r - {Key} == r && Undone(r, Key, KeyTmp, IsCreate(s)) == s
  {
    var r := SetAside(s, Key, KeyTmp, IsCreate(s));
    assert r - {Key} == r;
    SameSlot(Undone(r, Key, KeyTmp, IsCreate(s)), s);
  }

  lemma {:induction false} DataUndoIsSafe(ok: Slot -> bool, s: Slot, p: Plan)
    requires Settled(s, p.encrypted)
    requires ok(s) && ok(Kept(s, p)) && ok(Exported(s, p)) && (p.encrypted ==> ok(SetAside(s, Key, KeyTmp, IsCreate(s))))
    ensures SafeAlong(ok, Exported(s, p), RollBackOps(Data, DataTmp, IsCreate(s)))
  {
    DataUndone(s, p);
    SafeRollBack(ok, Exported(s, p), Data, DataTmp, IsCreate(s));
  }

  lemma {:induction false} KeyUndoIsSafe(ok: Slot -> bool, s: Slot, p: Plan)
    requires Settled(s, p.encrypted) && ok(s) && ok(SetAside(s, Key, KeyTmp, IsCreate(s)))
    ensures SafeAlong(ok, SetAside(s, Key, KeyTmp, IsCreate(s)), RollBackOps(Key, KeyTmp, IsCreate(s)))
  {
    KeyUndone(s, p);
    SafeRollBack(ok, SetAside(s, Key, KeyTmp, IsCreate(s)), Key, KeyTmp, IsCreate(s));
  }

  lemma {:induction false} UndoIsSafe(ok: Slot -> bool, s: Slot, p: Plan)
    requires Settled(s, p.encrypted) && !p.exportOk
    requires ok(s) && ok(Kept(s, p)) && ok(Exported(s, p)) && (p.encrypted ==> ok(SetAside(s, Key, KeyTmp, IsCreate(s))))
    ensures SafeAlong(ok, Exported(s, p), Finish(p, IsCreate(s)))
    ensures Exec(Exported(s, p), Finish(p, IsCreate(s))) == s
  {
    var isCreate := IsCreate(s);
    var x := Exported(s, p);
    var a, b := RollBackOps(Data, DataTmp, isCreate), RollBackOps(Key, KeyTmp, isCreate);
    DataUndoIsSafe(ok, s, p);
    DataUndone(s, p);
    ExecRollBack(x, Data, DataTmp, isCreate);
    if p.encrypted {
      KeyUndoIsSafe(ok, s, p);
      KeyUndone(s, p);
      ExecRollBack(SetAside(s, Key, KeyTmp, isCreate), Key, KeyTmp, isCreate);
      SafeAppend(ok, x, a, b);
      ExecAppend(x, a, b);
    } else {
      assert Finish(p, isCreate) == a;
    }
  }

  /** Undoing a failed export restores the slot it started from, exactly. */
  lemma {:induction false} FailureIsSafe(s: Slot, p: Plan)
    requires Settled(s, p.encrypted) && !p.exportOk
    ensures SafeAlong(Good(s, p), Exported(s, p), Finish(p, IsCreate(s)))
    ensures Exec(Exported(s, p), Finish(p, IsCreate(s))) == s
  {
    ClearsAside(s, p.encrypted);
    ClearsKept(s, p);
    ClearsExported(s, p);
    ClearsKeyAside(s, p.encrypted);
    UndoIsSafe(Good(s, p), s, p);
  }

  /** What is left once the key is stored and the `.bk` files are deleted. */
  lemma CleanedUp(s: Slot, p: Plan)
    requires p.Valid() && Settled(s, p.encrypted) && p.exportOk
    requires p.encrypted && p.target == Key ==> KeyV1 !in s
    ensures var x := Exported(s, p);
            if p.encrypted then x[p.target := p.saved[|p.saved| - 1]] - {KeyTmp} - {DataTmp} == NewSlot(p)
            else x - {DataTmp} == NewSlot(p)
  {
    var x := Exported(s, p);
    if p.encrypted {
      SameSlot(x[p.target := p.saved[|p.saved| - 1]] - {KeyTmp} - {DataTmp}, NewSlot(p));
    } else {
      SameSlot(x - {DataTmp}, NewSlot(p));
    }
  }

  // Storing the key and deleting the `.bk` files, when the key goes to the file the recovery looks at.

  lemma ClearsSaved(s: Slot, p: Plan, c: Bytes)
    requires Settled(s, p.encrypted) && p.encrypted && p.exported != [] && KeyV1 !in s
    ensures Clear(Exported(s, p)[Key := c]) == s
  {
    SameSlot(Clear(Exported(s, p)[Key := c]), s);
  }

  lemma ClearsNew(s: Slot, p: Plan)
    requires p.Valid() && Settled(s, p.encrypted) && p.exportOk && p.encrypted && p.target == Key && KeyV1 !in s
    ensures var y := Exported(s, p)[Key := p.saved[|p.saved| - 1]];
            Clear(y - {KeyTmp}) == NewSlot(p) && Clear(NewSlot(p)) == NewSlot(p)
  {
    var y := Exported(s, p)[Key := p.saved[|p.saved| - 1]];
    SameSlot(Clear(y - {KeyTmp}), NewSlot(p));
  }

  lemma {:induction false} SaveToKeyIsSafe(s: Slot, p: Plan)
    requires p.Valid() && Settled(s, p.encrypted) && p.exportOk && p.encrypted && p.target == Key && KeyV1 !in s
    ensures SafeAlong(Good(s, p), Exported(s, p), Writes(Key, p.saved))
  {
    var x := Exported(s, p);
    ClearsExported(s, p);
    forall c <- p.saved ensures Good(s, p)(x[Key := c]) {
      ClearsSaved(s, p, c);
    }
    SafeWrites(Good(s, p), x, Key, p.saved);
  }

  lemma {:induction false} CleanIsSafe(s: Slot, p: Plan)
    requires p.Valid() && Settled(s, p.encrypted) && p.exportOk && p.encrypted && p.target == Key && KeyV1 !in s
    ensures var y := Exported(s, p)[Key := p.saved[|p.saved| - 1]];
            SafeAlong(Good(s, p), y, [Delete(KeyTmp), Delete(DataTmp)])
  {
    var last := p.saved[|p.saved| - 1];
    ClearsSaved(s, p, last);
    ClearsNew(s, p);
    CleanedUp(s, p);
    SafeTwo(Good(s, p), Exported(s, p)[Key := last], Delete(KeyTmp), Delete(DataTmp));
  }

  lemma {:induction false} PlainCleanIsSafe(s: Slot, p: Plan)
    requires p.Valid() && Settled(s, p.encrypted) && p.exportOk && !p.encrypted
    ensures SafeAlong(Good(s, p), Exported(s, p), Finish(p, IsCreate(s)))
  {
    ClearsExported(s, p);
    CleanedUp(s, p);
    SafeOne(Good(s, p), Exported(s, p), Delete(DataTmp));
    assert Finish(p, IsCreate(s)) == [Delete(DataTmp)];
  }

  lemma {:induction false} SuccessIsSafe(s: Slot, p: Plan)
    requires p.Valid() && Settled(s, p.encrypted) && p.exportOk && p.encrypted && p.target == Key && KeyV1 !in s
    ensures SafeAlong(Good(s, p), Exported(s, p), Finish(p, IsCreate(s)))
  {
    var x := Exported(s, p);
    var w, d := Writes(Key, p.saved), [Delete(KeyTmp), Delete(DataTmp)];
    SaveToKeyIsSafe(s, p);
    CleanIsSafe(s, p);
    ExecWrites(x, Key, p.saved);
    SafeAppend(Good(s, p), x, w, d);
    assert Finish(p, IsCreate(s)) == w + d;
  }

  /** A Backup that is not interrupted ends with the finished new files. */
  lemma {:induction false} SuccessEnds(s: Slot, p: Plan)
    requires p.Valid() && Settled(s, p.encrypted) && p.exportOk
    requires p.encrypted && p.target == Key ==> KeyV1 !in s
    ensures Exec(Exported(s, p), Finish(p, IsCreate(s))) == NewSlot(p)
  {
    var x := Exported(s, p);
    CleanedUp(s, p);
    if p.encrypted {
      var y := x[p.target := p.saved[|p.saved| - 1]];
      var w, d := Writes(p.target, p.saved), [Delete(KeyTmp), Delete(DataTmp)];
      ExecWrites(x, p.target, p.saved);
      ExecAppend(x, w, d);
      ExecTwo(y, Delete(KeyTmp), Delete(DataTmp));
      assert Finish(p, IsCreate(s)) == w + d;
    } else {
      ExecOne(x, Delete(DataTmp));
      assert Finish(p, IsCreate(s)) == [Delete(DataTmp)];
    }
  }

  lemma {:induction false} ExecUpToExport(s: Slot, p: Plan)
    requires Settled(s, p.encrypted)
    ensures Exec(s, Prepare(p, IsCreate(s)) + Writes(Data, p.exported)) == Exported(s, p)
    ensures SafeAlong(Good(s, p), s, Prepare(p, IsCreate(s)) + Writes(Data, p.exported))
  {
    var a, b := Prepare(p, IsCreate(s)), Writes(Data, p.exported);
    PrepareIsSafe(s, p);
    ExportIsSafe(s, p);
    ExecWrites(Kept(s, p), Data, p.exported);
    SafeAppend(Good(s, p), s, a, b);
    ExecAppend(s, a, b);
  }

  /** Whatever is weaker than recovering the old or the new files: only the steps after the export can break it. */
  lemma {:induction false} SafeSteps(ok: Slot -> bool, s: Slot, p: Plan)
    requires p.Valid() && Settled(s, p.encrypted) && forall t: Slot | Good(s, p)(t) :: ok(t)
    ensures SafeAlong(ok, s, BackupSteps(s, p)) <==> SafeAlong(ok, Exported(s, p), Finish(p, IsCreate(s)))
    ensures Exec(s, BackupSteps(s, p)) == Exec(Exported(s, p), Finish(p, IsCreate(s)))
  {
    var a, c := Prepare(p, IsCreate(s)) + Writes(Data, p.exported), Finish(p, IsCreate(s));
    ExecUpToExport(s, p);
    SafeWeaker(Good(s, p), ok, s, a);
    SafeAppend(ok, s, a, c);
    ExecAppend(s, a, c);
  }

  lemma GoodIsGoodView<T>(view: Slot -> T, s: Slot, p: Plan)
    ensures forall t: Slot | Good(s, p)(t) :: GoodView(view, s, p)(t)
  {
  }

  lemma {:induction false} AtomicIsSafe<T>(view: Slot -> T, s: Slot, p: Plan)
    requires p.Valid() && Settled(s, p.encrypted)
    ensures AtomicFor(view, s, p) <==> SafeAlong(GoodView(view, s, p), Exported(s, p), Finish(p, IsCreate(s)))
  {
    GoodIsGoodView(view, s, p);
    SafeSteps(GoodView(view, s, p), s, p);
    SafeIsEveryPrefix(GoodView(view, s, p), s, BackupSteps(s, p));
  }

  lemma {:induction false} FinishIsSafe(s: Slot, p: Plan)
    requires p.Valid() && Settled(s, p.encrypted)
    requires p.exportOk && p.encrypted ==> p.target == Key && KeyV1 !in s
    ensures SafeAlong(Good(s, p), Exported(s, p), Finish(p, IsCreate(s)))
  {
    if !p.exportOk {
      FailureIsSafe(s, p);
    } else if p.encrypted {
      SuccessIsSafe(s, p);
    } else {
      PlainCleanIsSafe(s, p);
    }
  }

  /**
   With the key stored in the `.key` file, as the step table above GetClearType has it: whatever the
   crash point, whatever was half written, one recovery leaves the old files or the finished new ones.
   The same holds wherever the key would go when there is none to store.
   */
  lemma {:induction false} KeyFileIsCrashAtomic(s: Slot, p: Plan)
    requires p.Valid() && Settled(s, p.encrypted)
    requires p.exportOk && p.encrypted ==> p.target == Key && KeyV1 !in s
    ensures forall i | 0 <= i <= |BackupSteps(s, p)| :: Restores(s, p, Exec(s, BackupSteps(s, p)[..i]))
    ensures Exec(s, BackupSteps(s, p)) == if p.exportOk then NewSlot(p) else s
  {
    FinishIsSafe(s, p);
    SafeSteps(Good(s, p), s, p);
    SafeIsEveryPrefix(Good(s, p), s, BackupSteps(s, p));
    if p.exportOk {
      SuccessEnds(s, p);
    } else {
      FailureIsSafe(s, p);
    }
  }

  lemma {:induction false} KeyFileIsAtomicFor<T>(view: Slot -> T, s: Slot, p: Plan)
    requires p.Valid() && Settled(s, p.encrypted)
    requires p.exportOk && p.encrypted ==> p.target == Key && KeyV1 !in s
    ensures AtomicFor(view, s, p)
  {
    FinishIsSafe(s, p);
    GoodIsGoodView(view, s, p);
    SafeWeaker(Good(s, p), GoodView(view, s, p), Exported(s, p), Finish(p, IsCreate(s)));
    AtomicIsSafe(view, s, p);
  }

  // ---- With the key stored where SecurityManager stores it ----

  /** A crash once the new key is in the `.key_v1` file: recovery brings the old files back beside it. */
  lemma SavedBesideOld(s: Slot, p: Plan, c: Bytes)
    requires Settled(s, true) && p.encrypted && p.exported != []
    ensures Clear(Exported(s, p)[KeyV1 := c]) == s[KeyV1 := c]
    ensures Clear(Exported(s, p)[KeyV1 := c] - {KeyTmp}) == (s - {Key})[KeyV1 := c]
  {
    SameSlot(Clear(Exported(s, p)[KeyV1 := c]), s[KeyV1 := c]);
    SameSlot(Clear(Exported(s, p)[KeyV1 := c] - {KeyTmp}), (s - {Key})[KeyV1 := c]);
  }

  /** The pair those files make. */
  lemma MixedPair(s: Slot, c: Bytes)
    requires Settled(s, true)
    ensures View(s[KeyV1 := c]) == View((s - {Key})[KeyV1 := c]) == if Data in s then Some((s[Data], Some(c))) else None
    ensures Settled(s[KeyV1 := c], true) && Settled((s - {Key})[KeyV1 := c], true)
  {
  }

  /** Backup replaces an encrypted backup. */
  predicate Overwrites(s: Slot, p: Plan) {
    p.exportOk && p.encrypted && Data in s
  }

  /** The old backup beside the key contents `c` is the old pair, or the finished one. */
  predicate Harmless(s: Slot, p: Plan, c: Bytes)
    requires p.Valid() && p.exportOk && p.encrypted && Data in s
  {
    Some(c) == KeyInForce(s) || (s[Data] == p.exported[|p.exported| - 1] && c == p.saved[|p.saved| - 1])
  }

  predicate SavesHarmless(s: Slot, p: Plan)
    requires p.Valid()
  {
    Overwrites(s, p) ==> forall c <- p.saved :: Harmless(s, p, c)
  }

  /** To `view`, these files are the old ones or the finished new ones. */
  predicate Passes<T(==)>(view: Slot -> T, s: Slot, p: Plan, files: Slot)
    requires p.Valid() && p.exportOk
  {
    view(files) == view(s) || view(files) == view(NewSlot(p))
  }

  /**
   Storing the key goes unnoticed: whatever the `.key_v1` file passes through, beside the old files; and the
   finished one beside the old files without their `.key` file, which is deleted first.
   */
  predicate SavesUnseen<T(==)>(view: Slot -> T, s: Slot, p: Plan)
    requires p.Valid()
  {
    p.exportOk && p.encrypted ==>
      && (forall c <- p.saved :: Passes(view, s, p, s[KeyV1 := c]))
      && Passes(view, s, p, (s - {Key})[KeyV1 := p.saved[|p.saved| - 1]])
  }

  lemma BesideOldIsSafe<T>(view: Slot -> T, s: Slot, p: Plan, c: Bytes)
    requires p.Valid() && Settled(s, p.encrypted) && p.exportOk && p.encrypted
    ensures GoodView(view, s, p)(Exported(s, p)[KeyV1 := c]) <==> Passes(view, s, p, s[KeyV1 := c])
    ensures GoodView(view, s, p)(Exported(s, p)[KeyV1 := c] - {KeyTmp}) <==> Passes(view, s, p, (s - {Key})[KeyV1 := c])
  {
    SavedBesideOld(s, p, c);
  }

  lemma {:induction false} SaveToV1IsSafe<T>(view: Slot -> T, s: Slot, p: Plan)
    requires p.Valid() && Settled(s, p.encrypted) && p.exportOk && p.encrypted
    ensures SafeAlong(GoodView(view, s, p), Exported(s, p), Writes(KeyV1, p.saved)) <==>
            forall c <- p.saved :: Passes(view, s, p, s[KeyV1 := c])
  {
    var x, ok := Exported(s, p), GoodView(view, s, p);
    forall c <- p.saved ensures ok(x[KeyV1 := c]) <==> Passes(view, s, p, s[KeyV1 := c]) {
      BesideOldIsSafe(view, s, p, c);
    }
    assert ok(x) by { ClearsExported(s, p); }
    if forall c <- p.saved :: Passes(view, s, p, s[KeyV1 := c]) {
      SafeWrites(ok, x, KeyV1, p.saved);
    } else {
      var c :| c in p.saved && !Passes(view, s, p, s[KeyV1 := c]);
      if SafeAlong(ok, x, Writes(KeyV1, p.saved)) {
        WritesPassThrough(ok, x, KeyV1, p.saved, c);
      }
    }
  }

  lemma ClearsFinished(p: Plan)
    requires p.Valid() && p.exportOk
    ensures Clear(NewSlot(p)) == NewSlot(p)
  {
  }

  lemma {:induction false} CleanAfterV1IsSafe<T>(view: Slot -> T, s: Slot, p: Plan)
    requires p.Valid() && Settled(s, p.encrypted) && p.exportOk && p.encrypted && p.target == KeyV1
    ensures var last := p.saved[|p.saved| - 1];
            SafeAlong(GoodView(view, s, p), Exported(s, p)[KeyV1 := last], [Delete(KeyTmp), Delete(DataTmp)]) <==>
            Passes(view, s, p, s[KeyV1 := last]) && Passes(view, s, p, (s - {Key})[KeyV1 := last])
  {
    var last := p.saved[|p.saved| - 1];
    BesideOldIsSafe(view, s, p, last);
    CleanedUp(s, p);
    ClearsFinished(p);
    SafeTwo(GoodView(view, s, p), Exported(s, p)[KeyV1 := last], Delete(KeyTmp), Delete(DataTmp));
  }

  lemma {:induction false} FinishV1IsSafe<T>(view: Slot -> T, s: Slot, p: Plan)
    requires p.Valid() && Settled(s, p.encrypted) && p.exportOk && p.encrypted && p.target == KeyV1
    ensures SafeAlong(GoodView(view, s, p), Exported(s, p), Finish(p, IsCreate(s))) <==> SavesUnseen(view, s, p)
  {
    var w, d := Writes(KeyV1, p.saved), [Delete(KeyTmp), Delete(DataTmp)];
    SaveToV1IsSafe(view, s, p);
    CleanAfterV1IsSafe(view, s, p);
    ExecWrites(Exported(s, p), KeyV1, p.saved);
    SafeAppend(GoodView(view, s, p), Exported(s, p), w, d);
    assert p.saved[|p.saved| - 1] in p.saved;
    assert Finish(p, IsCreate(s)) == w + d;
  }

  /**
   SecurityManager stores the key in the `.key_v1` file, which recovery neither counts nor rolls back.  Whatever
   one looks at, Backup is then crash-atomic exactly when storing the key goes unnoticed.
   */
  lemma {:induction false} AtomicForExactlyWhen<T>(view: Slot -> T, s: Slot, p: Plan)
    requires p.Valid() && Settled(s, p.encrypted) && p.target == KeyV1
    ensures AtomicFor(view, s, p) <==> SavesUnseen(view, s, p)
    ensures Exec(s, BackupSteps(s, p)) == if p.exportOk then NewSlot(p) else s
  {
    if p.exportOk && p.encrypted {
      AtomicIsSafe(view, s, p);
      FinishV1IsSafe(view, s, p);
      SafeSteps(Good(s, p), s, p);
      SuccessEnds(s, p);
    } else {
      KeyFileIsAtomicFor(view, s, p);
      KeyFileIsCrashAtomic(s, p);
    }
  }

  lemma HarmlessPasses(s: Slot, p: Plan, c: Bytes)
    requires p.Valid() && Settled(s, p.encrypted) && p.exportOk && p.encrypted && p.target == KeyV1
    ensures Passes(View, s, p, s[KeyV1 := c]) <==> Data in s ==> Harmless(s, p, c)
    ensures Passes(View, s, p, (s - {Key})[KeyV1 := c]) <==> Data in s ==> Harmless(s, p, c)
  {
    MixedPair(s, c);
    FinishedView(p);
  }

  /**
   For the restorable pair: exactly when Backup does not overwrite an encrypted backup, or every contents the
   key file passes through is the key in force, or the export did not change the backup and the contents are
   the finished key.
   */
  lemma {:induction false} CrashAtomicExactlyWhen(s: Slot, p: Plan)
    requires p.Valid() && Settled(s, p.encrypted) && p.target == KeyV1
    ensures CrashAtomic(s, p) <==> SavesHarmless(s, p)
    ensures Exec(s, BackupSteps(s, p)) == if p.exportOk then NewSlot(p) else s
  {
    AtomicForExactlyWhen(View, s, p);
    if p.exportOk && p.encrypted {
      forall c <- p.saved ensures Passes(View, s, p, s[KeyV1 := c]) <==> Data in s ==> Harmless(s, p, c) {
        HarmlessPasses(s, p, c);
      }
      HarmlessPasses(s, p, p.saved[|p.saved| - 1]);
      assert p.saved[|p.saved| - 1] in p.saved;
    }
  }

  // The password a Restore would use, in place of the contents of the key file.

  /** What SecurityManager makes of the contents of a key file: nothing, when they cannot be read. */
  datatype Reader = Reader(v1: Bytes -> Option<Bytes>, plain: Bytes -> Option<Bytes>)

  /** GetDBPassword: the `.key_v1` file if it can be read, else the `.key` file. */
  function Password(d: Reader, s: Slot): Option<Bytes> {
    if KeyV1 in s && d.v1(s[KeyV1]).Some? then d.v1(s[KeyV1])
    else if Key in s then d.plain(s[Key]) else None
  }

  /** The backup and the password it would be imported with. */
  function Restorable(d: Reader): Slot -> Option<(Bytes, Option<Bytes>)> {
    s => if Data in s then Some((s[Data], Password(d, s))) else None
  }

  /** Once `c` is in the `.key_v1` file of an encrypted backup. */
  function PasswordWith(d: Reader, s: Slot, c: Bytes): Option<Bytes> {
    if d.v1(c).Some? then d.v1(c) else if Key in s then d.plain(s[Key]) else None
  }

  /** The old backup with the password `w` is what could be restored before, or can be after. */
  predicate Restored(d: Reader, s: Slot, p: Plan, w: Option<Bytes>)
    requires p.Valid() && p.exportOk && p.encrypted && Data in s
  {
    w == Password(d, s) || (s[Data] == p.exported[|p.exported| - 1] && w == d.v1(p.saved[|p.saved| - 1]))
  }

  predicate SavesReadable(d: Reader, s: Slot, p: Plan)
    requires p.Valid()
  {
    Overwrites(s, p) ==>
      && (forall c <- p.saved :: Restored(d, s, p, PasswordWith(d, s, c)))
      && Restored(d, s, p, d.v1(p.saved[|p.saved| - 1]))
  }

  lemma RestoredPasses(d: Reader, s: Slot, p: Plan, c: Bytes)
    requires p.Valid() && Settled(s, p.encrypted) && p.exportOk && p.encrypted && p.target == KeyV1
    ensures Passes(Restorable(d), s, p, s[KeyV1 := c]) <==> Data in s ==> Restored(d, s, p, PasswordWith(d, s, c))
    ensures Passes(Restorable(d), s, p, (s - {Key})[KeyV1 := c]) <==> Data in s ==> Restored(d, s, p, d.v1(c))
  {
  }

  /**
   For what Restore can make of the files, however key files are read: exactly when Backup does not overwrite an
   encrypted backup, or with every contents the key file passes through, and without the `.key` file at the end,
   the old backup keeps its password, or the export did not change it and it has the new one already.
   */
  lemma {:induction false} PasswordAtomicExactlyWhen(d: Reader, s: Slot, p: Plan)
    requires p.Valid() && Settled(s, p.encrypted) && p.target == KeyV1
    ensures AtomicFor(Restorable(d), s, p) <==> SavesReadable(d, s, p)
  {
    AtomicForExactlyWhen(Restorable(d), s, p);
    if p.exportOk && p.encrypted {
      forall c <- p.saved
        ensures Passes(Restorable(d), s, p, s[KeyV1 := c]) <==> Data in s ==> Restored(d, s, p, PasswordWith(d, s, c)) {
        RestoredPasses(d, s, p, c);
      }
      RestoredPasses(d, s, p, p.saved[|p.saved| - 1]);
    }
  }

  /** A crash after the key was saved, in a Backup that overwrites another: the old backup with the new key. */
  lemma {:induction false} OverwriteMayMixPairs()
    ensures var s: Slot := map[Data := [1], KeyV1 := [2]];
            var p := Plan(true, true, [[3]], [[4]], KeyV1);
            && Settled(s, true) && p.Valid() && !CrashAtomic(s, p)
            && |BackupSteps(s, p)| > 6 && View(Clear(Exec(s, BackupSteps(s, p)[..6]))) == Some(([1], Some([4])))
  {
    var s: Slot := map[Data := [1], KeyV1 := [2]];
    var p := Plan(true, true, [[3]], [[4]], KeyV1);
    var a, w := Prepare(p, false) + Writes(Data, [[3]]), Writes(KeyV1, [[4]]);
    assert |a| == 5 && |w| == 1;
    assert BackupSteps(s, p)[..6] == a + w;
    ExecUpToExport(s, p);
    ExecAppend(s, a, w);
    ExecWrites(Exported(s, p), KeyV1, [[4]]);
    SavedBesideOld(s, p, [4]);
    MixedPair(s, [4]);
    assert [4] in p.saved && !Harmless(s, p, [4]);
    CrashAtomicExactlyWhen(s, p);
  }

  /** A first Backup that is interrupted once the key file is there leaves that file without a backup. */
  lemma {:induction false} FirstBackupMayLeaveKey(s: Slot, p: Plan, c: Bytes)
    requires p.Valid() && Settled(s, p.encrypted) && p.target == KeyV1
    requires p.exportOk && p.encrypted && Data !in s && c in p.saved
    ensures exists i | 0 <= i <= |BackupSteps(s, p)| :: Clear(Exec(s, BackupSteps(s, p)[..i])) == s[KeyV1 := c]
  {
    var x := Exported(s, p);
    var a, w, d := Prepare(p, IsCreate(s)) + Writes(Data, p.exported), Writes(KeyV1, p.saved), [Delete(KeyTmp), Delete(DataTmp)];
    var ok: Slot -> bool := t => Clear(t) != s[KeyV1 := c];
    SavedBesideOld(s, p, c);
    ExecUpToExport(s, p);
    if SafeAlong(ok, x, w) {
      WritesPassThrough(ok, x, KeyV1, p.saved, c);
    }
    SafeAppend(ok, x, w, d);
    SafeAppend(ok, s, a, w + d);
    assert Finish(p, IsCreate(s)) == w + d;
    SafeIsEveryPrefix(ok, s, BackupSteps(s, p));
  }

  /** When one Backup is crash-atomic, whichever file the key goes to. */
  predicate Covered(s: Slot, p: Plan)
    requires p.Valid()
  {
    p.exportOk && p.encrypted ==> if p.target == Key then KeyV1 !in s else SavesHarmless(s, p)
  }

  /** Both files: the `.key` file as long as there is no newer one beside it, the `.key_v1` file as said above. */
  lemma BackupIsCrashAtomic(s: Slot, p: Plan)
    requires p.Valid() && Settled(s, p.encrypted)
    requires p.exportOk && p.encrypted && p.target == Key ==> KeyV1 !in s
    ensures CrashAtomic(s, p) <==> Covered(s, p)
    ensures Exec(s, BackupSteps(s, p)) == if p.exportOk then NewSlot(p) else s
  {
    if p.target == KeyV1 {
      CrashAtomicExactlyWhen(s, p);
    } else {
      KeyFileIsAtomicFor(View, s, p);
      KeyFileIsCrashAtomic(s, p);
    }
  }
}
