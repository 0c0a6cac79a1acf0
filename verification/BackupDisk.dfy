/**
 The code of BackupManager, running on a disk.  `history` records the contents of the disk after every
 single file operation: the states a crash can leave behind.
 */
module BackupDisk {
  import opened BackupSlot
  import opened ByteCodes
  import opened Collections
  import opened BackupManager
  import opened BackupStores
  import opened Options

  /** `infos` is a listing of the regular files of a directory, in any order. */
  ghost predicate Listing(fs: Fs, dir: Dir, infos: seq<FileInfo>) {
    && (forall x <- infos :: Path(dir, x.name) in fs && |fs[Path(dir, x.name)]| == x.size)
    && (forall p <- fs | p.dir == dir :: FileInfo(p.file, |fs[p]|) in infos)
  }

  /** The status with which Backup returns before it touches a file, if it does. */
  function EarlyReturn(fs: Fs, info: BackupInfo, env: Env): Option<Status> {
    if !env.open then Some(AlreadyClosed)
    else if info.isCheckIntegrity && env.integrity != Success then Some(env.integrity)
    else if info.name == "" || info.baseDir == "" || info.storeId == "" || info.name == AUTO_BACKUP_NAME then
      Some(InvalidArgument)
    else if DataPath(info.storeId, info.name) !in fs && FileCount(fs, BackupDir(info.storeId)) >= MAX_BACKUP_NUM then
      Some(Error)
    else if !env.pathsOk then Some(InvalidArgument)
    else None
  }

  function FileCount(fs: Fs, dir: Dir): nat {
    |set p <- fs | p.dir == dir|
  }

  class Disk {
    var files: Fs
    ghost var history: seq<Fs>

    method CreateFile(p: Path)
      modifies this
      ensures files == Apply(old(files), Create(p)) && history == old(history) + [files]
    {
      if p !in files {
        files := files[p := []];
      }
      history := history + [files];
    }

    method WriteFile(p: Path, contents: Bytes)
      modifies this
      ensures files == Apply(old(files), Write(p, contents)) && history == old(history) + [files]
    {
      files := files[p := contents];
      history := history + [files];
    }

    method Remove(p: Path)
      modifies this
      ensures files == Apply(old(files), Delete(p)) && history == old(history) + [files]
    {
      files := files - {p};
      history := history + [files];
    }

    /** StoreUtil::Rename removes the new name first; renaming a missing file fails and changes nothing. */
    method Rename(oldName: Path, newName: Path)
      modifies this
      ensures files == Exec(old(files), [Delete(newName), Move(oldName, newName)])
      ensures history == old(history) + Trace(old(files), [Delete(newName), Move(oldName, newName)])
    {
      ghost var ops := [Delete(newName), Move(oldName, newName)];
      ghost var before := files;
      ExecShort(files, Delete(newName), Move(oldName, newName), Delete(newName));
      Remove(newName);
      ghost var middle := files;
      if oldName in files {
        files := (files - {oldName})[newName := files[oldName]];
      }
      history := history + [files];
      assert ops[1..] == [Move(oldName, newName)] && ops[1..][1..] == [];
      assert Trace(middle, ops[1..]) == [files];
    }

    method KeepData(name: Path, isCreated: bool)
      modifies this
      ensures files == Exec(old(files), KeepOps(name, Tmp(name), isCreated))
      ensures history == old(history) + Trace(old(files), KeepOps(name, Tmp(name), isCreated))
    {
      if isCreated {
        ExecShort(files, Create(Tmp(name)), Create(Tmp(name)), Create(Tmp(name)));
        CreateFile(Tmp(name));
      } else {
        Rename(name, Tmp(name));
      }
    }

    method RollBackData(name: Path, isCreated: bool)
      modifies this
      ensures files == Exec(old(files), RollBackOps(name, Tmp(name), isCreated))
      ensures history == old(history) + Trace(old(files), RollBackOps(name, Tmp(name), isCreated))
    {
      ghost var first, rest := [Delete(name)], if isCreated then [Delete(Tmp(name))] else [Delete(name), Move(Tmp(name), name)];
      assert RollBackOps(name, Tmp(name), isCreated) == first + rest;
      ExecAppend(files, first, rest);
      ExecShort(files, Delete(name), Delete(name), Delete(name));
      Remove(name);
      if isCreated {
        ExecShort(files, Delete(Tmp(name)), Delete(name), Delete(name));
        Remove(Tmp(name));
      } else {
        Rename(Tmp(name), name);
      }
    }

    method CleanTmpData(name: Path)
      modifies this
      ensures files == Exec(old(files), [Delete(Tmp(name))])
      ensures history == old(history) + Trace(old(files), [Delete(Tmp(name))])
    {
      ExecShort(files, Delete(Tmp(name)), Delete(Tmp(name)), Delete(Tmp(name)));
      Remove(Tmp(name));
    }

    /** Export, or the storing of a key: the file passes through the given contents one after the other. */
    method WriteAll(p: Path, contents: seq<Bytes>)
      modifies this
      ensures files == Exec(old(files), Writes(p, contents))
      ensures history == old(history) + Trace(old(files), Writes(p, contents))
    {
      ghost var before := files;
      var i := 0;
      while i < |contents|
        invariant 0 <= i <= |contents|
        invariant files == Exec(before, Writes(p, contents[..i]))
        invariant history == old(history) + Trace(before, Writes(p, contents[..i]))
      {
        WritesNext(before, old(history), p, contents, i);
        WriteFile(p, contents[i]);
        i := i + 1;
      }
      assert contents[..i] == contents;
    }

    method Backup(info: BackupInfo, env: Env) returns (status: Status)
      requires env.plan.exportOk <==> env.exportStatus == Success
      modifies this
      ensures EarlyReturn(old(files), info, env).Some? ==>
                files == old(files) && history == old(history) && status == EarlyReturn(old(files), info, env).value
      ensures EarlyReturn(old(files), info, env).None? ==>
                var ops := BackupOps(old(files), info.storeId, info.name, env.plan);
                && status == env.exportStatus
                && files == Exec(old(files), ops)
                && history == old(history) + Trace(old(files), ops)
    {
      if !env.open {
        return AlreadyClosed;
      }
      if info.isCheckIntegrity && env.integrity != Success {
        return env.integrity;
      }
      if info.name == "" || info.baseDir == "" || info.storeId == "" || info.name == AUTO_BACKUP_NAME {
        return InvalidArgument;
      }
      var backupFullName, keyFullName := DataPath(info.storeId, info.name), KeyPath(info.storeId, info.name);
      var isCreate := backupFullName !in files;
      if FileCount(files, BackupDir(info.storeId)) >= MAX_BACKUP_NUM && isCreate {
        return Error;
      }
      if !env.pathsOk {
        return InvalidArgument;
      }

      var target := PathOf(info.storeId, info.name, env.plan.target);
      LiftedSteps(files, info.storeId, info.name, env.plan);
      Perform(backupFullName, keyFullName, target, isCreate, env.plan);
      status := env.exportStatus;
    }

    method Perform(data: Path, key: Path, target: Path, isCreate: bool, p: Plan)
      modifies this
      ensures files == Exec(old(files), StepsOn(data, key, target, isCreate, p))
      ensures history == old(history) + Trace(old(files), StepsOn(data, key, target, isCreate, p))
    {
      ExecThree(files, history, PrepareOn(data, key, isCreate, p.encrypted), Writes(data, p.exported),
                FinishOn(data, key, target, isCreate, p));
      Keep(data, key, isCreate, p.encrypted);
      WriteAll(data, p.exported);
      Conclude(data, key, target, isCreate, p);
    }

    /** The end of Backup: the new backup is kept, or the old one brought back. */
    method Conclude(data: Path, key: Path, target: Path, isCreate: bool, p: Plan)
      modifies this
      ensures files == Exec(old(files), FinishOn(data, key, target, isCreate, p))
      ensures history == old(history) + Trace(old(files), FinishOn(data, key, target, isCreate, p))
    {
      if p.exportOk {
        Commit(data, key, target, p);
      } else {
        Undo(data, key, isCreate, p.encrypted);
      }
    }

    // ---- Recovery ----

    method GetFiles(dir: Dir) returns (infos: seq<FileInfo>)
      ensures Listing(files, dir, infos)
    {
      infos := [];
      var todo := files.Keys;
      while todo != {}
        invariant todo <= files.Keys
        invariant forall x <- infos :: Path(dir, x.name) in files && |files[Path(dir, x.name)]| == x.size
        invariant forall p <- files.Keys - todo | p.dir == dir :: FileInfo(p.file, |files[p]|) in infos
        decreases todo
      {
        var p :| p in todo;
        if p.dir == dir {
          infos := infos + [FileInfo(p.file, |files[p]|)];
        }
        todo := todo - {p};
      }
    }

    /** One case of the switch in ClearResidueFile. */
    method ClearOne(storeId: string, name: string, info: ResidueInfo)
      modifies this
      ensures files == Exec(old(files), Lift(At(storeId, name), ClearOps(info)))
    {
      var backupFullName, keyFullName := DataPath(storeId, name), KeyPath(storeId, name);
      ghost var before := files;
      LiftedClear(storeId, name, info);
      var clearType := GetClearType(info);
      match clearType
      case RollbackData => RollBackData(backupFullName, info.tmpBackupSize == 0);
      case RollbackKey => RollBackData(keyFullName, info.tmpKeySize == 0);
      case Rollback =>
        RollBackData(backupFullName, info.tmpBackupSize == 0);
        RollBackData(keyFullName, info.tmpKeySize == 0);
        ExecAppend(before, RollBackOps(backupFullName, Tmp(backupFullName), info.tmpBackupSize == 0),
                   RollBackOps(keyFullName, Tmp(keyFullName), info.tmpKeySize == 0));
      case CleanTmp =>
        CleanTmpData(backupFullName);
        CleanTmpData(keyFullName);
        ExecAppend(before, [Delete(Tmp(backupFullName))], [Delete(Tmp(keyFullName))]);
      case DoNothing =>
    }

    /** The noted residue decides, also where it is older than the files. */
    method ClearResidueFile(infos: map<string, ResidueInfo>, storeId: string)
      modifies this
      ensures PartlyCleared(old(files), storeId, infos, {}, files)
    {
      ghost var before := files;
      var todo := infos.Keys;
      while todo != {}
        invariant todo <= infos.Keys
        invariant PartlyCleared(before, storeId, infos, todo, files)
        decreases todo
      {
        var n :| n in todo;
        ghost var now := files;
        ExecOnName(now, storeId, n, ClearOps(infos[n]));
        ClearOne(storeId, n, infos[n]);
        ClearStep(before, storeId, infos, todo, now, n, files);
        todo := todo - {n};
      }
    }

    /**
     What Init does for one of the stores below the backup directory.  The key directory was listed when the disk
     held `fs`, before the first store was looked at.
     */
    method RecoverStore(keyFiles: seq<FileInfo>, storeId: string, ghost fs: Fs)
      requires Listing(fs, KeyDir, keyFiles) && forall p: Path | p.dir == BackupDir(storeId) :: Agree(fs, files, p)
      modifies this
      ensures StaleRecovered(fs, old(files), storeId, files)
    {
      var backupFiles := GetFiles(BackupDir(storeId));
      SameListing(fs, storeId, files, backupFiles);
      var residueFile := HaveResidueFile(backupFiles);
      var residueKey := HaveResidueKey(keyFiles, storeId);
      if residueFile || residueKey {
        var infos := BuildResidueInfo(backupFiles, keyFiles, storeId, fs);
        ClearResidueFile(infos, storeId);
      } else {
        NothingToRecover(fs, storeId, files);
      }
    }

    /** One more store, after others. */
    method RecoverNext(keyFiles: seq<FileInfo>, storeId: string, ghost states: seq<Fs>, ghost stores: seq<string>)
      requires InTurn(states, stores) && storeId !in stores && states[|stores|] == files && Listing(states[0], KeyDir, keyFiles)
      modifies this
      ensures InTurn(states + [files], stores + [storeId])
    {
      NotYet(states, stores, storeId);
      RecoverStore(keyFiles, storeId, states[0]);
      OneMore(states, stores, storeId, files);
    }

    /**
     Init, on the directories it finds below the backup directory: the stores are recovered one after the other by
     one listing of the key directory.  Every name of every store is recovered exactly when those that share key
     files are compatible; files that belong to no name stay as they are.
     */
    method Init(storeIds: seq<string>) returns (ghost states: seq<Fs>)
      requires Distinct(storeIds)
      modifies this
      ensures InTurn(states, Stores(storeIds)) && states[0] == old(files) && states[|Stores(storeIds)|] == files
      ensures (forall a <- Stores(storeIds) :: StoreCleared(old(files), a, files)) <==> AllCompatible(old(files), Stores(storeIds))
      ensures forall p: Path | !ConsideredByAny(old(files), Stores(storeIds), p) :: Agree(old(files), files, p)
    {
      var keyFiles := GetFiles(KeyDir);
      states := [files];
      for i := 0 to |storeIds|
        invariant InTurn(states, Stores(storeIds[..i])) && states[0] == old(files) && states[|Stores(storeIds[..i])|] == files
      {
        NextStore(storeIds, i);
        var storeId := storeIds[i];
        if storeId != "." && storeId != ".." {
          RecoverNext(keyFiles, storeId, states, Stores(storeIds[..i]));
          states := states + [files];
        }
      }
      assert storeIds[..|storeIds|] == storeIds;
      AfterInit(states, storeIds);
    }

    // The three parts of Backup: before, after a successful and after a failed export.

    method Keep(data: Path, key: Path, isCreate: bool, encrypted: bool)
      modifies this
      ensures files == Exec(old(files), PrepareOn(data, key, isCreate, encrypted))
      ensures history == old(history) + Trace(old(files), PrepareOn(data, key, isCreate, encrypted))
    {
      ExecAppend(files, KeepOps(data, Tmp(data), isCreate), KeepOps(key, Tmp(key), isCreate));
      KeepData(data, isCreate);
      if encrypted {
        KeepData(key, isCreate);
      } else {
        assert PrepareOn(data, key, isCreate, encrypted) == KeepOps(data, Tmp(data), isCreate);
      }
    }

    method Commit(data: Path, key: Path, target: Path, p: Plan)
      modifies this
      ensures files == Exec(old(files), CommitOn(data, key, target, p))
      ensures history == old(history) + Trace(old(files), CommitOn(data, key, target, p))
    {
      if p.encrypted {
        ghost var saved := SaveOn(key, target, p);
        ExecAppend(files, saved, [Delete(Tmp(data))]);
        SaveKey(key, target, p);
      } else {
        assert CommitOn(data, key, target, p) == [Delete(Tmp(data))];
      }
      CleanTmpData(data);
    }

    method SaveKey(key: Path, target: Path, p: Plan)
      modifies this
      ensures files == Exec(old(files), SaveOn(key, target, p))
      ensures history == old(history) + Trace(old(files), SaveOn(key, target, p))
    {
      ExecAppend(files, Writes(target, p.saved), [Delete(Tmp(key))]);
      WriteAll(target, p.saved);
      CleanTmpData(key);
    }

    method Undo(data: Path, key: Path, isCreate: bool, encrypted: bool)
      modifies this
      ensures files == Exec(old(files), UndoOn(data, key, isCreate, encrypted))
      ensures history == old(history) + Trace(old(files), UndoOn(data, key, isCreate, encrypted))
    {
      ExecAppend(files, RollBackOps(data, Tmp(data), isCreate), RollBackOps(key, Tmp(key), isCreate));
      RollBackData(data, isCreate);
      if encrypted {
        RollBackData(key, isCreate);
      } else {
        assert UndoOn(data, key, isCreate, encrypted) == RollBackOps(data, Tmp(data), isCreate);
      }
    }
  }

  lemma WritesNext(m: Fs, history: seq<Fs>, p: Path, contents: seq<Bytes>, i: nat)
    requires i < |contents|
    ensures var now := Exec(m, Writes(p, contents[..i]));
            && Exec(m, Writes(p, contents[..i + 1])) == Apply(now, Write(p, contents[i]))
            && history + Trace(m, Writes(p, contents[..i + 1]))
               == history + Trace(m, Writes(p, contents[..i])) + [Apply(now, Write(p, contents[i]))]
  {
    var a, last := Writes(p, contents[..i]), [contents[i]];
    var now := Exec(m, a);
    assert contents[..i + 1] == contents[..i] + last;
    WritesAppend(p, contents[..i], last);
    assert Writes(p, last) == [Write(p, contents[i])];
    ExecAppend(m, a, Writes(p, last));
    ExecShort(now, Write(p, contents[i]), Delete(p), Delete(p));
    assert Trace(now, [Write(p, contents[i])]) == [Apply(now, Write(p, contents[i]))];
    Associates(history, Trace(m, a), [Apply(now, Write(p, contents[i]))]);
  }

  lemma {:induction false} WritesAppend<P>(f: P, a: seq<Bytes>, b: seq<Bytes>)
    ensures Writes(f, a + b) == Writes(f, a) + Writes(f, b)
    decreases |a|
  {
    if a == [] {
      assert a + b == b;
    } else {
      assert (a + b)[1..] == a[1..] + b;
      WritesAppend(f, a[1..], b);
    }
  }

  function PrepareOn(data: Path, key: Path, isCreate: bool, encrypted: bool): seq<Op<Path>> {
    KeepOps(data, Tmp(data), isCreate) + (if encrypted then KeepOps(key, Tmp(key), isCreate) else [])
  }

  function SaveOn(key: Path, target: Path, p: Plan): seq<Op<Path>> {
    Writes(target, p.saved) + [Delete(Tmp(key))]
  }

  function CommitOn(data: Path, key: Path, target: Path, p: Plan): seq<Op<Path>> {
    (if p.encrypted then SaveOn(key, target, p) else []) + [Delete(Tmp(data))]
  }

  function UndoOn(data: Path, key: Path, isCreate: bool, encrypted: bool): seq<Op<Path>> {
    RollBackOps(data, Tmp(data), isCreate) + (if encrypted then RollBackOps(key, Tmp(key), isCreate) else [])
  }

  function FinishOn(data: Path, key: Path, target: Path, isCreate: bool, p: Plan): seq<Op<Path>> {
    if p.exportOk then CommitOn(data, key, target, p) else UndoOn(data, key, isCreate, p.encrypted)
  }

  function StepsOn(data: Path, key: Path, target: Path, isCreate: bool, p: Plan): seq<Op<Path>> {
    PrepareOn(data, key, isCreate, p.encrypted) + Writes(data, p.exported) + FinishOn(data, key, target, isCreate, p)
  }

  lemma {:induction false} ExecThree(m: Fs, history: seq<Fs>, a: seq<Op<Path>>, b: seq<Op<Path>>, c: seq<Op<Path>>)
    ensures Exec(m, a + b + c) == Exec(Exec(Exec(m, a), b), c)
    ensures history + Trace(m, a + b + c)
            == history + Trace(m, a) + Trace(Exec(m, a), b) + Trace(Exec(Exec(m, a), b), c)
  {
    ExecAppend(m, a, b);
    ExecAppend(m, a + b, c);
    var x, y, z := Trace(m, a), Trace(Exec(m, a), b), Trace(Exec(Exec(m, a), b), c);
    Associates(history, x + y, z);
    Associates(history, x, y);
  }

  lemma LiftShort(at: File -> Path, a: Op<File>, b: Op<File>, c: Op<File>)
    ensures Lift(at, [a]) == [LiftOp(at, a)]
    ensures Lift(at, [a, b]) == [LiftOp(at, a), LiftOp(at, b)]
    ensures Lift(at, [a, b, c]) == [LiftOp(at, a), LiftOp(at, b), LiftOp(at, c)]
  {
    assert [a, b][1..] == [b] && [a, b, c][1..] == [b, c] && [b, c][1..] == [c];
    assert Lift(at, [b, c]) == [LiftOp(at, b)] + Lift(at, [c]);
  }

  lemma LiftKeep(at: File -> Path, f: File, tmp: File, isCreated: bool)
    ensures Lift(at, KeepOps(f, tmp, isCreated)) == KeepOps(at(f), at(tmp), isCreated)
    ensures Lift(at, RollBackOps(f, tmp, isCreated)) == RollBackOps(at(f), at(tmp), isCreated)
  {
    LiftShort(at, Create(tmp), Create(tmp), Create(tmp));
    LiftShort(at, Delete(tmp), Move(f, tmp), Create(tmp));
    LiftShort(at, Delete(f), Delete(tmp), Create(tmp));
    LiftShort(at, Delete(f), Delete(f), Move(tmp, f));
  }

  lemma LiftedPrepare(storeId: string, name: string, p: Plan, isCreate: bool)
    ensures Lift(At(storeId, name), Prepare(p, isCreate)) ==
            PrepareOn(DataPath(storeId, name), KeyPath(storeId, name), isCreate, p.encrypted)
  {
    var at := At(storeId, name);
    LiftKeep(at, Data, DataTmp, isCreate);
    LiftKeep(at, Key, KeyTmp, isCreate);
    LiftAppend(at, KeepOps(Data, DataTmp, isCreate), if p.encrypted then KeepOps(Key, KeyTmp, isCreate) else []);
  }

  lemma LiftedFinish(storeId: string, name: string, p: Plan, isCreate: bool)
    ensures Lift(At(storeId, name), Finish(p, isCreate)) ==
            FinishOn(DataPath(storeId, name), KeyPath(storeId, name), PathOf(storeId, name, p.target), isCreate, p)
  {
    var at := At(storeId, name);
    if p.exportOk {
      LiftShort(at, Delete(KeyTmp), Delete(DataTmp), Delete(DataTmp));
      LiftShort(at, Delete(DataTmp), Delete(DataTmp), Delete(DataTmp));
      LiftWrites(at, p.target, p.saved);
      LiftAppend(at, Writes(p.target, p.saved), [Delete(KeyTmp)]);
      LiftAppend(at, if p.encrypted then Writes(p.target, p.saved) + [Delete(KeyTmp)] else [], [Delete(DataTmp)]);
    } else {
      LiftKeep(at, Data, DataTmp, isCreate);
      LiftKeep(at, Key, KeyTmp, isCreate);
      LiftAppend(at, RollBackOps(Data, DataTmp, isCreate),
                 if p.encrypted then RollBackOps(Key, KeyTmp, isCreate) else []);
    }
  }

  lemma LiftedSteps(fs: Fs, storeId: string, name: string, p: Plan)
    ensures var data := DataPath(storeId, name);
            BackupOps(fs, storeId, name, p) ==
            StepsOn(data, KeyPath(storeId, name), PathOf(storeId, name, p.target), data !in fs, p)
  {
    var at, isCreate := At(storeId, name), DataPath(storeId, name) !in fs;
    assert isCreate == IsCreate(SlotOf(fs, storeId, name)) by {
      assert at(Data) == DataPath(storeId, name);
    }
    LiftedPrepare(storeId, name, p, isCreate);
    LiftedFinish(storeId, name, p, isCreate);
    LiftWrites(at, Data, p.exported);
    LiftAppend(at, Prepare(p, isCreate), Writes(Data, p.exported));
    LiftAppend(at, Prepare(p, isCreate) + Writes(Data, p.exported), Finish(p, isCreate));
  }

  // ---- Reading the listings ----

  /** Counting raw and `.bk` files comes down to which of them are there. */
  method GetClearType(info: ResidueInfo) returns (t: ClearType)
    ensures t == ChooseClear(info)
    ensures t == DoNothing <==> !info.hasTmpBackup && !info.hasTmpKey
    ensures t == Rollback <==> info.hasTmpBackup && info.hasTmpKey
    ensures t == CleanTmp <==> info.hasTmpBackup != info.hasTmpKey && info.hasRawBackup && info.hasRawKey
    ensures t == RollbackData || t == RollbackKey ==> (t == RollbackData <==> info.hasTmpBackup)
  {
    var rawFile, tmpFile := 0, 0;
    if info.hasRawBackup { rawFile := rawFile + 1; }
    if info.hasRawKey { rawFile := rawFile + 1; }
    if info.hasTmpBackup { tmpFile := tmpFile + 1; }
    if info.hasTmpKey { tmpFile := tmpFile + 1; }
    if tmpFile == 0 {
      return DoNothing;
    }
    if tmpFile >= rawFile && tmpFile == 1 && info.hasTmpBackup {
      return RollbackData;
    }
    if tmpFile >= rawFile && tmpFile == 1 && info.hasTmpKey {
      return RollbackKey;
    }
    return if tmpFile >= rawFile then Rollback else CleanTmp;
  }

  method HaveResidueFile(files: seq<FileInfo>) returns (b: bool)
    ensures b <==> exists x <- files :: IsEndWith(x.name, BACKUP_TMP_POSTFIX)
  {
    for i := 0 to |files|
      invariant forall x <- files[..i] :: !IsEndWith(x.name, BACKUP_TMP_POSTFIX)
    {
      if IsEndWith(files[i].name, BACKUP_TMP_POSTFIX) {
        return true;
      }
    }
    return false;
  }

  method HaveResidueKey(files: seq<FileInfo>, storeId: string) returns (b: bool)
    ensures b <==> exists x <- files :: ResidueKey(x.name, storeId)
  {
    for i := 0 to |files|
      invariant forall x <- files[..i] :: !ResidueKey(x.name, storeId)
    {
      if ResidueKey(files[i].name, storeId) {
        return true;
      }
    }
    return false;
  }

  predicate ResidueKey(name: string, storeId: string) {
    IsBeginWith(name, BACKUP_KEY_PREFIX + storeId) && IsEndWith(name, BACKUP_TMP_POSTFIX)
  }

  /** A listing without residue means that recovery would change nothing. */
  lemma {:induction false} NothingToRecover(fs: Fs, storeId: string, now: Fs)
    requires forall p <- fs | p.dir == BackupDir(storeId) :: !IsEndWith(p.file, BACKUP_TMP_POSTFIX)
    requires forall p <- fs | p.dir == KeyDir :: !ResidueKey(p.file, storeId)
    ensures StaleRecovered(fs, now, storeId, now)
  {
    forall n <- Names(fs, storeId)
      ensures SlotOf(now, storeId, n) == StaleClear(SlotOf(now, storeId, n), SlotOf(fs, storeId, n)) {
      var p, q := At(storeId, n)(DataTmp), At(storeId, n)(KeyTmp);
      assert IsEndWith(p.file, BACKUP_TMP_POSTFIX) && IsEndWith(q.file, BACKUP_TMP_POSTFIX);
      assert IsBeginWith(q.file, BACKUP_KEY_PREFIX + storeId);
      assert p !in fs && q !in fs;
    }
  }

  /** The directories Init takes for stores. */
  function Stores(storeIds: seq<string>): seq<string> {
    if storeIds == [] then []
    else
      var s := storeIds[|storeIds| - 1];
      Stores(storeIds[..|storeIds| - 1]) + if s == "." || s == ".." then [] else [s]
  }

  lemma {:induction false} StoresMembers(storeIds: seq<string>, s: string)
    ensures s in Stores(storeIds) <==> s in storeIds && s != "." && s != ".."
  {
    if storeIds != [] {
      StoresMembers(storeIds[..|storeIds| - 1], s);
    }
  }

  lemma {:induction false} DistinctStores(storeIds: seq<string>)
    requires Distinct(storeIds)
    ensures Distinct(Stores(storeIds))
  {
    if storeIds != [] {
      DistinctStores(storeIds[..|storeIds| - 1]);
      StoresMembers(storeIds[..|storeIds| - 1], storeIds[|storeIds| - 1]);
    }
  }

  lemma NextStore(storeIds: seq<string>, i: nat)
    requires Distinct(storeIds) && i < |storeIds|
    ensures var done, s := Stores(storeIds[..i]), storeIds[i];
            s !in done && Stores(storeIds[..i + 1]) == done + if s == "." || s == ".." then [] else [s]
  {
    assert storeIds[..i + 1][..i] == storeIds[..i];
    StoresMembers(storeIds[..i], storeIds[i]);
  }

  lemma AfterInit(states: seq<Fs>, storeIds: seq<string>)
    requires Distinct(storeIds) && InTurn(states, Stores(storeIds))
    ensures var stores, fs, fs' := Stores(storeIds), states[0], states[|Stores(storeIds)|];
            && ((forall a <- stores :: StoreCleared(fs, a, fs')) <==> AllCompatible(fs, stores))
            && (forall p: Path | !ConsideredByAny(fs, stores, p) :: Agree(fs, fs', p))
  {
    var stores := Stores(storeIds);
    DistinctStores(storeIds);
    RecoversAllExactlyWhen(states, stores);
    forall p: Path | !ConsideredByAny(states[0], stores, p) ensures Agree(states[0], states[|stores|], p) {
      OthersStay(states, stores, |stores|, p);
    }
  }

  /** A store whose turn has not come has its backup directory as it was. */
  lemma NotYet(states: seq<Fs>, stores: seq<string>, storeId: string)
    requires InTurn(states, stores) && storeId !in stores
    ensures forall p: Path | p.dir == BackupDir(storeId) :: Agree(states[0], states[|stores|], p)
  {
    forall p: Path | p.dir == BackupDir(storeId) ensures Agree(states[0], states[|stores|], p) {
      forall a <- stores ensures !Considered(Names(states[0], a), a, p) {
        forall m <- Names(states[0], a) ensures !InSlot(At(a, m), p) {
          NotInOtherDir(a, m, p, storeId);
        }
      }
      OthersStay(states, stores, |stores|, p);
    }
  }

  lemma OneMore(states: seq<Fs>, stores: seq<string>, storeId: string, next: Fs)
    requires InTurn(states, stores) && StaleRecovered(states[0], states[|stores|], storeId, next)
    ensures InTurn(states + [next], stores + [storeId])
  {
    var states', stores' := states + [next], stores + [storeId];
    forall i | 0 <= i < |stores'| ensures StaleRecovered(states'[0], states'[i], stores'[i], states'[i + 1]) {
      if i < |stores| { assert StaleRecovered(states[0], states[i], stores[i], states[i + 1]); }
    }
  }

  lemma SameListing(fs: Fs, storeId: string, fs': Fs, infos: seq<FileInfo>)
    requires Listing(fs', BackupDir(storeId), infos) && forall p: Path | p.dir == BackupDir(storeId) :: Agree(fs, fs', p)
    ensures Listing(fs, BackupDir(storeId), infos)
  {
    forall x <- infos ensures Path(BackupDir(storeId), x.name) in fs && |fs[Path(BackupDir(storeId), x.name)]| == x.size {
      assert Agree(fs, fs', Path(BackupDir(storeId), x.name));
    }
    forall p <- fs | p.dir == BackupDir(storeId) ensures FileInfo(p.file, |fs[p]|) in infos {
      assert Agree(fs, fs', p);
    }
  }

  /** SetResidueInfo in one piece: note the file `name + postFix` and its `.bk` copy. */
  function Noted(info: ResidueInfo, fs: Fs, dir: Dir, name: string, postFix: string): ResidueInfo {
    var raw := Path(dir, name + postFix);
    if postFix == BACKUP_POSTFIX then
      info.(hasRawBackup := info.hasRawBackup || raw in fs, hasTmpBackup := info.hasTmpBackup || Tmp(raw) in fs,
            tmpBackupSize := if Tmp(raw) in fs then |fs[Tmp(raw)]| else info.tmpBackupSize)
    else if postFix == BACKUP_KEY_POSTFIX then
      info.(hasRawKey := info.hasRawKey || raw in fs, hasTmpKey := info.hasTmpKey || Tmp(raw) in fs,
            tmpKeySize := if Tmp(raw) in fs then |fs[Tmp(raw)]| else info.tmpKeySize)
    else info
  }

  /** What one listed file adds. */
  function Added(r: ResidueInfo, file: FileInfo, name: string, postFix: string): ResidueInfo {
    var isRaw, isTmp := file.name == name + postFix, file.name == name + postFix + BACKUP_TMP_POSTFIX;
    if postFix == BACKUP_POSTFIX then
      r.(hasTmpBackup := r.hasTmpBackup || isTmp, tmpBackupSize := if isTmp then file.size else r.tmpBackupSize,
         hasRawBackup := r.hasRawBackup || isRaw)
    else if postFix == BACKUP_KEY_POSTFIX then
      r.(hasTmpKey := r.hasTmpKey || isTmp, tmpKeySize := if isTmp then file.size else r.tmpKeySize,
         hasRawKey := r.hasRawKey || isRaw)
    else r
  }

  lemma NotedNext(info: ResidueInfo, fs: Fs, dir: Dir, name: string, postFix: string, file: FileInfo, contents: Bytes)
    requires |contents| == file.size
    ensures Noted(info, fs[Path(dir, file.name) := contents], dir, name, postFix) ==
            Added(Noted(info, fs, dir, name, postFix), file, name, postFix)
  {
  }

  lemma NotedAll(info: ResidueInfo, fs: Fs, seen: Fs, dir: Dir, name: string, postFix: string)
    requires forall p: Path | p.dir == dir :: Agree(fs, seen, p)
    ensures Noted(info, seen, dir, name, postFix) == Noted(info, fs, dir, name, postFix)
  {
    var raw := Path(dir, name + postFix);
    assert Agree(fs, seen, raw) && Agree(fs, seen, Tmp(raw));
  }

  /** The body of the loop in SetResidueInfo. */
  method NoteFile(r: ResidueInfo, file: FileInfo, name: string, postFix: string) returns (r': ResidueInfo)
    ensures r' == Added(r, file, name, postFix)
  {
    r' := r;
    var fullName := name + postFix;
    var fullTmpName := fullName + BACKUP_TMP_POSTFIX;
    if file.name == fullTmpName && postFix == BACKUP_POSTFIX {
      r' := r'.(hasTmpBackup := true, tmpBackupSize := file.size);
    }
    if file.name == fullName && postFix == BACKUP_POSTFIX {
      r' := r'.(hasRawBackup := true);
    }
    if file.name == fullTmpName && postFix == BACKUP_KEY_POSTFIX {
      r' := r'.(hasTmpKey := true, tmpKeySize := file.size);
    }
    if file.name == fullName && postFix == BACKUP_KEY_POSTFIX {
      r' := r'.(hasRawKey := true);
    }
  }

  method SetResidueInfo(info: ResidueInfo, files: seq<FileInfo>, name: string, postFix: string, ghost fs: Fs, ghost dir: Dir)
    returns (r: ResidueInfo)
    requires Listing(fs, dir, files)
    ensures r == Noted(info, fs, dir, name, postFix)
  {
    r := info;
    ghost var seen: Fs := map[];
    for i := 0 to |files|
      invariant forall p <- seen :: p in fs && seen[p] == fs[p]
      invariant forall x <- files[..i] :: Path(dir, x.name) in seen
      invariant r == Noted(info, seen, dir, name, postFix)
    {
      var file := files[i];
      assert file in files;
      NotedNext(info, seen, dir, name, postFix, file, fs[Path(dir, file.name)]);
      r := NoteFile(r, file, name, postFix);
      seen := seen[Path(dir, file.name) := fs[Path(dir, file.name)]];
    }
    forall p: Path | p.dir == dir ensures Agree(fs, seen, p) {
      if p in fs {
        assert FileInfo(p.file, |fs[p]|) in files[..|files|];
      }
    }
    NotedAll(info, fs, seen, dir, name, postFix);
  }

  lemma NotedIsResidue(fs: Fs, storeId: string, name: string)
    ensures var none := ResidueInfo(0, 0, false, false, false, false);
            Noted(Noted(none, fs, BackupDir(storeId), name, BACKUP_POSTFIX), fs, KeyDir,
                  KeyName(storeId, name), BACKUP_KEY_POSTFIX) == Residue(SlotOf(fs, storeId, name))
  {
    var at := At(storeId, name);
    assert at(Data) == DataPath(storeId, name) && at(DataTmp) == Tmp(DataPath(storeId, name));
    assert at(Key) == KeyPath(storeId, name) && at(KeyTmp) == Tmp(KeyPath(storeId, name));
  }

  method BuildResidueInfo(files: seq<FileInfo>, keys: seq<FileInfo>, storeId: string, ghost fs: Fs)
    returns (infos: map<string, ResidueInfo>)
    requires Listing(fs, BackupDir(storeId), files) && Listing(fs, KeyDir, keys)
    ensures infos.Keys == Names(fs, storeId)
    ensures forall n <- infos :: infos[n] == Residue(SlotOf(fs, storeId, n))
  {
    infos := map[];
    for i := 0 to |files|
      invariant forall n <- infos :: n in Names(fs, storeId) && infos[n] == Residue(SlotOf(fs, storeId, n))
      invariant forall x <- files[..i] :: GetBackupName(x.name) != AUTO_BACKUP_NAME ==> GetBackupName(x.name) in infos
    {
      var backupName := GetBackupName(files[i].name);
      if backupName == AUTO_BACKUP_NAME {
        continue;
      }
      if backupName !in infos {
        assert files[i] in files;
        var info := ResidueInfo(0, 0, false, false, false, false);
        info := SetResidueInfo(info, files, backupName, BACKUP_POSTFIX, fs, BackupDir(storeId));
        info := SetResidueInfo(info, keys, KeyName(storeId, backupName), BACKUP_KEY_POSTFIX, fs, KeyDir);
        NotedIsResidue(fs, storeId, backupName);
        infos := infos[backupName := info];
      }
    }
    forall n <- Names(fs, storeId) ensures n in infos {
      var p :| p in fs && p.dir == BackupDir(storeId) && GetBackupName(p.file) == n && n != AUTO_BACKUP_NAME;
      assert FileInfo(p.file, |fs[p]|) in files[..|files|];
    }
  }

  /** The names in `todo` are still as they were in `fs`, the others have been cleared by what was noted. */
  ghost predicate PartlyCleared(fs: Fs, storeId: string, infos: map<string, ResidueInfo>, todo: set<string>, fs': Fs) {
    && (forall n <- infos :: ClearedUnless(n in todo, SlotOf(fs, storeId, n), infos[n], SlotOf(fs', storeId, n)))
    && (forall p: Path | !Considered(infos.Keys, storeId, p) :: Agree(fs, fs', p))
  }

  predicate ClearedUnless(waits: bool, s: Slot, info: ResidueInfo, s': Slot) {
    s' == if waits then s else Exec(s, ClearOps(info))
  }

  lemma ClearStep(fs: Fs, storeId: string, infos: map<string, ResidueInfo>, todo: set<string>, fs': Fs, n: string, fs'': Fs)
    requires PartlyCleared(fs, storeId, infos, todo, fs') && n in todo && todo <= infos.Keys
    requires OnlyChanged(fs', storeId, n, fs'')
    requires SlotOf(fs'', storeId, n) == Exec(SlotOf(fs', storeId, n), ClearOps(infos[n]))
    ensures PartlyCleared(fs, storeId, infos, todo - {n}, fs'')
  {
    forall k <- infos ensures ClearedUnless(k in todo - {n}, SlotOf(fs, storeId, k), infos[k], SlotOf(fs'', storeId, k)) {
      assert ClearedUnless(k in todo, SlotOf(fs, storeId, k), infos[k], SlotOf(fs', storeId, k));
      if k != n { assert SlotOf(fs'', storeId, k) == SlotOf(fs', storeId, k); }
      SlotStep(k in todo, k == n, SlotOf(fs, storeId, k), infos[k], SlotOf(fs', storeId, k), SlotOf(fs'', storeId, k));
    }
    forall p: Path | !Considered(infos.Keys, storeId, p) ensures Agree(fs, fs'', p) {
      OutsideStays(fs, storeId, infos.Keys, fs', n, fs'', p);
    }
  }

  lemma SlotStep(waited: bool, now: bool, s: Slot, info: ResidueInfo, s': Slot, s'': Slot)
    requires ClearedUnless(waited, s, info, s') && (now ==> waited)
    requires s'' == if now then Exec(s', ClearOps(info)) else s'
    ensures ClearedUnless(waited && !now, s, info, s'')
  {
  }

  lemma OutsideStays(fs: Fs, storeId: string, names: set<string>, fs': Fs, n: string, fs'': Fs, p: Path)
    requires !Considered(names, storeId, p) && n in names && Agree(fs, fs', p) && OnlyChanged(fs', storeId, n, fs'')
    ensures Agree(fs, fs'', p)
  {
    assert !InSlot(At(storeId, n), p);
    assert Agree(fs', fs'', p);
  }

  ghost predicate OnlyChanged(fs: Fs, storeId: string, name: string, fs': Fs) {
    && (forall m | m != name :: SlotOf(fs', storeId, m) == SlotOf(fs, storeId, m))
    && (forall p | !InSlot(At(storeId, name), p) :: Agree(fs, fs', p))
  }

  lemma LiftedClear(storeId: string, name: string, info: ResidueInfo)
    ensures var data, key := DataPath(storeId, name), KeyPath(storeId, name);
            Lift(At(storeId, name), ClearOps(info)) ==
            match ChooseClear(info)
            case DoNothing => []
            case RollbackData => RollBackOps(data, Tmp(data), info.tmpBackupSize == 0)
            case RollbackKey => RollBackOps(key, Tmp(key), info.tmpKeySize == 0)
            case Rollback =>
              RollBackOps(data, Tmp(data), info.tmpBackupSize == 0) + RollBackOps(key, Tmp(key), info.tmpKeySize == 0)
            case CleanTmp => [Delete(Tmp(data)), Delete(Tmp(key))]
  {
    var at := At(storeId, name);
    LiftKeep(at, Data, DataTmp, info.tmpBackupSize == 0);
    LiftKeep(at, Key, KeyTmp, info.tmpKeySize == 0);
    LiftAppend(at, RollBackOps(Data, DataTmp, info.tmpBackupSize == 0), RollBackOps(Key, KeyTmp, info.tmpKeySize == 0));
    LiftShort(at, Delete(DataTmp), Delete(KeyTmp), Delete(KeyTmp));
  }
}
