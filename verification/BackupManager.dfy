/**
 BackupManager over a file system: the name of every file, Backup as it runs step by step, and the
 recovery that Init performs on a store's directories after a restart.
 */
module BackupManager {
  import opened BackupSlot
  import opened BackupCrash
  import opened ByteCodes

  datatype Dir = BackupDir(storeId: string) | KeyDir

  /** `dir` stands for the directory's full path, `file` for the name below it. */
  datatype Path = Path(dir: Dir, file: string)

  type Fs = map<Path, Bytes>

  datatype FileInfo = FileInfo(name: string, size: nat)

  datatype Status = Success | AlreadyClosed | InvalidArgument | Error | DbFailure(code: int)

  datatype BackupInfo = BackupInfo(name: string, baseDir: string, storeId: string, isCheckIntegrity: bool)

  /** What the database, the security manager and the directories answer during one Backup. */
  datatype Env = Env(open: bool, integrity: Status, pathsOk: bool, exportStatus: Status, plan: Plan)

  const BACKUP_POSTFIX := ".bak"
  const BACKUP_TMP_POSTFIX := ".bk"
  const BACKUP_KEY_POSTFIX := ".key"
  const KEY_V1_POSTFIX := ".key_v1"
  const BACKUP_KEY_PREFIX := "Prefix_backup_"
  const AUTO_BACKUP_NAME := "autoBackup"
  const MAX_BACKUP_NUM := 5

  function KeyName(storeId: string, name: string): string {
    BACKUP_KEY_PREFIX + storeId + "_" + name
  }

  function Tmp(p: Path): Path {
    Path(p.dir, p.file + BACKUP_TMP_POSTFIX)
  }

  function DataPath(storeId: string, name: string): Path {
    Path(BackupDir(storeId), name + BACKUP_POSTFIX)
  }

  function KeyPath(storeId: string, name: string): Path {
    Path(KeyDir, KeyName(storeId, name) + BACKUP_KEY_POSTFIX)
  }

  function PathOf(storeId: string, name: string, f: File): Path {
    match f
    case Data => DataPath(storeId, name)
    case DataTmp => Tmp(DataPath(storeId, name))
    case Key => KeyPath(storeId, name)
    case KeyTmp => Tmp(KeyPath(storeId, name))
    case KeyV1 => Path(KeyDir, KeyName(storeId, name) + KEY_V1_POSTFIX)
  }

  /** Where the files of a name are kept. */
  function At(storeId: string, name: string): File -> Path {
    f => PathOf(storeId, name, f)
  }

  function SlotAt(fs: Fs, at: File -> Path): Slot {
    map f: File | at(f) in fs :: fs[at(f)]
  }

  function SlotOf(fs: Fs, storeId: string, name: string): Slot {
    SlotAt(fs, At(storeId, name))
  }

  predicate IsEndWith(s: string, end: string) {
    |s| >= |end| && s[|s| - |end|..] == end
  }

  predicate IsBeginWith(s: string, begin: string) {
    |s| >= |begin| && s[..|begin|] == begin
  }

  /** `substr(0, length - n)`: a file name shorter than the suffix is kept whole, because the length wraps around. */
  function DropSuffix(s: string, n: nat): string {
    if |s| < n then s else s[..|s| - n]
  }

  function GetBackupName(fileName: string): string {
    DropSuffix(fileName, if IsEndWith(fileName, BACKUP_TMP_POSTFIX) then 7 else 4)
  }

  /** The backup names recovery considers: those with some file in the store's backup directory. */
  function Names(fs: Fs, storeId: string): set<string> {
    set p <- fs | p.dir == BackupDir(storeId) && GetBackupName(p.file) != AUTO_BACKUP_NAME :: GetBackupName(p.file)
  }

  // ---- File names do not collide ----

  lemma SuffixesDiffer(a: string, b: string)
    ensures a + ".bak" != b + ".bak" + ".bk"
    ensures a + ".key" != b + ".key" + ".bk"
    ensures a + ".key_v1" != b + ".key" && a + ".key_v1" != b + ".key" + ".bk"
    ensures GetBackupName(a + ".bak") == a && GetBackupName(a + ".bak" + ".bk") == a
  {
    var x, y := a + ".bak", b + ".bak" + ".bk";
    assert x[|x| - 3] == 'b' && y[|y| - 3] == '.';
    assert x[|x| - 3..][0] == 'b' && !IsEndWith(x, ".bk");
    var k, t, v := a + ".key", b + ".key" + ".bk", a + ".key_v1";
    assert k[|k| - 1] == 'y' && t[|t| - 1] == 'k' && v[|v| - 1] == '1';
    assert (b + ".key")[|b + ".key"| - 1] == 'y';
    var z := a + ".bak" + ".bk";
    assert z[|z| - 3..] == ".bk";
    assert x[..|x| - 4] == a && z[..|z| - 7] == a;
  }

  lemma SamePrefix(a: string, b: string, suffix: string)
    requires a + suffix == b + suffix
    ensures a == b
  {
    assert a == (a + suffix)[..|a + suffix| - |suffix|];
    assert b == (b + suffix)[..|b + suffix| - |suffix|];
  }

  lemma SameSuffix(prefix: string, a: string, b: string)
    requires prefix + a == prefix + b
    ensures a == b
  {
    assert a == (prefix + a)[|prefix|..];
    assert b == (prefix + b)[|prefix|..];
  }

  /** Within one store, a path belongs to one file of one name. */
  lemma PathsDiffer(storeId: string, n: string, f: File, m: string, g: File)
    requires PathOf(storeId, n, f) == PathOf(storeId, m, g)
    ensures n == m && f == g
  {
    var a, b := KeyName(storeId, n), KeyName(storeId, m);
    SuffixesDiffer(n, m);
    SuffixesDiffer(m, n);
    SuffixesDiffer(a, b);
    SuffixesDiffer(b, a);
    assert f == g;
    match f
    case Data => SamePrefix(n, m, ".bak");
    case DataTmp => SamePrefix(n + ".bak", m + ".bak", ".bk"); SamePrefix(n, m, ".bak");
    case Key => SamePrefix(a, b, ".key"); SameSuffix(BACKUP_KEY_PREFIX + storeId + "_", n, m);
    case KeyTmp =>
      SamePrefix(a + ".key", b + ".key", ".bk");
      SamePrefix(a, b, ".key");
      SameSuffix(BACKUP_KEY_PREFIX + storeId + "_", n, m);
    case KeyV1 => SamePrefix(a, b, ".key_v1"); SameSuffix(BACKUP_KEY_PREFIX + storeId + "_", n, m);
  }

  /** Of two stores, only key files can share a path, and only where the names below the key prefix are the same. */
  lemma SharedPathsAreKeys(a: string, n: string, f: File, b: string, m: string, g: File)
    requires a != b && PathOf(a, n, f) == PathOf(b, m, g)
    ensures KeyName(a, n) == KeyName(b, m) && f == g && PathOf(a, n, f).dir == KeyDir
  {
    var x, y := KeyName(a, n), KeyName(b, m);
    assert PathOf(a, n, f).dir == KeyDir && PathOf(b, m, g).dir == KeyDir;
    SuffixesDiffer(x, y);
    SuffixesDiffer(y, x);
    assert f == g;
    match f
    case Key => SamePrefix(x, y, ".key");
    case KeyTmp =>
      SamePrefix(x + ".key", y + ".key", ".bk");
      SamePrefix(x, y, ".key");
    case KeyV1 => SamePrefix(x, y, ".key_v1");
  }

  /** They can: store "s" with the name "a_b" and store "s_a" with the name "b" keep their keys in the same file. */
  lemma StoresMayShareKeys()
    ensures forall f: File | f == Key || f == KeyTmp || f == KeyV1 :: PathOf("s", "a_b", f) == PathOf("s_a", "b", f)
  {
    assert "s" + "_" + "a_b" == "s_a" + "_" + "b";
    assert KeyName("s", "a_b") == BACKUP_KEY_PREFIX + ("s" + "_" + "a_b");
    assert KeyName("s_a", "b") == BACKUP_KEY_PREFIX + ("s_a" + "_" + "b");
  }

  // ---- Operations on a slot as operations on the file system ----

  predicate Injective(at: File -> Path) {
    forall f: File, g: File :: at(f) == at(g) ==> f == g
  }

  lemma AtIsInjective(storeId: string, name: string)
    ensures Injective(At(storeId, name))
  {
    forall f: File, g: File | At(storeId, name)(f) == At(storeId, name)(g) ensures f == g {
      PathsDiffer(storeId, name, f, name, g);
    }
  }

  function LiftOp(at: File -> Path, op: Op<File>): Op<Path> {
    match op
    case Create(f) => Create(at(f))
    case Write(f, c) => Write(at(f), c)
    case Delete(f) => Delete(at(f))
    case Move(f, g) => Move(at(f), at(g))
  }

  function Lift(at: File -> Path, ops: seq<Op<File>>): (r: seq<Op<Path>>)
    ensures |r| == |ops|
  {
    if ops == [] then [] else [LiftOp(at, ops[0])] + Lift(at, ops[1..])
  }

  lemma {:induction false} LiftAppend(at: File -> Path, a: seq<Op<File>>, b: seq<Op<File>>)
    ensures Lift(at, a + b) == Lift(at, a) + Lift(at, b)
  {
    if a == [] {
      assert a + b == b;
    } else {
      assert (a + b)[1..] == a[1..] + b;
      LiftAppend(at, a[1..], b);
    }
  }

  lemma {:induction false} LiftWrites(at: File -> Path, f: File, contents: seq<Bytes>)
    ensures Lift(at, Writes(f, contents)) == Writes(at(f), contents)
  {
    if contents != [] {
      LiftWrites(at, f, contents[1..]);
      assert Writes(f, contents)[1..] == Writes(f, contents[1..]);
    }
  }

  /** Two file systems agree on a path: the same contents, or missing in both. */
  predicate Agree(fs: Fs, fs': Fs, p: Path) {
    (p in fs <==> p in fs') && (p in fs ==> fs[p] == fs'[p])
  }

  predicate InSlot(at: File -> Path, p: Path) {
    exists f: File :: p == at(f)
  }

  lemma ApplyLiftFrame(fs: Fs, at: File -> Path, op: Op<File>, p: Path)
    requires !InSlot(at, p)
    ensures Agree(fs, Apply(fs, LiftOp(at, op)), p)
  {
    match op
    case Move(f, g) => assert p != at(f) && p != at(g);
    case _ => assert p != at(op.at);
  }

  lemma ApplyLiftSlot(fs: Fs, at: File -> Path, op: Op<File>)
    requires Injective(at)
    ensures SlotAt(Apply(fs, LiftOp(at, op)), at) == Apply(SlotAt(fs, at), op)
  {
    var fs', s, s' := Apply(fs, LiftOp(at, op)), SlotAt(fs, at), Apply(SlotAt(fs, at), op);
    forall f: File
      ensures at(f) in fs' <==> f in s'
      ensures f in s' ==> fs'[at(f)] == s'[f]
    {
      assert at(f) in fs <==> f in s;
      match op
      case Move(g, h) =>
        assert at(f) == at(g) <==> f == g;
        assert at(f) == at(h) <==> f == h;
        assert at(g) in fs <==> g in s;
      case _ => assert at(f) == at(op.at) <==> f == op.at;
    }
    assert SlotAt(fs', at).Keys == s'.Keys;
  }

  lemma {:induction false} ExecLift(fs: Fs, at: File -> Path, ops: seq<Op<File>>)
    requires Injective(at)
    ensures SlotAt(Exec(fs, Lift(at, ops)), at) == Exec(SlotAt(fs, at), ops)
    ensures forall p | !InSlot(at, p) :: Agree(fs, Exec(fs, Lift(at, ops)), p)
    decreases |ops|
  {
    if ops != [] {
      var next := Apply(fs, LiftOp(at, ops[0]));
      ApplyLiftSlot(fs, at, ops[0]);
      forall p | !InSlot(at, p) ensures Agree(fs, next, p) {
        ApplyLiftFrame(fs, at, ops[0], p);
      }
      ExecLift(next, at, ops[1..]);
      assert Lift(at, ops)[1..] == Lift(at, ops[1..]);
    }
  }

  lemma SlotsAreDisjoint(storeId: string, n: string, m: string, p: Path)
    requires InSlot(At(storeId, n), p) && InSlot(At(storeId, m), p)
    ensures n == m
  {
    var f: File :| p == At(storeId, n)(f);
    var g: File :| p == At(storeId, m)(g);
    PathsDiffer(storeId, n, f, m, g);
  }

  // ---- Recovery of a store ----

  /** One of the names owns the path. */
  predicate Considered(names: set<string>, storeId: string, p: Path) {
    exists n <- names :: InSlot(At(storeId, n), p)
  }

  /** `fs'` is what one complete recovery of the store makes of `fs`. */
  ghost predicate Recovered(fs: Fs, storeId: string, fs': Fs) {
    && (forall n <- Names(fs, storeId) :: SlotOf(fs', storeId, n) == Clear(SlotOf(fs, storeId, n)))
    && (forall p: Path | !Considered(Names(fs, storeId), storeId, p) :: Agree(fs, fs', p))
  }

  lemma SlotAgrees(fs: Fs, fs': Fs, at: File -> Path)
    ensures SlotAt(fs, at) == SlotAt(fs', at) <==> forall f: File :: Agree(fs, fs', at(f))
  {
    if SlotAt(fs, at) == SlotAt(fs', at) {
      forall f: File ensures Agree(fs, fs', at(f)) {
        assert f in SlotAt(fs, at) <==> f in SlotAt(fs', at);
      }
    }
  }

  /** A file in the backup directory belongs to the slot of the name it yields, or to no slot at all. */
  lemma BackupFileName(storeId: string, n: string, p: Path)
    requires InSlot(At(storeId, n), p) && p.dir == BackupDir(storeId)
    ensures GetBackupName(p.file) == n
  {
    SuffixesDiffer(n, n);
  }

  /** Recovery adds no backup name to the ones it looks at. */
  lemma NamesShrink(fs: Fs, storeId: string, fs': Fs)
    requires Recovered(fs, storeId, fs')
    ensures Names(fs', storeId) <= Names(fs, storeId)
  {
    forall m <- Names(fs', storeId) ensures m in Names(fs, storeId) {
      var p :| p in fs' && p.dir == BackupDir(storeId) && GetBackupName(p.file) == m && m != AUTO_BACKUP_NAME;
      if Considered(Names(fs, storeId), storeId, p) {
        var n :| n in Names(fs, storeId) && InSlot(At(storeId, n), p);
        BackupFileName(storeId, n, p);
      } else {
        assert Agree(fs, fs', p);
      }
    }
  }

  /** Over any directory contents, recovering a second time changes nothing. */
  lemma RecoveryIsIdempotent(fs: Fs, storeId: string, fs': Fs, fs'': Fs)
    requires Recovered(fs, storeId, fs') && Recovered(fs', storeId, fs'')
    ensures fs'' == fs'
  {
    NamesShrink(fs, storeId, fs');
    forall p: Path ensures Agree(fs', fs'', p) {
      if Considered(Names(fs', storeId), storeId, p) {
        var n :| n in Names(fs', storeId) && InSlot(At(storeId, n), p);
        var f: File :| p == At(storeId, n)(f);
        ClearSettles(SlotOf(fs, storeId, n));
        SlotAgrees(fs', fs'', At(storeId, n));
      }
    }
    assert fs''.Keys == fs'.Keys by {
      forall p: Path ensures p in fs' <==> p in fs'' { assert Agree(fs', fs'', p); }
    }
    forall p <- fs' ensures fs'[p] == fs''[p] { assert Agree(fs', fs'', p); }
  }

  lemma ForeignSlot(fs: Fs, storeId: string, fs': Fs, name: string)
    requires Recovered(fs, storeId, fs') && name !in Names(fs, storeId)
    ensures SlotOf(fs', storeId, name) == SlotOf(fs, storeId, name)
  {
    forall f: File ensures Agree(fs, fs', At(storeId, name)(f)) {
      var p := At(storeId, name)(f);
      assert InSlot(At(storeId, name), p);
      if Considered(Names(fs, storeId), storeId, p) {
        var n :| n in Names(fs, storeId) && InSlot(At(storeId, n), p);
        SlotsAreDisjoint(storeId, n, name, p);
      }
    }
    SlotAgrees(fs, fs', At(storeId, name));
  }

  lemma Listed(fs: Fs, storeId: string, name: string)
    requires name != AUTO_BACKUP_NAME
    requires Data in SlotOf(fs, storeId, name) || DataTmp in SlotOf(fs, storeId, name)
    ensures name in Names(fs, storeId)
  {
    SuffixesDiffer(name, name);
    var f: File := if Data in SlotOf(fs, storeId, name) then Data else DataTmp;
    assert At(storeId, name)(f) in fs;
    assert GetBackupName(At(storeId, name)(f).file) == name;
  }

  /**
   What a recovery does to any name, whether or not the directory listing mentions it: nothing without
   `.bk` residue, a restorable pair as computed from its own files alone, and a leftover `.bk` file in
   one case only: the key's, when no file of that name is left in the backup directory.
   */
  lemma RecoveryPerName(fs: Fs, storeId: string, fs': Fs, name: string)
    requires Recovered(fs, storeId, fs') && name != AUTO_BACKUP_NAME
    ensures var s, s' := SlotOf(fs, storeId, name), SlotOf(fs', storeId, name);
            && View(s') == View(Clear(s))
            && (DataTmp !in s && KeyTmp !in s ==> s' == s)
            && DataTmp !in s'
            && (KeyTmp in s' <==> KeyTmp in s && name !in Names(fs, storeId))
  {
    var s := SlotOf(fs, storeId, name);
    ClearSettles(s);
    if name !in Names(fs, storeId) {
      ForeignSlot(fs, storeId, fs', name);
      if Data in s || DataTmp in s { Listed(fs, storeId, name); }
    }
  }

  // ---- Crash and recovery of one Backup, on the whole file system ----

  function BackupOps(fs: Fs, storeId: string, name: string, p: Plan): seq<Op<Path>> {
    Lift(At(storeId, name), BackupSteps(SlotOf(fs, storeId, name), p))
  }

  lemma {:induction false} LiftPrefix(at: File -> Path, ops: seq<Op<File>>, i: nat)
    requires i <= |ops|
    ensures Lift(at, ops)[..i] == Lift(at, ops[..i])
  {
    if i > 0 {
      LiftPrefix(at, ops[1..], i - 1);
      assert ops[..i][1..] == ops[1..][..i - 1];
    }
  }

  /** Operations on one name's files leave the files of every other name alone. */
  lemma ExecOnName(fs: Fs, storeId: string, name: string, ops: seq<Op<File>>)
    ensures var fs' := Exec(fs, Lift(At(storeId, name), ops));
            && SlotOf(fs', storeId, name) == Exec(SlotOf(fs, storeId, name), ops)
            && (forall m | m != name :: SlotOf(fs', storeId, m) == SlotOf(fs, storeId, m))
            && (forall p | !InSlot(At(storeId, name), p) :: Agree(fs, fs', p))
  {
    var at := At(storeId, name);
    var fs' := Exec(fs, Lift(at, ops));
    AtIsInjective(storeId, name);
    ExecLift(fs, at, ops);
    forall m | m != name ensures SlotOf(fs', storeId, m) == SlotOf(fs, storeId, m) {
      forall f: File ensures Agree(fs, fs', At(storeId, m)(f)) {
        var q := At(storeId, m)(f);
        assert InSlot(At(storeId, m), q);
        if InSlot(at, q) { SlotsAreDisjoint(storeId, m, name, q); }
      }
      SlotAgrees(fs, fs', At(storeId, m));
    }
  }

  /**
   A crash after any number of steps of a Backup, followed by one recovery of the store: the name has its
   old pair or the finished new one, and every other name keeps the pair it had.  The key may go to either file,
   as long as one Backup of the name is crash-atomic.
   */
  lemma CrashThenRecover(fs: Fs, storeId: string, name: string, p: Plan, i: nat, fs': Fs)
    requires p.Valid() && name != AUTO_BACKUP_NAME
    requires Settled(SlotOf(fs, storeId, name), p.encrypted) && Covered(SlotOf(fs, storeId, name), p)
    requires i <= |BackupOps(fs, storeId, name, p)|
    requires Recovered(Exec(fs, BackupOps(fs, storeId, name, p)[..i]), storeId, fs')
    ensures var v := View(SlotOf(fs', storeId, name));
            v == View(SlotOf(fs, storeId, name)) || (p.exportOk && v == Finished(p))
    ensures forall m | m != name && m != AUTO_BACKUP_NAME ::
              View(SlotOf(fs', storeId, m)) == View(Clear(SlotOf(fs, storeId, m)))
  {
    var s := SlotOf(fs, storeId, name);
    var fs1 := Exec(fs, BackupOps(fs, storeId, name, p)[..i]);
    LiftPrefix(At(storeId, name), BackupSteps(s, p), i);
    ExecOnName(fs, storeId, name, BackupSteps(s, p)[..i]);
    BackupIsCrashAtomic(s, p);
    RecoveryPerName(fs1, storeId, fs', name);
    assert Sees(View, s, p, Exec(s, BackupSteps(s, p)[..i]));
    if p.exportOk { FinishedView(p); }
    forall m | m != name && m != AUTO_BACKUP_NAME
      ensures View(SlotOf(fs', storeId, m)) == View(Clear(SlotOf(fs, storeId, m))) {
      RecoveryPerName(fs1, storeId, fs', m);
    }
  }
}
