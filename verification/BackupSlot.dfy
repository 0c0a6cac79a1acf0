/**
 The files that belong to one backup name, the file operations Backup issues on them, and what
 recovery makes of whatever a crash left behind.

 A slot is the part of the file system that belongs to one name: the backup, the key, their `.bk`
 copies, and the key in the newer `.key_v1` format.  Backup and recovery are lists of atomic file
 operations, so a crash is a prefix of such a list.
 */
module BackupSlot {

  import opened ByteCodes
  import opened Options

  datatype File = Data | DataTmp | Key | KeyTmp | KeyV1

  type Slot = map<File, Bytes>

  /** The system calls behind StoreUtil; `P` is a path. */
  datatype Op<P> =
    | Create(at: P)
    | Write(at: P, contents: Bytes)
    | Delete(at: P)
    | Move(from: P, to: P)

  function Apply<P>(m: map<P, Bytes>, op: Op<P>): map<P, Bytes> {
    match op
    case Create(f) => if f in m then m else m[f := []]
    case Write(f, c) => m[f := c]
    case Delete(f) => m - {f}
    case Move(f, g) => if f in m then (m - {f})[g := m[f]] else m
  }

  function Exec<P>(m: map<P, Bytes>, ops: seq<Op<P>>): map<P, Bytes>
    decreases |ops|
  {
    if ops == [] then m else Exec(Apply(m, ops[0]), ops[1..])
  }

  /** Every state `ops` passes through after `m`, in order. */
  function Trace<P>(m: map<P, Bytes>, ops: seq<Op<P>>): (states: seq<map<P, Bytes>>)
    ensures |states| == |ops|
    decreases |ops|
  {
    if ops == [] then [] else [Apply(m, ops[0])] + Trace(Apply(m, ops[0]), ops[1..])
  }

  function Writes<P>(f: P, contents: seq<Bytes>): (ops: seq<Op<P>>)
    ensures |ops| == |contents|
  {
    if contents == [] then [] else [Write(f, contents[0])] + Writes(f, contents[1..])
  }

  function KeepOps<P>(f: P, tmp: P, isCreated: bool): seq<Op<P>> {
    if isCreated then [Create(tmp)] else [Delete(tmp), Move(f, tmp)]
  }

  function RollBackOps<P>(f: P, tmp: P, isCreated: bool): seq<Op<P>> {
    if isCreated then [Delete(f), Delete(tmp)] else [Delete(f), Delete(f), Move(tmp, f)]
  }

  /**
   One call of Backup.  `exported` lists the successive contents of the backup file while it is being
   exported and `saved` those of the key file while it is being stored, so both may pass through
   partial contents; the last element is the finished file.  `target` is the file the key is stored in.
   */
  datatype Plan = Plan(encrypted: bool, exportOk: bool, exported: seq<Bytes>, saved: seq<Bytes>, target: File) {
    predicate Valid() {
      && (target == Key || target == KeyV1)
      && (exportOk ==> exported != [])
      && (exportOk && encrypted ==> saved != [])
    }
  }

  function Steps(p: Plan, isCreate: bool): seq<Op<File>> {
    Prepare(p, isCreate) + Writes(Data, p.exported) + Finish(p, isCreate)
  }

  predicate IsCreate(s: Slot) {
    Data !in s
  }

  function BackupSteps(s0: Slot, p: Plan): seq<Op<File>> {
    Steps(p, IsCreate(s0))
  }

  function Prepare(p: Plan, isCreate: bool): seq<Op<File>> {
    KeepOps(Data, DataTmp, isCreate) + (if p.encrypted then KeepOps(Key, KeyTmp, isCreate) else [])
  }

  function Finish(p: Plan, isCreate: bool): seq<Op<File>> {
    if p.exportOk then
      (if p.encrypted then Writes(p.target, p.saved) + [Delete(KeyTmp)] else []) + [Delete(DataTmp)]
    else
      RollBackOps(Data, DataTmp, isCreate) + (if p.encrypted then RollBackOps(Key, KeyTmp, isCreate) else [])
  }

  datatype ClearType = DoNothing | RollbackData | RollbackKey | Rollback | CleanTmp

  datatype ResidueInfo = ResidueInfo(
    tmpBackupSize: nat, tmpKeySize: nat,
    hasRawBackup: bool, hasTmpBackup: bool, hasRawKey: bool, hasTmpKey: bool)

  function Residue(s: Slot): ResidueInfo {
    ResidueInfo(
      if DataTmp in s then |s[DataTmp]| else 0, if KeyTmp in s then |s[KeyTmp]| else 0,
      Data in s, DataTmp in s, Key in s, KeyTmp in s)
  }

  /** What to do about residue, by which of the files are there. */
  function ChooseClear(info: ResidueInfo): ClearType {
    match (info.hasTmpBackup, info.hasTmpKey)
    case (false, false) => DoNothing
    case (true, true) => Rollback
    case (true, false) => if info.hasRawBackup && info.hasRawKey then CleanTmp else RollbackData
    case (false, true) => if info.hasRawBackup && info.hasRawKey then CleanTmp else RollbackKey
  }

  function ClearOps(info: ResidueInfo): seq<Op<File>> {
    match ChooseClear(info)
    case DoNothing => []
    case RollbackData => RollBackOps(Data, DataTmp, info.tmpBackupSize == 0)
    case RollbackKey => RollBackOps(Key, KeyTmp, info.tmpKeySize == 0)
    case Rollback =>
      RollBackOps(Data, DataTmp, info.tmpBackupSize == 0) + RollBackOps(Key, KeyTmp, info.tmpKeySize == 0)
    case CleanTmp => [Delete(DataTmp), Delete(KeyTmp)]
  }

  /** Where RollBackData leaves the file `f`. */
  function Undone<P>(m: map<P, Bytes>, f: P, tmp: P, isCreated: bool): map<P, Bytes> {
    if isCreated then m - {f, tmp} else if tmp in m then (m - {tmp})[f := m[tmp]] else m - {f}
  }

  /** Recovery takes an empty `.bk` file for the marker of a first backup. */
  function RolledBack<P>(m: map<P, Bytes>, f: P, tmp: P): map<P, Bytes>
    requires tmp in m
  {
    Undone(m, f, tmp, m[tmp] == [])
  }

  /** What one complete recovery makes of the files of a name. */
  function Clear(s: Slot): Slot {
    match ChooseClear(Residue(s))
    case DoNothing => s
    case RollbackData => RolledBack(s, Data, DataTmp)
    case RollbackKey => RolledBack(s, Key, KeyTmp)
    case Rollback => RolledBack(RolledBack(s, Data, DataTmp), Key, KeyTmp)
    case CleanTmp => s - {DataTmp, KeyTmp}
  }

  // ---- What a later Restore sees ----

  /** The key Restore would use: the `.key_v1` file if there is one, else the `.key` file. */
  function KeyInForce(s: Slot): Option<Bytes> {
    if KeyV1 in s then Some(s[KeyV1]) else if Key in s then Some(s[Key]) else None
  }

  /** The restorable pair of a name; a name without a backup file restores nothing. */
  function View(s: Slot): Option<(Bytes, Option<Bytes>)> {
    if Data in s then Some((s[Data], KeyInForce(s))) else None
  }

  function Finished(p: Plan): Option<(Bytes, Option<Bytes>)>
    requires p.Valid() && p.exportOk
  {
    Some((p.exported[|p.exported| - 1], if p.encrypted then Some(p.saved[|p.saved| - 1]) else None))
  }

  /** The files of a name after a finished Backup. */
  function NewSlot(p: Plan): Slot
    requires p.Valid() && p.exportOk
  {
    var s: Slot := map[Data := p.exported[|p.exported| - 1]];
    if p.encrypted then s[p.target := p.saved[|p.saved| - 1]] else s
  }

  /**
   No residue, a backup that is not empty and has a key exactly when it is encrypted, and no `.key` file that is
   empty or without a backup.  A `.key_v1` file may be without a backup, and may be beside a `.key` file.
   */
  predicate Settled(s: Slot, encrypted: bool) {
    && DataTmp !in s && KeyTmp !in s
    && (Data in s ==> s[Data] != [] && (KeyInForce(s).Some? <==> encrypted))
    && (Key in s ==> s[Key] != [] && Data in s)
    && (KeyV1 in s ==> encrypted)
  }

  /** Recovery makes of `s` the files Backup found or the finished new ones. */
  predicate Restores(s0: Slot, p: Plan, s: Slot) {
    Clear(s) == s0 || (p.Valid() && p.exportOk && Clear(s) == NewSlot(p))
  }

  function Good(s0: Slot, p: Plan): Slot -> bool {
    s => Restores(s0, p, s)
  }

  /** The same as far as `view` can tell the files apart. */
  predicate Sees<T(==)>(view: Slot -> T, s0: Slot, p: Plan, s: Slot) {
    view(Clear(s)) == view(s0) || (p.Valid() && p.exportOk && view(Clear(s)) == view(NewSlot(p)))
  }

  function GoodView<T(==)>(view: Slot -> T, s0: Slot, p: Plan): Slot -> bool {
    s => Sees(view, s0, p, s)
  }

  /** Every crash point of one Backup recovers to what is, to `view`, the old files or the finished new ones. */
  predicate AtomicFor<T(==)>(view: Slot -> T, s0: Slot, p: Plan) {
    var ops := BackupSteps(s0, p);
    forall i | 0 <= i <= |ops| :: Sees(view, s0, p, Exec(s0, ops[..i]))
  }

  /** Every crash point of one Backup recovers to the old or to the finished new pair. */
  predicate CrashAtomic(s0: Slot, p: Plan) {
    AtomicFor(View, s0, p)
  }

  lemma FinishedView(p: Plan)
    requires p.Valid() && p.exportOk
    ensures View(NewSlot(p)) == Finished(p)
  {
  }

  // ---- Executing lists of operations ----

  lemma {:induction false} ExecAppend<P>(m: map<P, Bytes>, a: seq<Op<P>>, b: seq<Op<P>>)
    ensures Exec(m, a + b) == Exec(Exec(m, a), b)
    ensures Trace(m, a + b) == Trace(m, a) + Trace(Exec(m, a), b)
    decreases |a|
  {
    if a == [] {
      assert a + b == b;
    } else {
      assert (a + b)[1..] == a[1..] + b;
      ExecAppend(Apply(m, a[0]), a[1..], b);
    }
  }

  lemma {:induction false} TraceIsPrefixes<P>(m: map<P, Bytes>, ops: seq<Op<P>>, i: nat)
    requires i < |ops|
    ensures Trace(m, ops)[i] == Exec(m, ops[..i + 1])
    decreases i
  {
    if i == 0 {
      assert ops[..1] == [ops[0]];
      assert ops[..1][1..] == [];
    } else {
      TraceIsPrefixes(Apply(m, ops[0]), ops[1..], i - 1);
      assert ops[..i + 1][1..] == ops[1..][..i];
    }
  }

  /** Every state along `ops`, the first included, satisfies `ok`. */
  predicate SafeAlong(ok: Slot -> bool, s: Slot, ops: seq<Op<File>>)
    decreases |ops|
  {
    ok(s) && (ops != [] ==> SafeAlong(ok, Apply(s, ops[0]), ops[1..]))
  }

  lemma {:induction false} SafeAppend(ok: Slot -> bool, s: Slot, a: seq<Op<File>>, b: seq<Op<File>>)
    ensures SafeAlong(ok, s, a + b) <==> SafeAlong(ok, s, a) && SafeAlong(ok, Exec(s, a), b)
    decreases |a|
  {
    if a == [] {
      assert a + b == b;
    } else {
      assert (a + b)[1..] == a[1..] + b;
      SafeAppend(ok, Apply(s, a[0]), a[1..], b);
    }
  }

  lemma {:induction false} SafeIsEveryPrefix(ok: Slot -> bool, s: Slot, ops: seq<Op<File>>)
    ensures SafeAlong(ok, s, ops) <==> forall i | 0 <= i <= |ops| :: ok(Exec(s, ops[..i]))
    decreases |ops|
  {
    assert Exec(s, ops[..0]) == s;
    if ops != [] {
      var next := Apply(s, ops[0]);
      SafeIsEveryPrefix(ok, next, ops[1..]);
      forall i | 1 <= i <= |ops| ensures Exec(s, ops[..i]) == Exec(next, ops[1..][..i - 1]) {
        assert ops[..i][1..] == ops[1..][..i - 1];
      }
      if forall i | 0 <= i <= |ops| :: ok(Exec(s, ops[..i])) {
        forall i | 0 <= i <= |ops[1..]| ensures ok(Exec(next, ops[1..][..i])) {
          assert ok(Exec(s, ops[..i + 1]));
        }
      }
    }
  }

  lemma ExecOne<P>(m: map<P, Bytes>, a: Op<P>)
    ensures Exec(m, [a]) == Apply(m, a)
  {
    var ops := [a];
    assert ops[1..] == [];
    assert Exec(m, ops) == Exec(Apply(m, ops[0]), ops[1..]);
  }

  lemma ExecTwo<P>(m: map<P, Bytes>, a: Op<P>, b: Op<P>)
    ensures Exec(m, [a, b]) == Apply(Apply(m, a), b)
  {
    var ops := [a, b];
    assert ops[1..] == [b];
    assert Exec(m, ops) == Exec(Apply(m, ops[0]), ops[1..]);
    ExecOne(Apply(m, a), b);
  }

  lemma ExecShort<P>(m: map<P, Bytes>, a: Op<P>, b: Op<P>, c: Op<P>)
    ensures Exec(m, [a]) == Apply(m, a)
    ensures Exec(m, [a, b]) == Apply(Apply(m, a), b)
    ensures Exec(m, [a, b, c]) == Apply(Apply(Apply(m, a), b), c)
  {
    ExecOne(m, a);
    ExecTwo(m, a, b);
    var ops := [a, b, c];
    assert ops[1..] == [b, c];
    assert Exec(m, ops) == Exec(Apply(m, ops[0]), ops[1..]);
    ExecTwo(Apply(m, a), b, c);
  }

  lemma SafeOne(ok: Slot -> bool, s: Slot, a: Op<File>)
    ensures SafeAlong(ok, s, [a]) <==> ok(s) && ok(Apply(s, a))
  {
    var ops := [a];
    assert ops[1..] == [];
    assert SafeAlong(ok, s, ops) <==> ok(s) && SafeAlong(ok, Apply(s, ops[0]), ops[1..]);
  }

  lemma SafeTwo(ok: Slot -> bool, s: Slot, a: Op<File>, b: Op<File>)
    ensures SafeAlong(ok, s, [a, b]) <==> ok(s) && ok(Apply(s, a)) && ok(Apply(Apply(s, a), b))
  {
    var ops := [a, b];
    assert ops[1..] == [b];
    assert SafeAlong(ok, s, ops) <==> ok(s) && SafeAlong(ok, Apply(s, ops[0]), ops[1..]);
    SafeOne(ok, Apply(s, a), b);
  }

  lemma {:induction false} SafeShort(ok: Slot -> bool, s: Slot, a: Op<File>, b: Op<File>, c: Op<File>)
    ensures SafeAlong(ok, s, [a]) <==> ok(s) && ok(Apply(s, a))
    ensures SafeAlong(ok, s, [a, b]) <==>
            SafeAlong(ok, s, [a]) && ok(Apply(Apply(s, a), b))
    ensures SafeAlong(ok, s, [a, b, c]) <==>
            SafeAlong(ok, s, [a, b]) && ok(Apply(Apply(Apply(s, a), b), c))
  {
    SafeOne(ok, s, a);
    SafeTwo(ok, s, a, b);
    var ops := [a, b, c];
    assert ops[1..] == [b, c];
    assert SafeAlong(ok, s, ops) <==> ok(s) && SafeAlong(ok, Apply(s, ops[0]), ops[1..]);
    SafeTwo(ok, Apply(s, a), b, c);
  }

  lemma {:induction false} SafeWeaker(ok: Slot -> bool, ok': Slot -> bool, s: Slot, ops: seq<Op<File>>)
    requires SafeAlong(ok, s, ops) && forall t: Slot | ok(t) :: ok'(t)
    ensures SafeAlong(ok', s, ops)
    decreases |ops|
  {
    if ops != [] {
      SafeWeaker(ok, ok', Apply(s, ops[0]), ops[1..]);
    }
  }

  lemma {:induction false} ExecWrites<P>(m: map<P, Bytes>, f: P, contents: seq<Bytes>)
    ensures Exec(m, Writes(f, contents)) == if contents == [] then m else m[f := contents[|contents| - 1]]
    decreases |contents|
  {
    if contents != [] {
      var ops := Writes(f, contents);
      var next := m[f := contents[0]];
      assert ops[1..] == Writes(f, contents[1..]);
      assert Exec(m, ops) == Exec(next, Writes(f, contents[1..]));
      ExecWrites(next, f, contents[1..]);
      var last := contents[|contents| - 1];
      assert next[f := last] == m[f := last];
    }
  }

  /** Rewriting one file is safe exactly when it is safe with every contents it passes through. */
  lemma {:induction false} SafeWrites(ok: Slot -> bool, s: Slot, f: File, contents: seq<Bytes>)
    requires ok(s)
    requires forall c <- contents :: ok(s[f := c])
    ensures SafeAlong(ok, s, Writes(f, contents))
    decreases |contents|
  {
    if contents != [] {
      var next := s[f := contents[0]];
      assert contents[0] in contents;
      forall c <- contents[1..] ensures next[f := c] == s[f := c] && c in contents {
      }
      SafeWrites(ok, next, f, contents[1..]);
      assert Writes(f, contents)[1..] == Writes(f, contents[1..]);
    }
  }

  lemma {:induction false} WritesPassThrough(ok: Slot -> bool, s: Slot, f: File, contents: seq<Bytes>, c: Bytes)
    requires SafeAlong(ok, s, Writes(f, contents)) && c in contents
    ensures ok(s[f := c])
    decreases |contents|
  {
    var next := s[f := contents[0]];
    assert Writes(f, contents)[1..] == Writes(f, contents[1..]);
    if c != contents[0] {
      assert c in contents[1..];
      WritesPassThrough(ok, next, f, contents[1..], c);
      assert next[f := c] == s[f := c];
    }
  }

  // ---- What recovery does, in closed form ----

  lemma ExecRollBack<P>(m: map<P, Bytes>, f: P, tmp: P, isCreated: bool)
    requires f != tmp
    ensures Exec(m, RollBackOps(f, tmp, isCreated)) == Undone(m, f, tmp, isCreated)
  {
    ExecShort(m, Delete(f), Delete(tmp), Delete(tmp));
    ExecShort(m, Delete(f), Delete(f), Move(tmp, f));
  }

  /** Where KeepData leaves the file `f`. */
  function SetAside<P>(m: map<P, Bytes>, f: P, tmp: P, isCreated: bool): map<P, Bytes> {
    if isCreated then m[tmp := []] else if f in m then (m - {f})[tmp := m[f]] else m
  }

  lemma ExecKeep<P>(m: map<P, Bytes>, f: P, tmp: P, isCreated: bool)
    requires tmp !in m
    ensures Exec(m, KeepOps(f, tmp, isCreated)) == SetAside(m, f, tmp, isCreated)
  {
    assert m - {tmp} == m;
    ExecShort(m, Create(tmp), Create(tmp), Create(tmp));
    ExecShort(m, Delete(tmp), Move(f, tmp), Create(tmp));
  }

  lemma ClearExecutes(s: Slot)
    ensures Exec(s, ClearOps(Residue(s))) == Clear(s)
  {
    match ChooseClear(Residue(s))
    case DoNothing =>
    case RollbackData => ExecRollBack(s, Data, DataTmp, |s[DataTmp]| == 0);
    case RollbackKey => ExecRollBack(s, Key, KeyTmp, |s[KeyTmp]| == 0);
    case Rollback =>
      ExecAppend(s, RollBackOps(Data, DataTmp, |s[DataTmp]| == 0), RollBackOps(Key, KeyTmp, |s[KeyTmp]| == 0));
      ExecRollBack(s, Data, DataTmp, |s[DataTmp]| == 0);
      ExecRollBack(RolledBack(s, Data, DataTmp), Key, KeyTmp, |s[KeyTmp]| == 0);
    case CleanTmp =>
      assert Exec(s - {DataTmp}, [Delete(KeyTmp)]) == s - {DataTmp} - {KeyTmp};
      assert [Delete(DataTmp), Delete(KeyTmp)][1..] == [Delete(KeyTmp)];
      assert s - {DataTmp} - {KeyTmp} == s - {DataTmp, KeyTmp};
  }

  /** Whatever the files of a name were, one recovery leaves no `.bk` file among them and a second changes nothing. */
  lemma ClearSettles(s: Slot)
    ensures DataTmp !in Clear(s) && KeyTmp !in Clear(s)
    ensures Clear(Clear(s)) == Clear(s)
    ensures KeyV1 in s <==> KeyV1 in Clear(s)
    ensures KeyV1 in s ==> Clear(s)[KeyV1] == s[KeyV1]
  {
  }

  /** Two slots are the same when they agree on each of the five files. */
  lemma SameSlot(a: Slot, b: Slot)
    requires SameFile(a, b, Data) && SameFile(a, b, DataTmp) && SameFile(a, b, Key)
    requires SameFile(a, b, KeyTmp) && SameFile(a, b, KeyV1)
    ensures a == b
  {
    forall f: File ensures SameFile(a, b, f) {
      match f case Data => case DataTmp => case Key => case KeyTmp => case KeyV1 =>
    }
    forall f: File ensures f in a.Keys <==> f in b.Keys {
      assert SameFile(a, b, f);
    }
    assert a.Keys == b.Keys;
    forall f <- a ensures a[f] == b[f] {
      assert SameFile(a, b, f);
    }
  }

  predicate SameFile(a: Slot, b: Slot, f: File) {
    (f in a <==> f in b) && (f in a ==> a[f] == b[f])
  }

  lemma {:induction false} SafeKeep(ok: Slot -> bool, s: Slot, f: File, tmp: File, isCreated: bool)
    requires tmp !in s
    requires ok(s) && ok(SetAside(s, f, tmp, isCreated))
    ensures SafeAlong(ok, s, KeepOps(f, tmp, isCreated))
  {
    assert s - {tmp} == s;
    SafeShort(ok, s, Create(tmp), Create(tmp), Create(tmp));
    SafeShort(ok, s, Delete(tmp), Move(f, tmp), Create(tmp));
  }

  lemma {:induction false} SafeRollBack(ok: Slot -> bool, s: Slot, f: File, tmp: File, isCreated: bool)
    requires f != tmp
    requires ok(s) && ok(s - {f}) && ok(Undone(s, f, tmp, isCreated))
    ensures SafeAlong(ok, s, RollBackOps(f, tmp, isCreated))
  {
    var d := s - {f};
    if isCreated {
      assert d - {tmp} == Undone(s, f, tmp, true);
      SafeShort(ok, s, Delete(f), Delete(tmp), Delete(f));
    } else {
      assert d - {f} == d;
      assert Apply(d, Move(tmp, f)) == Undone(s, f, tmp, false);
      SafeShort(ok, s, Delete(f), Delete(f), Move(tmp, f));
    }
  }
}
