/**
 Acl as an object, and the binary image of its entries in an extended attribute.
 */
module Acl {

  import opened ByteCodes
  import opened AclSpec

  const ACL_EA_VERSION: nat := 0x0002
  const HEADER_SIZE: nat := 4
  const ENTRY_SIZE: nat := 8
  const BUF_SIZE: nat := 400
  const BUF_MAX_SIZE: nat := HEADER_SIZE + ENTRY_SIZE * ENTRIES_MAX_NUM
  const TAG_LIMIT: nat := 0x1_0000

  // ---- The image ----

  function PermValue(p: Perm): nat {
    (if Read in p then 4 else 0) + (if Write in p then 2 else 0) + (if Execute in p then 1 else 0)
  }

  function PermOf(n: nat): Perm {
    (if n / 4 % 2 == 1 then {Read} else {}) + (if n / 2 % 2 == 1 then {Write} else {}) + (if n % 2 == 1 then {Execute} else {})
  }

  lemma PermRoundTrip(p: Perm)
    ensures PermValue(p) < 8 && PermOf(PermValue(p)) == p
  {
    forall r ensures r in PermOf(PermValue(p)) <==> r in p {
      match r
      case Read =>
      case Write =>
      case Execute =>
    }
  }

  function ToLittle16(n: nat): (s: Bytes)
    requires n < TAG_LIMIT
    ensures |s| == 2
  {
    [n % 0x100, n / 0x100]
  }

  function FromLittle16(s: Bytes): (n: nat)
    requires |s| == 2
    ensures n < TAG_LIMIT
  {
    s[0] as int + 0x100 * s[1] as int
  }

  /** Tag, rights and id, in two, two and four bytes. */
  function EntryBytes(e: Entry): (s: Bytes)
    requires e.tag < TAG_LIMIT && e.id < ID_LIMIT
    ensures |s| == ENTRY_SIZE
  {
    PermRoundTrip(e.perm);
    ToLittle16(e.tag) + ToLittle16(PermValue(e.perm)) + ToLittleEndian(e.id)
  }

  function EntryOf(s: Bytes): (e: Entry)
    requires |s| == ENTRY_SIZE
    ensures e.tag < TAG_LIMIT && e.id < ID_LIMIT
  {
    Entry(FromLittle16(s[..2]), FromLittleEndian(s[4..]), PermOf(FromLittle16(s[2..4])))
  }

  lemma EntryRoundTrip(e: Entry)
    requires e.tag < TAG_LIMIT && e.id < ID_LIMIT
    ensures EntryOf(EntryBytes(e)) == e
  {
    var s := EntryBytes(e);
    PermRoundTrip(e.perm);
    assert s[..2] == ToLittle16(e.tag) && s[2..4] == ToLittle16(PermValue(e.perm)) && s[4..] == ToLittleEndian(e.id);
    LittleEndianRoundTrip(e.id);
  }

  predicate Writable(es: seq<Entry>) {
    forall e <- es :: e.tag < TAG_LIMIT && e.id < ID_LIMIT
  }

  function Body(es: seq<Entry>): (s: Bytes)
    requires Writable(es)
    ensures |s| == ENTRY_SIZE * |es|
  {
    if es == [] then [] else EntryBytes(es[0]) + Body(es[1..])
  }

  function Image(version: nat, es: seq<Entry>): (s: Bytes)
    requires version < 0x1_0000_0000 && Writable(es)
    ensures |s| == HEADER_SIZE + ENTRY_SIZE * |es|
  {
    ToLittleEndian(version) + Body(es)
  }

  /** The entries of an image, up to an undefined tag or to where no entry fits. */
  function Entries(s: Bytes): seq<Entry> {
    if |s| < ENTRY_SIZE || EntryOf(s[..ENTRY_SIZE]).tag == UNDEFINED then []
    else [EntryOf(s[..ENTRY_SIZE])] + Entries(s[ENTRY_SIZE..])
  }

  lemma EntriesCons(a: Bytes, rest: Bytes)
    requires |a| == ENTRY_SIZE && EntryOf(a).tag != UNDEFINED
    ensures Entries(a + rest) == [EntryOf(a)] + Entries(rest)
  {
    assert (a + rest)[..ENTRY_SIZE] == a && (a + rest)[ENTRY_SIZE..] == rest;
  }

  lemma EntriesOfZeros(n: nat)
    ensures Entries(Zeros(n)) == []
  {
    if n >= ENTRY_SIZE {
      assert Zeros(n)[..ENTRY_SIZE][..2] == [0, 0];
    }
  }

  /** Neither the end of the buffer nor zeros behind the image change what is read. */
  lemma {:induction false} EntriesOfBody(es: seq<Entry>, padding: nat)
    requires Writable(es) && forall e <- es :: e.tag != UNDEFINED
    ensures Entries(Body(es) + Zeros(padding)) == es
  {
    if es == [] {
      assert Body(es) + Zeros(padding) == Zeros(padding);
      EntriesOfZeros(padding);
    } else {
      var a, b, z := EntryBytes(es[0]), Body(es[1..]), Zeros(padding);
      EntryRoundTrip(es[0]);
      EntriesCons(a, b + z);
      assert a + b + z == a + (b + z);
      EntriesOfBody(es[1..], padding);
    }
  }

  /** What DeSerialize makes of the bytes behind the header. */
  function Restored(s: Bytes): seq<Entry> {
    InsertedAll([], Entries(s))
  }

  lemma GoodIsWritable(es: seq<Entry>)
    requires Good(es)
    ensures Writable(es) && forall e <- es :: e.tag != UNDEFINED
  {
  }

  /** The image of a set gives the set back, also from a longer buffer of zeros. */
  lemma ImageRoundTrip(es: seq<Entry>, version: nat, padding: nat)
    requires Good(es) && version < 0x1_0000_0000
    ensures Writable(es)
    ensures var s := Image(version, es) + Zeros(padding);
            FromLittleEndian(s[..HEADER_SIZE]) == version && Restored(s[HEADER_SIZE..]) == es
  {
    GoodIsWritable(es);
    var s := Image(version, es) + Zeros(padding);
    assert s[..HEADER_SIZE] == ToLittleEndian(version) && s[HEADER_SIZE..] == Body(es) + Zeros(padding);
    LittleEndianRoundTrip(version);
    EntriesOfBody(es, padding);
    LoadRestores(es);
  }

  /** Writing never fails for lack of room, but a set can be read from a file exactly when it has at most 49 entries. */
  lemma ImageFits(es: seq<Entry>, version: nat)
    requires Good(es) && version < 0x1_0000_0000
    ensures Writable(es) && |Image(version, es)| <= BUF_MAX_SIZE
    ensures |Image(version, es)| <= BUF_SIZE <==> |es| <= 49
  {
    GoodIsWritable(es);
  }

  // ---- The object ----

  lemma {:induction false} BodyPush(es: seq<Entry>, e: Entry)
    requires Writable(es + [e])
    ensures Writable(es) && e.tag < TAG_LIMIT && e.id < ID_LIMIT && Body(es + [e]) == Body(es) + EntryBytes(e)
  {
    assert e in es + [e] && forall x <- es :: x in es + [e];
    if es == [] {
      assert es + [e] == [e] && [e][0] == e && |[e][1..]| == 0;
      assert Body([e]) == EntryBytes(e) + Body([e][1..]);
    } else {
      assert (es + [e])[0] == es[0] && (es + [e])[1..] == es[1..] + [e];
      BodyPush(es[1..], e);
      assert EntryBytes(es[0]) + (Body(es[1..]) + EntryBytes(e)) == EntryBytes(es[0]) + Body(es[1..]) + EntryBytes(e);
    }
  }

  lemma BodyAt(es: seq<Entry>, i: nat)
    requires Writable(es) && i < |es|
    ensures Body(es[..i + 1]) == Body(es[..i]) + EntryBytes(es[i])
  {
    assert es[..i + 1] == es[..i] + [es[i]];
    BodyPush(es[..i], es[i]);
  }

  /** What writing entry `i` behind those before it makes of a buffer. */
  lemma Written(was: Bytes, now: Bytes, es: seq<Entry>, i: nat)
    requires Writable(es) && i < |es| && |was| == |now| == HEADER_SIZE + ENTRY_SIZE * |es|
    requires var at := HEADER_SIZE + ENTRY_SIZE * i;
             && was[HEADER_SIZE..at] == Body(es[..i]) && now[at..at + ENTRY_SIZE] == EntryBytes(es[i])
             && forall j | 0 <= j < at :: was[j] == now[j]
    ensures now[..HEADER_SIZE] == was[..HEADER_SIZE]
    ensures now[HEADER_SIZE..HEADER_SIZE + ENTRY_SIZE * (i + 1)] == Body(es[..i + 1])
  {
    var at := HEADER_SIZE + ENTRY_SIZE * i;
    BodyAt(es, i);
    assert now[HEADER_SIZE..at] == was[HEADER_SIZE..at];
    assert now[HEADER_SIZE..at + ENTRY_SIZE] == now[HEADER_SIZE..at] + now[at..at + ENTRY_SIZE];
  }

  lemma EntriesNext(p: Bytes, at: nat, run: seq<Entry>)
    requires at + ENTRY_SIZE <= |p| && EntryOf(p[at..at + ENTRY_SIZE]).tag != UNDEFINED
    ensures run + Entries(p[at..]) == run + [EntryOf(p[at..at + ENTRY_SIZE])] + Entries(p[at + ENTRY_SIZE..])
  {
    assert p[at..][..ENTRY_SIZE] == p[at..at + ENTRY_SIZE] && p[at..][ENTRY_SIZE..] == p[at + ENTRY_SIZE..];
  }

  lemma EntriesEnd(p: Bytes, at: nat, run: seq<Entry>)
    requires at <= |p| && (at + ENTRY_SIZE <= |p| ==> EntryOf(p[at..at + ENTRY_SIZE]).tag == UNDEFINED)
    ensures run + Entries(p[at..]) == run
  {
    if at + ENTRY_SIZE <= |p| {
      assert p[at..][..ENTRY_SIZE] == p[at..at + ENTRY_SIZE];
    }
  }

  lemma InsertedAllPush(es: seq<Entry>, run: seq<Entry>, e: Entry)
    ensures InsertedAll(es, run + [e]) == InsertedEntry(InsertedAll(es, run), e)
  {
    assert (run + [e])[..|run|] == run;
  }

  /** The entries for the three classes of a file's mode. */
  function ModeEntries(user: Perm, group: Perm, others: Perm): seq<Entry> {
    [Entry(USER_OBJ, ACL_UNDEFINED_ID, user), Entry(GROUP_OBJ, ACL_UNDEFINED_ID, group)]
    + (if group == {} then [] else [MaskEntry(group)]) + [Entry(OTHER, ACL_UNDEFINED_ID, others)]
  }

  /** An insert is known by its effect. */
  lemma InsertGives(s: seq<Entry>, e: Entry, r: seq<Entry>, perm: Perm)
    requires Sorted(s) && (forall x <- s :: Allowed(x)) && Allowed(e) && |s| < ENTRIES_MAX_NUM && e.tag != MASK
    requires forall x <- s :: KeyOf(x) != KeyOf(e)
    requires perm == MaskPerm(s) + if IsMasked(e.tag) then e.perm else {}
    requires Sorted(r)
    requires forall x :: x in r <==> (x.tag != MASK && (x in s || x == e)) || (x == MaskEntry(perm) && perm != {})
    ensures InsertedEntry(s, e) == r && MaskPerm(r) == perm && forall x <- r :: Allowed(x)
  {
    InsertOne(s, e);
    SortedIsUnique(Remasked(Compared(s, e)), r);
  }

  lemma ModeFirst(u: Entry, g: Entry)
    requires u.tag == USER_OBJ && g.tag == GROUP_OBJ && u.id == g.id == ACL_UNDEFINED_ID
    ensures var r := if g.perm == {} then [u, g] else [u, g, MaskEntry(g.perm)];
            InsertedEntry(InsertedEntry([], u), g) == r && MaskPerm(r) == g.perm && Sorted(r) && forall x <- r :: Allowed(x)
  {
    InsertGives([], u, [u], {});
    InsertGives([u], g, if g.perm == {} then [u, g] else [u, g, MaskEntry(g.perm)], g.perm);
  }

  /** An entry that no mask covers, behind all others of a set whose mask is right. */
  lemma InsertBehind(s: seq<Entry>, e: Entry)
    requires Sorted(s) && (forall x <- s :: Allowed(x) && KeyOf(x) < KeyOf(e)) && Allowed(e) && |s| < ENTRIES_MAX_NUM
    requires e.tag == OTHER && forall x :: x in s && x.tag == MASK <==> x == MaskEntry(MaskPerm(s)) && MaskPerm(s) != {}
    ensures InsertedEntry(s, e) == s + [e]
  {
    SortedBehind(s, e);
    InsertGives(s, e, s + [e], MaskPerm(s));
  }

  lemma SortedBehind(s: seq<Entry>, e: Entry)
    requires Sorted(s) && forall x <- s :: KeyOf(x) < KeyOf(e)
    ensures Sorted(s + [e])
  {
    var r := s + [e];
    forall i, j | 0 <= i < j < |r| ensures KeyOf(r[i]) < KeyOf(r[j]) {
      assert r[i] == s[i] && s[i] in s;
      assert j < |s| ==> r[j] == s[j];
    }
  }

  lemma ModeLast(u: Entry, g: Entry, o: Entry)
    requires u.tag == USER_OBJ && g.tag == GROUP_OBJ && o.tag == OTHER && u.id == g.id == o.id == ACL_UNDEFINED_ID
    requires var r := if g.perm == {} then [u, g] else [u, g, MaskEntry(g.perm)];
             MaskPerm(r) == g.perm && Sorted(r) && forall x <- r :: Allowed(x)
    ensures var r := if g.perm == {} then [u, g] else [u, g, MaskEntry(g.perm)]; InsertedEntry(r, o) == r + [o]
  {
    var r := if g.perm == {} then [u, g] else [u, g, MaskEntry(g.perm)];
    forall x <- r ensures KeyOf(x) < KeyOf(o) && (x.tag == MASK ==> x == MaskEntry(g.perm) && g.perm != {}) {
    }
    InsertBehind(r, o);
  }

  lemma ModeRun(user: Perm, group: Perm, others: Perm)
    ensures var u, g, o := Entry(USER_OBJ, ACL_UNDEFINED_ID, user), Entry(GROUP_OBJ, ACL_UNDEFINED_ID, group),
                           Entry(OTHER, ACL_UNDEFINED_ID, others);
            InsertedEntry(InsertedEntry(InsertedEntry([], u), g), o) == ModeEntries(user, group, others)
  {
    var u, g := Entry(USER_OBJ, ACL_UNDEFINED_ID, user), Entry(GROUP_OBJ, ACL_UNDEFINED_ID, group);
    ModeFirst(u, g);
    ModeLast(u, g, Entry(OTHER, ACL_UNDEFINED_ID, others));
  }

  class Acl {
    var entries: seq<Entry>
    var version: nat
    var maskDemand: nat

    ghost predicate Valid()
      reads this
    {
      Good(entries) && version < 0x1_0000_0000
    }

    constructor ()
      ensures Valid() && entries == [] && version == ACL_EA_VERSION
    {
      entries, version, maskDemand := [], ACL_EA_VERSION, 0;
    }

    method ReCalcMaskPerm() returns (perm: Perm)
      ensures perm == MaskPerm(entries)
    {
      perm := {};
      for i := 0 to |entries|
        invariant perm == MaskPerm(entries[..i])
      {
        assert entries[..i + 1][..i] == entries[..i];
        var e := entries[i];
        if e.tag == USER || e.tag == GROUP_OBJ || e.tag == GROUP {
          perm := perm + e.perm;
        }
      }
      assert entries[..|entries|] == entries;
    }

    method CompareInsertEntry(entry: Entry)
      modifies this`entries
      ensures entries == Compared(old(entries), entry)
    {
      NoRights(entry.perm);
      if exists e <- entries :: KeyOf(e) == KeyOf(entry) {
        entries := Erased(entries, KeyOf(entry));
      } else {
        NothingErased(entries, KeyOf(entry));
      }
      var isNecessary := entry.tag == USER_OBJ || entry.tag == GROUP_OBJ || entry.tag == OTHER;
      if isNecessary || Right.Read in entry.perm || Right.Write in entry.perm || Right.Execute in entry.perm {
        entries := Inserted(entries, entry);
      }
    }

    method InsertEntry(entry: Entry) returns (ok: bool)
      modifies this`entries, this`maskDemand
      ensures ok <==> old(|entries|) < ENTRIES_MAX_NUM
      ensures entries == InsertedEntry(old(entries), entry)
      ensures old(Good(entries)) && WellFormed(entry) ==> Good(entries)
    {
      if Good(entries) && WellFormed(entry) {
        InsertKeeps(entries, entry);
      }
      if |entries| >= ENTRIES_MAX_NUM {
        return false;
      }
      CompareInsertEntry(entry);
      maskDemand := maskDemand + 1;
      var perm := ReCalcMaskPerm();
      CompareInsertEntry(MaskEntry(perm));
      ok := true;
    }

    /** SetDefaultUser, SetAccessUser, SetDefaultGroup and SetAccessGroup. */
    method SetEntry(tag: nat, id: nat, mode: Perm) returns (ok: bool)
      requires Valid() && (tag == USER || tag == GROUP) && id < ID_LIMIT
      modifies this`entries, this`maskDemand
      ensures Valid() && (ok <==> old(|entries|) < ENTRIES_MAX_NUM)
      ensures !ok ==> entries == old(entries)
      ensures ok ==> forall m :: Has(entries, tag, id, m) <==> mode != {} && m <= mode
      ensures ok ==> forall t: nat, i: nat, m | (t == USER || t == GROUP) && i < ID_LIMIT && !(t == tag && i == id) ::
                       Has(entries, t, i, m) <==> Has(old(entries), t, i, m)
    {
      var e := Entry(tag, id, mode);
      if |entries| < ENTRIES_MAX_NUM {
        forall t: nat, i: nat, m | (t == USER || t == GROUP) && i < ID_LIMIT
          ensures Has(InsertedEntry(entries, e), t, i, m) <==>
                  if t == tag && i == id then mode != {} && m <= mode else Has(entries, t, i, m)
        {
          SetThenHas(entries, e, t, i, m);
        }
      }
      ok := InsertEntry(e);
    }

    /** The entries of a file without an attribute: those of its mode, and a mask when the group has rights. */
    method AclFromMode(user: Perm, group: Perm, others: Perm)
      requires Valid() && entries == []
      modifies this`entries, this`maskDemand
      ensures Valid() && entries == ModeEntries(user, group, others)
    {
      InsertWellFormed(Entry(USER_OBJ, ACL_UNDEFINED_ID, user));
      InsertWellFormed(Entry(GROUP_OBJ, ACL_UNDEFINED_ID, group));
      InsertWellFormed(Entry(OTHER, ACL_UNDEFINED_ID, others));
      ModeRun(user, group, others);
    }

    method InsertWellFormed(entry: Entry)
      requires Valid() && WellFormed(entry)
      modifies this`entries, this`maskDemand
      ensures Valid() && entries == InsertedEntry(old(entries), entry)
    {
      var ok := InsertEntry(entry);
    }

    /** The image of the entries; the size check fails for none of the sets that inserting leads to. */
    method Serialize() returns (buf: array?<byte>, bufSize: nat)
      requires Writable(entries) && version < 0x1_0000_0000
      ensures buf == null <==> |entries| > ENTRIES_MAX_NUM
      ensures Good(entries) ==> buf != null
      ensures buf == null ==> bufSize == 0
      ensures buf != null ==> fresh(buf) && bufSize == buf.Length && buf[..] == Image(version, entries)
    {
      bufSize := HEADER_SIZE + ENTRY_SIZE * |entries|;
      if bufSize > BUF_MAX_SIZE {
        return null, 0;
      }
      var b := new byte[bufSize](i => 0);
      Copy(ToLittleEndian(version), b, 0);
      WriteEntries(entries, b);
      assert b[..] == b[..HEADER_SIZE] + b[HEADER_SIZE..];
      buf := b;
    }

    /** The loop of Serialize. */
    static method WriteEntries(es: seq<Entry>, b: array<byte>)
      requires Writable(es) && b.Length == HEADER_SIZE + ENTRY_SIZE * |es|
      modifies b
      ensures b[..HEADER_SIZE] == old(b[..HEADER_SIZE]) && b[HEADER_SIZE..] == Body(es)
    {
      for i := 0 to |es|
        invariant b[..HEADER_SIZE] == old(b[..HEADER_SIZE])
        invariant b[HEADER_SIZE..HEADER_SIZE + ENTRY_SIZE * i] == Body(es[..i])
      {
        var at := HEADER_SIZE + ENTRY_SIZE * i;
        ghost var was := b[..];
        Copy(EntryBytes(es[i]), b, at);
        Written(was, b[..], es, i);
      }
      assert es[..|es|] == es && b[HEADER_SIZE..b.Length] == b[HEADER_SIZE..];
    }

    static method Copy(s: Bytes, buf: array<byte>, at: nat)
      requires at + |s| <= buf.Length
      modifies buf
      ensures buf[at..at + |s|] == s
      ensures forall i | 0 <= i < at :: buf[i] == old(buf[i])
    {
      for i := 0 to |s|
        invariant buf[at..at + i] == s[..i] && forall j | 0 <= j < at :: buf[j] == old(buf[j])
      {
        buf[at + i] := s[i];
      }
    }

    /**
     Inserts the entries of an image one by one.  `bufSize` bytes of the memory at `p` are the image; one shorter than
     the header clears the list.
     */
    method DeSerialize(p: Bytes, bufSize: int) returns (ok: bool)
      requires HEADER_SIZE <= |p| && bufSize <= |p|
      modifies this
      ensures ok <==> bufSize >= HEADER_SIZE
      ensures ok ==> version == FromLittleEndian(p[..HEADER_SIZE])
                     && entries == InsertedAll(old(entries), Entries(p[HEADER_SIZE..bufSize]))
      ensures !ok ==> version == 0 && entries == []
    {
      version := FromLittleEndian(p[..HEADER_SIZE]);
      if bufSize - HEADER_SIZE < 0 {
        entries, version := [], 0;
        return false;
      }
      InsertImage(p[..bufSize]);
      assert p[..bufSize][HEADER_SIZE..] == p[HEADER_SIZE..bufSize];
      ok := true;
    }

    /** The loop of DeSerialize. */
    method InsertImage(p: Bytes)
      requires HEADER_SIZE <= |p|
      modifies this
      ensures version == old(version) && entries == InsertedAll(old(entries), Entries(p[HEADER_SIZE..]))
    {
      var bufSize, at := |p| - HEADER_SIZE, HEADER_SIZE;
      ghost var run := [];
      while bufSize >= ENTRY_SIZE && EntryOf(p[at..at + ENTRY_SIZE]).tag != UNDEFINED
        invariant 0 <= bufSize && at + bufSize == |p|
        invariant Entries(p[HEADER_SIZE..]) == run + Entries(p[at..])
        invariant version == old(version) && entries == InsertedAll(old(entries), run)
        decreases bufSize
      {
        var e := EntryOf(p[at..at + ENTRY_SIZE]);
        EntriesNext(p, at, run);
        InsertedAllPush(old(entries), run, e);
        var inserted := InsertEntry(e);
        run := run + [e];
        bufSize, at := bufSize - ENTRY_SIZE, at + ENTRY_SIZE;
      }
      EntriesEnd(p, at, run);
    }

    /** HasDefaultUser, HasAccessUser, HasDefaultGroup and HasAccessGroup. */
    method HasEntry(tag: nat, id: nat, mode: Perm) returns (r: bool)
      requires Valid() && id < ID_LIMIT
      ensures r <==> Has(entries, tag, id, mode)
    {
      FindIsUnique(entries, tag, id);
      r := false;
      for i := 0 to |entries|
        invariant !r && forall j | 0 <= j < i :: KeyOf(entries[j]) != Key(tag, id)
      {
        if KeyOf(entries[i]) == Key(tag, id) {
          return mode <= entries[i].perm;
        }
      }
    }
  }

  lemma NoRights(p: Perm)
    ensures p == {} <==> Read !in p && Write !in p && Execute !in p
  {
    if p != {} {
      var r :| r in p;
      match r
      case Read =>
      case Write =>
      case Execute =>
    }
  }

  lemma {:induction false} NothingErased(es: seq<Entry>, k: nat)
    requires forall e <- es :: KeyOf(e) != k
    ensures Erased(es, k) == es
  {
    if es != [] {
      NothingErased(es[1..], k);
    }
  }

  lemma FindIsUnique(es: seq<Entry>, tag: nat, id: nat)
    requires Good(es) && id < ID_LIMIT
    ensures forall e <- es :: KeyOf(e) == Key(tag, id) <==> e.tag == tag && e.id == id
    ensures forall a, b | a in es && b in es && KeyOf(a) == Key(tag, id) && KeyOf(b) == Key(tag, id) :: a == b
  {
    forall e <- es ensures KeyOf(e) == Key(tag, id) <==> e.tag == tag && e.id == id {
      KeyDetermines(e.tag, e.id, tag, id);
    }
    forall a, b | a in es && b in es && KeyOf(a) == Key(tag, id) && KeyOf(b) == Key(tag, id) ensures a == b {
      UniqueEntries(es, a, b);
    }
  }
}
