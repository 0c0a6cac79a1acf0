/**
 The entries of a POSIX access control list as a set ordered by tag and id, and what inserting keeps.
 */
module AclSpec {

  import opened Collections

  const UNDEFINED: nat := 0x00
  const USER_OBJ: nat := 0x01
  const USER: nat := 0x02
  const GROUP_OBJ: nat := 0x04
  const GROUP: nat := 0x08
  const MASK: nat := 0x10
  const OTHER: nat := 0x20

  const ID_LIMIT: nat := 0x1_0000_0000
  const ACL_UNDEFINED_ID: nat := ID_LIMIT - 1
  const ENTRIES_MAX_NUM: nat := 100

  datatype Right = Read | Write | Execute

  type Perm = set<Right>

  datatype Entry = Entry(tag: nat, id: nat, perm: Perm)

  /** The order of the entries: by tag, and by id within a tag. */
  function Key(tag: nat, id: nat): nat {
    tag * ID_LIMIT + id
  }

  function KeyOf(e: Entry): nat {
    Key(e.tag, e.id)
  }

  lemma KeyDetermines(tag: nat, id: nat, tag': nat, id': nat)
    requires id < ID_LIMIT && id' < ID_LIMIT
    ensures Key(tag, id) == Key(tag', id') <==> tag == tag' && id == id'
    ensures Key(tag, id) < Key(tag', id') <==> tag < tag' || (tag == tag' && id < id')
  {
    if tag < tag' {
      assert (tag + 1) * ID_LIMIT <= tag' * ID_LIMIT;
    } else if tag' < tag {
      assert (tag' + 1) * ID_LIMIT <= tag * ID_LIMIT;
    }
  }

  // ---- Ordered sets ----

  ghost predicate Sorted(es: seq<Entry>) {
    forall i, j | 0 <= i < j < |es| :: KeyOf(es[i]) < KeyOf(es[j])
  }

  function Keys(es: seq<Entry>): set<nat> {
    set e <- es :: KeyOf(e)
  }

  function Erased(es: seq<Entry>, k: nat): seq<Entry> {
    if es == [] then [] else if KeyOf(es[0]) == k then Erased(es[1..], k) else [es[0]] + Erased(es[1..], k)
  }

  function Inserted(es: seq<Entry>, e: Entry): seq<Entry> {
    if es == [] || KeyOf(e) < KeyOf(es[0]) then [e] + es else [es[0]] + Inserted(es[1..], e)
  }

  lemma {:induction false} ErasedMembers(es: seq<Entry>, k: nat, x: Entry)
    ensures x in Erased(es, k) <==> x in es && KeyOf(x) != k
  {
    if es != [] {
      ErasedMembers(es[1..], k, x);
      assert x in es <==> x == es[0] || x in es[1..];
    }
  }

  lemma {:induction false} InsertedMembers(es: seq<Entry>, e: Entry, x: Entry)
    ensures x in Inserted(es, e) <==> x in es || x == e
  {
    if es != [] && KeyOf(es[0]) <= KeyOf(e) {
      InsertedMembers(es[1..], e, x);
      assert x in es <==> x == es[0] || x in es[1..];
    }
  }

  /** A first element that is smaller than all others makes a sorted list longer. */
  lemma SortedCons(e: Entry, es: seq<Entry>)
    requires Sorted(es) && forall x <- es :: KeyOf(e) < KeyOf(x)
    ensures Sorted([e] + es)
  {
    var r := [e] + es;
    forall i, j | 0 <= i < j < |r| ensures KeyOf(r[i]) < KeyOf(r[j]) {
      assert r[j] == es[j - 1];
      if i > 0 { assert r[i] == es[i - 1]; }
    }
  }

  lemma SortedHead(es: seq<Entry>)
    requires Sorted(es) && es != []
    ensures Sorted(es[1..]) && forall x <- es[1..] :: KeyOf(es[0]) < KeyOf(x)
  {
  }

  lemma {:induction false} ErasedSorted(es: seq<Entry>, k: nat)
    requires Sorted(es)
    ensures Sorted(Erased(es, k))
  {
    if es != [] {
      SortedHead(es);
      ErasedSorted(es[1..], k);
      if KeyOf(es[0]) != k {
        forall x <- Erased(es[1..], k) ensures KeyOf(es[0]) < KeyOf(x) { ErasedMembers(es[1..], k, x); }
        SortedCons(es[0], Erased(es[1..], k));
      }
    }
  }

  lemma {:induction false} InsertedSorted(es: seq<Entry>, e: Entry)
    requires Sorted(es) && forall x <- es :: KeyOf(x) != KeyOf(e)
    ensures Sorted(Inserted(es, e))
  {
    if es == [] || KeyOf(e) < KeyOf(es[0]) {
      if es != [] { SortedHead(es); }
      SortedCons(e, es);
    } else {
      SortedHead(es);
      InsertedSorted(es[1..], e);
      forall x <- Inserted(es[1..], e) ensures KeyOf(es[0]) < KeyOf(x) { InsertedMembers(es[1..], e, x); }
      SortedCons(es[0], Inserted(es[1..], e));
    }
  }

  ghost predicate SameMembers(a: seq<Entry>, b: seq<Entry>) {
    forall x :: x in a <==> x in b
  }

  /** A sorted list is determined by its members. */
  lemma {:induction false} SortedIsUnique(a: seq<Entry>, b: seq<Entry>)
    requires Sorted(a) && Sorted(b) && SameMembers(a, b)
    ensures a == b
  {
    assert a != [] ==> a[0] in b;
    assert b != [] ==> b[0] in a;
    if a != [] {
      SortedHead(a);
      SortedHead(b);
      assert a[0] == b[0];
      forall x ensures x in a[1..] <==> x in b[1..] {
        assert x in a <==> x == a[0] || x in a[1..];
        assert x in b <==> x == b[0] || x in b[1..];
      }
      SortedIsUnique(a[1..], b[1..]);
    }
  }

  lemma KeysCons(es: seq<Entry>)
    requires es != []
    ensures Keys(es) == {KeyOf(es[0])} + Keys(es[1..])
  {
    forall e <- es ensures KeyOf(e) in {KeyOf(es[0])} + Keys(es[1..]) { assert e == es[0] || e in es[1..]; }
    assert es[0] in es && forall e <- es[1..] :: e in es;
  }

  lemma {:induction false} SortedSize(es: seq<Entry>)
    requires Sorted(es)
    ensures |es| == |Keys(es)|
  {
    if es != [] {
      SortedHead(es);
      SortedSize(es[1..]);
      var k := KeyOf(es[0]);
      KeysCons(es);
      assert k !in Keys(es[1..]);
    }
  }

  // ---- Inserting ----

  predicate IsNecessary(tag: nat) {
    tag == USER_OBJ || tag == GROUP_OBJ || tag == OTHER
  }

  /** The entry replaces the one with its tag and id; without rights only necessary entries are kept. */
  function Compared(es: seq<Entry>, e: Entry): seq<Entry> {
    var rest := Erased(es, KeyOf(e));
    if IsNecessary(e.tag) || e.perm != {} then Inserted(rest, e) else rest
  }

  predicate IsMasked(tag: nat) {
    tag == USER || tag == GROUP_OBJ || tag == GROUP
  }

  function MaskPerm(es: seq<Entry>): Perm {
    if es == [] then {} else MaskPerm(es[..|es| - 1]) + if IsMasked(es[|es| - 1].tag) then es[|es| - 1].perm else {}
  }

  function MaskEntry(perm: Perm): Entry {
    Entry(MASK, ACL_UNDEFINED_ID, perm)
  }

  function Remasked(es: seq<Entry>): seq<Entry> {
    Compared(es, MaskEntry(MaskPerm(es)))
  }

  function InsertedEntry(es: seq<Entry>, e: Entry): seq<Entry> {
    if |es| >= ENTRIES_MAX_NUM then es else Remasked(Compared(es, e))
  }

  lemma ComparedFacts(es: seq<Entry>, e: Entry)
    requires Sorted(es)
    ensures Sorted(Compared(es, e))
    ensures forall x :: x in Compared(es, e) <==>
                        (x in es && KeyOf(x) != KeyOf(e)) || (x == e && (IsNecessary(e.tag) || e.perm != {}))
  {
    var rest := Erased(es, KeyOf(e));
    ErasedSorted(es, KeyOf(e));
    forall x ensures x in rest <==> x in es && KeyOf(x) != KeyOf(e) { ErasedMembers(es, KeyOf(e), x); }
    if IsNecessary(e.tag) || e.perm != {} {
      InsertedSorted(rest, e);
      forall x ensures x in Inserted(rest, e) <==> x in rest || x == e { InsertedMembers(rest, e, x); }
    }
  }

  /** A right is in the mask exactly when some entry it covers grants it. */
  lemma {:induction false} MaskPermMembers(es: seq<Entry>, r: Right)
    ensures r in MaskPerm(es) <==> exists e <- es :: IsMasked(e.tag) && r in e.perm
  {
    if es != [] {
      var init, last := es[..|es| - 1], es[|es| - 1];
      MaskPermMembers(init, r);
      assert forall e :: e in es <==> e in init || e == last;
    }
  }

  /** The mask depends on the members it covers only. */
  lemma MaskPermIs(es: seq<Entry>, perm: Perm)
    requires forall r :: r in perm <==> exists e <- es :: IsMasked(e.tag) && r in e.perm
    ensures MaskPerm(es) == perm
  {
    forall r ensures r in MaskPerm(es) <==> r in perm { MaskPermMembers(es, r); }
  }

  // ---- What every run of inserts keeps ----

  predicate IsTag(tag: nat) {
    tag == USER_OBJ || tag == USER || tag == GROUP_OBJ || tag == GROUP || tag == MASK || tag == OTHER
  }

  /** Entries for one user or group have an id, the others do not. */
  predicate WellFormed(e: Entry) {
    IsTag(e.tag) && e.id < ID_LIMIT && (e.tag != USER && e.tag != GROUP ==> e.id == ACL_UNDEFINED_ID)
  }

  /** The entries the set may hold. */
  predicate Allowed(e: Entry) {
    WellFormed(e) && (IsNecessary(e.tag) || e.perm != {})
  }

  /** Tags and ids are unique; there is a mask exactly when some right is to be masked, and it has those rights. */
  ghost predicate Good(es: seq<Entry>) {
    && Sorted(es) && |es| <= ENTRIES_MAX_NUM
    && (forall e <- es :: Allowed(e))
    && (forall e <- es :: e.tag == MASK ==> e.perm == MaskPerm(es))
    && (MaskPerm(es) != {} ==> exists e <- es :: e.tag == MASK)
  }

  lemma MaskExactlyWhen(es: seq<Entry>)
    requires Good(es)
    ensures (exists e <- es :: e.tag == MASK) <==> MaskPerm(es) != {}
    ensures MaskPerm(es) != {} <==> MaskEntry(MaskPerm(es)) in es
  {
  }

  lemma UniqueEntries(es: seq<Entry>, a: Entry, b: Entry)
    requires Good(es) && a in es && b in es && a.tag == b.tag && a.id == b.id
    ensures a == b
  {
    var i :| 0 <= i < |es| && es[i] == a;
    var j :| 0 <= j < |es| && es[j] == b;
    assert i == j;
  }

  lemma MaskKey(e: Entry, perm: Perm)
    requires WellFormed(e)
    ensures KeyOf(e) == KeyOf(MaskEntry(perm)) <==> e.tag == MASK
  {
    KeyDetermines(e.tag, e.id, MASK, ACL_UNDEFINED_ID);
  }

  /** Recomputing the mask leaves the other entries and the rights to be masked. */
  lemma RemaskedFacts(es: seq<Entry>)
    requires Sorted(es) && forall e <- es :: Allowed(e)
    ensures Sorted(Remasked(es)) && (forall e <- Remasked(es) :: Allowed(e)) && MaskPerm(Remasked(es)) == MaskPerm(es)
    ensures forall x :: x in Remasked(es) <==>
                        (x in es && x.tag != MASK) || (x == MaskEntry(MaskPerm(es)) && MaskPerm(es) != {})
  {
    var m := MaskEntry(MaskPerm(es));
    ComparedFacts(es, m);
    forall x <- es ensures KeyOf(x) == KeyOf(m) <==> x.tag == MASK { MaskKey(x, MaskPerm(es)); }
    assert forall x :: x in Remasked(es) <==> (x in es && x.tag != MASK) || (x == m && MaskPerm(es) != {});
    forall r ensures r in MaskPerm(es) <==> exists e <- Remasked(es) :: IsMasked(e.tag) && r in e.perm {
      MaskPermMembers(es, r);
      if e :| e in es && IsMasked(e.tag) && r in e.perm { assert e in Remasked(es); }
    }
    MaskPermIs(Remasked(es), MaskPerm(es));
  }

  /** Without a mask there are no entries but the three necessary ones. */
  lemma FewWithoutMask(es: seq<Entry>)
    requires Sorted(es) && (forall e <- es :: Allowed(e)) && MaskPerm(es) == {} && forall e <- es :: e.tag != MASK
    ensures |es| <= 3
  {
    var few := {Key(USER_OBJ, ACL_UNDEFINED_ID), Key(GROUP_OBJ, ACL_UNDEFINED_ID), Key(OTHER, ACL_UNDEFINED_ID)};
    forall e <- es ensures KeyOf(e) in few {
      if e.tag == USER || e.tag == GROUP {
        var r :| r in e.perm;
        MaskPermMembers(es, r);
      }
    }
    SortedSize(es);
    SubsetSize(Keys(es), few);
  }

  /** One insert may add two entries, but only where there are few. */
  lemma InsertedSize(es: seq<Entry>, k: nat, r: seq<Entry>)
    requires Good(es) && |es| < ENTRIES_MAX_NUM && Sorted(r)
    requires Keys(r) <= Keys(es) + {k} + {Key(MASK, ACL_UNDEFINED_ID)}
    ensures |r| <= ENTRIES_MAX_NUM
  {
    var mask := Key(MASK, ACL_UNDEFINED_ID);
    SortedSize(es);
    SortedSize(r);
    SubsetSize(Keys(r), Keys(es) + {k} + {mask});
    if MaskPerm(es) == {} {
      FewWithoutMask(es);
    } else {
      MaskExactlyWhen(es);
      assert KeyOf(MaskEntry(MaskPerm(es))) in Keys(es);
      assert Keys(es) + {k} + {mask} == Keys(es) + {k};
    }
  }

  lemma InsertedKeys(es: seq<Entry>, e: Entry)
    requires Good(es) && WellFormed(e)
    ensures Keys(Remasked(Compared(es, e))) <= Keys(es) + {KeyOf(e)} + {Key(MASK, ACL_UNDEFINED_ID)}
  {
    ComparedFacts(es, e);
    RemaskedFacts(Compared(es, e));
    forall x <- Remasked(Compared(es, e)) ensures KeyOf(x) in Keys(es) + {KeyOf(e)} + {Key(MASK, ACL_UNDEFINED_ID)} {
      assert x in es ==> KeyOf(x) in Keys(es);
    }
  }

  lemma InsertKeeps(es: seq<Entry>, e: Entry)
    requires Good(es) && WellFormed(e)
    ensures Good(InsertedEntry(es, e))
  {
    if |es| < ENTRIES_MAX_NUM {
      var one := Compared(es, e);
      ComparedFacts(es, e);
      RemaskedFacts(one);
      InsertedKeys(es, e);
      InsertedSize(es, KeyOf(e), Remasked(one));
      var r := Remasked(one);
      assert MaskPerm(r) != {} ==> MaskEntry(MaskPerm(r)) in r;
    }
  }

  /** What a run of inserts makes of a set. */
  function InsertedAll(es: seq<Entry>, run: seq<Entry>): seq<Entry> {
    if run == [] then es else InsertedEntry(InsertedAll(es, run[..|run| - 1]), run[|run| - 1])
  }

  lemma {:induction false} RunKeeps(es: seq<Entry>, run: seq<Entry>)
    requires Good(es) && forall e <- run :: WellFormed(e)
    ensures Good(InsertedAll(es, run))
  {
    if run != [] {
      assert run[|run| - 1] in run;
      RunKeeps(es, run[..|run| - 1]);
      InsertKeeps(InsertedAll(es, run[..|run| - 1]), run[|run| - 1]);
    }
  }

  /** Every run from the empty set: unique tags and ids, the mask is right, and at most a hundred entries. */
  lemma EveryRunIsGood(run: seq<Entry>)
    requires forall e <- run :: WellFormed(e)
    ensures Good(InsertedAll([], run))
  {
    RunKeeps([], run);
  }

  // ---- Queries ----

  /** Whether an entry with this tag and id grants all rights of `mode`. */
  ghost predicate Has(es: seq<Entry>, tag: nat, id: nat, mode: Perm) {
    exists e <- es :: e.tag == tag && e.id == id && mode <= e.perm
  }

  /** What setting the rights of a user or a group does to later queries, for it and for all others. */
  lemma SetThenHas(es: seq<Entry>, e: Entry, tag: nat, id: nat, mode: Perm)
    requires Good(es) && |es| < ENTRIES_MAX_NUM && WellFormed(e) && (e.tag == USER || e.tag == GROUP)
    requires (tag == USER || tag == GROUP) && id < ID_LIMIT
    ensures Has(InsertedEntry(es, e), tag, id, mode) <==>
            if tag == e.tag && id == e.id then e.perm != {} && mode <= e.perm else Has(es, tag, id, mode)
  {
    var one := Compared(es, e);
    ComparedFacts(es, e);
    RemaskedFacts(one);
    forall x <- es ensures KeyOf(x) == KeyOf(e) <==> x.tag == e.tag && x.id == e.id {
      KeyDetermines(x.tag, x.id, e.tag, e.id);
    }
    assert forall x: Entry | x.tag == tag :: x in InsertedEntry(es, e) <==> x in one;
  }

  // ---- Loading a set entry by entry ----

  /** What the first `i` entries of `es`, inserted one by one, have become. */
  ghost predicate Loaded(es: seq<Entry>, i: nat, s: seq<Entry>)
    requires i <= |es|
  {
    var perm := MaskPerm(es[..i]);
    && Sorted(s) && (forall e <- s :: Allowed(e)) && MaskPerm(s) == perm
    && forall x :: x in s <==> (x in es[..i] && x.tag != MASK) || (x == MaskEntry(perm) && perm != {})
  }

  lemma MaskPermPush(es: seq<Entry>, i: nat)
    requires i < |es|
    ensures MaskPerm(es[..i + 1]) == MaskPerm(es[..i]) + if IsMasked(es[i].tag) then es[i].perm else {}
  {
    assert es[..i + 1][..i] == es[..i];
  }

  lemma ComparedMask(s: seq<Entry>, e: Entry)
    requires Sorted(s) && (forall x <- s :: Allowed(x)) && Allowed(e)
    requires e.tag == MASK || forall x <- s :: KeyOf(x) != KeyOf(e)
    ensures MaskPerm(Compared(s, e)) == MaskPerm(s) + if IsMasked(e.tag) then e.perm else {}
  {
    var one := Compared(s, e);
    ComparedFacts(s, e);
    if e.tag == MASK {
      forall x <- s ensures KeyOf(x) == KeyOf(e) <==> x.tag == MASK { MaskKey(x, e.perm); }
    }
    var perm := MaskPerm(s) + if IsMasked(e.tag) then e.perm else {};
    forall r ensures r in perm <==> exists x <- one :: IsMasked(x.tag) && r in x.perm {
      MaskPermMembers(s, r);
      if x :| x in s && IsMasked(x.tag) && r in x.perm { assert x in one; }
      if IsMasked(e.tag) && r in e.perm { assert e in one; }
    }
    MaskPermIs(one, perm);
  }

  lemma NewKey(es: seq<Entry>, i: nat, s: seq<Entry>)
    requires Good(es) && i < |es| && Loaded(es, i, s) && es[i].tag != MASK
    ensures forall x <- s :: KeyOf(x) != KeyOf(es[i])
  {
    assert es[i] in es;
    forall x <- s ensures KeyOf(x) != KeyOf(es[i]) {
      if x in es[..i] && x.tag != MASK {
        var j :| 0 <= j < i && es[j] == x;
      } else {
        MaskKey(es[i], x.perm);
      }
    }
  }

  /** The effect of an insert: the entry joins the others, unless it is a mask, and the mask is made anew. */
  ghost predicate Effect(s: seq<Entry>, e: Entry, r: seq<Entry>) {
    var perm := MaskPerm(s) + if IsMasked(e.tag) then e.perm else {};
    && Sorted(r) && (forall x <- r :: Allowed(x)) && MaskPerm(r) == perm
    && forall x :: x in r <==> (x.tag != MASK && (x in s || x == e)) || (x == MaskEntry(perm) && perm != {})
  }

  lemma InsertOne(s: seq<Entry>, e: Entry)
    requires Sorted(s) && (forall x <- s :: Allowed(x)) && Allowed(e)
    requires e.tag == MASK || forall x <- s :: KeyOf(x) != KeyOf(e)
    ensures Effect(s, e, Remasked(Compared(s, e)))
  {
    ComparedFacts(s, e);
    ComparedMask(s, e);
    RemaskedFacts(Compared(s, e));
    if e.tag == MASK {
      forall x <- s ensures KeyOf(x) == KeyOf(e) <==> x.tag == MASK { MaskKey(x, e.perm); }
    }
  }

  lemma LoadNext(es: seq<Entry>, i: nat, s: seq<Entry>, r: seq<Entry>)
    requires i < |es| && Loaded(es, i, s) && Effect(s, es[i], r)
    ensures Loaded(es, i + 1, r)
  {
    MaskPermPush(es, i);
    PrefixMembers(es, i);
  }

  lemma PrefixMembers(es: seq<Entry>, i: nat)
    requires i < |es|
    ensures forall x :: x in es[..i + 1] <==> x in es[..i] || x == es[i]
  {
    assert es[..i + 1] == es[..i] + [es[i]];
  }

  lemma LoadOne(es: seq<Entry>, i: nat, s: seq<Entry>)
    requires Good(es) && i < |es| && Loaded(es, i, s)
    ensures Loaded(es, i + 1, Remasked(Compared(s, es[i])))
  {
    assert es[i] in es;
    if es[i].tag != MASK { NewKey(es, i, s); }
    InsertOne(s, es[i]);
    LoadNext(es, i, s, Remasked(Compared(s, es[i])));
  }

  lemma LoadedKeys(es: seq<Entry>, i: nat, s: seq<Entry>)
    requires i <= |es| && Loaded(es, i, s)
    ensures Keys(s) <= Keys(es[..i]) + {Key(MASK, ACL_UNDEFINED_ID)}
    ensures MaskPerm(es[..i]) == {} ==> Keys(s) <= Keys(es[..i])
  {
    assert forall x <- es[..i] :: KeyOf(x) in Keys(es[..i]);
  }

  lemma PrefixSize(es: seq<Entry>, i: nat)
    requires Sorted(es) && i <= |es|
    ensures |Keys(es[..i])| == i
  {
    SortedSize(es[..i]);
  }

  lemma TurnedAwaySize(es: seq<Entry>, i: nat, s: seq<Entry>)
    requires Good(es) && i < |es| && Loaded(es, i, s) && |s| >= ENTRIES_MAX_NUM
    ensures i == ENTRIES_MAX_NUM - 1 && MaskPerm(es[..i]) != {} && Key(MASK, ACL_UNDEFINED_ID) !in Keys(es[..i])
  {
    var mask, before := Key(MASK, ACL_UNDEFINED_ID), Keys(es[..i]);
    var most := if MaskPerm(es[..i]) == {} then before else before + {mask};
    assert mask in before ==> most == before;
    SortedSize(s);
    PrefixSize(es, i);
    LoadedKeys(es, i, s);
    SubsetSize(Keys(s), most);
  }

  /** An entry the limit turns away is a mask, which is there already. */
  lemma TurnedAway(es: seq<Entry>, i: nat, s: seq<Entry>)
    requires Good(es) && i < |es| && Loaded(es, i, s) && |s| >= ENTRIES_MAX_NUM
    ensures es[i].tag == MASK
  {
    TurnedAwaySize(es, i, s);
    MaskGrows(es, i);
    var m :| m in es && m.tag == MASK;
    var j :| 0 <= j < |es| && es[j] == m;
    assert KeyOf(m) == Key(MASK, ACL_UNDEFINED_ID);
    assert j == i by { PrefixKeys(es, i); }
  }

  lemma PrefixKeys(es: seq<Entry>, i: nat)
    requires i <= |es|
    ensures forall j | 0 <= j < i :: KeyOf(es[j]) in Keys(es[..i])
  {
    forall j | 0 <= j < i ensures KeyOf(es[j]) in Keys(es[..i]) {
      assert es[..i][j] in es[..i];
    }
  }

  lemma MaskGrows(es: seq<Entry>, i: nat)
    requires Good(es) && i <= |es| && MaskPerm(es[..i]) != {}
    ensures exists m <- es :: m.tag == MASK
  {
    var r :| r in MaskPerm(es[..i]);
    MaskPermMembers(es[..i], r);
    MaskPermMembers(es, r);
    assert forall e <- es[..i] :: e in es;
  }

  lemma SkipMask(es: seq<Entry>, i: nat, s: seq<Entry>)
    requires i < |es| && Loaded(es, i, s) && es[i].tag == MASK
    ensures Loaded(es, i + 1, s)
  {
    MaskPermPush(es, i);
    PrefixMembers(es, i);
  }

  lemma {:induction false} LoadPrefix(es: seq<Entry>, i: nat)
    requires Good(es) && i <= |es|
    ensures Loaded(es, i, InsertedAll([], es[..i]))
  {
    if i > 0 {
      LoadPrefix(es, i - 1);
      assert es[..i][..i - 1] == es[..i - 1];
      var s := InsertedAll([], es[..i - 1]);
      if |s| >= ENTRIES_MAX_NUM {
        TurnedAway(es, i - 1, s);
        SkipMask(es, i - 1, s);
      } else {
        LoadOne(es, i - 1, s);
      }
    }
  }

  /** Inserting the entries of a set one by one, with the mask recomputed each time, gives the set. */
  lemma LoadRestores(es: seq<Entry>)
    requires Good(es)
    ensures InsertedAll([], es) == es
  {
    assert es[..|es|] == es;
    LoadPrefix(es, |es|);
    MaskExactlyWhen(es);
    var s := InsertedAll([], es);
    forall x ensures x in s <==> x in es {
      if x in es && x.tag == MASK {
        UniqueEntries(es, x, MaskEntry(MaskPerm(es)));
      }
    }
    SortedIsUnique(s, es);
  }
}
