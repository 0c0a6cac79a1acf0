/**
 The pending stores of AutoSyncTimer: stores are added per application, and taken out in batches.
 */
module AutoSyncTimer {

  import opened Collections
  import opened AutoSyncProtocol

  type App = string
  type StoreId = string
  type Stores = map<App, seq<StoreId>>

  /** No application has an empty list, and no list has a store twice. */
  ghost predicate Tidy(m: Stores) {
    forall k <- m :: m[k] != [] && Distinct(m[k])
  }

  /** An order in which the entries of the map are visited. */
  ghost predicate Enumerates(keys: seq<App>, m: Stores) {
    Distinct(keys) && forall k :: k in keys <==> k in m
  }

  // ---- Counting ----

  function Size(m: Stores, k: App): nat {
    if k in m then |m[k]| else 0
  }

  ghost function Total(m: Stores): nat {
    if m == map[] then 0 else var k: App :| k in m; |m[k]| + Total(m - {k})
  }

  function Sum(m: Stores, keys: seq<App>): nat {
    if keys == [] then 0 else Sum(m, keys[..|keys| - 1]) + Size(m, keys[|keys| - 1])
  }

  lemma {:induction false} TotalOf(m: Stores, k: App)
    requires k in m
    ensures Total(m) == |m[k]| + Total(m - {k})
    decreases |m|
  {
    var j: App :| j in m && Total(m) == |m[j]| + Total(m - {j});
    if j != k {
      TotalOf(m - {j}, k);
      TotalOf(m - {k}, j);
      assert m - {j} - {k} == m - {k} - {j};
    }
  }

  lemma {:induction false} SumFrame(m: Stores, m': Stores, keys: seq<App>)
    requires forall k <- keys :: Size(m, k) == Size(m', k)
    ensures Sum(m, keys) == Sum(m', keys)
  {
    if keys != [] {
      SumFrame(m, m', keys[..|keys| - 1]);
    }
  }

  /** The total does not depend on the order of the visits. */
  lemma {:induction false} TotalIsSum(m: Stores, keys: seq<App>)
    requires Distinct(keys) && forall k <- m :: k in keys
    ensures Total(m) == Sum(m, keys)
    decreases |keys|
  {
    if keys == [] {
      assert m == map[];
    } else {
      var k, init := keys[|keys| - 1], keys[..|keys| - 1];
      assert forall j <- m - {k} :: j in init;
      TotalIsSum(m - {k}, init);
      SumFrame(m, m - {k}, init);
      if k in m {
        TotalOf(m, k);
      } else {
        assert m - {k} == m;
      }
    }
  }

  lemma {:induction false} NothingPending(m: Stores)
    requires Tidy(m)
    ensures Total(m) == 0 <==> m == map[]
  {
    if m != map[] {
      var k :| k in m;
      TotalOf(m, k);
    }
  }

  // ---- One batch ----

  /** What is left of a batch when the stores of the first `i` applications have been taken. */
  function Room(m: Stores, keys: seq<App>, i: nat): nat
    requires i <= |keys|
  {
    SYNC_STORE_NUM - Batch(Sum(m, keys[..i]))
  }

  /** How many stores application `i` has in the batch. */
  function Share(m: Stores, keys: seq<App>, i: nat): (n: nat)
    requires i < |keys|
    ensures n <= Size(m, keys[i])
  {
    if Size(m, keys[i]) <= Room(m, keys, i) then Size(m, keys[i]) else Room(m, keys, i)
  }

  /** The first `i` applications are dealt with: of each list the front has been taken and the back is left. */
  ghost predicate Splits(m: Stores, keys: seq<App>, taken: Stores, left: Stores, i: nat)
    requires i <= |keys| && forall k <- keys :: k in m
  {
    && (forall k :: k in taken <==> k in keys[..i])
    && (forall k :: k in left ==> k in m)
    && (forall j | 0 <= j < i :: SplitsAt(m, keys, taken, left, j))
    && (forall j | i <= j < |keys| :: keys[j] in left && left[keys[j]] == m[keys[j]])
  }

  predicate SplitsAt(m: Stores, keys: seq<App>, taken: Stores, left: Stores, j: nat)
    requires j < |keys| && keys[j] in m
  {
    var k, n := keys[j], Share(m, keys, j);
    && k in taken && taken[k] == m[k][..n]
    && (k in left <==> n < |m[k]|)
    && (k in left ==> left[k] == m[k][n..])
  }

  lemma {:induction false} TakenSum(m: Stores, keys: seq<App>, taken: Stores, left: Stores, i: nat)
    requires Enumerates(keys, m) && Splits(m, keys, taken, left, |keys|) && i <= |keys|
    ensures Sum(taken, keys[..i]) == Batch(Sum(m, keys[..i]))
    ensures Sum(taken, keys[..i]) + Sum(left, keys[..i]) == Sum(m, keys[..i])
  {
    if i > 0 {
      TakenSum(m, keys, taken, left, i - 1);
      assert keys[..i][..i - 1] == keys[..i - 1];
      assert SplitsAt(m, keys, taken, left, i - 1);
    }
  }

  /** A batch takes min(10, total) stores. */
  lemma BatchTakes(m: Stores, keys: seq<App>, taken: Stores, left: Stores)
    requires Enumerates(keys, m) && Splits(m, keys, taken, left, |keys|)
    ensures Total(taken) == Batch(Total(m)) && Total(taken) + Total(left) == Total(m)
  {
    assert keys[..|keys|] == keys;
    TakenSum(m, keys, taken, left, |keys|);
    TotalIsSum(m, keys);
    TotalIsSum(taken, keys);
    TotalIsSum(left, keys);
  }

  /** What is taken and what is left make up what was there, list by list and in order. */
  lemma BatchConserves(m: Stores, keys: seq<App>, taken: Stores, left: Stores, k: App)
    requires Enumerates(keys, m) && Splits(m, keys, taken, left, |keys|) && k in m
    ensures k in taken && m[k] == taken[k] + if k in left then left[k] else []
  {
    var j :| 0 <= j < |keys| && keys[j] == k;
    assert SplitsAt(m, keys, taken, left, j);
  }

  lemma BatchStaysTidy(m: Stores, keys: seq<App>, taken: Stores, left: Stores)
    requires Enumerates(keys, m) && Splits(m, keys, taken, left, |keys|) && Tidy(m)
    ensures Tidy(left)
  {
    forall k <- left ensures left[k] != [] && Distinct(left[k]) {
      var j :| 0 <= j < |keys| && keys[j] == k;
      assert SplitsAt(m, keys, taken, left, j);
    }
  }

  /** In the order of the visits, an application gives stores only when those before it have given all of theirs. */
  lemma EarlierFirst(m: Stores, keys: seq<App>, taken: Stores, left: Stores, i: nat, j: nat)
    requires Enumerates(keys, m) && Splits(m, keys, taken, left, |keys|) && i < j < |keys|
    ensures taken[keys[j]] != [] ==> taken[keys[i]] == m[keys[i]] && keys[i] !in left
  {
    assert SplitsAt(m, keys, taken, left, i) && SplitsAt(m, keys, taken, left, j);
    SumGrows(m, keys, i + 1, j);
    assert keys[..i + 1][..i] == keys[..i];
  }

  lemma {:induction false} SumGrows(m: Stores, keys: seq<App>, i: nat, j: nat)
    requires i <= j <= |keys|
    ensures Sum(m, keys[..i]) <= Sum(m, keys[..j])
  {
    if i < j {
      SumGrows(m, keys, i, j - 1);
      assert keys[..j][..j - 1] == keys[..j - 1];
    }
  }

  // ---- Rounds ----

  ghost predicate IsRound(m: Stores, left: Stores) {
    exists keys, taken :: Enumerates(keys, m) && Splits(m, keys, taken, left, |keys|)
  }

  ghost predicate AreRounds(ms: seq<Stores>) {
    ms != [] && forall i | 0 <= i < |ms| - 1 :: IsRound(ms[i], ms[i + 1])
  }

  lemma {:induction false} RoundsTake(ms: seq<Stores>, r: nat)
    requires AreRounds(ms) && Tidy(ms[0]) && r < |ms|
    ensures Total(ms[r]) == if Total(ms[0]) <= SYNC_STORE_NUM * r then 0 else Total(ms[0]) - SYNC_STORE_NUM * r
    ensures Tidy(ms[r])
  {
    if r > 0 {
      RoundsTake(ms, r - 1);
      assert IsRound(ms[r - 1], ms[r - 1 + 1]);
      var keys, taken :| Enumerates(keys, ms[r - 1]) && Splits(ms[r - 1], keys, taken, ms[r], |keys|);
      BatchTakes(ms[r - 1], keys, taken, ms[r]);
      BatchStaysTidy(ms[r - 1], keys, taken, ms[r]);
    }
  }

  /** n pending stores are gone after ceil(n / 10) rounds and not before. */
  lemma DrainedExactlyAfter(ms: seq<Stores>, r: nat)
    requires AreRounds(ms) && Tidy(ms[0]) && r < |ms|
    ensures ms[r] == map[] <==> r >= (Total(ms[0]) + SYNC_STORE_NUM - 1) / SYNC_STORE_NUM
  {
    RoundsTake(ms, r);
    NothingPending(ms[r]);
  }

  // ---- Adding ----

  /** The members of `ids` that `value` does not have. */
  function Missing(ids: seq<StoreId>, value: seq<StoreId>): seq<StoreId> {
    if ids == [] then []
    else Missing(ids[..|ids| - 1], value) + if ids[|ids| - 1] in value then [] else [ids[|ids| - 1]]
  }

  lemma {:induction false} MissingMembers(ids: seq<StoreId>, value: seq<StoreId>, x: StoreId)
    ensures x in Missing(ids, value) <==> x in ids && x !in value
  {
    if ids != [] {
      MissingMembers(ids[..|ids| - 1], value, x);
      assert x in ids <==> x in ids[..|ids| - 1] || x == ids[|ids| - 1];
    }
  }

  lemma {:induction false} MissingDistinct(ids: seq<StoreId>, value: seq<StoreId>)
    requires Distinct(ids) && Distinct(value)
    ensures Distinct(value + Missing(ids, value))
  {
    if ids != [] {
      var init, last := ids[..|ids| - 1], ids[|ids| - 1];
      MissingDistinct(init, value);
      MissingMembers(init, value, last);
      var q := value + Missing(init, value);
      assert last in value ==> Missing(ids, value) == Missing(init, value);
      assert last !in value ==> last !in q;
      assert last !in value ==> value + Missing(ids, value) == q + [last];
    }
  }

  lemma MissingAll(ids: seq<StoreId>, value: seq<StoreId>)
    ensures forall x :: x in value + Missing(ids, value) <==> x in ids || x in value
  {
    forall x ensures x in value + Missing(ids, value) <==> x in ids || x in value {
      MissingMembers(ids, value, x);
    }
  }

  class AutoSyncTimer {
    var stores: Stores

    constructor ()
      ensures stores == map[] && Tidy(stores)
    {
      stores := map[];
    }

    /** Adds the stores an application has not pending yet, behind those it has. */
    method AddSyncStores(app: App, storeIds: set<StoreId>, order: seq<StoreId>)
      requires Tidy(stores) && Distinct(order) && forall x :: x in order <==> x in storeIds
      modifies this
      ensures Tidy(stores)
      ensures var was := if app in old(stores) then old(stores)[app] else [];
              var now := was + Missing(order, was);
              stores == if now == [] then old(stores) else old(stores)[app := now]
      ensures forall x :: (app in stores && x in stores[app]) <==> x in storeIds || (app in old(stores) && x in old(stores)[app])
    {
      var was := if app in stores then stores[app] else [];
      var value := Append(was, order);
      MissingDistinct(order, was);
      MissingAll(order, was);
      if value != [] {
        stores := stores[app := value];
      } else {
        stores := stores - {app};
        assert stores == old(stores);
      }
    }

    /** The callback of AddSyncStores: `was` is compared, and not what has been appended to it. */
    static method Append(was: seq<StoreId>, order: seq<StoreId>) returns (value: seq<StoreId>)
      ensures value == was + Missing(order, was)
    {
      value := was;
      for i := 0 to |order|
        invariant value == was + Missing(order[..i], was)
      {
        assert order[..i + 1][..i] == order[..i];
        if order[i] !in was {
          value := value + [order[i]];
        }
      }
      assert order[..|order|] == order;
    }

    method HasSyncStores() returns (r: bool)
      requires Tidy(stores)
      ensures r <==> Total(stores) > 0
    {
      NothingPending(stores);
      r := stores != map[];
    }

    /** Takes a batch out of the pending stores, visiting the applications in the given order. */
    method GetStoreIds(keys: seq<App>) returns (taken: Stores)
      requires Tidy(stores) && Enumerates(keys, stores)
      modifies this
      ensures Splits(old(stores), keys, taken, stores, |keys|) && Tidy(stores)
      ensures Total(taken) == Batch(old(Total(stores))) && Total(taken) + Total(stores) == old(Total(stores))
    {
      taken := map[];
      var count := SYNC_STORE_NUM;
      for i := 0 to |keys|
        invariant count == Room(old(stores), keys, i)
        invariant Splits(old(stores), keys, taken, stores, i)
      {
        var key := keys[i];
        var moved, rest, left := Visit(stores[key], count);
        assert keys[..i + 1][..i] == keys[..i];
        VisitSplits(old(stores), keys, taken, stores, i, moved, rest);
        taken := taken[key := moved];
        stores := if rest == [] then stores - {key} else stores[key := rest];
        count := left;
      }
      BatchTakes(old(stores), keys, taken, stores);
      BatchStaysTidy(old(stores), keys, taken, stores);
    }

    /** The visit of one application: what it gives, what it keeps, and how many stores the batch still takes. */
    static method Visit(value: seq<StoreId>, count: nat) returns (moved: seq<StoreId>, rest: seq<StoreId>, left: nat)
      ensures |moved| == (if |value| <= count then |value| else count) && moved + rest == value && left == count - |moved|
    {
      if |value| <= count {
        return value, [], count - |value|;
      }
      moved, left := [], count;
      var it := 0;
      while it != |value| && left > 0
        invariant it <= |value| && it + left == count && moved == value[..it]
        decreases |value| - it
      {
        moved := moved + [value[it]];
        it := it + 1;
        left := left - 1;
      }
      rest := value[it..];
    }
  }

  lemma VisitSplits(m: Stores, keys: seq<App>, taken: Stores, left: Stores, i: nat, moved: seq<StoreId>, rest: seq<StoreId>)
    requires Enumerates(keys, m) && i < |keys| && Splits(m, keys, taken, left, i)
    requires |moved| == Share(m, keys, i) && moved + rest == m[keys[i]]
    ensures Splits(m, keys, taken[keys[i] := moved], if rest == [] then left - {keys[i]} else left[keys[i] := rest], i + 1)
  {
    var k := keys[i];
    var taken', left' := taken[k := moved], if rest == [] then left - {k} else left[k := rest];
    assert keys[..i + 1] == keys[..i] + [k];
    forall j | 0 <= j < i + 1 ensures SplitsAt(m, keys, taken', left', j) {
      if j < i { assert SplitsAt(m, keys, taken, left, j); }
    }
  }
}
