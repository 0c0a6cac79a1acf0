/**
 DevManager's cache of device ids: every known device can be looked up by its uuid and by its network id.
 */
module DevManager {
  import opened LruSpec
  import opened LruBucket

  datatype DetailInfo = DetailInfo(uuid: string, networkId: string)

  const BUCKET_CAPACITY := 64

  /** What UpdateBucket sets for a list of devices: both ids of each device that has them. */
  function IdsOf(devices: seq<DetailInfo>): seq<(string, DetailInfo)> {
    if devices == [] then []
    else IdsOf(devices[..|devices| - 1]) + IdsOfOne(devices[|devices| - 1])
  }

  function IdsOfOne(d: DetailInfo): seq<(string, DetailInfo)> {
    if d.uuid == "" || d.networkId == "" then [] else [(d.uuid, d), (d.networkId, d)]
  }

  lemma {:induction false} TouchAllAppend<K, V>(s: seq<(K, V)>, capacity: nat, a: seq<(K, V)>, b: seq<(K, V)>)
    ensures TouchAll(s, capacity, a + b) == TouchAll(TouchAll(s, capacity, a), capacity, b)
  {
    if b == [] {
      assert a + b == a;
    } else {
      assert (a + b)[..|a + b| - 1] == a + b[..|b| - 1];
      TouchAllAppend(s, capacity, a, b[..|b| - 1]);
    }
  }

  class DevManager {
    const deviceInfos: LRUBucket<string, DetailInfo>

    ghost predicate Valid()
      reads deviceInfos, deviceInfos.head, deviceInfos.order
    {
      deviceInfos.Valid() && deviceInfos.capacity == BUCKET_CAPACITY
    }

    constructor ()
      ensures Valid() && deviceInfos.Contents() == [] && fresh(deviceInfos)
    {
      deviceInfos := new LRUBucket(BUCKET_CAPACITY, "", DetailInfo("", ""));
    }

    /** Both ids of one device, if it has them. */
    method SetIds(d: DetailInfo)
      requires Valid()
      modifies deviceInfos, deviceInfos.head, deviceInfos.Nodes()
      ensures Valid() && fresh(deviceInfos.Nodes() - old(deviceInfos.Nodes()))
      ensures deviceInfos.Contents() == TouchAll(old(deviceInfos.Contents()), BUCKET_CAPACITY, IdsOfOne(d))
    {
      if d.uuid == "" || d.networkId == "" {
        return;
      }
      TouchAllTwo(deviceInfos.Contents(), BUCKET_CAPACITY, (d.uuid, d), (d.networkId, d));
      var ok := deviceInfos.Set(d.uuid, d);
      ok := deviceInfos.Set(d.networkId, d);
    }

    /** `devices` are the remote devices the adapter reports, followed by the local one. */
    method UpdateBucket(devices: seq<DetailInfo>)
      requires Valid()
      modifies deviceInfos, deviceInfos.head, deviceInfos.Nodes()
      ensures Valid() && fresh(deviceInfos.Nodes() - old(deviceInfos.Nodes()))
      ensures deviceInfos.Contents() == TouchAll(old(deviceInfos.Contents()), BUCKET_CAPACITY, IdsOf(devices))
    {
      ghost var c := deviceInfos.Contents();
      for i := 0 to |devices|
        invariant Valid() && fresh(deviceInfos.Nodes() - old(deviceInfos.Nodes()))
        invariant deviceInfos.Contents() == TouchAll(c, BUCKET_CAPACITY, IdsOf(devices[..i]))
      {
        NextIds(c, BUCKET_CAPACITY, devices, i);
        SetIds(devices[i]);
      }
      assert devices[..|devices|] == devices;
    }

    /** ToUUID and ToNetworkId are this lookup; it asks the adapter only when the id is not cached. */
    method GetDevInfoFromBucket(id: string, devices: seq<DetailInfo>) returns (info: DetailInfo)
      requires Valid()
      modifies deviceInfos, deviceInfos.head, deviceInfos.Nodes()
      ensures Valid()
      ensures var c := old(deviceInfos.Contents());
              var u := TouchAll(c, BUCKET_CAPACITY, IdsOf(devices));
              info == if Has(c, id) then Lookup(c, id) else if Has(u, id) then Lookup(u, id) else DetailInfo("", "")
    {
      var found;
      info := DetailInfo("", "");
      found, info := deviceInfos.Get(id, info, true);
      if !found {
        UpdateBucket(devices);
        found, info := deviceInfos.Get(id, info, true);
      }
    }
  }

  lemma NextIds(c: seq<(string, DetailInfo)>, capacity: nat, devices: seq<DetailInfo>, i: nat)
    requires i < |devices|
    ensures TouchAll(c, capacity, IdsOf(devices[..i + 1])) ==
            TouchAll(TouchAll(c, capacity, IdsOf(devices[..i])), capacity, IdsOfOne(devices[i]))
  {
    assert devices[..i + 1][..i] == devices[..i];
    TouchAllAppend(c, capacity, IdsOf(devices[..i]), IdsOfOne(devices[i]));
  }

  lemma TouchAllTwo<K, V>(s: seq<(K, V)>, capacity: nat, a: (K, V), b: (K, V))
    ensures TouchAll(s, capacity, [a, b]) == Touch(Touch(s, capacity, a.0, a.1), capacity, b.0, b.1)
  {
    assert [a, b][..1] == [a] && [a][..0] == [];
    assert TouchAll(s, capacity, [a]) == Touch(TouchAll(s, capacity, []), capacity, a.0, a.1);
  }

  lemma {:induction false} IdsOfMembers(devices: seq<DetailInfo>, d: DetailInfo)
    requires d in devices && d.uuid != "" && d.networkId != ""
    ensures (d.uuid, d) in IdsOf(devices) && (d.networkId, d) in IdsOf(devices)
  {
    if devices[|devices| - 1] != d {
      IdsOfMembers(devices[..|devices| - 1], d);
    }
  }

  lemma {:induction false} IdsOfLength(devices: seq<DetailInfo>)
    ensures |IdsOf(devices)| <= 2 * |devices|
  {
    if devices != [] {
      IdsOfLength(devices[..|devices| - 1]);
    }
  }

  /**
   With at most 32 devices, no two of whose ids coincide, an update leaves every one of them findable by
   either id, whatever the cache held before.
   */
  lemma EveryDeviceIsFindable(c: seq<(string, DetailInfo)>, devices: seq<DetailInfo>, d: DetailInfo)
    requires DistinctKeys(c) && DistinctKeys(IdsOf(devices)) && |devices| <= 32
    requires d in devices && d.uuid != "" && d.networkId != ""
    ensures var u := TouchAll(c, BUCKET_CAPACITY, IdsOf(devices));
            && Has(u, d.uuid) && Lookup(u, d.uuid) == d
            && Has(u, d.networkId) && Lookup(u, d.networkId) == d
  {
    IdsOfLength(devices);
    IdsOfMembers(devices, d);
    TouchedIsFindable(c, BUCKET_CAPACITY, IdsOf(devices), (d.uuid, d));
    TouchedIsFindable(c, BUCKET_CAPACITY, IdsOf(devices), (d.networkId, d));
  }

  lemma TouchedIsFindable<K, V>(c: seq<(K, V)>, capacity: nat, touches: seq<(K, V)>, x: (K, V))
    requires DistinctKeys(c) && DistinctKeys(touches) && |touches| <= capacity && x in touches
    ensures var u := TouchAll(c, capacity, touches); Has(u, x.0) && Lookup(u, x.0) == x.1
  {
    var u := TouchAll(c, capacity, touches);
    FreshTouchesStay(c, capacity, touches);
    var i :| 0 <= i < |touches| && touches[i] == x;
    assert u[|touches| - 1 - i] == Reverse(touches)[|touches| - 1 - i] == touches[i];
    LookupAt(u, |touches| - 1 - i);
  }
}
