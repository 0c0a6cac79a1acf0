/**
 How keys of a device store become database keys and back: `Convertor` trims a key, `DeviceConvertor` puts the
 uuid of the device in front of it and the length of the uuid behind it.
 */
module DeviceKeys {

  import opened ByteCodes

  const MAX_KEY_LENGTH: nat := 1024
  const MAX_DEV_KEY_LEN: nat := 896
  const MAX_ID_LEN: nat := 64

  /** What the device manager knows: the uuid of this device, and the translations of ids; unknown ids become empty. */
  datatype Devices = Devices(localUuid: Bytes, toUuid: Bytes -> Bytes, toNetworkId: Bytes -> Bytes)

  // ---- Trimming ----

  predicate IsSpace(b: byte) {
    b == 32 || 9 <= b <= 13
  }

  /** The bytes from `i` up to `j` are spaces. */
  predicate AllSpace(s: Bytes, i: nat, j: nat)
    requires i <= j <= |s|
  {
    forall n | i <= n < j :: IsSpace(s[n])
  }

  /** The position of the first byte that is no space, or the length. */
  function Begin(s: Bytes): (n: nat)
    ensures n <= |s| && AllSpace(s, 0, n) && (n < |s| ==> !IsSpace(s[n]))
  {
    if s == [] || !IsSpace(s[0]) then 0
    else
      var n := Begin(s[1..]);
      assert forall i | 1 <= i < n + 1 :: s[i] == s[1..][i - 1];
      n + 1
  }

  /** The position behind the last byte that is no space, or zero. */
  function End(s: Bytes): (n: nat)
    ensures n <= |s| && AllSpace(s, n, |s|) && (n > 0 ==> !IsSpace(s[n - 1]))
  {
    if s == [] || !IsSpace(s[|s| - 1]) then |s| else End(s[..|s| - 1])
  }

  function TrimKey(s: Bytes): Bytes {
    var begin, end := Begin(s), End(s);
    if end <= begin then [] else s[begin..end]
  }

  /** What TrimKey cuts off is space, and what it keeps has no space at either end. */
  lemma TrimKeyIsCore(s: Bytes)
    ensures exists i, j | 0 <= i <= j <= |s| :: TrimKey(s) == s[i..j] && AllSpace(s, 0, i) && AllSpace(s, j, |s|)
    ensures var t := TrimKey(s); t != [] ==> !IsSpace(t[0]) && !IsSpace(t[|t| - 1])
    ensures TrimKey(s) == [] <==> AllSpace(s, 0, |s|)
  {
    var begin, end := Begin(s), End(s);
    if end <= begin {
      assert AllSpace(s, 0, |s|);
      assert TrimKey(s) == s[|s|..|s|];
    } else {
      assert TrimKey(s) == s[begin..end] && !IsSpace(s[begin]);
    }
  }

  lemma TrimTwice(s: Bytes)
    ensures TrimKey(TrimKey(s)) == TrimKey(s)
  {
    var t := TrimKey(s);
    TrimKeyIsCore(s);
    if t != [] {
      assert Begin(t) == 0 && End(t) == |t|;
    }
  }

  /** Trimming keeps prefixes. */
  lemma TrimKeepsPrefix(p: Bytes, k: Bytes)
    requires p <= k
    ensures TrimKey(p) <= TrimKey(k)
  {
    var begin, end := Begin(p), End(p);
    if begin < end {
      assert !IsSpace(k[begin]) && !IsSpace(k[end - 1]);
      assert forall n | 0 <= n < begin :: IsSpace(k[n]) by {
        assert forall n | 0 <= n < begin :: k[n] == p[n];
      }
      assert Begin(k) == begin && End(k) >= end;
      assert TrimKey(k) == k[begin..End(k)];
    }
  }

  // ---- Lengths ----

  predicate IsDigit(b: byte) {
    48 <= b <= 57
  }

  function DigitValue(b: byte): (d: nat)
    requires IsDigit(b)
    ensures d < 10
  {
    b as int - 48
  }

  function Digit(d: nat): byte
    requires d < 10
  {
    48 + d
  }

  function DecimalDigits(n: nat): (s: Bytes)
    ensures s != []
  {
    if n < 10 then [Digit(n)] else DecimalDigits(n / 10) + [Digit(n % 10)]
  }

  /** The number, with zeros in front of it up to a width of four. */
  function Padded(n: nat): Bytes {
    var s := DecimalDigits(n);
    seq(if |s| < LENGTH_SIZE then LENGTH_SIZE - |s| else 0, i => 48) + s
  }

  /** The value of four digits. */
  function ReadLength(s: Bytes): nat
    requires |s| == LENGTH_SIZE && forall b <- s :: IsDigit(b)
  {
    assert s[0] in s && s[1] in s && s[2] in s && s[3] in s;
    1000 * DigitValue(s[0]) + 100 * DigitValue(s[1]) + 10 * DigitValue(s[2]) + DigitValue(s[3])
  }

  lemma PaddedIsFour(n: nat)
    requires n < 10000
    ensures Padded(n) == [Digit(n / 1000), Digit(n / 100 % 10), Digit(n / 10 % 10), Digit(n % 10)]
  {
    if n < 10 {
      assert DecimalDigits(n) == [Digit(n)];
    } else if n < 100 {
      assert DecimalDigits(n) == [Digit(n / 10), Digit(n % 10)];
    } else if n < 1000 {
      assert DecimalDigits(n / 10) == [Digit(n / 100), Digit(n / 10 % 10)];
    } else {
      assert n / 10 / 10 == n / 100 && n / 100 / 10 == n / 1000;
      assert DecimalDigits(n / 100) == [Digit(n / 1000), Digit(n / 100 % 10)];
      assert DecimalDigits(n / 10) == DecimalDigits(n / 100) + [Digit(n / 10 % 10)];
    }
  }

  lemma ReadLengthPadded(n: nat)
    requires n < 10000
    ensures |Padded(n)| == LENGTH_SIZE && (forall b <- Padded(n) :: IsDigit(b)) && ReadLength(Padded(n)) == n
  {
    PaddedIsFour(n);
    assert n == 10 * (n / 10) + n % 10 && n / 10 == 10 * (n / 100) + n / 10 % 10;
    assert n / 100 == 10 * (n / 1000) + n / 100 % 10;
  }

  // ---- Database keys ----

  /** | uuid | original key | uuid len |, the length only in whole keys. */
  function Stored(uuid: Bytes, original: Bytes, withLen: bool): Bytes {
    uuid + original + if withLen then ToLittleEndian(|uuid| % 0x1_0000_0000) else []
  }

  predicate Fits(original: Bytes, withLen: bool) {
    !(original == [] && withLen) && |original| <= MAX_DEV_KEY_LEN
  }

  function StoredOrNothing(uuid: Bytes, original: Bytes, withLen: bool): Bytes {
    if Fits(original, withLen) then Stored(uuid, original, withLen) else []
  }

  /** A key of this device. */
  function Local(d: Devices, key: Bytes, withLen: bool): Bytes {
    if d.localUuid == [] then [] else StoredOrNothing(d.localUuid, TrimKey(key), withLen)
  }

  /** | network id len | network id | original key | */
  predicate HasHeader(key: Bytes) {
    && |key| >= LENGTH_SIZE && (forall b <- key[..LENGTH_SIZE] :: IsDigit(b))
    && ReadLength(key[..LENGTH_SIZE]) <= |key| - LENGTH_SIZE
  }

  function NetworkId(key: Bytes): Bytes
    requires HasHeader(key)
  {
    key[LENGTH_SIZE..LENGTH_SIZE + ReadLength(key[..LENGTH_SIZE])]
  }

  function Rest(key: Bytes): Bytes
    requires HasHeader(key)
  {
    key[LENGTH_SIZE + ReadLength(key[..LENGTH_SIZE])..]
  }

  /** A key whose header names a device that is known. */
  predicate Known(d: Devices, key: Bytes) {
    HasHeader(key) && d.toUuid(NetworkId(key)) != []
  }

  /** A key whose header names an unknown device by an id of full length. */
  predicate Refused(d: Devices, key: Bytes) {
    HasHeader(key) && d.toUuid(NetworkId(key)) == [] && |NetworkId(key)| == MAX_ID_LEN
  }

  function Converted(d: Devices, key: Bytes, withLen: bool): Bytes {
    if Known(d, key) then StoredOrNothing(d.toUuid(NetworkId(key)), TrimKey(Rest(key)), withLen)
    else if Refused(d, key) then []
    else Local(d, key, withLen)
  }

  /** The common end of ToLocal and ConvertNetwork. */
  method Build(uuid: Bytes, original: Bytes, withLen: bool) returns (dbKey: Bytes)
    ensures dbKey == StoredOrNothing(uuid, original, withLen)
  {
    if (original == [] && withLen) || |original| > MAX_DEV_KEY_LEN {
      return [];
    }
    dbKey := [];
    dbKey := dbKey + uuid;
    dbKey := dbKey + original;
    if withLen {
      dbKey := dbKey + ToLittleEndian(|uuid| % 0x1_0000_0000);
    }
  }

  method ToLocal(d: Devices, key: Bytes, withLen: bool) returns (dbKey: Bytes)
    ensures dbKey == Local(d, key, withLen)
  {
    var uuid := d.localUuid;
    if uuid == [] {
      return [];
    }
    var original := TrimKey(key);
    dbKey := Build(uuid, original, withLen);
  }

  /** How far a header goes: the network id behind the four digits, or nothing. */
  method ReadHeader(key: Bytes) returns (ok: bool, devLen: nat)
    ensures ok <==> HasHeader(key)
    ensures ok ==> devLen == ReadLength(key[..LENGTH_SIZE])
  {
    devLen := 0;
    if |key| < LENGTH_SIZE {
      return false, 0;
    }
    var deviceLen := key[..LENGTH_SIZE];
    if exists b <- deviceLen :: !IsDigit(b) {
      return false, 0;
    }
    devLen := ReadLength(deviceLen);
    ok := devLen <= |key| - LENGTH_SIZE;
  }

  method ConvertNetwork(d: Devices, key: Bytes, withLen: bool) returns (out: Bytes)
    ensures out == Converted(d, key, withLen)
  {
    var ok, devLen := ReadHeader(key);
    if !ok {
      out := ToLocal(d, key, withLen);
      return;
    }
    var begin := LENGTH_SIZE;
    var networkId := key[begin..begin + devLen];
    var uuid := d.toUuid(networkId);
    if uuid == [] {
      if devLen != MAX_ID_LEN {
        out := ToLocal(d, key, withLen);
      } else {
        out := [];
      }
      return;
    }
    begin := begin + devLen;
    var original := key[begin..];
    original := TrimKey(original);
    out := Build(uuid, original, withLen);
  }

  /** The length at the end of a database key, when the key has one that is possible. */
  predicate HasOwner(key: Bytes) {
    |key| >= LENGTH_SIZE && FromLittleEndian(key[|key| - LENGTH_SIZE..]) <= |key| - LENGTH_SIZE
  }

  function Owner(key: Bytes): Bytes
    requires HasOwner(key)
  {
    key[..FromLittleEndian(key[|key| - LENGTH_SIZE..])]
  }

  /** The original key; a key without an owner is left as it is. */
  function Original(key: Bytes): Bytes {
    if HasOwner(key) then key[|Owner(key)|..|key| - LENGTH_SIZE] else key
  }

  method ToKey(d: Devices, dbKey: Bytes, deviceId: Bytes) returns (key: Bytes, id: Bytes)
    ensures key == Original(dbKey)
    ensures id == if deviceId == [] && HasOwner(dbKey) then d.toNetworkId(Owner(dbKey)) else deviceId
  {
    key, id := dbKey, deviceId;
    if |key| < LENGTH_SIZE {
      return;
    }
    var length := FromLittleEndian(key[|key| - LENGTH_SIZE..]);
    if length > |key| - LENGTH_SIZE {
      return;
    }
    if id == [] {
      id := d.toNetworkId(key[..length]);
    }
    key := key[length..];
    key := key[..|key| - LENGTH_SIZE];
  }

  /** The key of a device other than this one, as a caller writes it. */
  function RealKey(key: Bytes, deviceId: Bytes): Bytes {
    if deviceId == [] then key else Padded(|deviceId|) + deviceId + key
  }

  // ---- Round trips ----

  lemma StoredRoundTrip(uuid: Bytes, original: Bytes)
    requires |uuid| < 0x1_0000_0000
    ensures var key := Stored(uuid, original, true); HasOwner(key) && Owner(key) == uuid && Original(key) == original
  {
    var key, length := Stored(uuid, original, true), ToLittleEndian(|uuid|);
    LittleEndianRoundTrip(|uuid|);
    assert key == uuid + original + length;
    assert key[|key| - LENGTH_SIZE..] == length;
    assert key[..|uuid|] == uuid;
    assert key[|uuid|..|key| - LENGTH_SIZE] == original;
  }

  /** A stored key determines the device and the original key. */
  lemma StoredDetermines(uuid: Bytes, original: Bytes, uuid': Bytes, original': Bytes)
    requires |uuid| < 0x1_0000_0000 && |uuid'| < 0x1_0000_0000
    ensures Stored(uuid, original, true) == Stored(uuid', original', true) <==> uuid == uuid' && original == original'
  {
    StoredRoundTrip(uuid, original);
    StoredRoundTrip(uuid', original');
  }

  /** The header names the device exactly when its length has at most four digits. */
  lemma HeaderExactlyWhen(key: Bytes, deviceId: Bytes)
    requires deviceId != []
    ensures var raw := RealKey(key, deviceId);
            (HasHeader(raw) && NetworkId(raw) == deviceId && Rest(raw) == key) <==> |deviceId| < 10000
  {
    var raw := RealKey(key, deviceId);
    if |deviceId| < 10000 {
      ReadLengthPadded(|deviceId|);
      assert raw[..LENGTH_SIZE] == Padded(|deviceId|);
    } else if HasHeader(raw) {
      assert ReadLength(raw[..LENGTH_SIZE]) < 10000;
    }
  }

  /** A key is stored for a known device when it is not blank and not too long, and then comes back trimmed, with its device. */
  lemma DeviceKeyRoundTrip(d: Devices, key: Bytes, deviceId: Bytes)
    requires deviceId != [] && |deviceId| < 10000 && d.toUuid(deviceId) != [] && |d.toUuid(deviceId)| < 0x1_0000_0000
    ensures var whole := Converted(d, RealKey(key, deviceId), true);
            && (whole != [] <==> Fits(TrimKey(key), true))
            && (whole != [] ==> HasOwner(whole) && Owner(whole) == d.toUuid(deviceId) && Original(whole) == TrimKey(key))
  {
    HeaderExactlyWhen(key, deviceId);
    StoredRoundTrip(d.toUuid(deviceId), TrimKey(key));
  }

  lemma LocalKeyRoundTrip(d: Devices, key: Bytes)
    requires |d.localUuid| < 0x1_0000_0000
    ensures var whole := Local(d, key, true);
            && (whole != [] <==> d.localUuid != [] && Fits(TrimKey(key), true))
            && (whole != [] ==> HasOwner(whole) && Owner(whole) == d.localUuid && Original(whole) == TrimKey(key))
  {
    StoredRoundTrip(d.localUuid, TrimKey(key));
  }

  /** Two keys of a device are stored alike exactly when they are the same but for the space around them. */
  lemma SameStoredKey(d: Devices, a: Bytes, b: Bytes, deviceId: Bytes)
    requires deviceId != [] && |deviceId| < 10000 && d.toUuid(deviceId) != [] && |d.toUuid(deviceId)| < 0x1_0000_0000
    requires Fits(TrimKey(a), true) && Fits(TrimKey(b), true)
    ensures Converted(d, RealKey(a, deviceId), true) == Converted(d, RealKey(b, deviceId), true) <==> TrimKey(a) == TrimKey(b)
  {
    HeaderExactlyWhen(a, deviceId);
    HeaderExactlyWhen(b, deviceId);
    StoredDetermines(d.toUuid(deviceId), TrimKey(a), d.toUuid(deviceId), TrimKey(b));
  }

  // ---- Prefixes ----

  lemma StoredKeepsPrefix(uuid: Bytes, p: Bytes, k: Bytes)
    requires p <= k && StoredOrNothing(uuid, TrimKey(k), true) != []
    ensures StoredOrNothing(uuid, TrimKey(p), false) <= StoredOrNothing(uuid, TrimKey(k), true)
  {
    TrimKeepsPrefix(p, k);
    var t, u := TrimKey(p), TrimKey(k);
    assert |t| <= |u|;
    assert (uuid + u)[..|uuid + t|] == uuid + t;
  }

  lemma HeaderOfPrefix(p: Bytes, k: Bytes)
    requires p <= k && HasHeader(p)
    ensures HasHeader(k) && NetworkId(p) == NetworkId(k) && Rest(p) <= Rest(k)
  {
    assert k[..LENGTH_SIZE] == p[..LENGTH_SIZE];
  }

  /** The prefix of a query for a device is a prefix of every key that begins with it. */
  lemma QueryPrefix(d: Devices, p: Bytes, k: Bytes, deviceId: Bytes)
    requires p <= k && deviceId != [] && |deviceId| < 10000 && d.toUuid(deviceId) != []
    requires Converted(d, RealKey(k, deviceId), true) != []
    ensures Converted(d, RealKey(p, deviceId), false) <= Converted(d, RealKey(k, deviceId), true)
  {
    HeaderExactlyWhen(p, deviceId);
    HeaderExactlyWhen(k, deviceId);
    StoredKeepsPrefix(d.toUuid(deviceId), p, k);
  }

  /** The same for keys as they are, when the header of the longer one is not cut off. */
  lemma PlainPrefix(d: Devices, p: Bytes, k: Bytes)
    requires p <= k && Converted(d, k, true) != [] && (Known(d, k) ==> Known(d, p))
    ensures Converted(d, p, false) <= Converted(d, k, true)
  {
    if HasHeader(p) { HeaderOfPrefix(p, k); }
    if Known(d, k) {
      StoredKeepsPrefix(d.toUuid(NetworkId(k)), Rest(p), Rest(k));
    } else if !Refused(d, p) {
      StoredKeepsPrefix(d.localUuid, p, k);
    }
  }

  /** What is left to compare when a key of `local` is held against one of `uuid`. */
  predicate Continues(local: Bytes, prefix: Bytes, uuid: Bytes, rest: Bytes) {
    if local <= uuid then prefix <= uuid[|local|..] + rest
    else uuid <= local && local[|uuid|..] + prefix <= rest
  }

  lemma PrefixAfter(u: Bytes, a: Bytes, b: Bytes)
    ensures u + a <= u + b <==> a <= b
  {
    if u + a <= u + b {
      assert a == (u + a)[|u|..] && b == (u + b)[|u|..];
      assert (u + b)[..|u + a|] == u + a;
      assert b[..|a|] == (u + b)[|u|..|u| + |a|];
    }
  }

  lemma ContinuesExactlyWhen(local: Bytes, prefix: Bytes, uuid: Bytes, rest: Bytes)
    ensures local + prefix <= uuid + rest <==> Continues(local, prefix, uuid, rest)
  {
    if local <= uuid {
      PrefixAfter(local, prefix, uuid[|local|..] + rest);
      assert local + (uuid[|local|..] + rest) == uuid + rest;
    } else if uuid <= local {
      PrefixAfter(uuid, local[|uuid|..] + prefix, rest);
      assert uuid + (local[|uuid|..] + prefix) == local + prefix;
    } else if local + prefix <= uuid + rest {
      BothPrefixes(local, uuid, uuid + rest);
    }
  }

  lemma BothPrefixes(a: Bytes, b: Bytes, whole: Bytes)
    requires a <= whole && b <= whole
    ensures a <= b || b <= a
  {
  }

  /** A key stored for another device, or for this one by its header, goes on after the prefix as a key of this device. */
  predicate SameAsLocal(d: Devices, p: Bytes, k: Bytes)
    requires Known(d, k)
  {
    var uuid := d.toUuid(NetworkId(k));
    Continues(d.localUuid, TrimKey(p), uuid, TrimKey(Rest(k)) + ToLittleEndian(|uuid| % 0x1_0000_0000))
  }

  /**
   The prefix is one exactly when the header is not cut off, or nothing is asked for, or the bytes agree all the
   same: of a header that names this device, when the trimmed prefix goes on as the trimmed rest of the key and its
   length; of another one, when the uuids begin alike and what follows does too.
   */
  lemma PlainPrefixExactlyWhen(d: Devices, p: Bytes, k: Bytes)
    requires p <= k && Converted(d, k, true) != []
    ensures Converted(d, p, false) <= Converted(d, k, true)
            <==> || (Known(d, k) ==> Known(d, p)) || |TrimKey(p)| > MAX_DEV_KEY_LEN || d.localUuid == []
                 || SameAsLocal(d, p, k)
  {
    if Known(d, k) ==> Known(d, p) {
      PlainPrefix(d, p, k);
    } else {
      CutPrefixExactlyWhen(d, p, k);
    }
  }

  lemma CutPrefixExactlyWhen(d: Devices, p: Bytes, k: Bytes)
    requires p <= k && Converted(d, k, true) != [] && Known(d, k) && !Known(d, p)
    ensures Converted(d, p, false) <= Converted(d, k, true)
            <==> |TrimKey(p)| > MAX_DEV_KEY_LEN || d.localUuid == [] || SameAsLocal(d, p, k)
  {
    var uuid, original := d.toUuid(NetworkId(k)), TrimKey(Rest(k));
    var length := ToLittleEndian(|uuid| % 0x1_0000_0000);
    if HasHeader(p) { HeaderOfPrefix(p, k); }
    assert Converted(d, p, false) == Local(d, p, false);
    if Fits(TrimKey(p), false) && d.localUuid != [] {
      assert Local(d, p, false) == d.localUuid + TrimKey(p);
      assert Converted(d, k, true) == uuid + original + length == uuid + (original + length);
      ContinuesExactlyWhen(d.localUuid, TrimKey(p), uuid, original + length);
    }
  }

  /** When a header names this device itself. */
  lemma OwnHeaderExactlyWhen(d: Devices, p: Bytes, k: Bytes)
    requires Known(d, k) && d.toUuid(NetworkId(k)) == d.localUuid
    ensures SameAsLocal(d, p, k) <==> TrimKey(p) <= TrimKey(Rest(k)) + ToLittleEndian(|d.localUuid| % 0x1_0000_0000)
  {
    assert d.localUuid[|d.localUuid|..] == [];
    assert [] + (TrimKey(Rest(k)) + ToLittleEndian(|d.localUuid| % 0x1_0000_0000))
           == TrimKey(Rest(k)) + ToLittleEndian(|d.localUuid| % 0x1_0000_0000);
  }

  /** When neither uuid begins with the other, a prefix that cuts the header off is none. */
  lemma DifferentUuids(d: Devices, p: Bytes, k: Bytes)
    requires Known(d, k) && !(d.localUuid <= d.toUuid(NetworkId(k))) && !(d.toUuid(NetworkId(k)) <= d.localUuid)
    ensures !SameAsLocal(d, p, k)
  {
  }

  /** A header that is cut off: "0" is a prefix of "0001ax", but "0001ax" is a key of device "a" and "0" one of this device. */
  lemma CutHeaderLosesPrefix()
    ensures exists d: Devices, p: Bytes, k: Bytes ::
              p <= k && Converted(d, k, true) != [] && !(Converted(d, p, false) <= Converted(d, k, true))
  {
    var d := Devices([2], n => if n == [97] then [1] else [], n => []);
    var p: Bytes, k: Bytes := [48], [48, 48, 48, 49, 97, 120];
    assert k[..LENGTH_SIZE] == [48, 48, 48, 49] && ReadLength(k[..LENGTH_SIZE]) == 1;
    assert NetworkId(k) == [97] && Rest(k) == [120] && Known(d, k);
    assert TrimKey([120]) == [120] && TrimKey(p) == [48];
    assert Converted(d, k, true)[0] == 1;
    assert Converted(d, p, false) == [2, 48];
  }

  /** The keys of a query, as GetDBQuery collects them. */
  method QueryKeys(d: Devices, keys: seq<Bytes>, deviceId: Bytes) returns (dbKeys: set<Bytes>)
    ensures dbKeys == set k <- keys :: Converted(d, RealKey(k, deviceId), true)
  {
    dbKeys := {};
    for i := 0 to |keys|
      invariant dbKeys == set k <- keys[..i] :: Converted(d, RealKey(k, deviceId), true)
    {
      assert keys[..i + 1] == keys[..i] + [keys[i]];
      var dbKey := ConvertNetwork(d, RealKey(keys[i], deviceId), true);
      dbKeys := dbKeys + {dbKey};
    }
    assert keys[..|keys|] == keys;
  }

  // ---- Single stores ----

  /**
   In a single store this converts prefixes and keys alike.  A prefix stays a prefix of every key that begins with
   it, and a key that comes back from the store converts to itself.
   */
  method GetPrefix(prefix: Bytes) returns (dbKey: Bytes)
    ensures dbKey == [] <==> AllSpace(prefix, 0, |prefix|) || |TrimKey(prefix)| > MAX_KEY_LENGTH
    ensures dbKey != [] ==> |dbKey| == |TrimKey(prefix)| && TrimKey(dbKey) == dbKey
    ensures forall k: Bytes | prefix <= k :: dbKey <= TrimKey(k)
  {
    TrimKeyIsCore(prefix);
    TrimTwice(prefix);
    forall k: Bytes | prefix <= k ensures TrimKey(prefix) <= TrimKey(k) {
      TrimKeepsPrefix(prefix, k);
    }
    dbKey := TrimKey(prefix);
    if |dbKey| > MAX_KEY_LENGTH {
      dbKey := [];
    }
  }
}
