/**
 Type-directed marshalling: what ITypesUtil writes for a value of a type, and what it makes of the bytes.
 */
module MarshalSpec {

  import opened Collections
  import opened ByteCodes
  import opened Options

  const INT_MAX: int := 0x7FFF_FFFF

  datatype Type =
    | Int32 | Uint32 | Int64 | Bool | Text | Unit
    | Pair(first: Type, second: Type)
    | Tuple(first: Type, second: Type, third: Type)
    | List(element: Type)
    | Map(key: Type, mapped: Type)
    | Variant(types: seq<Type>)

  /** A map is the list of its entries, in the order in which they are written. */
  datatype Value =
    | Number(n: int)
    | Truth(b: bool)
    | Chars(s: Bytes)
    | Nothing
    | PairOf(a: Value, b': Value)
    | TupleOf(a: Value, b': Value, c: Value)
    | ListOf(vs: seq<Value>)
    | MapOf(es: seq<(Value, Value)>)
    | Choice(index: nat, v: Value)

  predicate DistinctKeys(es: seq<(Value, Value)>) {
    forall i, j | 0 <= i < j < |es| :: es[i].0 != es[j].0
  }

  /** The values of a type; sizes fit 32 bits. */
  predicate Typed(t: Type, v: Value)
    decreases t
  {
    match t
    case Int32 => v.Number? && -INT_MAX - 1 <= v.n <= INT_MAX
    case Uint32 => v.Number? && 0 <= v.n < 0x1_0000_0000
    case Int64 => v.Number? && -0x8000_0000_0000_0000 <= v.n < 0x8000_0000_0000_0000
    case Bool => v.Truth?
    case Text => v.Chars? && |v.s| <= INT_MAX
    case Unit => v.Nothing?
    case Pair(f, s) => v.PairOf? && Typed(f, v.a) && Typed(s, v.b')
    case Tuple(f, s, u) => v.TupleOf? && Typed(f, v.a) && Typed(s, v.b') && Typed(u, v.c)
    case List(e) => v.ListOf? && |v.vs| <= INT_MAX && forall x <- v.vs :: Typed(e, x)
    case Map(k, m) =>
      v.MapOf? && |v.es| <= INT_MAX && DistinctKeys(v.es) && forall x <- v.es :: Typed(k, x.0) && Typed(m, x.1)
    case Variant(ts) => v.Choice? && v.index < |ts| && |ts| < 0x1_0000_0000 && Typed(ts[v.index], v.v)
  }

  // ---- Numbers ----

  function EncodeNat32(n: nat): (s: Bytes)
    requires n < 0x1_0000_0000
    ensures |s| == 4
  {
    ToLittleEndian(n)
  }

  function EncodeInt32(n: int): (s: Bytes)
    ensures |s| == 4
  {
    ToLittleEndian(n % 0x1_0000_0000)
  }

  function DecodeInt32(s: Bytes): (n: int)
    requires |s| == 4
    ensures -INT_MAX - 1 <= n <= INT_MAX
  {
    var n := FromLittleEndian(s);
    if n > INT_MAX then n - 0x1_0000_0000 else n
  }

  lemma Int32RoundTrip(n: int)
    requires -INT_MAX - 1 <= n <= INT_MAX
    ensures DecodeInt32(EncodeInt32(n)) == n
  {
    LittleEndianRoundTrip(n % 0x1_0000_0000);
    assert n % 0x1_0000_0000 == if n < 0 then n + 0x1_0000_0000 else n;
  }

  function EncodeInt64(n: int): (s: Bytes)
    ensures |s| == 8
  {
    ToLittleEndian(n % 0x1_0000_0000) + EncodeInt32(n / 0x1_0000_0000)
  }

  function DecodeInt64(s: Bytes): int
    requires |s| == 8
  {
    FromLittleEndian(s[..4]) + 0x1_0000_0000 * DecodeInt32(s[4..])
  }

  lemma Int64RoundTrip(n: int)
    requires -0x8000_0000_0000_0000 <= n < 0x8000_0000_0000_0000
    ensures DecodeInt64(EncodeInt64(n)) == n
  {
    var low, high := n % 0x1_0000_0000, n / 0x1_0000_0000;
    var s := EncodeInt64(n);
    assert s[..4] == ToLittleEndian(low) && s[4..] == EncodeInt32(high);
    LittleEndianRoundTrip(low);
    Int32RoundTrip(high);
  }

  // ---- Writing ----

  function Encode(t: Type, v: Value): Bytes
    requires Typed(t, v)
    decreases t, 1
  {
    match t
    case Int32 => EncodeInt32(v.n)
    case Uint32 => EncodeNat32(v.n)
    case Int64 => EncodeInt64(v.n)
    case Bool => EncodeInt32(if v.b then 1 else 0)
    case Text => EncodeInt32(|v.s|) + v.s
    case Unit => []
    case Pair(f, s) => Encode(f, v.a) + Encode(s, v.b')
    case Tuple(f, s, u) => Encode(f, v.a) + Encode(s, v.b') + Encode(u, v.c)
    case List(e) => EncodeInt32(|v.vs|) + EncodeAll(e, v.vs)
    case Map(k, m) => EncodeInt32(|v.es|) + EncodeEntries(t, v.es)
    case Variant(ts) => EncodeNat32(v.index) + Encode(ts[v.index], v.v)
  }

  function EncodeAll(t: Type, vs: seq<Value>): Bytes
    requires forall x <- vs :: Typed(t, x)
    decreases t, 2, |vs|
  {
    if vs == [] then [] else Encode(t, vs[0]) + EncodeAll(t, vs[1..])
  }

  function EncodeEntries(t: Type, es: seq<(Value, Value)>): Bytes
    requires t.Map? && forall x <- es :: Typed(t.key, x.0) && Typed(t.mapped, x.1)
    decreases t, 0, |es|
  {
    if es == [] then [] else Encode(t.key, es[0].0) + Encode(t.mapped, es[0].1) + EncodeEntries(t, es[1..])
  }

  // ---- Reading ----

  type Read<T> = Option<(T, Bytes)>

  /** Reading a number that is checked. */
  function ReadInt32(s: Bytes): Read<int> {
    if |s| < 4 then None else Some((DecodeInt32(s[..4]), s[4..]))
  }

  /** Reading a number without a check gives zero at the end of the parcel. */
  function ReadInt32OrZero(s: Bytes): (int, Bytes) {
    if |s| < 4 then (0, s) else (DecodeInt32(s[..4]), s[4..])
  }

  function ReadNat32OrZero(s: Bytes): (r: (nat, Bytes)) {
    if |s| < 4 then (0, s) else (FromLittleEndian(s[..4]), s[4..])
  }

  /** `val[key]` is set: an entry with the key is replaced, else there is a new one. */
  function Put(es: seq<(Value, Value)>, k: Value, v: Value): seq<(Value, Value)> {
    if es == [] then [(k, v)]
    else if es[0].0 == k then [(k, v)] + es[1..]
    else [es[0]] + Put(es[1..], k, v)
  }

  function Decode(t: Type, s: Bytes): Read<Value>
    decreases t, 1
  {
    match t
    case Int32 => if |s| < 4 then None else Some((Number(DecodeInt32(s[..4])), s[4..]))
    case Uint32 => if |s| < 4 then None else Some((Number(FromLittleEndian(s[..4])), s[4..]))
    case Int64 => if |s| < 8 then None else Some((Number(DecodeInt64(s[..8])), s[8..]))
    case Bool => if |s| < 4 then None else Some((Truth(DecodeInt32(s[..4]) != 0), s[4..]))
    case Text => DecodeText(s)
    case Unit => Some((Nothing, s))
    case Pair(f, g) =>
      var a := Decode(f, s);
      if a.None? then None
      else
        var b := Decode(g, a.value.1);
        if b.None? then None else Some((PairOf(a.value.0, b.value.0), b.value.1))
    case Tuple(f, g, h) =>
      var a := Decode(f, s);
      if a.None? then None
      else
        var b := Decode(g, a.value.1);
        if b.None? then None
        else
          var c := Decode(h, b.value.1);
          if c.None? then None else Some((TupleOf(a.value.0, b.value.0, c.value.0), c.value.1))
    case List(e) =>
      var (n, rest) := ReadInt32OrZero(s);
      if n < 0 || n > |rest| then None
      else
        var r := DecodeAll(e, n, rest);
        if r.None? then None else Some((ListOf(r.value.0), r.value.1))
    case Map(k, m) =>
      var size := ReadInt32(s);
      if size.None? || size.value.0 < 0 || size.value.0 > |size.value.1| then None
      else
        var r := DecodeEntries(t, size.value.0, [], size.value.1);
        if r.None? then None else Some((MapOf(r.value.0), r.value.1))
    case Variant(ts) =>
      var (index, rest) := ReadNat32OrZero(s);
      if index >= |ts| then None
      else
        var r := Decode(ts[index], rest);
        if r.None? then None else Some((Choice(index, r.value.0), r.value.1))
  }

  function DecodeText(s: Bytes): Read<Value> {
    if |s| < 4 then None
    else
      var n := DecodeInt32(s[..4]);
      if n < 0 || n > |s| - 4 then None else Some((Chars(s[4..4 + n]), s[4 + n..]))
  }

  function DecodeAll(t: Type, n: nat, s: Bytes): Read<seq<Value>>
    decreases t, 2, n
  {
    if n == 0 then Some(([], s))
    else
      var a := Decode(t, s);
      if a.None? then None
      else
        var r := DecodeAll(t, n - 1, a.value.1);
        if r.None? then None else Some(([a.value.0] + r.value.0, r.value.1))
  }

  function DecodeEntries(t: Type, n: nat, es: seq<(Value, Value)>, s: Bytes): Read<seq<(Value, Value)>>
    requires t.Map?
    decreases t, 0, n
  {
    if n == 0 then Some((es, s))
    else
      var a := Decode(t.key, s);
      if a.None? then None
      else
        var b := Decode(t.mapped, a.value.1);
        if b.None? then None else DecodeEntries(t, n - 1, Put(es, a.value.0, b.value.0), b.value.1)
  }

  // ---- Widths ----

  /** Types whose values take no bytes. */
  predicate ZeroWidth(t: Type) {
    match t
    case Unit => true
    case Pair(f, s) => ZeroWidth(f) && ZeroWidth(s)
    case Tuple(f, s, u) => ZeroWidth(f) && ZeroWidth(s) && ZeroWidth(u)
    case _ => false
  }

  lemma {:induction false} WidthIsZeroExactlyWhen(t: Type, v: Value)
    requires Typed(t, v)
    ensures Encode(t, v) == [] <==> ZeroWidth(t)
    decreases t
  {
    match t
    case Pair(f, s) =>
      WidthIsZeroExactlyWhen(f, v.a);
      WidthIsZeroExactlyWhen(s, v.b');
    case Tuple(f, s, u) =>
      WidthIsZeroExactlyWhen(f, v.a);
      WidthIsZeroExactlyWhen(s, v.b');
      WidthIsZeroExactlyWhen(u, v.c);
    case Variant(ts) => assert |EncodeNat32(v.index)| == 4;
    case _ =>
  }

  /** Types in which every container's elements take at least one byte. */
  predicate Solid(t: Type) {
    match t
    case Pair(f, s) => Solid(f) && Solid(s)
    case Tuple(f, s, u) => Solid(f) && Solid(s) && Solid(u)
    case List(e) => !ZeroWidth(e) && Solid(e)
    case Map(k, m) => !(ZeroWidth(k) && ZeroWidth(m)) && Solid(k) && Solid(m)
    case Variant(ts) => forall t <- ts :: Solid(t)
    case _ => true
  }

  // ---- Round trips ----

  /**
   Whether a value comes back when `n` bytes follow it.  Every list and map in it must find at least as many bytes
   behind its size as it has elements; what follows the value counts too.
   */
  predicate Enough(t: Type, v: Value, n: nat)
    requires Typed(t, v)
    decreases t, 1
  {
    match t
    case Pair(f, s) => Enough(f, v.a, |Encode(s, v.b')| + n) && Enough(s, v.b', n)
    case Tuple(f, s, u) =>
      && Enough(f, v.a, |Encode(s, v.b')| + |Encode(u, v.c)| + n)
      && Enough(s, v.b', |Encode(u, v.c)| + n) && Enough(u, v.c, n)
    case List(e) => |v.vs| <= |EncodeAll(e, v.vs)| + n && EnoughAll(e, v.vs, n)
    case Map(k, m) => |v.es| <= |EncodeEntries(t, v.es)| + n && EnoughEntries(t, v.es, n)
    case Variant(ts) => Enough(ts[v.index], v.v, n)
    case _ => true
  }

  predicate EnoughAll(t: Type, vs: seq<Value>, n: nat)
    requires forall x <- vs :: Typed(t, x)
    decreases t, 2, |vs|
  {
    vs != [] ==> Enough(t, vs[0], |EncodeAll(t, vs[1..])| + n) && EnoughAll(t, vs[1..], n)
  }

  predicate EnoughEntries(t: Type, es: seq<(Value, Value)>, n: nat)
    requires t.Map? && forall x <- es :: Typed(t.key, x.0) && Typed(t.mapped, x.1)
    decreases t, 0, |es|
  {
    es != [] ==>
      var more := |EncodeEntries(t, es[1..])| + n;
      && Enough(t.key, es[0].0, |Encode(t.mapped, es[0].1)| + more)
      && Enough(t.mapped, es[0].1, more) && EnoughEntries(t, es[1..], n)
  }

  /** Reading back what was written gives the value and what follows it, or fails. */
  ghost predicate Decodes(t: Type, v: Value, rest: Bytes)
    requires Typed(t, v)
  {
    Decode(t, Encode(t, v) + rest) == if Enough(t, v, |rest|) then Some((v, rest)) else None
  }

  ghost predicate Returns(t: Type, v: Value, rest: Bytes)
    requires Typed(t, v)
  {
    Decode(t, Encode(t, v) + rest) == Some((v, rest))
  }

  lemma Splits(a: Bytes, b: Bytes)
    ensures (a + b)[..|a|] == a && (a + b)[|a|..] == b
  {
  }

  lemma NumberDecodes(t: Type, v: Value, rest: Bytes)
    requires Typed(t, v) && (t.Int32? || t.Uint32? || t.Int64? || t.Bool?)
    ensures Decodes(t, v, rest)
  {
    Splits(Encode(t, v), rest);
    match t
    case Int32 => Int32RoundTrip(v.n);
    case Uint32 => LittleEndianRoundTrip(v.n);
    case Int64 => Int64RoundTrip(v.n);
    case Bool => Int32RoundTrip(if v.b then 1 else 0);
  }

  lemma TextDecodes(v: Value, rest: Bytes)
    requires Typed(Text, v)
    ensures Decodes(Text, v, rest)
  {
    var size := EncodeInt32(|v.s|);
    var s := Encode(Text, v) + rest;
    Int32RoundTrip(|v.s|);
    Splits(size, v.s + rest);
    Splits(v.s, rest);
    assert s == size + (v.s + rest);
    assert s[4..4 + |v.s|] == s[4..][..|v.s|] && s[4 + |v.s|..] == s[4..][|v.s|..];
  }

  lemma PairDecodes(t: Type, v: Value, rest: Bytes)
    requires t.Pair? && Typed(t, v) && Decodes(t.first, v.a, Encode(t.second, v.b') + rest) && Decodes(t.second, v.b', rest)
    ensures Decodes(t, v, rest)
  {
    Associates(Encode(t.first, v.a), Encode(t.second, v.b'), rest);
  }

  lemma TupleDecodes(t: Type, v: Value, rest: Bytes)
    requires t.Tuple? && Typed(t, v)
    requires Decodes(t.first, v.a, Encode(t.second, v.b') + (Encode(t.third, v.c) + rest))
    requires Decodes(t.second, v.b', Encode(t.third, v.c) + rest) && Decodes(t.third, v.c, rest)
    ensures Decodes(t, v, rest)
  {
    var a, b, c := Encode(t.first, v.a), Encode(t.second, v.b'), Encode(t.third, v.c);
    Associates(a + b, c, rest);
    Associates(a, b, c + rest);
  }

  lemma VariantDecodes(t: Type, v: Value, rest: Bytes)
    requires t.Variant? && Typed(t, v) && Decodes(t.types[v.index], v.v, rest)
    ensures Decodes(t, v, rest)
  {
    var index, body := EncodeNat32(v.index), Encode(t.types[v.index], v.v);
    LittleEndianRoundTrip(v.index);
    Associates(index, body, rest);
    Splits(index, body + rest);
  }

  lemma ListDecodes(t: Type, v: Value, rest: Bytes)
    requires t.List? && Typed(t, v)
    requires AllDecodes(t.element, v.vs, rest)
    ensures Decodes(t, v, rest)
  {
    var size, body := EncodeInt32(|v.vs|), EncodeAll(t.element, v.vs);
    Int32RoundTrip(|v.vs|);
    Associates(size, body, rest);
    Splits(size, body + rest);
  }

  lemma MapDecodes(t: Type, v: Value, rest: Bytes)
    requires t.Map? && Typed(t, v)
    requires EntriesDecodes(t, [], v.es, rest)
    ensures Decodes(t, v, rest)
  {
    assert [] + v.es == v.es;
    var size, body := EncodeInt32(|v.es|), EncodeEntries(t, v.es);
    Int32RoundTrip(|v.es|);
    Associates(size, body, rest);
    Splits(size, body + rest);
  }

  lemma {:induction false} PutNew(es: seq<(Value, Value)>, k: Value, v: Value)
    requires forall x <- es :: x.0 != k
    ensures Put(es, k, v) == es + [(k, v)]
  {
    if es != [] {
      PutNew(es[1..], k, v);
    }
  }

  lemma {:induction false} WidthOfAll(t: Type, vs: seq<Value>)
    requires !ZeroWidth(t) && forall x <- vs :: Typed(t, x)
    ensures |EncodeAll(t, vs)| >= |vs|
    decreases |vs|
  {
    if vs != [] {
      WidthIsZeroExactlyWhen(t, vs[0]);
      WidthOfAll(t, vs[1..]);
    }
  }

  lemma {:induction false} WidthOfEntries(t: Type, es: seq<(Value, Value)>)
    requires t.Map? && !(ZeroWidth(t.key) && ZeroWidth(t.mapped))
    requires forall x <- es :: Typed(t.key, x.0) && Typed(t.mapped, x.1)
    ensures |EncodeEntries(t, es)| >= |es|
    decreases |es|
  {
    if es != [] {
      WidthIsZeroExactlyWhen(t.key, es[0].0);
      WidthIsZeroExactlyWhen(t.mapped, es[0].1);
      WidthOfEntries(t, es[1..]);
    }
  }

  /** Unmarshalling what was written fails or gives the value back, and which of the two depends on how many bytes follow. */
  lemma {:induction false} DecodesExactlyWhen(t: Type, v: Value, rest: Bytes)
    requires Typed(t, v)
    ensures Decodes(t, v, rest)
    decreases t, 1
  {
    match t
    case Text => TextDecodes(v, rest);
    case Unit => assert [] + rest == rest;
    case Pair(f, s) =>
      DecodesExactlyWhen(f, v.a, Encode(s, v.b') + rest);
      DecodesExactlyWhen(s, v.b', rest);
      PairDecodes(t, v, rest);
    case Tuple(f, s, u) =>
      DecodesExactlyWhen(f, v.a, Encode(s, v.b') + (Encode(u, v.c) + rest));
      DecodesExactlyWhen(s, v.b', Encode(u, v.c) + rest);
      DecodesExactlyWhen(u, v.c, rest);
      TupleDecodes(t, v, rest);
    case List(e) =>
      AllDecode(e, v.vs, rest);
      ListDecodes(t, v, rest);
    case Map(k, m) =>
      assert [] + v.es == v.es;
      EntriesDecode(t, [], v.es, rest);
      MapDecodes(t, v, rest);
    case Variant(ts) =>
      DecodesExactlyWhen(ts[v.index], v.v, rest);
      VariantDecodes(t, v, rest);
    case _ => NumberDecodes(t, v, rest);
  }

  ghost predicate AllDecodes(t: Type, vs: seq<Value>, rest: Bytes)
    requires forall x <- vs :: Typed(t, x)
  {
    DecodeAll(t, |vs|, EncodeAll(t, vs) + rest) == if EnoughAll(t, vs, |rest|) then Some((vs, rest)) else None
  }

  lemma DecodeNext(t: Type, v: Value, n: nat, more: Bytes)
    requires Typed(t, v) && Decodes(t, v, more)
    ensures var r := DecodeAll(t, n, more);
            DecodeAll(t, n + 1, Encode(t, v) + more)
            == if Enough(t, v, |more|) && r.Some? then Some(([v] + r.value.0, r.value.1)) else None
  {
  }

  lemma AllDecodesNext(t: Type, vs: seq<Value>, rest: Bytes)
    requires vs != [] && forall x <- vs :: Typed(t, x)
    requires Decodes(t, vs[0], EncodeAll(t, vs[1..]) + rest) && AllDecodes(t, vs[1..], rest)
    ensures AllDecodes(t, vs, rest)
  {
    var more := EncodeAll(t, vs[1..]) + rest;
    assert [vs[0]] + vs[1..] == vs;
    EncodeAllParts(t, vs, rest);
    EnoughAllParts(t, vs, |rest|, |more|);
    DecodeNext(t, vs[0], |vs[1..]|, more);
  }

  lemma EncodeAllParts(t: Type, vs: seq<Value>, rest: Bytes)
    requires vs != [] && forall x <- vs :: Typed(t, x)
    ensures EncodeAll(t, vs) + rest == Encode(t, vs[0]) + (EncodeAll(t, vs[1..]) + rest)
  {
    Associates(Encode(t, vs[0]), EncodeAll(t, vs[1..]), rest);
  }

  lemma EnoughAllParts(t: Type, vs: seq<Value>, n: nat, more: nat)
    requires vs != [] && (forall x <- vs :: Typed(t, x)) && more == |EncodeAll(t, vs[1..])| + n
    ensures EnoughAll(t, vs, n) <==> Enough(t, vs[0], more) && EnoughAll(t, vs[1..], n)
  {
  }

  lemma {:induction false} AllDecode(t: Type, vs: seq<Value>, rest: Bytes)
    requires forall x <- vs :: Typed(t, x)
    ensures AllDecodes(t, vs, rest)
    decreases t, 2, |vs|
  {
    if vs == [] {
      assert EncodeAll(t, vs) + rest == rest;
    } else {
      DecodesExactlyWhen(t, vs[0], EncodeAll(t, vs[1..]) + rest);
      AllDecode(t, vs[1..], rest);
      AllDecodesNext(t, vs, rest);
    }
  }

  ghost predicate EntriesDecodes(t: Type, done: seq<(Value, Value)>, es: seq<(Value, Value)>, rest: Bytes)
    requires t.Map? && forall x <- es :: Typed(t.key, x.0) && Typed(t.mapped, x.1)
  {
    DecodeEntries(t, |es|, done, EncodeEntries(t, es) + rest)
    == if EnoughEntries(t, es, |rest|) then Some((done + es, rest)) else None
  }

  lemma DecodeNextEntry(t: Type, done: seq<(Value, Value)>, k: Value, v: Value, n: nat, more: Bytes)
    requires t.Map? && Typed(t.key, k) && Typed(t.mapped, v)
    requires Decodes(t.key, k, Encode(t.mapped, v) + more) && Decodes(t.mapped, v, more)
    ensures DecodeEntries(t, n + 1, done, Encode(t.key, k) + (Encode(t.mapped, v) + more))
            == if Enough(t.key, k, |Encode(t.mapped, v) + more|) && Enough(t.mapped, v, |more|)
               then DecodeEntries(t, n, Put(done, k, v), more) else None
  {
  }

  lemma EntriesDecodesNext(t: Type, done: seq<(Value, Value)>, es: seq<(Value, Value)>, rest: Bytes)
    requires t.Map? && es != [] && DistinctKeys(done + es) && forall x <- es :: Typed(t.key, x.0) && Typed(t.mapped, x.1)
    requires var more := EncodeEntries(t, es[1..]) + rest;
             Decodes(t.key, es[0].0, Encode(t.mapped, es[0].1) + more) && Decodes(t.mapped, es[0].1, more)
    requires EntriesDecodes(t, done + [es[0]], es[1..], rest)
    ensures EntriesDecodes(t, done, es, rest)
  {
    var (k, v) := es[0];
    var more := EncodeEntries(t, es[1..]) + rest;
    EncodeEntriesParts(t, es, rest);
    assert |Encode(t.mapped, v) + more| == |Encode(t.mapped, v)| + |more|;
    EnoughEntriesParts(t, es, |rest|, |more|);
    PutNext(done, es);
    DecodeNextEntry(t, done, k, v, |es[1..]|, more);
  }

  lemma EnoughEntriesParts(t: Type, es: seq<(Value, Value)>, n: nat, more: nat)
    requires t.Map? && es != [] && forall x <- es :: Typed(t.key, x.0) && Typed(t.mapped, x.1)
    requires more == |EncodeEntries(t, es[1..])| + n
    ensures EnoughEntries(t, es, n) <==>
            && Enough(t.key, es[0].0, |Encode(t.mapped, es[0].1)| + more)
            && Enough(t.mapped, es[0].1, more) && EnoughEntries(t, es[1..], n)
  {
  }

  lemma EncodeEntriesParts(t: Type, es: seq<(Value, Value)>, rest: Bytes)
    requires t.Map? && es != [] && forall x <- es :: Typed(t.key, x.0) && Typed(t.mapped, x.1)
    ensures EncodeEntries(t, es) + rest ==
            Encode(t.key, es[0].0) + (Encode(t.mapped, es[0].1) + (EncodeEntries(t, es[1..]) + rest))
  {
    var a, b, c := Encode(t.key, es[0].0), Encode(t.mapped, es[0].1), EncodeEntries(t, es[1..]);
    Associates(a + b, c, rest);
    Associates(a, b, c + rest);
  }

  lemma PutNext(done: seq<(Value, Value)>, es: seq<(Value, Value)>)
    requires DistinctKeys(done + es) && es != []
    ensures Put(done, es[0].0, es[0].1) == done + [es[0]] && done + [es[0]] + es[1..] == done + es
  {
    NewKey(done, es);
    PutNew(done, es[0].0, es[0].1);
  }

  lemma {:induction false} EntriesDecode(t: Type, done: seq<(Value, Value)>, es: seq<(Value, Value)>, rest: Bytes)
    requires t.Map? && DistinctKeys(done + es) && forall x <- es :: Typed(t.key, x.0) && Typed(t.mapped, x.1)
    ensures EntriesDecodes(t, done, es, rest)
    decreases t, 0, |es|
  {
    if es == [] {
      assert EncodeEntries(t, es) + rest == rest && done + es == done;
    } else {
      var more := EncodeEntries(t, es[1..]) + rest;
      DecodesExactlyWhen(t.key, es[0].0, Encode(t.mapped, es[0].1) + more);
      DecodesExactlyWhen(t.mapped, es[0].1, more);
      assert done + [es[0]] + es[1..] == done + es;
      EntriesDecode(t, done + [es[0]], es[1..], rest);
      EntriesDecodesNext(t, done, es, rest);
    }
  }

  lemma NewKey(done: seq<(Value, Value)>, es: seq<(Value, Value)>)
    requires DistinctKeys(done + es) && es != []
    ensures forall x <- done :: x.0 != es[0].0
  {
    forall x <- done ensures x.0 != es[0].0 {
      var i :| 0 <= i < |done| && done[i] == x;
      assert (done + es)[i] == x && (done + es)[|done|] == es[0];
    }
  }

  // ---- When there are enough bytes ----

  /** In a solid type there always are. */
  lemma {:induction false} SolidIsEnough(t: Type, v: Value, n: nat)
    requires Typed(t, v) && Solid(t)
    ensures Enough(t, v, n)
    decreases t, 1
  {
    match t
    case Pair(f, s) =>
      SolidIsEnough(f, v.a, |Encode(s, v.b')| + n);
      SolidIsEnough(s, v.b', n);
    case Tuple(f, s, u) =>
      SolidIsEnough(f, v.a, |Encode(s, v.b')| + |Encode(u, v.c)| + n);
      SolidIsEnough(s, v.b', |Encode(u, v.c)| + n);
      SolidIsEnough(u, v.c, n);
      TupleIsEnough(t, v, n);
    case List(e) =>
      SolidIsEnoughAll(e, v.vs, n);
      ListIsEnough(t, v, n);
    case Map(k, m) =>
      SolidIsEnoughEntries(t, v.es, n);
      MapIsEnough(t, v, n);
    case Variant(ts) => SolidIsEnough(ts[v.index], v.v, n);
    case _ =>
  }

  lemma TupleIsEnough(t: Type, v: Value, n: nat)
    requires t.Tuple? && Typed(t, v) && Enough(t.first, v.a, |Encode(t.second, v.b')| + |Encode(t.third, v.c)| + n)
    requires Enough(t.second, v.b', |Encode(t.third, v.c)| + n) && Enough(t.third, v.c, n)
    ensures Enough(t, v, n)
  {
  }

  lemma ListIsEnough(t: Type, v: Value, n: nat)
    requires t.List? && Typed(t, v) && !ZeroWidth(t.element) && EnoughAll(t.element, v.vs, n)
    ensures Enough(t, v, n)
  {
    WidthOfAll(t.element, v.vs);
  }

  lemma MapIsEnough(t: Type, v: Value, n: nat)
    requires t.Map? && Typed(t, v) && !(ZeroWidth(t.key) && ZeroWidth(t.mapped)) && EnoughEntries(t, v.es, n)
    ensures Enough(t, v, n)
  {
    WidthOfEntries(t, v.es);
  }

  lemma {:induction false} SolidIsEnoughAll(t: Type, vs: seq<Value>, n: nat)
    requires Solid(t) && forall x <- vs :: Typed(t, x)
    ensures EnoughAll(t, vs, n)
    decreases t, 2, |vs|
  {
    if vs != [] {
      SolidIsEnough(t, vs[0], |EncodeAll(t, vs[1..])| + n);
      SolidIsEnoughAll(t, vs[1..], n);
    }
  }

  lemma {:induction false} SolidIsEnoughEntries(t: Type, es: seq<(Value, Value)>, n: nat)
    requires t.Map? && Solid(t) && forall x <- es :: Typed(t.key, x.0) && Typed(t.mapped, x.1)
    ensures EnoughEntries(t, es, n)
    decreases t, 0, |es|
  {
    if es != [] {
      var more := |EncodeEntries(t, es[1..])| + n;
      SolidIsEnough(t.key, es[0].0, |Encode(t.mapped, es[0].1)| + more);
      SolidIsEnough(t.mapped, es[0].1, more);
      SolidIsEnoughEntries(t, es[1..], n);
    }
  }

  /** Unmarshalling gives back every value of a solid type and consumes what was written, whatever follows. */
  lemma RoundTrip(t: Type, v: Value, rest: Bytes)
    requires Typed(t, v) && Solid(t)
    ensures Returns(t, v, rest)
  {
    DecodesExactlyWhen(t, v, rest);
    SolidIsEnough(t, v, |rest|);
  }

  /** Elements without width: only what follows the list counts. */
  lemma {:induction false} ZeroWidthAll(t: Type, vs: seq<Value>)
    requires ZeroWidth(t) && forall x <- vs :: Typed(t, x)
    ensures EncodeAll(t, vs) == []
    decreases |vs|
  {
    if vs != [] {
      WidthIsZeroExactlyWhen(t, vs[0]);
      ZeroWidthAll(t, vs[1..]);
    }
  }

  lemma {:induction false} ZeroWidthIsSolid(t: Type)
    requires ZeroWidth(t)
    ensures Solid(t)
  {
    match t
    case Unit =>
    case Pair(f, s) => ZeroWidthIsSolid(f); ZeroWidthIsSolid(s);
    case Tuple(f, s, u) => ZeroWidthIsSolid(f); ZeroWidthIsSolid(s); ZeroWidthIsSolid(u);
  }

  lemma EmptyElementsReturnExactlyWhen(t: Type, v: Value, rest: Bytes)
    requires t.List? && ZeroWidth(t.element) && Typed(t, v)
    ensures Returns(t, v, rest) <==> |v.vs| <= |rest|
  {
    ZeroWidthAll(t.element, v.vs);
    ZeroWidthIsSolid(t.element);
    SolidIsEnoughAll(t.element, v.vs, |rest|);
    DecodesExactlyWhen(t, v, rest);
  }

  /** A solid type's encoding determines the value, also with other data behind it. */
  lemma EncodeIsInjective(t: Type, v: Value, w: Value, rest: Bytes, more: Bytes)
    requires Typed(t, v) && Typed(t, w) && Solid(t)
    ensures Encode(t, v) + rest == Encode(t, w) + more ==> v == w && rest == more
  {
    RoundTrip(t, v, rest);
    RoundTrip(t, w, more);
  }
}
