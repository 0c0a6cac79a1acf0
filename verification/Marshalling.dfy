/**
 ITypesUtil over a parcel: writing appends to the parcel's bytes, reading moves its cursor.
 */
module Marshalling {

  import opened Collections
  import opened ByteCodes
  import opened MarshalSpec
  import opened Options

  /** What a loop that has read `vs` makes of what it still reads. */
  function Extend<T>(vs: seq<T>, r: Read<seq<T>>): Read<seq<T>> {
    if r.None? then None else Some((vs + r.value.0, r.value.1))
  }

  lemma ExtendNothing<T>(r: Read<seq<T>>)
    ensures Extend([], r) == r
  {
    if r.Some? { assert [] + r.value.0 == r.value.0; }
  }

  lemma ExtendNext<T>(vs: seq<T>, v: T, r: Read<seq<T>>)
    ensures Extend(vs, Extend([v], r)) == Extend(vs + [v], r)
  {
    if r.Some? { assert vs + ([v] + r.value.0) == vs + [v] + r.value.0; }
  }

  lemma {:induction false} EncodeAllPush(t: Type, vs: seq<Value>, v: Value)
    requires forall x <- vs + [v] :: Typed(t, x)
    ensures (forall x <- vs :: Typed(t, x)) && Typed(t, v)
    ensures EncodeAll(t, vs + [v]) == EncodeAll(t, vs) + Encode(t, v)
    decreases |vs|
  {
    assert v in vs + [v];
    assert forall x <- vs :: x in vs + [v];
    if vs == [] {
      assert vs + [v] == [v] && [v][1..] == [];
      assert EncodeAll(t, [v]) == Encode(t, v) + [];
    } else {
      assert (vs + [v])[1..] == vs[1..] + [v] && (vs + [v])[0] == vs[0];
      EncodeAllPush(t, vs[1..], v);
      Associates(Encode(t, vs[0]), EncodeAll(t, vs[1..]), Encode(t, v));
    }
  }

  predicate TypedEntries(t: Type, es: seq<(Value, Value)>) {
    t.Map? && forall x <- es :: Typed(t.key, x.0) && Typed(t.mapped, x.1)
  }

  lemma {:induction false} EncodeEntriesPush(t: Type, es: seq<(Value, Value)>, e: (Value, Value))
    requires TypedEntries(t, es + [e])
    ensures TypedEntries(t, es) && Typed(t.key, e.0) && Typed(t.mapped, e.1)
    ensures EncodeEntries(t, es + [e]) == EncodeEntries(t, es) + Encode(t.key, e.0) + Encode(t.mapped, e.1)
    decreases |es|
  {
    assert e in es + [e];
    assert forall x <- es :: x in es + [e];
    var a, b := Encode(t.key, e.0), Encode(t.mapped, e.1);
    if es == [] {
      assert es + [e] == [e] && [e][1..] == [];
      assert EncodeEntries(t, [e]) == a + b + [];
    } else {
      assert (es + [e])[1..] == es[1..] + [e] && (es + [e])[0] == es[0];
      EncodeEntriesPush(t, es[1..], e);
      var c, d := Encode(t.key, es[0].0) + Encode(t.mapped, es[0].1), EncodeEntries(t, es[1..]);
      Associates(c, d + a, b);
      Associates(c, d, a);
    }
  }

  class Parcel {
    var data: Bytes
    var cursor: nat

    ghost predicate Valid()
      reads this
    {
      cursor <= |data|
    }

    ghost function Unread(): Bytes
      requires Valid()
      reads this
    {
      data[cursor..]
    }

    constructor ()
      ensures Valid() && data == [] && cursor == 0
    {
      data, cursor := [], 0;
    }

    method GetReadableBytes() returns (n: nat)
      requires Valid()
      ensures n == |Unread()|
    {
      n := |data| - cursor;
    }

    // ---- Writing ----

    method Write(bytes: Bytes)
      modifies this`data
      ensures data == old(data) + bytes
    {
      data := data + bytes;
    }

    method Marshal(t: Type, v: Value) returns (ok: bool)
      requires Typed(t, v)
      modifies this`data
      ensures ok && data == old(data) + Encode(t, v)
      decreases t, 1
    {
      match t
      case Unit => ok := true;
      case Pair(_, _) => ok := MarshalPair(t, v);
      case Tuple(_, _, _) => ok := MarshalTuple(t, v);
      case List(_) => ok := MarshalToContainer(t, v.vs);
      case Map(_, _) => ok := MarshalMap(t, v.es);
      case Variant(_) => ok := MarshalVariant(t, v);
      case _ => ok := WritePlain(t, v);
    }

    /** The numbers, which have a fixed width, and text. */
    method WritePlain(t: Type, v: Value) returns (ok: bool)
      requires Typed(t, v) && (t.Int32? || t.Uint32? || t.Int64? || t.Bool? || t.Text?)
      modifies this`data
      ensures ok && data == old(data) + Encode(t, v)
    {
      ok := true;
      match t
      case Int32 => Write(EncodeInt32(v.n));
      case Uint32 => Write(EncodeNat32(v.n));
      case Int64 => Write(EncodeInt64(v.n));
      case Bool => Write(EncodeInt32(if v.b then 1 else 0));
      case Text => Write(EncodeInt32(|v.s|) + v.s);
    }

    method MarshalPair(t: Type, v: Value) returns (ok: bool)
      requires t.Pair? && Typed(t, v)
      modifies this`data
      ensures ok && data == old(data) + Encode(t, v)
      decreases t, 0
    {
      Associates(data, Encode(t.first, v.a), Encode(t.second, v.b'));
      ok := Marshal(t.first, v.a);
      if !ok { return; }
      ok := Marshal(t.second, v.b');
    }

    method MarshalTuple(t: Type, v: Value) returns (ok: bool)
      requires t.Tuple? && Typed(t, v)
      modifies this`data
      ensures ok && data == old(data) + Encode(t, v)
      decreases t, 0
    {
      ghost var a, b, c := Encode(t.first, v.a), Encode(t.second, v.b'), Encode(t.third, v.c);
      Associates(data, a + b, c);
      Associates(data, a, b);
      ok := Marshal(t.first, v.a);
      if !ok { return; }
      ok := Marshal(t.second, v.b');
      if !ok { return; }
      ok := Marshal(t.third, v.c);
    }

    method MarshalToContainer(t: Type, vs: seq<Value>) returns (ok: bool)
      requires t.List? && Typed(t, ListOf(vs))
      modifies this`data
      ensures ok && data == old(data) + Encode(t, ListOf(vs))
      decreases t, 0, 1
    {
      Associates(data, EncodeInt32(|vs|), EncodeAll(t.element, vs));
      Write(EncodeInt32(|vs|));
      ok := MarshalAll(t.element, vs);
    }

    /** The loop of MarshalToContainer. */
    method MarshalAll(t: Type, vs: seq<Value>) returns (ok: bool)
      requires forall x <- vs :: Typed(t, x)
      modifies this`data
      ensures ok && data == old(data) + EncodeAll(t, vs)
      decreases t, 2
    {
      for i := 0 to |vs|
        invariant data == old(data) + EncodeAll(t, vs[..i])
      {
        assert vs[..i + 1] == vs[..i] + [vs[i]];
        EncodeAllPush(t, vs[..i], vs[i]);
        Associates(old(data), EncodeAll(t, vs[..i]), Encode(t, vs[i]));
        ok := Marshal(t, vs[i]);
        if !ok { return; }
      }
      assert vs[..|vs|] == vs;
      ok := true;
    }

    method MarshalMap(t: Type, es: seq<(Value, Value)>) returns (ok: bool)
      requires t.Map? && Typed(t, MapOf(es))
      modifies this`data
      ensures ok && data == old(data) + Encode(t, MapOf(es))
      decreases t, 0, 2
    {
      Associates(data, EncodeInt32(|es|), EncodeEntries(t, es));
      Write(EncodeInt32(|es|));
      ok := MarshalEntries(t, es);
    }

    /** The loop of the marshalling of a map. */
    method MarshalEntries(t: Type, es: seq<(Value, Value)>) returns (ok: bool)
      requires TypedEntries(t, es)
      modifies this`data
      ensures ok && data == old(data) + EncodeEntries(t, es)
      decreases t, 0, 1
    {
      for i := 0 to |es|
        invariant data == old(data) + EncodeEntries(t, es[..i])
      {
        assert es[..i + 1] == es[..i] + [es[i]];
        EncodeEntriesPush(t, es[..i], es[i]);
        Associates(old(data), EncodeEntries(t, es[..i]), Encode(t.key, es[i].0));
        Associates(old(data), EncodeEntries(t, es[..i]) + Encode(t.key, es[i].0), Encode(t.mapped, es[i].1));
        ok := Marshal(t.key, es[i].0);
        if !ok { return; }
        ok := Marshal(t.mapped, es[i].1);
        if !ok { return; }
      }
      assert es[..|es|] == es;
      ok := true;
    }

    method MarshalVariant(t: Type, v: Value) returns (ok: bool)
      requires t.Variant? && Typed(t, v)
      modifies this`data
      ensures ok && data == old(data) + Encode(t, v)
      decreases t, 0, v.index + 1
    {
      Associates(data, EncodeNat32(v.index), Encode(t.types[v.index], v.v));
      Write(EncodeNat32(v.index));
      ok := WriteVariant(t, 0, v);
    }

    /** The alternatives are tried one after the other. */
    method WriteVariant(t: Type, step: nat, v: Value) returns (ok: bool)
      requires t.Variant? && Typed(t, v) && step <= v.index
      modifies this`data
      ensures ok && data == old(data) + Encode(t.types[v.index], v.v)
      decreases t, 0, v.index - step
    {
      if step == v.index {
        ok := Marshal(t.types[step], v.v);
        return;
      }
      ok := WriteVariant(t, step + 1, v);
    }

    // ---- Reading ----

    method ReadInt32(checked: bool) returns (ok: bool, n: int)
      requires Valid()
      modifies this`cursor
      ensures Valid()
      ensures checked ==> ok == MarshalSpec.ReadInt32(old(Unread())).Some?
      ensures !checked ==> ok
      ensures (n, Unread()) == ReadInt32OrZero(old(Unread()))
    {
      if |data| - cursor < 4 {
        return !checked, 0;
      }
      ok, n := true, DecodeInt32(data[cursor..cursor + 4]);
      assert data[cursor..][..4] == data[cursor..cursor + 4] && data[cursor..][4..] == data[cursor + 4..];
      cursor := cursor + 4;
    }

    /** Whether reading gave what the bytes stand for. */
    ghost predicate Gives(r: Read<Value>, ok: bool, v: Value)
      requires Valid()
      reads this
    {
      match r
      case None => !ok
      case Some((w, rest)) => ok && v == w && Unread() == rest
    }

    /** The numbers, which have a fixed width, and text. */
    method ReadPlain(t: Type) returns (ok: bool, v: Value)
      requires Valid() && (t.Int32? || t.Uint32? || t.Int64? || t.Bool? || t.Text?)
      modifies this`cursor
      ensures Valid() && Gives(Decode(t, old(Unread())), ok, v)
    {
      v := Nothing;
      var width := if t.Int64? then 8 else 4;
      if |data| - cursor < width {
        return false, v;
      }
      ghost var s := Unread();
      var bytes := data[cursor..cursor + width];
      assert bytes == s[..width] && data[cursor + width..] == s[width..];
      cursor := cursor + width;
      ok := true;
      match t
      case Int32 => v := Number(DecodeInt32(bytes));
      case Uint32 => v := Number(FromLittleEndian(bytes));
      case Int64 => v := Number(DecodeInt64(bytes));
      case Bool => v := Truth(DecodeInt32(bytes) != 0);
      case Text =>
        var n := DecodeInt32(bytes);
        if n < 0 || n > |data| - cursor {
          return false, v;
        }
        v := Chars(data[cursor..cursor + n]);
        assert data[cursor..cursor + n] == s[4..4 + n] && data[cursor + n..] == s[4 + n..];
        cursor := cursor + n;
    }

    method Unmarshal(t: Type) returns (ok: bool, v: Value)
      requires Valid()
      modifies this`cursor
      ensures Valid() && Gives(Decode(t, old(Unread())), ok, v)
      decreases t, 1
    {
      v := Nothing;
      match t
      case Unit => ok := true;
      case Pair(_, _) => ok, v := UnmarshalPair(t);
      case Tuple(_, _, _) => ok, v := UnmarshalTuple(t);
      case List(_) => ok, v := UnmarshalFromContainer(t);
      case Map(_, _) => ok, v := UnmarshalMap(t);
      case Variant(_) => ok, v := UnmarshalVariant(t);
      case _ => ok, v := ReadPlain(t);
    }

    method UnmarshalPair(t: Type) returns (ok: bool, v: Value)
      requires Valid() && t.Pair?
      modifies this`cursor
      ensures Valid() && Gives(Decode(t, old(Unread())), ok, v)
      decreases t, 0
    {
      v := Nothing;
      var first, second;
      ok, first := Unmarshal(t.first);
      if !ok { return; }
      ok, second := Unmarshal(t.second);
      if !ok { return; }
      v := PairOf(first, second);
    }

    method UnmarshalTuple(t: Type) returns (ok: bool, v: Value)
      requires Valid() && t.Tuple?
      modifies this`cursor
      ensures Valid() && Gives(Decode(t, old(Unread())), ok, v)
      decreases t, 0
    {
      v := Nothing;
      var first, second, third;
      ok, first := Unmarshal(t.first);
      if !ok { return; }
      ok, second := Unmarshal(t.second);
      if !ok { return; }
      ok, third := Unmarshal(t.third);
      if !ok { return; }
      v := TupleOf(first, second, third);
    }

    method UnmarshalFromContainer(t: Type) returns (ok: bool, v: Value)
      requires Valid() && t.List?
      modifies this`cursor
      ensures Valid() && Gives(Decode(t, old(Unread())), ok, v)
      decreases t, 0
    {
      v := Nothing;
      var len, size;
      ok, len := ReadInt32(false);
      size := GetReadableBytes();
      if len < 0 || len > size {
        return false, v;
      }
      ghost var all := DecodeAll(t.element, len, Unread());
      var val := [];
      ExtendNothing(all);
      for i := 0 to len
        invariant Valid() && all == Extend(val, DecodeAll(t.element, len - i, Unread()))
      {
        ghost var s := Unread();
        var value;
        ok, value := Unmarshal(t.element);
        if !ok { return false, v; }
        ExtendNext(val, value, DecodeAll(t.element, len - i - 1, Unread()));
        val := val + [value];
      }
      ok, v := true, ListOf(val);
    }

    method UnmarshalMap(t: Type) returns (ok: bool, v: Value)
      requires Valid() && t.Map?
      modifies this`cursor
      ensures Valid() && Gives(Decode(t, old(Unread())), ok, v)
      decreases t, 0
    {
      v := Nothing;
      var len, size;
      ok, len := ReadInt32(true);
      if !ok { return; }
      size := GetReadableBytes();
      if len < 0 || len > size {
        return false, v;
      }
      ghost var all := DecodeEntries(t, len, [], Unread());
      var val := [];
      for i := 0 to len
        invariant Valid() && all == DecodeEntries(t, len - i, val, Unread())
      {
        var key, mapped;
        ok, key := Unmarshal(t.key);
        if !ok { return; }
        ok, mapped := Unmarshal(t.mapped);
        if !ok { return; }
        val := Put(val, key, mapped);
      }
      ok, v := true, MapOf(val);
    }

    method UnmarshalVariant(t: Type) returns (ok: bool, v: Value)
      requires Valid() && t.Variant?
      modifies this`cursor
      ensures Valid() && Gives(Decode(t, old(Unread())), ok, v)
      decreases t, 0
    {
      v := Nothing;
      ghost var s := Unread();
      var index := 0;
      if |data| - cursor >= 4 {
        index := FromLittleEndian(data[cursor..cursor + 4]);
        assert data[cursor..cursor + 4] == s[..4] && data[cursor + 4..] == s[4..];
        cursor := cursor + 4;
      }
      if index >= |t.types| {
        return false, v;
      }
      ok, v := ReadVariant(t, 0, index);
    }

    method ReadVariant(t: Type, step: nat, index: nat) returns (ok: bool, v: Value)
      requires Valid() && t.Variant? && step <= index < |t.types|
      modifies this`cursor
      ensures Valid()
      ensures var r := Decode(t.types[index], old(Unread()));
              Gives(if r.None? then None else Some((Choice(index, r.value.0), r.value.1)), ok, v)
      decreases t, 0, index - step
    {
      if step == index {
        ok, v := Unmarshal(t.types[step]);
        v := Choice(index, v);
        return;
      }
      ok, v := ReadVariant(t, step + 1, index);
    }

    /** A value that is written behind what is in the parcel is read back, and nothing more. */
    method WriteThenRead(t: Type, v: Value) returns (ok: bool, w: Value)
      requires Valid() && cursor == |data| && Typed(t, v) && Solid(t)
      modifies this
      ensures Valid() && ok && w == v && cursor == |data|
    {
      ok := Marshal(t, v);
      assert Unread() == Encode(t, v) + [];
      RoundTrip(t, v, []);
      ok, w := Unmarshal(t);
    }
  }
}
