/**
 Blobs in a raw buffer: Blob writes itself at a cursor in a buffer, and lists of blobs travel in a parcel as one buffer.
 */
module BlobBuffer {

  import opened Collections
  import opened ByteCodes
  import opened MarshalSpec
  import opened Marshalling
  import opened Options

  const MAX_COUNT: nat := 100000
  const MAX_SIZE: nat := 1024 * 1024 * 1024
  const INT_SIZE: nat := 4

  // ---- What a buffer holds ----

  function RawSize(blob: Bytes): nat {
    INT_SIZE + |blob|
  }

  function Raw(blob: Bytes): (s: Bytes)
    ensures |s| == RawSize(blob)
  {
    EncodeInt32(|blob|) + blob
  }

  function WriteAll<T>(write: T -> Bytes, xs: seq<T>): Bytes {
    if xs == [] then [] else write(xs[0]) + WriteAll(write, xs[1..])
  }

  function RawAll(blobs: seq<Bytes>): Bytes {
    WriteAll(Raw, blobs)
  }

  function RawSizes(blobs: seq<Bytes>): (n: nat)
    ensures n == |RawAll(blobs)|
  {
    if blobs == [] then 0 else RawSize(blobs[0]) + RawSizes(blobs[1..])
  }

  function ReadBlob(s: Bytes): (r: Read<Bytes>)
    ensures r.Some? ==> |r.value.1| + RawSize(r.value.0) == |s|
  {
    if |s| < INT_SIZE then None
    else
      var n := DecodeInt32(s[..INT_SIZE]);
      if n < 0 || |s| - INT_SIZE - n < 0 then None else Some((s[INT_SIZE..INT_SIZE + n], s[INT_SIZE + n..]))
  }

  function ReadAll<T>(read: Bytes -> Read<T>, count: nat, s: Bytes): Read<seq<T>> {
    if count == 0 then Some(([], s))
    else
      var a := read(s);
      if a.None? then None
      else
        var r := ReadAll(read, count - 1, a.value.1);
        if r.None? then None else Some(([a.value.0] + r.value.0, r.value.1))
  }

  function ReadBlobs(count: nat, s: Bytes): Read<seq<Bytes>> {
    ReadAll(ReadBlob, count, s)
  }

  lemma ReadBlobRaw(blob: Bytes, rest: Bytes)
    requires |blob| <= INT_MAX
    ensures ReadBlob(Raw(blob) + rest) == Some((blob, rest))
  {
    var size, s := EncodeInt32(|blob|), Raw(blob) + rest;
    Int32RoundTrip(|blob|);
    assert s == size + (blob + rest);
    Splits(size, blob + rest);
    Splits(blob, rest);
    assert s[4..4 + |blob|] == s[4..][..|blob|] && s[4 + |blob|..] == s[4..][|blob|..];
  }

  lemma ReadNext<T>(read: Bytes -> Read<T>, a: Bytes, x: T, xs: seq<T>, b: Bytes, rest: Bytes)
    requires read(a + (b + rest)) == Some((x, b + rest)) && ReadAll(read, |xs|, b + rest) == Some((xs, rest))
    ensures ReadAll(read, |xs| + 1, a + b + rest) == Some(([x] + xs, rest))
  {
    Associates(a, b, rest);
  }

  /** What holds of one item holds of a list of them. */
  lemma {:induction false} ReadAllWritten<T>(write: T -> Bytes, read: Bytes -> Read<T>, xs: seq<T>, rest: Bytes)
    requires forall x, more | x in xs :: read(write(x) + more) == Some((x, more))
    ensures ReadAll(read, |xs|, WriteAll(write, xs) + rest) == Some((xs, rest))
  {
    if xs == [] {
      assert WriteAll(write, xs) + rest == rest;
    } else {
      ReadAllWritten(write, read, xs[1..], rest);
      ReadNext(read, write(xs[0]), xs[0], xs[1..], WriteAll(write, xs[1..]), rest);
      assert [xs[0]] + xs[1..] == xs;
    }
  }

  lemma ReadBlobsRaw(blobs: seq<Bytes>, rest: Bytes)
    requires forall b <- blobs :: |b| <= INT_MAX
    ensures ReadBlobs(|blobs|, RawAll(blobs) + rest) == Some((blobs, rest))
  {
    forall x, more | x in blobs ensures ReadBlob(Raw(x) + more) == Some((x, more)) {
      ReadBlobRaw(x, more);
    }
    ReadAllWritten(Raw, ReadBlob, blobs, rest);
  }

  // ---- Blob at a cursor ----

  /** Writes a blob at the cursor of a buffer; the rest of the buffer keeps its bytes. */
  method WriteToBuffer(blob: Bytes, buffer: array<byte>, cursor: nat, left: nat) returns (ok: bool, next: nat, remaining: nat)
    requires cursor + left == buffer.Length && RawSize(blob) <= INT_MAX
    modifies buffer
    ensures ok <==> RawSize(blob) <= left
    ensures ok ==> next == cursor + RawSize(blob) && next + remaining == buffer.Length
    ensures ok ==> buffer[cursor..next] == Raw(blob)
    ensures buffer[..cursor] == old(buffer[..cursor])
    ensures ok ==> buffer[next..] == old(buffer[next..])
  {
    if left < |blob| + INT_SIZE {
      return false, cursor, left;
    }
    var size := EncodeInt32(|blob|);
    ghost var raw := Raw(blob);
    for i := 0 to INT_SIZE
      invariant buffer[cursor..cursor + i] == raw[..i]
      invariant buffer[..cursor] == old(buffer[..cursor]) && buffer[cursor + i..] == old(buffer[cursor + i..])
    {
      buffer[cursor + i] := size[i];
    }
    for i := 0 to |blob|
      invariant buffer[cursor..cursor + INT_SIZE + i] == raw[..INT_SIZE + i]
      invariant buffer[..cursor] == old(buffer[..cursor])
      invariant buffer[cursor + INT_SIZE + i..] == old(buffer[cursor + INT_SIZE + i..])
    {
      buffer[cursor + INT_SIZE + i] := blob[i];
    }
    ok, next, remaining := true, cursor + INT_SIZE + |blob|, left - INT_SIZE - |blob|;
  }

  /** Reads a blob at the cursor of a buffer of which `left` bytes are left. */
  method ReadFromBuffer(buffer: Bytes, cursor: nat, left: nat) returns (ok: bool, blob: Bytes, next: nat, remaining: int)
    requires cursor + left == |buffer|
    ensures ok <==> ReadBlob(buffer[cursor..]).Some?
    ensures ok ==> next + remaining == |buffer| && 0 <= remaining
    ensures ok ==> ReadBlob(buffer[cursor..]) == Some((blob, buffer[next..]))
  {
    if left < INT_SIZE {
      return false, [], cursor, left;
    }
    ghost var s := buffer[cursor..];
    var blobSize := DecodeInt32(buffer[cursor..cursor + INT_SIZE]);
    assert buffer[cursor..cursor + INT_SIZE] == s[..INT_SIZE];
    remaining := left - INT_SIZE - blobSize;
    if blobSize < 0 || remaining < 0 {
      return false, [], cursor, remaining;
    }
    var begin := cursor + INT_SIZE;
    blob := buffer[begin..begin + blobSize];
    next := begin + blobSize;
    assert blob == s[INT_SIZE..INT_SIZE + blobSize] && buffer[next..] == s[INT_SIZE + blobSize..];
    ok := true;
  }

  // ---- A list of blobs in a parcel ----

  /** What a list of blobs becomes when its caller announces a size. */
  function Image(blobs: seq<Bytes>, size: int): Option<Bytes> {
    if size < 0 || size > MAX_SIZE || |blobs| > MAX_COUNT then None
    else if size == 0 then Some(EncodeInt32(size))
    else if RawSizes(blobs) > size then None
    else Some(Framed(|blobs|, RawAll(blobs) + Zeros(size - RawSizes(blobs))))
  }

  /** The size of a buffer, the number of blobs in it, and the buffer. */
  function Framed(count: nat, buffer: Bytes): Bytes {
    EncodeInt32(|buffer|) + (EncodeInt32(count) + buffer)
  }

  function ReadImage(s: Bytes): Read<seq<Bytes>> {
    var (size, s1) := ReadInt32OrZero(s);
    if size == 0 then Some(([], s1))
    else if size < 0 || size > MAX_SIZE then None
    else ReadCounted(size, s1)
  }

  function ReadCounted(size: nat, s: Bytes): Read<seq<Bytes>> {
    var (count, rest) := ReadInt32OrZero(s);
    if count < 0 || count > MAX_COUNT || |rest| < size then None
    else
      var r := ReadBlobs(count, rest[..size]);
      if r.None? then None else Some((r.value.0, rest[size..]))
  }

  lemma ReadNumber(n: int, rest: Bytes)
    requires -INT_MAX - 1 <= n <= INT_MAX
    ensures ReadInt32OrZero(EncodeInt32(n) + rest) == (n, rest)
  {
    Int32RoundTrip(n);
    Splits(EncodeInt32(n), rest);
  }

  lemma ReadCountedOf(b: Bytes, blobs: seq<Bytes>, buffer: Bytes, left: Bytes, rest: Bytes)
    requires |blobs| <= MAX_COUNT && ReadBlobs(|blobs|, buffer) == Some((blobs, left))
    requires ReadInt32OrZero(b + (buffer + rest)) == (|blobs|, buffer + rest)
    ensures ReadCounted(|buffer|, b + (buffer + rest)) == Some((blobs, rest))
  {
    Splits(buffer, rest);
  }

  lemma ReadImageOf(a: Bytes, b: Bytes, blobs: seq<Bytes>, buffer: Bytes, left: Bytes, rest: Bytes)
    requires |blobs| <= MAX_COUNT && ReadBlobs(|blobs|, buffer) == Some((blobs, left)) && 0 < |buffer| <= MAX_SIZE
    requires ReadInt32OrZero(b + (buffer + rest)) == (|blobs|, buffer + rest)
    requires ReadInt32OrZero(a + (b + (buffer + rest))) == (|buffer|, b + (buffer + rest))
    ensures ReadImage(a + (b + buffer) + rest) == Some((blobs, rest))
  {
    ReadCountedOf(b, blobs, buffer, left, rest);
    Associates(a, b + buffer, rest);
    Associates(b, buffer, rest);
  }

  lemma ReadBuffer(blobs: seq<Bytes>, buffer: Bytes, left: Bytes, rest: Bytes)
    requires |blobs| <= MAX_COUNT && ReadBlobs(|blobs|, buffer) == Some((blobs, left)) && 0 < |buffer| <= MAX_SIZE
    ensures ReadImage(Framed(|blobs|, buffer) + rest) == Some((blobs, rest))
  {
    var a, b := EncodeInt32(|buffer|), EncodeInt32(|blobs|);
    ReadNumber(|blobs|, buffer + rest);
    ReadNumber(|buffer|, b + (buffer + rest));
    ReadImageOf(a, b, blobs, buffer, left, rest);
  }

  lemma ImageOfBlobs(blobs: seq<Bytes>, size: int, rest: Bytes)
    requires 0 < size <= MAX_SIZE && |blobs| <= MAX_COUNT && RawSizes(blobs) <= size
    requires forall b <- blobs :: |b| <= INT_MAX
    ensures Image(blobs, size).Some? && ReadImage(Image(blobs, size).value + rest) == Some((blobs, rest))
  {
    var zeros := Zeros(size - RawSizes(blobs));
    ReadBlobsRaw(blobs, zeros);
    ReadBuffer(blobs, RawAll(blobs) + zeros, zeros, rest);
  }

  /** A list of blobs arrives exactly when the announced size has room for it. */
  lemma BlobsArriveExactlyWhen(blobs: seq<Bytes>, size: int, rest: Bytes)
    requires 0 <= size <= MAX_SIZE && |blobs| <= MAX_COUNT && forall b <- blobs :: |b| <= INT_MAX
    ensures Image(blobs, size).Some? && ReadImage(Image(blobs, size).value + rest) == Some((blobs, rest))
            <==> RawSizes(blobs) <= size
  {
    if size == 0 {
      ReadNumber(0, rest);
      assert RawSizes(blobs) <= size <==> blobs == [];
    } else if RawSizes(blobs) <= size {
      ImageOfBlobs(blobs, size, rest);
    }
  }

  /** A size of zero is accepted for any list, and the list is lost. */
  lemma ZeroSizeLosesBlobs(blobs: seq<Bytes>, rest: Bytes)
    requires |blobs| <= MAX_COUNT
    ensures Image(blobs, 0).Some? && ReadImage(Image(blobs, 0).value + rest) == Some(([], rest))
  {
    ReadNumber(0, rest);
  }

  lemma {:induction false} WriteAllAppend<T>(write: T -> Bytes, a: seq<T>, b: seq<T>)
    ensures WriteAll(write, a + b) == WriteAll(write, a) + WriteAll(write, b)
  {
    if a == [] {
      assert a + b == b;
    } else {
      WriteAllAppend(write, a[1..], b);
      assert (a + b)[0] == a[0] && (a + b)[1..] == a[1..] + b;
      Associates(write(a[0]), WriteAll(write, a[1..]), WriteAll(write, b));
    }
  }

  lemma RawAllAt(blobs: seq<Bytes>, i: nat)
    requires i < |blobs|
    ensures RawAll(blobs[..i + 1]) == RawAll(blobs[..i]) + Raw(blobs[i])
    ensures |RawAll(blobs[..i + 1])| <= |RawAll(blobs)|
  {
    assert blobs[..i + 1] == blobs[..i] + [blobs[i]];
    WriteAllAppend(Raw, blobs[..i], [blobs[i]]);
    var one := [blobs[i]];
    assert |one[1..]| == 0 && WriteAll(Raw, one) == Raw(blobs[i]) + WriteAll(Raw, one[1..]);
    assert blobs == blobs[..i + 1] + blobs[i + 1..];
    WriteAllAppend(Raw, blobs[..i + 1], blobs[i + 1..]);
  }

  /** The loop of MarshalToBuffer: the blobs one after the other, and zeros where none are. */
  method FillBuffer(blobs: seq<Bytes>, buffer: array<byte>) returns (ok: bool)
    requires buffer[..] == Zeros(buffer.Length) && forall b <- blobs :: RawSize(b) <= INT_MAX
    modifies buffer
    ensures ok <==> RawSizes(blobs) <= buffer.Length
    ensures ok ==> buffer[..] == RawAll(blobs) + Zeros(buffer.Length - RawSizes(blobs))
  {
    var cursor, left := 0, buffer.Length;
    for i := 0 to |blobs|
      invariant 0 <= left && cursor + left == buffer.Length && cursor == |RawAll(blobs[..i])|
      invariant buffer[..cursor] == RawAll(blobs[..i]) && buffer[cursor..] == Zeros(left)
    {
      RawAllAt(blobs, i);
      ghost var was := buffer[..];
      var wrote, next, remaining := WriteToBuffer(blobs[i], buffer, cursor, left);
      if !wrote {
        return false;
      }
      assert buffer[..next] == buffer[..cursor] + buffer[cursor..next];
      assert buffer[next..] == was[next..] == was[cursor..][next - cursor..];
      cursor, left := next, remaining;
    }
    assert blobs[..|blobs|] == blobs;
    assert buffer[..] == buffer[..cursor] + buffer[cursor..];
    ok := true;
  }

  method MarshalToBuffer(parcel: Parcel, blobs: seq<Bytes>, size: int) returns (ok: bool)
    requires forall b <- blobs :: RawSize(b) <= INT_MAX
    modifies parcel`data
    ensures ok <==> Image(blobs, size).Some?
    ensures ok ==> parcel.data == old(parcel.data) + Image(blobs, size).value
  {
    if size < 0 || size > MAX_SIZE || |blobs| > MAX_COUNT {
      return false;
    }
    parcel.Write(EncodeInt32(size));
    if size == 0 {
      return true;
    }
    parcel.Write(EncodeInt32(|blobs|));
    var buffer := new byte[size](i => 0);
    assert buffer[..] == Zeros(size);
    ok := FillBuffer(blobs, buffer);
    if !ok {
      return;
    }
    FramedData(old(parcel.data), |blobs|, buffer[..]);
    parcel.Write(buffer[..]);
  }

  lemma FramedData(data: Bytes, count: nat, buffer: Bytes)
    ensures data + EncodeInt32(|buffer|) + EncodeInt32(count) + buffer == data + Framed(count, buffer)
  {
    var a, b := EncodeInt32(|buffer|), EncodeInt32(count);
    Associates(data + a, b, buffer);
    Associates(data, a, b + buffer);
  }

  /** The loop of UnmarshalFromBuffer. */
  method ReadBuffered(buffer: Bytes, count: nat) returns (ok: bool, output: seq<Bytes>)
    ensures match ReadBlobs(count, buffer)
            case None => !ok && output == []
            case Some((blobs, _)) => ok && output == blobs
  {
    output := [];
    var cursor, left := 0, |buffer|;
    assert buffer[0..] == buffer;
    ghost var all := ReadBlobs(count, buffer);
    ExtendNothing(all);
    for i := 0 to count
      invariant 0 <= left && cursor + left == |buffer|
      invariant all == Extend(output, ReadBlobs(count - i, buffer[cursor..]))
    {
      var read, blob, next, remaining := ReadFromBuffer(buffer, cursor, left);
      if !read {
        return false, [];
      }
      ExtendNext(output, blob, ReadBlobs(count - i - 1, buffer[next..]));
      output := output + [blob];
      cursor, left := next, remaining;
    }
    ok := true;
  }

  /** An empty list stands for a size of zero, as in a fresh output. */
  method UnmarshalFromBuffer(parcel: Parcel) returns (ok: bool, output: seq<Bytes>)
    requires parcel.Valid()
    modifies parcel`cursor
    ensures parcel.Valid()
    ensures match ReadImage(old(parcel.Unread()))
            case None => !ok && output == []
            case Some((blobs, rest)) => ok && output == blobs && parcel.Unread() == rest
  {
    output := [];
    var size, count;
    ok, size := parcel.ReadInt32(false);
    if size == 0 {
      return true, [];
    }
    if size < 0 || size > MAX_SIZE {
      return false, [];
    }
    ok, count := parcel.ReadInt32(false);
    var n := parcel.GetReadableBytes();
    if count < 0 || count > MAX_COUNT || n < size {
      return false, [];
    }
    ghost var rest := parcel.Unread();
    var buffer := parcel.data[parcel.cursor..parcel.cursor + size];
    assert buffer == rest[..size] && parcel.data[parcel.cursor + size..] == rest[size..];
    parcel.cursor := parcel.cursor + size;
    ok, output := ReadBuffered(buffer, count);
  }
}
