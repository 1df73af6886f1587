// comms-lib: sizes, serialization and deserialization of values, as loops over buffers.
module BinarySerializer {
  import opened Wrappers
  import opened BinaryTypes
  import opened BinaryFormat
  import opened Buffers

  // The size of a value is the number of bytes it is written as.
  method SizeOf(ty: Type, v: Val) returns (size: nat)
    requires HasShape(ty, v)
    ensures size == |Encode(ty, v)|
    decreases ty, 0
  {
    match ty
    case Scalar(width, _) => return width;
    case Text => return SIZE_T.width + |v.chars|;
    case Array(elem, _) => size := SizeOfArray(elem, v.elems);
    case Vector(elem) => size := SizeOfDynamicArray(elem, v.elems);
    case Map(key, value) => size := SizeOfMap(key, value, v.entries);
  }

  method SizeOfArray(ty: Type, data: seq<Val>) returns (size: nat)
    requires forall v :: v in data ==> HasShape(ty, v)
    ensures size == |EncodeAll(ty, data)|
    decreases ty, 1
  {
    size := 0;
    for i := 0 to |data|
      invariant size + |EncodeAll(ty, data[i..])| == |EncodeAll(ty, data)|
    {
      assert data[i..][1..] == data[i + 1..];
      var more := SizeOf(ty, data[i]);
      size := size + more;
    }
  }

  method SizeOfDynamicArray(ty: Type, data: seq<Val>) returns (size: nat)
    requires forall v :: v in data ==> HasShape(ty, v)
    ensures size == 8 + |EncodeAll(ty, data)|
    decreases ty, 1
  {
    size := SIZE_T.width;
    for i := 0 to |data|
      invariant size + |EncodeAll(ty, data[i..])| == 8 + |EncodeAll(ty, data)|
    {
      assert data[i..][1..] == data[i + 1..];
      var more := SizeOf(ty, data[i]);
      size := size + more;
    }
  }

  method SizeOfMap(key: Type, value: Type, data: seq<Entry>) returns (size: nat)
    requires forall e :: e in data ==> HasShapes(key, value, e)
    ensures size == 8 + |EncodeEntries(key, value, data)|
    decreases Map(key, value), 0, 0
  {
    size := SIZE_T.width;
    for i := 0 to |data|
      invariant size + |EncodeEntries(key, value, data[i..])| == 8 + |EncodeEntries(key, value, data)|
    {
      assert data[i..][1..] == data[i + 1..] && HasShapes(key, value, data[i]);
      var first := SizeOf(key, data[i].key);
      var second := SizeOf(value, data[i].value);
      size := size + (first + second);
    }
  }

  // Either all the bytes are in the buffer, or they did not fit and some first of them are.
  ghost predicate Wrote(out: OutputBuffer, before: Bytes, bytes: Bytes, r: Result<(), BufferError>)
    reads out, out.buffer
  {
    && out.Valid()
    && match r
       case Ok(_) => out.Contents() == before + bytes
       case Err(_) => |before + bytes| > out.buffer.Length && before <= out.Contents() <= before + bytes
  }

  // Part of the bytes is in the buffer, and the rest is still to come.
  ghost predicate Partly(now: Bytes, before: Bytes, bytes: Bytes, later: Bytes) {
    before <= now && now + later == before + bytes
  }

  lemma WroteNext(out: OutputBuffer, now: Bytes, before: Bytes, bytes: Bytes, next: Bytes, later: Bytes,
                  r: Result<(), BufferError>)
    requires Partly(now, before, bytes, next + later) && Wrote(out, now, next, r)
    ensures r.Ok? ==> Partly(out.Contents(), before, bytes, later)
    ensures r.Err? || later == [] ==> Wrote(out, before, bytes, r)
  {
    assert now + (next + later) == now + next + later;
    if later == [] {
      assert now + next + later == now + next;
    }
  }

  method Serialize(ty: Type, v: Val, out: OutputBuffer) returns (r: Result<(), BufferError>)
    requires HasShape(ty, v) && out.Valid()
    modifies out, out.buffer
    ensures Wrote(out, old(out.Contents()), Encode(ty, v), r)
    decreases ty, 0
  {
    match ty
    case Scalar(width, _) =>
      r := out.Append(EncodeInt(v.n, width));
    case Text =>
      r := SerializeString(v.chars, out);
    case Array(elem, _) =>
      r := SerializeArray(elem, v.elems, out);
    case Vector(elem) =>
      r := SerializeDynamicArray(elem, v.elems, out);
    case Map(key, value) =>
      r := SerializeMap(key, value, v.entries, out);
  }

  method SerializeString(data: Bytes, out: OutputBuffer) returns (r: Result<(), BufferError>)
    requires out.Valid()
    modifies out, out.buffer
    ensures Wrote(out, old(out.Contents()), EncodeLength(|data|) + data, r)
  {
    ghost var before, all := out.Contents(), EncodeLength(|data|) + data;
    r := out.Append(EncodeLength(|data|));
    WroteNext(out, before, before, all, EncodeLength(|data|), data, r);
    if r.Err? {
      return;
    }
    for i := 0 to |data|
      invariant out.Valid() && r.Ok? && Partly(out.Contents(), before, all, data[i..])
    {
      ghost var now := out.Contents();
      assert data[i..] == [data[i]] + data[i + 1..];
      r := out.Append([data[i]]);
      WroteNext(out, now, before, all, [data[i]], data[i + 1..], r);
      if r.Err? {
        return;
      }
    }
  }

  method SerializeArray(ty: Type, data: seq<Val>, out: OutputBuffer) returns (r: Result<(), BufferError>)
    requires out.Valid() && forall v :: v in data ==> HasShape(ty, v)
    modifies out, out.buffer
    ensures Wrote(out, old(out.Contents()), EncodeAll(ty, data), r)
    decreases ty, 1
  {
    ghost var before, all := out.Contents(), EncodeAll(ty, data);
    r := Ok(());
    for i := 0 to |data|
      invariant out.Valid() && r.Ok? && Partly(out.Contents(), before, all, EncodeAll(ty, data[i..]))
    {
      ghost var now := out.Contents();
      assert data[i..][1..] == data[i + 1..];
      r := Serialize(ty, data[i], out);
      WroteNext(out, now, before, all, Encode(ty, data[i]), EncodeAll(ty, data[i + 1..]), r);
      if r.Err? {
        return;
      }
    }
  }

  method SerializeDynamicArray(ty: Type, data: seq<Val>, out: OutputBuffer) returns (r: Result<(), BufferError>)
    requires out.Valid() && forall v :: v in data ==> HasShape(ty, v)
    modifies out, out.buffer
    ensures Wrote(out, old(out.Contents()), EncodeLength(|data|) + EncodeAll(ty, data), r)
    decreases ty, 1
  {
    ghost var before, all := out.Contents(), EncodeLength(|data|) + EncodeAll(ty, data);
    r := out.Append(EncodeLength(|data|));
    WroteNext(out, before, before, all, EncodeLength(|data|), EncodeAll(ty, data), r);
    if r.Err? {
      return;
    }
    for i := 0 to |data|
      invariant out.Valid() && r.Ok? && Partly(out.Contents(), before, all, EncodeAll(ty, data[i..]))
    {
      ghost var now := out.Contents();
      assert data[i..][1..] == data[i + 1..];
      r := Serialize(ty, data[i], out);
      WroteNext(out, now, before, all, Encode(ty, data[i]), EncodeAll(ty, data[i + 1..]), r);
      if r.Err? {
        return;
      }
    }
  }

  method SerializeMap(key: Type, value: Type, data: seq<Entry>, out: OutputBuffer)
    returns (r: Result<(), BufferError>)
    requires out.Valid() && forall e :: e in data ==> HasShapes(key, value, e)
    modifies out, out.buffer
    ensures Wrote(out, old(out.Contents()), EncodeLength(|data|) + EncodeEntries(key, value, data), r)
    decreases Map(key, value), 0, 1
  {
    ghost var before, all := out.Contents(), EncodeLength(|data|) + EncodeEntries(key, value, data);
    r := out.Append(EncodeLength(|data|));
    WroteNext(out, before, before, all, EncodeLength(|data|), EncodeEntries(key, value, data), r);
    if r.Err? {
      return;
    }
    for i := 0 to |data|
      invariant out.Valid() && r.Ok? && Partly(out.Contents(), before, all, EncodeEntries(key, value, data[i..]))
    {
      ghost var now := out.Contents();
      assert data[i..][1..] == data[i + 1..] && HasShapes(key, value, data[i]);
      r := SerializeEntry(key, value, data[i], out);
      WroteNext(out, now, before, all, EncodeEntry(key, value, data[i]), EncodeEntries(key, value, data[i + 1..]), r);
      if r.Err? {
        return;
      }
    }
  }

  method SerializeEntry(key: Type, value: Type, element: Entry, out: OutputBuffer)
    returns (r: Result<(), BufferError>)
    requires out.Valid() && HasShapes(key, value, element)
    modifies out, out.buffer
    ensures Wrote(out, old(out.Contents()), EncodeEntry(key, value, element), r)
    decreases Map(key, value), 0, 0
  {
    ghost var before, all := out.Contents(), EncodeEntry(key, value, element);
    r := Serialize(key, element.key, out);
    WroteNext(out, before, before, all, Encode(key, element.key), Encode(value, element.value), r);
    if r.Err? {
      return;
    }
    ghost var now := out.Contents();
    assert Encode(value, element.value) == Encode(value, element.value) + [];
    r := Serialize(value, element.value, out);
    WroteNext(out, now, before, all, Encode(value, element.value), [], r);
  }

  // The result and the cursor are what decoding the rest gives.
  ghost predicate Got(buffer: InputBuffer, expected: Reading, r: Result<Val, BufferError>)
    reads buffer, buffer.buffer
  {
    && buffer.Valid()
    && match expected
       case Ok(read) => r == Ok(read.value) && buffer.Rest() == read.rest
       case Err(e) => r == Err(e)
  }

  method Deserialize(ty: Type, buffer: InputBuffer) returns (r: Result<Val, BufferError>)
    requires buffer.Valid()
    modifies buffer
    ensures Got(buffer, Decode(ty, old(buffer.Rest())), r)
    decreases ty, 0
  {
    match ty
    case Scalar(width, signed) =>
      var bytes :- buffer.NextValue(width);
      return Ok(Int(DecodeInt(bytes, signed)));
    case Text =>
      r := DeserializeString(buffer);
    case Array(elem, length) =>
      r := DeserializeArray(elem, length, buffer);
    case Vector(elem) =>
      var numOfElements :- DeserializeLength(buffer);
      r := DeserializeArray(elem, numOfElements, buffer);
    case Map(key, value) =>
      var numOfElements :- DeserializeLength(buffer);
      r := DeserializeMap(key, value, numOfElements, buffer);
  }

  method DeserializeLength(buffer: InputBuffer) returns (r: Result<nat, BufferError>)
    requires buffer.Valid()
    modifies buffer
    ensures buffer.Valid()
    ensures match DecodeLength(old(buffer.Rest()))
            case Ok(length) => r == Ok(length.0) && buffer.Rest() == length.1
            case Err(e) => r == Err(e)
  {
    var bytes :- buffer.NextValue(SIZE_T.width);
    return Ok(FromBytes(bytes));
  }

  method DeserializeString(buffer: InputBuffer) returns (r: Result<Val, BufferError>)
    requires buffer.Valid()
    modifies buffer
    ensures Got(buffer, DecodeString(old(buffer.Rest())), r)
  {
    var strLength :- DeserializeLength(buffer);
    ghost var all := buffer.Rest();
    var str: Bytes := [];
    for i := 0 to strLength
      invariant buffer.Valid() && i <= |all| && str == all[..i] && buffer.Rest() == all[i..]
    {
      var bytes :- buffer.NextValue(1);
      assert all[..i + 1] == all[..i] + all[i..][..1] && all[i + 1..] == all[i..][1..];
      str := str + bytes;
    }
    return Ok(Str(str));
  }

  method DeserializeArray(ty: Type, numOfElements: nat, buffer: InputBuffer) returns (r: Result<Val, BufferError>)
    requires buffer.Valid()
    modifies buffer
    ensures Got(buffer, DecodeAll(ty, numOfElements, old(buffer.Rest()), []), r)
    decreases ty, 1
  {
    var data: seq<Val> := [];
    for i := 0 to numOfElements
      invariant buffer.Valid()
      invariant DecodeAll(ty, numOfElements, old(buffer.Rest()), [])
             == DecodeAll(ty, numOfElements - i, buffer.Rest(), data)
    {
      var v :- Deserialize(ty, buffer);
      data := data + [v];
    }
    return Ok(List(data));
  }

  method DeserializeMap(key: Type, value: Type, numOfElements: nat, buffer: InputBuffer)
    returns (r: Result<Val, BufferError>)
    requires buffer.Valid()
    modifies buffer
    ensures Got(buffer, DecodeEntries(key, value, numOfElements, old(buffer.Rest()), []), r)
    decreases Map(key, value), 0, 1
  {
    var data: seq<Entry> := [];
    for i := 0 to numOfElements
      invariant buffer.Valid()
      invariant DecodeEntries(key, value, numOfElements, old(buffer.Rest()), [])
             == DecodeEntries(key, value, numOfElements - i, buffer.Rest(), data)
    {
      var element :- DeserializeEntry(key, value, buffer);
      data := Put(data, element.key, element.value);
    }
    return Ok(Dict(data));
  }

  method DeserializeEntry(key: Type, value: Type, buffer: InputBuffer) returns (r: Result<Entry, BufferError>)
    requires buffer.Valid()
    modifies buffer
    ensures buffer.Valid()
    ensures match DecodeEntry(key, value, old(buffer.Rest()))
            case Ok(read) => r == Ok(read.0) && buffer.Rest() == read.1
            case Err(e) => r == Err(e)
    decreases Map(key, value), 0, 0
  {
    var k :- Deserialize(key, buffer);
    var v :- Deserialize(value, buffer);
    return Ok(Entry(k, v));
  }
}
