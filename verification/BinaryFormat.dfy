// comms-lib: the binary form of values, as functions on byte sequences: what is written
// is read back, and nothing shorter is read at all.
module BinaryFormat {
  import opened Wrappers
  import opened BinaryTypes

  // Little-endian, base 256.
  function ToBytes(n: nat, w: nat): (bs: Bytes)
    ensures |bs| == w
  {
    if w == 0 then [] else [n % 256] + ToBytes(n / 256, w - 1)
  }

  function FromBytes(bs: Bytes): (n: nat)
    ensures n < Pow256(|bs|)
  {
    if bs == [] then 0 else bs[0] + 256 * FromBytes(bs[1..])
  }

  lemma {:induction false} BytesRoundTrip(n: nat, w: nat)
    requires n < Pow256(w)
    ensures FromBytes(ToBytes(n, w)) == n
  {
    if w > 0 {
      BytesRoundTrip(n / 256, w - 1);
      assert ToBytes(n, w)[1..] == ToBytes(n / 256, w - 1);
    }
  }

  lemma {:induction false} BytesExhaustive(bs: Bytes)
    ensures ToBytes(FromBytes(bs), |bs|) == bs
  {
    if bs != [] {
      BytesExhaustive(bs[1..]);
      assert FromBytes(bs) % 256 == bs[0] && FromBytes(bs) / 256 == FromBytes(bs[1..]);
    }
  }

  // A negative number wraps around, as in two's complement.
  function EncodeInt(n: int, width: Width): Bytes {
    ToBytes(n % Pow256(width), width)
  }

  function DecodeInt(bs: Bytes, signed: bool): int {
    var n := FromBytes(bs);
    if signed && 2 * n >= Pow256(|bs|) then n - Pow256(|bs|) else n
  }

  lemma IntRoundTrip(n: int, width: Width, signed: bool)
    requires InRange(width, signed, n)
    ensures DecodeInt(EncodeInt(n, width), signed) == n
  {
    var p := Pow256(width);
    assert n % p == if n < 0 then n + p else n by {
      WrapAround(n, p);
    }
    BytesRoundTrip(n % p, width);
  }

  lemma WrapAround(n: int, p: int)
    requires p > 0 && -p <= n < p
    ensures n % p == if n < 0 then n + p else n
  {
  }

  // Every byte string of the right width is some integer's form, and only that integer's.
  lemma IntCanonical(bs: Bytes, signed: bool)
    requires bs != []
    ensures InRange(|bs|, signed, DecodeInt(bs, signed)) && EncodeInt(DecodeInt(bs, signed), |bs|) == bs
  {
    var p := Pow256(|bs|);
    var n := DecodeInt(bs, signed);
    WrapAround(n, p);
    BytesExhaustive(bs);
    assert p % 2 == 0;
  }

  // The bytes a value is written as.
  function Encode(ty: Type, v: Val): Bytes
    requires HasShape(ty, v)
    decreases ty, 0
  {
    match ty
    case Scalar(width, _) => EncodeInt(v.n, width)
    case Text => EncodeLength(|v.chars|) + v.chars
    case Array(elem, _) => EncodeAll(elem, v.elems)
    case Vector(elem) => EncodeLength(|v.elems|) + EncodeAll(elem, v.elems)
    case Map(key, value) => EncodeLength(|v.entries|) + EncodeEntries(key, value, v.entries)
  }

  function EncodeLength(n: nat): Bytes { EncodeInt(n, 8) }

  function EncodeAll(ty: Type, vs: seq<Val>): Bytes
    requires forall v :: v in vs ==> HasShape(ty, v)
    decreases ty, |vs| + 1
  {
    if vs == [] then [] else Encode(ty, vs[0]) + EncodeAll(ty, vs[1..])
  }

  function EncodeEntries(key: Type, value: Type, es: seq<Entry>): Bytes
    requires forall e :: e in es ==> HasShapes(key, value, e)
    decreases Map(key, value), 0, |es|
  {
    if es == [] then [] else EncodeEntry(key, value, es[0]) + EncodeEntries(key, value, es[1..])
  }

  function EncodeEntry(key: Type, value: Type, e: Entry): Bytes
    requires HasShapes(key, value, e)
    decreases Map(key, value), 0, 0
  {
    Encode(key, e.key) + Encode(value, e.value)
  }

  datatype BufferError = BufferOverflow

  // A value, and the bytes after it.
  datatype Read = Read(value: Val, rest: Bytes)

  type Reading = Result<Read, BufferError>

  datatype Chunk = Chunk(bytes: Bytes, rest: Bytes)

  function Take(bs: Bytes, n: nat): (r: Result<Chunk, BufferError>)
    ensures r.Ok? ==> |r.value.bytes| == n && bs == r.value.bytes + r.value.rest
  {
    if n > |bs| then Err(BufferOverflow) else Ok(Chunk(bs[..n], bs[n..]))
  }

  function DecodeScalar(bs: Bytes, width: nat, signed: bool): Reading {
    var chunk :- Take(bs, width);
    Ok(Read(Int(DecodeInt(chunk.bytes, signed)), chunk.rest))
  }

  // A count, and the bytes after it.
  function DecodeLength(bs: Bytes): (r: Result<(nat, Bytes), BufferError>)
    ensures r.Ok? ==> r.value.0 < SIZE_LIMIT
  {
    var chunk :- Take(bs, 8);
    LimitOfLength();
    Ok((FromBytes(chunk.bytes), chunk.rest))
  }

  lemma LimitOfLength()
    ensures Pow256(8) == SIZE_LIMIT
  {
  }

  function DecodeString(bs: Bytes): Reading {
    var length :- DecodeLength(bs);
    var chars :- Take(length.1, length.0);
    Ok(Read(Str(chars.bytes), chars.rest))
  }

  function Decode(ty: Type, bs: Bytes): Reading
    decreases ty, 0
  {
    match ty
    case Scalar(width, signed) => DecodeScalar(bs, width, signed)
    case Text => DecodeString(bs)
    case Array(elem, length) => DecodeAll(elem, length, bs, [])
    case Vector(elem) =>
      var length :- DecodeLength(bs);
      DecodeAll(elem, length.0, length.1, [])
    case Map(key, value) =>
      var length :- DecodeLength(bs);
      DecodeEntries(key, value, length.0, length.1, [])
  }

  // So many more values after those already read.
  function DecodeAll(ty: Type, more: nat, bs: Bytes, before: seq<Val>): Reading
    decreases ty, more + 1
  {
    if more == 0 then Ok(Read(List(before), bs))
    else
      var v :- Decode(ty, bs);
      DecodeAll(ty, more - 1, v.rest, before + [v.value])
  }

  function DecodeEntries(key: Type, value: Type, more: nat, bs: Bytes, before: seq<Entry>): Reading
    decreases Map(key, value), 0, more
  {
    if more == 0 then Ok(Read(Dict(before), bs))
    else
      var e :- DecodeEntry(key, value, bs);
      DecodeEntries(key, value, more - 1, e.1, Put(before, e.0.key, e.0.value))
  }

  function DecodeEntry(key: Type, value: Type, bs: Bytes): Result<(Entry, Bytes), BufferError>
    decreases Map(key, value), 0, 0
  {
    var k :- Decode(key, bs);
    var v :- Decode(value, k.rest);
    Ok((Entry(k.value, v.value), v.rest))
  }

  // ---- What is decoded ----

  // What decoding makes of entries in any order, also inside keys and values: each is assigned
  // to its key, so that the last one of a key stays.
  function Settled(ty: Type, v: Val): Val
    requires HasShape(ty, v)
    decreases ty, 0
  {
    match ty
    case Scalar(_, _) => v
    case Text => v
    case Array(elem, _) => List(SettledAll(elem, v.elems))
    case Vector(elem) => List(SettledAll(elem, v.elems))
    case Map(key, value) => Dict(SettledEntries(key, value, [], v.entries))
  }

  function SettledAll(ty: Type, vs: seq<Val>): seq<Val>
    requires forall v :: v in vs ==> HasShape(ty, v)
    decreases ty, |vs| + 1
  {
    if vs == [] then [] else [Settled(ty, vs[0])] + SettledAll(ty, vs[1..])
  }

  function SettledEntries(key: Type, value: Type, before: seq<Entry>, es: seq<Entry>): seq<Entry>
    requires forall e :: e in es ==> HasShapes(key, value, e)
    decreases Map(key, value), 0, |es|
  {
    if es == [] then before
    else
      var e := SettledEntry(key, value, es[0]);
      SettledEntries(key, value, Put(before, e.key, e.value), es[1..])
  }

  function SettledEntry(key: Type, value: Type, e: Entry): Entry
    requires HasShapes(key, value, e)
    decreases Map(key, value), 0, 0
  {
    Entry(Settled(key, e.key), Settled(value, e.value))
  }

  // Decoding what was encoded gives the value back, settled, and leaves the bytes that follow.
  lemma {:induction false} ReadsBack(ty: Type, v: Val, rest: Bytes)
    requires HasShape(ty, v)
    ensures Decode(ty, Encode(ty, v) + rest) == Ok(Read(Settled(ty, v), rest))
    decreases ty, 0
  {
    match ty
    case Scalar(width, signed) =>
      TakeFront(Encode(ty, v), rest);
      IntRoundTrip(v.n, width, signed);
    case Text =>
      LengthRoundTrip(|v.chars|, v.chars, rest);
      TakeFront(v.chars, rest);
    case Array(elem, length) =>
      AllReadBack(elem, v.elems, [], rest);
      assert [] + SettledAll(elem, v.elems) == SettledAll(elem, v.elems);
    case Vector(elem) =>
      LengthRoundTrip(|v.elems|, EncodeAll(elem, v.elems), rest);
      AllReadBack(elem, v.elems, [], rest);
      assert [] + SettledAll(elem, v.elems) == SettledAll(elem, v.elems);
    case Map(key, value) =>
      LengthRoundTrip(|v.entries|, EncodeEntries(key, value, v.entries), rest);
      EntriesReadBack(key, value, v.entries, [], rest);
  }

  // A value with its maps in order is what it settles to.
  lemma {:induction false} SettledIs(ty: Type, v: Val)
    requires HasType(ty, v)
    ensures Settled(ty, v) == v
    decreases ty, 0
  {
    match ty
    case Scalar(_, _) =>
    case Text =>
    case Array(elem, _) => AllSettled(elem, v.elems);
    case Vector(elem) => AllSettled(elem, v.elems);
    case Map(key, value) =>
      assert [] + v.entries == v.entries;
      EntriesSettled(key, value, [], v.entries);
  }

  lemma {:induction false} AllSettled(ty: Type, vs: seq<Val>)
    requires forall v :: v in vs ==> HasShape(ty, v) && HasType(ty, v)
    ensures SettledAll(ty, vs) == vs
    decreases ty, |vs| + 1
  {
    if vs != [] {
      SettledIs(ty, vs[0]);
      AllSettled(ty, vs[1..]);
    }
  }

  // Entries assigned in order end up in order.
  lemma {:induction false} EntriesSettled(key: Type, value: Type, before: seq<Entry>, es: seq<Entry>)
    requires Ordered(before + es)
    requires forall e :: e in es ==> HasShapes(key, value, e) && HasTypes(key, value, e)
    ensures SettledEntries(key, value, before, es) == before + es
    decreases Map(key, value), 0, |es|
  {
    if es == [] {
      assert before + es == before;
    } else {
      assert HasTypes(key, value, es[0]);
      SettledIs(key, es[0].key);
      SettledIs(value, es[0].value);
      PutNext(before, es);
      OneMore(before, es);
      EntriesSettled(key, value, before + [es[0]], es[1..]);
    }
  }

  lemma RoundTrip(ty: Type, v: Val, rest: Bytes)
    requires HasType(ty, v)
    ensures Decode(ty, Encode(ty, v) + rest) == Ok(Read(v, rest))
  {
    ReadsBack(ty, v, rest);
    SettledIs(ty, v);
  }

  lemma TakeFront(front: Bytes, rest: Bytes)
    ensures Take(front + rest, |front|) == Ok(Chunk(front, rest))
  {
    assert (front + rest)[..|front|] == front && (front + rest)[|front|..] == rest;
  }

  lemma UnsignedRoundTrip(n: nat, width: Width)
    requires n < Pow256(width)
    ensures FromBytes(EncodeInt(n, width)) == n && |EncodeInt(n, width)| == width
  {
    WrapAround(n, Pow256(width));
    BytesRoundTrip(n, width);
  }

  lemma LengthRoundTrip(n: nat, body: Bytes, rest: Bytes)
    requires n < SIZE_LIMIT
    ensures DecodeLength(EncodeLength(n) + body + rest) == Ok((n, body + rest))
  {
    var length := EncodeLength(n);
    LimitOfLength();
    UnsignedRoundTrip(n, 8);
    assert length + body + rest == length + (body + rest);
    TakeFront(length, body + rest);
  }

  lemma {:induction false} AllReadBack(ty: Type, vs: seq<Val>, before: seq<Val>, rest: Bytes)
    requires forall v :: v in vs ==> HasShape(ty, v)
    ensures DecodeAll(ty, |vs|, EncodeAll(ty, vs) + rest, before) == Ok(Read(List(before + SettledAll(ty, vs)), rest))
    decreases ty, |vs| + 1
  {
    if vs == [] {
      assert before + [] == before && [] + rest == rest;
    } else {
      assert vs == [vs[0]] + vs[1..];
      AllNext(ty, vs[0], vs[1..], before, rest);
      ReadsBack(ty, vs[0], EncodeAll(ty, vs[1..]) + rest);
      AllReadBack(ty, vs[1..], before + [Settled(ty, vs[0])], rest);
    }
  }

  lemma {:induction false} EntriesReadBack(key: Type, value: Type, es: seq<Entry>, before: seq<Entry>, rest: Bytes)
    requires forall e :: e in es ==> HasShapes(key, value, e)
    ensures DecodeEntries(key, value, |es|, EncodeEntries(key, value, es) + rest, before)
         == Ok(Read(Dict(SettledEntries(key, value, before, es)), rest))
    decreases Map(key, value), 0, |es|
  {
    if es == [] {
      assert [] + rest == rest;
    } else {
      var more := EncodeEntries(key, value, es[1..]) + rest;
      var e := SettledEntry(key, value, es[0]);
      EncodeNext(key, value, es, rest);
      EntryReadBack(key, value, es[0], more);
      EntriesReadBack(key, value, es[1..], Put(before, e.key, e.value), rest);
      DecodeNext(key, value, |es|, EncodeEntries(key, value, es) + rest, before, e, more);
    }
  }

  lemma OneMore(before: seq<Entry>, es: seq<Entry>)
    requires es != []
    ensures before + [es[0]] + es[1..] == before + es
  {
  }

  lemma EncodeNext(key: Type, value: Type, es: seq<Entry>, rest: Bytes)
    requires es != [] && forall e :: e in es ==> HasShapes(key, value, e)
    ensures EncodeEntries(key, value, es) + rest
         == EncodeEntry(key, value, es[0]) + (EncodeEntries(key, value, es[1..]) + rest)
  {
  }

  lemma DecodeNext(key: Type, value: Type, more: nat, bs: Bytes, before: seq<Entry>, e: Entry, rest: Bytes)
    requires more > 0 && DecodeEntry(key, value, bs) == Ok((e, rest))
    ensures DecodeEntries(key, value, more, bs, before)
         == DecodeEntries(key, value, more - 1, rest, Put(before, e.key, e.value))
  {
  }

  lemma {:induction false} EntryReadBack(key: Type, value: Type, e: Entry, rest: Bytes)
    requires HasShapes(key, value, e)
    ensures DecodeEntry(key, value, EncodeEntry(key, value, e) + rest)
         == Ok((SettledEntry(key, value, e), rest))
    decreases Map(key, value), 0, 0
  {
    var r := Encode(value, e.value) + rest;
    Associative(Encode(key, e.key), Encode(value, e.value), rest);
    ReadsBack(key, e.key, r);
    ReadsBack(value, e.value, rest);
  }

  lemma PutNext(before: seq<Entry>, es: seq<Entry>)
    requires es != [] && Ordered(before + es)
    ensures Put(before, es[0].key, es[0].value) == before + [es[0]]
  {
    var all := before + es;
    forall i | 0 <= i < |before|
      ensures Less(before[i].key, es[0].key)
    {
      assert all[i] == before[i] && all[|before|] == es[0];
    }
    PutLast(before, es[0].key, es[0].value);
  }

  // ---- What can be decoded ----

  // Exactly the bytes that begin with an encoding are decoded, whatever follows it, and to what
  // the encoded value settles to. All others are too short.
  lemma DecodeIff(ty: Type, bs: Bytes, v: Val, rest: Bytes)
    ensures Decode(ty, bs) == Ok(Read(v, rest))
            <==> exists w :: HasShape(ty, w) && bs == Encode(ty, w) + rest && v == Settled(ty, w)
  {
    if Decode(ty, bs) == Ok(Read(v, rest)) {
      var w := DecodedFrom(ty, bs);
    }
    if w :| HasShape(ty, w) && bs == Encode(ty, w) + rest && v == Settled(ty, w) {
      ReadsBack(ty, w, rest);
    }
  }

  lemma {:induction false} DecodedFrom(ty: Type, bs: Bytes) returns (w: Val)
    requires Decode(ty, bs).Ok?
    ensures HasShape(ty, w) && Settled(ty, w) == Decode(ty, bs).value.value
    ensures bs == Encode(ty, w) + Decode(ty, bs).value.rest
    decreases ty, 0
  {
    var rest := Decode(ty, bs).value.rest;
    match ty
    case Scalar(width, signed) =>
      w := Decode(ty, bs).value.value;
      IntCanonical(bs[..width], signed);
    case Text =>
      w := Decode(ty, bs).value.value;
      LengthFrom(bs, w.chars, rest);
    case Array(elem, length) =>
      var ws := AllFrom(elem, length, bs, []);
      NothingBefore(SettledAll(elem, ws));
      w := List(ws);
    case Vector(elem) =>
      var length := DecodeLength(bs).value;
      var ws := AllFrom(elem, length.0, length.1, []);
      LengthFrom(bs, EncodeAll(elem, ws), rest);
      NothingBefore(SettledAll(elem, ws));
      w := List(ws);
    case Map(key, value) =>
      var length := DecodeLength(bs).value;
      var ws := EntriesFrom(key, value, length.0, length.1, []);
      LengthFrom(bs, EncodeEntries(key, value, ws), rest);
      w := Dict(ws);
  }

  lemma NothingBefore(vs: seq<Val>)
    ensures [] + vs == vs
  {
  }

  lemma Associative(a: Bytes, b: Bytes, c: Bytes)
    ensures a + b + c == a + (b + c)
  {
  }

  // A count and what is counted.
  lemma LengthFrom(bs: Bytes, body: Bytes, rest: Bytes)
    requires DecodeLength(bs).Ok? && DecodeLength(bs).value.1 == body + rest
    ensures bs == EncodeLength(DecodeLength(bs).value.0) + body + rest
  {
    LimitOfLength();
    WrapAround(FromBytes(bs[..8]), SIZE_LIMIT);
    BytesExhaustive(bs[..8]);
    Associative(EncodeLength(DecodeLength(bs).value.0), body, rest);
  }

  lemma {:induction false} AllFrom(ty: Type, more: nat, bs: Bytes, before: seq<Val>) returns (ws: seq<Val>)
    requires DecodeAll(ty, more, bs, before).Ok?
    ensures |ws| == more && forall w :: w in ws ==> HasShape(ty, w)
    ensures var r := DecodeAll(ty, more, bs, before).value;
            r.value == List(before + SettledAll(ty, ws)) && bs == EncodeAll(ty, ws) + r.rest
    decreases ty, more + 1
  {
    ws := [];
    if more > 0 {
      var v := Decode(ty, bs).value;
      var w := DecodedFrom(ty, bs);
      var others := AllFrom(ty, more - 1, v.rest, before + [v.value]);
      ws := [w] + others;
      AllNext(ty, w, others, before, DecodeAll(ty, more, bs, before).value.rest);
    } else {
      assert before + [] == before && bs == [] + bs;
    }
  }

  lemma AllNext(ty: Type, w: Val, others: seq<Val>, before: seq<Val>, rest: Bytes)
    requires HasShape(ty, w) && forall v :: v in others ==> HasShape(ty, v)
    ensures before + SettledAll(ty, [w] + others) == before + [Settled(ty, w)] + SettledAll(ty, others)
    ensures EncodeAll(ty, [w] + others) + rest == Encode(ty, w) + (EncodeAll(ty, others) + rest)
  {
    assert ([w] + others)[1..] == others;
  }

  lemma {:induction false} EntriesFrom(key: Type, value: Type, more: nat, bs: Bytes, before: seq<Entry>)
    returns (ws: seq<Entry>)
    requires DecodeEntries(key, value, more, bs, before).Ok?
    ensures |ws| == more && forall w :: w in ws ==> HasShapes(key, value, w)
    ensures var r := DecodeEntries(key, value, more, bs, before).value;
            r.value == Dict(SettledEntries(key, value, before, ws)) && bs == EncodeEntries(key, value, ws) + r.rest
    decreases Map(key, value), 0, more
  {
    ws := [];
    if more > 0 {
      var (e, rest) := DecodeEntry(key, value, bs).value;
      var w := EntryFrom(key, value, bs);
      DecodeNext(key, value, more, bs, before, e, rest);
      var others := EntriesFrom(key, value, more - 1, rest, Put(before, e.key, e.value));
      ws := [w] + others;
      EntriesNext(key, value, w, others, before, DecodeEntries(key, value, more, bs, before).value.rest);
    } else {
      assert bs == [] + bs;
    }
  }

  lemma EntriesNext(key: Type, value: Type, w: Entry, others: seq<Entry>, before: seq<Entry>, rest: Bytes)
    requires HasShapes(key, value, w) && forall e :: e in others ==> HasShapes(key, value, e)
    ensures var e := SettledEntry(key, value, w);
            (SettledEntries(key, value, before, [w] + others)
             == SettledEntries(key, value, Put(before, e.key, e.value), others))
    ensures EncodeEntries(key, value, [w] + others) + rest
         == EncodeEntry(key, value, w) + (EncodeEntries(key, value, others) + rest)
  {
    assert ([w] + others)[1..] == others;
  }

  lemma {:induction false} EntryFrom(key: Type, value: Type, bs: Bytes) returns (w: Entry)
    requires DecodeEntry(key, value, bs).Ok?
    ensures HasShapes(key, value, w)
    ensures var (e, rest) := DecodeEntry(key, value, bs).value;
            && e == SettledEntry(key, value, w)
            && bs == EncodeEntry(key, value, w) + rest
    decreases Map(key, value), 0, 0
  {
    var k := DecodedFrom(key, bs);
    var v := DecodedFrom(value, Decode(key, bs).value.rest);
    w := Entry(k, v);
    var rest := Decode(value, Decode(key, bs).value.rest).value.rest;
    Associative(Encode(key, k), Encode(value, v), rest);
  }

  // Bytes after those that are read make no difference.
  lemma MoreBytes(ty: Type, bs: Bytes, extra: Bytes)
    requires Decode(ty, bs).Ok?
    ensures Decode(ty, bs + extra) == Ok(Read(Decode(ty, bs).value.value, Decode(ty, bs).value.rest + extra))
  {
    var w := DecodedFrom(ty, bs);
    var rest := Decode(ty, bs).value.rest;
    Associative(Encode(ty, w), rest, extra);
    ReadsBack(ty, w, rest + extra);
  }

  lemma NothingLeft(ty: Type, front: Bytes, back: Bytes, v: Val)
    requires Decode(ty, front).Ok? && Decode(ty, front + back) == Ok(Read(v, []))
    ensures back == []
  {
    MoreBytes(ty, front, back);
    assert |Decode(ty, front).value.rest + back| == 0;
  }

  lemma CutShort(ty: Type, all: Bytes, v: Val, n: nat)
    requires n < |all| && Decode(ty, all) == Ok(Read(v, []))
    ensures Decode(ty, all[..n]) == Err(BufferOverflow)
  {
    var front, back := all[..n], all[n..];
    assert front + back == all && |back| > 0;
    match Decode(ty, front) {
      case Ok(_) => NothingLeft(ty, front, back, v);
      case Err(BufferOverflow) =>
    }
  }

  // A value cut short is never taken for a value.
  lemma PrefixRejected(ty: Type, v: Val, n: nat)
    requires HasType(ty, v) && n < |Encode(ty, v)|
    ensures Decode(ty, Encode(ty, v)[..n]) == Err(BufferOverflow)
  {
    RoundTrip(ty, v, []);
    assert Encode(ty, v) + [] == Encode(ty, v);
    CutShort(ty, Encode(ty, v), v, n);
  }

  // No two values have the same bytes, nor one the front of the other's.
  lemma PrefixFree(ty: Type, v: Val, w: Val, more: Bytes)
    requires HasType(ty, v) && HasType(ty, w) && Encode(ty, v) + more == Encode(ty, w)
    ensures v == w && more == []
  {
    RoundTrip(ty, v, more);
    RoundTrip(ty, w, []);
    assert Encode(ty, w) + [] == Encode(ty, w);
  }

  // Whatever the bytes, what is decoded is a value of the type.
  lemma {:induction false} DecodedHasType(ty: Type, bs: Bytes)
    requires Decode(ty, bs).Ok?
    ensures HasType(ty, Decode(ty, bs).value.value)
    decreases ty, 0
  {
    match ty
    case Scalar(width, signed) =>
      IntCanonical(bs[..width], signed);
    case Text =>
    case Array(elem, length) =>
      DecodedAll(elem, length, bs, []);
    case Vector(elem) =>
      var length := DecodeLength(bs).value;
      DecodedAll(elem, length.0, length.1, []);
    case Map(key, value) =>
      var length := DecodeLength(bs).value;
      DecodedEntries(key, value, length.0, length.1, []);
  }

  lemma {:induction false} DecodedAll(ty: Type, more: nat, bs: Bytes, before: seq<Val>)
    requires DecodeAll(ty, more, bs, before).Ok? && forall v :: v in before ==> HasType(ty, v)
    ensures var r := DecodeAll(ty, more, bs, before).value.value;
            r.List? && |r.elems| == |before| + more && forall v :: v in r.elems ==> HasType(ty, v)
    decreases ty, more + 1
  {
    if more > 0 {
      var v := Decode(ty, bs).value;
      DecodedHasType(ty, bs);
      DecodedAll(ty, more - 1, v.rest, before + [v.value]);
    }
  }

  lemma {:induction false} DecodedEntries(key: Type, value: Type, more: nat, bs: Bytes, before: seq<Entry>)
    requires DecodeEntries(key, value, more, bs, before).Ok?
    requires Ordered(before) && forall e :: e in before ==> HasTypes(key, value, e)
    ensures var r := DecodeEntries(key, value, more, bs, before).value.value;
            && r.Dict? && Ordered(r.entries) && |r.entries| <= |before| + more
            && forall e :: e in r.entries ==> HasTypes(key, value, e)
    decreases Map(key, value), 0, more
  {
    if more > 0 {
      var (e, rest) := DecodeEntry(key, value, bs).value;
      DecodedEntry(key, value, bs);
      PutTyped(key, value, before, e);
      DecodeNext(key, value, more, bs, before, e, rest);
      DecodedEntries(key, value, more - 1, rest, Put(before, e.key, e.value));
    }
  }

  lemma PutTyped(key: Type, value: Type, before: seq<Entry>, e: Entry)
    requires Ordered(before) && HasTypes(key, value, e) && forall d :: d in before ==> HasTypes(key, value, d)
    ensures Ordered(Put(before, e.key, e.value)) && |Put(before, e.key, e.value)| <= |before| + 1
    ensures forall d :: d in Put(before, e.key, e.value) ==> HasTypes(key, value, d)
  {
    assert forall d :: d in before ==> HasTypes(key, value, d) ==> HasType(key, d.key);
    PutKeepsOrder(key, before, e.key, e.value);
    PutAdds(before, e.key, e.value);
  }

  lemma {:induction false} DecodedEntry(key: Type, value: Type, bs: Bytes)
    requires DecodeEntry(key, value, bs).Ok?
    ensures HasTypes(key, value, DecodeEntry(key, value, bs).value.0)
    decreases Map(key, value), 0, 0
  {
    DecodedHasType(key, bs);
    DecodedHasType(value, Decode(key, bs).value.rest);
  }
}
