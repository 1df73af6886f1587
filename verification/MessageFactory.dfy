// comms-lib: whole packets in binary form, and the factory that builds and reads them.
module MessageFactories {
  import opened Wrappers
  import opened BinaryTypes
  import opened BinaryFormat
  import opened Buffers
  import opened BinarySerializer

  // A data message: its type string, the C++ type of its data, and the data.
  datatype Message = Message(kind: Bytes, dataType: Type, data: Val)

  datatype Header = Header(kind: Bytes, recipientType: int, recipientInstance: int)

  datatype Packet = Packet(message: Message, recipientType: int, recipientInstance: int)
  {
    function GetHeader(): Header { Header(message.kind, recipientType, recipientInstance) }
  }

  // The exceptions.
  datatype Failure = Overflow | OutOfRange | NotRegistered | AlreadyRegistered | WrongDataType

  ghost predicate IsHeader(h: Header) {
    && |h.kind| < SIZE_LIMIT
    && InRange(INT.width, INT.signed, h.recipientType) && InRange(INT.width, INT.signed, h.recipientInstance)
  }

  ghost predicate IsPacket(p: Packet) {
    IsHeader(p.GetHeader()) && HasType(p.message.dataType, p.message.data)
  }

  ghost function EncodeHeader(h: Header): Bytes
    requires IsHeader(h)
  {
    Encode(Text, Str(h.kind)) + (Encode(INT, Int(h.recipientType)) + Encode(INT, Int(h.recipientInstance)))
  }

  ghost function EncodePacket(p: Packet): Bytes
    requires IsPacket(p)
  {
    EncodeHeader(p.GetHeader()) + Encode(p.message.dataType, p.message.data)
  }

  ghost function DecodeHeader(bs: Bytes): Result<(Header, Bytes), BufferError> {
    var kind :- Decode(Text, bs);
    var recipientType :- Decode(INT, kind.rest);
    var recipientInstance :- Decode(INT, recipientType.rest);
    Ok((Header(kind.value.chars, recipientType.value.n, recipientInstance.value.n), recipientInstance.rest))
  }

  // The header is read first, then a message of that type is made, then its data is read.
  ghost function DecodePacket(messages: map<Bytes, Type>, serializers: map<Bytes, Type>,
                              bs: Bytes): Result<(Packet, Bytes), Failure> {
    match DecodeHeader(bs)
    case Err(_) => Err(Overflow)
    case Ok((h, rest)) =>
      if h.kind !in messages || h.kind !in serializers then Err(NotRegistered)
      else if messages[h.kind] != serializers[h.kind] then Err(WrongDataType)
      else
        match Decode(serializers[h.kind], rest)
        case Err(_) => Err(Overflow)
        case Ok(data) =>
          Ok((Packet(Message(h.kind, messages[h.kind], data.value), h.recipientType, h.recipientInstance), data.rest))
  }

  lemma HeaderRoundTrip(h: Header, rest: Bytes)
    requires IsHeader(h)
    ensures DecodeHeader(EncodeHeader(h) + rest) == Ok((h, rest))
  {
    var a, b := Encode(INT, Int(h.recipientType)), Encode(INT, Int(h.recipientInstance));
    assert EncodeHeader(h) + rest == Encode(Text, Str(h.kind)) + (a + (b + rest));
    RoundTrip(Text, Str(h.kind), a + (b + rest));
    RoundTrip(INT, Int(h.recipientType), b + rest);
    RoundTrip(INT, Int(h.recipientInstance), rest);
  }

  // Exactly the bytes that begin with a header are read as one.
  lemma HeaderIff(bs: Bytes, h: Header, rest: Bytes)
    ensures DecodeHeader(bs) == Ok((h, rest)) <==> IsHeader(h) && bs == EncodeHeader(h) + rest
  {
    if DecodeHeader(bs) == Ok((h, rest)) {
      var kind := Decode(Text, bs).value;
      var recipientType := Decode(INT, kind.rest).value;
      var a := DecodedFrom(Text, bs);
      var b := DecodedFrom(INT, kind.rest);
      var c := DecodedFrom(INT, recipientType.rest);
      HeaderParts(Encode(Text, a), Encode(INT, b), Encode(INT, c), rest);
    }
    if IsHeader(h) && bs == EncodeHeader(h) + rest {
      HeaderRoundTrip(h, rest);
    }
  }

  lemma HeaderParts(a: Bytes, b: Bytes, c: Bytes, rest: Bytes)
    ensures a + (b + c) + rest == a + (b + (c + rest))
  {
  }

  lemma HeaderMoreBytes(bs: Bytes, extra: Bytes)
    requires DecodeHeader(bs).Ok?
    ensures DecodeHeader(bs + extra) == Ok((DecodeHeader(bs).value.0, DecodeHeader(bs).value.1 + extra))
  {
    var kind := Decode(Text, bs).value;
    var recipientType := Decode(INT, kind.rest).value;
    MoreBytes(Text, bs, extra);
    MoreBytes(INT, kind.rest, extra);
    MoreBytes(INT, recipientType.rest, extra);
  }

  ghost predicate Registered(messages: map<Bytes, Type>, serializers: map<Bytes, Type>, m: Message) {
    m.kind in messages && m.kind in serializers && messages[m.kind] == serializers[m.kind] == m.dataType
  }

  // A whole packet survives: type string, both halves of the address, and the data.
  lemma PacketRoundTrip(messages: map<Bytes, Type>, serializers: map<Bytes, Type>, p: Packet, rest: Bytes)
    requires IsPacket(p) && Registered(messages, serializers, p.message)
    ensures DecodePacket(messages, serializers, EncodePacket(p) + rest) == Ok((p, rest))
  {
    var data := Encode(p.message.dataType, p.message.data);
    assert EncodePacket(p) + rest == EncodeHeader(p.GetHeader()) + (data + rest);
    HeaderRoundTrip(p.GetHeader(), data + rest);
    RoundTrip(p.message.dataType, p.message.data, rest);
  }

  // A packet cut short anywhere ends in the overflow exception.
  lemma PacketPrefixRejected(messages: map<Bytes, Type>, serializers: map<Bytes, Type>, p: Packet, n: nat)
    requires IsPacket(p) && Registered(messages, serializers, p.message) && n < |EncodePacket(p)|
    ensures DecodePacket(messages, serializers, EncodePacket(p)[..n]) == Err(Overflow)
  {
    var all, data := EncodePacket(p), Encode(p.message.dataType, p.message.data);
    var front, back := all[..n], all[n..];
    assert front + back == all && |back| > 0;
    HeaderRoundTrip(p.GetHeader(), data);
    if DecodeHeader(front).Ok? {
      var rest := DecodeHeader(front).value.1;
      HeaderMoreBytes(front, back);
      assert rest + back == data;
      RoundTrip(p.message.dataType, p.message.data, []);
      assert data + [] == data;
      if Decode(p.message.dataType, rest).Ok? {
        NothingLeft(p.message.dataType, rest, back, p.message.data);
      }
    }
  }

  method GetSize(p: Packet) returns (size: nat)
    requires IsPacket(p)
    ensures size == |EncodePacket(p)|
  {
    var recipientType := SizeOf(INT, Int(p.recipientType));
    var recipientInstance := SizeOf(INT, Int(p.recipientInstance));
    var kind := SizeOf(Text, Str(p.message.kind));
    var data := SizeOf(p.message.dataType, p.message.data);
    return recipientType + recipientInstance + kind + data;
  }

  method SerializePacket(p: Packet, out: OutputBuffer) returns (r: Result<(), BufferError>)
    requires IsPacket(p) && out.Valid()
    modifies out, out.buffer
    ensures Wrote(out, old(out.Contents()), EncodePacket(p), r)
  {
    var h := p.GetHeader();
    ghost var before, all := out.Contents(), EncodePacket(p);
    ghost var kind, recipientType := Encode(Text, Str(h.kind)), Encode(INT, Int(h.recipientType));
    ghost var recipientInstance := Encode(INT, Int(h.recipientInstance));
    ghost var data := Encode(p.message.dataType, p.message.data);
    assert all == kind + (recipientType + (recipientInstance + (data + [])));
    r := Serialize(Text, Str(h.kind), out);
    WroteNext(out, before, before, all, kind, recipientType + (recipientInstance + (data + [])), r);
    if r.Err? {
      return;
    }
    ghost var now := out.Contents();
    r := Serialize(INT, Int(h.recipientType), out);
    WroteNext(out, now, before, all, recipientType, recipientInstance + (data + []), r);
    if r.Err? {
      return;
    }
    now := out.Contents();
    r := Serialize(INT, Int(h.recipientInstance), out);
    WroteNext(out, now, before, all, recipientInstance, data + [], r);
    if r.Err? {
      return;
    }
    now := out.Contents();
    r := Serialize(p.message.dataType, p.message.data, out);
    WroteNext(out, now, before, all, data, [], r);
  }

  method DeserializeHeader(buffer: InputBuffer) returns (r: Result<Header, BufferError>)
    requires buffer.Valid()
    modifies buffer
    ensures buffer.Valid()
    ensures match DecodeHeader(old(buffer.Rest()))
            case Ok((h, rest)) => r == Ok(h) && buffer.Rest() == rest
            case Err(e) => r == Err(e)
  {
    var kind :- Deserialize(Text, buffer);
    var recipientType :- Deserialize(INT, buffer);
    var recipientInstance :- Deserialize(INT, buffer);
    return Ok(Header(kind.chars, recipientType.n, recipientInstance.n));
  }

  class MessageFactory {
    // The data types of the registered messages, and of the serializers registered with them.
    var messages: map<Bytes, Type>
    var serializers: map<Bytes, Type>
    const bufferSize: nat

    constructor (bufferSize: nat)
      ensures Valid() && messages == map[] && this.bufferSize == bufferSize
    {
      messages, serializers := map[], map[];
      this.bufferSize := bufferSize;
    }

    ghost predicate Valid() reads this { messages.Keys == serializers.Keys }

    method RegisterMessage(kind: Bytes, messageType: Type, serializerType: Type) returns (r: Result<(), Failure>)
      requires Valid()
      modifies this
      ensures Valid()
      ensures r == if kind in old(messages) then Err(AlreadyRegistered) else Ok(())
      ensures messages == if r.Ok? then old(messages)[kind := messageType] else old(messages)
      ensures serializers == if r.Ok? then old(serializers)[kind := serializerType] else old(serializers)
    {
      if kind in messages {
        return Err(AlreadyRegistered);
      }
      messages := messages[kind := messageType];
      serializers := serializers[kind := serializerType];
      return Ok(());
    }

    // The buffer is as large as the packet, or as large as buffers may be. So a packet is
    // serialized exactly if it fits the largest buffer, and then it fills its buffer.
    method SerializeMessage(p: Packet) returns (r: Result<OutputBuffer, Failure>)
      requires Valid() && IsPacket(p)
      ensures p.message.kind !in serializers ==> r == Err(OutOfRange)
      ensures p.message.kind in serializers && serializers[p.message.kind] != p.message.dataType ==>
                r == Err(WrongDataType)
      ensures Registered(serializers, serializers, p.message) ==>
                if |EncodePacket(p)| <= bufferSize
                then r.Ok? && r.value.Valid() && r.value.Contents() == r.value.buffer[..] == EncodePacket(p)
                else r == Err(Overflow)
    {
      if p.message.kind !in serializers {
        return Err(OutOfRange);
      }
      if serializers[p.message.kind] != p.message.dataType {
        return Err(WrongDataType);
      }
      var size := GetSize(p);
      var out := new OutputBuffer(if size < bufferSize then size else bufferSize);
      var written := SerializePacket(p, out);
      if written.Err? {
        return Err(Overflow);
      }
      assert out.Contents() == EncodePacket(p);
      return Ok(out);
    }

    method CreateMessage(kind: Bytes) returns (r: Result<Type, Failure>)
      ensures r == if kind in messages then Ok(messages[kind]) else Err(NotRegistered)
    {
      if kind !in messages {
        return Err(NotRegistered);
      }
      return Ok(messages[kind]);
    }

    method DeserializeMessage(buffer: InputBuffer) returns (r: Result<Packet, Failure>)
      requires Valid() && buffer.Valid()
      modifies buffer
      ensures buffer.Valid()
      ensures match DecodePacket(messages, serializers, old(buffer.Rest()))
              case Ok((p, rest)) => r == Ok(p) && buffer.Rest() == rest
              case Err(e) => r == Err(e)
      // The exceptions, by what the bytes begin with
      ensures (forall h: Header, rest :: !(IsHeader(h) && old(buffer.Rest()) == EncodeHeader(h) + rest)) ==>
                r == Err(Overflow)
      ensures forall h: Header, rest :: IsHeader(h) && old(buffer.Rest()) == EncodeHeader(h) + rest ==>
                && (h.kind !in messages ==> r == Err(NotRegistered))
                && (h.kind in messages && messages[h.kind] != serializers[h.kind] ==> r == Err(WrongDataType))
    {
      forall h: Header, rest { HeaderIff(buffer.Rest(), h, rest); }
      var header := DeserializeHeader(buffer);
      if header.Err? {
        return Err(Overflow);
      }
      var h := header.value;
      var msgType :- CreateMessage(h.kind);
      if serializers[h.kind] != msgType {
        return Err(WrongDataType);
      }
      var data := Deserialize(serializers[h.kind], buffer);
      if data.Err? {
        return Err(Overflow);
      }
      return Ok(Packet(Message(h.kind, msgType, data.value), h.recipientType, h.recipientInstance));
    }
  }

  // What one factory sends, any factory with the same registrations receives.
  method SendAndReceive(sender: MessageFactory, receiver: MessageFactory, p: Packet)
    returns (r: Result<Packet, Failure>)
    requires sender.Valid() && receiver.Valid() && IsPacket(p)
    requires Registered(sender.messages, sender.serializers, p.message)
    requires Registered(receiver.messages, receiver.serializers, p.message)
    ensures r == if |EncodePacket(p)| <= sender.bufferSize then Ok(p) else Err(Overflow)
  {
    PacketRoundTrip(receiver.messages, receiver.serializers, p, []);
    assert EncodePacket(p) + [] == EncodePacket(p);
    var out :- sender.SerializeMessage(p);
    var sent := new InputBuffer(out.buffer[..]);
    r := receiver.DeserializeMessage(sent);
  }
}
