// comms-lib: the bounded buffers that binary data is written to and read from.
module Buffers {
  import opened Wrappers
  import opened BinaryTypes
  import opened BinaryFormat

  class OutputBuffer {
    const buffer: array<Byte>
    var currIndex: nat
    var dataSize: nat

    constructor (size: nat)
      ensures Valid() && fresh(buffer) && buffer.Length == size && Contents() == []
    {
      buffer := new Byte[size];
      currIndex, dataSize := 0, 0;
    }

    ghost predicate Valid() reads this { currIndex == dataSize <= buffer.Length }

    // The data appended so far.
    ghost function Contents(): Bytes
      reads this, buffer
      requires Valid()
    {
      buffer[..currIndex]
    }

    // All of the data is appended, or none of it: a failed append changes nothing.
    method Append(data: Bytes) returns (r: Result<(), BufferError>)
      requires Valid()
      modifies this, buffer
      ensures Valid()
      ensures r == if |old(Contents()) + data| <= buffer.Length then Ok(()) else Err(BufferOverflow)
      ensures Contents() == if r.Ok? then old(Contents()) + data else old(Contents())
    {
      var _ :- AppendToBuffer(data);
      dataSize := dataSize + |data|;
      return Ok(());
    }

    method AppendToBuffer(data: Bytes) returns (r: Result<(), BufferError>)
      requires currIndex <= buffer.Length
      modifies this`currIndex, buffer
      ensures r == if old(currIndex) + |data| <= buffer.Length then Ok(()) else Err(BufferOverflow)
      ensures currIndex == old(currIndex) + if r.Ok? then |data| else 0
      ensures buffer[..currIndex] == old(buffer[..currIndex]) + if r.Ok? then data else []
    {
      var nextSize := currIndex + |data|;
      if nextSize > buffer.Length {
        return Err(BufferOverflow);
      }
      forall i | 0 <= i < |data| {
        buffer[currIndex + i] := data[i];
      }
      assert buffer[currIndex..nextSize] == data;
      assert buffer[..nextSize] == buffer[..currIndex] + buffer[currIndex..nextSize];
      currIndex := nextSize;
      return Ok(());
    }
  }

  class InputBuffer {
    const buffer: array<Byte>
    var currIndex: nat

    // A copy of the data it is given.
    constructor (data: Bytes)
      ensures Valid() && fresh(buffer) && currIndex == 0 && buffer[..] == data
    {
      buffer := new Byte[|data|](i requires 0 <= i < |data| => data[i]);
      currIndex := 0;
    }

    ghost predicate Valid() reads this { currIndex <= buffer.Length }

    // The data not retrieved yet.
    ghost function Rest(): Bytes
      reads this, buffer
      requires Valid()
    {
      buffer[currIndex..]
    }

    method NextValue(dataSize: nat) returns (r: Result<Bytes, BufferError>)
      requires Valid()
      modifies this
      ensures Valid()
      ensures match Take(old(Rest()), dataSize)
              case Ok(chunk) => r == Ok(chunk.bytes) && Rest() == chunk.rest
              case Err(e) => r == Err(e) && Rest() == old(Rest())
    {
      var nextSize := currIndex + dataSize;
      if nextSize > buffer.Length {
        return Err(BufferOverflow);
      }
      var destination := buffer[currIndex..nextSize];
      assert destination == Rest()[..dataSize];
      currIndex := nextSize;
      return Ok(destination);
    }
  }
}
