/**
 * The buffered TCP byte stream: a 1420-byte send buffer that is filled in
 * place and flushed to the socket, and a 1420-byte receive buffer whose
 * window [receivePosition, receiveLength) holds bytes already taken from
 * the socket but not yet handed out.
 */
module Net {
  import opened Bytes
  import opened LittleEndian
  import opened SevenBit

  /** Size of each of the two buffers. */
  const BufferSize := 1420

  /** Requests above this many bytes go around the buffers. */
  const DirectTransferThreshold := 100

  /** `s` with the elements from `offset` on overwritten by `data`, one
      element after the other, as a copy into an array does. */
  ghost function Splice(s: seq<byte>, offset: int, data: seq<byte>): (r: seq<byte>)
    requires 0 <= offset && offset + |data| <= |s|
    ensures |r| == |s|
    decreases |data|
  {
    if data == [] then s else Splice(s[offset := data[0]], offset + 1, data[1..])
  }

  /** A splice keeps what lies before and after `data` and shows `data`
      in between. */
  lemma {:induction false} SpliceParts(s: seq<byte>, offset: int, data: seq<byte>)
    requires 0 <= offset && offset + |data| <= |s|
    ensures Splice(s, offset, data) == s[..offset] + data + s[offset + |data|..]
    decreases |data|
  {
    if data != [] {
      var t := s[offset := data[0]];
      SpliceParts(t, offset + 1, data[1..]);
      assert t[..offset + 1] == s[..offset] + [data[0]];
      assert t[offset + 1 + |data[1..]|..] == s[offset + |data|..];
      assert [data[0]] + data[1..] == data;
    }
  }

  /** Splicing one more element is one more single-element update. */
  lemma {:induction false} SpliceSnoc(s: seq<byte>, offset: int, data: seq<byte>, x: byte)
    requires 0 <= offset && offset + |data| < |s|
    ensures Splice(s, offset, data + [x]) == Splice(s, offset, data)[offset + |data| := x]
    decreases |data|
  {
    if data == [] {
      assert [x][1..] == [];
      assert data + [x] == [x];
    } else {
      assert (data + [x])[1..] == data[1..] + [x];
      SpliceSnoc(s[offset := data[0]], offset + 1, data[1..], x);
    }
  }

  /** A splice keeps what comes before it and shows `data` after that. */
  lemma SplicePrefix(s: seq<byte>, offset: int, data: seq<byte>)
    requires 0 <= offset && offset + |data| <= |s|
    ensures Splice(s, offset, data)[..offset + |data|] == s[..offset] + data
  {
    SpliceParts(s, offset, data);
    var r := Splice(s, offset, data);
    assert r[..offset + |data|] == (s[..offset] + data);
  }

  /** Two adjacent splices are one splice of the concatenation. */
  lemma SpliceTwice(s: seq<byte>, offset: int, first: seq<byte>, second: seq<byte>)
    requires 0 <= offset && offset + |first| + |second| <= |s|
    ensures Splice(Splice(s, offset, first), offset + |first|, second) == Splice(s, offset, first + second)
  {
    var once := Splice(s, offset, first);
    SpliceParts(s, offset, first);
    SpliceParts(once, offset + |first|, second);
    SpliceParts(s, offset, first + second);
    assert once[..offset + |first|] == s[..offset] + first;
    assert once[offset + |first| + |second|..] == s[offset + |first| + |second|..];
  }

  /** Splicing the next `got` elements of `data` after its first `k`
      extends the splice of those `k`. */
  lemma SpliceAdvance(s: seq<byte>, offset: int, data: seq<byte>, k: int, got: int)
    requires 0 <= offset && 0 <= k && 0 <= got && k + got <= |data| && offset + k + got <= |s|
    ensures Splice(Splice(s, offset, data[..k]), offset + k, data[k..][..got]) == Splice(s, offset, data[..k + got])
    ensures data[k..][got..] == data[k + got..]
  {
    SpliceTwice(s, offset, data[..k], data[k..][..got]);
    assert data[..k] + data[k..][..got] == data[..k + got];
  }

  /** Where the first `k` elements of `a + b` come from. */
  lemma ConcatSplit(a: seq<byte>, b: seq<byte>, k: int)
    requires 0 <= k <= |a| + |b|
    ensures k <= |a| ==> (a + b)[..k] == a[..k] && (a + b)[k..] == a[k..] + b
    ensures |a| <= k ==> (a + b)[..k] == a + b[..k - |a|] && (a + b)[k..] == b[k - |a|..]
  {
    if k <= |a| {
      assert (a + b)[..k] == a[..k];
      assert (a + b)[k..] == a[k..] + b;
    } else {
      assert (a + b)[..k] == a + b[..k - |a|];
      assert (a + b)[k..] == b[k - |a|..];
    }
  }

  /** Taking the first `k` elements off `w + rest`. */
  lemma SplitAt(w: seq<byte>, rest: seq<byte>, k: int)
    requires 0 <= k <= |w|
    ensures w + rest == w[..k] + (w[k..] + rest)
  {
    assert w == w[..k] + w[k..];
  }

  /** Copies `count` elements of `src` from `srcOffset` into `dst` at
      `dstOffset`, like `Array.Copy` between two distinct arrays. */
  method ArrayCopy(src: array<byte>, srcOffset: int, dst: array<byte>, dstOffset: int, count: int)
    requires src != dst
    requires 0 <= count && 0 <= srcOffset && srcOffset + count <= src.Length
    requires 0 <= dstOffset && dstOffset + count <= dst.Length
    modifies dst
    ensures dst[..] == Splice(old(dst[..]), dstOffset, src[srcOffset..srcOffset + count])
  {
    var i := 0;
    while i < count
      invariant 0 <= i <= count
      invariant dst[..] == Splice(old(dst[..]), dstOffset, src[srcOffset..srcOffset + i])
    {
      assert src[srcOffset..srcOffset + i + 1] == src[srcOffset..srcOffset + i] + [src[srcOffset + i]];
      SpliceSnoc(old(dst[..]), dstOffset, src[srcOffset..srcOffset + i], src[srcOffset + i]);
      dst[dstOffset + i] := src[srcOffset + i];
      i := i + 1;
    }
  }

  /** Stores `data` into `dst` from `offset` on. */
  method Store(dst: array<byte>, offset: int, data: seq<byte>)
    requires 0 <= offset && offset + |data| <= dst.Length
    modifies dst
    ensures dst[..] == Splice(old(dst[..]), offset, data)
  {
    var i := 0;
    while i < |data|
      invariant 0 <= i <= |data|
      invariant dst[..] == Splice(old(dst[..]), offset, data[..i])
    {
      assert data[..i + 1] == data[..i] + [data[i]];
      SpliceSnoc(old(dst[..]), offset, data[..i], data[i]);
      dst[offset + i] := data[i];
      i := i + 1;
    }
    assert data[..|data|] == data;
  }

  /**
   * The socket's stream, seen from this side: every byte sent so far, and
   * the bytes the peer has sent that have not been received yet.
   */
  class SocketStream {
    var Sent: seq<byte>
    var Incoming: seq<byte>

    constructor (incoming: seq<byte>)
      ensures Sent == [] && Incoming == incoming
    {
      Sent := [];
      Incoming := incoming;
    }

    /** Sends `count` bytes of `buffer` from `offset`. */
    method Write(buffer: array<byte>, offset: int, count: int)
      requires 0 <= offset && 0 <= count && offset + count <= buffer.Length
      modifies this
      ensures Sent == old(Sent) + buffer[offset..offset + count]
      ensures Incoming == old(Incoming)
    {
      Sent := Sent + buffer[offset..offset + count];
    }

    /** Receives up to `count` bytes into `buffer` at `offset`. A read
        returns some of the bytes that have arrived, at least one, and
        returns 0 only when the peer has closed the stream. */
    method Read(buffer: array<byte>, offset: int, count: int) returns (n: int)
      requires 0 <= offset && 0 < count && offset + count <= buffer.Length
      modifies this, buffer
      ensures 0 <= n <= count && n <= |old(Incoming)|
      ensures n == 0 <==> old(Incoming) == []
      ensures buffer[..] == Splice(old(buffer[..]), offset, old(Incoming)[..n])
      ensures Incoming == old(Incoming)[n..]
      ensures Sent == old(Sent)
    {
      if Incoming == [] {
        return 0;
      }
      n :| 1 <= n <= count && n <= |Incoming|;
      Store(buffer, offset, Incoming[..n]);
      Incoming := Incoming[n..];
    }
  }

  class NetworkBinaryStream {
    const sendBuffer: array<byte>
    const receiveBuffer: array<byte>
    const stream: SocketStream
    var sendLength: int
    var receivePosition: int
    var receiveLength: int

    /** The buffers have their fixed size and do not overlap. */
    ghost predicate Buffers()
      reads this
    {
      sendBuffer.Length == BufferSize && receiveBuffer.Length == BufferSize &&
      sendBuffer != receiveBuffer
    }

    /** The index invariant of both buffers. */
    ghost predicate Valid()
      reads this
    {
      Buffers() &&
      0 <= sendLength <= BufferSize &&
      0 <= receivePosition <= receiveLength <= BufferSize
    }

    /** Every byte written to this stream so far, in order: what reached
        the socket followed by what is still buffered. */
    ghost function Output(): seq<byte>
      reads this, sendBuffer, stream
      requires Valid()
    {
      stream.Sent + sendBuffer[..sendLength]
    }

    /** The bytes readable from this stream, in order: the buffered window
        followed by what the socket has not delivered yet. */
    ghost function Pending(): seq<byte>
      reads this, receiveBuffer, stream
      requires Valid()
    {
      receiveBuffer[receivePosition..receiveLength] + stream.Incoming
    }

    /** The buffered, unread window. */
    ghost function Window(): seq<byte>
      reads this, receiveBuffer
      requires Valid()
    {
      receiveBuffer[receivePosition..receiveLength]
    }

    constructor Create(socket: SocketStream)
      ensures Valid() && fresh(sendBuffer) && fresh(receiveBuffer)
      ensures stream == socket
      ensures sendLength == 0 && receivePosition == 0 && receiveLength == 0
    {
      sendBuffer := new byte[BufferSize];
      receiveBuffer := new byte[BufferSize];
      stream := socket;
      sendLength := 0;
      receiveLength := 0;
      receivePosition := 0;
    }

    /** Opens a stream over `socket`. Big-endian processors are refused:
        the fixed-width integers are copied as the processor stores them. */
    static method Open(socket: SocketStream, isLittleEndian: bool) returns (s: NetworkBinaryStream?)
      ensures (s == null) == !isLittleEndian
      ensures s != null ==> fresh(s) && fresh(s.sendBuffer) && fresh(s.receiveBuffer)
      ensures s != null ==> s.Valid() && s.stream == socket && s.Output() == socket.Sent && s.Pending() == socket.Incoming
    {
      if !isLittleEndian {
        return null;
      }
      s := new NetworkBinaryStream.Create(socket);
    }

    /** Sends the buffered bytes, if any, and empties the send buffer. */
    method Flush()
      requires Valid()
      modifies this, stream
      ensures Valid()
      ensures old(sendLength) <= 0 ==> stream.Sent == old(stream.Sent)
      ensures stream.Sent == old(stream.Sent) + old(sendBuffer[..sendLength])
      ensures sendLength == 0 && Output() == old(Output())
      ensures stream.Incoming == old(stream.Incoming)
      ensures receivePosition == old(receivePosition) && receiveLength == old(receiveLength)
    {
      if sendLength <= 0 {
        return;
      }
      stream.Write(sendBuffer, 0, sendLength);
      sendLength := 0;
    }

    /** Appends `data` to the send buffer. */
    method Put(data: seq<byte>)
      requires Valid() && sendLength + |data| <= BufferSize
      modifies this, sendBuffer
      ensures Valid()
      ensures sendLength == old(sendLength) + |data|
      ensures sendBuffer[..sendLength] == old(sendBuffer[..sendLength]) + data
      ensures Output() == old(Output()) + data
      ensures receivePosition == old(receivePosition) && receiveLength == old(receiveLength)
    {
      SplicePrefix(sendBuffer[..], sendLength, data);
      Store(sendBuffer, sendLength, data);
      assert sendBuffer[..sendLength + |data|] == old(sendBuffer[..sendLength]) + data;
      sendLength := sendLength + |data|;
    }

    /** Buffers one byte. */
    method WriteUInt8(value: byte)
      requires Valid() && sendLength < BufferSize
      modifies this, sendBuffer
      ensures Valid()
      ensures sendLength == old(sendLength) + 1
      ensures Output() == old(Output()) + [value]
      ensures receivePosition == old(receivePosition) && receiveLength == old(receiveLength)
    {
      sendBuffer[sendLength] := value;
      assert sendBuffer[..sendLength + 1] == old(sendBuffer[..sendLength]) + [value];
      sendLength := sendLength + 1;
    }

    /** Buffers an `int` as its four little-endian bytes. */
    method WriteInt32(value: Int32)
      requires Valid() && sendLength <= BufferSize - 4
      modifies this, sendBuffer
      ensures Valid()
      ensures sendLength == old(sendLength) + 4
      ensures Output() == old(Output()) + Int32ToBytes(value)
      ensures receivePosition == old(receivePosition) && receiveLength == old(receiveLength)
    {
      Put(Int32ToBytes(value));
    }

    /** Buffers a `long` as its eight little-endian bytes. */
    method WriteInt64(value: Int64)
      requires Valid() && sendLength <= BufferSize - 8
      modifies this, sendBuffer
      ensures Valid()
      ensures sendLength == old(sendLength) + 8
      ensures Output() == old(Output()) + Int64ToBytes(value)
      ensures receivePosition == old(receivePosition) && receiveLength == old(receiveLength)
    {
      Put(Int64ToBytes(value));
    }

    /** Buffers a `ulong` in the 7-bit encoding; the guard leaves room for
        the longest, nine-byte form. */
    method Write7Bit(value: bv64)
      requires Valid() && sendLength <= BufferSize - 9
      modifies this, sendBuffer
      ensures Valid()
      ensures sendLength == old(sendLength) + |Encode7Bit(value)|
      ensures Output() == old(Output()) + Encode7Bit(value)
      ensures receivePosition == old(receivePosition) && receiveLength == old(receiveLength)
    {
      Put(Encode7Bit(value));
    }

    /** Writes `count` bytes of `buffer` from `offset`. They are buffered
        when they fit after at most one flush; more than 100 bytes are sent
        straight to the socket after the buffer has been flushed. */
    method Write(buffer: array<byte>, offset: int, count: int)
      requires Valid() && buffer != sendBuffer
      requires 0 <= offset && 0 <= count && offset + count <= buffer.Length
      modifies this, sendBuffer, stream
      ensures Valid()
      ensures Output() == old(Output()) + buffer[offset..offset + count]
      ensures count > DirectTransferThreshold ==> sendLength == 0
      ensures count <= DirectTransferThreshold && BufferSize - old(sendLength) < count ==>
                stream.Sent == old(Output()) && sendLength == count
      ensures count <= DirectTransferThreshold && count <= BufferSize - old(sendLength) ==>
                stream.Sent == old(stream.Sent) && sendLength == old(sendLength) + count
      ensures stream.Incoming == old(stream.Incoming)
      ensures receivePosition == old(receivePosition) && receiveLength == old(receiveLength)
    {
      if BufferSize - sendLength < count {
        Flush();
      }
      if count > DirectTransferThreshold {
        Flush();
        stream.Write(buffer, offset, count);
      } else {
        ghost var buffered := sendBuffer[..sendLength];
        SplicePrefix(sendBuffer[..], sendLength, buffer[offset..offset + count]);
        ArrayCopy(buffer, offset, sendBuffer, sendLength, count);
        assert sendBuffer[..sendLength + count] == buffered + buffer[offset..offset + count];
        sendLength := sendLength + count;
      }
    }
    /** Takes one byte from the receive buffer. */
    method ReadUInt8() returns (value: byte)
      requires Valid() && receivePosition < receiveLength
      modifies this
      ensures Valid()
      ensures receivePosition == old(receivePosition) + 1 && receiveLength == old(receiveLength)
      ensures old(Pending()) == [value] + Pending()
      ensures sendLength == old(sendLength)
    {
      value := receiveBuffer[receivePosition];
      receivePosition := receivePosition + 1;
    }

    /** Takes an `int` from the next four buffered bytes, little-endian. */
    method ReadInt32() returns (value: Int32)
      requires Valid() && receivePosition <= receiveLength - 4
      modifies this
      ensures Valid()
      ensures receivePosition == old(receivePosition) + 4 && receiveLength == old(receiveLength)
      ensures value == BytesToInt32(old(Window()))
      ensures old(Pending()) == Int32ToBytes(value) + Pending()
      ensures forall x | IsPrefix(Int32ToBytes(x), old(Window())) :: value == x
      ensures sendLength == old(sendLength)
    {
      var window := receiveBuffer[receivePosition..receiveLength];
      value := BytesToInt32(window);
      Int32BytesRoundTrip(window);
      forall x | IsPrefix(Int32ToBytes(x), window)
        ensures value == x
      {
        Int32OfPrefix(x, window);
      }
      receivePosition := receivePosition + 4;
      assert window == Int32ToBytes(value) + Window();
    }

    /** Takes a `long` from the next eight buffered bytes, little-endian. */
    method ReadInt64() returns (value: Int64)
      requires Valid() && receivePosition <= receiveLength - 8
      modifies this
      ensures Valid()
      ensures receivePosition == old(receivePosition) + 8 && receiveLength == old(receiveLength)
      ensures value == BytesToInt64(old(Window()))
      ensures old(Pending()) == Int64ToBytes(value) + Pending()
      ensures forall x | IsPrefix(Int64ToBytes(x), old(Window())) :: value == x
      ensures sendLength == old(sendLength)
    {
      var window := receiveBuffer[receivePosition..receiveLength];
      value := BytesToInt64(window);
      Int64BytesRoundTrip(window);
      forall x | IsPrefix(Int64ToBytes(x), window)
        ensures value == x
      {
        Int64OfPrefix(x, window);
      }
      receivePosition := receivePosition + 8;
      assert window == Int64ToBytes(value) + Window();
    }

    /** Takes a 7-bit encoded `ulong`; the guard asks for nine buffered
        bytes, enough for the longest form. When the window starts with
        the writer's encoding of some `v`, the result is `v` and exactly
        those bytes are consumed. */
    method Read7BitUInt64() returns (value: bv64)
      requires Valid() && receivePosition <= receiveLength - 9
      modifies this
      ensures Valid()
      ensures old(receivePosition) < receivePosition && receiveLength == old(receiveLength)
      ensures DecodeAt(old(Window()), 0) == Decoded(value, receivePosition - old(receivePosition))
      ensures old(Pending()) == old(Window())[..receivePosition - old(receivePosition)] + Pending()
      ensures forall v | IsPrefix(Encode7Bit(v), old(Window())) ::
                value == v && receivePosition == old(receivePosition) + |Encode7Bit(v)|
      ensures sendLength == old(sendLength)
    {
      var window := receiveBuffer[receivePosition..receiveLength];
      var decoded := Read7Bit(window);
      Read7BitIsDecodeAt(window);
      value := decoded.value;
      receivePosition := receivePosition + decoded.length;
      assert window == old(Window()) && Window() == window[decoded.length..];
      SplitAt(window, stream.Incoming, decoded.length);
      forall v | IsPrefix(Encode7Bit(v), old(Window()))
        ensures value == v && receivePosition == old(receivePosition) + |Encode7Bit(v)|
      {
        DecodeAtOfPrefix(v, window);
      }
    }

    /** The receive loop for a large remainder: socket reads straight
        into `buffer` until `count` bytes have arrived or the stream ends. */
    method ReceiveDirect(buffer: array<byte>, offset: int, count: int) returns (endOfStream: bool)
      requires 0 <= offset && 0 < count && offset + count <= buffer.Length
      modifies buffer, stream
      ensures endOfStream <==> |old(stream.Incoming)| < count
      ensures !endOfStream ==>
                buffer[..] == Splice(old(buffer[..]), offset, old(stream.Incoming)[..count]) &&
                stream.Incoming == old(stream.Incoming)[count..]
      ensures endOfStream ==> stream.Incoming == []
      ensures stream.Sent == old(stream.Sent)
    {
      ghost var incoming := stream.Incoming;
      ghost var original := buffer[..];
      var off, left := offset, count;
      while left > 0
        invariant offset <= off && 0 <= left && off + left == offset + count
        invariant off - offset <= |incoming|
        invariant buffer[..] == Splice(original, offset, incoming[..off - offset])
        invariant stream.Incoming == incoming[off - offset..]
        invariant stream.Sent == old(stream.Sent)
        decreases left
      {
        var got := stream.Read(buffer, off, left);
        if got == 0 {
          return true;
        }
        SpliceAdvance(original, offset, incoming, off - offset, got);
        off, left := off + got, left - got;
      }
      return false;
    }

    /** The receive loop for a small remainder: socket reads into the
        receive buffer from its start, each offered all the space left,
        until at least `count` bytes are there or the stream ends. */
    method Prebuffer(count: int) returns (endOfStream: bool)
      requires Buffers() && 0 < count <= BufferSize
      modifies this`receiveLength, receiveBuffer, stream
      ensures endOfStream <==> |old(stream.Incoming)| < count
      ensures 0 <= receiveLength <= BufferSize
      ensures !endOfStream ==>
                count <= receiveLength <= |old(stream.Incoming)| &&
                receiveBuffer[..receiveLength] == old(stream.Incoming)[..receiveLength] &&
                stream.Incoming == old(stream.Incoming)[receiveLength..]
      ensures endOfStream ==> stream.Incoming == []
      ensures stream.Sent == old(stream.Sent)
    {
      ghost var incoming := stream.Incoming;
      var prebufferLength := receiveBuffer.Length;
      var received := 0;
      receiveLength := 0;
      while received < count
        invariant 0 <= received <= BufferSize && prebufferLength == BufferSize - received
        invariant received <= |incoming|
        invariant receiveBuffer[..received] == incoming[..received]
        invariant stream.Incoming == incoming[received..]
        invariant stream.Sent == old(stream.Sent) && receiveLength == 0
        decreases BufferSize - received
      {
        ghost var before := receiveBuffer[..];
        var got := stream.Read(receiveBuffer, received, prebufferLength);
        if got == 0 {
          receiveLength := received;
          return true;
        }
        SplicePrefix(before, received, incoming[received..][..got]);
        assert incoming[..received] + incoming[received..][..got] == incoming[..received + got];
        assert incoming[received..][got..] == incoming[received + got..];
        received := received + got;
        prebufferLength := prebufferLength - got;
      }
      receiveLength := received;
      return false;
    }

    /** Receives `count` bytes from the socket into `buffer` at `offset`
        once the receive window is empty: more than 100 bytes directly,
        fewer through the receive buffer, whose surplus becomes the new
        window. */
    method Receive(buffer: array<byte>, offset: int, count: int) returns (endOfStream: bool)
      requires Buffers() && buffer != receiveBuffer
      requires 0 <= offset && 0 < count && offset + count <= buffer.Length
      requires 0 <= receivePosition == receiveLength <= BufferSize
      modifies this`receivePosition, this`receiveLength, receiveBuffer, buffer, stream
      ensures endOfStream <==> |old(stream.Incoming)| < count
      ensures !endOfStream ==>
                0 <= receivePosition <= receiveLength <= BufferSize &&
                buffer[..] == Splice(old(buffer[..]), offset, old(stream.Incoming)[..count]) &&
                receiveBuffer[receivePosition..receiveLength] + stream.Incoming == old(stream.Incoming)[count..]
      ensures endOfStream ==>
                stream.Incoming == [] && 0 <= receivePosition <= BufferSize && 0 <= receiveLength <= BufferSize
      ensures stream.Sent == old(stream.Sent)
    {
      ghost var incoming := stream.Incoming;
      if count > DirectTransferThreshold {
        endOfStream := ReceiveDirect(buffer, offset, count);
      } else {
        endOfStream := Prebuffer(count);
        if !endOfStream {
          assert receiveBuffer[..count] == incoming[..count];
          assert incoming[..receiveLength] == incoming[..count] + receiveBuffer[count..receiveLength];
          assert receiveBuffer[count..receiveLength] + stream.Incoming == incoming[count..];
          ArrayCopy(receiveBuffer, 0, buffer, offset, count);
          receivePosition := count;
        }
      }
    }

    /** Hands out `count` bytes that are all in the receive window. */
    method ReadBuffered(buffer: array<byte>, offset: int, count: int)
      requires Valid() && buffer != receiveBuffer
      requires 0 <= offset && offset + count <= buffer.Length
      requires 0 < count <= receiveLength - receivePosition
      modifies this`receivePosition, buffer
      ensures Valid() && receivePosition == old(receivePosition) + count
      ensures buffer[..] == Splice(old(buffer[..]), offset, old(Window())[..count])
      ensures Window() == old(Window())[count..]
    {
      assert receiveBuffer[receivePosition..receivePosition + count] == Window()[..count];
      ArrayCopy(receiveBuffer, receivePosition, buffer, offset, count);
      receivePosition := receivePosition + count;
    }

    /** Hands out `count` bytes, more than the receive window holds: the
        whole window, then the rest from the socket. */
    method ReadThrough(buffer: array<byte>, offset: int, count: int) returns (endOfStream: bool)
      requires Valid() && buffer != receiveBuffer && buffer != sendBuffer
      requires 0 <= offset && offset + count <= buffer.Length
      requires receiveLength - receivePosition < count
      modifies this`receivePosition, this`receiveLength, receiveBuffer, buffer, stream
      ensures endOfStream <==> |old(Pending())| < count
      ensures !endOfStream ==>
                Valid() &&
                buffer[..] == Splice(old(buffer[..]), offset, old(Window()) + old(stream.Incoming)[..count - |old(Window())|]) &&
                Pending() == old(stream.Incoming)[count - |old(Window())|..]
      ensures endOfStream ==>
                stream.Incoming == [] && Buffers() &&
                0 <= receivePosition <= BufferSize && 0 <= receiveLength <= BufferSize
      ensures stream.Sent == old(stream.Sent)
    {
      ghost var window := Window();
      ghost var original := buffer[..];
      var available := receiveLength - receivePosition;
      var off, left := offset, count;
      if available > 0 {
        ArrayCopy(receiveBuffer, receivePosition, buffer, off, available);
        receivePosition, receiveLength := 0, 0;
        off, left := off + available, left - available;
      } else {
        assert buffer[..] == Splice(original, offset, window);
      }
      ghost var incoming := stream.Incoming;
      endOfStream := Receive(buffer, off, left);
      if !endOfStream {
        SpliceTwice(original, offset, window, incoming[..left]);
      }
    }

    /**
     * Reads `count` bytes into `buffer` at `offset`: first from the
     * receive window, then from the socket. A socket read of 0 bytes ends
     * the stream; the model reports it as `endOfStream`, where the stream
     * raises an exception.
     */
    method Read(buffer: array<byte>, offset: int, count: int) returns (n: int, endOfStream: bool)
      requires Valid() && buffer != receiveBuffer && buffer != sendBuffer
      requires count > 0 ==> 0 <= offset && offset + count <= buffer.Length
      modifies this, receiveBuffer, buffer, stream
      ensures count <= 0 ==> n == 0 && !endOfStream && unchanged(this, receiveBuffer, buffer, stream)
      ensures endOfStream <==> count > 0 && |old(Pending())| < count
      ensures !endOfStream ==> Valid()
      ensures count > 0 && !endOfStream ==>
                n == count &&
                buffer[..] == Splice(old(buffer[..]), offset, old(Pending())[..count]) &&
                Pending() == old(Pending())[count..]
      ensures endOfStream ==>
                n == 0 && stream.Incoming == [] && Buffers() &&
                0 <= receivePosition <= BufferSize && 0 <= receiveLength <= BufferSize
      ensures sendLength == old(sendLength) && stream.Sent == old(stream.Sent)
    {
      if count <= 0 {
        return 0, false;
      }
      ConcatSplit(Window(), stream.Incoming, if count <= |Pending()| then count else 0);
      if count <= receiveLength - receivePosition {
        ReadBuffered(buffer, offset, count);
        return count, false;
      }
      endOfStream := ReadThrough(buffer, offset, count);
      if endOfStream {
        return 0, true;
      }
      return count, false;
    }
  }
}
