# Buffered network stream, snapshot service and data point: a Dafny model

This project models three sequential parts of the openHistorian code base
and proves properties about them.

- **`NetworkBinaryStream`** is the buffered TCP byte stream of
  `GSF.SortedTreeStore`. It has a 1420-byte send buffer that is filled in
  place and flushed to the socket. It also has a 1420-byte receive buffer,
  whose window `[receivePosition, receiveLength)` holds bytes taken from the
  socket but not yet handed out.
  - Its codecs are the fixed-width little-endian `int`/`long` codec and a
    7-bit variable-length `ulong` codec. The varint codec uses seven bits
    per byte with a continuation flag, for up to eight bytes. A ninth byte,
    when present, holds the top eight bits whole.
  - The socket's stream is an object with two fields: `Sent`, every byte
    sent so far, and `Incoming`, the bytes the peer sent that have not been
    received yet. Each socket read hands over some positive number of the
    waiting bytes, or 0 once the peer has closed and nothing is waiting.
- **`FileSystemSnapshotService`** is the archive file's transaction
  coordinator, modelled as a state machine.
  - It has one edit slot and a list of live reads.
  - It has a published allocation table. A commit replaces the table, and
    each read keeps the table it captured when it began.
  - The monitor that guards the edit slot is a flag. Whether `TryEnter`
    succeeds within the timeout is a parameter. The allocation table is an
    opaque version value. Reading the header back from disk gives "the
    table last committed to disk".
- **`DataPoint`** is the comparison utility's record of four `ulong` fields.
  It can report whether it is empty, clear itself, and copy itself.

Exceptions in the source become outcome values in the model:
- `EditOutcome` for `BeginEditTransaction`;
- `Status` for the event handlers;
- `endOfStream` for `Read`.

The files hold these modules:
- `bytes.dfy`: the byte type.
- `little_endian.dfy`: the fixed-width codec.
- `seven_bit.dfy`: the varint codec. It includes the reader's cascade, a
  group-by-group reference decoder, and the proofs that tie the two
  together.
- `network_binary_stream.dfy`: the stream and its socket.
- `file_system_snapshot_service.dfy`: the snapshot service.
- `data_point.dfy`: the data point.

The stream is specified through two ghost views:
- `Output()`: every byte written so far, in order. This is the bytes the
  socket has received followed by the send buffer's bytes `[0, sendLength)`.
- `Pending()`: every byte still to be read, in order. This is the receive
  window followed by the socket's undelivered bytes.

Each write method appends exactly its encoding to `Output()`. Each read
method takes exactly the bytes it decodes off the front of `Pending()`; when
those bytes begin with the writer's encoding of a value, they are that
encoding and the result is that value. The codec lemmas then turn these
facts into round trips.

## Model

| member | source | states |
|---|---|---|
| LittleEndian.Int32ToBytes | Source/Libraries/GSF.SortedTreeStore/Net/NetworkBinaryStream.cs:299-311 | the four stored bytes of an `int`, read as an unsigned little-endian number, are the value modulo 2^32 |
| LittleEndian.Int64ToBytes | Source/Libraries/GSF.SortedTreeStore/Net/NetworkBinaryStream.cs:285-297 | the eight stored bytes of a `long`, read little-endian, are the value modulo 2^64 |
| LittleEndian.BytesToInt32 | Source/Libraries/GSF.SortedTreeStore/Net/NetworkBinaryStream.cs:397-409 | the `int` loaded from four bytes agrees modulo 2^32 with their little-endian value |
| LittleEndian.BytesToInt64 | Source/Libraries/GSF.SortedTreeStore/Net/NetworkBinaryStream.cs:411-423 | the `long` loaded from eight bytes agrees modulo 2^64 with their little-endian value |
| LittleEndian.LeValueOfLeBytes | Source/Libraries/GSF.SortedTreeStore/Net/NetworkBinaryStream.cs:285-311 | the n little-endian bytes of any number below 256^n read back as that number |
| LittleEndian.LeBytesOfLeValue | Source/Libraries/GSF.SortedTreeStore/Net/NetworkBinaryStream.cs:397-423 | any byte sequence is the little-endian encoding of its own value, so decoding is injective |
| LittleEndian.Int32RoundTrip | Source/Libraries/GSF.SortedTreeStore/Net/NetworkBinaryStream.cs:299-311 | reading an `int` from bytes that start with its stored form gives the `int` back, whatever follows |
| LittleEndian.Int64RoundTrip | Source/Libraries/GSF.SortedTreeStore/Net/NetworkBinaryStream.cs:285-297 | reading a `long` from bytes that start with its stored form gives the `long` back, whatever follows |
| LittleEndian.Int32BytesRoundTrip | Source/Libraries/GSF.SortedTreeStore/Net/NetworkBinaryStream.cs:397-409 | storing the `int` loaded from four bytes reproduces exactly those four bytes |
| LittleEndian.Int64BytesRoundTrip | Source/Libraries/GSF.SortedTreeStore/Net/NetworkBinaryStream.cs:411-423 | storing the `long` loaded from eight bytes reproduces exactly those eight bytes |
| LittleEndian.Int32OfPrefix | Source/Libraries/GSF.SortedTreeStore/Net/NetworkBinaryStream.cs:397-409 | bytes that begin with the stored form of `x` decode to `x` |
| LittleEndian.Int64OfPrefix | Source/Libraries/GSF.SortedTreeStore/Net/NetworkBinaryStream.cs:411-423 | bytes that begin with the stored form of `x` decode to `x` |
| SevenBit.Encode7Bit | Source/Libraries/GSF.SortedTreeStore/Net/NetworkBinaryStream.cs:321-378 | the writer emits between one and nine bytes |
| SevenBit.Read7Bit | Source/Libraries/GSF.SortedTreeStore/Net/NetworkBinaryStream.cs:431-485 | the reader's cascade consumes between one and nine bytes |
| SevenBit.DecodeAt | Source/Libraries/GSF.SortedTreeStore/Net/NetworkBinaryStream.cs:431-485 | the reference decoder from byte i consumes at least one byte and never runs past the ninth |
| SevenBit.DecodeAtLength | Source/Libraries/GSF.SortedTreeStore/Net/NetworkBinaryStream.cs:431-485 | the decoded length runs exactly over the flagged bytes up to the first byte without the flag, or up to the ninth byte |
| SevenBit.Read7BitIsDecodeAt | Source/Libraries/GSF.SortedTreeStore/Net/NetworkBinaryStream.cs:431-485 | the XOR cascade, with its masks 0x80 … 0x102040810204080, computes the same value and length as the group-by-group decoder on every input |
| SevenBit.Read7BitRoundTrip | Source/Libraries/GSF.SortedTreeStore/Net/NetworkBinaryStream.cs:313-487 | decoding the writer's bytes for any `v`, followed by anything, gives `v` and the number of bytes written |
| SevenBit.Read7BitOfPrefix | Source/Libraries/GSF.SortedTreeStore/Net/NetworkBinaryStream.cs:313-487 | nine or more bytes that begin with the encoding of `v` decode to `v` and that encoding's length |
| SevenBit.DecodeAtRoundTrip | Source/Libraries/GSF.SortedTreeStore/Net/NetworkBinaryStream.cs:313-487 | the reference decoder also inverts the writer |
| SevenBit.DecodeAtOfPrefix | Source/Libraries/GSF.SortedTreeStore/Net/NetworkBinaryStream.cs:313-487 | the reference decoder reads `v` back from any bytes that begin with its encoding |
| SevenBit.Encode7BitLength | Source/Libraries/GSF.SortedTreeStore/Net/NetworkBinaryStream.cs:321-378 | the length k is minimal: 128^(k-1) <= v unless k = 1, and v < 128^k unless k = 9 |
| SevenBit.Encode7BitShape | Source/Libraries/GSF.SortedTreeStore/Net/NetworkBinaryStream.cs:323-377 | every byte but the last has bit 7 set; for lengths 1 to 8 the last byte has it clear; for length 9 the last byte is `v >> 56` unmasked |
| Net.SocketStream.Write | Source/Libraries/GSF.SortedTreeStore/Net/NetworkBinaryStream.cs:172 | the socket's stream appends the given range to what it has sent |
| Net.SocketStream.Read | Source/Libraries/GSF.SortedTreeStore/Net/NetworkBinaryStream.cs:222 | a socket read delivers a prefix of the waiting bytes into the buffer range; it delivers 0 bytes exactly when nothing is waiting |
| Net.NetworkBinaryStream.Open | Source/Libraries/GSF.SortedTreeStore/Net/NetworkBinaryStream.cs:48-66 | a big-endian processor is refused; otherwise the stream has empty buffers of 1420 bytes, nothing buffered and nothing pending beyond the socket's bytes |
| Net.NetworkBinaryStream.Create | Source/Libraries/GSF.SortedTreeStore/Net/NetworkBinaryStream.cs:57-66 | the allocating half of `Open`: two fresh 1420-byte buffers over the given socket, with the send length, receive position and receive length all zero |
| Net.NetworkBinaryStream.Flush | Source/Libraries/GSF.SortedTreeStore/Net/NetworkBinaryStream.cs:164-179 | with nothing buffered, nothing is sent; otherwise exactly the buffered bytes are sent, in order, and the buffer is emptied; `Output()` and the receive side are unchanged |
| Net.NetworkBinaryStream.WriteUInt8 | Source/Libraries/GSF.SortedTreeStore/Net/NetworkBinaryStream.cs:274-283 | with room in the buffer, the byte is appended to `Output()` and `sendLength` grows by 1 |
| Net.NetworkBinaryStream.WriteInt32 | Source/Libraries/GSF.SortedTreeStore/Net/NetworkBinaryStream.cs:299-311 | with four bytes of room, the `int`'s little-endian bytes are appended to `Output()` and `sendLength` grows by 4 |
| Net.NetworkBinaryStream.WriteInt64 | Source/Libraries/GSF.SortedTreeStore/Net/NetworkBinaryStream.cs:285-297 | with eight bytes of room, the `long`'s little-endian bytes are appended to `Output()` and `sendLength` grows by 8 |
| Net.NetworkBinaryStream.Write7Bit | Source/Libraries/GSF.SortedTreeStore/Net/NetworkBinaryStream.cs:313-384 | with nine bytes of room, the varint encoding is appended to `Output()` and `sendLength` grows by its minimal length |
| Net.NetworkBinaryStream.Write | Source/Libraries/GSF.SortedTreeStore/Net/NetworkBinaryStream.cs:489-512 | the range is appended to `Output()` in order; more than 100 bytes leave the send buffer empty, the bytes having been sent after a flush; a range that does not fit is buffered after a flush; otherwise it is only buffered |
| Net.NetworkBinaryStream.ReadUInt8 | Source/Libraries/GSF.SortedTreeStore/Net/NetworkBinaryStream.cs:386-395 | with a buffered byte, the first pending byte is returned and consumed |
| Net.NetworkBinaryStream.ReadInt32 | Source/Libraries/GSF.SortedTreeStore/Net/NetworkBinaryStream.cs:397-409 | with four buffered bytes, exactly the stored form of the result is consumed from `Pending()`; when the window begins with the stored form of some `x`, the result is `x` |
| Net.NetworkBinaryStream.ReadInt64 | Source/Libraries/GSF.SortedTreeStore/Net/NetworkBinaryStream.cs:411-423 | with eight buffered bytes, exactly the stored form of the result is consumed; when the window begins with the stored form of some `x`, the result is `x` |
| Net.NetworkBinaryStream.Read7BitUInt64 | Source/Libraries/GSF.SortedTreeStore/Net/NetworkBinaryStream.cs:425-487 | with nine buffered bytes, the result and the advance of `receivePosition` are what the reference decoder finds; when the window begins with the writer's bytes for some `v`, the result is `v` and exactly those bytes are consumed |
| Net.NetworkBinaryStream.ReadBuffered | Source/Libraries/GSF.SortedTreeStore/Net/NetworkBinaryStream.cs:194-199 | a request the window covers is copied out of the window, which then starts `count` bytes later |
| Net.NetworkBinaryStream.ReceiveDirect | Source/Libraries/GSF.SortedTreeStore/Net/NetworkBinaryStream.cs:217-235 | the direct loop puts the next `count` socket bytes into the buffer range, or ends the stream exactly when fewer are waiting |
| Net.NetworkBinaryStream.Prebuffer | Source/Libraries/GSF.SortedTreeStore/Net/NetworkBinaryStream.cs:242-258 | the fill loop leaves at least `count` socket bytes, in order, at the start of the receive buffer, or ends the stream exactly when fewer are waiting |
| Net.NetworkBinaryStream.Receive | Source/Libraries/GSF.SortedTreeStore/Net/NetworkBinaryStream.cs:214-262 | with an empty window, the next `count` socket bytes reach the buffer range, and any surplus read into the receive buffer becomes the new window |
| Net.NetworkBinaryStream.ReadThrough | Source/Libraries/GSF.SortedTreeStore/Net/NetworkBinaryStream.cs:200-262 | a request beyond the window gets the whole window followed by the next socket bytes |
| Net.NetworkBinaryStream.Read | Source/Libraries/GSF.SortedTreeStore/Net/NetworkBinaryStream.cs:186-264 | `count <= 0` returns 0 and changes nothing; otherwise the stream ends exactly when fewer than `count` bytes are pending; if it does not end, the result is `count`, the buffer range holds the first `count` pending bytes, the rest stays pending, and the index invariant holds |
| StorageFile.IndexOf | Source/Libraries/openHistorian.Core/StorageSystem/File/FileSystemSnapshotService.cs:147 | the first position at which the element occurs |
| StorageFile.RemoveFirst | Source/Libraries/openHistorian.Core/StorageSystem/File/FileSystemSnapshotService.cs:147 | list removal leaves the list unchanged when the element is absent and otherwise shortens it by one |
| StorageFile.RemoveFirstAtIndex | Source/Libraries/openHistorian.Core/StorageSystem/File/FileSystemSnapshotService.cs:147 | removal takes out exactly the element at its first occurrence and keeps the others in order |
| StorageFile.RemoveFirstMultiset | Source/Libraries/openHistorian.Core/StorageSystem/File/FileSystemSnapshotService.cs:147 | removal takes away one occurrence of the element, if any, and nothing else |
| StorageFile.RemoveFirstDistinct | Source/Libraries/openHistorian.Core/StorageSystem/File/FileSystemSnapshotService.cs:137-148 | from a list without repeats, which the live reads always are because each read added is new, removal takes the element out entirely and leaves a list without repeats |
| StorageFile.FileSystemSnapshotService.Open | Source/Libraries/openHistorian.Core/StorageSystem/File/FileSystemSnapshotService.cs:79-84 | opening publishes the table committed on disk, with no edit, a free slot and no reads |
| StorageFile.FileSystemSnapshotService.Create | Source/Libraries/openHistorian.Core/StorageSystem/File/FileSystemSnapshotService.cs:90-96 | creating writes a first table to disk and publishes it |
| StorageFile.FileSystemSnapshotService.BeginEditTransaction | Source/Libraries/openHistorian.Core/StorageSystem/File/FileSystemSnapshotService.cs:116-131 | a read-only file is refused before the slot is tried and nothing changes; a timed-out slot gives null and nothing changes; entering the slot while an edit is open is an error; otherwise a fresh edit over the published table becomes current and holds the slot |
| StorageFile.FileSystemSnapshotService.BeginReadTransaction | Source/Libraries/openHistorian.Core/StorageSystem/File/FileSystemSnapshotService.cs:137-143 | always succeeds: a fresh read captures the published table and is appended to the live reads |
| StorageFile.FileSystemSnapshotService.OnReadTransactionDisposed | Source/Libraries/openHistorian.Core/StorageSystem/File/FileSystemSnapshotService.cs:145-148 | the disposed read's first occurrence leaves the live reads, the read is no longer live afterwards, and nothing else changes |
| StorageFile.FileSystemSnapshotService.OnEditTransactionDisposed | Source/Libraries/openHistorian.Core/StorageSystem/File/FileSystemSnapshotService.cs:150-156 | a sender other than the open edit is an error and changes nothing; otherwise the edit is cleared and the slot released |
| StorageFile.FileSystemSnapshotService.OnTransactionCommitted | Source/Libraries/openHistorian.Core/StorageSystem/File/FileSystemSnapshotService.cs:158-163 | a sender other than the open edit is an error and changes nothing; otherwise the published table becomes the one last committed to disk, while the live reads and their tables stay as they were |
| StorageFile.FileSystemSnapshotService.OnTransactionRolledBack | Source/Libraries/openHistorian.Core/StorageSystem/File/FileSystemSnapshotService.cs:165-169 | a sender other than the open edit is an error; a rollback changes nothing |
| StorageFile.FileSystemSnapshotService.Dispose | Source/Libraries/openHistorian.Core/StorageSystem/File/FileSystemSnapshotService.cs:184-204 | afterwards the service is disposed and has no disk; the disk has been disposed exactly once however often this is called, and a repeated call changes nothing |
| ComparisonUtility.DataPoint.constructor | Source/Tools/ComparisonUtility/DataPoint.cs:8-11 | a new point holds four zeros |
| ComparisonUtility.DataPoint.IsEmpty | Source/Tools/ComparisonUtility/DataPoint.cs:26 | a point is empty exactly when its four fields are all zero |
| ComparisonUtility.DataPoint.Clear | Source/Tools/ComparisonUtility/DataPoint.cs:29-35 | afterwards all four fields are zero, so the point is empty |
| ComparisonUtility.DataPoint.CloneInto | Source/Tools/ComparisonUtility/DataPoint.cs:38-44 | the target's four fields become this point's, and this point keeps its own |
| ComparisonUtility.DataPoint.Clone | Source/Tools/ComparisonUtility/DataPoint.cs:47-52 | the result is a newly allocated point, distinct from this one, with equal fields |

## Left out

- Socket plumbing is not modelled. This covers `Timeout`, `AvailableReadBytes`, `Connected`, socket options, the worker-thread synchronisation regions around each socket call, `Disconnect` and `Dispose(bool)` of the stream. It is I/O and thread coordination.
- The `BinaryStreamBase` fallbacks are not part of this model. `BinaryStreamBase` is defined outside the modelled files.
- Net.NetworkBinaryStream.WriteUInt8: modelled on its fast path only; its guard (room for one byte) is a precondition, because the fallback goes into `BinaryStreamBase`, which is defined outside the modelled files.
- Net.NetworkBinaryStream.WriteInt32: modelled on its fast path only; its guard (four bytes of room) is a precondition, because the fallback goes into `BinaryStreamBase`, which is defined outside the modelled files.
- Net.NetworkBinaryStream.WriteInt64: modelled on its fast path only; its guard (eight bytes of room) is a precondition, because the fallback goes into `BinaryStreamBase`, which is defined outside the modelled files.
- Net.NetworkBinaryStream.Write7Bit: modelled on its fast path only; its guard (nine bytes of room) is a precondition, because the fallback goes into `BinaryStreamBase`, which is defined outside the modelled files.
- Net.NetworkBinaryStream.ReadUInt8: modelled on its fast path only; its guard (one buffered byte) is a precondition, because the fallback goes into `BinaryStreamBase`, which is defined outside the modelled files.
- Net.NetworkBinaryStream.ReadInt32: modelled on its fast path only; its guard (four buffered bytes) is a precondition, because the fallback goes into `BinaryStreamBase`, which is defined outside the modelled files.
- Net.NetworkBinaryStream.ReadInt64: modelled on its fast path only; its guard (eight buffered bytes) is a precondition, because the fallback goes into `BinaryStreamBase`, which is defined outside the modelled files.
- Net.NetworkBinaryStream.Read7BitUInt64: modelled on its fast path only; its guard (nine buffered bytes) is a precondition, because the fallback goes into `BinaryStreamBase`, which is defined outside the modelled files.
- Net.NetworkBinaryStream.Read: after an end of stream the model promises only the buffer sizes and index bounds, not the window invariant. The source raises `EndOfStreamException` there and leaves the receive indices half updated.
- Net.NetworkBinaryStream.Read: the model requires the destination to be distinct from both stream buffers. The stream's own buffers are private, so no caller can pass them. For `count > 0` the model also requires a valid range (`0 <= offset`, `offset + count <= buffer.Length`). The source leaves this validation to `Array.Copy` (cs:196, cs:205, cs:260) and the socket's `Read` (cs:222), which throw `ArgumentException` or `ArgumentOutOfRangeException`, on the prebuffer path only after the socket has been read. These failure paths are not modelled.
- Net.NetworkBinaryStream.Write: the model requires a valid range (`0 <= offset`, `0 <= count`, `offset + count <= buffer.Length`) and a source other than the send buffer. The source leaves this validation to `Array.Copy` (cs:509) and to the socket's `Write` (cs:500), which throw `ArgumentException` or `ArgumentOutOfRangeException`. These failure paths are not modelled.
- Net.SocketStream.Read chooses how many bytes arrive nondeterministically, which covers any timing of the network. Timeouts and I/O errors are not modelled.
- No check for a tenth varint byte exists in the source, and the decoder never reads one. There is nothing to model there.
- The processor's byte order is a parameter of `Net.NetworkBinaryStream.Open`. The query itself is left out because it is a property of the machine.
- The service's monitor reentrancy and its threads are not modelled. Only the slot flag is kept, and `acquired` stands for the result of `TryEnter` with the given timeout. The model does not tie `acquired` to `slotHeld`, so it does not capture which thread holds the monitor.
- An observation about the source that follows from reading it and was not executed. `BeginEditTransaction` throws "A transaction has already been started" after a reentrant `Monitor.TryEnter` has succeeded (FileSystemSnapshotService.cs:119-122), and it does not call `Monitor.Exit`. `OnEditTransactionDisposed` (cs:150-156) exits the monitor only once. The calling thread therefore keeps holding the monitor, and every later `BeginEditTransaction` on another thread times out. The model's `AlreadyStarted` outcome leaves `slotHeld` set, which records this, but without threads it has no further consequence.
- `DiskIOUnbuffered`, the creation and reading of the file allocation table, and the internals of `TransactionalEdit` and `TransactionalRead` are not part of this model. The disk is an object holding its mode, its last committed table and a dispose count, and a transaction holds the table it began with.
- StorageFile.FileSystemSnapshotService.BeginEditTransaction and OnTransactionCommitted report `DiskClosed` after `Dispose`. In the source, the first fails on the null disk with a null-reference exception, and the second would hand a null disk to `FileAllocationTable.OpenHeader`, which is defined outside the modelled files.
- The event wiring (`HasBeenCommitted`, `HasBeenRolledBack`, `HasBeenDisposed`) is left out. The handlers are methods that take the sender.
- The service's finalizer and the GC are left out, and so is the parameterless `Dispose()`, which calls `Dispose(true)` and then `GC.SuppressFinalize(this)`. Page reclamation is mentioned in a class comment, but no code implements it.
- `DataPoint.ValueAsSingle`, `RoundTimestamp` and `CompareTimestamps` are left out. They delegate to `BitMath` and `Ticks`, which are defined outside the modelled files.
- ComparisonUtility.DataPoint.CloneInto is the `Clone(DataPoint)` overload. Dafny has no overloading.
- The benchmark and test harnesses (`SortedTree256CompareTest`, `SortedListConstructor_Test`) and the `SortedTreeUInt32` type wrapper are left out. They depend on tree types defined outside the modelled files and have no behaviour of their own to state.
