# NativeSocket: a Dafny model of one-nio's native socket glue

`one.nio.net.NativeSocket` is a socket whose operations are almost all `native`
methods. The Java code that remains decides three things, and this project
models and proves them:

1. **Reading a socket address back from the kernel** (`makeAddress`,
   `getLocalAddress`, `getRemoteAddress`). The native layer fills a 25-byte
   record. Byte 0 is a size tag: 8 for IPv4 and 24 for IPv6. Bytes 1-24 are a
   POSIX `sockaddr_in`/`sockaddr_in6` without its scope id. The port is in
   bytes 3-4, big-endian. The address is at bytes 5-8 (IPv4) or 9-24 (IPv6).
   Any other tag means "no address" (null). The model adds the encoder the
   native side implies and proves the round trip in both directions.
2. **Dispatching a ByteBuffer transfer** (`read(ByteBuffer)`,
   `write(ByteBuffer)`, `send`, `recv`). Each method picks the array entry
   point or the raw-address entry point, makes one native call, and then moves
   the buffer's position.
3. **Plain-socket facts**: `isOpen` is `fd >= 0`. `sslUnwrap` returns the
   socket itself. A plain socket has no SSL context and no SSL option values.

Modules, one per file:

- `Wrappers` (wrappers.dfy): `Option` stands for a nullable reference,
  `Result` for a call that returns or throws, `Outcome` for a void call that
  may throw.
- `JavaLang` (java_lang.dfy): Java's `byte` and `int`, `& 0xff`, the
  `(byte)` cast, `int` overflow, and the exceptions on the modelled paths.
- `AddressCodec` (address_codec.dfy): the record, its decoder and encoder, and
  `makeAddress`.
- `Buffers` (byte_buffer.dfy): the ByteBuffer cursor (mark, position, limit,
  capacity) and `Buffer.position(int)`, as a value `Cursor` and as the class
  `ByteBuffer` whose methods update it in place.
- `Syscalls` (syscalls.dfy): the native layer as a `Kernel` object. It logs
  every call with its arguments and answers the i-th call from an oracle
  `respond`. The model assumes nothing about the answers: any count, any
  record, or an `IOException`.
- `NativeSockets` (native_socket.dfy): the `NativeSocket` class. It has the
  mutable `fd` and the transfer methods, plus the pure functions
  `AfterTransfer`, `AfterSend` and `AfterRecv`. These functions state what
  each transfer does to the buffer after the native call returns.

Points where the model follows the code and not a looser reading of it:

- `read(ByteBuffer)` and `write(ByteBuffer)` move the position by whatever
  count the native call returns, with no `> 0` guard. If the new position is
  outside `0..limit`, `Buffer.position(int)` throws `IllegalArgumentException`.
  The buffer then keeps its old position and mark.
- `send` moves the position only for a positive result. It returns the result
  unchanged, including zero and negative values.
- `recv` returns null for a result `<= 0`. Otherwise it returns the decoded
  sender, which may itself be null.
- `position() + bytes` is Java `int` addition, so it can overflow.
  `JavaLang.WrapNonNegative` proves that overflow never changes the outcome:
  a sum past `Integer.MAX_VALUE` wraps to a negative number and is rejected,
  just as the unwrapped sum would be rejected for exceeding the limit.
- `read`/`write` dispatch on `hasArray()`, while `send`/`recv` dispatch on
  `isDirect()`. A read-only heap buffer has neither, so `read`/`write` send it
  down the raw-address path with whatever `DirectMemory.getAddress` reports.
  The model keeps this behaviour as written.
- `InetAddress.getByAddress` is library code. Each socket holds it as the
  function `getByAddress`, which is given and may fail (`None`). A failure
  turns into null, as the `catch` does. `AddressCodec.KeepsBytes` names the
  case where the library keeps the bytes it is given. The JDK does not do this
  for IPv4-mapped IPv6 addresses, which it turns into 4-byte addresses. So the
  round trip through `makeAddress` is proved under that assumption, while the
  round trip of the record itself (`DecodeEncode`, `EncodeDecode`) needs no
  assumption.

## Model

| member | source | states |
|---|---|---|
| `JavaLang.Unsigned` | src/one/nio/net/NativeSocket.java:82 | `b & 0xff` is the unsigned value of the byte: itself when non-negative, `b + 256` otherwise, always in 0..255 |
| `JavaLang.WrapNonNegative` | src/one/nio/net/NativeSocket.java:188 | for a non-negative `int` position and any `int` count, the wrapped sum is in 0..MAX_INT exactly when the true sum is, and then they are equal |
| `AddressCodec.PortOf` | src/one/nio/net/NativeSocket.java:82 | the port read from bytes 3-4 always lies in 0..65535 |
| `AddressCodec.PortRoundTrip` | src/one/nio/net/NativeSocket.java:82 | writing a port big-endian into two bytes and reading it back yields the port |
| `AddressCodec.PortBytesRoundTrip` | src/one/nio/net/NativeSocket.java:82 | any two bytes are the big-endian encoding of the port they decode to |
| `AddressCodec.Decode` | src/one/nio/net/NativeSocket.java:72-82 | an address is produced exactly when the tag is 8 or 24; it has 4 bytes exactly for tag 8 and 16 for tag 24, and a 16-bit port; any other tag gives none and never an error |
| `AddressCodec.DecodeIPv4` | src/one/nio/net/NativeSocket.java:74-75 | tag 8: the address is exactly bytes 5..8 and the port is `b[3]*256 + b[4]` (unsigned) |
| `AddressCodec.DecodeIPv6` | src/one/nio/net/NativeSocket.java:76-77 | tag 24: the address is exactly bytes 9..24, which end at the end of the 25-byte record |
| `AddressCodec.DecodeReadsOnlyFields` | src/one/nio/net/NativeSocket.java:72-82 | two records that agree on the tag, the port bytes and the address window decode alike: family bytes, flow info and trailing bytes are never read |
| `AddressCodec.DecodeEncode` | src/one/nio/net/NativeSocket.java:72-82 | decoding the record of any 4- or 16-byte address with a 16-bit port gives back that address and port |
| `AddressCodec.EncodeDecode` | src/one/nio/net/NativeSocket.java:72-82 | every canonical record (family, flow-info and padding bytes zero) decodes to an address whose encoding is that same record |
| `AddressCodec.EncodeAgreesWithDecoded` | src/one/nio/net/NativeSocket.java:72-82 | any decodable record, with the kernel's family and flow-info bytes, agrees with the encoding of its decoded address on tag, port bytes and address window, and decodes exactly as that encoding does |
| `AddressCodec.EncodeCanonical` | src/one/nio/net/NativeSocket.java:72-82 | every encoded record is canonical, so encoding and decoding are mutually inverse between addresses and canonical records |
| `AddressCodec.ExampleIPv4` | src/one/nio/net/NativeSocket.java:74-82 | 203.0.113.5:8443 is the record with tag 8, port bytes 0x20 0xFB and address bytes 203 0 113 5, and that record decodes back to it |
| `AddressCodec.EmptyRecordHasNoAddress` | src/one/nio/net/NativeSocket.java:78-79 | a zero-filled record, as freshly allocated, decodes to no address |
| `AddressCodec.MakeAddress` | src/one/nio/net/NativeSocket.java:84-88 | null for an undecodable record or when the address library fails; otherwise the socket address of the library's host and the decoded port |
| `AddressCodec.MakeAddressRoundTrip` | src/one/nio/net/NativeSocket.java:72-89 | with an address library that keeps its bytes, makeAddress of an encoded address is that host and port |
| `AddressCodec.MakeAddressNullIffUnknownTag` | src/one/nio/net/NativeSocket.java:72-89 | with such a library, makeAddress returns null exactly when the tag is neither 8 nor 24 |
| `Buffers.SetPosition` | src/one/nio/net/NativeSocket.java:188 | `position(p)` succeeds exactly for p in 0..limit, else IllegalArgumentException; it sets the position, keeps limit and capacity, keeps a mark at or before the new position and discards (-1) one beyond it, and keeps the buffer invariant |
| `Buffers.Advance` | src/one/nio/net/NativeSocket.java:188 | `buf.position(buf.position() + n)` with Java `int` addition: it fails only with IllegalArgumentException, and on success keeps limit, capacity and the buffer invariant |
| `Buffers.AdvanceExact` | src/one/nio/net/NativeSocket.java:188 | moving by an `int` count succeeds exactly when position + count is in 0..limit, lands there, and for a non-negative count changes nothing else |
| `Buffers.AdvanceWithinRemaining` | src/one/nio/net/NativeSocket.java:188 | a count in 0..remaining moves the position by exactly the count, changes nothing else and lowers remaining by the count |
| `Buffers.AdvanceCompose` | src/one/nio/net/NativeSocket.java:200 | moving by n and then m equals moving by n + m: split transfers leave the cursor where one transfer would |
| `Buffers.ByteBuffer.Position` | src/one/nio/net/NativeSocket.java:188 | the buffer's cursor becomes exactly what `SetPosition` gives, or stays unchanged when it throws |
| `Syscalls.Kernel.Invoke` | src/one/nio/net/NativeSocket.java:128-154 | a native call (the read/write entry points declared at lines 128, 145, 151 and 154, and getsockname, getpeername, sendTo and recvFrom declared at lines 285-288) is appended to the log with its arguments, and its answer is the oracle's answer for that position in the log |
| `NativeSockets.AfterTransfer` | src/one/nio/net/NativeSocket.java:188-189 | after a native read/write: an exception leaves the cursor as it was; a count succeeds exactly when position + count is in 0..limit, returns the count and moves the position by it, discarding a mark beyond the new position (a negative count moves backwards); a count in 0..remaining changes nothing else |
| `NativeSockets.AfterSend` | src/one/nio/net/NativeSocket.java:138-141 | a result <= 0 is returned with the cursor unchanged; a positive result moves the position by it (or throws when past the limit) and is returned unchanged |
| `NativeSockets.AfterRecv` | src/one/nio/net/NativeSocket.java:165-169 | a result <= 0 gives null with the cursor unchanged; a positive one within the limit moves the position by it and gives makeAddress of the returned record |
| `NativeSockets.ExampleWriteInTwoChunks` | src/one/nio/net/NativeSocket.java:200-201 | a 10-byte buffer written as 4 then 6 bytes returns 4, then 6, with the position at 4 and then 10 and nothing remaining |
| `NativeSockets.NativeSocket.constructor` | src/one/nio/net/NativeSocket.java:39-41 | the socket owns the given handle |
| `NativeSockets.NativeSocket.IsOpen` | src/one/nio/net/NativeSocket.java:44-45 | open exactly when the handle is non-negative |
| `NativeSockets.NativeSocket.SslUnwrap` | src/one/nio/net/NativeSocket.java:97-98 | unwrapping a plain socket gives the same object |
| `NativeSockets.NativeSocket.GetSslContext` | src/one/nio/net/NativeSocket.java:102-103 | a plain socket has no SSL context |
| `NativeSockets.NativeSocket.GetSslOption` | src/one/nio/net/NativeSocket.java:107-108 | a plain socket reports no value for any SSL option |
| `NativeSockets.NativeSocket.GetLocalAddress` | src/one/nio/net/NativeSocket.java:59-63 | exactly one getsockname on this socket's handle; the result is makeAddress of the record it left |
| `NativeSockets.NativeSocket.GetRemoteAddress` | src/one/nio/net/NativeSocket.java:66-70 | exactly one getpeername on this socket's handle; the result is makeAddress of the record it left |
| `NativeSockets.NativeSocket.Read` | src/one/nio/net/NativeSocket.java:181-190 | exactly one native read: on the array path at arrayOffset + position, otherwise at address + position, for remaining bytes with flags 0; the result and new cursor are `AfterTransfer` of the old cursor and the reply; only mark and position can change |
| `NativeSockets.NativeSocket.Write` | src/one/nio/net/NativeSocket.java:193-202 | the same as Read with the write entry points |
| `NativeSockets.NativeSocket.Complete` | src/one/nio/net/NativeSocket.java:188-189 | the shared tail of read and write moves the buffer exactly as `AfterTransfer` says |
| `NativeSockets.NativeSocket.Send` | src/one/nio/net/NativeSocket.java:131-142 | a non-direct buffer throws UnsupportedOperationException before any native call and is left unchanged; otherwise one sendTo at address + position for remaining bytes, to the peer's bytes and port, then `AfterSend` |
| `NativeSockets.NativeSocket.Recv` | src/one/nio/net/NativeSocket.java:157-170 | a non-direct buffer throws UnsupportedOperationException before any native call; otherwise one recvFrom at address + position for remaining bytes, then `AfterRecv` |

## Left out

- Native calls the modelled Java code makes (the `byte[]` read/write, `readRaw`, `writeRaw`, `sendTo`, `recvFrom`, `getsockname`, `getpeername`): OS calls with no Java logic. They appear as `Syscalls.Syscall` values answered by the kernel oracle.
- Native calls outside the modelled code (`listen`, `close`, `accept0`, `socket0/1`, `connect0/1`, `bind0/1`, `sendFile0`): not modelled.
- `readFully` / `writeFully`: native, so their retry loop is not visible here. `Buffers.AdvanceCompose` states the cursor side of splitting a transfer.
- `accept`, `acceptNonBlocking`, `connect`, `bind` and the constructor `NativeSocket(boolean datagram)` (`fd = socket0(datagram)`): one-line pass-throughs to native calls.
- Socket option getters and setters, `getOption`, `setOption`: pure native pass-throughs.
- `sslWrap`: it constructs `NativeSslSocket`, which is not part of this model.
- `sendFile`: a foreign call through `Mem.getFD` and native `sendFile0`.
- The buffer's bytes and its backing array's identity: only the cursor is modelled, and the native calls are described by their arguments.
- `InetAddress.getByAddress` and `DirectMemory.getAddress`: library code, taken as a given function and a given per-buffer address.
- `NativeSockets.NativeSocket.Read`: `arrayOffset() + position()` and `getAddress() + position()` are not wrapped. The `int` sum cannot overflow because `ByteBuffer.Valid()` requires `arrayOffset + capacity <= MAX_INT` for an array-backed buffer. The `long` address sum is taken as it is.
- `NativeSockets.NativeSocket.Write`: the same unwrapped sums, `arrayOffset() + position()` and `getAddress() + position()`, with the same reasons.
- `NativeSockets.NativeSocket.Send`: `getAddress() + position()` is a `long` sum that is not wrapped.
- `NativeSockets.NativeSocket.Recv`: `getAddress() + position()` is a `long` sum that is not wrapped.
- `NativeSockets.NativeSocket.GetLocalAddress`: assumes the native layer reports a failure by leaving the array unfilled. `getsockname` is declared without `throws`, but a native method can still raise an unchecked exception. When the kernel answers with a failure, the model decodes the zero-filled array as allocated, which gives null (`AddressCodec.EmptyRecordHasNoAddress`).
- `NativeSockets.NativeSocket.GetRemoteAddress`: makes the same assumption for `getpeername`.
- Concurrency (closing during I/O) and Unix-domain sockets.
