/** NativeSocket: the Java side of a socket whose operations are native calls.
    What the Java code itself decides is modelled here: how a socket address is
    read back from the kernel, which native entry point a ByteBuffer transfer
    goes through and with which arguments, and how the buffer's position moves
    afterwards. */
module NativeSockets {
  import opened Wrappers
  import opened JavaLang
  import opened AddressCodec
  import opened Buffers
  import opened Syscalls

  /** An SSL context, known here only by identity. */
  datatype SslContext = SslContext(id: nat)

  /** A typed SSL option key, known here only by name. */
  datatype SslOption = SslOption(name: string)

  /** The bytes in the sockaddr array after a native call: what the call wrote,
      or the zero-filled array as allocated when the call wrote nothing. */
  function RecordOf(rep: Reply): Record {
    if rep.Returned? then rep.record else EmptyRecord
  }

  /** read(ByteBuffer) / write(ByteBuffer) after the single-shot native call:
      `buf.position(buf.position() + bytes); return bytes;`, with no check that
      `bytes` is positive. */
  function AfterTransfer(c: Cursor, rep: Reply): (out: (Result<int32, Exception>, Cursor))
    requires c.Valid()
    ensures out.1.Valid()
    ensures rep.Threw? ==> out == (Failure(IOException(rep.errno)), c)
    ensures rep.Returned? ==> (out.0.Success? <==> 0 <= c.position + rep.count <= c.limit)
    ensures rep.Returned? && out.0.Success? ==>
      && out.0.value == rep.count
      && out.1.position == c.position + rep.count
      && out.1.limit == c.limit && out.1.capacity == c.capacity
      && out.1.mark == (if c.mark > c.position + rep.count then -1 else c.mark)
    ensures rep.Returned? && out.0.Failure? ==> out == (Failure(IllegalArgument), c)
    ensures rep.Returned? && 0 <= rep.count <= c.Remaining() ==>
      out == (Success(rep.count), c.(position := c.position + rep.count))
  {
    match rep
    case Threw(e) => (Failure(IOException(e)), c)
    case Returned(bytes, _) =>
      AdvanceExact(c, bytes);
      match Advance(c, bytes)
      case Failure(e) => (Failure(e), c)
      case Success(moved) => (Success(bytes), moved)
  }

  /** send after the native sendTo: the position moves only when the result is
      positive, and the result is returned as it is. */
  function AfterSend(c: Cursor, rep: Reply): (out: (Result<int32, Exception>, Cursor))
    requires c.Valid()
    ensures out.1.Valid()
    ensures rep.Threw? ==> out == (Failure(IOException(rep.errno)), c)
    ensures rep.Returned? && rep.count <= 0 ==> out == (Success(rep.count), c)
    ensures rep.Returned? && 0 < rep.count ==> (out.0.Success? <==> c.position + rep.count <= c.limit)
    ensures rep.Returned? && out.0.Failure? ==> out == (Failure(IllegalArgument), c)
    ensures rep.Returned? && 0 < rep.count && out.0.Success? ==>
      out == (Success(rep.count), c.(position := c.position + rep.count))
  {
    match rep
    case Threw(e) => (Failure(IOException(e)), c)
    case Returned(result, _) =>
      if result > 0 then
        AdvanceExact(c, result);
        match Advance(c, result)
        case Failure(e) => (Failure(e), c)
        case Success(moved) => (Success(result), moved)
      else (Success(result), c)
  }

  /** recv after the native recvFrom: no data (a result <= 0) gives null and
      leaves the position alone; otherwise the position moves by the result and
      the sender is decoded from the sockaddr array, which may itself give null. */
  function AfterRecv(c: Cursor, rep: Reply, getByAddress: seq<int8> -> Option<InetAddress>)
    : (out: (Result<Option<InetSocketAddress>, Exception>, Cursor))
    requires c.Valid()
    ensures out.1.Valid()
    ensures rep.Threw? ==> out == (Failure(IOException(rep.errno)), c)
    ensures rep.Returned? && rep.count <= 0 ==> out == (Success(None), c)
    ensures rep.Returned? && 0 < rep.count ==> (out.0.Success? <==> c.position + rep.count <= c.limit)
    ensures rep.Returned? && out.0.Failure? ==> out == (Failure(IllegalArgument), c)
    ensures rep.Returned? && 0 < rep.count && out.0.Success? ==>
      out == (Success(MakeAddress(rep.record, getByAddress)), c.(position := c.position + rep.count))
  {
    match rep
    case Threw(e) => (Failure(IOException(e)), c)
    case Returned(result, sockaddr) =>
      if result <= 0 then (Success(None), c)
      else
        AdvanceExact(c, result);
        match Advance(c, result)
        case Failure(e) => (Failure(e), c)
        case Success(moved) => (Success(MakeAddress(sockaddr, getByAddress)), moved)
  }

  /** A 10-byte write that the kernel accepts as 4 bytes and then 6: the
      position moves by 4, then by 6, and nothing remains. */
  lemma ExampleWriteInTwoChunks(start: Cursor, first: Record, second: Record)
    requires start == Cursor(-1, 0, 10, 10)
    ensures var (r1, c1) := AfterTransfer(start, Returned(4, first));
      && r1 == Success(4) && c1.position == 4 && c1.Remaining() == 6
      && var (r2, c2) := AfterTransfer(c1, Returned(6, second));
      r2 == Success(6) && c2.position == 10 && c2.Remaining() == 0
  {
  }

  class NativeSocket {
    /** The OS handle; negative once closed. */
    var fd: int32
    /** The native layer this socket calls into. */
    const kernel: Kernel
    /** InetAddress.getByAddress, taken as given; None stands for UnknownHostException. */
    const getByAddress: seq<int8> -> Option<InetAddress>

    /** NativeSocket(int fd). */
    constructor (fd: int32, kernel: Kernel, getByAddress: seq<int8> -> Option<InetAddress>)
      ensures this.fd == fd && this.kernel == kernel && this.getByAddress == getByAddress
    {
      this.fd := fd;
      this.kernel := kernel;
      this.getByAddress := getByAddress;
    }

    function IsOpen(): (open: bool)
      reads this
      ensures open <==> fd >= 0
    {
      fd >= 0
    }

    /** A plain socket is its own unwrapped form. */
    function SslUnwrap(): (s: NativeSocket)
      ensures s == this
    {
      this
    }

    function GetSslContext(): (ctx: Option<SslContext>)
      ensures ctx.None?
    {
      None
    }

    function GetSslOption<T>(option: SslOption): (value: Option<T>)
      ensures value.None?
    {
      None
    }

    method GetLocalAddress() returns (r: Option<InetSocketAddress>)
      modifies kernel`log
      ensures kernel.log == old(kernel.log) + [GetSockName(fd)]
      ensures r == MakeAddress(RecordOf(kernel.LastReply()), getByAddress)
    {
      var rep := kernel.Invoke(GetSockName(fd));
      r := MakeAddress(RecordOf(rep), getByAddress);
    }

    method GetRemoteAddress() returns (r: Option<InetSocketAddress>)
      modifies kernel`log
      ensures kernel.log == old(kernel.log) + [GetPeerName(fd)]
      ensures r == MakeAddress(RecordOf(kernel.LastReply()), getByAddress)
    {
      var rep := kernel.Invoke(GetPeerName(fd));
      r := MakeAddress(RecordOf(rep), getByAddress);
    }

    /** read(ByteBuffer): one native read into the remaining part of the buffer,
        through its array when it has one and through its address otherwise. */
    method Read(dst: ByteBuffer) returns (r: Result<int32, Exception>)
      requires dst.Valid()
      modifies kernel`log, dst`mark, dst`position
      ensures dst.Valid()
      ensures dst.hasArray ==>
        kernel.log == old(kernel.log) + [ReadArray(fd, dst.arrayOffset + old(dst.position), old(dst.Remaining()), 0)]
      ensures !dst.hasArray ==>
        kernel.log == old(kernel.log) + [ReadRaw(fd, dst.address + old(dst.position), old(dst.Remaining()), 0)]
      ensures (r, dst.State()) == AfterTransfer(old(dst.State()), kernel.LastReply())
    {
      var rep;
      if dst.hasArray {
        rep := kernel.Invoke(ReadArray(fd, dst.arrayOffset + dst.position, dst.Remaining(), 0));
      } else {
        rep := kernel.Invoke(ReadRaw(fd, dst.address + dst.position, dst.Remaining(), 0));
      }
      r := Complete(dst, rep);
    }

    /** write(ByteBuffer): the same dispatch as read, in the other direction. */
    method Write(src: ByteBuffer) returns (r: Result<int32, Exception>)
      requires src.Valid()
      modifies kernel`log, src`mark, src`position
      ensures src.Valid()
      ensures src.hasArray ==>
        kernel.log == old(kernel.log) + [WriteArray(fd, src.arrayOffset + old(src.position), old(src.Remaining()), 0)]
      ensures !src.hasArray ==>
        kernel.log == old(kernel.log) + [WriteRaw(fd, src.address + old(src.position), old(src.Remaining()), 0)]
      ensures (r, src.State()) == AfterTransfer(old(src.State()), kernel.LastReply())
    {
      var rep;
      if src.hasArray {
        rep := kernel.Invoke(WriteArray(fd, src.arrayOffset + src.position, src.Remaining(), 0));
      } else {
        rep := kernel.Invoke(WriteRaw(fd, src.address + src.position, src.Remaining(), 0));
      }
      r := Complete(src, rep);
    }

    /** The common tail of read and write: `buf.position(buf.position() + bytes)`. */
    static method Complete(buf: ByteBuffer, rep: Reply) returns (r: Result<int32, Exception>)
      requires buf.Valid()
      modifies buf`mark, buf`position
      ensures buf.Valid()
      ensures (r, buf.State()) == AfterTransfer(old(buf.State()), rep)
    {
      match rep {
        case Threw(e) =>
          r := Failure(IOException(e));
        case Returned(bytes, _) =>
          var moved := buf.Position(Wrap32(buf.position + bytes));
          r := if moved.Pass? then Success(bytes) else Failure(moved.error);
      }
    }

    /** send: datagram to a peer, direct buffers only. */
    method Send(data: ByteBuffer, flags: int32, address: InetAddress, port: int32)
      returns (r: Result<int32, Exception>)
      requires data.Valid()
      modifies kernel`log, data`mark, data`position
      ensures data.Valid()
      ensures !data.isDirect ==>
        r == Failure(UnsupportedOperation) && kernel.log == old(kernel.log) && data.State() == old(data.State())
      ensures data.isDirect ==>
        && kernel.log == old(kernel.log) + [SendTo(fd, data.address + old(data.position), old(data.Remaining()), flags, address.bytes, port)]
        && (r, data.State()) == AfterSend(old(data.State()), kernel.LastReply())
    {
      if !data.isDirect {
        return Failure(UnsupportedOperation);
      }
      var bufAddress := data.address + data.position;
      var rep := kernel.Invoke(SendTo(fd, bufAddress, data.Remaining(), flags, address.bytes, port));
      match rep {
        case Threw(e) =>
          r := Failure(IOException(e));
        case Returned(result, _) =>
          if result > 0 {
            var moved := data.Position(Wrap32(data.position + result));
            r := if moved.Pass? then Success(result) else Failure(moved.error);
          } else {
            r := Success(result);
          }
      }
    }

    /** recv: datagram from a peer, direct buffers only; returns the sender. */
    method Recv(buffer: ByteBuffer, flags: int32) returns (r: Result<Option<InetSocketAddress>, Exception>)
      requires buffer.Valid()
      modifies kernel`log, buffer`mark, buffer`position
      ensures buffer.Valid()
      ensures !buffer.isDirect ==>
        r == Failure(UnsupportedOperation) && kernel.log == old(kernel.log) && buffer.State() == old(buffer.State())
      ensures buffer.isDirect ==>
        && kernel.log == old(kernel.log) + [RecvFrom(fd, buffer.address + old(buffer.position), old(buffer.Remaining()), flags)]
        && (r, buffer.State()) == AfterRecv(old(buffer.State()), kernel.LastReply(), getByAddress)
    {
      if !buffer.isDirect {
        return Failure(UnsupportedOperation);
      }
      var bufAddress := buffer.address + buffer.position;
      var rep := kernel.Invoke(RecvFrom(fd, bufAddress, buffer.Remaining(), flags));
      match rep {
        case Threw(e) =>
          r := Failure(IOException(e));
        case Returned(result, sockaddr) =>
          if result <= 0 {
            return Success(None);
          }
          var moved := buffer.Position(Wrap32(buffer.position + result));
          if moved.Fail? {
            return Failure(moved.error);
          }
          r := Success(MakeAddress(sockaddr, getByAddress));
      }
    }
  }
}
