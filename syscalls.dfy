/** The native half of NativeSocket, seen from Java: each `native` method is a
    call into the operating system whose answer the Java code cannot predict.
    The kernel is modelled as a log of the calls made so far and an oracle that
    answers the i-th call; nothing is assumed about its answers. */
module Syscalls {
  import opened JavaLang
  import opened AddressCodec

  /** One native call with its arguments; `fd` is the socket's own handle. */
  datatype Syscall =
    | ReadArray(fd: int, offset: int, count: int, flags: int)     // read(byte[], int, int, int)
    | ReadRaw(fd: int, buf: int, count: int, flags: int)          // readRaw(long, int, int)
    | WriteArray(fd: int, offset: int, count: int, flags: int)    // write(byte[], int, int, int)
    | WriteRaw(fd: int, buf: int, count: int, flags: int)         // writeRaw(long, int, int)
    | SendTo(fd: int, buf: int, size: int, flags: int, address: seq<int8>, port: int)
    | RecvFrom(fd: int, buf: int, maxSize: int, flags: int)
    | GetSockName(fd: int)
    | GetPeerName(fd: int)

  /** The answer to a call: the `int` it returns together with the bytes it
      left in the sockaddr array (only recvFrom, getsockname and getpeername
      have one), or the IOException it throws. */
  datatype Reply =
    | Returned(count: int32, record: Record)
    | Threw(errno: int)

  class Kernel {
    var log: seq<Syscall>
    const respond: (nat, Syscall) -> Reply

    constructor (respond: (nat, Syscall) -> Reply)
      ensures log == [] && this.respond == respond
    {
      log := [];
      this.respond := respond;
    }

    /** The answer the next call `c` will get. */
    function Next(c: Syscall): Reply
      reads this
    {
      respond(|log|, c)
    }

    /** The answer the most recent call got. */
    function LastReply(): Reply
      requires |log| > 0
      reads this
    {
      respond(|log| - 1, log[|log| - 1])
    }

    /** Perform one native call. */
    method Invoke(c: Syscall) returns (rep: Reply)
      modifies this`log
      ensures log == old(log) + [c]
      ensures rep == old(Next(c)) && rep == LastReply()
    {
      rep := respond(|log|, c);
      log := log + [c];
    }
  }
}
