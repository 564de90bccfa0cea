/** The part of java.nio.ByteBuffer that NativeSocket reads and moves: the
    cursor (mark, position, limit, capacity) and how the buffer is backed.
    The bytes themselves are not modelled. */
module Buffers {
  import opened Wrappers
  import opened JavaLang

  /** The cursor of a buffer; a mark of -1 means "no mark". */
  datatype Cursor = Cursor(mark: int, position: int, limit: int, capacity: int) {

    /** java.nio.Buffer's invariant: -1 <= mark <= position <= limit <= capacity,
        all Java ints. */
    predicate Valid() {
      && (mark == -1 || 0 <= mark <= position)
      && 0 <= position <= limit <= capacity <= MAX_INT
    }

    function Remaining(): int {
      limit - position
    }
  }

  /** Buffer.position(int): reject a position outside 0..limit, drop a mark
      that lies beyond the new position. */
  function SetPosition(c: Cursor, newPosition: int): (r: Result<Cursor, Exception>)
    ensures r.Success? <==> 0 <= newPosition <= c.limit
    ensures r.Failure? ==> r.error == IllegalArgument
    ensures r.Success? ==> r.value.position == newPosition
    ensures r.Success? ==> r.value.limit == c.limit && r.value.capacity == c.capacity
    ensures r.Success? && newPosition >= c.mark ==> r.value.mark == c.mark
    ensures r.Success? && newPosition < c.mark ==> r.value.mark == -1
    ensures c.Valid() && r.Success? ==> r.value.Valid()
  {
    if newPosition > c.limit || newPosition < 0 then Failure(IllegalArgument)
    else Success(c.(mark := if c.mark > newPosition then -1 else c.mark, position := newPosition))
  }

  /** `buf.position(buf.position() + n)` with Java's int addition. */
  function Advance(c: Cursor, n: int32): (r: Result<Cursor, Exception>)
    requires c.Valid()
    ensures r.Failure? ==> r.error == IllegalArgument
    ensures r.Success? ==> r.value.Valid() && r.value.limit == c.limit && r.value.capacity == c.capacity
  {
    SetPosition(c, Wrap32(c.position + n))
  }

  /** The int addition cannot make a bad count look good: moving the cursor by
      `n` succeeds exactly when the mathematical new position lies in
      0..limit, and then it is that position; a count past the limit, or one
      that would move before 0, raises IllegalArgumentException. */
  lemma {:induction false} AdvanceExact(c: Cursor, n: int32)
    requires c.Valid()
    ensures Advance(c, n).Success? <==> 0 <= c.position + n <= c.limit
    ensures Advance(c, n).Failure? ==> Advance(c, n).error == IllegalArgument
    ensures Advance(c, n).Success? ==> Advance(c, n).value.position == c.position + n
    ensures Advance(c, n).Success? && 0 <= n ==> Advance(c, n).value == c.(position := c.position + n)
  {
    WrapNonNegative(c.position, n);
  }

  /** A count within what remains moves the position by exactly that count
      and changes nothing else, not even the mark. */
  lemma {:induction false} AdvanceWithinRemaining(c: Cursor, n: int32)
    requires c.Valid() && 0 <= n <= c.Remaining()
    ensures Advance(c, n) == Success(c.(position := c.position + n))
    ensures Advance(c, n).value.Remaining() == c.Remaining() - n
  {
    AdvanceExact(c, n);
  }

  /** Moving by `n` and then by `m` is moving by `n + m`: however a transfer
      is split into chunks, the cursor ends where one transfer of the total
      would leave it. */
  lemma {:induction false} AdvanceCompose(c: Cursor, n: int32, m: int32)
    requires c.Valid() && 0 <= n && 0 <= m && n + m <= c.Remaining()
    ensures Advance(c, n).Success? && Advance(c, n).value.Valid()
    ensures Advance(Advance(c, n).value, m) == Advance(c, n + m)
  {
    AdvanceWithinRemaining(c, n);
    var c' := Advance(c, n).value;
    AdvanceWithinRemaining(c', m);
    AdvanceWithinRemaining(c, n + m);
  }

  /** A ByteBuffer. `hasArray` holds for a writable heap buffer, `isDirect` for
      an off-heap one; a read-only heap buffer has neither. `address` is what
      DirectMemory.getAddress reports for it, taken as given. */
  class ByteBuffer {
    var mark: int
    var position: int
    var limit: int
    const capacity: int
    const hasArray: bool
    const isDirect: bool
    const arrayOffset: int
    const address: int

    function State(): Cursor
      reads this
    {
      Cursor(mark, position, limit, capacity)
    }

    ghost predicate Valid()
      reads this
    {
      && State().Valid()
      && !(hasArray && isDirect)
      && (hasArray ==> 0 <= arrayOffset && arrayOffset + capacity <= MAX_INT)
    }

    function Remaining(): (n: int)
      reads this
      ensures n == State().Remaining()
    {
      limit - position
    }

    /** A buffer as allocated: no mark, position 0, limit at capacity. */
    constructor (capacity: int, hasArray: bool, isDirect: bool, arrayOffset: int, address: int)
      requires 0 <= capacity <= MAX_INT && !(hasArray && isDirect)
      requires hasArray ==> 0 <= arrayOffset && arrayOffset + capacity <= MAX_INT
      ensures Valid() && State() == Cursor(-1, 0, capacity, capacity)
      ensures this.hasArray == hasArray && this.isDirect == isDirect
      ensures this.arrayOffset == arrayOffset && this.address == address
    {
      mark, position, limit := -1, 0, capacity;
      this.capacity := capacity;
      this.hasArray, this.isDirect := hasArray, isDirect;
      this.arrayOffset, this.address := arrayOffset, address;
    }

    /** Buffer.position(int). */
    method Position(newPosition: int) returns (r: Outcome<Exception>)
      requires Valid()
      modifies this`mark, this`position
      ensures Valid()
      ensures var s := SetPosition(old(State()), newPosition);
        if s.Success? then r == Pass && State() == s.value
        else r == Fail(s.error) && State() == old(State())
    {
      if newPosition > limit || newPosition < 0 {
        return Fail(IllegalArgument);
      }
      if mark > newPosition {
        mark := -1;
      }
      position := newPosition;
      r := Pass;
    }
  }
}
