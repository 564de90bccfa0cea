/** The few facts about the Java language that the socket code relies on:
    the width of `byte` and `int`, `& 0xff`, the byte cast, `int` overflow,
    and the exceptions the modelled code can raise. */
module JavaLang {

  /** A Java `byte`: signed, 8 bits. */
  type int8 = x: int | -0x80 <= x < 0x80

  /** A Java `int`: signed, 32 bits. */
  type int32 = x: int | -0x8000_0000 <= x < 0x8000_0000

  const MAX_INT: int32 := 0x7fff_ffff

  /** The exceptions raised on the modelled paths. */
  datatype Exception =
    | IllegalArgument            // java.lang.IllegalArgumentException (Buffer.position)
    | UnsupportedOperation       // java.lang.UnsupportedOperationException (send, recv)
    | IOException(errno: int)    // java.io.IOException thrown by a native call

  /** `b & 0xff` on a byte widened to `int`: two's complement makes it the
      residue of `b` modulo 256. */
  function Unsigned(b: int8): (u: int)
    ensures 0 <= u < 0x100
    ensures b >= 0 ==> u == b
    ensures b < 0 ==> u == b + 0x100
  {
    b % 0x100
  }

  /** The narrowing cast `(byte) u` of an unsigned value `u` in 0..255. */
  function Signed(u: int): (b: int8)
    requires 0 <= u < 0x100
    ensures Unsigned(b) == u
  {
    if u < 0x80 then u else u - 0x100
  }

  lemma SignedUnsigned(b: int8)
    ensures Signed(Unsigned(b)) == b
  {
  }

  /** The value of a Java `int` expression whose mathematical value is `x`:
      the result of `+` wraps around modulo 2^32. */
  function Wrap32(x: int): (r: int32)
    ensures r % 0x1_0000_0000 == x % 0x1_0000_0000
  {
    (x + 0x8000_0000) % 0x1_0000_0000 - 0x8000_0000
  }

  /** Adding a non-negative `int` below 2^31 and any `int` either does not
      overflow, or overflows into a negative value: in both cases the result
      lies in 0..MAX_INT exactly when the mathematical sum does, and then
      the two are equal. */
  lemma WrapNonNegative(a: int32, b: int32)
    requires 0 <= a
    ensures 0 <= Wrap32(a + b) <==> 0 <= a + b <= MAX_INT
    ensures 0 <= a + b <= MAX_INT ==> Wrap32(a + b) == a + b
  {
    var x := a + b;
    if x < 0 {
      assert (x + 0x8000_0000) % 0x1_0000_0000 == x + 0x8000_0000;
    } else if x <= MAX_INT {
      assert (x + 0x8000_0000) % 0x1_0000_0000 == x + 0x8000_0000;
    } else {
      assert (x + 0x8000_0000) % 0x1_0000_0000 == x + 0x8000_0000 - 0x1_0000_0000;
    }
  }
}
