/**
 * The few JVM notions the rope model needs: the exceptions the rope code
 * throws, a result type that carries them, and 32-bit `Int` arithmetic.
 */
module JavaLang {

  /** The exceptions thrown by the rope code (subclasses are folded into their parent:
      StringIndexOutOfBounds and ArrayIndexOutOfBounds are IndexOutOfBounds). */
  datatype Error =
    | IndexOutOfBounds
    | IllegalArgument
    | NoSuchElement
    | NegativeArraySize
    | ClassCast

  /** A value, or the exception that replaced it. */
  datatype Result<+T> = Ok(value: T) | Err(error: Error)
  {
    predicate IsFailure() { Err? }

    function PropagateFailure<U>(): Result<U>
      requires Err?
    {
      Err(error)
    }

    function Extract(): T
      requires Ok?
    {
      value
    }
  }

  /** The outcome of a `void` method that may throw. */
  datatype Outcome = Pass | Fail(error: Error)

  datatype Option<+T> = None | Some(value: T)

  const INT_MAX: int := 0x7FFF_FFFF
  const INT_MIN: int := -0x8000_0000
  const TWO_32: int := 0x1_0000_0000

  predicate InIntRange(x: int) {
    INT_MIN <= x <= INT_MAX
  }

  /** The value a JVM `Int` holds after an arithmetic result `x` wraps around. */
  function Int32(x: int): (r: int)
    ensures InIntRange(r)
    ensures (r - x) % TWO_32 == 0
    ensures InIntRange(x) ==> r == x
  {
    (x - INT_MIN) % TWO_32 + INT_MIN
  }

  /** Two values that agree modulo 2^32 wrap to the same `Int`. */
  lemma {:induction false} Int32Congruent(x: int, y: int)
    requires (x - y) % TWO_32 == 0
    ensures Int32(x) == Int32(y)
  {
    var k := (x - y) / TWO_32;
    assert x - y == k * TWO_32;
    assert x - INT_MIN == (y - INT_MIN) + k * TWO_32;
    ModuloShift(y - INT_MIN, k);
  }

  lemma {:induction false} ModuloShift(a: int, k: int)
    ensures (a + k * TWO_32) % TWO_32 == a % TWO_32
  {
    var q, r := a / TWO_32, a % TWO_32;
    assert a == q * TWO_32 + r;
    assert a + k * TWO_32 == (q + k) * TWO_32 + r;
  }
}
