/** Machine values shared by every component: bytes, 64-bit words and the wrapping operators
    `+%`, `-%`, `*%`.  Wrap-around is written out with a comparison, so that a proof that no
    operand overflows is a proof that the operator agrees with plain arithmetic. */
module Machine {
  type byte = b: int | 0 <= b < 256
  const U64_LIMIT: int := 0x1_0000_0000_0000_0000
  type u64 = x: int | 0 <= x < 0x1_0000_0000_0000_0000
  type i64 = x: int | -0x8000_0000_0000_0000 <= x < 0x8000_0000_0000_0000

  const TAB: byte := 9
  const NEWLINE: byte := 10
  const RETURN: byte := 13
  const SPACE: byte := 32
  const QUOTE: byte := 34
  const COMMA: byte := 44
  const MINUS: byte := 45
  const COLON: byte := 58
  const OPEN_ARRAY: byte := 91
  const BACKSLASH: byte := 92
  const CLOSE_ARRAY: byte := 93
  const OPEN_OBJECT: byte := 123
  const CLOSE_OBJECT: byte := 125

  predicate IsSpace(b: byte) { b == SPACE || b == TAB || b == NEWLINE || b == RETURN }

  predicate IsDigit(b: byte) { 48 <= b <= 57 }

  function AddWrap(a: u64, b: u64): u64 {
    if a + b < U64_LIMIT then a + b else a + b - U64_LIMIT
  }

  function SubWrap(a: u64, b: u64): u64 {
    if a >= b then a - b else a - b + U64_LIMIT
  }

  /** Two's-complement reduction of an exact result to 64 signed bits. */
  function WrapSigned(x: int): i64
    decreases if x < -0x8000_0000_0000_0000 then -x else if x >= 0x8000_0000_0000_0000 then x else 0
  {
    if x < -0x8000_0000_0000_0000 then WrapSigned(x + U64_LIMIT)
    else if x >= 0x8000_0000_0000_0000 then WrapSigned(x - U64_LIMIT)
    else x
  }

  datatype Result<+T, +E> = Success(value: T) | Failure(error: E)
}
