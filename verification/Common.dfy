/** Bytes, 32-bit words and optional values. */
module Common {

  type byte = x: int | 0 <= x < 256

  const TWO_32 := 0x1_0000_0000
  const INT_LIMIT := 0x8000_0000

  /** The conversion of the result of unsigned 32-bit arithmetic to a C int. */
  function ToInt(x: int): (r: int)
    ensures -INT_LIMIT <= r < INT_LIMIT
    ensures 0 <= x < INT_LIMIT ==> r == x
  {
    var w := x % TWO_32;
    if w < INT_LIMIT then w else w - TWO_32
  }

  datatype Option<+T> = None | Some(value: T) {
    predicate IsFailure() { None? }
    function PropagateFailure<U>(): Option<U>
      requires None?
    {
      None
    }
    function Extract(): T
      requires Some?
    {
      value
    }
  }
}
