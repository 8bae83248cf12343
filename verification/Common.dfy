/** Machine integers and result types shared by the whole model. */
module Common {

  type int32 = x: int | -0x8000_0000 <= x < 0x8000_0000
  type uint32 = x: int | 0 <= x < 0x1_0000_0000
  type uint16 = x: int | 0 <= x < 0x1_0000

  /** The conversion of a C++ uint32_t to int: two's complement. */
  function ToInt32(x: uint32): int32 {
    if x < 0x8000_0000 then x else x - 0x1_0000_0000
  }

  /** The conversion of a C++ int to uint32_t: reduction modulo 2^32. */
  function ToUint32(x: int32): uint32 {
    if x < 0 then x + 0x1_0000_0000 else x
  }

  /** Both conversions keep the number modulo 2^32, so each undoes the other. */
  lemma ConversionsAreModular(x: uint32, y: int32)
    ensures (x - ToInt32(x)) % 0x1_0000_0000 == 0 && ToUint32(ToInt32(x)) == x
    ensures (ToUint32(y) - y) % 0x1_0000_0000 == 0 && ToInt32(ToUint32(y)) == y
  {
  }

  datatype Option<+T> = None | Some(value: T)

  /** The exceptions the handlers can leave through. */
  datatype Error =
    | InvalidArgument  // std::stoi found no digits
    | OutOfRange       // std::stoi overflow, vector::at or map::at
    | BadVariantAccess // std::get of the alternative a variant does not hold

  datatype Result<+T> = Ok(value: T) | Err(error: Error) {
    predicate IsFailure() {
      Err?
    }

    function PropagateFailure<U>(): Result<U>
      requires Err?
    {
      Err(error)
    }

    function Extract(): T
      requires Ok?
    {
      value
    }
  }
}
