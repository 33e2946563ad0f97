/** The few JavaScript values the prime-spiral core handles, and its failure path.
    A BigInt and a Number with the same mathematical value are different values:
    strict equality and Set membership tell them apart. */
module JsValues {

  datatype JsValue =
    | BigInt(big: int)
    | Number(num: real)
    | OtherValue  // a string, undefined, an object, ...

  /** What a call returns: its value, or the message of the Error it throws. */
  datatype Result<T> = Ok(value: T) | Err(message: string)

  const NonNegativeExpected: string := "Expected nonnegative BigInt"
  const PositiveExpected: string := "Expected positive BigInt"
}
