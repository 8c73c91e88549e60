/** Values shared by every part of the model: the exceptions the C# code throws, written as data,
    and the 8-bit sample record that flows from the decoder through the ring to the consumer. */
module Common {

  /** The exceptions thrown by the modelled code. */
  datatype Error =
    | IndexOutOfRange    // IndexOutOfRangeException, from a bounds guard or from the array access itself
    | NegativeSize       // OverflowException from allocating an array of negative length
    | SourceTooLarge     // ArgumentException from PushAll when the input is longer than the ring
    | SameIndex          // Swap called with two equal indices
    | AlreadyEnabled     // Enable on an enabled reader
    | AlreadyDisabled    // Disable on a disabled reader
    | NullArgument       // a required port or callback was null; two C# exceptions merged into one:
                         // ArgumentNullException (reader constructor), NullReferenceException (dispatcher)

  datatype Option<+T> = None | Some(value: T)

  /** A computed value, or the exception that replaced it. */
  datatype Result<+T> = Ok(value: T) | Err(error: Error)

  /** Whether a state-changing operation completed or threw. */
  datatype Outcome = Pass | Fail(error: Error)

  function Min(a: int, b: int): int {
    if a <= b then a else b
  }

  /** An unsigned 8-bit value, as C#'s `byte`. */
  type byte = b: int | 0 <= b < 256

  /** One sample of the four analogue inputs, channels A0..A3. Its default value is all zeros. */
  datatype AnalogueData = AnalogueData(a0: byte, a1: byte, a2: byte, a3: byte)

  const Zero: AnalogueData := AnalogueData(0, 0, 0, 0)

  predicate IsAllZero(d: AnalogueData) {
    d.a0 == 0 && d.a1 == 0 && d.a2 == 0 && d.a3 == 0
  }
}
