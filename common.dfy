/**
 * Shared vocabulary of the token ring and the message protection algorithm:
 * bytes, nullable values, the exceptions the core raises, and the .NET rule
 * for "null or white space" strings.
 */
module Common {

  /** An 8-bit unsigned byte; bit-vectors give the `^` (XOR) of the source. */
  type byte = bv8

  /** A nullable reference: `None` is C# `null`. */
  datatype Option<+T> = None | Some(value: T)

  /** The exceptions the modelled code throws, by kind. */
  datatype Error =
    | CallGuard(parameter: string)   // the Azos guards NonNull / NonBlank on the named parameter
    | Security                       // SecurityException raised by the length guards
    | Cryptographic                  // an exception raised inside the cipher library
    | ArgumentOutOfRange             // DateTime arithmetic leaving the representable range

  /** The result of an operation that either returns a value or throws. */
  datatype Outcome<+T> = Ok(value: T) | Fail(error: Error)

  /**
   * `char.IsWhiteSpace`: the Unicode space, line and paragraph separators
   * (categories Zs, Zl, Zp) plus U+0009..U+000D and U+0085.
   */
  predicate IsWhiteSpace(c: char) {
    var n := c as int;
    || (0x09 <= n <= 0x0D)
    || n == 0x20 || n == 0x85 || n == 0xA0 || n == 0x1680
    || (0x2000 <= n <= 0x200A)
    || n == 0x2028 || n == 0x2029 || n == 0x202F || n == 0x205F || n == 0x3000
  }

  /** `string.IsNullOrWhiteSpace`: null, empty, or white space only. */
  predicate IsNullOrWhiteSpace(s: Option<string>) {
    s.None? || forall i :: 0 <= i < |s.value| ==> IsWhiteSpace(s.value[i])
  }
}
