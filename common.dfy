/** Shared vocabulary of the monitor-mode loader: bytes, the fatal error
    conditions the loader reports before it exits, and the outcome types the
    operations return instead of exiting. */
module Common {

  /** A value that fits one serial byte. */
  type byte = x: int | 0 <= x < 256

  /** High byte of a 16-bit address: `(a >> 8) & 0xFF` (floor shift, then mask). */
  function Hi(a: int): byte { (a / 256) % 256 }

  /** Low byte of an address: `a & 0xFF`. */
  function Lo(a: int): byte { a % 256 }

  function Max(a: int, b: int): int { if a < b then b else a }

  function Min(a: int, b: int): int { if a < b then a else b }

  /** Every condition on which the loader prints an error and exits. */
  datatype Error =
    | NoByte                                  // no received byte within the timeout
    | NoLoopback                              // no loopback of the sent byte
    | LoopbackFailed(sent: byte, got: byte)   // loopback byte differs from the sent one
    | NoTargetEcho                            // no echo from the target
    | TargetEchoFailed(sent: byte, got: byte) // target echo differs from the sent byte
    | NotAByte(value: int)                    // a value outside 0..255 handed to the port
    | EmptyData                               // a write of an empty list (index error)
    | ConnectionFailed                        // break character was not 0
    | JumpBackTimeout                         // no break character after a handler routine
    | LengthTooHigh(length: int)              // parameter block for more than one row
    | EraseFailed(address: int, code: byte)   // mass erase handler returned non-zero
    | WriteFailed(address: int, code: byte)   // row write handler returned non-zero
    | VerifyFailed(address: int, written: byte, readback: byte)
    | NoBaudRate(baudTh: int)                 // no standard baud rate within 2%
    | PatchOutOfRange(index: int)             // branch-offset byte outside the handler image
    | ImageOutOfRange(address: int)           // record data beyond the 64 KiB image

  /** Dropping a prefix of the left operand of a concatenation. */
  lemma DropAppend<T>(x: seq<T>, y: seq<T>, k: nat)
    requires k <= |x|
    ensures (x + y)[k..] == x[k..] + y
    ensures k < |x| ==> (x + y)[k] == x[k]
  {
  }

  lemma AppendAssoc<T>(x: seq<T>, y: seq<T>, z: seq<T>)
    ensures x + (y + z) == x + y + z
  {
  }

  datatype Outcome = Pass | Fail(error: Error)

  datatype Result<T> = Ok(value: T) | Err(error: Error)

  datatype Option<T> = None | Some(value: T)
}
