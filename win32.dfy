/** Types and error values shared by every layer of the model: the Windows
    integer widths, handles, GUIDs, and the Go `error` values the core
    produces or compares against (setupapi/errors.go). */
module Win32 {

  newtype uint8 = x: int | 0 <= x < 0x100
  newtype uint16 = x: int | 0 <= x < 0x1_0000
  newtype uint32 = x: int | 0 <= x < 0x1_0000_0000

  /** A `syscall.Handle` (a pointer-sized integer). */
  type Handle = nat

  /** `syscall.InvalidHandle`, that is `^uintptr(0)` on a 64-bit host. */
  const InvalidHandle: Handle := 0xFFFF_FFFF_FFFF_FFFF

  /** A `windows.GUID`, as the 128-bit number its four fields spell. */
  datatype Guid = Guid(bits: nat)

  /** The all-zero GUID that marks "no class filter" in a query. */
  const ZeroGuid := Guid(0)

  /** The fields of an SP_DEVINFO_DATA record that identify a device. */
  datatype DevInfoData = DevInfoData(classGuid: Guid, devInst: nat)

  /** A Go `error` value, as far as the core tells errors apart. */
  datatype Error =
    | Errno(code: nat)                              // syscall.Errno(code): a Windows error code
    | EInval                                        // syscall.EINVAL: an invented Errno no Windows code equals
    | Eof                                           // io.EOF
    | EmptyBuffer                                   // setupapi.ErrEmptyBuffer
    | UnexpectedType(expected: string, got: nat)    // "expected <expected> registry type but received type <got>"
    | UnexpectedLength(got: nat)                    // "expected 4-byte DWORD but received <got> bytes"

  /** `setupapi.ErrInvalidData`: the property is absent or not valid. */
  const ErrInvalidData := Errno(13)

  /** `syscall.ERROR_INSUFFICIENT_BUFFER`. */
  const ErrInsufficientBuffer := Errno(122)

  /** ERROR_NO_MORE_ITEMS, the code that ends an enumeration. */
  const ErrNoMoreItems: nat := 259

  /** The mapping every wrapper applies to the thread's last-error value
      after a failed call: a nonzero code becomes `Errno(e)`, zero becomes
      EINVAL, so a failed call never yields a nil error. */
  function LastError(e: nat): (err: Error)
    ensures err != Errno(0)
    ensures err == EInval <==> e == 0
  {
    if e != 0 then Errno(e) else EInval
  }
}
