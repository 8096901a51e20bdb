/** Error and result types shared by the driver model.

    The driver returns `0` or a negative errno. The named errno values the
    driver produces itself are kept abstract; a failure reported by the bus
    is kept as the raw 32-bit value the driver hands back (two's complement,
    so `-ENXIO` is 0xFFFF_FFFA). */
module Errors {

  datatype Option<+T> = None | Some(value: T)

  datatype Errno =
    | EPERM              // bad handle or coordinates
    | EINVAL             // absent argument or impossible configuration
    | EIO                // controller did not answer the probe
    | ERANGE             // computed buffer cell beyond the buffer
    | Bus(code: bv32)    // nonzero value returned by the bus, passed on as is

  /** The outcome of a call that returns only zero or an error. */
  datatype Status = Ok | Fail(error: Errno)

  /** The outcome of a call that returns a count or an error. */
  datatype Result<+T> = Success(value: T) | Failure(error: Errno)

  /** `-ENXIO`, returned by the command sender when there is no bus client. */
  const ENXIO: bv32 := 0xFFFF_FFFA

  /** True when a 32-bit C `int` is negative. */
  predicate IsNegative(v: bv32) {
    v & 0x8000_0000 != 0
  }

  /** `if (err) return err; return 0;` for a bus result. */
  function StatusOf(err: bv32): (s: Status)
    ensures s.Ok? <==> err == 0
    ensures s.Fail? ==> s.error == Bus(err)
  {
    if err == 0 then Ok else Fail(Bus(err))
  }
}
