/** Machine integer widths, C's conversions between them, and the Windows
 *  status codes the driver and its client library exchange. */
module Types {

  type byte = x: int | 0 <= x < 0x100
  type uint16 = x: int | 0 <= x < 0x1_0000
  type int8 = x: int | -0x80 <= x < 0x80
  type int16 = x: int | -0x8000 <= x < 0x8000
  type uint32 = x: int | 0 <= x < 0x1_0000_0000
  type int32 = x: int | -0x8000_0000 <= x < 0x8000_0000

  datatype Option<T> = None | Some(value: T)

  /** A C conversion to `UCHAR`: the low 8 bits of the two's complement pattern. */
  function ToByte(v: int): (b: byte)
    ensures (v - b) % 0x100 == 0
  {
    v % 0x100
  }

  /** A C conversion to `DWORD32` (an `int` stored into an unsigned field). */
  function ToUint32(v: int): (u: uint32)
    ensures (v - u) % 0x1_0000_0000 == 0
  {
    v % 0x1_0000_0000
  }

  /** A `DWORD32` read back as a 32-bit `int` (two's complement reinterpretation). */
  function ToInt32(v: uint32): (i: int32)
    ensures ToUint32(i) == v
  {
    if v < 0x8000_0000 then v else v - 0x1_0000_0000
  }

  /** A `UCHAR` read back as a signed `char`. */
  function ToInt8(b: byte): (i: int8)
    ensures ToByte(i) == b
  {
    if b < 0x80 then b else b - 0x100
  }

  lemma Int32RoundTrip(i: int32)
    ensures ToInt32(ToUint32(i)) == i
  {
  }

  lemma Int8RoundTrip(i: int8)
    ensures ToInt8(ToByte(i)) == i
  {
  }

  /** NTSTATUS values, as their 32-bit patterns. */
  type NtStatus = uint32

  const STATUS_SUCCESS: NtStatus := 0x0000_0000
  const STATUS_PENDING: NtStatus := 0x0000_0103
  const STATUS_BUFFER_TOO_SMALL: NtStatus := 0xC000_0023
  const STATUS_INSUFFICIENT_RESOURCES: NtStatus := 0xC000_009A
  const STATUS_NOT_SUPPORTED: NtStatus := 0xC000_00BB

  /** `NT_SUCCESS`: the status read as a signed 32-bit value is not negative. */
  predicate NtSuccess(s: NtStatus) {
    ToInt32(s) >= 0
  }

  lemma NtSuccessClassifies()
    ensures NtSuccess(STATUS_SUCCESS) && NtSuccess(STATUS_PENDING)
    ensures !NtSuccess(STATUS_BUFFER_TOO_SMALL) && !NtSuccess(STATUS_INSUFFICIENT_RESOURCES)
    ensures !NtSuccess(STATUS_NOT_SUPPORTED)
  {
  }
}
