/** Wire vocabulary shared by the responder and the initiator: the eight
    function codes of sections 6.1-6.6, 6.11 and 6.12 of the MODBUS
    Application Protocol Specification V1.1b3, the exception codes and
    exception bit of its section 7, and the offsets of the function-dependent
    "special data" scratch area. The C names live in modbus_rtu_base.h, which
    is not part of this model; the values used here are the ones the two
    engines' code relies on. */
module Protocol {
  import opened Bytes
  import opened Crc

  const READ_COILS: byte := 0x01
  const READ_INPUT_STATUS: byte := 0x02
  const READ_HOLDING_REGISTERS: byte := 0x03
  const READ_INPUT_REGISTERS: byte := 0x04
  const FORCE_SINGLE_COIL: byte := 0x05
  const PRESET_SINGLE_REGISTER: byte := 0x06
  const FORCE_MULTIPLE_COILS: byte := 0x0F
  const PRESET_MULTIPLE_REGISTERS: byte := 0x10

  /** MODBUS_ERROR_COMMAND_CODE: the bit set on the function code of an exception response. */
  const EXCEPTION_BIT: byte := 0x80

  const ILLEGAL_FUNCTION: byte := 0x01
  const ILLEGAL_DATA_ADDRESS: byte := 0x02
  const ILLEGAL_DATA_VALUE: byte := 0x03

  /** SPECIAL_DATA_META_COUNT: count high, count low, byte count. */
  const META_COUNT: nat := 3
  /** SPECIAL_DATA_VALUE_SIZE: one 16-bit quantity or value. */
  const VALUE_SIZE: nat := 2

  predicate IsRead(fn: byte)
  {
    fn == READ_COILS || fn == READ_HOLDING_REGISTERS || fn == READ_INPUT_REGISTERS || fn == READ_INPUT_STATUS
  }

  predicate IsWriteSingle(fn: byte)
  {
    fn == FORCE_SINGLE_COIL || fn == PRESET_SINGLE_REGISTER
  }

  predicate IsWriteMultiple(fn: byte)
  {
    fn == FORCE_MULTIPLE_COILS || fn == PRESET_MULTIPLE_REGISTERS
  }

  predicate IsWrite(fn: byte)
  {
    IsWriteSingle(fn) || IsWriteMultiple(fn)
  }

  /** One of the eight function codes either engine implements. */
  predicate IsKnown(fn: byte)
  {
    IsRead(fn) || IsWrite(fn)
  }

  /** fn | 0x80 */
  function WithExceptionBit(fn: byte): (r: byte)
    ensures r >= EXCEPTION_BIT && r % 0x80 == fn % 0x80
    ensures fn >= EXCEPTION_BIT ==> r == fn
  {
    if fn >= EXCEPTION_BIT then fn else fn + EXCEPTION_BIT
  }

  /** fn ^ 0x80: an involution that flips only the exception bit. */
  function ToggleExceptionBit(fn: byte): (r: byte)
    ensures r % 0x80 == fn % 0x80 && (r >= EXCEPTION_BIT <==> fn < EXCEPTION_BIT)
  {
    if fn >= EXCEPTION_BIT then fn - EXCEPTION_BIT else fn + EXCEPTION_BIT
  }

  lemma ToggleInvolution(fn: byte)
    ensures ToggleExceptionBit(ToggleExceptionBit(fn)) == fn
  {}

  /** An exception response: device id, function with the exception bit, the code, CRC. */
  function ExceptionFrame(id: byte, fn: byte, code: byte): (r: seq<byte>)
    ensures |r| == 5 && r[0] == id && r[1] == WithExceptionBit(fn) && r[2] == code && Intact(r)
  {
    var r := Seal([id, WithExceptionBit(fn), code]);
    assert r[0] == id && r[1] == WithExceptionBit(fn) && r[2] == code;
    SealIntact([id, WithExceptionBit(fn), code]);
    r
  }

  /** Outcome of a validation gate: pass, or the exception code to answer with. */
  datatype Verdict = Accept | Reject(code: byte)
}
