/** The responder ("slave") of modbus_rtu_puk/src/modbus_rtu_slave.c: a
    register bank, a five-stage byte-driven request decoder that validates
    early, a final validation gate, register writes and the response encoder.

    The C keeps one global state record and a function pointer naming the
    current stage; here the state is an immutable record, the stage a
    datatype, and every entry point a pure function returning the new state
    and the handler calls it makes (events). The compile-time register
    counts are the capacities of a Config; a capacity of 0 removes the table
    and the function codes that touch it. */
module Slave {
  import opened Bytes
  import opened Crc
  import opened Protocol
  import opened Registers

  /** Settings: register capacities, the size of the special-data scratch
      area, of the raw request buffer and of the response buffer
      MODBUS_SLAVE_RESPONSE_MESSAGE_SIZE (all declared in a header that is
      not part of this model). */
  datatype Config = Config(caps: Capacities, specialSize: nat, requestSize: nat, responseSize: nat)
  {
    function MaxCapacity(): nat
    {
      var a := if caps.outputCoils > caps.inputCoils then caps.outputCoils else caps.inputCoils;
      var b := if caps.inputRegisters > caps.holdingRegisters then caps.inputRegisters else caps.holdingRegisters;
      if a > b then a else b
    }

    /** The settings under which the C code stays inside its arrays and its
        8-bit loop counters: at most 127 entries per table; the writable
        tables hold 0 or at least 3 entries (the clamp at
        modbus_rtu_slave.c:305-306 subtracts 3 from the capacity); the
        special-data area holds a full register read or write; the response
        buffer holds id, function, the longest payload and the CRC. */
    predicate Valid()
    {
      && MaxCapacity() <= 127
      && (caps.outputCoils == 0 || caps.outputCoils >= META_COUNT)
      && (caps.holdingRegisters == 0 || caps.holdingRegisters >= META_COUNT)
      && specialSize >= META_COUNT + 1 + 2 * MaxCapacity()
      && requestSize >= 1
      && responseSize >= 5 + 2 * MaxCapacity()
    }
  }

  /** The table a function code addresses (_mb_sl_get_request_register_type). */
  function TypeOf(fn: byte): RegisterType
    requires IsKnown(fn)
  {
    if fn == READ_INPUT_STATUS then InputCoils
    else if fn == READ_COILS || fn == FORCE_SINGLE_COIL || fn == FORCE_MULTIPLE_COILS then OutputCoils
    else if fn == READ_INPUT_REGISTERS then InputRegisters
    else HoldingRegisters
  }

  /** Capacity of the table a function code addresses; 0 for other codes. */
  function FnCapacity(c: Config, fn: byte): nat
  {
    if IsKnown(fn) then c.caps.Of(TypeOf(fn)) else 0
  }

  /** _mb_sl_check_available_request_command: a known code whose table exists. */
  predicate Available(c: Config, fn: byte)
  {
    IsKnown(fn) && FnCapacity(c, fn) > 0
  }

  /** The decoder stage: which of the five request_byte_handler functions is current. */
  datatype Stage = AwaitId | AwaitFunction | AwaitAddress | AwaitPayload | AwaitCrc

  /** Handler calls: response_data_handler with a frame, or internal_error_handler. */
  datatype Event = Respond(frame: seq<byte>) | InternalError

  /** The request fields decoded so far (data_req and special_data). */
  datatype Request = Request(
    id: byte,                // data_req.id
    fn: byte,                // data_req.command
    addr: u16,               // data_req.register_addr
    special: seq<byte>)      // special_data: quantity or value, then byte count and values

  datatype Slave = Slave(
    slaveId: byte,           // this device's id
    hasSender: bool,         // response_data_handler registered
    hasErrorHandler: bool,   // internal_error_handler registered
    bank: Bank,
    stage: Stage,
    req: Request,
    crc: u16,                // data_req.crc
    counter: nat,            // data_handler_counter
    raw: seq<byte>)          // req_data_bytes[0 .. req_data_bytes_idx)

  predicate WellFormed(c: Config, s: Slave)
  {
    s.bank.Fits(c.caps) && |s.req.special| == c.specialSize
  }

  function NoRequest(c: Config): Request
  {
    Request(0, 0, 0, Zeros(c.specialSize))
  }

  /** modbus_slave_clear_data: every scratch field zeroed, decoder at its first stage. */
  function Clear(c: Config, s: Slave): Slave
  {
    s.(stage := AwaitId, req := NoRequest(c), crc := 0, counter := 0, raw := [])
  }

  predicate IsCleared(c: Config, s: Slave)
  {
    s.stage == AwaitId && s.req == NoRequest(c) && s.crc == 0 && s.counter == 0 && s.raw == []
  }

  /** A device as started: zeroed tables, cleared decoder. */
  function Initial(c: Config, slaveId: byte, hasSender: bool, hasErrorHandler: bool): (s: Slave)
    ensures WellFormed(c, s) && IsCleared(c, s)
  {
    Clear(c, Slave(slaveId, hasSender, hasErrorHandler, Empty(c.caps), AwaitId, NoRequest(c), 0, 0, []))
  }

  /** _mb_sl_do_internal_error: the handler is called when registered. */
  function ErrorEvents(s: Slave): seq<Event>
  {
    if s.hasErrorHandler then [InternalError] else []
  }

  /** modbus_slave_set_slave_id */
  function SetSlaveId(c: Config, s: Slave, id: byte): (r: Slave)
    requires WellFormed(c, s)
    ensures WellFormed(c, r) && IsCleared(c, r) && r.slaveId == id && r.bank == s.bank
  {
    Clear(c, s.(slaveId := id))
  }

  /** modbus_slave_timeout: the partial frame is dropped, no handler runs. */
  function Timeout(c: Config, s: Slave): (r: Slave)
    requires WellFormed(c, s)
    ensures WellFormed(c, r) && IsCleared(c, r) && r.slaveId == s.slaveId && r.bank == s.bank
  {
    Clear(c, s)
  }

  // ---------------------------------------------------------------------
  // Register access with the bounds check (modbus_slave_get/set_register_value)
  // ---------------------------------------------------------------------

  /** What an out-of-range access emits: an illegal-data-address exception for
      the function of the request in progress. The response id field is only
      filled while a request is processed and is zero at every other time, so
      the frame carries device id 0. Without a sender it is an internal error. */
  function RejectedAccess(s: Slave): seq<Event>
  {
    if s.hasSender then [Respond(ExceptionFrame(0, s.req.fn, ILLEGAL_DATA_ADDRESS))] else ErrorEvents(s)
  }

  function GetRegister(c: Config, s: Slave, t: RegisterType, i: u16): (r: (u16, Slave, seq<Event>))
    requires WellFormed(c, s)
    ensures WellFormed(c, r.1) && r.1.bank == s.bank && r.1.slaveId == s.slaveId
    ensures i >= c.caps.Of(t) ==> r.0 == 0 && IsCleared(c, r.1) && r.2 == RejectedAccess(s)
    ensures i < c.caps.Of(t) ==> r.0 == s.bank.Value(t, i) && r.1 == s && r.2 == []
  {
    if i >= c.caps.Of(t) then (0, Clear(c, s), RejectedAccess(s))
    else (s.bank.Value(t, i), s, [])
  }

  function SetRegister(c: Config, s: Slave, t: RegisterType, i: u16, v: u16): (r: (Slave, seq<Event>))
    requires WellFormed(c, s)
    ensures WellFormed(c, r.0) && r.0.slaveId == s.slaveId
    ensures i >= c.caps.Of(t) ==> r.0.bank == s.bank && IsCleared(c, r.0) && r.1 == RejectedAccess(s)
    ensures i < c.caps.Of(t) ==>
              && r.1 == []
              && r.0 == s.(bank := r.0.bank)
              && r.0.bank.Value(t, i) == (if t.IsCoil() then (if v > 0 then 1 else 0) else v)
              && forall u, j :: 0 <= j < c.caps.Of(u) && (u != t || j != i) ==> r.0.bank.Value(u, j) == s.bank.Value(u, j)
  {
    if i >= c.caps.Of(t) then (Clear(c, s), RejectedAccess(s))
    else
      var b := s.bank.Store(t, i, v);
      forall u, j | 0 <= j < c.caps.Of(u)
        ensures b.Value(u, j) == if u == t && j == i then (if t.IsCoil() then (if v > 0 then 1 else 0) else v) else s.bank.Value(u, j)
      {
        StoreThenValue(s.bank, t, i, v, u, j);
      }
      (s.(bank := b), [])
  }

  // ---------------------------------------------------------------------
  // Field readers and the validation gate
  // ---------------------------------------------------------------------

  /** _mb_sl_get_special_data_first_value: the big-endian word at offset 0. */
  function FirstValue(special: seq<byte>): u16
  {
    Word(Get(special, 0), Get(special, 1))
  }

  /** The declared byte count of a multiple write (offset 2). */
  function ByteCount(special: seq<byte>): byte
  {
    Get(special, META_COUNT - 1)
  }

  /** _mb_sl_get_needed_registers_count */
  function NeededCount(fn: byte, special: seq<byte>): u16
  {
    if IsWriteSingle(fn) then 1
    else if IsRead(fn) || IsWriteMultiple(fn) then FirstValue(special)
    else 0
  }

  /** _mb_sl_check_request_register_addr */
  predicate AddressOk(c: Config, q: Request)
  {
    q.addr < FnCapacity(c, q.fn)
  }

  /** _mb_sl_check_request_registers_count: a non-zero quantity that fits the
      table from the address, and a declared byte count that fits the
      special-data area. */
  predicate CountOk(c: Config, q: Request)
  {
    var n := NeededCount(q.fn, q.special);
    && n > 0
    && q.addr + n <= FnCapacity(c, q.fn)
    && META_COUNT + ByteCount(q.special) <= c.specialSize
  }

  /** The final gate of _mb_sl_request_proccess, checks in source order. */
  function Check(c: Config, q: Request): Verdict
  {
    if !Available(c, q.fn) then Reject(ILLEGAL_FUNCTION)
    else if !AddressOk(c, q) then Reject(ILLEGAL_DATA_ADDRESS)
    else if !CountOk(c, q) then Reject(ILLEGAL_DATA_VALUE)
    else Accept
  }

  lemma AcceptedBounds(c: Config, q: Request)
    requires c.Valid() && Check(c, q) == Accept
    ensures IsKnown(q.fn) && FnCapacity(c, q.fn) >= 1
    ensures 1 <= NeededCount(q.fn, q.special) && q.addr + NeededCount(q.fn, q.special) <= FnCapacity(c, q.fn) <= 127
  {
  }

  // ---------------------------------------------------------------------
  // Register writes (_mb_sl_write_single_register, _mb_sl_write_multiple_registers)
  // ---------------------------------------------------------------------

  /** The count correction of modbus_rtu_slave.c:305-306, kept as written:
      a quantity within two of the capacity is cut to capacity - 3. */
  function Clamp(n: nat, cap: nat): nat
    requires cap >= META_COUNT
  {
    if META_COUNT + n - 1 > cap then cap - META_COUNT else n
  }

  /** Coils addr .. addr+k-1 take bit i of one octet (the first data octet). */
  function WriteCoils(coils: seq<bool>, addr: nat, k: nat, first: byte): (r: seq<bool>)
    ensures |r| == |coils|
  {
    seq(|coils|, q requires 0 <= q < |coils| => if addr <= q < addr + k then Bit(first, q - addr) else coils[q])
  }

  /** Registers addr .. addr+k-1 take the big-endian words from offset 3 on. */
  function WriteRegisters(regs: seq<u16>, addr: nat, k: nat, special: seq<byte>): (r: seq<u16>)
    ensures |r| == |regs|
  {
    seq(|regs|, q requires 0 <= q < |regs| => RegisterAfter(regs, addr, k, special, q))
  }

  function RegisterAfter(regs: seq<u16>, addr: nat, k: nat, special: seq<byte>, q: nat): u16
    requires q < |regs|
  {
    if addr <= q < addr + k
    then Word(Get(special, META_COUNT + 2 * (q - addr)), Get(special, META_COUNT + 2 * (q - addr) + 1))
    else regs[q]
  }

  /** The bank after a request that passed the gate. */
  function Apply(c: Config, bank: Bank, q: Request): (b: Bank)
    requires c.Valid() && bank.Fits(c.caps) && Check(c, q) == Accept
    ensures b.Fits(c.caps)
  {
    AcceptedBounds(c, q);
    var n := FirstValue(q.special);
    if q.fn == FORCE_SINGLE_COIL then bank.Store(OutputCoils, q.addr, n)
    else if q.fn == PRESET_SINGLE_REGISTER then bank.Store(HoldingRegisters, q.addr, n)
    else if q.fn == FORCE_MULTIPLE_COILS then
      bank.(outputCoils := WriteCoils(bank.outputCoils, q.addr, Clamp(n, c.caps.outputCoils), Get(q.special, META_COUNT)))
    else if q.fn == PRESET_MULTIPLE_REGISTERS then
      bank.(holdingRegisters := WriteRegisters(bank.holdingRegisters, q.addr, Clamp(n, c.caps.holdingRegisters), q.special))
    else bank
  }

  // ---------------------------------------------------------------------
  // Response payloads (_mb_sl_make_*_response)
  // ---------------------------------------------------------------------

  /** The coil table a coil read addresses. */
  function CoilTable(b: Bank, t: RegisterType): seq<bool>
  {
    if t == InputCoils then b.inputCoils else b.outputCoils
  }

  /** The register table a register read addresses. */
  function RegisterTable(b: Bank, t: RegisterType): seq<u16>
  {
    if t == InputRegisters then b.inputRegisters else b.holdingRegisters
  }

  /** Loop step k of the coil read ORs coil addr+k into bit (addr+k) mod 8
      of data octet k/8. */
  predicate Lands(coils: seq<bool>, addr: nat, k: nat, j: nat, p: nat)
  {
    k / 8 == j && (addr + k) % 8 == p && addr + k < |coils| && coils[addr + k]
  }

  /** Data octet j of a coil read of `count` coils from `addr`: bit p is set
      iff some loop step lands a set coil there. */
  function CoilOctet(coils: seq<bool>, addr: nat, count: nat, j: nat): byte
  {
    PackByte(seq(8, p requires 0 <= p < 8 => exists k :: 0 <= k < count && Lands(coils, addr, k, j, p)))
  }

  /** Read response payload: the byte count, then the data. Register reads
      carry 2 octets per register; coil reads declare as many octets as coils
      requested, of which the leading ones carry the packed bits. */
  function ReadData(c: Config, bank: Bank, q: Request): (r: seq<byte>)
    requires c.Valid() && bank.Fits(c.caps) && Check(c, q) == Accept && IsRead(q.fn)
  {
    AcceptedBounds(c, q);
    var n := FirstValue(q.special);
    var t := TypeOf(q.fn);
    if t.IsCoil() then
      [n] + seq(n, j requires 0 <= j < n => CoilOctet(CoilTable(bank, t), q.addr, n, j))
    else
      [2 * n] + BigEndian(RegisterTable(bank, t)[q.addr .. q.addr + n])
  }

  /** Single-write echo: the address octets are zeroed before the stored value is written. */
  function SingleEcho(c: Config, bank: Bank, q: Request): (r: seq<byte>)
    requires c.Valid() && bank.Fits(c.caps) && Check(c, q) == Accept && IsWriteSingle(q.fn)
  {
    AcceptedBounds(c, q);
    var v := bank.Value(TypeOf(q.fn), q.addr);
    [0, 0, Hi(v), Lo(v)]
  }

  /** Multiple-write echo: the address and the quantity as requested. */
  function MultipleEcho(q: Request): seq<byte>
  {
    var n := FirstValue(q.special);
    [Hi(q.addr), Lo(q.addr), Hi(n), Lo(n)]
  }

  /** The payload after id and function, built from the bank after the write. */
  function ResponseData(c: Config, bank: Bank, q: Request): seq<byte>
    requires c.Valid() && bank.Fits(c.caps) && Check(c, q) == Accept
  {
    if IsRead(q.fn) then ReadData(c, bank, q)
    else if IsWriteSingle(q.fn) then SingleEcho(c, bank, q)
    else MultipleEcho(q)
  }

  // ---------------------------------------------------------------------
  // Request processing (_mb_sl_request_proccess, _mb_sl_send_response)
  // ---------------------------------------------------------------------

  /** The full-request processor. Every path ends in the cleared decoder;
      the bank changes only for an own, accepted request with a good CRC. */
  function Process(c: Config, s: Slave, crcMismatch: bool): (r: (Slave, seq<Event>))
    requires c.Valid() && WellFormed(c, s)
    ensures WellFormed(c, r.0) && IsCleared(c, r.0)
    ensures r.0.slaveId == s.slaveId && r.0.hasSender == s.hasSender && r.0.hasErrorHandler == s.hasErrorHandler
    ensures s.req.id != s.slaveId ==> r.0.bank == s.bank && r.1 == []
    ensures s.req.id == s.slaveId && !s.hasSender ==> r.0.bank == s.bank && r.1 == ErrorEvents(s)
    ensures s.req.id == s.slaveId && s.hasSender ==>
              match Check(c, s.req)
              case Reject(code) => r.0.bank == s.bank && r.1 == [Respond(ExceptionFrame(s.req.id, s.req.fn, code))]
              case Accept =>
                if crcMismatch then r.0.bank == s.bank && r.1 == []
                else
                  && r.0.bank == Apply(c, s.bank, s.req)
                  && r.1 == [Respond(Seal([s.req.id, s.req.fn] + ResponseData(c, r.0.bank, s.req)))]
  {
    if s.req.id != s.slaveId then (Clear(c, s), [])
    else if !s.hasSender then (Clear(c, s), ErrorEvents(s))
    else match Check(c, s.req)
      case Reject(code) => (Clear(c, s), [Respond(ExceptionFrame(s.req.id, s.req.fn, code))])
      case Accept =>
        if crcMismatch then (Clear(c, s), [])
        else
          var bank := Apply(c, s.bank, s.req);
          (Clear(c, s.(bank := bank)), [Respond(Seal([s.req.id, s.req.fn] + ResponseData(c, bank, s.req)))])
  }

  // ---------------------------------------------------------------------
  // The per-byte decoder (modbus_slave_recieve_data_byte, _mb_sl_fsm_request_*)
  // ---------------------------------------------------------------------

  /** _mb_sl_fsm_request_slave_id: a foreign id keeps the decoder waiting and drops the octet. */
  function OnId(s: Slave, b: byte): Slave
  {
    var s' := s.(req := s.req.(id := b), counter := 0);
    if b != s.slaveId then s'.(raw := []) else s'.(stage := AwaitFunction)
  }

  /** _mb_sl_fsm_request_command: an unavailable function is answered at once. */
  function OnFunction(c: Config, s: Slave, b: byte): (r: (Slave, seq<Event>))
    requires c.Valid() && WellFormed(c, s)
  {
    var s' := s.(req := s.req.(fn := b), counter := 0, stage := AwaitAddress);
    if s.req.id != s.slaveId then (s', [])
    else if !Available(c, b) then Process(c, s', false)
    else (s', [])
  }

  /** _mb_sl_fsm_request_register_addr: two octets, high first; the address
      is checked once both are in. */
  function OnAddress(c: Config, s: Slave, b: byte): (r: (Slave, seq<Event>))
    requires c.Valid() && WellFormed(c, s)
  {
    var done := s.counter == 2;
    var s' := s.(req := s.req.(addr := ShiftIn(s.req.addr, b)),
                 counter := if done then 0 else s.counter,
                 stage := if done then AwaitPayload else AwaitAddress);
    if s.req.id != s.slaveId || !done then (s', [])
    else if !AddressOk(c, s'.req) then Process(c, s', false)
    else (s', [])
  }

  /** Payload length of the request: 2 octets for reads and single writes;
      3 + the declared byte count for multiple writes. */
  function PayloadLength(fn: byte, special: seq<byte>): nat
  {
    if IsRead(fn) || IsWriteSingle(fn) then VALUE_SIZE
    else if IsWriteMultiple(fn) then META_COUNT + ByteCount(special)
    else 0
  }

  /** Payload octets that must be in before the quantity is checked early. */
  function EarlyCheckAfter(fn: byte): nat
  {
    if IsRead(fn) || IsWriteSingle(fn) then VALUE_SIZE
    else if IsWriteMultiple(fn) then VALUE_SIZE + 1
    else 0
  }

  /** Whether payload octet number `counter` is dropped: the quantity read so
      far overruns the table, or the area has no room. */
  predicate SkipsOctet(c: Config, q: Request, counter: nat)
  {
    q.addr + NeededCount(q.fn, q.special) > FnCapacity(c, q.fn) || counter > c.specialSize
  }

  /** _mb_sl_fsm_request_special_data */
  function OnPayload(c: Config, s: Slave, b: byte): (r: (Slave, seq<Event>))
    requires c.Valid() && WellFormed(c, s) && s.counter >= 1
  {
    var sp := if SkipsOctet(c, s.req, s.counter) then s.req.special else Put(s.req.special, s.counter - 1, b);
    var done := s.counter == PayloadLength(s.req.fn, sp);
    var s' := s.(req := s.req.(special := sp), counter := if done then 0 else s.counter,
                 stage := if done then AwaitCrc else AwaitPayload);
    if s.req.id != s.slaveId || s.counter <= EarlyCheckAfter(s.req.fn) then (s', [])
    else if !CountOk(c, s'.req) then Process(c, s', false)
    else (s', [])
  }

  /** _mb_sl_fsm_request_crc: two octets, low first; then the request is
      processed with the CRC verdict. */
  function OnCrc(c: Config, s: Slave, b: byte): (r: (Slave, seq<Event>))
    requires c.Valid() && WellFormed(c, s)
  {
    var s' := s.(crc := s.crc / 0x100 + b * 0x100);
    if s.counter < 2 then (s', [])
    else if s.req.id != s.slaveId then (Clear(c, s'), [])
    else Process(c, s', s'.crc != Crc16(WithoutCrc(s'.raw)))
  }

  /** modbus_slave_recieve_data_byte: record the octet, run the current
      stage, and drop everything once the raw buffer is full. */
  function Receive(c: Config, s: Slave, b: byte): (r: (Slave, seq<Event>))
    requires c.Valid() && WellFormed(c, s)
    ensures WellFormed(c, r.0)
    ensures r.0.slaveId == s.slaveId && r.0.hasSender == s.hasSender && r.0.hasErrorHandler == s.hasErrorHandler
  {
    var s1 := s.(raw := s.raw + [b], counter := s.counter + 1);
    var (s2, events) :=
      match s.stage
      case AwaitId => (OnId(s1, b), [])
      case AwaitFunction => OnFunction(c, s1, b)
      case AwaitAddress => OnAddress(c, s1, b)
      case AwaitPayload => OnPayload(c, s1, b)
      case AwaitCrc => OnCrc(c, s1, b);
    if |s2.raw| >= c.requestSize then (Clear(c, s2), events) else (s2, events)
  }

  /** A sequence of octets fed one at a time. */
  function Run(c: Config, s: Slave, bytes: seq<byte>): (r: (Slave, seq<Event>))
    requires c.Valid() && WellFormed(c, s)
    ensures WellFormed(c, r.0)
    ensures r.0.slaveId == s.slaveId && r.0.hasSender == s.hasSender && r.0.hasErrorHandler == s.hasErrorHandler
    decreases |bytes|
  {
    if |bytes| == 0 then (s, [])
    else
      var (s1, e1) := Receive(c, s, bytes[0]);
      var (s2, e2) := Run(c, s1, bytes[1..]);
      (s2, e1 + e2)
  }
}
