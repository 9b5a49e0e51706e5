/** The initiator (src/modbus_rtu_master.c). Its request side builds a frame,
    records the outstanding request (device id, function, address) and hands
    the frame to the registered sender. Its response side is a per-octet
    state machine over the device's reply. It checks the reply against the
    outstanding request, the enabled function codes and the CRC, and then
    delivers a packet of 16-bit slots to the registered packet handler.

    The engine is modelled as pure functions from (settings, state, input) to
    (state', events). The stage function pointer becomes a `Stage`. A
    registered callback becomes a flag, and its invocation becomes an
    `Event`. The memset buffers become zero-filled sequences of their fixed
    length. */
module Master {
  import opened Bytes
  import opened Crc
  import opened Protocol

  /** Compile-time settings: the MODBUS_ENABLE_* switches and the sizes
      MODBUS_MESSAGE_DATA_SIZE (the request and response buffers and the
      packet's slots), the request's special_data array, the response's data
      array and MODBUS_REGISTER_SIZE. All of them come from modbus_rtu_base.h,
      which is not part of this model. */
  datatype Config = Config(enabled: set<byte>, messageSize: nat, specialSize: nat, dataSize: nat, registerSize: nat)
  {
    /** What the code takes for granted of its settings. Only the eight
        known codes can be switched on. A quantity that passes the encoders'
        guards fits the uint8_t byte-count field and the uint8_t loop
        counter. A whole request fits the request buffer and the sender's
        uint8_t length. The response length and the uint8_t octet counter
        never wrap. */
    predicate Valid()
    {
      (forall fn :: fn in enabled ==> IsKnown(fn))
      && specialSize <= 0xFF && specialSize + 9 <= messageSize <= 0xFE
    }

    /** One of the MODBUS_ENABLE_* read switches is on (master.c:481). */
    predicate AnyRead()
    {
      READ_COILS in enabled || READ_INPUT_STATUS in enabled
      || READ_HOLDING_REGISTERS in enabled || READ_INPUT_REGISTERS in enabled
    }

    /** One of the MODBUS_ENABLE_* write switches is on (master.c:476). */
    predicate AnyWrite()
    {
      FORCE_SINGLE_COIL in enabled || PRESET_SINGLE_REGISTER in enabled
      || FORCE_MULTIPLE_COILS in enabled || PRESET_MULTIPLE_REGISTERS in enabled
    }
  }

  /** The response byte handler in use. */
  datatype Stage = AwaitId | AwaitFunction | AwaitLength | AwaitAddress | AwaitPayload | AwaitException | AwaitCrc

  /** modbus_response_t.status (master.h:21-27). */
  datatype Status = NoError | ErrorCommand | ErrorRegAddr | ErrorData | ErrorCrc
  {
    function Code(): byte
    {
      match this
      case NoError => 0
      case ErrorCommand => 1
      case ErrorRegAddr => 2
      case ErrorData => 3
      case ErrorCrc => 4
    }
  }

  /** What the packet handler receives: status, the replying device, the
      function code as received, and MODBUS_MESSAGE_DATA_SIZE 16-bit slots. */
  datatype Packet = Packet(status: Status, slaveId: byte, command: byte, values: seq<u16>)

  /** The callbacks the engine invokes, and the two places where the code
      writes one octet past an array. The model reports those writes instead
      of storing them. */
  datatype Event =
    | Transmit(frame: seq<byte>)
    | InternalError
    | Deliver(packet: Packet)
    | ResponseOverrun
    | RequestOverrun

  /** A caller-supplied array: NULL, or at least the elements the call reads. */
  datatype Data<T> = Null | Items(items: seq<T>)

  /** data_resp: what the decoder has read of the reply so far. */
  datatype Response = Response(id: byte, fn: byte, dataLen: byte, addr: u16, data: seq<byte>, crc: u16)

  /** mb_master_state. Of data_req, only the fields the code later reads, or
      that describe the outstanding request, are kept: id, command and
      address. */
  datatype Master = Master(
    hasSender: bool, hasPacketHandler: bool, hasErrorHandler: bool,
    reqId: byte, reqFn: byte, reqAddr: u16,
    stage: Stage, counter: nat, resp: Response, raw: seq<byte>)

  predicate WellFormed(c: Config, m: Master)
  {
    |m.resp.data| == c.dataSize
  }

  function NoResponse(c: Config): Response
  {
    Response(0, 0, 0, 0, Zeros(c.dataSize), 0)
  }

  /** Right after _mb_ms_reset_data. */
  predicate IsReset(c: Config, m: Master)
  {
    m.reqId == 0 && m.reqFn == 0 && m.reqAddr == 0
    && m.stage == AwaitId && m.counter == 0 && m.resp == NoResponse(c) && m.raw == []
  }

  /** Registered handlers are the same in both states. */
  predicate SameHandlers(m: Master, m': Master)
  {
    m'.hasSender == m.hasSender && m'.hasPacketHandler == m.hasPacketHandler
    && m'.hasErrorHandler == m.hasErrorHandler
  }

  /** _mb_ms_reset_data (master.c:339-348): both messages, the response buffer and
      the octet counter cleared, back to the first stage. */
  function Reset(c: Config, m: Master): (r: Master)
    ensures WellFormed(c, r) && IsReset(c, r) && SameHandlers(m, r)
  {
    m.(reqId := 0, reqFn := 0, reqAddr := 0, stage := AwaitId, counter := 0, resp := NoResponse(c), raw := [])
  }

  /** The engine before any call, with the given handlers registered. */
  function Initial(c: Config, hasSender: bool, hasPacketHandler: bool, hasErrorHandler: bool): (r: Master)
    ensures WellFormed(c, r) && IsReset(c, r)
    ensures r.hasSender == hasSender && r.hasPacketHandler == hasPacketHandler
    ensures r.hasErrorHandler == hasErrorHandler
  {
    Master(hasSender, hasPacketHandler, hasErrorHandler, 0, 0, 0, AwaitId, 0, NoResponse(c), [])
  }

  /** _mb_ms_do_internal_error: the error handler runs when one is registered. */
  function ErrorEvents(m: Master): seq<Event>
  {
    if m.hasErrorHandler then [InternalError] else []
  }

  /** modbus_master_timeout: report, and drop whatever was half-received. */
  function Timeout(c: Config, m: Master): (r: (Master, seq<Event>))
    ensures IsReset(c, r.0) && WellFormed(c, r.0) && SameHandlers(m, r.0)
    ensures r.1 == ErrorEvents(m)
  {
    (Reset(c, m), ErrorEvents(m))
  }

  // ---------------------------------------------------------------- requests

  /** The outstanding request is now (id, fn, addr); nothing else changed. */
  predicate Records(m: Master, m': Master, id: byte, fn: byte, addr: u16)
  {
    m' == m.(reqId := id, reqFn := fn, reqAddr := addr)
  }

  /** The events of handing `frame` to the sender: the frame itself, or the
      internal error when no sender is registered. */
  function Send(m: Master, frame: seq<byte>): seq<Event>
  {
    if m.hasSender then [Transmit(frame)] else ErrorEvents(m)
  }

  /** The 8-octet request of the six fixed-size functions: device id,
      function, address and one 16-bit value, both high octet first, then
      the CRC. */
  function SimpleFrame(id: byte, fn: byte, addr: u16, v: u16): (f: seq<byte>)
    ensures |f| == 8 && f[0] == id && f[1] == fn
    ensures f[2] == Hi(addr) && f[3] == Lo(addr) && f[4] == Hi(v) && f[5] == Lo(v)
    ensures f == Seal(f[..6])
  {
    var body := [id, fn, Hi(addr), Lo(addr), Hi(v), Lo(v)];
    var f := Seal(body);
    assert f[2] == body[2] && f[3] == body[3] && f[4] == body[4] && f[5] == body[5];
    f
  }

  /** _mb_ms_send_simple_message (master.c:253-284). */
  function SendSimple(m: Master, id: byte, fn: byte, addr: u16, v: u16): (r: (Master, seq<Event>))
    ensures Records(m, r.0, id, fn, addr)
    ensures r.1 == (if m.hasSender then [Transmit(SimpleFrame(id, fn, addr, v))] else ErrorEvents(m))
  {
    (m.(reqId := id, reqFn := fn, reqAddr := addr), Send(m, SimpleFrame(id, fn, addr, v)))
  }

  /** The six public wrappers of master.c:110-138 each send one simple request. */
  function ReadCoils(m: Master, id: byte, addr: u16, count: u16): (Master, seq<Event>)
  {
    SendSimple(m, id, READ_COILS, addr, count)
  }

  function ReadInputStatus(m: Master, id: byte, addr: u16, count: u16): (Master, seq<Event>)
  {
    SendSimple(m, id, READ_INPUT_STATUS, addr, count)
  }

  function ReadHoldingRegisters(m: Master, id: byte, addr: u16, count: u16): (Master, seq<Event>)
  {
    SendSimple(m, id, READ_HOLDING_REGISTERS, addr, count)
  }

  function ReadInputRegisters(m: Master, id: byte, addr: u16, count: u16): (Master, seq<Event>)
  {
    SendSimple(m, id, READ_INPUT_REGISTERS, addr, count)
  }

  function ForceSingleCoil(m: Master, id: byte, addr: u16, value: u16): (Master, seq<Event>)
  {
    SendSimple(m, id, FORCE_SINGLE_COIL, addr, value)
  }

  function PresetSingleRegister(m: Master, id: byte, addr: u16, value: u16): (Master, seq<Event>)
  {
    SendSimple(m, id, PRESET_SINGLE_REGISTER, addr, value)
  }

  /** ceil(n / 8): the octets that carry n coils. */
  function CoilOctetCount(n: nat): nat
  {
    n / 8 + (if n % 8 > 0 then 1 else 0)
  }

  function Min(a: int, b: int): int
  {
    if a < b then a else b
  }

  /** Coils packed eight to an octet, coil i at bit i % 8 of octet i / 8
      (PackedCoil); the unused high bits of the last octet are clear
      (PackedPaddingClear). */
  function PackCoils(bits: seq<bool>): (r: seq<byte>)
    ensures |r| == CoilOctetCount(|bits|)
  {
    var n := CoilOctetCount(|bits|);
    seq(n, j requires 0 <= j < n => PackByte(bits[8 * j .. Min(8 * j + 8, |bits|)]))
  }

  lemma PackedCoil(bits: seq<bool>, i: nat)
    requires i < |bits|
    ensures i / 8 < |PackCoils(bits)| && Bit(PackCoils(bits)[i / 8], i % 8) == bits[i]
  {
    var j := i / 8;
    assert 8 * j <= i < 8 * j + 8;
    assert bits[8 * j .. Min(8 * j + 8, |bits|)][i % 8] == bits[i];
  }

  lemma PackedPaddingClear(bits: seq<bool>, j: nat, p: nat)
    requires j < |PackCoils(bits)| && |bits| <= 8 * j + p
    ensures !Bit(PackCoils(bits)[j], p)
  {
  }

  /** Coil i read back from bit i % 8 of octet i / 8. */
  function UnpackCoils(octets: seq<byte>, n: nat): (r: seq<bool>)
    ensures |r| == n
  {
    seq(n, i => Bit(Get(octets, i / 8), i % 8))
  }

  /** The force-multiple-coils request: header, quantity, octet count, the
      packed coils, CRC. */
  function CoilsFrame(id: byte, addr: u16, coils: seq<bool>): (f: seq<byte>)
    requires 0 < |coils| <= 0xFF
    ensures var k := CoilOctetCount(|coils|);
            |f| == 9 + k && f[0] == id && f[1] == FORCE_MULTIPLE_COILS
            && f[2] == Hi(addr) && f[3] == Lo(addr) && f[4] == Hi(|coils|) && f[5] == Lo(|coils|)
            && f[6] == k && f[7..7 + k] == PackCoils(coils) && f == Seal(f[..7 + k])
  {
    var k := CoilOctetCount(|coils|);
    var packed := PackCoils(coils);
    var body := [id, FORCE_MULTIPLE_COILS, Hi(addr), Lo(addr), Hi(|coils|), Lo(|coils|), k] + packed;
    var f := Seal(body);
    assert f[2] == body[2] && f[3] == body[3] && f[4] == body[4] && f[5] == body[5] && f[6] == body[6];
    assert f[7..7 + k] == packed by {
      assert f[..|body|] == body;
      assert body[7..] == packed;
    }
    f
  }

  /** modbus_master_force_multiple_coils (master.c:140-196). A zero quantity
      or a NULL array is refused before anything is recorded. A quantity
      beyond special_data is refused after the request is recorded. The
      three meta octets and the packed coils are also copied into
      special_data; when they do not fit, the write past the array shows up
      as `RequestOverrun` before the frame is sent. */
  function ForceMultipleCoils(c: Config, m: Master, id: byte, addr: u16, data: Data<bool>, n: u16): (r: (Master, seq<Event>))
    requires c.Valid()
    requires data.Items? ==> n <= |data.items|
    ensures n == 0 || data.Null? ==> r == (m, ErrorEvents(m))
    ensures n > 0 && data.Items? ==> Records(m, r.0, id, FORCE_MULTIPLE_COILS, addr)
    ensures n > 0 && data.Items? && n > c.specialSize ==> r.1 == ErrorEvents(m)
    ensures n > 0 && data.Items? && n <= c.specialSize ==>
              r.1 == (if c.specialSize < META_COUNT + CoilOctetCount(n) then [RequestOverrun] else [])
                     + (if m.hasSender then [Transmit(CoilsFrame(id, addr, data.items[..n]))] else ErrorEvents(m))
  {
    if n == 0 || data.Null? then (m, ErrorEvents(m))
    else
      var m' := m.(reqId := id, reqFn := FORCE_MULTIPLE_COILS, reqAddr := addr);
      if n > c.specialSize then (m', ErrorEvents(m))
      else
        var overrun := if c.specialSize < META_COUNT + CoilOctetCount(n) then [RequestOverrun] else [];
        (m', overrun + Send(m, CoilsFrame(id, addr, data.items[..n])))
  }

  /** The preset-multiple-registers request: header, quantity, octet count,
      the values high octet first, CRC. */
  function RegistersFrame(id: byte, addr: u16, values: seq<u16>): (f: seq<byte>)
    requires 0 < 2 * |values| <= 0xFF
    ensures var k := 2 * |values|;
            |f| == 9 + k && f[0] == id && f[1] == PRESET_MULTIPLE_REGISTERS
            && f[2] == Hi(addr) && f[3] == Lo(addr) && f[4] == Hi(|values|) && f[5] == Lo(|values|)
            && f[6] == k && f[7..7 + k] == BigEndian(values) && f == Seal(f[..7 + k])
  {
    var k := 2 * |values|;
    var octets := BigEndian(values);
    var body := [id, PRESET_MULTIPLE_REGISTERS, Hi(addr), Lo(addr), Hi(|values|), Lo(|values|), k] + octets;
    var f := Seal(body);
    assert f[2] == body[2] && f[3] == body[3] && f[4] == body[4] && f[5] == body[5] && f[6] == body[6];
    assert f[7..7 + k] == octets by {
      assert f[..|body|] == body;
      assert body[7..] == octets;
    }
    f
  }

  /** modbus_master_preset_multiple_registers (master.c:198-251). The guard
      compares 2n octets with special_data, but 3 + 2n octets are stored
      there. When only the three meta octets do not fit, the write past the
      array shows up as `RequestOverrun` before the frame is sent. */
  function PresetMultipleRegisters(c: Config, m: Master, id: byte, addr: u16, data: Data<u16>, n: u16): (r: (Master, seq<Event>))
    requires c.Valid()
    requires data.Items? ==> n <= |data.items|
    ensures n == 0 || data.Null? ==> r == (m, ErrorEvents(m))
    ensures n > 0 && data.Items? ==> Records(m, r.0, id, PRESET_MULTIPLE_REGISTERS, addr)
    ensures n > 0 && data.Items? && 2 * n > c.specialSize ==> r.1 == ErrorEvents(m)
    ensures n > 0 && data.Items? && 2 * n <= c.specialSize ==>
              r.1 == (if c.specialSize < META_COUNT + 2 * n then [RequestOverrun] else [])
                     + (if m.hasSender then [Transmit(RegistersFrame(id, addr, data.items[..n]))] else ErrorEvents(m))
  {
    if n == 0 || data.Null? then (m, ErrorEvents(m))
    else
      var m' := m.(reqId := id, reqFn := PRESET_MULTIPLE_REGISTERS, reqAddr := addr);
      if 2 * n > c.specialSize then (m', ErrorEvents(m))
      else
        var overrun := if c.specialSize < META_COUNT + 2 * n then [RequestOverrun] else [];
        (m', overrun + Send(m, RegistersFrame(id, addr, data.items[..n])))
  }

  // ---------------------------------------------------------------- responses

  /** _mb_ms_is_recieved_needed_slave_id: the reply comes from the device
      the outstanding request went to. */
  predicate FromRequested(m: Master)
  {
    m.reqId == m.resp.id
  }

  /** _mb_ms_get_response_bytes_count (master.c:473-486): the number of
      octets to read after the header. For a non-read function it is 2 when
      some write is enabled; for a read it is the received byte count when
      some read is enabled; otherwise 0. */
  function ExpectedOctets(c: Config, resp: Response): nat
  {
    if c.AnyWrite() && !IsRead(resp.fn) then 2
    else if c.AnyRead() && IsRead(resp.fn) then resp.dataLen
    else 0
  }

  /** _mb_ms_fsm_response_slave_id */
  function OnId(m: Master, b: byte): Master
  {
    m.(resp := m.resp.(id := b), counter := 0, stage := AwaitFunction)
  }

  /** _mb_ms_fsm_response_command: the received code picks the layout. */
  function OnFunction(m: Master, b: byte): (r: Master)
    ensures r.stage == (if IsRead(b) then AwaitLength else if IsWrite(b) then AwaitAddress else AwaitException)
  {
    var next := if IsRead(b) then AwaitLength else if IsWrite(b) then AwaitAddress else AwaitException;
    m.(resp := m.resp.(fn := b), counter := 0, stage := next)
  }

  /** _mb_ms_fsm_response_data_len */
  function OnLength(m: Master, b: byte): Master
  {
    m.(resp := m.resp.(dataLen := b), counter := 0, stage := AwaitPayload)
  }

  /** _mb_ms_fsm_response_register_addr: the echoed address, checked after
      every octet against MODBUS_REGISTER_SIZE. */
  function OnAddress(c: Config, m: Master, b: byte): (r: Master)
    requires WellFormed(c, m)
    ensures WellFormed(c, r) && (r.reqId == m.reqId || IsReset(c, r)) && |r.raw| <= |m.raw|
  {
    var addr := ShiftIn(m.resp.addr, b);
    var done := m.counter == 2;
    var m' := m.(resp := m.resp.(addr := addr),
                 counter := if done then 0 else m.counter,
                 stage := if done then AwaitPayload else AwaitAddress);
    if addr >= c.registerSize then Reset(c, m') else m'
  }

  /** Once the expected octet count is reached, the CRC stage follows. */
  function CountPayload(c: Config, m: Master): Master
  {
    if m.counter == ExpectedOctets(c, m.resp) then m.(counter := 0, stage := AwaitCrc) else m
  }

  /** _mb_ms_fsm_response_special_data (master.c:417-443). Octets of a
      reply from another device are only counted. */
  function OnPayload(c: Config, m: Master, b: byte): (r: (Master, seq<Event>))
    requires WellFormed(c, m) && m.counter >= 1
    ensures WellFormed(c, r.0) && (r.0.reqId == m.reqId || IsReset(c, r.0)) && |r.0.raw| <= |m.raw|
    ensures forall e :: e in r.1 ==> e == InternalError
  {
    if !FromRequested(m) then (CountPayload(c, m), [])
    else if ExpectedOctets(c, m.resp) > 2 * c.registerSize then (Reset(c, m), ErrorEvents(m))
    else if m.counter > c.dataSize then (Reset(c, m), ErrorEvents(m))
    else (CountPayload(c, m.(resp := m.resp.(data := Put(m.resp.data, m.counter - 1, b)))), [])
  }

  /** _mb_ms_fsm_response_error: the exception code. */
  function OnException(m: Master, b: byte): Master
  {
    m.(resp := m.resp.(data := Put(m.resp.data, 0, b)), counter := 0, stage := AwaitCrc)
  }

  /** _mb_ms_check_response_crc: the received CRC matches all octets before it. */
  predicate CrcOk(m: Master)
  {
    m.resp.crc == Crc16(WithoutCrc(m.raw))
  }

  predicate IsDiscrete(fn: byte)
  {
    fn == READ_COILS || fn == READ_INPUT_STATUS
  }

  predicate IsAnalog(fn: byte)
  {
    fn == READ_HOLDING_REGISTERS || fn == READ_INPUT_REGISTERS
  }

  /** The packet's slots for function `fn` (master.c:350-374): a discrete read
      puts each data octet in its own slot. An analog read joins the octets
      pairwise, high first. A write echo puts its value in slot 0. The slots
      are MODBUS_MESSAGE_DATA_SIZE long and zero elsewhere. */
  function Unpack(c: Config, fn: byte, resp: Response): (r: seq<u16>)
    ensures |r| == c.messageSize
  {
    seq(c.messageSize, i requires 0 <= i < c.messageSize => Slot(fn, resp, i))
  }

  /** Slot i of the packet for function `fn`. */
  function Slot(fn: byte, resp: Response, i: nat): u16
  {
    if IsDiscrete(fn) then (if i < resp.dataLen then Get(resp.data, i) else 0)
    else if IsAnalog(fn) then (if 2 * i < resp.dataLen then Word(Get(resp.data, 2 * i), Get(resp.data, 2 * i + 1)) else 0)
    else if IsWrite(fn) then (if i == 0 then Word(Get(resp.data, 0), Get(resp.data, 1)) else 0)
    else 0
  }

  /** The packet _mb_ms_response_proccess builds (master.c:299-333). If the
      code is not enabled, its exception bit is flipped (ERROR_DATA). If it
      is still not enabled, the status is ERROR_COMMAND; then a bad CRC gives
      ERROR_CRC. Otherwise the slots are filled for the possibly flipped
      code. The packet carries the code as received. */
  function Classify(c: Config, m: Master): (r: Packet)
    ensures r.slaveId == m.resp.id && r.command == m.resp.fn && |r.values| == c.messageSize
    ensures r.status != ErrorRegAddr
    ensures r.status == ErrorCommand <==> m.resp.fn !in c.enabled && ToggleExceptionBit(m.resp.fn) !in c.enabled
    ensures r.status == ErrorCrc <==> (m.resp.fn in c.enabled || ToggleExceptionBit(m.resp.fn) in c.enabled) && !CrcOk(m)
    ensures r.status == ErrorCommand || r.status == ErrorCrc ==> forall i :: 0 <= i < |r.values| ==> r.values[i] == 0
  {
    var fn := if m.resp.fn in c.enabled then m.resp.fn else ToggleExceptionBit(m.resp.fn);
    if fn !in c.enabled then Packet(ErrorCommand, m.resp.id, m.resp.fn, seq(c.messageSize, _ => 0))
    else if !CrcOk(m) then Packet(ErrorCrc, m.resp.id, m.resp.fn, seq(c.messageSize, _ => 0))
    else Packet(if fn == m.resp.fn then NoError else ErrorData, m.resp.id, m.resp.fn, Unpack(c, fn, m.resp))
  }

  /** _mb_ms_response_proccess, as events. With no packet handler it only
      reports an internal error. */
  function Process(c: Config, m: Master): (r: seq<Event>)
    ensures !FromRequested(m) ==> r == []
    ensures FromRequested(m) && !m.hasPacketHandler ==> r == ErrorEvents(m)
    ensures FromRequested(m) && m.hasPacketHandler ==> r == [Deliver(Classify(c, m))]
  {
    if !FromRequested(m) then []
    else if !m.hasPacketHandler then ErrorEvents(m)
    else [Deliver(Classify(c, m))]
  }

  /** _mb_ms_fsm_response_crc (master.c:452-471). The second CRC octet
      completes the reply, and the engine is reset whatever the outcome. */
  function OnCrc(c: Config, m: Master, b: byte): (r: (Master, seq<Event>))
    requires WellFormed(c, m)
    ensures WellFormed(c, r.0) && (r.0.reqId == m.reqId || IsReset(c, r.0)) && |r.0.raw| <= |m.raw|
    ensures forall e :: e in r.1 ==> e == InternalError || e.Deliver?
  {
    var m' := m.(resp := m.resp.(crc := m.resp.crc / 0x100 + b * 0x100));
    if m'.counter < 2 then (m', [])
    else if !FromRequested(m') then (Reset(c, m'), [])
    else (Reset(c, m'), Process(c, m'))
  }

  /** The handler of the current stage, applied to the octet just stored. */
  function Dispatch(c: Config, m: Master, b: byte): (r: (Master, seq<Event>))
    requires WellFormed(c, m) && m.counter >= 1
    ensures WellFormed(c, r.0) && SameHandlers(m, r.0)
    ensures (r.0.reqId == m.reqId || IsReset(c, r.0)) && |r.0.raw| <= |m.raw|
    ensures forall e :: e in r.1 ==> e == InternalError || e.Deliver?
  {
    match m.stage
    case AwaitId => (OnId(m, b), [])
    case AwaitFunction => (OnFunction(m, b), [])
    case AwaitLength => (OnLength(m, b), [])
    case AwaitAddress => (OnAddress(c, m, b), [])
    case AwaitPayload => OnPayload(c, m, b)
    case AwaitException => (OnException(m, b), [])
    case AwaitCrc => OnCrc(c, m, b)
  }

  /** modbus_master_recieve_data_byte (master.c:85-102). A response longer
      than the buffer is reported and dropped, but only once it is already
      one octet past the end. The store that first goes past the end is
      reported as `ResponseOverrun`. */
  function Receive(c: Config, m: Master, b: byte): (r: (Master, seq<Event>))
    requires c.Valid() && WellFormed(c, m)
    ensures WellFormed(c, r.0) && SameHandlers(m, r.0)
    ensures r.0.reqId == m.reqId || r.0.reqId == 0
    ensures |m.raw| > c.messageSize && m.hasErrorHandler ==> |r.1| > 0 && r.1[0] == InternalError
    ensures ResponseOverrun in r.1 <==> |m.raw| == c.messageSize
    ensures |r.0.raw| <= (if |m.raw| > c.messageSize then 1 else |m.raw| + 1)
  {
    var m0 := if |m.raw| > c.messageSize then Reset(c, m) else m;
    var e0 := if |m.raw| > c.messageSize then ErrorEvents(m) else [];
    var e1 := if |m0.raw| == c.messageSize then [ResponseOverrun] else [];
    var m1 := m0.(raw := m0.raw + [b], counter := m0.counter + 1);
    var d := Dispatch(c, m1, b);
    assert ResponseOverrun !in d.1;
    (d.0, e0 + e1 + d.1)
  }

  /** A stream of octets received one after another. */
  function Run(c: Config, m: Master, bytes: seq<byte>): (r: (Master, seq<Event>))
    requires c.Valid() && WellFormed(c, m)
    ensures WellFormed(c, r.0) && SameHandlers(m, r.0)
    decreases |bytes|
  {
    if |bytes| == 0 then (m, [])
    else
      var (m1, e1) := Receive(c, m, bytes[0]);
      var (m2, e2) := Run(c, m1, bytes[1..]);
      (m2, e1 + e2)
  }
}
