/** Properties of the responder model: register access, the decoder's
    invariant and early exits, the CRC verdict, the response payloads and
    the effect of writes. */
module SlaveProperties {
  import opened Bytes
  import opened Crc
  import opened Protocol
  import opened Registers
  import opened Slave

  // ---------------------------------------------------------------------
  // Register access
  // ---------------------------------------------------------------------

  /** A value set in range is read back (a coil as 0/1), and every other
      entry of every table reads as before. */
  lemma SetThenGet(c: Config, s: Slave, t: RegisterType, i: u16, v: u16, u: RegisterType, j: u16)
    requires WellFormed(c, s) && i < c.caps.Of(t) && j < c.caps.Of(u)
    ensures var s' := SetRegister(c, s, t, i, v).0;
            GetRegister(c, s', u, j).0 ==
              if u == t && j == i then (if t.IsCoil() then (if v > 0 then 1 else 0) else v)
              else GetRegister(c, s, u, j).0
  {
  }

  /** Out of range, a read yields 0 and a write changes no table; both
      answer with an illegal-data-address exception and drop the request
      in progress. */
  lemma OutOfRangeAccess(c: Config, s: Slave, t: RegisterType, i: u16, v: u16)
    requires WellFormed(c, s) && s.hasSender && i >= c.caps.Of(t)
    ensures var g := GetRegister(c, s, t, i);
            g.0 == 0 && g.1.bank == s.bank && IsCleared(c, g.1)
            && g.2 == [Respond(ExceptionFrame(0, s.req.fn, ILLEGAL_DATA_ADDRESS))]
    ensures var w := SetRegister(c, s, t, i, v);
            w.0.bank == s.bank && IsCleared(c, w.0)
            && w.1 == [Respond(ExceptionFrame(0, s.req.fn, ILLEGAL_DATA_ADDRESS))]
  {
  }

  // ---------------------------------------------------------------------
  // The decoder invariant
  // ---------------------------------------------------------------------

  /** What holds between octets in every state the decoder reaches from a
      cleared one: beyond the first stage the frame is addressed to this
      device; beyond the function stage the function is available; beyond
      the address stage the address is inside the table; stage counters
      stay below their stage's length. */
  predicate Inv(c: Config, s: Slave)
  {
    && c.Valid() && WellFormed(c, s)
    && s.counter <= |s.raw| < c.requestSize
    && match s.stage
       case AwaitId =>
         s.counter == 0 && s.raw == [] && s.req.fn == 0 && s.req.addr == 0 && s.req.special == Zeros(c.specialSize)
       case AwaitFunction =>
         s.req.id == s.slaveId && s.counter == 0 && s.req.addr == 0 && s.req.special == Zeros(c.specialSize)
       case AwaitAddress =>
         && s.req.id == s.slaveId && Available(c, s.req.fn) && s.req.special == Zeros(c.specialSize)
         && s.counter <= 1 && s.req.addr < (if s.counter == 0 then 1 else 0x100)
       case AwaitPayload =>
         && s.req.id == s.slaveId && Available(c, s.req.fn) && AddressOk(c, s.req)
         && (IsRead(s.req.fn) || IsWriteSingle(s.req.fn) ==> s.counter <= 1)
       case AwaitCrc =>
         && s.req.id == s.slaveId && Available(c, s.req.fn) && AddressOk(c, s.req) && s.counter <= 1
         && (s.counter == 1 ==> |s.raw| >= 1 && Hi(s.crc) == s.raw[|s.raw| - 1])
  }

  lemma ClearedInv(c: Config, s: Slave)
    requires c.Valid() && WellFormed(c, s) && IsCleared(c, s)
    ensures Inv(c, s)
  {
  }

  lemma {:induction false} ReceivePreservesInv(c: Config, s: Slave, b: byte)
    requires Inv(c, s)
    ensures Inv(c, Receive(c, s, b).0)
  {
    match s.stage
    case AwaitId => InvAfterHeader(c, s, b);
    case AwaitFunction => InvAfterHeader(c, s, b);
    case AwaitAddress => InvAfterAddress(c, s, b);
    case AwaitPayload => InvAfterPayload(c, s, b);
    case AwaitCrc => InvAfterCrc(c, s, b);
  }

  lemma InvAfterHeader(c: Config, s: Slave, b: byte)
    requires Inv(c, s) && (s.stage == AwaitId || s.stage == AwaitFunction)
    ensures Inv(c, Receive(c, s, b).0)
  {}

  lemma InvAfterAddress(c: Config, s: Slave, b: byte)
    requires Inv(c, s) && s.stage == AwaitAddress
    ensures Inv(c, Receive(c, s, b).0)
  {}

  lemma InvAfterPayload(c: Config, s: Slave, b: byte)
    requires Inv(c, s) && s.stage == AwaitPayload
    ensures Inv(c, Receive(c, s, b).0)
  {}

  lemma InvAfterCrc(c: Config, s: Slave, b: byte)
    requires Inv(c, s) && s.stage == AwaitCrc
    ensures Inv(c, Receive(c, s, b).0)
  {
    if s.counter == 0 {
      assert Hi(s.crc / 0x100 + b * 0x100) == b;
    }
  }

  lemma {:induction false} RunPreservesInv(c: Config, s: Slave, bytes: seq<byte>)
    requires Inv(c, s)
    ensures Inv(c, Run(c, s, bytes).0)
    decreases |bytes|
  {
    if |bytes| > 0 {
      ReceivePreservesInv(c, s, bytes[0]);
      RunPreservesInv(c, Receive(c, s, bytes[0]).0, bytes[1..]);
    }
  }

  // ---------------------------------------------------------------------
  // Response buffer
  // ---------------------------------------------------------------------

  /** Every frame handed to the sender fits MODBUS_SLAVE_RESPONSE_MESSAGE_SIZE. */
  predicate FramesFit(c: Config, events: seq<Event>)
  {
    forall e :: e in events && e.Respond? ==> |e.frame| <= c.responseSize
  }

  lemma CapacityAtMostMax(c: Config, t: RegisterType)
    ensures c.caps.Of(t) <= c.MaxCapacity()
  {}

  /** Id, function, the payload of an accepted request and the CRC together
      fit the response buffer. */
  lemma ResponseDataFits(c: Config, bank: Bank, q: Request)
    requires c.Valid() && bank.Fits(c.caps) && Check(c, q) == Accept
    ensures 4 + |ResponseData(c, bank, q)| <= c.responseSize
  {
    AcceptedBounds(c, q);
    CapacityAtMostMax(c, TypeOf(q.fn));
  }

  lemma ProcessFits(c: Config, s: Slave, crcMismatch: bool)
    requires c.Valid() && WellFormed(c, s)
    ensures FramesFit(c, Process(c, s, crcMismatch).1)
  {
    if s.req.id == s.slaveId && s.hasSender && Check(c, s.req) == Accept && !crcMismatch {
      var bank := Apply(c, s.bank, s.req);
      ResponseDataFits(c, bank, s.req);
    }
  }

  lemma OnFunctionFits(c: Config, s: Slave, b: byte)
    requires c.Valid() && WellFormed(c, s)
    ensures FramesFit(c, OnFunction(c, s, b).1)
  {
    ProcessFits(c, s.(req := s.req.(fn := b), counter := 0, stage := AwaitAddress), false);
  }

  lemma OnAddressFits(c: Config, s: Slave, b: byte)
    requires c.Valid() && WellFormed(c, s)
    ensures FramesFit(c, OnAddress(c, s, b).1)
  {
    var done := s.counter == 2;
    ProcessFits(c, s.(req := s.req.(addr := ShiftIn(s.req.addr, b)),
                      counter := if done then 0 else s.counter,
                      stage := if done then AwaitPayload else AwaitAddress), false);
  }

  lemma OnPayloadFits(c: Config, s: Slave, b: byte)
    requires c.Valid() && WellFormed(c, s) && s.counter >= 1
    ensures FramesFit(c, OnPayload(c, s, b).1)
  {
    var sp := if SkipsOctet(c, s.req, s.counter) then s.req.special else Put(s.req.special, s.counter - 1, b);
    var done := s.counter == PayloadLength(s.req.fn, sp);
    ProcessFits(c, s.(req := s.req.(special := sp), counter := if done then 0 else s.counter,
                      stage := if done then AwaitCrc else AwaitPayload), false);
  }

  lemma OnCrcFits(c: Config, s: Slave, b: byte)
    requires c.Valid() && WellFormed(c, s)
    ensures FramesFit(c, OnCrc(c, s, b).1)
  {
    var s' := s.(crc := s.crc / 0x100 + b * 0x100);
    ProcessFits(c, s', s'.crc != Crc16(WithoutCrc(s'.raw)));
  }

  /** Whatever octet arrives, the frames sent in answer fit the response buffer. */
  lemma ReceiveFits(c: Config, s: Slave, b: byte)
    requires c.Valid() && WellFormed(c, s)
    ensures FramesFit(c, Receive(c, s, b).1)
  {
    var s1 := s.(raw := s.raw + [b], counter := s.counter + 1);
    match s.stage
    case AwaitId =>
    case AwaitFunction => OnFunctionFits(c, s1, b);
    case AwaitAddress => OnAddressFits(c, s1, b);
    case AwaitPayload => OnPayloadFits(c, s1, b);
    case AwaitCrc => OnCrcFits(c, s1, b);
  }

  /** Over any stream of octets, every frame sent fits the response buffer. */
  lemma {:induction false} RunFits(c: Config, s: Slave, bytes: seq<byte>)
    requires c.Valid() && WellFormed(c, s)
    ensures FramesFit(c, Run(c, s, bytes).1)
    decreases |bytes|
  {
    if |bytes| > 0 {
      var r := Receive(c, s, bytes[0]);
      ReceiveFits(c, s, bytes[0]);
      RunFits(c, r.0, bytes[1..]);
    }
  }

  // ---------------------------------------------------------------------
  // Stage by stage
  // ---------------------------------------------------------------------

  /** An octet other than this device's id, where a frame starts, is
      dropped: nothing is sent and the decoder keeps waiting for an id. */
  lemma ForeignIdIgnored(c: Config, s: Slave, b: byte)
    requires Inv(c, s) && s.stage == AwaitId && b != s.slaveId
    ensures var r := Receive(c, s, b);
            r.1 == [] && r.0.stage == AwaitId && r.0.raw == [] && r.0.bank == s.bank
  {
  }

  /** The function octet of an own frame: an unavailable function is
      answered at once with an illegal-function exception; an available one
      moves the decoder to the address. */
  lemma FunctionStage(c: Config, s: Slave, b: byte)
    requires Inv(c, s) && s.stage == AwaitFunction && s.hasSender
    ensures var r := Receive(c, s, b);
            && (!Available(c, b) ==>
                  IsCleared(c, r.0) && r.0.bank == s.bank
                  && r.1 == [Respond(ExceptionFrame(s.slaveId, b, ILLEGAL_FUNCTION))])
            && (Available(c, b) && |s.raw| + 1 < c.requestSize ==>
                  r.0.stage == AwaitAddress && r.0.req.fn == b && r.1 == [])
  {
  }

  /** The low address octet: an address outside the function's table is
      answered at once with an illegal-data-address exception. */
  lemma AddressRejectedEarly(c: Config, s: Slave, b: byte)
    requires Inv(c, s) && s.stage == AwaitAddress && s.counter == 1 && s.hasSender
    requires Word(s.req.addr, b) >= FnCapacity(c, s.req.fn)
    ensures var r := Receive(c, s, b);
            IsCleared(c, r.0) && r.0.bank == s.bank
            && r.1 == [Respond(ExceptionFrame(s.slaveId, s.req.fn, ILLEGAL_DATA_ADDRESS))]
  {
    var s1 := s.(raw := s.raw + [b], counter := s.counter + 1);
    OnAddressRejects(c, s1, b);
  }

  lemma OnAddressRejects(c: Config, s: Slave, b: byte)
    requires c.Valid() && WellFormed(c, s) && s.counter == 2 && s.hasSender
    requires s.req.id == s.slaveId && Available(c, s.req.fn) && s.req.addr < 0x100
    requires Word(s.req.addr, b) >= FnCapacity(c, s.req.fn)
    ensures var r := OnAddress(c, s, b);
            IsCleared(c, r.0) && r.0.bank == s.bank
            && r.1 == [Respond(ExceptionFrame(s.slaveId, s.req.fn, ILLEGAL_DATA_ADDRESS))]
  {
    var s2 := s.(req := s.req.(addr := Word(s.req.addr, b)), counter := 0, stage := AwaitPayload);
    assert Check(c, s2.req) == Reject(ILLEGAL_DATA_ADDRESS);
    assert OnAddress(c, s, b) == Process(c, s2, false);
  }

  /** The low address octet of an address inside the function's table: the
      full address is kept, high octet first, and the payload follows. */
  lemma AddressAccepted(c: Config, s: Slave, b: byte)
    requires Inv(c, s) && s.stage == AwaitAddress && s.counter == 1
    requires Word(s.req.addr, b) < FnCapacity(c, s.req.fn) && |s.raw| + 1 < c.requestSize
    ensures var r := Receive(c, s, b);
            r.0.stage == AwaitPayload && r.0.req.addr == Word(s.req.addr, b) && r.1 == []
  {
  }

  /** Reads and single writes are never answered from the payload stage;
      their quantity is judged when the frame is complete. */
  lemma NoEarlyAnswerForShortPayload(c: Config, s: Slave, b: byte)
    requires Inv(c, s) && s.stage == AwaitPayload && (IsRead(s.req.fn) || IsWriteSingle(s.req.fn))
    ensures Receive(c, s, b).1 == []
  {
  }

  /** A multiple write whose quantity or byte count is bad is answered with
      an illegal-data-value exception as soon as its fourth payload octet
      arrives, before the rest of the frame. */
  lemma ExcessQuantityAnsweredEarly(c: Config, s: Slave, b: byte)
    requires Inv(c, s) && s.stage == AwaitPayload && IsWriteMultiple(s.req.fn) && s.hasSender
    requires s.counter >= META_COUNT && !CountOk(c, s.req)
    ensures var r := Receive(c, s, b);
            IsCleared(c, r.0) && r.0.bank == s.bank
            && r.1 == [Respond(ExceptionFrame(s.slaveId, s.req.fn, ILLEGAL_DATA_VALUE))]
  {
    var s1 := s.(raw := s.raw + [b], counter := s.counter + 1);
    var sp := if SkipsOctet(c, s1.req, s1.counter) then s1.req.special else Put(s1.req.special, s1.counter - 1, b);
    assert Get(sp, 0) == Get(s.req.special, 0) && Get(sp, 1) == Get(s.req.special, 1);
    assert ByteCount(sp) == ByteCount(s.req.special);
    assert !CountOk(c, s.req.(special := sp));
  }

  /** The second CRC octet completes the frame: a request that passes the
      gate is carried out and answered iff the two CRC octets match the
      checksum of everything before them; on a mismatch nothing is sent and
      nothing is written. */
  lemma ChecksumDecides(c: Config, s: Slave, b: byte)
    requires Inv(c, s) && s.stage == AwaitCrc && s.counter == 1 && s.hasSender
    requires Check(c, s.req) == Accept
    ensures var frame := s.raw + [b];
            var r := Receive(c, s, b);
            && IsCleared(c, r.0)
            && (Intact(frame) ==>
                  && r.0.bank == Apply(c, s.bank, s.req)
                  && r.1 == [Respond(Seal([s.req.id, s.req.fn] + ResponseData(c, r.0.bank, s.req)))])
            && (!Intact(frame) ==> r.0.bank == s.bank && r.1 == [])
  {
    var frame := s.raw + [b];
    var crc: u16 := s.crc / 0x100 + b * 0x100;
    assert crc == Word(frame[|frame| - 1], frame[|frame| - 2]);
    assert WithoutCrc(frame) == frame[..|frame| - 2];
  }

  /** A request the gate rejects is answered with its exception code once
      the frame is complete, whatever its CRC octets. */
  lemma RejectedWhateverChecksum(c: Config, s: Slave, b: byte)
    requires Inv(c, s) && s.stage == AwaitCrc && s.counter == 1 && s.hasSender
    requires Check(c, s.req).Reject?
    ensures var r := Receive(c, s, b);
            IsCleared(c, r.0) && r.0.bank == s.bank
            && r.1 == [Respond(ExceptionFrame(s.slaveId, s.req.fn, Check(c, s.req).code))]
  {
  }

  // ---------------------------------------------------------------------
  // Response payloads
  // ---------------------------------------------------------------------

  /** A register read answers 2 octets per register, and the words read
      back from them (high octet first) are exactly the registers asked for. */
  lemma ReadRegistersPayload(c: Config, bank: Bank, q: Request)
    requires c.Valid() && bank.Fits(c.caps) && Check(c, q) == Accept
    requires q.fn == READ_HOLDING_REGISTERS || q.fn == READ_INPUT_REGISTERS
    ensures var d := ReadData(c, bank, q);
            var n := FirstValue(q.special);
            && 0 < n && |d| == 1 + 2 * n && d[0] == 2 * n
            && d[1..] == BigEndian(RegisterTable(bank, TypeOf(q.fn))[q.addr .. q.addr + n])
            && Words(d[1..]) == RegisterTable(bank, TypeOf(q.fn))[q.addr .. q.addr + n]
  {
    AcceptedBounds(c, q);
    var n := FirstValue(q.special);
    var d := ReadData(c, bank, q);
    var regs := RegisterTable(bank, TypeOf(q.fn))[q.addr .. q.addr + n];
    assert d[1..] == BigEndian(regs);
    WordsOfBigEndian(regs);
  }

  /** Two loop steps of a coil read that land in the same bit of the same
      octet are the same step. */
  lemma SameSlot(addr: nat, k: nat, k': nat)
    requires k / 8 == k' / 8 && (addr + k) % 8 == (addr + k') % 8
    ensures k == k'
  {
    assert 8 * (k / 8) <= k < 8 * (k / 8) + 8;
  }

  lemma {:induction false} PackBitsOfNone(bits: seq<bool>)
    requires forall i :: 0 <= i < |bits| ==> !bits[i]
    ensures PackBits(bits) == 0
  {
    if |bits| > 0 {
      PackBitsOfNone(bits[1..]);
    }
  }

  /** A coil read answers as many octets as coils requested. Coil addr+k
      is reported in bit (addr+k) mod 8 of data octet k/8: the bits are
      placed by absolute coil number, not by position in the request. */
  lemma ReadCoilsBit(c: Config, bank: Bank, q: Request, k: nat)
    requires c.Valid() && bank.Fits(c.caps) && Check(c, q) == Accept
    requires q.fn == READ_COILS || q.fn == READ_INPUT_STATUS
    requires k < FirstValue(q.special)
    ensures var d := ReadData(c, bank, q);
            var coils := CoilTable(bank, TypeOf(q.fn));
            && |d| == 1 + FirstValue(q.special) && d[0] == FirstValue(q.special)
            && q.addr + k < |coils|
            && (Bit(d[1 + k / 8], (q.addr + k) % 8) <==> coils[q.addr + k])
  {
    var n := FirstValue(q.special);
    var coils := CoilTable(bank, TypeOf(q.fn));
    CoilReadOctets(c, bank, q);
    CoilOctetBit(coils, q.addr, n, k);
  }

  /** A coil read answers the count, then one octet per requested coil,
      each packed from the coils that land in it. */
  lemma CoilReadOctets(c: Config, bank: Bank, q: Request)
    requires c.Valid() && bank.Fits(c.caps) && Check(c, q) == Accept
    requires q.fn == READ_COILS || q.fn == READ_INPUT_STATUS
    ensures var d := ReadData(c, bank, q);
            var n := FirstValue(q.special);
            var coils := CoilTable(bank, TypeOf(q.fn));
            && |d| == 1 + n && d[0] == n && q.addr + n <= |coils|
            && forall j :: 0 <= j < n ==> d[1 + j] == CoilOctet(coils, q.addr, n, j)
  {
    AcceptedBounds(c, q);
  }

  /** Bit (addr+k) mod 8 of octet k/8 is coil addr+k. */
  lemma CoilOctetBit(coils: seq<bool>, addr: nat, n: nat, k: nat)
    requires k < n && addr + n <= |coils|
    ensures Bit(CoilOctet(coils, addr, n, k / 8), (addr + k) % 8) <==> coils[addr + k]
  {
    var j := k / 8;
    var p := (addr + k) % 8;
    var bits := seq(8, p' requires 0 <= p' < 8 => exists k' :: 0 <= k' < n && Lands(coils, addr, k', j, p'));
    assert CoilOctet(coils, addr, n, j) == PackByte(bits);
    if coils[addr + k] {
      assert Lands(coils, addr, k, j, p);
    } else {
      forall k' | 0 <= k' < n && Lands(coils, addr, k', j, p)
        ensures false
      {
        SameSlot(addr, k, k');
      }
      assert !bits[p];
    }
  }

  /** The data octets of a coil read past the ones that carry coils are 0. */
  lemma ReadCoilsPadding(c: Config, bank: Bank, q: Request, j: nat)
    requires c.Valid() && bank.Fits(c.caps) && Check(c, q) == Accept
    requires q.fn == READ_COILS || q.fn == READ_INPUT_STATUS
    requires FirstValue(q.special) <= 8 * j && j < FirstValue(q.special)
    ensures ReadData(c, bank, q)[1 + j] == 0
  {
    var n := FirstValue(q.special);
    var coils := CoilTable(bank, TypeOf(q.fn));
    var bits := seq(8, p' requires 0 <= p' < 8 => exists k' :: 0 <= k' < n && Lands(coils, q.addr, k', j, p'));
    assert ReadData(c, bank, q)[1 + j] == PackByte(bits);
    forall i | 0 <= i < 8
      ensures !bits[i]
    {
      forall k' | 0 <= k' < n
        ensures !Lands(coils, q.addr, k', j, i)
      {
      }
    }
    PackBitsOfNone(bits);
  }

  // ---------------------------------------------------------------------
  // Writes
  // ---------------------------------------------------------------------

  /** A single write stores its value (a coil: set iff non-zero), changes no
      other entry, and is echoed with zeroed address octets and the value as
      stored. */
  lemma SingleWrite(c: Config, bank: Bank, q: Request)
    requires c.Valid() && bank.Fits(c.caps) && Check(c, q) == Accept && IsWriteSingle(q.fn)
    ensures var t := TypeOf(q.fn);
            var v := FirstValue(q.special);
            var stored: u16 := if t.IsCoil() then (if v > 0 then 1 else 0) else v;
            var b := Apply(c, bank, q);
            && b.Value(t, q.addr) == stored
            && (forall u, i :: 0 <= i < c.caps.Of(u) && (u != t || i != q.addr) ==> b.Value(u, i) == bank.Value(u, i))
            && SingleEcho(c, b, q) == [0, 0, Hi(stored), Lo(stored)]
  {
    AcceptedBounds(c, q);
    var t := TypeOf(q.fn);
    forall u, i | 0 <= i < c.caps.Of(u)
      ensures Apply(c, bank, q).Value(u, i) == if u == t && i == q.addr then (if t.IsCoil() then (if FirstValue(q.special) > 0 then 1 else 0) else FirstValue(q.special)) else bank.Value(u, i)
    {
      StoreThenValue(bank, t, q.addr, FirstValue(q.special), u, i);
    }
  }

  /** A register write whose value octets are the big-endian encoding of
      `values` stores values[k] at addr+k for every k below the corrected
      count, and leaves every other register and every other table as it was. */
  lemma MultipleRegistersWrite(c: Config, bank: Bank, q: Request, values: seq<u16>)
    requires c.Valid() && bank.Fits(c.caps) && Check(c, q) == Accept && q.fn == PRESET_MULTIPLE_REGISTERS
    requires |q.special| == c.specialSize
    requires |values| == FirstValue(q.special)
    requires META_COUNT + 2 * |values| <= |q.special| && q.special[META_COUNT .. META_COUNT + 2 * |values|] == BigEndian(values)
    ensures var b := Apply(c, bank, q);
            var k := Clamp(|values|, c.caps.holdingRegisters);
            && k <= |values|
            && b == bank.(holdingRegisters := b.holdingRegisters)
            && (forall i :: 0 <= i < k ==> b.holdingRegisters[q.addr + i] == values[i])
            && (forall i :: 0 <= i < |b.holdingRegisters| && !(q.addr <= i < q.addr + k) ==> b.holdingRegisters[i] == bank.holdingRegisters[i])
  {
    RegistersWriteShape(c, bank, q);
    var k := Clamp(|values|, c.caps.holdingRegisters);
    var regs := WriteRegisters(bank.holdingRegisters, q.addr, k, q.special);
    WrittenRegisters(bank.holdingRegisters, q.addr, k, q.special, values);
    var b := Apply(c, bank, q);
    assert b.holdingRegisters == regs;
    assert b == bank.(holdingRegisters := b.holdingRegisters);
  }

  /** A register write replaces the holding table only, within its bounds. */
  lemma RegistersWriteShape(c: Config, bank: Bank, q: Request)
    requires c.Valid() && bank.Fits(c.caps) && Check(c, q) == Accept && q.fn == PRESET_MULTIPLE_REGISTERS
    ensures c.caps.holdingRegisters >= META_COUNT
    ensures var k := Clamp(FirstValue(q.special), c.caps.holdingRegisters);
            && k <= FirstValue(q.special) && q.addr + k <= |bank.holdingRegisters|
            && Apply(c, bank, q) == bank.(holdingRegisters := WriteRegisters(bank.holdingRegisters, q.addr, k, q.special))
  {
    AcceptedBounds(c, q);
    assert bank.Size(HoldingRegisters) == c.caps.Of(HoldingRegisters);
  }

  /** Registers addr .. addr+k-1 take the decoded values, in order; the
      others keep theirs. */
  lemma WrittenRegisters(regs: seq<u16>, addr: nat, k: nat, special: seq<byte>, values: seq<u16>)
    requires k <= |values| && addr + k <= |regs|
    requires META_COUNT + 2 * |values| <= |special|
    requires special[META_COUNT .. META_COUNT + 2 * |values|] == BigEndian(values)
    ensures forall i :: 0 <= i < k ==> WriteRegisters(regs, addr, k, special)[addr + i] == values[i]
    ensures forall i :: 0 <= i < |regs| && !(addr <= i < addr + k) ==> WriteRegisters(regs, addr, k, special)[i] == regs[i]
  {
    forall i | 0 <= i < k
      ensures WriteRegisters(regs, addr, k, special)[addr + i] == values[i]
    {
      WrittenRegister(regs, addr, k, special, values, i);
    }
  }

  lemma WrittenRegister(regs: seq<u16>, addr: nat, k: nat, special: seq<byte>, values: seq<u16>, i: nat)
    requires k <= |values| && addr + k <= |regs|
    requires META_COUNT + 2 * |values| <= |special|
    requires special[META_COUNT .. META_COUNT + 2 * |values|] == BigEndian(values)
    requires i < k
    ensures WriteRegisters(regs, addr, k, special)[addr + i] == values[i]
  {
    assert WriteRegisters(regs, addr, k, special)[addr + i] == RegisterAfter(regs, addr, k, special, addr + i);
    assert addr + i - addr == i;
    RegisterFromEncoding(special, values, i);
  }

  lemma RegisterFromEncoding(special: seq<byte>, values: seq<u16>, i: nat)
    requires META_COUNT + 2 * |values| <= |special|
    requires special[META_COUNT .. META_COUNT + 2 * |values|] == BigEndian(values)
    requires i < |values|
    ensures Word(Get(special, META_COUNT + 2 * i), Get(special, META_COUNT + 2 * i + 1)) == values[i]
  {
    var a := META_COUNT + 2 * i;
    BigEndianAt(special, META_COUNT, values, i);
    HalvesJoin(special[a], special[a + 1], values[i]);
  }

  /** A coil write takes its coils from the first value octet only: coil
      addr+i becomes bit i of that octet for i < 8, and is cleared for every
      later i below the corrected count (in C the shifted octet is 0 for
      i < 32, and the shift is undefined from 32 on). Other coils and
      tables are kept. */
  lemma MultipleCoilsWrite(c: Config, bank: Bank, q: Request)
    requires c.Valid() && bank.Fits(c.caps) && Check(c, q) == Accept && q.fn == FORCE_MULTIPLE_COILS
    ensures var b := Apply(c, bank, q);
            var k := Clamp(FirstValue(q.special), c.caps.outputCoils);
            var first := Get(q.special, META_COUNT);
            && b == bank.(outputCoils := b.outputCoils)
            && (forall i :: 0 <= i < k && i < 8 ==> b.outputCoils[q.addr + i] == Bit(first, i))
            && (forall i :: q.addr + 8 <= i < q.addr + k ==> !b.outputCoils[i])
            && (forall i :: 0 <= i < |b.outputCoils| && !(q.addr <= i < q.addr + k) ==> b.outputCoils[i] == bank.outputCoils[i])
  {
    AcceptedBounds(c, q);
    var first := Get(q.special, META_COUNT);
    forall i | 8 <= i
      ensures !Bit(first, i)
    {
      HighBitsClear(first, i);
    }
  }

  // ---------------------------------------------------------------------
  // Whole frames
  // ---------------------------------------------------------------------

  /** The request an 8-octet read or single-write frame carries: the value
      (quantity or written value) sits at offset 0 of the special data. */
  function SimpleRequest(c: Config, id: byte, fn: byte, addr: u16, v: u16): Request
  {
    Request(id, fn, addr, Put(Put(Zeros(c.specialSize), 0, Hi(v)), 1, Lo(v)))
  }

  lemma RunQuiet(c: Config, s: Slave, bytes: seq<byte>, s': Slave)
    requires c.Valid() && WellFormed(c, s) && |bytes| > 0 && Receive(c, s, bytes[0]) == (s', [])
    ensures Run(c, s, bytes) == Run(c, s', bytes[1..])
  {
    var t := Run(c, s', bytes[1..]);
    assert [] + t.1 == t.1;
  }

  lemma RunLast(c: Config, s: Slave, bytes: seq<byte>)
    requires c.Valid() && WellFormed(c, s) && |bytes| == 1
    ensures Run(c, s, bytes) == Receive(c, s, bytes[0])
  {
    var r := Receive(c, s, bytes[0]);
    assert Run(c, r.0, bytes[1..]) == (r.0, []);
    assert r.1 + [] == r.1;
  }

  /** Processing depends on the decoded request and the bank, not on the
      decoder's bookkeeping. */
  lemma ProcessSeesOnlyRequest(c: Config, x: Slave, y: Slave, m: bool)
    requires c.Valid() && WellFormed(c, x) && WellFormed(c, y)
    requires x.(stage := y.stage, crc := y.crc, counter := y.counter, raw := y.raw) == y
    ensures Process(c, x, m) == Process(c, y, m)
  {
  }

  lemma StepId(c: Config, s: Slave, b: byte)
    requires c.Valid() && WellFormed(c, s) && IsCleared(c, s) && b == s.slaveId && c.requestSize > 1
    ensures Receive(c, s, b) == (s.(req := s.req.(id := b), stage := AwaitFunction, raw := [b]), [])
  {
    assert s.raw + [b] == [b];
  }

  lemma StepFunction(c: Config, s: Slave, b: byte)
    requires c.Valid() && WellFormed(c, s) && s.stage == AwaitFunction && s.req.id == s.slaveId
    requires s.counter == 0 && Available(c, b) && |s.raw| + 1 < c.requestSize
    ensures Receive(c, s, b) == (s.(req := s.req.(fn := b), stage := AwaitAddress, raw := s.raw + [b]), [])
  {
  }

  lemma StepAddressHigh(c: Config, s: Slave, b: byte)
    requires c.Valid() && WellFormed(c, s) && s.stage == AwaitAddress && s.req.id == s.slaveId
    requires s.counter == 0 && s.req.addr == 0 && |s.raw| + 1 < c.requestSize
    ensures Receive(c, s, b) == (s.(req := s.req.(addr := b), counter := 1, raw := s.raw + [b]), [])
  {
  }

  lemma StepAddressLow(c: Config, s: Slave, b: byte)
    requires c.Valid() && WellFormed(c, s) && s.stage == AwaitAddress && s.req.id == s.slaveId
    requires s.counter == 1 && s.req.addr < 0x100 && Word(s.req.addr, b) < FnCapacity(c, s.req.fn)
    requires |s.raw| + 1 < c.requestSize
    ensures Receive(c, s, b) ==
              (s.(req := s.req.(addr := Word(s.req.addr, b)), counter := 0, stage := AwaitPayload, raw := s.raw + [b]), [])
  {
  }

  lemma StepShortPayload(c: Config, s: Slave, b: byte)
    requires c.Valid() && WellFormed(c, s) && s.stage == AwaitPayload && s.req.id == s.slaveId
    requires IsRead(s.req.fn) || IsWriteSingle(s.req.fn)
    requires s.counter <= 1 && |s.raw| + 1 < c.requestSize
    ensures var sp := if SkipsOctet(c, s.req, s.counter + 1) then s.req.special else Put(s.req.special, s.counter, b);
            var done := s.counter == 1;
            Receive(c, s, b) ==
              (s.(req := s.req.(special := sp), counter := if done then 0 else 1,
                  stage := if done then AwaitCrc else AwaitPayload, raw := s.raw + [b]), [])
  {
  }

  lemma StepCrcLow(c: Config, s: Slave, b: byte)
    requires c.Valid() && WellFormed(c, s) && s.stage == AwaitCrc && s.counter == 0 && s.crc == 0
    requires |s.raw| + 1 < c.requestSize
    ensures Receive(c, s, b) == (s.(crc := b * 0x100, counter := 1, raw := s.raw + [b]), [])
  {
  }

  lemma StepCrcHigh(c: Config, s: Slave, lo: byte, b: byte)
    requires c.Valid() && WellFormed(c, s) && s.stage == AwaitCrc && s.counter == 1 && s.crc == lo * 0x100
    requires s.req.id == s.slaveId && |s.raw| >= 1
    ensures var frame := s.raw + [b];
            Receive(c, s, b) ==
              Process(c, s.(crc := Word(b, lo), counter := 2, raw := frame), Word(b, lo) != Crc16(frame[..|frame| - 2]))
  {
    var frame := s.raw + [b];
    assert WithoutCrc(frame) == frame[..|frame| - 2];
  }

  lemma FrameHead(c: Config, s: Slave, g: seq<byte>)
    requires c.Valid() && WellFormed(c, s) && IsCleared(c, s) && c.requestSize > 2
    requires |g| >= 2 && g[0] == s.slaveId && Available(c, g[1])
    ensures Run(c, s, g) == Run(c, s.(req := s.req.(id := g[0], fn := g[1]), stage := AwaitAddress, raw := g[..2]), g[2..])
  {
    var s1 := s.(req := s.req.(id := g[0]), stage := AwaitFunction, raw := [g[0]]);
    StepId(c, s, g[0]);
    StepFunction(c, s1, g[1]);
    assert [g[0]] + [g[1]] == g[..2];
    RunTwoQuiet(c, s, g, s1, s1.(req := s1.req.(fn := g[1]), stage := AwaitAddress, raw := s1.raw + [g[1]]));
  }

  lemma FrameAddress(c: Config, s: Slave, g: seq<byte>)
    requires c.Valid() && WellFormed(c, s) && s.stage == AwaitAddress && s.req.id == s.slaveId
    requires s.counter == 0 && s.req.addr == 0 && |s.raw| + 2 < c.requestSize
    requires |g| >= 2 && Word(g[0], g[1]) < FnCapacity(c, s.req.fn)
    ensures Run(c, s, g) ==
              Run(c, s.(req := s.req.(addr := Word(g[0], g[1])), stage := AwaitPayload, raw := s.raw + g[..2]), g[2..])
  {
    var s1 := s.(req := s.req.(addr := g[0]), counter := 1, raw := s.raw + [g[0]]);
    AddressOctets(c, s, g[0], g[1]);
    assert s.raw + [g[0]] + [g[1]] == s.raw + g[..2];
    RunTwoQuiet(c, s, g, s1,
      s1.(req := s1.req.(addr := Word(g[0], g[1])), counter := 0, stage := AwaitPayload, raw := s1.raw + [g[1]]));
  }

  lemma RunTwoQuiet(c: Config, s: Slave, g: seq<byte>, s1: Slave, s2: Slave)
    requires c.Valid() && WellFormed(c, s) && WellFormed(c, s1) && |g| >= 2
    requires Receive(c, s, g[0]) == (s1, []) && Receive(c, s1, g[1]) == (s2, [])
    ensures WellFormed(c, s2) && Run(c, s, g) == Run(c, s2, g[2..])
  {
    RunQuiet(c, s, g, s1);
    assert g[1..][0] == g[1] && g[1..][1..] == g[2..];
    RunQuiet(c, s1, g[1..], s2);
  }

  /** Both address octets, one after the other, without any answer. */
  lemma AddressOctets(c: Config, s: Slave, hi: byte, lo: byte)
    requires c.Valid() && WellFormed(c, s) && s.stage == AwaitAddress && s.req.id == s.slaveId
    requires s.counter == 0 && s.req.addr == 0 && |s.raw| + 2 < c.requestSize
    requires Word(hi, lo) < FnCapacity(c, s.req.fn)
    ensures var s1 := s.(req := s.req.(addr := hi), counter := 1, raw := s.raw + [hi]);
            && WellFormed(c, s1)
            && Receive(c, s, hi) == (s1, [])
            && Receive(c, s1, lo) ==
                 (s1.(req := s1.req.(addr := Word(hi, lo)), counter := 0, stage := AwaitPayload, raw := s1.raw + [lo]), [])
  {
    var s1 := s.(req := s.req.(addr := hi), counter := 1, raw := s.raw + [hi]);
    StepAddressHigh(c, s, hi);
    StepAddressLow(c, s1, lo);
  }

  /** The special data after the two value octets of a read or single write. */
  function ShortPayload(c: Config, q: Request, hi: byte, lo: byte): seq<byte>
  {
    var first := Put(q.special, 0, hi);
    if SkipsOctet(c, q.(special := first), 2) then first else Put(first, 1, lo)
  }

  lemma FramePayload(c: Config, s: Slave, g: seq<byte>)
    requires c.Valid() && WellFormed(c, s) && s.stage == AwaitPayload && s.req.id == s.slaveId
    requires IsRead(s.req.fn) || IsWriteSingle(s.req.fn)
    requires s.counter == 0 && s.req.special == Zeros(c.specialSize) && AddressOk(c, s.req)
    requires |s.raw| + 2 < c.requestSize && |g| >= 2
    ensures Run(c, s, g) ==
              Run(c, s.(req := s.req.(special := ShortPayload(c, s.req, g[0], g[1])), stage := AwaitCrc, raw := s.raw + g[..2]), g[2..])
  {
    assert !SkipsOctet(c, s.req, 1);
    var s1 := s.(req := s.req.(special := Put(s.req.special, 0, g[0])), counter := 1, raw := s.raw + [g[0]]);
    StepShortPayload(c, s, g[0]);
    StepShortPayload(c, s1, g[1]);
    assert s.raw + [g[0]] + [g[1]] == s.raw + g[..2];
    RunTwoQuiet(c, s, g, s1,
      s1.(req := s1.req.(special := ShortPayload(c, s.req, g[0], g[1])), counter := 0, stage := AwaitCrc, raw := s1.raw + [g[1]]));
  }

  lemma FrameCrc(c: Config, s: Slave, g: seq<byte>)
    requires c.Valid() && WellFormed(c, s) && s.stage == AwaitCrc && s.req.id == s.slaveId
    requires s.counter == 0 && s.crc == 0 && |s.raw| + 1 < c.requestSize && |g| == 2
    ensures Run(c, s, g) == Receive(c, s.(crc := Word(g[0], 0), counter := 1, raw := s.raw + [g[0]]), g[1])
  {
    var s1 := s.(crc := Word(g[0], 0), counter := 1, raw := s.raw + [g[0]]);
    StepCrcLow(c, s, g[0]);
    RunQuiet(c, s, g, s1);
    RunLast(c, s1, g[1..]);
  }

  /** Dropping the second value octet changes the decoded request, but not
      the outcome: the quantity overruns the table either way. */
  lemma IdealOutcome(c: Config, s: Slave, fn: byte, addr: u16, v: u16, x: Slave)
    requires c.Valid() && WellFormed(c, s) && WellFormed(c, x)
    requires (IsRead(fn) || IsWriteSingle(fn)) && Available(c, fn) && addr < FnCapacity(c, fn)
    requires x.req == Request(s.slaveId, fn, addr, ShortPayload(c, Request(s.slaveId, fn, addr, Zeros(c.specialSize)), Hi(v), Lo(v)))
    requires x == s.(req := x.req, stage := x.stage, crc := x.crc, counter := x.counter, raw := x.raw)
    ensures Process(c, x, false) == Process(c, s.(req := SimpleRequest(c, s.slaveId, fn, addr, v)), false)
  {
    var ideal := s.(req := SimpleRequest(c, s.slaveId, fn, addr, v));
    var q := Request(s.slaveId, fn, addr, Zeros(c.specialSize));
    var first := Put(q.special, 0, Hi(v));
    if SkipsOctet(c, q.(special := first), 2) {
      assert FirstValue(first) == Word(Hi(v), 0);
      assert IsRead(fn);
      assert Check(c, x.req) == Reject(ILLEGAL_DATA_VALUE);
      WordOfHalves(v);
      assert FirstValue(ideal.req.special) == v;
      assert Check(c, ideal.req) == Reject(ILLEGAL_DATA_VALUE);
    } else {
      ProcessSeesOnlyRequest(c, x, ideal, false);
    }
  }

  /** The decoder state after the id, function and address of a frame. */
  function AfterAddress(c: Config, s: Slave, f: seq<byte>): Slave
    requires |f| >= 4
  {
    s.(req := s.req.(id := f[0], fn := f[1], addr := Word(f[2], f[3])), stage := AwaitPayload, raw := f[..4])
  }

  lemma FrameFront(c: Config, s: Slave, f: seq<byte>)
    requires c.Valid() && WellFormed(c, s) && IsCleared(c, s) && c.requestSize >= 8
    requires |f| == 8 && f[0] == s.slaveId && Available(c, f[1]) && Word(f[2], f[3]) < FnCapacity(c, f[1])
    ensures Run(c, s, f) == Run(c, AfterAddress(c, s, f), f[4..])
  {
    var s2 := s.(req := s.req.(id := f[0], fn := f[1]), stage := AwaitAddress, raw := f[..2]);
    FrameHead(c, s, f);
    assert f[2..][0] == f[2] && f[2..][1] == f[3] && f[2..][2..] == f[4..] && f[..2] + f[2..][..2] == f[..4];
    FrameAddress(c, s2, f[2..]);
  }

  /** The decoder state just before the last CRC octet of an 8-octet frame. */
  function BeforeLastCrc(c: Config, s: Slave, f: seq<byte>): Slave
    requires |f| == 8
  {
    var q4 := AfterAddress(c, s, f).req;
    AfterAddress(c, s, f).(req := q4.(special := ShortPayload(c, q4, f[4], f[5])), stage := AwaitCrc,
                           crc := Word(f[6], 0), counter := 1, raw := f[..7])
  }

  lemma FrameBack(c: Config, s: Slave, f: seq<byte>)
    requires c.Valid() && WellFormed(c, s) && IsCleared(c, s) && c.requestSize >= 8
    requires |f| == 8 && f[0] == s.slaveId && Available(c, f[1]) && Word(f[2], f[3]) < FnCapacity(c, f[1])
    requires IsRead(f[1]) || IsWriteSingle(f[1])
    ensures Run(c, AfterAddress(c, s, f), f[4..]) == Receive(c, BeforeLastCrc(c, s, f), f[7])
  {
    var s4 := AfterAddress(c, s, f);
    var q4 := s4.req;
    var s6 := s4.(req := q4.(special := ShortPayload(c, q4, f[4], f[5])), stage := AwaitCrc, raw := f[..6]);
    assert f[4..][0] == f[4] && f[4..][1] == f[5] && f[4..][2..] == f[6..] && f[..4] + f[4..][..2] == f[..6];
    FramePayload(c, s4, f[4..]);
    assert f[6..][0] == f[6] && f[6..][1] == f[7] && f[..6] + [f[6]] == f[..7];
    FrameCrc(c, s6, f[6..]);
  }

  /** The decoder state once the last octet of an 8-octet frame is in. */
  function FrameHeld(c: Config, s: Slave, f: seq<byte>): Slave
    requires |f| == 8
  {
    BeforeLastCrc(c, s, f).(crc := Word(f[7], f[6]), counter := 2, raw := f)
  }

  /** An 8-octet frame for this device reaches the processor, flagged as
      corrupted exactly when its CRC octets disagree with the first six. */
  lemma FrameReachesProcess(c: Config, s: Slave, f: seq<byte>)
    requires c.Valid() && WellFormed(c, s) && IsCleared(c, s) && c.requestSize >= 8
    requires |f| == 8 && f[0] == s.slaveId && Available(c, f[1]) && Word(f[2], f[3]) < FnCapacity(c, f[1])
    requires IsRead(f[1]) || IsWriteSingle(f[1])
    ensures Run(c, s, f) == Process(c, FrameHeld(c, s, f), Word(f[7], f[6]) != Crc16(f[..6]))
  {
    FrameFront(c, s, f);
    FrameBack(c, s, f);
    LastCrcOctet(c, s, f);
  }

  /** The last CRC octet of an 8-octet frame hands the held frame to the
      processor. */
  lemma LastCrcOctet(c: Config, s: Slave, f: seq<byte>)
    requires c.Valid() && WellFormed(c, s) && |f| == 8 && f[0] == s.slaveId
    ensures WellFormed(c, BeforeLastCrc(c, s, f)) && WellFormed(c, FrameHeld(c, s, f))
    ensures Receive(c, BeforeLastCrc(c, s, f), f[7]) == Process(c, FrameHeld(c, s, f), Word(f[7], f[6]) != Crc16(f[..6]))
  {
    var s7 := BeforeLastCrc(c, s, f);
    assert |s7.req.special| == c.specialSize;
    assert s7.raw + [f[7]] == f;
    StepCrcHigh(c, s7, f[6], f[7]);
  }

  /** An 8-octet request frame (id, function, address, value, CRC) with a
      correct CRC, for an available read or single write whose address is in
      range, fed to an idle responder, is decoded into exactly that request
      and processed as intact. When the second value octet is dropped
      because the high octet alone already overruns the table, the outcome
      is the same illegal-data-value exception. */
  lemma SimpleFrameDecoded(c: Config, s: Slave, fn: byte, addr: u16, v: u16, f: seq<byte>)
    requires c.Valid() && WellFormed(c, s) && IsCleared(c, s) && c.requestSize >= 8
    requires (IsRead(fn) || IsWriteSingle(fn)) && Available(c, fn) && addr < FnCapacity(c, fn)
    requires |f| == 8 && Intact(f)
    requires f[0] == s.slaveId && f[1] == fn && f[2] == Hi(addr) && f[3] == Lo(addr) && f[4] == Hi(v) && f[5] == Lo(v)
    ensures Run(c, s, f) == Process(c, s.(req := SimpleRequest(c, s.slaveId, fn, addr, v)), false)
  {
    WordOfHalves(addr);
    FrameReachesProcess(c, s, f);
    assert Word(f[7], f[6]) == Crc16(f[..6]);
    IdealOutcome(c, s, fn, addr, v, FrameHeld(c, s, f));
  }
}
