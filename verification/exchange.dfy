/** The two engines of the library talking to each other. A read or
    single-write request the initiator encodes is decoded by a responder
    into exactly that request; a responder's answer to a register read
    reaches the initiator's packet handler with the registers in its first
    slots; and the two together make a complete register-read exchange. */
module Exchange {
  import opened Bytes
  import opened Crc
  import opened Protocol
  import opened Registers
  import S = Slave
  import SP = SlaveProperties
  import M = Master
  import MP = MasterProperties

  /** A read or single-write request the initiator encodes, fed to an idle
      responder with that id, is decoded into the request asked for and
      processed as intact. */
  lemma SimpleRequestDecoded(sc: S.Config, s: S.Slave, fn: byte, addr: u16, v: u16)
    requires sc.Valid() && S.WellFormed(sc, s) && S.IsCleared(sc, s) && sc.requestSize >= 8
    requires (IsRead(fn) || IsWriteSingle(fn)) && S.Available(sc, fn) && addr < S.FnCapacity(sc, fn)
    ensures S.Run(sc, s, M.SimpleFrame(s.slaveId, fn, addr, v)) ==
              S.Process(sc, s.(req := SP.SimpleRequest(sc, s.slaveId, fn, addr, v)), false)
  {
    MP.SimpleFrameIntact(s.slaveId, fn, addr, v);
    SP.SimpleFrameDecoded(sc, s, fn, addr, v, M.SimpleFrame(s.slaveId, fn, addr, v));
  }

  /** A sealed answer frame, field by field as the initiator reads it. */
  lemma SealedAnswer(id: byte, fn: byte, d: seq<byte>)
    requires |d| >= 1
    ensures var f := Seal([id, fn] + d);
            && |f| == |d| + 4 && f[0] == id && f[1] == fn && f[2] == d[0] && f[3 .. |f| - 2] == d[1..]
  {
    var body := [id, fn] + d;
    var f := Seal(body);
    assert f[..|body|] == body;
    assert f[3 .. |f| - 2] == body[3..];
  }

  /** The responder's answer frame to an accepted register read: a correct
      CRC, the octet count 2n, then the n registers high octet first. */
  lemma RegisterReplyShape(sc: S.Config, bank: Bank, q: S.Request, f: seq<byte>, regs: seq<u16>)
    requires sc.Valid() && bank.Fits(sc.caps) && S.Check(sc, q) == Accept
    requires q.fn == READ_HOLDING_REGISTERS || q.fn == READ_INPUT_REGISTERS
    requires f == Seal([q.id, q.fn] + S.ReadData(sc, bank, q))
    requires regs == S.RegisterTable(bank, S.TypeOf(q.fn))[q.addr .. q.addr + S.FirstValue(q.special)]
    ensures && Intact(f) && |f| == 2 * |regs| + 5 && 0 < |regs| == S.FirstValue(q.special) as int
            && f[0] == q.id && f[1] == q.fn && f[2] as int == 2 * |regs|
            && f[3 .. |f| - 2] == BigEndian(regs)
  {
    SP.ReadRegistersPayload(sc, bank, q);
    SealedAnswer(q.id, q.fn, S.ReadData(sc, bank, q));
    SealIntact([q.id, q.fn] + S.ReadData(sc, bank, q));
  }

  /** What the initiator holds of an analog read reply: the count octet and
      the register octets over a zeroed buffer. */
  lemma AnalogResponse(mc: M.Config, f: seq<byte>, regs: seq<u16>)
    requires |f| == 2 * |regs| + 5 && 2 * |regs| <= mc.dataSize && f[2] as int == 2 * |regs|
    requires f[3 .. |f| - 2] == BigEndian(regs)
    ensures var resp := MP.ReadResponse(mc, f);
            && resp.dataLen as int == 2 * |regs| && 2 * |regs| <= |resp.data|
            && resp.data[..2 * |regs|] == BigEndian(regs)
  {
    var resp := MP.ReadResponse(mc, f);
    assert resp.data[..2 * |regs|] == f[3 .. |f| - 2];
  }

  /** Frame f, fed to the initiator m, leaves it reset and hands the packet
      handler exactly one error-free packet from the device and function in
      f, whose first slots are regs and whose other slots are zero. */
  predicate RegistersDelivered(mc: M.Config, m: M.Master, f: seq<byte>, regs: seq<u16>)
    requires mc.Valid() && M.WellFormed(mc, m) && |f| >= 2
  {
    var r := M.Run(mc, m, f);
    && r.0 == M.Reset(mc, m) && |r.1| == 1 && r.1[0].Deliver?
    && r.1[0].packet.status == M.NoError
    && r.1[0].packet.slaveId == f[0] && r.1[0].packet.command == f[1]
    && |r.1[0].packet.values| == mc.messageSize
    && |regs| <= mc.messageSize && r.1[0].packet.values[..|regs|] == regs
    && (forall i :: |regs| <= i < mc.messageSize ==> r.1[0].packet.values[i] == 0)
  }

  /** An intact analog read reply from the awaited device reaches the packet
      handler with the registers in the first slots and zeros after them. */
  lemma AnalogReplyDelivered(mc: M.Config, m: M.Master, f: seq<byte>, regs: seq<u16>)
    requires mc.Valid() && M.WellFormed(mc, m) && MP.Idle(mc, m) && m.hasPacketHandler
    requires |f| == 2 * |regs| + 5 && 0 < |regs| && Intact(f)
    requires f[0] == m.reqId && M.IsAnalog(f[1]) && f[1] in mc.enabled && f[2] as int == 2 * |regs|
    requires f[3 .. |f| - 2] == BigEndian(regs)
    requires |f| <= mc.messageSize && |regs| <= mc.registerSize && 2 * |regs| <= mc.dataSize
    ensures RegistersDelivered(mc, m, f, regs)
  {
    assert mc.AnyRead();
    MP.ReadReplyDelivered(mc, m, f);
    AnalogResponse(mc, f, regs);
    MP.AnalogSlots(mc, f[1], MP.ReadResponse(mc, f), regs);
  }

  /** The responder's answer f to an accepted register read, fed to an idle
      initiator waiting on that device, is delivered as an error-free packet
      whose first n slots are the n registers read and whose other slots are
      zero. */
  lemma RegisterReplyDelivered(sc: S.Config, bank: Bank, q: S.Request, mc: M.Config, m: M.Master,
                               f: seq<byte>, regs: seq<u16>)
    requires sc.Valid() && bank.Fits(sc.caps) && S.Check(sc, q) == Accept
    requires q.fn == READ_HOLDING_REGISTERS || q.fn == READ_INPUT_REGISTERS
    requires f == Seal([q.id, q.fn] + S.ReadData(sc, bank, q))
    requires regs == S.RegisterTable(bank, S.TypeOf(q.fn))[q.addr .. q.addr + S.FirstValue(q.special)]
    requires mc.Valid() && M.WellFormed(mc, m) && MP.Idle(mc, m) && m.reqId == q.id
    requires q.fn in mc.enabled && m.hasPacketHandler
    requires 2 * S.FirstValue(q.special) + 5 <= mc.messageSize
    requires S.FirstValue(q.special) <= mc.registerSize && 2 * S.FirstValue(q.special) <= mc.dataSize
    ensures |f| >= 2 && f[0] == q.id && f[1] == q.fn && RegistersDelivered(mc, m, f, regs)
  {
    RegisterReplyShape(sc, bank, q, f, regs);
    AnalogReplyDelivered(mc, m, f, regs);
  }

  /** A read request the initiator encodes, for a non-zero quantity that
      fits the table from the address, passes the responder's gate with
      that quantity. */
  lemma SimpleReadAccepted(sc: S.Config, id: byte, fn: byte, addr: u16, n: u16)
    requires sc.Valid() && IsRead(fn) && 0 < n && addr + n <= S.FnCapacity(sc, fn)
    ensures var q := SP.SimpleRequest(sc, id, fn, addr, n);
            S.FirstValue(q.special) == n && S.Check(sc, q) == Accept
  {
    var q := SP.SimpleRequest(sc, id, fn, addr, n);
    WordOfHalves(n);
    assert Get(q.special, 0) == Hi(n) && Get(q.special, 1) == Lo(n) && Get(q.special, 2) == 0;
  }

  /** The registers such a request names are the n from the address on. */
  lemma SimpleReadRegisters(sc: S.Config, bank: Bank, id: byte, fn: byte, addr: u16, n: u16)
    requires sc.Valid() && bank.Fits(sc.caps) && (fn == READ_HOLDING_REGISTERS || fn == READ_INPUT_REGISTERS)
    requires 0 < n && addr + n <= S.FnCapacity(sc, fn)
    ensures var q := SP.SimpleRequest(sc, id, fn, addr, n);
            && q.id == id && q.fn == fn && q.addr == addr && S.FirstValue(q.special) == n
            && S.RegisterTable(bank, S.TypeOf(q.fn))[q.addr .. q.addr + S.FirstValue(q.special)]
               == S.RegisterTable(bank, S.TypeOf(fn))[addr .. addr + n]
  {
    SimpleReadAccepted(sc, id, fn, addr, n);
  }

  /** An idle responder with a sender, given the initiator's request for n
      registers, leaves its tables as they were and answers with exactly one
      intact frame: its id, the function, the octet count 2n, then the n
      registers high octet first. */
  lemma SlaveAnswersRead(sc: S.Config, s: S.Slave, fn: byte, addr: u16, n: u16, regs: seq<u16>)
    requires sc.Valid() && S.WellFormed(sc, s) && S.IsCleared(sc, s) && sc.requestSize >= 8 && s.hasSender
    requires (fn == READ_HOLDING_REGISTERS || fn == READ_INPUT_REGISTERS)
    requires 0 < n && addr + n <= S.FnCapacity(sc, fn)
    requires regs == S.RegisterTable(s.bank, S.TypeOf(fn))[addr .. addr + n]
    ensures var answered := S.Run(sc, s, M.SimpleFrame(s.slaveId, fn, addr, n));
            && answered.0.bank == s.bank && |answered.1| == 1 && answered.1[0].Respond?
            && var f := answered.1[0].frame;
               && Intact(f) && |f| == 2 * n + 5 && f[0] == s.slaveId && f[1] == fn && f[2] as int == 2 * n
               && f[3 .. |f| - 2] == BigEndian(regs)
  {
    var q := SP.SimpleRequest(sc, s.slaveId, fn, addr, n);
    SimpleReadAccepted(sc, s.slaveId, fn, addr, n);
    var answer := Seal([q.id, q.fn] + S.ReadData(sc, s.bank, q));
    ReadAnswered(sc, s, fn, addr, n, q, answer);
    AnswerShape(sc, s.bank, s.slaveId, fn, addr, n, regs, q, answer);
  }

  /** The answer frame to the initiator's request for n registers. */
  lemma AnswerShape(sc: S.Config, bank: Bank, id: byte, fn: byte, addr: u16, n: u16, regs: seq<u16>,
                    q: S.Request, answer: seq<byte>)
    requires sc.Valid() && bank.Fits(sc.caps) && (fn == READ_HOLDING_REGISTERS || fn == READ_INPUT_REGISTERS)
    requires 0 < n && addr + n <= S.FnCapacity(sc, fn)
    requires regs == S.RegisterTable(bank, S.TypeOf(fn))[addr .. addr + n]
    requires q == SP.SimpleRequest(sc, id, fn, addr, n) && S.Check(sc, q) == Accept
    requires answer == Seal([q.id, q.fn] + S.ReadData(sc, bank, q))
    ensures && Intact(answer) && |answer| == 2 * n + 5 && answer[0] == id && answer[1] == fn
            && answer[2] as int == 2 * n && answer[3 .. |answer| - 2] == BigEndian(regs)
  {
    SimpleReadRegisters(sc, bank, id, fn, addr, n);
    RegisterReplyShape(sc, bank, q, answer, regs);
  }

  /** The responder's events for the initiator's read request: one answer
      frame, tables untouched. */
  lemma ReadAnswered(sc: S.Config, s: S.Slave, fn: byte, addr: u16, n: u16, q: S.Request, answer: seq<byte>)
    requires sc.Valid() && S.WellFormed(sc, s) && S.IsCleared(sc, s) && sc.requestSize >= 8 && s.hasSender
    requires (fn == READ_HOLDING_REGISTERS || fn == READ_INPUT_REGISTERS)
    requires 0 < n && addr + n <= S.FnCapacity(sc, fn)
    requires q == SP.SimpleRequest(sc, s.slaveId, fn, addr, n) && S.Check(sc, q) == Accept
    requires answer == Seal([q.id, q.fn] + S.ReadData(sc, s.bank, q))
    ensures var answered := S.Run(sc, s, M.SimpleFrame(s.slaveId, fn, addr, n));
            answered.0.bank == s.bank && answered.1 == [S.Respond(answer)]
  {
    SimpleRequestDecoded(sc, s, fn, addr, n);
  }

  /** A whole register read: the initiator sends its request, the responder
      decodes it and answers without touching its tables, and the answer
      reaches the initiator's packet handler with the n registers in the
      first slots. */
  lemma RegisterReadExchange(sc: S.Config, s: S.Slave, mc: M.Config, m: M.Master,
                             fn: byte, addr: u16, n: u16, regs: seq<u16>)
    requires sc.Valid() && S.WellFormed(sc, s) && S.IsCleared(sc, s) && sc.requestSize >= 8 && s.hasSender
    requires (fn == READ_HOLDING_REGISTERS || fn == READ_INPUT_REGISTERS)
    requires 0 < n && addr + n <= S.FnCapacity(sc, fn)
    requires regs == S.RegisterTable(s.bank, S.TypeOf(fn))[addr .. addr + n]
    requires mc.Valid() && M.WellFormed(mc, m) && MP.Idle(mc, m) && m.hasSender && m.hasPacketHandler
    requires fn in mc.enabled && 2 * n + 5 <= mc.messageSize && n <= mc.registerSize && 2 * n <= mc.dataSize
    ensures var sent := M.SendSimple(m, s.slaveId, fn, addr, n);
            && sent.1 == [M.Transmit(M.SimpleFrame(s.slaveId, fn, addr, n))]
            && M.WellFormed(mc, sent.0)
            && var answered := S.Run(sc, s, M.SimpleFrame(s.slaveId, fn, addr, n));
               && answered.0.bank == s.bank && |answered.1| == 1 && answered.1[0].Respond?
               && |answered.1[0].frame| >= 2
               && RegistersDelivered(mc, sent.0, answered.1[0].frame, regs)
  {
    var sent := M.SendSimple(m, s.slaveId, fn, addr, n);
    MP.SendKeepsIdle(mc, m, sent.0, s.slaveId, fn, addr);
    SlaveAnswersRead(sc, s, fn, addr, n, regs);
    var answered := S.Run(sc, s, M.SimpleFrame(s.slaveId, fn, addr, n));
    AnalogReplyDelivered(mc, sent.0, answered.1[0].frame, regs);
  }
}
