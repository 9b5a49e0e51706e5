/** The byte scenarios of the library's test driver (test/test.c) on a
    device with 16 entries in every table, as in
    modbus_rtu_puk/inc/modbus_settings.example.h. Each starts from the
    zeroed tables of a freshly started device. */
module Scenarios {
  import opened Bytes
  import opened Protocol
  import opened Registers
  import opened Slave
  import SP = SlaveProperties
  import M = Master

  /** The example settings: 16 entries per table; the buffer sizes are any
      that satisfy the code's own assumptions. */
  predicate Example(c: Config)
  {
    c.Valid() && c.caps == Capacities(16, 16, 16, 16)
  }

  /** A decoded request whose special data starts with `lead`, zero after it. */
  function RequestWith(c: Config, id: byte, fn: byte, addr: u16, lead: seq<byte>): (q: Request)
    requires |lead| <= c.specialSize
    ensures |q.special| == c.specialSize && q.special[..|lead|] == lead
  {
    var q := Request(id, fn, addr, lead + Zeros(c.specialSize - |lead|));
    assert q.special[..|lead|] == lead;
    q
  }

  /** The tables of a fresh device after modbus_slave_set_register_value
      stored v at i and then w at j (in range, SetRegister is Bank.Store). */
  function StoredTwice(c: Config, t: RegisterType, i: nat, v: u16, j: nat, w: u16): (b: Bank)
    requires i < c.caps.Of(t) && j < c.caps.Of(t)
    ensures b.Fits(c.caps)
  {
    var b0 := Empty(c.caps);
    assert b0.Size(t) == c.caps.Of(t);
    var b1 := b0.Store(t, i, v);
    assert b1.Size(t) == b0.Size(t);
    var b2 := b1.Store(t, j, w);
    assert forall u :: b2.Size(u) == b0.Size(u);
    b2
  }

  /** A read request of the example for `count` entries from address 0. */
  lemma ReadFromZeroAccepted(c: Config, fn: byte, q: Request, count: byte)
    requires Example(c) && IsRead(fn) && 0 < count <= 16
    requires q == RequestWith(c, 1, fn, 0, [0, count])
    ensures FirstValue(q.special) == count && Check(c, q) == Accept
  {
    assert Get(q.special, 0) == 0 && Get(q.special, 1) == count && Get(q.special, 2) == 0;
  }

  /** Holding registers 0 and 2 set to 6 and 7; reading three from 0
      answers byte count 6, then 00 06 00 00 00 07 (test/test.c:111-118). */
  lemma HoldingReadScenario(c: Config, bank: Bank, q: Request)
    requires Example(c) && bank == StoredTwice(c, HoldingRegisters, 0, 6, 2, 7)
    requires q == RequestWith(c, 1, READ_HOLDING_REGISTERS, 0, [0, 3])
    ensures Check(c, q) == Accept && ReadData(c, bank, q) == [6, 0, 6, 0, 0, 0, 7]
  {
    ReadFromZeroAccepted(c, READ_HOLDING_REGISTERS, q, 3);
    HoldingTable(c, bank);
    RegisterReadOf(c, bank, q, [0, 6, 0, 0, 0, 7]);
  }

  /** A register read whose registers encode as `octets`: the count, then those octets. */
  lemma RegisterReadOf(c: Config, bank: Bank, q: Request, octets: seq<byte>)
    requires c.Valid() && bank.Fits(c.caps) && Check(c, q) == Accept
    requires q.fn == READ_HOLDING_REGISTERS || q.fn == READ_INPUT_REGISTERS
    requires BigEndian(RegisterTable(bank, TypeOf(q.fn))[q.addr .. q.addr + FirstValue(q.special)]) == octets
    ensures ReadData(c, bank, q) == [|octets|] + octets
  {
    SP.ReadRegistersPayload(c, bank, q);
  }

  lemma HoldingTable(c: Config, bank: Bank)
    requires Example(c) && bank == StoredTwice(c, HoldingRegisters, 0, 6, 2, 7)
    ensures BigEndian(bank.holdingRegisters[0 .. 3]) == [0, 6, 0, 0, 0, 7]
  {
    var regs := bank.holdingRegisters[0 .. 3];
    assert regs == [6, 0, 7];
    var r := BigEndian(regs);
    assert r[0] == 0 && r[1] == 6 && r[2] == 0 && r[3] == 0 && r[4] == 0 && r[5] == 7;
  }

  /** Output coils 0 and 2 set (by the values 1 and 2); reading three coils
      from 0 declares three data octets, the first 0x05 (test/test.c:58-64). */
  lemma CoilReadScenario(c: Config, bank: Bank, q: Request)
    requires Example(c) && bank == StoredTwice(c, OutputCoils, 0, 1, 2, 2)
    requires q == RequestWith(c, 1, READ_COILS, 0, [0, 3])
    ensures Check(c, q) == Accept && ReadData(c, bank, q) == [3, 0x05, 0, 0]
  {
    ReadFromZeroAccepted(c, READ_COILS, q, 3);
    CoilTable3(c, bank);
    CoilReadOf(c, bank, q, 0x05);
  }

  lemma CoilTable3(c: Config, bank: Bank)
    requires Example(c) && bank == StoredTwice(c, OutputCoils, 0, 1, 2, 2)
    ensures CoilOctet(CoilTable(bank, OutputCoils), 0, 3, 0) == 0x05
  {
    var coils := bank.outputCoils;
    assert coils[0] && !coils[1] && coils[2];
    FirstCoilOctet(coils, 3, [true, false, true]);
    assert PackByte([true, false, true]) == 5;
  }

  /** A read of at most eight coils from address 0 whose coils pack into
      `first`: the count, `first`, and zero octets for the rest of the
      declared count. */
  lemma CoilReadOf(c: Config, bank: Bank, q: Request, first: byte)
    requires c.Valid() && bank.Fits(c.caps) && Check(c, q) == Accept
    requires q.fn == READ_COILS || q.fn == READ_INPUT_STATUS
    requires q.addr == 0 && FirstValue(q.special) <= 8
    requires CoilOctet(CoilTable(bank, TypeOf(q.fn)), 0, FirstValue(q.special), 0) == first
    ensures var n := FirstValue(q.special);
            ReadData(c, bank, q) == [n, first] + Zeros(n - 1)
  {
    AcceptedBounds(c, q);
    var n := FirstValue(q.special);
    var d := ReadData(c, bank, q);
    assert |d| == 1 + n && d[0] == n && d[1] == first;
    forall i | 2 <= i < |d|
      ensures d[i] == 0
    {
      SP.ReadCoilsPadding(c, bank, q, i - 1);
    }
    assert d == [n, first] + Zeros(n - 1);
  }

  /** A write request of the example from address 0 with `lead` as its special data. */
  lemma WriteAccepted(c: Config, fn: byte, q: Request, lead: seq<byte>)
    requires Example(c) && IsWrite(fn) && 4 <= |lead| <= 8
    requires lead[0] == 0 && 0 < lead[1] <= 4 && lead[2] <= 8
    requires q == RequestWith(c, 1, fn, 0, lead)
    ensures FirstValue(q.special) == lead[1] && Check(c, q) == Accept
  {
    assert Get(q.special, 0) == 0 && Get(q.special, 1) == lead[1] && Get(q.special, 2) == lead[2];
  }

  /** Forcing coil 0 with `true` stores it and echoes 00 00 00 01, the
      stored coil rather than the 0xFF00 of the standard (test/test.c:126-133). */
  lemma SingleCoilScenario(c: Config, q: Request)
    requires Example(c) && q == RequestWith(c, 1, FORCE_SINGLE_COIL, 0, [0, 1, 0, 0])
    ensures Check(c, q) == Accept
    ensures var b := Apply(c, Empty(c.caps), q);
            b.outputCoils[0] && ResponseData(c, b, q) == [0, 0, 0, 1]
  {
    WriteAccepted(c, FORCE_SINGLE_COIL, q, [0, 1, 0, 0]);
    SP.SingleWrite(c, Empty(c.caps), q);
  }

  /** Presetting register 0 with 0x0102 stores it and echoes 00 00 01 02
      (test/test.c:137-144). */
  lemma SingleRegisterScenario(c: Config, q: Request)
    requires Example(c) && q == RequestWith(c, 1, PRESET_SINGLE_REGISTER, 0, [1, 2, 0, 0])
    ensures Check(c, q) == Accept
    ensures var b := Apply(c, Empty(c.caps), q);
            b.holdingRegisters[0] == 0x0102 && ResponseData(c, b, q) == [0, 0, 1, 2]
  {
    assert Get(q.special, 0) == 1 && Get(q.special, 1) == 2 && Get(q.special, 2) == 0;
    SP.SingleWrite(c, Empty(c.caps), q);
  }

  /** Forcing four coils false, true, false, true from 0: the initiator packs
      them into the one octet 0x0A; the responder stores them; reading the
      four coils back answers 04 0A 00 00 00 (test/test.c:149-165). */
  lemma MultipleCoilsScenario(c: Config, w: Request, r: Request)
    requires Example(c)
    requires w == RequestWith(c, 1, FORCE_MULTIPLE_COILS, 0, [0, 4, 1, 0x0A])
    requires r == RequestWith(c, 1, READ_COILS, 0, [0, 4])
    ensures M.PackCoils([false, true, false, true]) == [0x0A]
    ensures Check(c, w) == Accept && Check(c, r) == Accept
    ensures var b := Apply(c, Empty(c.caps), w);
            ReadData(c, b, r) == [4, 0x0A, 0, 0, 0]
  {
    PackFour();
    WriteAccepted(c, FORCE_MULTIPLE_COILS, w, [0, 4, 1, 0x0A]);
    ReadFromZeroAccepted(c, READ_COILS, r, 4);
    var b := Apply(c, Empty(c.caps), w);
    SP.MultipleCoilsWrite(c, Empty(c.caps), w);
    assert Get(w.special, META_COUNT) == 0x0A;
    assert Clamp(4, 16) == 4;
    FourCoils(b.outputCoils);
    CoilReadOf(c, b, r, 0x0A);
  }

  lemma PackFour()
    ensures M.PackCoils([false, true, false, true]) == [0x0A]
  {
    var bits := [false, true, false, true];
    assert bits[0 .. M.Min(8, 4)] == bits;
    assert PackByte(bits) == 0x0A;
  }

  lemma FourCoils(coils: seq<bool>)
    requires 4 <= |coils| && forall i :: 0 <= i < 4 ==> coils[i] == Bit(0x0A, i)
    ensures CoilOctet(coils, 0, 4, 0) == 0x0A
  {
    assert !Bit(0x0A, 0) && Bit(0x0A, 1) && !Bit(0x0A, 2) && Bit(0x0A, 3);
    FirstCoilOctet(coils, 4, [false, true, false, true]);
    assert PackByte([false, true, false, true]) == 0x0A;
  }

  /** Presetting registers 0 and 1 with 4 and 5: the responder stores them;
      reading two registers back answers 04 00 04 00 05 (test/test.c:170-185). */
  lemma MultipleRegistersScenario(c: Config, w: Request, r: Request)
    requires Example(c)
    requires w == RequestWith(c, 1, PRESET_MULTIPLE_REGISTERS, 0, [0, 2, 4, 0, 4, 0, 5])
    requires r == RequestWith(c, 1, READ_HOLDING_REGISTERS, 0, [0, 2])
    ensures Check(c, w) == Accept && Check(c, r) == Accept
    ensures var b := Apply(c, Empty(c.caps), w);
            ReadData(c, b, r) == [4, 0, 4, 0, 5]
  {
    WriteAccepted(c, PRESET_MULTIPLE_REGISTERS, w, [0, 2, 4, 0, 4, 0, 5]);
    var b := Apply(c, Empty(c.caps), w);
    RegistersStored(c, w, b);
    HoldingReadBack(c, b, r);
  }

  /** The initiator's frame for the same write carries 00 04 00 05 as its data. */
  lemma RegistersFrameScenario()
    ensures M.RegistersFrame(1, 0, [4, 5])[7 .. 11] == [0, 4, 0, 5]
  {
    FourFive();
  }

  lemma RegistersStored(c: Config, w: Request, b: Bank)
    requires Example(c)
    requires w == RequestWith(c, 1, PRESET_MULTIPLE_REGISTERS, 0, [0, 2, 4, 0, 4, 0, 5])
    requires Check(c, w) == Accept && FirstValue(w.special) == 2
    requires b == Apply(c, Empty(c.caps), w)
    ensures 2 <= |b.holdingRegisters| && b.holdingRegisters[0 .. 2] == [4, 5]
  {
    SpecialFourFive(c, w);
    StoredPair(c, Empty(c.caps), w, 4, 5);
  }

  /** A two-register write from address 0 into a table of at least four stores the pair. */
  lemma StoredPair(c: Config, bank: Bank, w: Request, x: u16, y: u16)
    requires c.Valid() && bank.Fits(c.caps) && Check(c, w) == Accept
    requires w.fn == PRESET_MULTIPLE_REGISTERS && w.addr == 0 && c.caps.holdingRegisters >= 4
    requires |w.special| == c.specialSize && FirstValue(w.special) == 2
    requires META_COUNT + 4 <= |w.special| && w.special[META_COUNT .. META_COUNT + 4] == BigEndian([x, y])
    ensures 2 <= |Apply(c, bank, w).holdingRegisters| && Apply(c, bank, w).holdingRegisters[0 .. 2] == [x, y]
  {
    SP.MultipleRegistersWrite(c, bank, w, [x, y]);
    var b := Apply(c, bank, w);
    assert b.holdingRegisters[0] == x && b.holdingRegisters[1] == y;
  }

  lemma SpecialFourFive(c: Config, w: Request)
    requires Example(c)
    requires w == RequestWith(c, 1, PRESET_MULTIPLE_REGISTERS, 0, [0, 2, 4, 0, 4, 0, 5])
    ensures META_COUNT + 4 <= |w.special| && w.special[META_COUNT .. META_COUNT + 4] == BigEndian([4, 5])
  {
    FourFive();
    assert w.special[META_COUNT .. META_COUNT + 4] == [0, 4, 0, 5];
  }

  lemma HoldingReadBack(c: Config, b: Bank, r: Request)
    requires Example(c) && b.Fits(c.caps) && 2 <= |b.holdingRegisters| && b.holdingRegisters[0 .. 2] == [4, 5]
    requires r == RequestWith(c, 1, READ_HOLDING_REGISTERS, 0, [0, 2])
    ensures Check(c, r) == Accept && ReadData(c, b, r) == [4, 0, 4, 0, 5]
  {
    ReadFromZeroAccepted(c, READ_HOLDING_REGISTERS, r, 2);
    FourFive();
    RegisterReadOf(c, b, r, [0, 4, 0, 5]);
  }

  lemma FourFive()
    ensures BigEndian([4, 5]) == [0, 4, 0, 5]
  {
    var r := BigEndian([4, 5]);
    assert r[0] == 0 && r[1] == 4 && r[2] == 0 && r[3] == 5;
  }

  /** The first data octet of a read of n <= 8 coils from address 0 packs
      them LSB first. */
  lemma FirstCoilOctet(coils: seq<bool>, n: nat, packed: seq<bool>)
    requires n <= 8 && n <= |coils| && |packed| == n
    requires forall k :: 0 <= k < n ==> coils[k] == packed[k]
    ensures CoilOctet(coils, 0, n, 0) == PackByte(packed)
  {
    var bits := seq(8, p requires 0 <= p < 8 => exists k :: 0 <= k < n && Lands(coils, 0, k, 0, p));
    forall p: nat
      ensures Bit(PackByte(bits), p) <==> Bit(PackByte(packed), p)
    {
      if p < 8 && p < n && packed[p] {
        assert Lands(coils, 0, p, 0, p);
      }
    }
    SameBitsSameOctet(PackByte(bits), PackByte(packed));
  }

  /** Two numbers that agree on every bit are equal. */
  lemma {:induction false} SameBitsSameOctet(a: nat, b: nat)
    requires forall p: nat :: Bit(a, p) <==> Bit(b, p)
    ensures a == b
    decreases a + b
  {
    if a + b > 0 {
      assert Bit(a, 0) <==> Bit(b, 0);
      forall p: nat
        ensures Bit(a / 2, p) <==> Bit(b / 2, p)
      {
        assert Bit(a, p + 1) <==> Bit(b, p + 1);
      }
      SameBitsSameOctet(a / 2, b / 2);
    }
  }
}
