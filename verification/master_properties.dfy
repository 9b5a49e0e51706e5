/** Properties of the initiator: its request frames carry what the caller
    asked for, and a well-formed reply from the addressed device reaches
    the packet handler with its data in the documented slots. */
module MasterProperties {
  import opened Bytes
  import opened Crc
  import opened Protocol
  import opened Master

  // ------------------------------------------------------------ request side

  /** Packed coils unpack to the original flags. */
  lemma CoilsRoundTrip(bits: seq<bool>)
    ensures UnpackCoils(PackCoils(bits), |bits|) == bits
  {
    var r := PackCoils(bits);
    forall i | 0 <= i < |bits| ensures Bit(Get(r, i / 8), i % 8) == bits[i] {
      PackedCoil(bits, i);
    }
  }

  /** The simple request carries its address and value back as words. */
  lemma SimpleFrameFields(id: byte, fn: byte, addr: u16, v: u16)
    ensures var f := SimpleFrame(id, fn, addr, v);
            Word(f[2], f[3]) == addr && Word(f[4], f[5]) == v
  {
    WordOfHalves(addr);
    WordOfHalves(v);
  }

  /** Each request frame passes the receiver's checksum test. */
  lemma SimpleFrameIntact(id: byte, fn: byte, addr: u16, v: u16)
    ensures Intact(SimpleFrame(id, fn, addr, v))
  {
    var f := SimpleFrame(id, fn, addr, v);
    SealIntact(f[..6]);
  }

  lemma CoilsFrameIntact(id: byte, addr: u16, coils: seq<bool>)
    requires 0 < |coils| <= 0xFF
    ensures Intact(CoilsFrame(id, addr, coils))
  {
    var f := CoilsFrame(id, addr, coils);
    SealIntact(f[..7 + CoilOctetCount(|coils|)]);
  }

  lemma RegistersFrameIntact(id: byte, addr: u16, values: seq<u16>)
    requires 0 < 2 * |values| <= 0xFF
    ensures Intact(RegistersFrame(id, addr, values))
  {
    var f := RegistersFrame(id, addr, values);
    SealIntact(f[..7 + 2 * |values|]);
  }

  /** The coil request carries address, quantity and every coil back. */
  lemma CoilsFrameFields(id: byte, addr: u16, coils: seq<bool>)
    requires 0 < |coils| <= 0xFF
    ensures var f := CoilsFrame(id, addr, coils);
            var k := CoilOctetCount(|coils|);
            Word(f[2], f[3]) == addr && Word(f[4], f[5]) == |coils|
            && UnpackCoils(f[7..7 + k], |coils|) == coils
  {
    WordOfHalves(addr);
    WordOfHalves(|coils|);
    CoilsRoundTrip(coils);
  }

  /** The register request carries address, quantity and every value back. */
  lemma RegistersFrameFields(id: byte, addr: u16, values: seq<u16>)
    requires 0 < 2 * |values| <= 0xFF
    ensures var f := RegistersFrame(id, addr, values);
            var data := f[7..7 + 2 * |values|];
            Word(f[2], f[3]) == addr && Word(f[4], f[5]) == |values|
            && |data| % 2 == 0 && Words(data) == values
  {
    WordOfHalves(addr);
    WordOfHalves(|values|);
    WordsOfBigEndian(values);
  }

  /** The register encoder writes past special_data exactly for the
      quantities that pass its guard while the three meta octets do not fit. */
  lemma RegisterOverrunWindow(c: Config, m: Master, id: byte, addr: u16, values: seq<u16>, n: u16)
    requires c.Valid() && 0 < n <= |values|
    ensures RequestOverrun in PresetMultipleRegisters(c, m, id, addr, Items(values), n).1
            <==> c.specialSize < META_COUNT + 2 * n <= c.specialSize + META_COUNT
  {
    var r := PresetMultipleRegisters(c, m, id, addr, Items(values), n);
    if 2 * n > c.specialSize {
      assert RequestOverrun !in ErrorEvents(m);
    } else {
      var sent := Send(m, RegistersFrame(id, addr, values[..n]));
      assert RequestOverrun !in sent;
    }
  }

  /** The coil encoder writes past special_data only when the array holds
      no more than the three meta octets: from four octets on, any quantity
      that passes its guard fits together with its packed coils. */
  lemma CoilOverrunWindow(c: Config, m: Master, id: byte, addr: u16, coils: seq<bool>, n: u16)
    requires c.Valid() && 0 < n <= |coils|
    ensures RequestOverrun in ForceMultipleCoils(c, m, id, addr, Items(coils), n).1
            <==> n <= c.specialSize <= META_COUNT
  {
    if n > c.specialSize {
      assert RequestOverrun !in ErrorEvents(m);
    } else {
      var sent := Send(m, CoilsFrame(id, addr, coils[..n]));
      assert RequestOverrun !in sent;
      assert c.specialSize > META_COUNT ==> CoilOctetCount(n) <= c.specialSize - META_COUNT;
    }
  }


  /** A simple request always records (id, fn, addr) as the outstanding
      request. With a sender it hands over exactly one intact 8-octet frame
      that reads back as the device, code, address and value asked for;
      without one no frame leaves and only the internal error is reported. */
  lemma SimpleRequestSent(m: Master, id: byte, fn: byte, addr: u16, v: u16)
    ensures var r := SendSimple(m, id, fn, addr, v);
            r.0.reqId == id && r.0.reqFn == fn && r.0.reqAddr == addr
            && SameHandlers(m, r.0) && r.0.stage == m.stage && r.0.resp == m.resp
    ensures var r := SendSimple(m, id, fn, addr, v);
            m.hasSender ==>
              |r.1| == 1 && r.1[0].Transmit?
              && var f := r.1[0].frame;
                 |f| == 8 && Intact(f) && f[0] == id && f[1] == fn
                 && Word(f[2], f[3]) == addr && Word(f[4], f[5]) == v
    ensures var r := SendSimple(m, id, fn, addr, v);
            !m.hasSender ==> forall e :: e in r.1 ==> e == InternalError
  {
    if m.hasSender {
      SimpleFrameFields(id, fn, addr, v);
      SimpleFrameIntact(id, fn, addr, v);
    } else {
      assert SendSimple(m, id, fn, addr, v).1 == ErrorEvents(m);
    }
  }

  /** The coil frame reads back as the request: intact, with the address,
      the quantity, the octet count and every coil. */
  predicate CoilsFrameMeans(f: seq<byte>, id: byte, addr: u16, coils: seq<bool>)
  {
    var k := CoilOctetCount(|coils|);
    |f| == 9 + k && Intact(f) && f[0] == id && f[1] == FORCE_MULTIPLE_COILS
    && Word(f[2], f[3]) == addr && Word(f[4], f[5]) == |coils| && f[6] == k
    && UnpackCoils(f[7..7 + k], |coils|) == coils
  }

  /** The register frame reads back as the request: intact, with the
      address, the quantity, the octet count and every value. */
  predicate RegistersFrameMeans(f: seq<byte>, id: byte, addr: u16, values: seq<u16>)
  {
    var k := 2 * |values|;
    |f| == 9 + k && Intact(f) && f[0] == id && f[1] == PRESET_MULTIPLE_REGISTERS
    && Word(f[2], f[3]) == addr && Word(f[4], f[5]) == |values| && f[6] == k
    && Words(f[7..7 + k]) == values
  }

  lemma CoilsFrameMeaning(f: seq<byte>, id: byte, addr: u16, coils: seq<bool>)
    requires 0 < |coils| <= 0xFF && f == CoilsFrame(id, addr, coils)
    ensures CoilsFrameMeans(f, id, addr, coils)
  {
    CoilsFrameFields(id, addr, coils);
    CoilsFrameIntact(id, addr, coils);
  }

  lemma RegistersFrameMeaning(f: seq<byte>, id: byte, addr: u16, values: seq<u16>)
    requires 0 < 2 * |values| <= 0xFF && f == RegistersFrame(id, addr, values)
    ensures RegistersFrameMeans(f, id, addr, values)
  {
    RegistersFrameFields(id, addr, values);
    RegistersFrameIntact(id, addr, values);
  }

  /** A zero quantity or a missing coil array changes nothing and sends
      nothing; a quantity beyond special_data records the request and sends
      nothing. */
  lemma CoilsRequestRefused(c: Config, m: Master, id: byte, addr: u16, data: Data<bool>, n: u16)
    requires c.Valid() && (data.Items? ==> n <= |data.items|)
    requires n == 0 || data.Null? || n > c.specialSize
    ensures var r := ForceMultipleCoils(c, m, id, addr, data, n);
            (n == 0 || data.Null? ==> r.0 == m)
            && forall e :: e in r.1 ==> e == InternalError
  {}

  /** An accepted coil quantity n goes to the sender as one frame that reads
      back as the request with the first n coils. At most one overrun
      precedes it, exactly when special_data holds no more than the three
      meta octets. */
  lemma CoilsRequestSent(c: Config, m: Master, id: byte, addr: u16, coils: seq<bool>, n: u16, r: (Master, seq<Event>))
    requires c.Valid() && 0 < n <= |coils| && n <= c.specialSize && m.hasSender
    requires r == ForceMultipleCoils(c, m, id, addr, Items(coils), n)
    ensures 1 <= |r.1| <= 2 && r.1[|r.1| - 1].Transmit?
    ensures |r.1| == 2 <==> c.specialSize <= META_COUNT
    ensures |r.1| == 2 ==> r.1[0] == RequestOverrun
    ensures CoilsFrameMeans(r.1[|r.1| - 1].frame, id, addr, coils[..n])
  {
    var f := CoilsFrame(id, addr, coils[..n]);
    OverrunThenFrame(r.1, c.specialSize < META_COUNT + CoilOctetCount(n), f);
    CoilsAfterMeta(n, c.specialSize);
    CoilsFrameMeaning(f, id, addr, coils[..n]);
  }

  /** n coils pack into at most n octets, so beyond the three meta octets
      they fit wherever n does. */
  lemma CoilsAfterMeta(n: nat, size: nat)
    requires 0 < n <= size
    ensures size < META_COUNT + CoilOctetCount(n) <==> size <= META_COUNT
  {}

  /** A zero quantity or a missing register array changes nothing and sends
      nothing; 2n octets beyond special_data record the request and send
      nothing. */
  lemma RegistersRequestRefused(c: Config, m: Master, id: byte, addr: u16, data: Data<u16>, n: u16)
    requires c.Valid() && (data.Items? ==> n <= |data.items|)
    requires n == 0 || data.Null? || 2 * n > c.specialSize
    ensures var r := PresetMultipleRegisters(c, m, id, addr, data, n);
            (n == 0 || data.Null? ==> r.0 == m)
            && forall e :: e in r.1 ==> e == InternalError
  {}

  /** An accepted register quantity n goes to the sender as one frame that
      reads back as the request with the first n values. At most one
      overrun precedes it, exactly when the 3 + 2n octets copied into
      special_data do not fit. */
  lemma RegistersRequestSent(c: Config, m: Master, id: byte, addr: u16, values: seq<u16>, n: u16, r: (Master, seq<Event>))
    requires c.Valid() && 0 < n <= |values| && 2 * n <= c.specialSize && m.hasSender
    requires r == PresetMultipleRegisters(c, m, id, addr, Items(values), n)
    ensures 1 <= |r.1| <= 2 && r.1[|r.1| - 1].Transmit?
    ensures |r.1| == 2 <==> c.specialSize < META_COUNT + 2 * n
    ensures |r.1| == 2 ==> r.1[0] == RequestOverrun
    ensures RegistersFrameMeans(r.1[|r.1| - 1].frame, id, addr, values[..n])
  {
    var f := RegistersFrame(id, addr, values[..n]);
    OverrunThenFrame(r.1, c.specialSize < META_COUNT + 2 * n, f);
    RegistersFrameMeaning(f, id, addr, values[..n]);
  }

  /** The events of an accepted multi-value request with a sender: the
      frame, preceded by the overrun when there is one. */
  lemma OverrunThenFrame(e: seq<Event>, overrun: bool, f: seq<byte>)
    requires e == (if overrun then [RequestOverrun] else []) + [Transmit(f)]
    ensures 1 <= |e| <= 2 && e[|e| - 1] == Transmit(f)
    ensures |e| == 2 <==> overrun
    ensures |e| == 2 ==> e[0] == RequestOverrun
  {}
  // ----------------------------------------------------------- response side

  /** Waiting for the first octet of a reply, nothing received yet. */
  predicate Idle(c: Config, m: Master)
  {
    m.stage == AwaitId && m.counter == 0 && m.resp == NoResponse(c) && m.raw == []
  }

  /** Sending a request from an idle engine leaves it idle. */
  lemma SendKeepsIdle(c: Config, m: Master, m': Master, id: byte, fn: byte, addr: u16)
    requires Idle(c, m) && Records(m, m', id, fn, addr)
    ensures Idle(c, m') && m'.reqId == id
  {}

  /** The zero-filled data buffer with a received prefix written over it. */
  function Overlay(data: seq<byte>, prefix: seq<byte>): (r: seq<byte>)
    requires |prefix| <= |data|
    ensures |r| == |data|
    ensures forall i :: 0 <= i < |prefix| ==> r[i] == prefix[i]
    ensures forall i :: |prefix| <= i < |data| ==> r[i] == data[i]
  {
    prefix + data[|prefix|..]
  }

  /** Below the buffer size, an octet is stored and goes to the stage handler. */
  lemma ReceiveInRange(c: Config, m: Master, b: byte)
    requires c.Valid() && WellFormed(c, m) && |m.raw| < c.messageSize
    ensures Receive(c, m, b) == Dispatch(c, m.(raw := m.raw + [b], counter := m.counter + 1), b)
  {
    var d := Dispatch(c, m.(raw := m.raw + [b], counter := m.counter + 1), b);
    assert [] + [] + d.1 == d.1;
  }

  lemma StepId(c: Config, m: Master, b: byte)
    requires c.Valid() && WellFormed(c, m) && Idle(c, m)
    ensures Receive(c, m, b) == (m.(resp := m.resp.(id := b), stage := AwaitFunction, raw := [b]), [])
  {
    ReceiveInRange(c, m, b);
    assert m.raw + [b] == [b];
  }

  lemma StepFunction(c: Config, m: Master, b: byte)
    requires c.Valid() && WellFormed(c, m) && m.stage == AwaitFunction && m.counter == 0
    requires |m.raw| < c.messageSize
    ensures Receive(c, m, b) ==
              (m.(resp := m.resp.(fn := b),
                  stage := if IsRead(b) then AwaitLength else if IsWrite(b) then AwaitAddress else AwaitException,
                  raw := m.raw + [b]), [])
  {
    ReceiveInRange(c, m, b);
  }

  lemma StepLength(c: Config, m: Master, b: byte)
    requires c.Valid() && WellFormed(c, m) && m.stage == AwaitLength && m.counter == 0
    requires |m.raw| < c.messageSize
    ensures Receive(c, m, b) == (m.(resp := m.resp.(dataLen := b), stage := AwaitPayload, raw := m.raw + [b]), [])
  {
    ReceiveInRange(c, m, b);
  }

  lemma StepPayload(c: Config, m: Master, b: byte)
    requires c.Valid() && WellFormed(c, m) && m.stage == AwaitPayload && FromRequested(m)
    requires m.counter + 1 < ExpectedOctets(c, m.resp) <= 2 * c.registerSize
    requires m.counter < c.dataSize && |m.raw| < c.messageSize
    ensures Receive(c, m, b) ==
              (m.(resp := m.resp.(data := Put(m.resp.data, m.counter, b)), counter := m.counter + 1, raw := m.raw + [b]), [])
  {
    ReceiveInRange(c, m, b);
  }

  lemma StepLastPayload(c: Config, m: Master, b: byte)
    requires c.Valid() && WellFormed(c, m) && m.stage == AwaitPayload && FromRequested(m)
    requires m.counter + 1 == ExpectedOctets(c, m.resp) <= 2 * c.registerSize
    requires m.counter < c.dataSize && |m.raw| < c.messageSize
    ensures Receive(c, m, b) ==
              (m.(resp := m.resp.(data := Put(m.resp.data, m.counter, b)), counter := 0, stage := AwaitCrc, raw := m.raw + [b]), [])
  {
    ReceiveInRange(c, m, b);
  }

  lemma StepCrcLow(c: Config, m: Master, b: byte)
    requires c.Valid() && WellFormed(c, m) && m.stage == AwaitCrc && m.counter == 0 && m.resp.crc == 0
    requires |m.raw| < c.messageSize
    ensures Receive(c, m, b) == (m.(resp := m.resp.(crc := Word(b, 0)), counter := 1, raw := m.raw + [b]), [])
  {
    ReceiveInRange(c, m, b);
  }

  lemma StepCrcHigh(c: Config, m: Master, lo: byte, b: byte)
    requires c.Valid() && WellFormed(c, m) && m.stage == AwaitCrc && m.counter == 1 && m.resp.crc == Word(lo, 0)
    requires |m.raw| < c.messageSize && FromRequested(m)
    ensures var done := m.(resp := m.resp.(crc := Word(b, lo)), counter := 2, raw := m.raw + [b]);
            Receive(c, m, b) == (Reset(c, m), Process(c, done))
  {
    ReceiveInRange(c, m, b);
  }

  lemma StepAddressHigh(c: Config, m: Master, b: byte)
    requires c.Valid() && WellFormed(c, m) && m.stage == AwaitAddress && m.counter == 0 && m.resp.addr == 0
    requires b < c.registerSize && |m.raw| < c.messageSize
    ensures Receive(c, m, b) == (m.(resp := m.resp.(addr := b), counter := 1, raw := m.raw + [b]), [])
  {
    ReceiveInRange(c, m, b);
  }

  lemma StepAddressLow(c: Config, m: Master, b: byte)
    requires c.Valid() && WellFormed(c, m) && m.stage == AwaitAddress && m.counter == 1 && m.resp.addr < 0x100
    requires Word(m.resp.addr, b) < c.registerSize && |m.raw| < c.messageSize
    ensures Receive(c, m, b) ==
              (m.(resp := m.resp.(addr := Word(m.resp.addr, b)), counter := 0, stage := AwaitPayload, raw := m.raw + [b]), [])
  {
    ReceiveInRange(c, m, b);
  }

  /** An echoed address at or past the register count drops the reply
      without a report. */
  lemma StepAddressRejected(c: Config, m: Master, b: byte)
    requires c.Valid() && WellFormed(c, m) && m.stage == AwaitAddress && |m.raw| < c.messageSize
    requires ShiftIn(m.resp.addr, b) >= c.registerSize
    ensures Receive(c, m, b) == (Reset(c, m), [])
  {
    ReceiveInRange(c, m, b);
  }

  lemma StepException(c: Config, m: Master, b: byte)
    requires c.Valid() && WellFormed(c, m) && m.stage == AwaitException && |m.raw| < c.messageSize
    ensures Receive(c, m, b) ==
              (m.(resp := m.resp.(data := Put(m.resp.data, 0, b)), counter := 0, stage := AwaitCrc, raw := m.raw + [b]), [])
  {
    ReceiveInRange(c, m, b);
  }

  // ----------------------------------------------------------- whole streams

  /** Feeding a stream in two pieces is feeding it whole: the state carries
      over and the events concatenate. */
  lemma {:induction false} RunAppend(c: Config, m: Master, a: seq<byte>, b: seq<byte>)
    requires c.Valid() && WellFormed(c, m)
    ensures var r1 := Run(c, m, a);
            var r2 := Run(c, r1.0, b);
            Run(c, m, a + b) == (r2.0, r1.1 + r2.1)
    decreases |a|
  {
    if |a| == 0 {
      assert a + b == b;
      var t := Run(c, m, b);
      assert [] + t.1 == t.1;
    } else {
      var r := Receive(c, m, a[0]);
      assert (a + b)[0] == a[0] && (a + b)[1..] == a[1..] + b;
      RunAppend(c, r.0, a[1..], b);
      var r1 := Run(c, r.0, a[1..]);
      var r2 := Run(c, r1.0, b);
      assert r.1 + (r1.1 + r2.1) == (r.1 + r1.1) + r2.1;
    }
  }

  lemma RunThen(c: Config, m: Master, a: seq<byte>, b: seq<byte>, m1: Master, e1: seq<Event>)
    requires c.Valid() && WellFormed(c, m) && Run(c, m, a) == (m1, e1)
    ensures WellFormed(c, m1) && Run(c, m, a + b) == (Run(c, m1, b).0, e1 + Run(c, m1, b).1)
  {
    RunAppend(c, m, a, b);
  }

  lemma RunOne(c: Config, m: Master, b: byte)
    requires c.Valid() && WellFormed(c, m)
    ensures Run(c, m, [b]) == Receive(c, m, b)
  {
    var r := Receive(c, m, b);
    assert [b][1..] == [];
    assert r.1 + [] == r.1;
  }

  /** The engine after the first k octets of a payload g that is still
      incomplete. */
  function PayloadAfter(m: Master, g: seq<byte>, k: nat): Master
    requires k <= |g| && k <= |m.resp.data|
  {
    m.(resp := m.resp.(data := Overlay(m.resp.data, g[..k])), counter := k, raw := m.raw + g[..k])
  }

  /** The engine once all n payload octets of g are stored. */
  function PayloadStored(m: Master, g: seq<byte>, n: nat): Master
    requires n <= |g| && n <= |m.resp.data|
  {
    m.(resp := m.resp.(data := Overlay(m.resp.data, g[..n])), counter := 0, stage := AwaitCrc, raw := m.raw + g[..n])
  }

  /** Room for a payload of the expected length from the addressed device:
      within the register limit, the data array and the response buffer. */
  predicate PayloadFits(c: Config, m: Master)
  {
    var n := ExpectedOctets(c, m.resp);
    FromRequested(m) && 0 < n <= 2 * c.registerSize && n <= c.dataSize && |m.raw| + n <= c.messageSize
  }

  lemma AppendPrefix(a: seq<byte>, g: seq<byte>, k: nat)
    requires k < |g|
    ensures (a + g[..k]) + [g[k]] == a + g[..k + 1]
  {
    assert g[..k + 1] == g[..k] + [g[k]];
  }

  /** Payload octets before the last are stored one after another. */
  lemma {:induction false} PayloadPrefix(c: Config, m: Master, g: seq<byte>, k: nat)
    requires c.Valid() && WellFormed(c, m) && m.stage == AwaitPayload && m.counter == 0 && PayloadFits(c, m)
    requires k < ExpectedOctets(c, m.resp) && k <= |g|
    ensures Run(c, m, g[..k]) == (PayloadAfter(m, g, k), [])
    decreases k
  {
    if k == 0 {
      assert g[..0] == [];
      assert Overlay(m.resp.data, g[..0]) == m.resp.data;
      assert m.raw + g[..0] == m.raw;
      assert PayloadAfter(m, g, 0) == m;
    } else {
      var p := PayloadAfter(m, g, k - 1);
      assert g[..k] == g[..k - 1] + [g[k - 1]];
      PayloadPrefix(c, m, g, k - 1);
      RunThen(c, m, g[..k - 1], [g[k - 1]], p, []);
      RunOne(c, p, g[k - 1]);
      StepPayload(c, p, g[k - 1]);
      assert Put(p.resp.data, k - 1, g[k - 1]) == Overlay(m.resp.data, g[..k]);
      AppendPrefix(m.raw, g, k - 1);
    }
  }

  lemma LastPayloadOctet(c: Config, m: Master, g: seq<byte>, n: nat)
    requires c.Valid() && WellFormed(c, m) && m.stage == AwaitPayload && m.counter == 0 && PayloadFits(c, m)
    requires n == ExpectedOctets(c, m.resp) <= |g|
    ensures Receive(c, PayloadAfter(m, g, n - 1), g[n - 1]) == (PayloadStored(m, g, n), [])
  {
    var p := PayloadAfter(m, g, n - 1);
    AppendPrefix(m.raw, g, n - 1);
    var d := Put(p.resp.data, n - 1, g[n - 1]);
    assert d == Overlay(m.resp.data, g[..n]);
    assert p.resp.(data := d) == m.resp.(data := Overlay(m.resp.data, g[..n]));
    StepLastPayload(c, p, g[n - 1]);
  }

  /** A complete payload from the addressed device is stored in order, and
      the CRC stage follows. */
  lemma PayloadAll(c: Config, m: Master, g: seq<byte>)
    requires c.Valid() && WellFormed(c, m) && m.stage == AwaitPayload && m.counter == 0 && PayloadFits(c, m)
    requires |g| == ExpectedOctets(c, m.resp)
    ensures Run(c, m, g) == (PayloadStored(m, g, |g|), [])
  {
    var n := |g|;
    var p := PayloadAfter(m, g, n - 1);
    assert g == g[..n - 1] + [g[n - 1]];
    PayloadPrefix(c, m, g, n - 1);
    RunThen(c, m, g[..n - 1], [g[n - 1]], p, []);
    RunOne(c, p, g[n - 1]);
    LastPayloadOctet(c, m, g, n);
  }

  /** The engine holding a whole reply whose last two octets are t. */
  function Checked(m: Master, t: seq<byte>): Master
    requires |t| == 2
  {
    m.(resp := m.resp.(crc := Word(t[1], t[0])), counter := 2, raw := m.raw + t)
  }

  /** The two CRC octets complete the reply: it is processed, then the
      engine resets. */
  lemma CrcTail(c: Config, m: Master, t: seq<byte>)
    requires c.Valid() && WellFormed(c, m) && m.stage == AwaitCrc && m.counter == 0 && m.resp.crc == 0
    requires FromRequested(m) && |m.raw| + 2 <= c.messageSize && |t| == 2
    ensures Run(c, m, t) == (Reset(c, m), Process(c, Checked(m, t)))
  {
    var m1 := m.(resp := m.resp.(crc := Word(t[0], 0)), counter := 1, raw := m.raw + [t[0]]);
    assert t == [t[0]] + [t[1]];
    assert m1.raw + [t[1]] == m.raw + t;
    StepCrcLow(c, m, t[0]);
    RunOne(c, m, t[0]);
    RunThen(c, m, [t[0]], [t[1]], m1, []);
    RunOne(c, m1, t[1]);
    StepCrcHigh(c, m1, t[0], t[1]);
  }

  // ------------------------------------------------------------- headers

  /** The engine after the header of a read reply: device, function, byte count. */
  function ReadHeader(m: Master, h: seq<byte>): Master
    requires |h| == 3
  {
    m.(resp := m.resp.(id := h[0], fn := h[1], dataLen := h[2]), stage := AwaitPayload, raw := h)
  }

  lemma ReadHead(c: Config, m: Master, h: seq<byte>)
    requires c.Valid() && WellFormed(c, m) && Idle(c, m) && |h| == 3 && IsRead(h[1])
    ensures Run(c, m, h) == (ReadHeader(m, h), [])
  {
    var m2 := m.(resp := m.resp.(id := h[0], fn := h[1]), stage := AwaitLength, raw := h[..2]);
    assert h == h[..2] + [h[2]];
    IdAndFunction(c, m, h[..2]);
    StepLength(c, m2, h[2]);
    RunOne(c, m2, h[2]);
    RunThen(c, m, h[..2], [h[2]], m2, []);
  }

  /** The engine after the header of a write echo: device, function, address. */
  function WriteHeader(m: Master, h: seq<byte>): Master
    requires |h| == 4
  {
    m.(resp := m.resp.(id := h[0], fn := h[1], addr := Word(h[2], h[3])), stage := AwaitPayload, raw := h)
  }

  /** The first two octets of any reply: device and function. */
  lemma IdAndFunction(c: Config, m: Master, h: seq<byte>)
    requires c.Valid() && WellFormed(c, m) && Idle(c, m) && |h| == 2
    ensures Run(c, m, h) ==
              (m.(resp := m.resp.(id := h[0], fn := h[1]),
                  stage := if IsRead(h[1]) then AwaitLength else if IsWrite(h[1]) then AwaitAddress else AwaitException,
                  raw := h), [])
  {
    var m1 := m.(resp := m.resp.(id := h[0]), stage := AwaitFunction, raw := [h[0]]);
    assert h == [h[0]] + [h[1]];
    StepId(c, m, h[0]);
    RunOne(c, m, h[0]);
    StepFunction(c, m1, h[1]);
    RunOne(c, m1, h[1]);
    RunThen(c, m, [h[0]], [h[1]], m1, []);
  }

  lemma WordAtLeastHigh(hi: byte, lo: byte)
    ensures Word(hi, lo) >= hi
  {}

  lemma WriteHead(c: Config, m: Master, h: seq<byte>)
    requires c.Valid() && WellFormed(c, m) && Idle(c, m) && |h| == 4 && IsWrite(h[1])
    requires Word(h[2], h[3]) < c.registerSize
    ensures Run(c, m, h) == (WriteHeader(m, h), [])
  {
    var m2 := m.(resp := m.resp.(id := h[0], fn := h[1]), stage := AwaitAddress, raw := h[..2]);
    var m3 := m2.(resp := m2.resp.(addr := h[2]), counter := 1, raw := h[..3]);
    assert h[..3] == h[..2] + [h[2]] && h == h[..3] + [h[3]];
    WordAtLeastHigh(h[2], h[3]);
    IdAndFunction(c, m, h[..2]);
    StepAddressHigh(c, m2, h[2]);
    RunOne(c, m2, h[2]);
    RunThen(c, m, h[..2], [h[2]], m2, []);
    StepAddressLow(c, m3, h[3]);
    RunOne(c, m3, h[3]);
    RunThen(c, m, h[..3], [h[3]], m3, []);
  }

  /** A write echo whose address is not below the register count is dropped
      without a report, at the first address octet that shows it: the
      high octet alone when it already reaches the count. */
  lemma WriteHeadRejected(c: Config, m: Master, h: seq<byte>)
    requires c.Valid() && WellFormed(c, m) && Idle(c, m) && |h| == 4 && IsWrite(h[1])
    requires Word(h[2], h[3]) >= c.registerSize
    ensures var k := if h[2] >= c.registerSize then 3 else 4;
            Run(c, m, h[..k]) == (Reset(c, m), [])
  {
    var m2 := m.(resp := m.resp.(id := h[0], fn := h[1]), stage := AwaitAddress, raw := h[..2]);
    assert h[..3] == h[..2] + [h[2]] && h[..4] == h[..3] + [h[3]];
    assert h[..3][..2] == h[..2];
    IdAndFunction(c, m, h[..2]);
    RunOne(c, m2, h[2]);
    if h[2] >= c.registerSize {
      StepAddressRejected(c, m2, h[2]);
      RunThen(c, m, h[..2], [h[2]], m2, []);
    } else {
      var m3 := m2.(resp := m2.resp.(addr := h[2]), counter := 1, raw := h[..3]);
      StepAddressHigh(c, m2, h[2]);
      RunThen(c, m, h[..2], [h[2]], m2, []);
      StepAddressRejected(c, m3, h[3]);
      RunOne(c, m3, h[3]);
      RunThen(c, m, h[..3], [h[3]], m3, []);
    }
  }

  /** The engine after the header of an exception reply: device, function,
      and the exception code in the first data octet. */
  function ExceptionHeader(m: Master, h: seq<byte>): Master
    requires |h| == 3
  {
    m.(resp := m.resp.(id := h[0], fn := h[1], data := Put(m.resp.data, 0, h[2])), stage := AwaitCrc, raw := h)
  }

  lemma ExceptionHead(c: Config, m: Master, h: seq<byte>)
    requires c.Valid() && WellFormed(c, m) && Idle(c, m) && |h| == 3 && !IsRead(h[1]) && !IsWrite(h[1])
    ensures Run(c, m, h) == (ExceptionHeader(m, h), [])
  {
    var m2 := m.(resp := m.resp.(id := h[0], fn := h[1]), stage := AwaitException, raw := h[..2]);
    assert h == h[..2] + [h[2]];
    IdAndFunction(c, m, h[..2]);
    StepException(c, m2, h[2]);
    RunOne(c, m2, h[2]);
    RunThen(c, m, h[..2], [h[2]], m2, []);
  }

  // ---------------------------------------------------------- whole replies

  /** The engine holding a whole reply when its second CRC octet has arrived. */
  function Holding(m: Master, resp: Response, f: seq<byte>): Master
  {
    m.(resp := resp, stage := AwaitCrc, counter := 2, raw := f)
  }

  /** The checksum the engine accepts is exactly the one the frame carries. */
  lemma CrcOkIffIntact(m: Master)
    requires |m.raw| >= 2 && m.resp.crc == Word(m.raw[|m.raw| - 1], m.raw[|m.raw| - 2])
    ensures CrcOk(m) <==> Intact(m.raw)
  {
    assert WithoutCrc(m.raw) == m.raw[..|m.raw| - 2];
  }

  /** A read reply from the addressed device: its id, a read code, a byte
      count matching the data that follow, and room for it all. */
  predicate ReadReplyFits(c: Config, m: Master, f: seq<byte>)
  {
    5 < |f| <= c.messageSize && f[0] == m.reqId && IsRead(f[1]) && f[2] as int == |f| - 5
    && f[2] as int <= 2 * c.registerSize && f[2] as int <= c.dataSize
  }

  /** What the engine has read of a read reply f. */
  function ReadResponse(c: Config, f: seq<byte>): Response
    requires 5 <= |f| <= c.dataSize + 5
  {
    Response(f[0], f[1], f[2], 0, Overlay(Zeros(c.dataSize), f[3..|f| - 2]), Word(f[|f| - 1], f[|f| - 2]))
  }

  /** The engine waiting for the CRC of frame f, the rest of whose reply
      it holds in resp. */
  function AwaitingCrc(m: Master, resp: Response, f: seq<byte>): Master
    requires |f| >= 2
  {
    m.(resp := resp.(crc := 0), stage := AwaitCrc, counter := 0, raw := f[..|f| - 2])
  }

  /** Once all but the CRC of a reply is in, the two CRC octets complete it. */
  lemma Complete(c: Config, m: Master, f: seq<byte>, resp: Response)
    requires c.Valid() && WellFormed(c, m) && 2 <= |f| <= c.messageSize
    requires |resp.data| == c.dataSize && resp.id == m.reqId && resp.crc == CarriedCrc(f)
    requires Run(c, m, f[..|f| - 2]) == (AwaitingCrc(m, resp, f), [])
    ensures Run(c, m, f) == (Reset(c, m), Process(c, Holding(m, resp, f)))
  {
    var b, t := f[..|f| - 2], f[|f| - 2..];
    var m2 := AwaitingCrc(m, resp, f);
    assert f == b + t;
    RunThen(c, m, b, t, m2, []);
    CrcTail(c, m2, t);
    var r := Run(c, m2, t);
    assert [] + r.1 == r.1;
    assert Reset(c, m2) == Reset(c, m);
    assert m2.raw + t == f;
    assert Checked(m2, t) == Holding(m, resp, f);
  }

  /** A read reply is taken apart into its fields, processed once its last
      octet arrives, and the engine is reset. */
  lemma ReadReply(c: Config, m: Master, f: seq<byte>)
    requires c.Valid() && WellFormed(c, m) && Idle(c, m) && c.AnyRead() && ReadReplyFits(c, m, f)
    ensures Run(c, m, f) == (Reset(c, m), Process(c, Holding(m, ReadResponse(c, f), f)))
  {
    ReadBody(c, m, f);
    Complete(c, m, f, ReadResponse(c, f));
  }

  lemma ReadBody(c: Config, m: Master, f: seq<byte>)
    requires c.Valid() && WellFormed(c, m) && Idle(c, m) && c.AnyRead() && ReadReplyFits(c, m, f)
    ensures Run(c, m, f[..|f| - 2]) == (AwaitingCrc(m, ReadResponse(c, f), f), [])
  {
    var n := |f| - 5;
    var h, g := f[..3], f[3..|f| - 2];
    assert f[..|f| - 2] == h + g;
    ReadHead(c, m, h);
    var m1 := ReadHeader(m, h);
    assert ExpectedOctets(c, m1.resp) == n;
    PayloadAll(c, m1, g);
    RunThen(c, m, h, g, m1, []);
    assert g[..n] == g;
    assert PayloadStored(m1, g, n) == AwaitingCrc(m, ReadResponse(c, f), f);
  }

  /** With a packet handler, an enabled read reply is delivered: with its
      data when the checksum holds, as ERROR_CRC with empty slots otherwise. */
  lemma ReadReplyDelivered(c: Config, m: Master, f: seq<byte>)
    requires c.Valid() && WellFormed(c, m) && Idle(c, m) && c.AnyRead() && ReadReplyFits(c, m, f)
    requires f[1] in c.enabled && m.hasPacketHandler
    ensures Run(c, m, f).0 == Reset(c, m)
    ensures Intact(f) ==> Run(c, m, f).1 == [Deliver(Packet(NoError, f[0], f[1], Unpack(c, f[1], ReadResponse(c, f))))]
    ensures !Intact(f) ==> Run(c, m, f).1 == [Deliver(Packet(ErrorCrc, f[0], f[1], seq(c.messageSize, _ => 0)))]
  {
    ReadReply(c, m, f);
    CrcOkIffIntact(Holding(m, ReadResponse(c, f), f));
  }

  /** A payload octet of the reply from the addressed device. When the
      announced length exceeds the 2 * MODBUS_REGISTER_SIZE octets of the
      register table, or the octet would land past the data array, the
      internal error is reported and the engine resets, storing nothing.
      Otherwise the octet is stored at its position, nothing else in the
      data array changes, and nothing is reported. */
  lemma PayloadChecked(c: Config, m: Master, b: byte)
    requires WellFormed(c, m) && m.counter >= 1 && FromRequested(m)
    ensures var r := OnPayload(c, m, b);
            ExpectedOctets(c, m.resp) > 2 * c.registerSize || m.counter > c.dataSize
            ==> r == (Reset(c, m), ErrorEvents(m))
    ensures var r := OnPayload(c, m, b);
            ExpectedOctets(c, m.resp) <= 2 * c.registerSize && m.counter <= c.dataSize
            ==> r.1 == [] && r.0.reqId == m.reqId && r.0.resp.data[m.counter - 1] == b
                && forall i :: 0 <= i < c.dataSize && i != m.counter - 1 ==> r.0.resp.data[i] == m.resp.data[i]
  {}

  /** A read reply from the addressed device that announces more octets
      than the register table holds is cut off at its first data octet:
      the internal error is reported and the engine resets. */
  lemma ReadReplyTooLong(c: Config, m: Master, h: seq<byte>, b: byte)
    requires c.Valid() && WellFormed(c, m) && Idle(c, m) && c.AnyRead()
    requires |h| == 3 && h[0] == m.reqId && IsRead(h[1]) && h[2] as int > 2 * c.registerSize
    ensures Run(c, m, h + [b]) == (Reset(c, m), ErrorEvents(m))
  {
    var m1 := ReadHeader(m, h);
    ReadHead(c, m, h);
    RunThen(c, m, h, [b], m1, []);
    RunOne(c, m1, b);
    ReceiveInRange(c, m1, b);
    var m2 := m1.(raw := m1.raw + [b], counter := m1.counter + 1);
    PayloadChecked(c, m2, b);
  }

  /** The checksum octets of a frame read back as a word, high octet last. */
  function CarriedCrc(f: seq<byte>): u16
    requires |f| >= 2
  {
    Word(f[|f| - 1], f[|f| - 2])
  }

  /** What the engine has read of an 8-octet write echo f. */
  function WriteResponse(c: Config, f: seq<byte>): Response
    requires |f| == 8 && 2 <= c.dataSize
  {
    Response(f[0], f[1], 0, Word(f[2], f[3]), Overlay(Zeros(c.dataSize), f[4..6]), CarriedCrc(f))
  }

  /** A write echo from the addressed device with an address below the
      register count is taken apart and processed. */
  lemma WriteReply(c: Config, m: Master, f: seq<byte>)
    requires c.Valid() && WellFormed(c, m) && Idle(c, m) && c.AnyWrite() && 2 <= c.dataSize
    requires |f| == 8 && f[0] == m.reqId && IsWrite(f[1]) && Word(f[2], f[3]) < c.registerSize
    ensures Run(c, m, f) == (Reset(c, m), Process(c, Holding(m, WriteResponse(c, f), f)))
  {
    WriteBody(c, m, f);
    Complete(c, m, f, WriteResponse(c, f));
  }

  lemma WriteBody(c: Config, m: Master, f: seq<byte>)
    requires c.Valid() && WellFormed(c, m) && Idle(c, m) && c.AnyWrite() && 2 <= c.dataSize
    requires |f| == 8 && f[0] == m.reqId && IsWrite(f[1]) && Word(f[2], f[3]) < c.registerSize
    ensures Run(c, m, f[..6]) == (AwaitingCrc(m, WriteResponse(c, f), f), [])
  {
    var h, g := f[..4], f[4..6];
    assert f[..6] == h + g;
    WriteHead(c, m, h);
    var m1 := WriteHeader(m, h);
    assert ExpectedOctets(c, m1.resp) == 2;
    PayloadAll(c, m1, g);
    RunThen(c, m, h, g, m1, []);
    assert g[..2] == g;
    assert PayloadStored(m1, g, 2) == AwaitingCrc(m, WriteResponse(c, f), f);
  }

  /** An intact, enabled write echo reaches the packet handler with the
      echoed value in slot 0 and nothing in the other slots. */
  lemma WriteReplyDelivered(c: Config, m: Master, f: seq<byte>)
    requires c.Valid() && WellFormed(c, m) && Idle(c, m) && c.AnyWrite() && 2 <= c.dataSize
    requires |f| == 8 && f[0] == m.reqId && IsWrite(f[1]) && Word(f[2], f[3]) < c.registerSize
    requires f[1] in c.enabled && m.hasPacketHandler && Intact(f)
    ensures Run(c, m, f).0 == Reset(c, m)
    ensures var e := Run(c, m, f).1;
            |e| == 1 && e[0].Deliver? && e[0].packet.status == NoError
            && e[0].packet.slaveId == f[0] && e[0].packet.command == f[1]
            && |e[0].packet.values| == c.messageSize && e[0].packet.values[0] == Word(f[4], f[5])
            && forall i :: 1 <= i < |e[0].packet.values| ==> e[0].packet.values[i] == 0
  {
    var resp := WriteResponse(c, f);
    WriteReply(c, m, f);
    CrcOkIffIntact(Holding(m, resp, f));
    var v := Unpack(c, f[1], resp);
    assert Get(resp.data, 0) == f[4] && Get(resp.data, 1) == f[5];
    assert v[0] == Word(f[4], f[5]);
  }

  /** What the engine has read of a 5-octet exception reply f: the code sits
      in the first data octet. */
  function ExceptionResponse(c: Config, f: seq<byte>): Response
    requires |f| == 5
  {
    Response(f[0], f[1], 0, 0, Put(Zeros(c.dataSize), 0, f[2]), CarriedCrc(f))
  }

  lemma ExceptionReply(c: Config, m: Master, f: seq<byte>)
    requires c.Valid() && WellFormed(c, m) && Idle(c, m)
    requires |f| == 5 && f[0] == m.reqId && !IsRead(f[1]) && !IsWrite(f[1])
    ensures Run(c, m, f) == (Reset(c, m), Process(c, Holding(m, ExceptionResponse(c, f), f)))
  {
    ExceptionHead(c, m, f[..3]);
    assert ExceptionHeader(m, f[..3]) == AwaitingCrc(m, ExceptionResponse(c, f), f);
    Complete(c, m, f, ExceptionResponse(c, f));
  }

  /** An intact exception reply to an enabled function is delivered as
      ERROR_DATA with the code as received. Its slots are unpacked for the
      function without the exception bit: all zero for a read, while for a
      write the exception code lands in the high octet of slot 0. */
  lemma ExceptionReplyDelivered(c: Config, m: Master, f: seq<byte>, fn: byte)
    requires c.Valid() && WellFormed(c, m) && Idle(c, m) && 0 < c.dataSize
    requires |f| == 5 && f[0] == m.reqId && fn in c.enabled && f[1] == WithExceptionBit(fn)
    requires m.hasPacketHandler && Intact(f)
    ensures Run(c, m, f).0 == Reset(c, m)
    ensures var e := Run(c, m, f).1;
            |e| == 1 && e[0].Deliver? && e[0].packet.status == ErrorData
            && e[0].packet.slaveId == f[0] && e[0].packet.command == f[1]
            && |e[0].packet.values| == c.messageSize
            && (IsRead(fn) ==> forall i :: 0 <= i < |e[0].packet.values| ==> e[0].packet.values[i] == 0)
            && (IsWrite(fn) ==>
                  e[0].packet.values[0] == Word(f[2], 0)
                  && forall i :: 1 <= i < |e[0].packet.values| ==> e[0].packet.values[i] == 0)
  {
    assert IsKnown(fn);
    assert !IsKnown(f[1]);
    var resp := ExceptionResponse(c, f);
    ExceptionReply(c, m, f);
    CrcOkIffIntact(Holding(m, resp, f));
    assert f[1] !in c.enabled;
    assert ToggleExceptionBit(f[1]) == fn;
    assert Get(resp.data, 0) == f[2] && Get(resp.data, 1) == 0;
  }

  /** An exception-sized reply whose code is not enabled, with or without
      the exception bit, is delivered as ERROR_COMMAND with empty slots; its
      checksum is never looked at. */
  lemma UnknownCommandReply(c: Config, m: Master, f: seq<byte>)
    requires c.Valid() && WellFormed(c, m) && Idle(c, m) && m.hasPacketHandler
    requires |f| == 5 && f[0] == m.reqId && !IsRead(f[1]) && !IsWrite(f[1])
    requires f[1] !in c.enabled && ToggleExceptionBit(f[1]) !in c.enabled
    ensures Run(c, m, f) == (Reset(c, m), [Deliver(Packet(ErrorCommand, f[0], f[1], seq(c.messageSize, _ => 0)))])
  {
    ExceptionReply(c, m, f);
  }

  /** A corrupt exception reply to an enabled function is delivered as
      ERROR_CRC, which replaces ERROR_DATA, with empty slots. */
  lemma CorruptExceptionReply(c: Config, m: Master, f: seq<byte>, fn: byte)
    requires c.Valid() && WellFormed(c, m) && Idle(c, m) && m.hasPacketHandler
    requires |f| == 5 && f[0] == m.reqId && fn in c.enabled && f[1] == WithExceptionBit(fn) && !Intact(f)
    ensures Run(c, m, f) == (Reset(c, m), [Deliver(Packet(ErrorCrc, f[0], f[1], seq(c.messageSize, _ => 0)))])
  {
    assert IsKnown(fn);
    assert !IsKnown(f[1]);
    ExceptionReply(c, m, f);
    CrcOkIffIntact(Holding(m, ExceptionResponse(c, f), f));
    assert f[1] !in c.enabled;
    assert ToggleExceptionBit(f[1]) == fn;
  }

  /** The status a complete reply from the addressed device is delivered
      with, in terms of the enabled codes and the frame's own checksum:
      ERROR_COMMAND when neither the code nor its exception-toggled form is
      enabled, whatever the checksum; otherwise ERROR_CRC when the frame is
      corrupt; otherwise NO_ERROR for an enabled code and ERROR_DATA for an
      exception reply. The two error statuses carry empty slots. */
  lemma ReplyStatus(c: Config, m: Master)
    requires FromRequested(m) && m.hasPacketHandler
    requires |m.raw| >= 2 && m.resp.crc == CarriedCrc(m.raw)
    ensures var e := Process(c, m);
            |e| == 1 && e[0].Deliver? && e[0].packet.slaveId == m.resp.id && e[0].packet.command == m.resp.fn
    ensures var p := Process(c, m)[0].packet;
            var known := m.resp.fn in c.enabled || ToggleExceptionBit(m.resp.fn) in c.enabled;
            (p.status == ErrorCommand <==> !known)
            && (p.status == ErrorCrc <==> known && !Intact(m.raw))
            && (p.status == NoError <==> m.resp.fn in c.enabled && Intact(m.raw))
            && (p.status == ErrorData <==> m.resp.fn !in c.enabled && ToggleExceptionBit(m.resp.fn) in c.enabled && Intact(m.raw))
    ensures var p := Process(c, m)[0].packet;
            p.status == ErrorCommand || p.status == ErrorCrc ==> forall i :: 0 <= i < |p.values| ==> p.values[i] == 0
  {
    CrcOkIffIntact(m);
  }

  // ------------------------------------------------------------ packet slots

  lemma UnpackSlot(c: Config, fn: byte, resp: Response, i: nat)
    requires i < c.messageSize
    ensures Unpack(c, fn, resp)[i] == Slot(fn, resp, i)
  {}

  /** Register values sent high octet first come back, in order, in the
      leading slots of an analog read's packet; the other slots are zero. */
  lemma AnalogSlots(c: Config, fn: byte, resp: Response, values: seq<u16>)
    requires IsAnalog(fn) && resp.dataLen as int == 2 * |values| && |values| <= c.messageSize
    requires 2 * |values| <= |resp.data| && resp.data[..2 * |values|] == BigEndian(values)
    ensures Unpack(c, fn, resp)[..|values|] == values
    ensures forall i :: |values| <= i < c.messageSize ==> Unpack(c, fn, resp)[i] == 0
  {
    var u := Unpack(c, fn, resp);
    forall i | 0 <= i < |values| ensures u[i] == values[i] {
      AnalogSlot(c, fn, resp, values, i);
    }
    forall i | |values| <= i < c.messageSize ensures u[i] == 0 {
      UnpackSlot(c, fn, resp, i);
    }
  }

  lemma AnalogSlot(c: Config, fn: byte, resp: Response, values: seq<u16>, i: nat)
    requires IsAnalog(fn) && resp.dataLen as int == 2 * |values| && |values| <= c.messageSize
    requires 2 * |values| <= |resp.data| && resp.data[..2 * |values|] == BigEndian(values)
    requires i < |values|
    ensures Unpack(c, fn, resp)[i] == values[i]
  {
    var be := BigEndian(values);
    var prefix := resp.data[..2 * |values|];
    assert prefix[2 * i] == resp.data[2 * i] && prefix[2 * i + 1] == resp.data[2 * i + 1];
    assert Get(resp.data, 2 * i) == Hi(values[i]) && Get(resp.data, 2 * i + 1) == Lo(values[i]);
    UnpackSlot(c, fn, resp, i);
    WordOfHalves(values[i]);
  }

  /** Coil flags packed eight to an octet, first flag in the low bit, come
      back from a discrete read's packet: flag i is bit i % 8 of slot i / 8. */
  lemma DiscreteSlots(c: Config, fn: byte, resp: Response, bits: seq<bool>)
    requires IsDiscrete(fn) && resp.dataLen as int == |PackCoils(bits)| <= c.messageSize
    requires |PackCoils(bits)| <= |resp.data| && resp.data[..resp.dataLen] == PackCoils(bits)
    ensures forall i :: 0 <= i < |bits| ==> Bit(Unpack(c, fn, resp)[i / 8], i % 8) == bits[i]
    ensures forall i :: resp.dataLen as int <= i < c.messageSize ==> Unpack(c, fn, resp)[i] == 0
  {
    var u := Unpack(c, fn, resp);
    var packed := PackCoils(bits);
    forall i | 0 <= i < |bits| ensures Bit(u[i / 8], i % 8) == bits[i] {
      PackedCoil(bits, i);
      assert resp.data[i / 8] == packed[i / 8];
    }
  }

  // ----------------------------------------------------- replies of others

  lemma StepForeignPayload(c: Config, m: Master, b: byte)
    requires c.Valid() && WellFormed(c, m) && m.stage == AwaitPayload && !FromRequested(m)
    requires m.counter + 1 < ExpectedOctets(c, m.resp) && |m.raw| < c.messageSize
    ensures Receive(c, m, b) == (m.(counter := m.counter + 1, raw := m.raw + [b]), [])
  {
    ReceiveInRange(c, m, b);
  }

  lemma StepForeignLastPayload(c: Config, m: Master, b: byte)
    requires c.Valid() && WellFormed(c, m) && m.stage == AwaitPayload && !FromRequested(m)
    requires m.counter + 1 == ExpectedOctets(c, m.resp) && |m.raw| < c.messageSize
    ensures Receive(c, m, b) == (m.(counter := 0, stage := AwaitCrc, raw := m.raw + [b]), [])
  {
    ReceiveInRange(c, m, b);
  }

  lemma StepForeignCrcHigh(c: Config, m: Master, b: byte)
    requires c.Valid() && WellFormed(c, m) && m.stage == AwaitCrc && m.counter == 1 && !FromRequested(m)
    requires |m.raw| < c.messageSize
    ensures Receive(c, m, b) == (Reset(c, m), [])
  {
    ReceiveInRange(c, m, b);
  }

  /** A reply from another device: the payload octets are only counted,
      whatever the register and data limits. */
  lemma {:induction false} ForeignPrefix(c: Config, m: Master, g: seq<byte>, k: nat)
    requires c.Valid() && WellFormed(c, m) && m.stage == AwaitPayload && m.counter == 0 && !FromRequested(m)
    requires k < ExpectedOctets(c, m.resp) && k <= |g| && |m.raw| + k <= c.messageSize
    ensures Run(c, m, g[..k]) == (m.(counter := k, raw := m.raw + g[..k]), [])
    decreases k
  {
    if k == 0 {
      assert g[..0] == [];
      assert m.raw + g[..0] == m.raw;
    } else {
      var p := m.(counter := k - 1, raw := m.raw + g[..k - 1]);
      assert g[..k] == g[..k - 1] + [g[k - 1]];
      ForeignPrefix(c, m, g, k - 1);
      RunThen(c, m, g[..k - 1], [g[k - 1]], p, []);
      RunOne(c, p, g[k - 1]);
      StepForeignPayload(c, p, g[k - 1]);
      AppendPrefix(m.raw, g, k - 1);
    }
  }

  lemma ForeignLastOctet(c: Config, m: Master, g: seq<byte>)
    requires c.Valid() && WellFormed(c, m) && m.stage == AwaitPayload && m.counter == 0 && !FromRequested(m)
    requires 0 < |g| == ExpectedOctets(c, m.resp) && |m.raw| + |g| <= c.messageSize
    ensures var n := |g|;
            Receive(c, m.(counter := n - 1, raw := m.raw + g[..n - 1]), g[n - 1]) ==
              (m.(stage := AwaitCrc, raw := m.raw + g), [])
  {
    var n := |g|;
    AppendPrefix(m.raw, g, n - 1);
    assert g[..n] == g;
    StepForeignLastPayload(c, m.(counter := n - 1, raw := m.raw + g[..n - 1]), g[n - 1]);
  }

  lemma ForeignPayload(c: Config, m: Master, g: seq<byte>)
    requires c.Valid() && WellFormed(c, m) && m.stage == AwaitPayload && m.counter == 0 && !FromRequested(m)
    requires 0 < |g| == ExpectedOctets(c, m.resp) && |m.raw| + |g| <= c.messageSize
    ensures Run(c, m, g) == (m.(stage := AwaitCrc, raw := m.raw + g), [])
  {
    var n := |g|;
    var p := m.(counter := n - 1, raw := m.raw + g[..n - 1]);
    assert g == g[..n - 1] + [g[n - 1]];
    ForeignPrefix(c, m, g, n - 1);
    RunThen(c, m, g[..n - 1], [g[n - 1]], p, []);
    RunOne(c, p, g[n - 1]);
    ForeignLastOctet(c, m, g);
  }

  lemma ForeignTail(c: Config, m: Master, t: seq<byte>)
    requires c.Valid() && WellFormed(c, m) && m.stage == AwaitCrc && m.counter == 0 && !FromRequested(m)
    requires m.resp.crc == 0 && |m.raw| + 2 <= c.messageSize && |t| == 2
    ensures Run(c, m, t) == (Reset(c, m), [])
  {
    var m1 := m.(resp := m.resp.(crc := Word(t[0], 0)), counter := 1, raw := m.raw + [t[0]]);
    assert t == [t[0]] + [t[1]];
    StepCrcLow(c, m, t[0]);
    RunOne(c, m, t[0]);
    RunThen(c, m, [t[0]], [t[1]], m1, []);
    RunOne(c, m1, t[1]);
    StepForeignCrcHigh(c, m1, t[1]);
  }

  /** The header and payload of a read reply from another device. */
  lemma ForeignBody(c: Config, m: Master, f: seq<byte>)
    requires c.Valid() && WellFormed(c, m) && Idle(c, m) && c.AnyRead()
    requires 5 < |f| <= c.messageSize && f[0] != m.reqId && IsRead(f[1]) && f[2] as int == |f| - 5
    ensures Run(c, m, f[..|f| - 2]) == (ReadHeader(m, f[..3]).(stage := AwaitCrc, raw := f[..|f| - 2]), [])
  {
    var h, g := f[..3], f[3..|f| - 2];
    assert f[..|f| - 2] == h + g;
    ReadHead(c, m, h);
    var m1 := ReadHeader(m, h);
    ForeignPayload(c, m1, g);
    RunThen(c, m, h, g, m1, []);
  }

  /** A read reply from a device other than the one last addressed is
      consumed without a report, whatever its checksum, and the engine is
      reset. */
  lemma ForeignReadIgnored(c: Config, m: Master, f: seq<byte>)
    requires c.Valid() && WellFormed(c, m) && Idle(c, m) && c.AnyRead()
    requires 5 < |f| <= c.messageSize && f[0] != m.reqId && IsRead(f[1]) && f[2] as int == |f| - 5
    ensures Run(c, m, f) == (Reset(c, m), [])
  {
    var b, t := f[..|f| - 2], f[|f| - 2..];
    var m2 := ReadHeader(m, f[..3]).(stage := AwaitCrc, raw := b);
    assert f == b + t;
    ForeignBody(c, m, f);
    RunThen(c, m, b, t, m2, []);
    ForeignTail(c, m2, t);
    assert Reset(c, m2) == Reset(c, m);
  }
}
