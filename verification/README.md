# Modbus RTU responder and initiator, modelled in Dafny

This project models the two engines of the `modbus_rtu_puk` C library. Each engine is fed one
octet at a time.

* The **slave** (responder) in `modbus_rtu_puk/src/modbus_rtu_slave.c`. It holds four register
  tables: output coils, input coils, input registers and holding registers. It decodes a request
  in five stages: slave id, function code, register address, "special data" payload and CRC. It
  checks the request, applies writes and sends a response or an exception frame. It also offers
  `get`/`set` access to the register bank, `clear`, `timeout` and `set_slave_id`.
* The **master** (initiator) in `src/modbus_rtu_master.c`. It encodes the eight request kinds. Six
  of them are eight-octet "simple" frames. The other two are the force-multiple-coils and
  preset-multiple-registers frames, whose payload has a variable length. The master then decodes
  the reply octet by octet. It classifies a reply as no error, exception (`ERROR_DATA`), unknown
  command or CRC error, and unpacks its data into 16-bit slots for the packet handler.

Both engines are modelled as pure step functions: `Receive(config, state, octet) -> (state', events)`.
`Run` folds a step function over a sequence of octets. The C callbacks are not called. Instead,
each call becomes an event: the slave's response sender is `Respond(frame)`, and the internal error
handler is `InternalError`. The master's events are `Transmit(frame)`, `Deliver(packet)` and
`InternalError`. Whether a callback is registered is a boolean in the state.

The compile-time sizes from `modbus_settings.h` and `modbus_rtu_base.h` are fields of a `Config`.
These include the register counts, the special-data size and the message sizes. `Config.Valid()`
states the size relations the models assume. On the slave side these keep the special-data area
and the response buffer large enough for every accepted request (`SlaveProperties.RunFits`), and
they keep the tables to at most 127 entries. On the master side they keep every request frame
inside the message buffer. Three places where the master still writes past an array are reported as events.
CRC-16/MODBUS is
computed over `bv16`: reflected polynomial 0xA001, initial value 0xFFFF, low octet sent first.
`Crc.ReadHoldingExampleChecksum` checks this against the worked example
`01 03 00 00 00 01 -> 84 0A` of the MODBUS over Serial Line guide, V1.02.

Modules follow the program's structure:

* `Bytes`: octets, words, big-endian packing and bit packing.
* `Crc`: the checksum and sealing.
* `Protocol`: function codes, exception codes and the exception frame.
* `Registers`: the register bank.
* `Slave` and `SlaveProperties`: the responder and what is proved about it.
* `Master` and `MasterProperties`: the initiator and what is proved about it.
* `Exchange`: a master request decoded by the slave, and the slave's answer decoded by the master.
* `Scenarios`: the concrete exchanges of `test/test.c`, stated as lemmas.

### Behaviour modelled as the code has it

Several behaviours differ from the MODBUS application protocol. In each case the model follows
the C code.

* **Foreign slave id.** A request for another slave id is dropped as soon as the id octet
  arrives. The decoder stays at the id stage and does not follow the foreign frame to its end
  (slave.c:440-449).
* **CRC mismatch.** A request that passes every check but carries a wrong CRC is answered with
  nothing (slave.c:211-213, 556-558). A request that fails a check gets its exception frame
  whatever its CRC.
* **Coil read layout.**
  * Coil `addr + k` lands in bit `(addr + k) % 8` of octet `k / 8` (slave.c:362). The standard
    uses bit `k % 8`.
  * The byte-count octet of a coil read equals the number of coils, not the number of octets
    (slave.c:390-393). The frame therefore carries `count` data octets, and the octets past the
    packed bits are zero.
* **Single-write echo.** The echo of a single write has a zero address field. The address is
  written and then wiped by the `memset` (slave.c:402-405). A forced coil is echoed as 0 or 1,
  not as 0xFF00.
* **Multiple-coil write.** Only the first payload octet is used (slave.c:311-314). Coil addr+i
  takes bit i of that octet for i < 8. For 8 <= i < 32 the promoted shift yields 0, so coils
  8-31 of the write are cleared. From i = 32 on, the C shift is undefined behaviour; the model
  clears those coils too.
* **Multiple-register count.** The count of a multiple-register write is clamped as the code
  does (slave.c:305-306). `Slave.Config.Valid` excludes writable tables of size 1 or 2, where
  that subtraction would wrap around.
* **`get`/`set` out of range.** An out-of-range `get`/`set` sends an exception frame whose id
  field is 0. `data_resp` is always cleared outside request processing.
* **Master reply checks.** The master never compares the reply's function code with the
  request's. It does check the slave id.
* **Master exception replies.**
  * The exception bit is toggled off before classification (master.c:305-308).
  * For an exception to a write, the exception code ends up in the high octet of slot 0.
* **Out-of-bounds writes.** The master has three places where the code writes past an array.
  The model reports each as an event and otherwise carries on as the code does.
  * The response buffer check at master.c:87 uses `>` where `>=` is needed. When exactly
    `messageSize` octets are already buffered, the model emits `ResponseOverrun`.
  * The size check of preset-multiple-registers (master.c:218) misses the three meta octets.
    When `2n <= specialSize < 3 + 2n`, the model emits `RequestOverrun`.
  * The size check of force-multiple-coils (master.c:160) compares the coil count, not the octet
    count. Copying the meta octets and packed coils then overruns `special_data` exactly when
    `n <= specialSize <= 3`. The model emits `RequestOverrun` in that case.

## Model

| member | source | states |
|---|---|---|
| Bytes.WordOfHalves | modbus_rtu_puk/src/modbus_rtu_slave.c:626-631 | joining the high and low octet of a 16-bit value gives the value back |
| Bytes.BigEndian | src/modbus_rtu_master.c:233-238 | the encoding of n registers has 2n octets, register i at octets 2i (high) and 2i+1 (low) |
| Bytes.WordsOfBigEndian | src/modbus_rtu_master.c:364-369 | decoding octet pairs high-first inverts the big-endian encoding of any register list |
| Bytes.BitOfPackBits | src/modbus_rtu_master.c:175-180 | bit p of the packed number is set exactly when p is inside the list and flag p is true |
| Bytes.PackByte | src/modbus_rtu_master.c:175-180 | for at most 8 flags, bit p of the packed octet is set iff p < length and flag p is set; higher bits are clear |
| Bytes.Put | modbus_rtu_puk/src/modbus_rtu_slave.c:502 | storing one octet changes exactly that index of the buffer and keeps its length |
| Bytes.ShiftIn | src/modbus_rtu_master.c:404-407 | shifting an octet into a 16-bit address whose high octet is empty yields the big-endian word |
| Crc.Seal | modbus_rtu_puk/src/modbus_rtu_slave.c:275-277 | sealing appends exactly two octets and keeps the body unchanged |
| Crc.TrailerWord | modbus_rtu_puk/src/modbus_rtu_slave.c:539-540 | the two CRC octets, low first, reassemble to the CRC of the body |
| Crc.SealIntact | modbus_rtu_puk/src/modbus_rtu_slave.c:552-556 | every sealed frame passes the receiver's CRC comparison |
| Crc.ReadHoldingExampleChecksum | modbus_rtu_puk/src/modbus_rtu_slave.c:275-277 | the CRC of read-holding request 01 03 00 00 00 01 is transmitted as 84 0A |
| Protocol.WithExceptionBit | modbus_rtu_puk/src/modbus_rtu_slave.c:254 | the exception function code has the 0x80 bit set and keeps the low seven bits |
| Protocol.ToggleExceptionBit | src/modbus_rtu_master.c:305-308 | toggling flips the 0x80 bit and keeps the low seven bits |
| Protocol.ToggleInvolution | src/modbus_rtu_master.c:305-313 | toggling twice gives the function code back |
| Protocol.ExceptionFrame | modbus_rtu_puk/src/modbus_rtu_slave.c:251-280 | an exception frame is id, function with 0x80, code, and an intact CRC: five octets |
| Registers.StoreThenValue | modbus_rtu_puk/src/modbus_rtu_slave.c:160-179 | after a store, the stored cell reads back the value (a coil as 0/1 from value > 0) and every other cell is unchanged |
| Slave.Initial | modbus_rtu_puk/src/modbus_rtu_slave.c:61-74 | the initial responder is well formed and waits for an id with an empty request |
| Slave.SetSlaveId | modbus_rtu_puk/src/modbus_rtu_slave.c:109-113 | the new id is in force, the decoder is cleared, registers are kept |
| Slave.Timeout | modbus_rtu_puk/src/modbus_rtu_slave.c:115-118 | a timeout clears the decoder and keeps id and registers |
| Slave.GetRegister | modbus_rtu_puk/src/modbus_rtu_slave.c:120-149 | in range: the cell's value and no side effect; out of range: 0, an illegal-address exception, the decoder cleared, registers kept |
| Slave.SetRegister | modbus_rtu_puk/src/modbus_rtu_slave.c:151-180 | in range: only that cell changes (coils store value > 0); out of range: illegal-address exception, decoder cleared, registers kept |
| Slave.AcceptedBounds | modbus_rtu_puk/src/modbus_rtu_slave.c:610-624 | an accepted request has a known function, a nonzero quantity, and addr + quantity within the table |
| Slave.Process | modbus_rtu_puk/src/modbus_rtu_slave.c:182-249 | foreign id: nothing; no sender: internal error; a failed check: its exception frame; accepted with a bad CRC: nothing; otherwise the write is applied and the sealed response sent; always ends cleared |
| Slave.Receive | modbus_rtu_puk/src/modbus_rtu_slave.c:92-107 | one octet keeps the state well formed and never changes id or registered handlers |
| Slave.Run | modbus_rtu_puk/src/modbus_rtu_slave.c:92-107 | any octet stream keeps the state well formed and keeps id and handlers |
| SlaveProperties.SetThenGet | modbus_rtu_puk/src/modbus_rtu_slave.c:120-180 | a get after an in-range set returns the stored value at that cell and the old value elsewhere |
| SlaveProperties.OutOfRangeAccess | modbus_rtu_puk/src/modbus_rtu_slave.c:122-158 | out-of-range get and set each send exactly the id-0 illegal-address exception frame and leave registers alone |
| SlaveProperties.ClearedInv | modbus_rtu_puk/src/modbus_rtu_slave.c:328-339 | a cleared decoder satisfies the decoder invariant |
| SlaveProperties.ReceivePreservesInv | modbus_rtu_puk/src/modbus_rtu_slave.c:92-107 | every octet preserves the decoder invariant (stage, counters, buffer bounds) |
| SlaveProperties.InvAfterHeader | modbus_rtu_puk/src/modbus_rtu_slave.c:440-464 | the id and function stages preserve the invariant |
| SlaveProperties.InvAfterAddress | modbus_rtu_puk/src/modbus_rtu_slave.c:466-486 | the address stage preserves the invariant |
| SlaveProperties.InvAfterPayload | modbus_rtu_puk/src/modbus_rtu_slave.c:488-535 | the payload stage preserves the invariant |
| SlaveProperties.InvAfterCrc | modbus_rtu_puk/src/modbus_rtu_slave.c:537-566 | the CRC stage preserves the invariant |
| SlaveProperties.RunPreservesInv | modbus_rtu_puk/src/modbus_rtu_slave.c:92-107 | any octet stream preserves the invariant |
| SlaveProperties.ForeignIdIgnored | modbus_rtu_puk/src/modbus_rtu_slave.c:440-449 | an id octet for another slave emits nothing, keeps waiting for an id and empties the raw buffer |
| SlaveProperties.FunctionStage | modbus_rtu_puk/src/modbus_rtu_slave.c:451-464 | an unavailable function is answered at once with an illegal-function exception; an available one moves to the address stage silently |
| SlaveProperties.AddressRejectedEarly | modbus_rtu_puk/src/modbus_rtu_slave.c:466-486 | on its second octet an address past the table is answered with an illegal-address exception and the decoder cleared |
| SlaveProperties.OnAddressRejects | modbus_rtu_puk/src/modbus_rtu_slave.c:479-485 | the address handler itself produces that exception once both octets are in |
| SlaveProperties.AddressAccepted | modbus_rtu_puk/src/modbus_rtu_slave.c:466-486 | an in-range address moves silently to the payload stage with the big-endian address |
| SlaveProperties.NoEarlyAnswerForShortPayload | modbus_rtu_puk/src/modbus_rtu_slave.c:509-530 | read and single-write payload octets never trigger an answer |
| SlaveProperties.ExcessQuantityAnsweredEarly | modbus_rtu_puk/src/modbus_rtu_slave.c:514-534 | a multiple write whose quantity fails the count check is answered with an illegal-value exception after the meta octets |
| SlaveProperties.ChecksumDecides | modbus_rtu_puk/src/modbus_rtu_slave.c:537-566 | for an accepted request the last CRC octet decides: intact frame applies the write and sends the sealed response, a bad CRC sends nothing and changes nothing |
| SlaveProperties.RejectedWhateverChecksum | modbus_rtu_puk/src/modbus_rtu_slave.c:196-213 | a request failing a check gets its exception frame whatever CRC it carries |
| SlaveProperties.ReadRegistersPayload | modbus_rtu_puk/src/modbus_rtu_slave.c:349-394 | a register read answers byte count 2n then the n requested registers big-endian, and those octets decode back to the table slice |
| SlaveProperties.ReadCoilsBit | modbus_rtu_puk/src/modbus_rtu_slave.c:357-369 | a coil read has byte count n and coil addr+k is bit (addr+k)%8 of data octet k/8 |
| SlaveProperties.CoilReadOctets | modbus_rtu_puk/src/modbus_rtu_slave.c:349-369 | a coil read answers byte count n, then n octets, each packed from the coils that land in it |
| SlaveProperties.CoilOctetBit | modbus_rtu_puk/src/modbus_rtu_slave.c:362 | in the OR-accumulated octet, the bit a coil lands on is set exactly when that coil is on |
| SlaveProperties.ReadCoilsPadding | modbus_rtu_puk/src/modbus_rtu_slave.c:356-362 | data octets past the packed coils are zero |
| SlaveProperties.SingleWrite | modbus_rtu_puk/src/modbus_rtu_slave.c:282-294 | a single write stores the value (a coil as 0/1) at the address, changes nothing else, and is echoed as 00 00 value-high value-low (built at lines 396-420) |
| SlaveProperties.MultipleRegistersWrite | modbus_rtu_puk/src/modbus_rtu_slave.c:296-326 | the first Clamp(n) payload registers land at addr.. and every other holding register and table is unchanged |
| SlaveProperties.RegistersWriteShape | modbus_rtu_puk/src/modbus_rtu_slave.c:298-307 | the clamped count stays within the request and the table, and only the holding table changes |
| SlaveProperties.WrittenRegisters | modbus_rtu_puk/src/modbus_rtu_slave.c:317-324 | the write loop puts payload register i at addr+i and leaves cells outside the window unchanged |
| SlaveProperties.WrittenRegister | modbus_rtu_puk/src/modbus_rtu_slave.c:319-323 | one cell of that window holds the payload register |
| SlaveProperties.RegisterFromEncoding | modbus_rtu_puk/src/modbus_rtu_slave.c:320-321 | payload octets 3+2i and 4+2i join to register i |
| SlaveProperties.MultipleCoilsWrite | modbus_rtu_puk/src/modbus_rtu_slave.c:309-316 | coil addr+i takes bit i of the first payload octet for i < 8, later coils in the window are cleared (the C agrees up to i = 31), all else unchanged |
| SlaveProperties.RunQuiet | modbus_rtu_puk/src/modbus_rtu_slave.c:92-107 | a silent first octet lets the rest of the stream run from the next state |
| SlaveProperties.RunLast | modbus_rtu_puk/src/modbus_rtu_slave.c:92-107 | running one octet is one receive step |
| SlaveProperties.ProcessSeesOnlyRequest | modbus_rtu_puk/src/modbus_rtu_slave.c:182-249 | processing depends on the decoded request, not on stage, counters or raw buffer |
| SlaveProperties.StepId | modbus_rtu_puk/src/modbus_rtu_slave.c:440-449 | the own id moves to the function stage and is buffered |
| SlaveProperties.StepFunction | modbus_rtu_puk/src/modbus_rtu_slave.c:451-464 | an available function is recorded and moves to the address stage |
| SlaveProperties.StepAddressHigh | modbus_rtu_puk/src/modbus_rtu_slave.c:466-473 | the first address octet is shifted in and the stage is kept |
| SlaveProperties.StepAddressLow | modbus_rtu_puk/src/modbus_rtu_slave.c:466-486 | the second address octet completes the big-endian address and moves to the payload stage |
| SlaveProperties.StepShortPayload | modbus_rtu_puk/src/modbus_rtu_slave.c:488-530 | the two payload octets of a read or single write are stored (unless the range check skips them) and lead to the CRC stage |
| SlaveProperties.StepCrcLow | modbus_rtu_puk/src/modbus_rtu_slave.c:537-544 | the first CRC octet is shifted into the high half and nothing is sent |
| SlaveProperties.StepCrcHigh | modbus_rtu_puk/src/modbus_rtu_slave.c:537-560 | the second CRC octet runs request processing with the mismatch flag computed over the frame body |
| SlaveProperties.FrameHead | modbus_rtu_puk/src/modbus_rtu_slave.c:440-464 | own id then available function take the decoder to the address stage |
| SlaveProperties.FrameAddress | modbus_rtu_puk/src/modbus_rtu_slave.c:466-486 | two in-range address octets take the decoder to the payload stage |
| SlaveProperties.AddressOctets | modbus_rtu_puk/src/modbus_rtu_slave.c:466-486 | the two address octets are accepted silently, one at a time |
| SlaveProperties.FramePayload | modbus_rtu_puk/src/modbus_rtu_slave.c:488-530 | two payload octets take a read or single write to the CRC stage |
| SlaveProperties.FrameCrc | modbus_rtu_puk/src/modbus_rtu_slave.c:537-544 | the first CRC octet is absorbed before the final step |
| SlaveProperties.IdealOutcome | modbus_rtu_puk/src/modbus_rtu_slave.c:488-502 | the request the decoder assembles processes exactly like the request the frame denotes |
| SlaveProperties.FrameFront | modbus_rtu_puk/src/modbus_rtu_slave.c:440-486 | the first four octets of an eight-octet frame reach the payload stage |
| SlaveProperties.FrameBack | modbus_rtu_puk/src/modbus_rtu_slave.c:488-544 | the next three octets reach the last CRC octet |
| SlaveProperties.FrameReachesProcess | modbus_rtu_puk/src/modbus_rtu_slave.c:537-560 | an eight-octet frame is processed with the mismatch flag comparing carried and computed CRC |
| SlaveProperties.LastCrcOctet | modbus_rtu_puk/src/modbus_rtu_slave.c:546-560 | the last CRC octet hands the held request to processing |
| SlaveProperties.ResponseDataFits | modbus_rtu_puk/src/modbus_rtu_slave.c:265-277 | id, function, the payload of any accepted request and the CRC fit MODBUS_SLAVE_RESPONSE_MESSAGE_SIZE |
| SlaveProperties.ProcessFits | modbus_rtu_puk/src/modbus_rtu_slave.c:182-280 | every frame request processing sends fits the response buffer |
| SlaveProperties.OnFunctionFits | modbus_rtu_puk/src/modbus_rtu_slave.c:451-464 | frames sent from the function stage fit the response buffer |
| SlaveProperties.OnAddressFits | modbus_rtu_puk/src/modbus_rtu_slave.c:466-486 | frames sent from the address stage fit the response buffer |
| SlaveProperties.OnPayloadFits | modbus_rtu_puk/src/modbus_rtu_slave.c:488-534 | frames sent from the payload stage fit the response buffer |
| SlaveProperties.OnCrcFits | modbus_rtu_puk/src/modbus_rtu_slave.c:537-566 | frames sent from the CRC stage fit the response buffer |
| SlaveProperties.ReceiveFits | modbus_rtu_puk/src/modbus_rtu_slave.c:92-107 | whatever octet arrives, the frames sent fit the response buffer |
| SlaveProperties.RunFits | modbus_rtu_puk/src/modbus_rtu_slave.c:92-107 | over any octet stream, every frame sent fits the response buffer |
| SlaveProperties.SimpleFrameDecoded | modbus_rtu_puk/src/modbus_rtu_slave.c:92-107 | an intact eight-octet read or single-write frame for this slave is processed as the request it encodes, with no CRC mismatch |
| Master.Reset | src/modbus_rtu_master.c:339-348 | a reset master is well formed, waits for an id with an empty reply, and keeps its handlers |
| Master.Initial | src/modbus_rtu_master.c:47-58 | the initial master is reset and has the given handlers |
| Master.Timeout | src/modbus_rtu_master.c:104-108 | a timeout reports an internal error (if a handler is set) and resets the decoder |
| Master.SimpleFrame | src/modbus_rtu_master.c:253-279 | an eight-octet frame: id, function, address and value big-endian, then the CRC |
| Master.PackCoils | src/modbus_rtu_master.c:171-183 | n coils pack into ceil(n/8) octets |
| Master.PackedCoil | src/modbus_rtu_master.c:175-180 | coil i is bit i%8 of octet i/8 |
| Master.PackedPaddingClear | src/modbus_rtu_master.c:175-180 | bits past the last coil are clear |
| Master.CoilsFrame | src/modbus_rtu_master.c:147-188 | id, 0x0F, address, count, octet count, packed coils, CRC |
| Master.RegistersFrame | src/modbus_rtu_master.c:205-243 | id, 0x10, address, count, 2n, registers big-endian, CRC |
| Master.OnFunction | src/modbus_rtu_master.c:383-394 | reads go to the length stage, writes to the address stage, anything else to the exception stage |
| Master.OnAddress | src/modbus_rtu_master.c:404-415 | the address stage keeps the state well formed; an address past the register count resets it |
| Master.OnPayload | src/modbus_rtu_master.c:417-443 | the payload stage keeps the state well formed and can only report internal errors |
| Master.Unpack | src/modbus_rtu_master.c:357-369 | the delivered packet always has the full number of slots |
| Master.Classify | src/modbus_rtu_master.c:299-318 | the packet carries the reply's id and function and never the register-address status; ERROR_COMMAND exactly when neither the code nor its exception-toggled form is enabled; ERROR_CRC exactly when one of them is enabled and the CRC check fails; both error statuses carry empty slots |
| Master.OnCrc | src/modbus_rtu_master.c:452-471 | the CRC stage keeps the state well formed and only delivers packets or reports internal errors |
| Master.Dispatch | src/modbus_rtu_master.c:92-101 | each stage handler keeps handlers and state well formed |
| Master.Receive | src/modbus_rtu_master.c:85-102 | buffer overflow reports an internal error first; the one-past-the-end write happens iff exactly messageSize octets were buffered |
| Master.Run | src/modbus_rtu_master.c:85-102 | any octet stream keeps the state well formed and the handlers |
| MasterProperties.CoilsRoundTrip | src/modbus_rtu_master.c:175-180 | unpacking the packed coils gives the coils back |
| MasterProperties.SimpleFrameFields | src/modbus_rtu_master.c:264-269 | address and value decode back from the frame |
| MasterProperties.SimpleFrameIntact | src/modbus_rtu_master.c:270-274 | every simple frame carries a correct CRC |
| MasterProperties.CoilsFrameIntact | src/modbus_rtu_master.c:185-188 | every coils frame carries a correct CRC |
| MasterProperties.RegistersFrameIntact | src/modbus_rtu_master.c:240-243 | every registers frame carries a correct CRC |
| MasterProperties.CoilsFrameFields | src/modbus_rtu_master.c:156-183 | address, count and the coils decode back from the frame |
| MasterProperties.RegistersFrameFields | src/modbus_rtu_master.c:214-238 | address, count and the registers decode back from the frame |
| MasterProperties.RegisterOverrunWindow | src/modbus_rtu_master.c:218-235 | the registers encoder writes past special_data iff 2n fits but 3+2n does not |
| MasterProperties.CoilOverrunWindow | src/modbus_rtu_master.c:160-180 | the coils encoder writes past special_data iff n <= specialSize <= 3 |
| MasterProperties.SimpleRequestSent | src/modbus_rtu_master.c:253-284 | a simple request records id, function and address; with a sender exactly one intact 8-octet frame leaves, whose id, function, address and value read back as given; without one, no frame leaves and only the internal error is reported |
| MasterProperties.CoilsFrameMeaning | src/modbus_rtu_master.c:147-188 | the coils frame is intact and its address, quantity, octet count and unpacked coils read back as the request |
| MasterProperties.RegistersFrameMeaning | src/modbus_rtu_master.c:205-243 | the registers frame is intact and its address, quantity, octet count and decoded words read back as the request |
| MasterProperties.CoilsRequestRefused | src/modbus_rtu_master.c:142-163 | a zero quantity or NULL array leaves the master unchanged, and neither it nor a quantity past special_data sends a frame: only internal errors |
| MasterProperties.CoilsRequestSent | src/modbus_rtu_master.c:140-196 | an accepted coil request with a sender sends one frame carrying the first n coils, preceded by one overrun exactly when special_data holds no more than 3 octets |
| MasterProperties.RegistersRequestRefused | src/modbus_rtu_master.c:200-221 | a zero quantity or NULL array leaves the master unchanged, and neither it nor 2n past special_data sends a frame: only internal errors |
| MasterProperties.RegistersRequestSent | src/modbus_rtu_master.c:198-251 | an accepted register request with a sender sends one frame carrying the first n values, preceded by one overrun exactly when 3+2n octets do not fit special_data |
| MasterProperties.OverrunThenFrame | src/modbus_rtu_master.c:160-196 | the events of an accepted multi-value request are the frame, after at most one overrun |
| MasterProperties.CoilsAfterMeta | src/modbus_rtu_master.c:160-180 | n <= specialSize coils overrun the meta octets exactly when specialSize <= 3 |
| MasterProperties.SendKeepsIdle | src/modbus_rtu_master.c:253-262 | sending a request keeps an idle decoder idle and records the id |
| MasterProperties.ReceiveInRange | src/modbus_rtu_master.c:85-98 | below the buffer limit an octet is buffered, counted and handed to the stage handler |
| MasterProperties.StepId | src/modbus_rtu_master.c:376-381 | the id octet is recorded and the function stage follows |
| MasterProperties.StepFunction | src/modbus_rtu_master.c:383-394 | the function octet is recorded and selects the length, address or exception stage |
| MasterProperties.StepLength | src/modbus_rtu_master.c:396-402 | the length octet is recorded and the payload stage follows |
| MasterProperties.StepPayload | src/modbus_rtu_master.c:417-443 | a reply payload octet is stored at counter-1 |
| MasterProperties.StepLastPayload | src/modbus_rtu_master.c:438-442 | the last expected payload octet moves to the CRC stage |
| MasterProperties.StepCrcLow | src/modbus_rtu_master.c:452-458 | the first CRC octet is absorbed |
| MasterProperties.StepCrcHigh | src/modbus_rtu_master.c:452-471 | the second CRC octet processes the reply and resets |
| MasterProperties.StepAddressHigh | src/modbus_rtu_master.c:404-415 | the first address octet of a write reply is shifted in |
| MasterProperties.StepAddressLow | src/modbus_rtu_master.c:404-415 | the second completes the address and moves to the payload stage |
| MasterProperties.StepAddressRejected | src/modbus_rtu_master.c:412-414 | an address reaching the register count resets the decoder silently |
| MasterProperties.StepException | src/modbus_rtu_master.c:445-450 | the exception code is stored and the CRC stage follows |
| MasterProperties.RunAppend | src/modbus_rtu_master.c:85-102 | running a+b is running a then b, events concatenated |
| MasterProperties.RunThen | src/modbus_rtu_master.c:85-102 | the same, from a known intermediate result |
| MasterProperties.RunOne | src/modbus_rtu_master.c:85-102 | running one octet is one receive step |
| MasterProperties.PayloadPrefix | src/modbus_rtu_master.c:417-443 | the first k payload octets are stored in order, silently |
| MasterProperties.LastPayloadOctet | src/modbus_rtu_master.c:438-442 | the last payload octet completes the payload |
| MasterProperties.PayloadAll | src/modbus_rtu_master.c:417-443 | the whole payload is stored and the CRC stage reached |
| MasterProperties.CrcTail | src/modbus_rtu_master.c:452-471 | two CRC octets process the reply and reset |
| MasterProperties.ReadHead | src/modbus_rtu_master.c:376-402 | id, read function and length octets reach the payload stage |
| MasterProperties.IdAndFunction | src/modbus_rtu_master.c:376-394 | id and function octets select the next stage |
| MasterProperties.WriteHead | src/modbus_rtu_master.c:404-415 | a write reply's in-range address reaches the payload stage |
| MasterProperties.WriteHeadRejected | src/modbus_rtu_master.c:412-414 | an out-of-range address resets after its high or low octet |
| MasterProperties.ExceptionHead | src/modbus_rtu_master.c:445-450 | an exception reply's code octet reaches the CRC stage |
| MasterProperties.CrcOkIffIntact | src/modbus_rtu_master.c:518-520 | the master's CRC check succeeds exactly when the buffered frame is intact |
| MasterProperties.Complete | src/modbus_rtu_master.c:452-471 | a body followed by its two CRC octets is processed and resets |
| MasterProperties.ReadReply | src/modbus_rtu_master.c:396-471 | a read reply from the requested slave is processed with the decoded response |
| MasterProperties.ReadBody | src/modbus_rtu_master.c:396-443 | a read reply without its CRC leaves the decoder waiting for the CRC |
| MasterProperties.ReadReplyDelivered | src/modbus_rtu_master.c:287-337 | an intact read reply delivers NO_ERROR with the unpacked data; a corrupt one delivers ERROR_CRC with empty slots |
| MasterProperties.WriteReply | src/modbus_rtu_master.c:404-471 | a write reply is processed with the decoded response |
| MasterProperties.WriteBody | src/modbus_rtu_master.c:404-443 | a write reply without its CRC waits for the CRC |
| MasterProperties.WriteReplyDelivered | src/modbus_rtu_master.c:371-374 | an intact write reply delivers NO_ERROR with the echoed value in slot 0 and zeros elsewhere |
| MasterProperties.ExceptionReply | src/modbus_rtu_master.c:445-471 | an exception reply is processed with the stored code |
| MasterProperties.ExceptionReplyDelivered | src/modbus_rtu_master.c:305-313 | an exception reply delivers ERROR_DATA; for a write the code lands in slot 0's high octet |
| MasterProperties.UnknownCommandReply | src/modbus_rtu_master.c:305-313 | a 5-octet reply whose code is enabled neither as is nor with the exception bit toggled delivers ERROR_COMMAND with empty slots, whatever its CRC |
| MasterProperties.CorruptExceptionReply | src/modbus_rtu_master.c:305-318 | a corrupt exception reply to an enabled function delivers ERROR_CRC, not ERROR_DATA, with empty slots |
| MasterProperties.ReplyStatus | src/modbus_rtu_master.c:287-334 | a reply from the requested slave with a packet handler delivers one packet whose status is ERROR_COMMAND, ERROR_CRC, NO_ERROR or ERROR_DATA exactly as the enabled codes and the frame's own CRC say; the error statuses carry empty slots |
| MasterProperties.PayloadChecked | src/modbus_rtu_master.c:417-436 | a payload octet from the requested slave resets with an internal error when the expected length exceeds 2*MODBUS_REGISTER_SIZE or the counter is past the data array; otherwise it is stored at counter-1, silently, with the rest of the data unchanged |
| MasterProperties.ReadReplyTooLong | src/modbus_rtu_master.c:423-427 | a read reply announcing more than 2*MODBUS_REGISTER_SIZE octets is cut off at its first data octet with an internal error and a reset |
| MasterProperties.UnpackSlot | src/modbus_rtu_master.c:357-369 | slot i of the packet is the per-function slot value |
| MasterProperties.AnalogSlots | src/modbus_rtu_master.c:364-369 | register replies unpack to the registers, zeros after |
| MasterProperties.AnalogSlot | src/modbus_rtu_master.c:364-369 | slot i is register i |
| MasterProperties.DiscreteSlots | src/modbus_rtu_master.c:357-362 | coil replies copy octets to slots: coil i is bit i%8 of slot i/8, zeros after |
| MasterProperties.StepForeignPayload | src/modbus_rtu_master.c:417-421 | a foreign reply's payload octet is only counted |
| MasterProperties.StepForeignLastPayload | src/modbus_rtu_master.c:438-442 | the last foreign payload octet reaches the CRC stage |
| MasterProperties.StepForeignCrcHigh | src/modbus_rtu_master.c:460-464 | a foreign reply's last CRC octet resets without delivering |
| MasterProperties.ForeignPrefix | src/modbus_rtu_master.c:417-443 | foreign payload octets are counted, not stored |
| MasterProperties.ForeignLastOctet | src/modbus_rtu_master.c:438-442 | the last foreign payload octet reaches the CRC stage |
| MasterProperties.ForeignPayload | src/modbus_rtu_master.c:417-443 | a whole foreign payload is skipped |
| MasterProperties.ForeignTail | src/modbus_rtu_master.c:452-471 | a foreign reply's CRC resets silently |
| MasterProperties.ForeignBody | src/modbus_rtu_master.c:376-443 | a foreign read reply without its CRC waits for the CRC and stores nothing |
| MasterProperties.ForeignReadIgnored | src/modbus_rtu_master.c:460-464 | a read reply from another slave is dropped: reset, no events |
| Exchange.SimpleRequestDecoded | src/modbus_rtu_master.c:253-279 | the slave decodes a master simple frame as the request it encodes |
| Exchange.SealedAnswer | modbus_rtu_puk/src/modbus_rtu_slave.c:258-280 | the response frame is id, function, data, CRC |
| Exchange.RegisterReplyShape | modbus_rtu_puk/src/modbus_rtu_slave.c:349-394 | a register read reply is intact, with byte count 2n and the registers big-endian |
| Exchange.AnalogResponse | src/modbus_rtu_master.c:396-443 | the master's decoded response of such a reply holds the registers |
| Exchange.AnalogReplyDelivered | src/modbus_rtu_master.c:364-369 | the master delivers NO_ERROR with the registers in the first slots |
| Exchange.RegisterReplyDelivered | src/modbus_rtu_master.c:287-337 | the slave's register reply, fed to the master, delivers the registers |
| Exchange.SimpleReadAccepted | modbus_rtu_puk/src/modbus_rtu_slave.c:610-624 | a read of n > 0 registers inside the table passes every check |
| Exchange.SimpleReadRegisters | src/modbus_rtu_master.c:120-123 | the request carries id, function, address and count n |
| Exchange.SlaveAnswersRead | modbus_rtu_puk/src/modbus_rtu_slave.c:349-394 | a master read frame is answered by exactly one intact frame carrying the requested registers, registers unchanged |
| Exchange.AnswerShape | modbus_rtu_puk/src/modbus_rtu_slave.c:258-280 | the answer's octets are id, function, 2n, the registers, CRC |
| Exchange.ReadAnswered | modbus_rtu_puk/src/modbus_rtu_slave.c:537-566 | the frame run through the slave produces exactly that answer |
| Exchange.RegisterReadExchange | test/test.c:111-126 | a holding/input read sent by the master, answered by the slave and fed back delivers the slave's registers |
| Scenarios.HoldingReadScenario | test/test.c:117-123 | holding registers 0 = 6, 2 = 7, read 3 from 0: data 6, 00 06 00 00 00 07 |
| Scenarios.CoilReadScenario | test/test.c:60-66 | output coils 0 and 2 set, read 3 from 0: byte count 3, then 0x05, 0, 0 |
| Scenarios.SingleCoilScenario | test/test.c:132-135 | force coil 0 on: coil 0 set, echo 00 00 00 01 |
| Scenarios.SingleRegisterScenario | test/test.c:144-147 | preset register 0 to 0x0102: register holds 0x0102, echo 00 00 01 02 |
| Scenarios.MultipleCoilsScenario | test/test.c:158-168 | writing false, true, false, true packs to 0x0A and a read of 4 coils returns 4, 0x0A, 0, 0, 0 |
| Scenarios.RegistersFrameScenario | test/test.c:180-183 | the preset-multiple frame for 4, 5 carries 00 04 00 05 |
| Scenarios.MultipleRegistersScenario | test/test.c:179-189 | writing 4, 5 at 0 then reading 2 holding registers returns 4, 00 04 00 05 |

## Left out

- Callback registration (`modbus_slave_set_*_handler`, `modbus_master_set_*`): modelled as booleans in the state, because setting a function pointer has no other observable effect.
- The NULL `request_byte_handler` branch of the slave (modbus_rtu_puk/src/modbus_rtu_slave.c:99-102) is not modelled, because the handler is never NULL: every path sets it again.
- The internals of `modbus_crc16` and `modbus_rtu_base.h` are not part of this model. The checksum is the standard CRC-16/MODBUS, and the constants are the values the code relies on.
- Buffer sizes (`MODBUS_*_SIZE`, the register counts) are `Config` fields constrained by `Valid`, not fixed numbers.
- Slave.Config.Valid: excludes tables with more than 127 entries. The C accepts them (the example settings use 9999 holding registers), but then the byte count and `data_len` of a read are truncated to `uint8_t` (modbus_rtu_puk/src/modbus_rtu_slave.c:391-393). Also, the `uint8_t` loop counters at modbus_rtu_puk/src/modbus_rtu_slave.c:311 and 318 never reach a count of 128 or more, so the write would not terminate. The model does not follow the code into those cases.
- Slave.Config.Valid: requires `MODBUS_SLAVE_RESPONSE_MESSAGE_SIZE` of at least 5 + 2 * the largest table. The C does not check this before it copies a read payload into its response buffer (modbus_rtu_puk/src/modbus_rtu_slave.c:265-277). With a smaller buffer, that copy overruns it, and the model does not cover such settings.
- SlaveProperties.MultipleCoilsWrite: says the coils from offset 8 on are cleared. This matches the C only up to offset 31. From offset 32 on, `special_data[3] >> i` is undefined behaviour in C, and the model simply clears those coils as well.
- Timing (the inter-frame timeout) is not modelled. `Timeout` is an input the caller triggers.
- The test drivers' console output and byte wiring in test.c and test/test.c are not modelled. Their exchanges appear only as `Scenarios` lemmas about the slave-side data.
- Master.ForceMultipleCoils: does not keep the copy in `data_req.special_data` or the stored CRC, because nothing reads them later; only the overrun that copy can cause is reported.
- Master.PresetMultipleRegisters: does not keep the copy in `data_req.special_data` or the stored CRC, for the same reason.
- SlaveProperties.SimpleFrameDecoded: proves end-to-end decoding only for the eight-octet frames (reads and single writes). Multiple-write frames are covered stage by stage (`ExcessQuantityAnsweredEarly`, `ChecksumDecides`) and by `Process`, but not through `Run`.
- Exchange.RegisterReadExchange: covers register reads with a count of at least 1. A zero-count read is rejected by the slave (`AcceptedBounds`) and is not followed through the master.
- Master.ReadCoils, Master.ReadInputStatus, Master.ReadHoldingRegisters, Master.ReadInputRegisters, Master.ForceSingleCoil and Master.PresetSingleRegister are one-line wrappers around `SendSimple` with a fixed function code. `MasterProperties.SimpleRequestSent` carries their contract.
- Master.SendSimple, Master.ForceMultipleCoils, Master.PresetMultipleRegisters and Master.Process: their own contracts only list the events they produce. What the frames carry and which status a reply gets are stated by `SimpleRequestSent`, `CoilsRequestSent`, `CoilsRequestRefused`, `RegistersRequestSent`, `RegistersRequestRefused` and `ReplyStatus`.
- Registers.Bank.Store, Registers.Bank.Value, Slave.Apply, Slave.WriteCoils and Slave.WriteRegisters carry only size facts themselves. What they do is stated by `StoreThenValue`, `SingleWrite`, `MultipleRegistersWrite` and `MultipleCoilsWrite`.
