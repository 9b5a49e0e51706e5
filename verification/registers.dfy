/** The responder's register bank (modbus_rtu_slave.c:14-25): four
    fixed-capacity tables, two of coils and two of 16-bit registers. A
    capacity of 0 removes the table and every function code touching it. */
module Registers {
  import opened Bytes

  datatype RegisterType = OutputCoils | InputCoils | InputRegisters | HoldingRegisters
  {
    predicate IsCoil() { this == OutputCoils || this == InputCoils }
  }

  /** The four MODBUS_SLAVE_*_COUNT settings. */
  datatype Capacities = Capacities(outputCoils: nat, inputCoils: nat, inputRegisters: nat, holdingRegisters: nat)
  {
    function Of(t: RegisterType): nat
    {
      match t
      case OutputCoils => outputCoils
      case InputCoils => inputCoils
      case InputRegisters => inputRegisters
      case HoldingRegisters => holdingRegisters
    }
  }

  datatype Bank = Bank(outputCoils: seq<bool>, inputCoils: seq<bool>, inputRegisters: seq<u16>, holdingRegisters: seq<u16>)
  {
    function Size(t: RegisterType): nat
    {
      match t
      case OutputCoils => |outputCoils|
      case InputCoils => |inputCoils|
      case InputRegisters => |inputRegisters|
      case HoldingRegisters => |holdingRegisters|
    }

    /** Every table has exactly its configured capacity. */
    predicate Fits(caps: Capacities)
    {
      forall t :: Size(t) == caps.Of(t)
    }

    /** Entry i as a 16-bit value; a coil reads as 0 or 1. */
    function Value(t: RegisterType, i: nat): (r: u16)
      requires i < Size(t)
      ensures t.IsCoil() ==> r <= 1
    {
      match t
      case OutputCoils => if outputCoils[i] then 1 else 0
      case InputCoils => if inputCoils[i] then 1 else 0
      case InputRegisters => inputRegisters[i]
      case HoldingRegisters => holdingRegisters[i]
    }

    /** Entry i overwritten; a coil becomes set iff the value is non-zero. */
    function Store(t: RegisterType, i: nat, v: u16): (r: Bank)
      requires i < Size(t)
      ensures forall u :: r.Size(u) == Size(u)
    {
      match t
      case OutputCoils => this.(outputCoils := outputCoils[i := v > 0])
      case InputCoils => this.(inputCoils := inputCoils[i := v > 0])
      case InputRegisters => this.(inputRegisters := inputRegisters[i := v])
      case HoldingRegisters => this.(holdingRegisters := holdingRegisters[i := v])
    }
  }

  /** The zero-initialised tables of a freshly started device. */
  function Empty(caps: Capacities): (r: Bank)
    ensures r.Fits(caps)
    ensures forall t, i :: 0 <= i < caps.Of(t) ==> r.Value(t, i) == 0
  {
    Bank(seq(caps.outputCoils, _ => false), seq(caps.inputCoils, _ => false),
         seq(caps.inputRegisters, _ => 0), seq(caps.holdingRegisters, _ => 0))
  }

  /** A store is read back as stored (coils as 0/1), and touches nothing else. */
  lemma StoreThenValue(b: Bank, t: RegisterType, i: nat, v: u16, u: RegisterType, j: nat)
    requires i < b.Size(t) && j < b.Size(u)
    ensures b.Store(t, i, v).Value(u, j) ==
              if u == t && j == i then (if t.IsCoil() then (if v > 0 then 1 else 0) else v)
              else b.Value(u, j)
  {}
}
