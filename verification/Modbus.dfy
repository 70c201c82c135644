/**
 Register types, data types and addresses of Modbus variables, and the requests
 a reading is made of (MODBUS Application Protocol V1.1b, sections 6.1 and 6.3).
 */
module Modbus {
  datatype RegisterType = DiscreteInput | Coil | InputRegister | HoldingRegister | UnknownRegister

  datatype Datatype = BOOL | USINT | UINT | ULINT | INT | DINT | REAL | UNKNOWN

  const MAX_READ_REGISTERS: nat := 125
  const MAX_READ_BITS: nat := 2000
  const INT_MAX: int := 0x7FFF_FFFF

  /** The value of the enumerator. */
  function Rank(kind: RegisterType): nat
  {
    match kind
    case DiscreteInput => 0
    case Coil => 1
    case InputRegister => 2
    case HoldingRegister => 3
    case UnknownRegister => 4
  }

  /** `modbus_read_max_count`. */
  function MaxCount(kind: RegisterType): nat
  {
    match kind
    case InputRegister => MAX_READ_REGISTERS
    case HoldingRegister => MAX_READ_REGISTERS
    case DiscreteInput => MAX_READ_BITS
    case Coil => MAX_READ_BITS
    case UnknownRegister => 0
  }

  predicate IsBits(kind: RegisterType)
  {
    kind == DiscreteInput || kind == Coil
  }

  /** `modbus_datatype_point_width`. */
  function PointWidth(kind: RegisterType, plc: Datatype): nat
  {
    if IsBits(kind) then 1
    else
      match plc
      case REAL => 2
      case DINT => 2
      case ULINT => 4
      case _ => 1
  }

  /** The first six-digit reference of a register type, counted from one. */
  function LongBase(kind: RegisterType): int
  {
    match kind
    case Coil => 200001
    case DiscreteInput => 100001
    case InputRegister => 300001
    case HoldingRegister => 400001
    case UnknownRegister => 0
  }

  /** The first five-digit reference of a register type. */
  function ShortBase(kind: RegisterType): int
  {
    match kind
    case Coil => 20001
    case DiscreteInput => 10001
    case InputRegister => 30001
    case HoldingRegister => 40001
    case UnknownRegister => 0
  }

  /** `modbus_reference_to_pdu_addr`: six-digit, five-digit or plain references, all counted from one. */
  function PduAddr(kind: RegisterType, reference: int): int
  {
    if kind == UnknownRegister then -1
    else if reference >= LongBase(kind) then reference - LongBase(kind)
    else if reference >= ShortBase(kind) then reference - ShortBase(kind)
    else reference - 1
  }

  /**
   The references that mean address `k`, with the digits of their register type in
   front in the long and the short notation, and all of them counted from one.
   */
  ghost predicate Denotes(kind: RegisterType, reference: int, k: nat)
  {
    match kind
    case Coil => Notated(reference, 200001, 20001, k)
    case DiscreteInput => Notated(reference, 100001, 10001, k)
    case InputRegister => Notated(reference, 300001, 30001, k)
    case HoldingRegister => Notated(reference, 400001, 40001, k)
    case UnknownRegister => false
  }

  /** A notation is the shortest that leaves a number for the address; where one begins the shorter ends. */
  ghost predicate Notated(reference: int, long: int, short: int, k: nat)
  {
    || reference == long + k
    || (reference == short + k && reference < long)
    || (reference == 1 + k && reference < short)
  }

  /** A reference has the address it denotes, and a negative one exactly when it denotes none. */
  lemma PduAddrMeans(kind: RegisterType, reference: int)
    ensures forall k: nat :: PduAddr(kind, reference) == k <==> Denotes(kind, reference, k)
    ensures PduAddr(kind, reference) < 0 <==> kind == UnknownRegister || reference < 1
  {
  }

  /** No sum over an address exceeds `int`. */
  lemma PduAddrFits(kind: RegisterType, reference: int, plc: Datatype)
    requires kind != UnknownRegister && reference <= INT_MAX
    ensures PduAddr(kind, reference) + PointWidth(kind, plc) - 1 <= INT_MAX
  {
  }

  /** What has to be read for one variable. */
  datatype Range = Range(kind: RegisterType, start: int, end: int)

  /** One read request. */
  datatype Block = Block(kind: RegisterType, start: int, count: int)

  /** The request delivers the whole range. */
  predicate Holds(b: Block, r: Range)
  {
    b.kind == r.kind && b.start <= r.start && r.end < b.start + b.count
  }

  /** What the planner looks at in a variable; `hasValue` tells that memory for its value exists. */
  datatype Point = Point(kind: RegisterType, reference: int, plc: Datatype, hasValue: bool)

  function AddressOf(p: Point): int
  {
    PduAddr(p.kind, p.reference)
  }

  /** The variable is read by the plan. */
  predicate Planned(p: Point)
  {
    MaxCount(p.kind) > 0 && p.hasValue && AddressOf(p) >= 0
  }

  function RangeOf(p: Point): Range
  {
    Range(p.kind, AddressOf(p), AddressOf(p) + PointWidth(p.kind, p.plc) - 1)
  }

  // --- What a request delivers ----------------------------------------------------------

  /** The variable has memory for its value, and a reference that means an address. */
  ghost predicate Wanted(p: Point)
  {
    p.hasValue && exists k: nat :: Denotes(p.kind, p.reference, k)
  }

  /** The bits or registers of a value. */
  ghost function Span(p: Point): nat
  {
    if p.kind == Coil || p.kind == DiscreteInput then 1
    else if p.plc == REAL || p.plc == DINT then 2
    else if p.plc == ULINT then 4
    else 1
  }

  /** The request is one for the type of the variable and holds all of its bits or registers. */
  ghost predicate Reads(b: Block, p: Point)
  {
    exists k: nat :: Denotes(p.kind, p.reference, k) && b.kind == p.kind && b.start <= k && k + Span(p) <= b.start + b.count
  }

  /** What the planner calls planned is wanted, and what it calls held is read. */
  lemma PlannedMeans(p: Point, b: Block)
    ensures Planned(p) <==> Wanted(p)
    ensures Planned(p) ==> (Holds(b, RangeOf(p)) <==> Reads(b, p))
  {
    PduAddrMeans(p.kind, p.reference);
    hide PduAddr, Denotes;
    if AddressOf(p) >= 0 {
      var k: nat := AddressOf(p);
      assert Denotes(p.kind, p.reference, k);
    }
  }

  /** The request is within the limit of the protocol: 2000 bits, or 125 registers. */
  predicate WithinLimit(b: Block)
  {
    match b.kind
    case DiscreteInput => b.count <= 2000
    case Coil => b.count <= 2000
    case InputRegister => b.count <= 125
    case HoldingRegister => b.count <= 125
    case UnknownRegister => b.count <= 0
  }

  /** The order in which the types are read. */
  predicate ReadsBefore(a: RegisterType, b: RegisterType)
  {
    || (a == DiscreteInput && b != DiscreteInput)
    || (a == Coil && b != DiscreteInput && b != Coil)
    || (a == InputRegister && (b == HoldingRegister || b == UnknownRegister))
    || (a == HoldingRegister && b == UnknownRegister)
  }
}
