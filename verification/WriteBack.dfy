/**
 Writing a variable from an OPC UA client: the device first, then the cached
 value. What was written is what the next poll finds.
 */
module WriteBack {
  import opened Modbus
  import opened Poll

  /** The value a client writes, by its OPC UA type; a float by its 32 bits. */
  datatype Variant =
    | Boolean(b: bool)
    | Byte(n: nat)
    | UInt16(n: nat)
    | UInt64(n: nat)
    | Int16(bits: nat)
    | Int32(bits: nat)
    | Float(bits: nat)
    | Other

  datatype Status = Good | BadInternalError | BadNodeIdUnknown

  predicate WellFormed(v: Variant)
  {
    match v
    case Byte(n) => n < 0x100
    case UInt16(n) => n < 0x1_0000
    case UInt64(n) => n < 0x1_0000_0000_0000_0000
    case Int16(bits) => bits < 0x1_0000
    case Int32(bits) => bits < 0x1_0000_0000
    case Float(bits) => bits < 0x1_0000_0000
    case _ => true
  }

  /** The number in the bytes of a value. */
  function Bits(v: Variant): nat
  {
    match v
    case Boolean(b) => if b then 1 else 0
    case Byte(n) => n
    case UInt16(n) => n
    case UInt64(n) => n
    case Int16(bits) => bits
    case Int32(bits) => bits
    case Float(bits) => bits
    case Other => 0
  }

  /** The combinations of register type, data type and type of the value that are written to the device. */
  predicate Writable(p: Point, v: Variant)
  {
    || (p.kind == Coil && p.plc == BOOL && v.Boolean?)
    || (p.kind == HoldingRegister
        && match p.plc
           case BOOL => v.Boolean?
           case USINT => v.Byte?
           case UINT => v.UInt16?
           case REAL => v.Float?
           case _ => false)
  }

  function With(memory: Memory, kind: RegisterType, address: int, w: Word): Memory
  {
    (k, a) => if k == kind && a == address then w else memory(k, a)
  }

  /** The device, which answers a write or does not; only writes it answers change what it holds. */
  class Device {
    var memory: Memory

    constructor (memory: Memory)
      ensures this.memory == memory
    {
      this.memory := memory;
    }

    /** `modbus_client_write_single_register` and `modbus_client_write_single_coil`. */
    method WriteSingle(kind: RegisterType, address: int, w: Word, answers: bool) returns (ok: bool)
      modifies this
      ensures ok == answers
      ensures memory == if ok then With(old(memory), kind, address, w) else old(memory)
    {
      ok := answers;
      if ok {
        memory := With(memory, kind, address, w);
      }
    }
  }

  /**
   What the device holds once the value has been written: 1 or 0, the number, or the
   two words of a float, the low one first; and whatever it held elsewhere.
   */
  ghost predicate Wrote(p: Point, v: Variant, before: Memory, after: Memory)
  {
    var a := AddressOf(p);
    && (match v
        case Boolean(b) => after(p.kind, a) == if b then 1 else 0
        case Byte(n) => after(p.kind, a) == n
        case UInt16(n) => after(p.kind, a) == n
        case Float(bits) => after(p.kind, a) + 0x1_0000 * after(p.kind, a + 1) == bits
        case _ => false)
    && (forall kind, x :: (kind != p.kind || (x != a && (v.Float? ==> x != a + 1))) ==> after(kind, x) == before(kind, x))
  }

  /** A poll of what has been written finds it, and finds the cached value that goes with it again. */
  lemma PollAfterWrite(p: Point, v: Variant, raw: nat, before: Memory, after: Memory)
    requires WellFormed(v) && Writable(p, v) && Wrote(p, v, before, after)
    ensures Bits(v) < SizeLimit(ByteCount(p.kind, p.plc))
    ensures var cached := Store(raw, ByteCount(p.kind, p.plc), Bits(v));
      cached == Polled(p, raw, after) == Polled(p, cached, after) && Reflects(p, cached, raw, after)
  {
    assert Decoded(after, p.kind, p.plc, AddressOf(p)) == Bits(v);
    PolledTwice(p, raw, after);
    PolledReflects(p, raw, after);
    hide Reflects;
  }

  /** The writes of `writeVariableCallback`; `first` and `second` say whether the device answers them. */
  method WriteToDevice(device: Device, p: Point, value: Variant, first: bool, second: bool) returns (ok: bool)
    requires WellFormed(value)
    modifies device
    ensures ok <==> Writable(p, value) && first && (value.Float? ==> second)
    ensures ok ==> Wrote(p, value, old(device.memory), device.memory)
    ensures !ok ==> device.memory == if Writable(p, value) && value.Float? && first
                                     then With(old(device.memory), p.kind, AddressOf(p), value.bits % 0x1_0000)
                                     else old(device.memory)
  {
    ok := false;
    var address := AddressOf(p);
    if p.kind == HoldingRegister {
      match p.plc {
        case BOOL =>
          if value.Boolean? {
            ok := device.WriteSingle(p.kind, address, if value.b then 1 else 0, first);
          }
        case USINT =>
          if value.Byte? {
            ok := device.WriteSingle(p.kind, address, value.n, first);
          }
        case UINT =>
          if value.UInt16? {
            ok := device.WriteSingle(p.kind, address, value.n, first);
          }
        case REAL =>
          if value.Float? {
            ok := device.WriteSingle(p.kind, address, value.bits % 0x1_0000, first);
            if ok {
              ok := device.WriteSingle(p.kind, address + 1, value.bits / 0x1_0000, second);
            }
          }
        case _ =>
      }
    } else if p.kind == Coil {
      if p.plc == BOOL && value.Boolean? {
        ok := device.WriteSingle(p.kind, address, if value.b then 1 else 0, first);
      }
    }
  }

  // --- The variable of a node -----------------------------------------------------------

  /** The first entry of the tables that has the node. */
  ghost predicate IsFirst(nodes: seq<seq<nat>>, node: nat, i: nat, j: nat)
  {
    && i < |nodes| && j < |nodes[i]| && nodes[i][j] == node
    && (forall l :: 0 <= l < j ==> nodes[i][l] != node)
    && (forall k :: 0 <= k < i ==> node !in nodes[k])
  }

  /** The loops that look for a node among the variables of all devices. */
  method FindVariable(nodes: seq<seq<nat>>, node: nat) returns (found: bool, i: nat, j: nat)
    ensures found ==> IsFirst(nodes, node, i, j)
    ensures !found ==> forall k :: 0 <= k < |nodes| ==> node !in nodes[k]
  {
    found, i, j := false, 0, 0;
    while i < |nodes|
      invariant 0 <= i <= |nodes|
      invariant forall k :: 0 <= k < i ==> node !in nodes[k]
    {
      j := 0;
      while j < |nodes[i]|
        invariant 0 <= j <= |nodes[i]|
        invariant forall l :: 0 <= l < j ==> nodes[i][l] != node
      {
        if nodes[i][j] == node {
          return true, i, j;
        }
        j := j + 1;
      }
      i := i + 1;
    }
  }

  /** A good write has reached the device, and the cached value is the one the next poll finds again. */
  ghost predicate WroteBack(v: Variable, value: Variant, raw: nat, before: Memory, after: Memory)
    reads v
  {
    && Wrote(v.point, value, before, after)
    && if v.point.hasValue then Reflects(v.point, v.raw, raw, after) && Polled(v.point, v.raw, after) == v.raw
       else v.raw == raw
  }

  /**
   `writeVariableCallback`, for a client that writes `node`; `nodes` are the nodes of
   the variables of all devices. A write that is not an echo of polling is good when
   the first variable with that node has an address, its register type and data type
   are written and the value has the type that goes with them, and the device answers.
   A good write reaches that variable only and leaves a value that the next poll finds
   again; a failed write leaves every value alone.
   */
  method WriteVariable(device: Device, devices: seq<seq<Variable>>, nodes: seq<seq<nat>>, node: nat, value: Variant,
                       updating: bool, first: bool, second: bool)
    returns (status: Status)
    requires |nodes| == |devices| && forall i :: 0 <= i < |nodes| ==> |nodes[i]| == |devices[i]|
    requires WellFormed(value)
    modifies device, set d, v | d in devices && v in d :: v
    ensures updating ==> status == Good && device.memory == old(device.memory)
    ensures !updating && (forall k :: 0 <= k < |nodes| ==> node !in nodes[k]) ==>
      status == BadNodeIdUnknown && device.memory == old(device.memory)
    ensures status != Good || updating ==> forall d, v | d in devices && v in d :: v.raw == old(v.raw)
    ensures !updating ==> forall i: nat, j: nat | IsFirst(nodes, node, i, j) ::
      var p := devices[i][j].point;
      && (status == Good <==>
            && (exists k: nat :: Denotes(p.kind, p.reference, k)) && first
            && ((p.kind == Coil && p.plc == BOOL && value.Boolean?)
                || (p.kind == HoldingRegister && p.plc == BOOL && value.Boolean?)
                || (p.kind == HoldingRegister && p.plc == USINT && value.Byte?)
                || (p.kind == HoldingRegister && p.plc == UINT && value.UInt16?)
                || (p.kind == HoldingRegister && p.plc == REAL && value.Float? && second)))
      && (status == Good ==>
            && (forall d, v | d in devices && v in d && v != devices[i][j] :: v.raw == old(v.raw))
            && WroteBack(devices[i][j], value, old(devices[i][j].raw), old(device.memory), device.memory))
      && (status != Good ==> status == BadInternalError)
  {
    if updating {
      return Good;
    }
    var found, i, j := FindVariable(nodes, node);
    if !found {
      return BadNodeIdUnknown;
    }
    forall k: nat, l: nat | IsFirst(nodes, node, k, l) ensures k == i && l == j {
    }
    hide IsFirst, WroteBack;
    assert devices[i] in devices && devices[i][j] in devices[i];
    var p := devices[i][j].point;
    PduAddrMeans(p.kind, p.reference);
    hide Denotes;
    assert AddressOf(p) >= 0 ==> exists k: nat :: Denotes(p.kind, p.reference, k) by {
      if AddressOf(p) >= 0 {
        var k: nat := AddressOf(p);
        assert Denotes(p.kind, p.reference, k);
      }
    }
    status := WriteFound(device, devices[i][j], value, first, second);
  }

  /** The rest of the callback, for the variable that was found. */
  method WriteFound(device: Device, variable: Variable, value: Variant, first: bool, second: bool) returns (status: Status)
    requires WellFormed(value)
    modifies device, variable`raw
    ensures status == Good <==> AddressOf(variable.point) >= 0 && Writable(variable.point, value) && first && (value.Float? ==> second)
    ensures status != Good ==> status == BadInternalError && variable.raw == old(variable.raw)
    ensures status == Good ==> WroteBack(variable, value, old(variable.raw), old(device.memory), device.memory)
  {
    var p := variable.point;
    if AddressOf(p) < 0 {
      return BadInternalError;
    }
    hide Polled, Wrote, Reflects, Store;
    var ok := WriteToDevice(device, p, value, first, second);
    if !ok {
      return BadInternalError;
    }
    PollAfterWrite(p, value, variable.raw, old(device.memory), device.memory);
    if p.hasValue {
      variable.raw := Store(variable.raw, ByteCount(HoldingRegister, p.plc), Bits(value));
    }
    return Good;
  }
}
