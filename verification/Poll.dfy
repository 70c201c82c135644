/**
 Polling: the answers to the planned requests are scattered to the variables, and
 writing: a value goes to the device first and to the cache after.

 The memory behind a variable's value pointer is a number, its bytes little-endian;
 storing a type of `n` bytes replaces the `n` lowest of them.
 */
module Poll {
  import opened Modbus
  import opened ReadPlan

  type Word = n: nat | n < 0x1_0000

  /** What the device holds: registers, and bits as 0 or another number. */
  type Memory = (RegisterType, int) -> Word

  // --- Values as bytes --------------------------------------------------------------

  /** 256 to the power of the sizes that occur. */
  function SizeLimit(bytes: nat): (r: nat)
    ensures r > 0
  {
    if bytes == 0 then 1
    else if bytes == 1 then 0x100
    else if bytes == 2 then 0x1_0000
    else if bytes == 4 then 0x1_0000_0000
    else 0x1_0000_0000_0000_0000
  }

  /** Storing a value of so many bytes. */
  function Store(raw: nat, bytes: nat, value: nat): nat
    requires value < SizeLimit(bytes)
  {
    raw / SizeLimit(bytes) * SizeLimit(bytes) + value
  }

  lemma Multiples(k: int, m: int)
    requires m > 0
    ensures k >= 1 ==> k * m >= m
    ensures k <= -1 ==> k * m <= -m
  {
    if k >= 1 {
      assert k * m == (k - 1) * m + m;
    } else if k <= -1 {
      assert k * m == (k + 1) * m - m;
    }
  }

  lemma Quotient(q: int, m: int, v: int)
    requires 0 <= v < m
    ensures (q * m + v) / m == q && (q * m + v) % m == v
  {
    var n := q * m + v;
    Multiples(n / m - q, m);
    assert (n / m - q) * m == v - n % m;
  }

  /** Storing twice is storing the last; what is stored is what the bytes then hold. */
  lemma StoreTwice(raw: nat, bytes: nat, v: nat, w: nat)
    requires v < SizeLimit(bytes) && w < SizeLimit(bytes)
    ensures Store(Store(raw, bytes, v), bytes, w) == Store(raw, bytes, w)
    ensures Store(raw, bytes, v) % SizeLimit(bytes) == v
  {
    hide SizeLimit;
    Quotient(raw / SizeLimit(bytes), SizeLimit(bytes), v);
  }

  /** How many bytes an update writes. */
  function ByteCount(kind: RegisterType, plc: Datatype): nat
  {
    if IsBits(kind) then 1
    else
      match plc
      case BOOL => 1
      case USINT => 1
      case UINT => 2
      case INT => 2
      case DINT => 4
      case REAL => 4
      case ULINT => 8
      case UNKNOWN => 0
  }

  function Truth(w: Word): nat
  {
    if w != 0 then 1 else 0
  }

  /** The low word comes first. */
  function Combined(w0: Word, w1: Word): nat
  {
    w0 + w1 * 0x1_0000
  }

  function Combined4(w0: Word, w1: Word, w2: Word, w3: Word): nat
  {
    w0 + w1 * 0x1_0000 + w2 * 0x1_0000_0000 + w3 * 0x1_0000_0000_0000
  }

  /** What the words of a variable, read on their own, mean. */
  function Decoded(memory: Memory, kind: RegisterType, plc: Datatype, address: int): (v: nat)
    ensures v < SizeLimit(ByteCount(kind, plc))
  {
    var w := memory(kind, address);
    if IsBits(kind) then Truth(w)
    else
      match plc
      case BOOL => Truth(w)
      case USINT => w % 0x100
      case UINT => w
      case INT => w
      case DINT => Combined(w, memory(kind, address + 1))
      case REAL => Combined(w, memory(kind, address + 1))
      case ULINT => Combined4(w, memory(kind, address + 1), memory(kind, address + 2), memory(kind, address + 3))
      case UNKNOWN => 0
  }

  /** The value after the variable has been read on its own. */
  function Polled(p: Point, raw: nat, memory: Memory): nat
  {
    Store(raw, ByteCount(p.kind, p.plc), Decoded(memory, p.kind, p.plc, AddressOf(p)))
  }

  lemma PolledTwice(p: Point, raw: nat, memory: Memory)
    ensures Polled(p, Polled(p, raw, memory), memory) == Polled(p, raw, memory)
  {
    var v := Decoded(memory, p.kind, p.plc, AddressOf(p));
    StoreTwice(raw, ByteCount(p.kind, p.plc), v, v);
  }

  /** Word `k` of a value, the low word being word 0. */
  function WordAt(v: nat, k: nat): nat
  {
    if k == 0 then v % 0x1_0000 else WordAt(v / 0x1_0000, k - 1)
  }

  /** The first words of a value are the registers at an address and behind it, in that order. */
  ghost predicate WordsAre(v: nat, words: nat, memory: Memory, kind: RegisterType, address: int)
  {
    forall k :: 0 <= k < words ==> WordAt(v, k) == memory(kind, address + k)
  }

  /**
   A value of so many bytes in memory that held `raw` before: bits and BOOL are one byte
   that is 0 or 1, USINT is the low byte of a register, and all others are the words of
   their registers, the low word first. The bytes above stay.
   */
  ghost predicate Reflects(p: Point, v: nat, raw: nat, memory: Memory)
  {
    var a := AddressOf(p);
    if p.kind == DiscreteInput || p.kind == Coil || p.plc == BOOL then
      v / 0x100 == raw / 0x100 && v % 0x100 == if memory(p.kind, a) == 0 then 0 else 1
    else
      match p.plc
      case USINT => v / 0x100 == raw / 0x100 && v % 0x100 == memory(p.kind, a) % 0x100
      case UINT => v / 0x1_0000 == raw / 0x1_0000 && WordsAre(v, 1, memory, p.kind, a)
      case INT => v / 0x1_0000 == raw / 0x1_0000 && WordsAre(v, 1, memory, p.kind, a)
      case DINT => v / 0x1_0000_0000 == raw / 0x1_0000_0000 && WordsAre(v, 2, memory, p.kind, a)
      case REAL => v / 0x1_0000_0000 == raw / 0x1_0000_0000 && WordsAre(v, 2, memory, p.kind, a)
      case ULINT => v / 0x1_0000_0000_0000_0000 == raw / 0x1_0000_0000_0000_0000 && WordsAre(v, 4, memory, p.kind, a)
      case _ => v == raw
  }

  lemma TwoWords(w0: nat, w1: nat, high: nat)
    requires w0 < 0x1_0000 && w1 < 0x1_0000
    ensures var v := high * 0x1_0000_0000 + (w0 + w1 * 0x1_0000);
      WordAt(v, 0) == w0 && WordAt(v, 1) == w1 && v / 0x1_0000_0000 == high
  {
    var v := high * 0x1_0000_0000 + (w0 + w1 * 0x1_0000);
    assert v / 0x1_0000 == high * 0x1_0000 + w1;
    assert WordAt(v, 1) == WordAt(v / 0x1_0000, 0);
  }

  lemma FourWords(w0: nat, w1: nat, w2: nat, w3: nat, high: nat)
    requires w0 < 0x1_0000 && w1 < 0x1_0000 && w2 < 0x1_0000 && w3 < 0x1_0000
    ensures var v := high * 0x1_0000_0000_0000_0000 + (w0 + w1 * 0x1_0000 + w2 * 0x1_0000_0000 + w3 * 0x1_0000_0000_0000);
      && WordAt(v, 0) == w0 && WordAt(v, 1) == w1 && WordAt(v, 2) == w2 && WordAt(v, 3) == w3
      && v / 0x1_0000_0000_0000_0000 == high
  {
    var v := high * 0x1_0000_0000_0000_0000 + (w0 + w1 * 0x1_0000 + w2 * 0x1_0000_0000 + w3 * 0x1_0000_0000_0000);
    var v1 := high * 0x1_0000_0000_0000 + (w1 + w2 * 0x1_0000 + w3 * 0x1_0000_0000);
    var v2 := high * 0x1_0000_0000 + (w2 + w3 * 0x1_0000);
    assert v == v1 * 0x1_0000 + w0 && v1 == v2 * 0x1_0000 + w1;
    assert v / 0x1_0000 == v1 && v1 / 0x1_0000 == v2;
    TwoWords(w2, w3, high);
    assert WordAt(v, 1) == WordAt(v1, 0) && WordAt(v, 2) == WordAt(v1, 1) == WordAt(v2, 0);
    assert WordAt(v, 3) == WordAt(v1, 2) == WordAt(v2, 1);
  }

  /** What a poll leaves in a variable are the registers of the device. */
  lemma PolledReflects(p: Point, raw: nat, memory: Memory)
    ensures Reflects(p, Polled(p, raw, memory), raw, memory)
  {
    hide Reflects, Polled;
    if IsBits(p.kind) || p.plc == BOOL || p.plc == USINT {
      ByteStored(p, raw, memory);
    } else if p.plc == UINT || p.plc == INT {
      WordStored(p, raw, memory);
    } else if p.plc == DINT || p.plc == REAL {
      TwoStored(p, raw, memory);
    } else if p.plc == ULINT {
      FourStored(p, raw, memory);
    } else {
      NothingStored(p, raw, memory);
    }
  }

  lemma NothingStored(p: Point, raw: nat, memory: Memory)
    requires !IsBits(p.kind) && p.plc == UNKNOWN
    ensures Reflects(p, Polled(p, raw, memory), raw, memory)
  {
  }

  lemma TwoStored(p: Point, raw: nat, memory: Memory)
    requires !IsBits(p.kind) && (p.plc == DINT || p.plc == REAL)
    ensures Reflects(p, Polled(p, raw, memory), raw, memory)
  {
    hide WordAt;
    var a, v := AddressOf(p), Polled(p, raw, memory);
    TwoWords(memory(p.kind, a), memory(p.kind, a + 1), raw / 0x1_0000_0000);
    assert WordAt(v, 0) == memory(p.kind, a + 0) && WordAt(v, 1) == memory(p.kind, a + 1);
  }

  lemma FourStored(p: Point, raw: nat, memory: Memory)
    requires !IsBits(p.kind) && p.plc == ULINT
    ensures Reflects(p, Polled(p, raw, memory), raw, memory)
  {
    hide WordAt;
    var a, v := AddressOf(p), Polled(p, raw, memory);
    FourWords(memory(p.kind, a), memory(p.kind, a + 1), memory(p.kind, a + 2), memory(p.kind, a + 3),
              raw / 0x1_0000_0000_0000_0000);
    assert WordAt(v, 0) == memory(p.kind, a + 0) && WordAt(v, 1) == memory(p.kind, a + 1);
  }

  lemma ByteStored(p: Point, raw: nat, memory: Memory)
    requires IsBits(p.kind) || p.plc == BOOL || p.plc == USINT
    ensures Reflects(p, Polled(p, raw, memory), raw, memory)
  {
  }

  lemma WordStored(p: Point, raw: nat, memory: Memory)
    requires !IsBits(p.kind) && (p.plc == UINT || p.plc == INT)
    ensures Reflects(p, Polled(p, raw, memory), raw, memory)
  {
    var v, a := Polled(p, raw, memory), AddressOf(p);
    assert v / 0x1_0000 == raw / 0x1_0000 && WordAt(v, 0) == memory(p.kind, a + 0);
  }

  // --- Scattering an answer ------------------------------------------------------------

  /** The answer to a request. */
  function Answer(memory: Memory, b: Block): (words: seq<Word>)
    requires b.count >= 0
    ensures |words| == b.count && forall i :: 0 <= i < |words| ==> words[i] == memory(b.kind, b.start + i)
  {
    seq(b.count, i requires 0 <= i < b.count => memory(b.kind, b.start + i))
  }

  /** `update_variable_from_registers`, with its guards against short answers. */
  function FromRegisters(plc: Datatype, raw: nat, registers: seq<Word>, index: int, available: int): nat
    requires available <= |registers|
  {
    if index < 0 || index >= available then raw
    else
      match plc
      case BOOL => Store(raw, 1, Truth(registers[index]))
      case USINT => Store(raw, 1, registers[index] % 0x100)
      case UINT => Store(raw, 2, registers[index])
      case INT => Store(raw, 2, registers[index])
      case ULINT =>
        if index + 3 < available
        then Store(raw, 8, Combined4(registers[index], registers[index + 1], registers[index + 2], registers[index + 3]))
        else raw
      case DINT => if index + 1 < available then Store(raw, 4, Combined(registers[index], registers[index + 1])) else raw
      case REAL => if index + 1 < available then Store(raw, 4, Combined(registers[index], registers[index + 1])) else raw
      case UNKNOWN => raw
  }

  /** For a variable that the request delivers whole, no guard applies. */
  lemma NoGuardSkips(p: Point, raw: nat, memory: Memory, b: Block)
    requires Holds(b, RangeOf(p)) && !IsBits(p.kind)
    ensures FromRegisters(p.plc, raw, Answer(memory, b), AddressOf(p) - b.start, b.count) == Polled(p, raw, memory)
  {
    assert Store(raw, 0, 0) == raw;
    hide Store, Combined, Combined4, Truth;
    var words, i := Answer(memory, b), AddressOf(p) - b.start;
    assert words[i] == memory(p.kind, AddressOf(p));
    assert PointWidth(p.kind, p.plc) > 1 ==> words[i + 1] == memory(p.kind, AddressOf(p) + 1);
    assert PointWidth(p.kind, p.plc) > 3 ==>
      words[i + 2] == memory(p.kind, AddressOf(p) + 2) && words[i + 3] == memory(p.kind, AddressOf(p) + 3);
  }

  /** What one successful request does to a variable. */
  function Updated(p: Point, raw: nat, b: Block, memory: Memory): nat
  {
    if p.hasValue && Holds(b, RangeOf(p)) then Polled(p, raw, memory) else raw
  }

  /** What a list of successful requests does to a variable. */
  function UpdatedByAll(p: Point, raw: nat, bs: seq<Block>, memory: Memory): nat
    decreases |bs|
  {
    if bs == [] then raw else UpdatedByAll(p, Updated(p, raw, bs[0], memory), bs[1..], memory)
  }

  lemma {:induction false} UpdatedByMore(p: Point, raw: nat, bs: seq<Block>, b: Block, memory: Memory)
    ensures UpdatedByAll(p, raw, bs + [b], memory) == Updated(p, UpdatedByAll(p, raw, bs, memory), b, memory)
    decreases |bs|
  {
    hide Updated;
    if bs == [] {
      assert bs + [b] == [b] && [b][1..] == [];
    } else {
      assert (bs + [b])[1..] == bs[1..] + [b];
      UpdatedByMore(p, Updated(p, raw, bs[0], memory), bs[1..], b, memory);
    }
  }

  /** However many requests deliver a variable, the outcome is that of reading it on its own. */
  lemma {:induction false} Scattered(p: Point, raw: nat, bs: seq<Block>, memory: Memory)
    ensures UpdatedByAll(p, raw, bs, memory)
         == if p.hasValue && Delivered(RangeOf(p), bs) then Polled(p, raw, memory) else raw
    decreases |bs|
  {
    hide Polled, Holds;
    if bs != [] {
      var r := RangeOf(p);
      Scattered(p, Updated(p, raw, bs[0], memory), bs[1..], memory);
      PolledTwice(p, raw, memory);
      DeliveredBy(r, bs);
    }
  }

  lemma DeliveredBy(r: Range, bs: seq<Block>)
    requires bs != []
    ensures Delivered(r, bs) <==> Holds(bs[0], r) || Delivered(r, bs[1..])
  {
    hide Holds;
    if Delivered(r, bs) && !Holds(bs[0], r) {
      var i :| 0 <= i < |bs| && Holds(bs[i], r);
      assert Holds(bs[1..][i - 1], r);
    }
    if Delivered(r, bs[1..]) {
      var i :| 0 <= i < |bs[1..]| && Holds(bs[1..][i], r);
      assert Holds(bs[i + 1], r);
    }
  }

  /** A variable that is not planned is in no request of the plan. */
  lemma NotPlannedNotDelivered(devices: seq<seq<Point>>, p: Point)
    requires p.hasValue && !Planned(p)
    ensures !Delivered(RangeOf(p), PlanFor(devices))
  {
    PlanForDevices(devices, []);
    forall i | 0 <= i < |PlanFor(devices)| ensures !Holds(PlanFor(devices)[i], RangeOf(p)) {
      assert PlanFor(devices)[i] in PlanFor(devices);
    }
  }

  lemma PlannedHasValue(p: Point)
    ensures Planned(p) ==> p.hasValue
  {
  }

  /**
   Reading by the plan is reading each variable on its own: exactly the planned
   variables change, and each becomes the decoding of its own words.
   */
  lemma BatchedIsSeparate(devices: seq<seq<Point>>, d: seq<Point>, p: Point, raw: nat, memory: Memory)
    requires d in devices && p in d
    ensures UpdatedByAll(p, raw, PlanFor(devices), memory) == if Planned(p) then Polled(p, raw, memory) else raw
    ensures if Wanted(p) then Reflects(p, UpdatedByAll(p, raw, PlanFor(devices), memory), raw, memory)
            else UpdatedByAll(p, raw, PlanFor(devices), memory) == raw
  {
    hide PlanFor, Polled, Reflects, UpdatedByAll, Planned, Wanted;
    Scattered(p, raw, PlanFor(devices), memory);
    PlannedMeans(p, Block(p.kind, 0, 0));
    PolledReflects(p, raw, memory);
    if Planned(p) {
      EveryPointDelivered(devices, d, p);
      PlannedHasValue(p);
    } else if p.hasValue {
      NotPlannedNotDelivered(devices, p);
    }
  }

  // --- Variables -------------------------------------------------------------------------

  /** An OPC UA variable with the memory of its value. */
  class Variable {
    const point: Point
    var raw: nat

    constructor (point: Point, raw: nat)
      ensures this.point == point && this.raw == raw
    {
      this.point, this.raw := point, raw;
    }

    /** `update_variable_from_registers`. */
    method UpdateFromRegisters(registers: seq<Word>, index: int, available: int)
      requires available <= |registers|
      modifies this`raw
      ensures raw == if point.hasValue then FromRegisters(point.plc, old(raw), registers, index, available) else old(raw)
    {
      if !point.hasValue || index < 0 || index >= available {
        return;
      }
      match point.plc {
        case BOOL => raw := Store(raw, 1, Truth(registers[index]));
        case USINT => raw := Store(raw, 1, registers[index] % 0x100);
        case UINT => raw := Store(raw, 2, registers[index]);
        case INT => raw := Store(raw, 2, registers[index]);
        case ULINT =>
          if index + 3 < available {
            raw := Store(raw, 8, Combined4(registers[index], registers[index + 1], registers[index + 2], registers[index + 3]));
          }
        case DINT =>
          if index + 1 < available {
            raw := Store(raw, 4, Combined(registers[index], registers[index + 1]));
          }
        case REAL =>
          if index + 1 < available {
            raw := Store(raw, 4, Combined(registers[index], registers[index + 1]));
          }
        case UNKNOWN =>
      }
    }
  }

  /** Different entries are different variables. */
  ghost predicate NoSharing(vars: seq<Variable>)
  {
    forall i, j :: 0 <= i < j < |vars| ==> vars[i] != vars[j]
  }

  /** `update_variables_from_register_block` and `update_variables_from_bit_block`. */
  method UpdateFromBlock(vars: seq<Variable>, b: Block, ghost memory: Memory, words: seq<Word>)
    requires NoSharing(vars) && b.count >= 0 && words == Answer(memory, b)
    modifies set v | v in vars
    ensures forall v | v in vars :: v.raw == Updated(v.point, old(v.raw), b, memory)
  {
    hide Polled, FromRegisters, Store;
    var blockEnd := b.start + b.count - 1;
    var i := 0;
    while i < |vars|
      invariant 0 <= i <= |vars|
      invariant forall k :: 0 <= k < i ==> vars[k].raw == Updated(vars[k].point, old(vars[k].raw), b, memory)
      invariant forall k :: i <= k < |vars| ==> vars[k].raw == old(vars[k].raw)
    {
      var v := vars[i];
      if v.point.kind == b.kind && v.point.hasValue {
        var address := PduAddr(v.point.kind, v.point.reference);
        var width := PointWidth(v.point.kind, v.point.plc);
        if address >= b.start && address + width - 1 <= blockEnd {
          if IsBits(b.kind) {
            v.raw := Store(v.raw, 1, Truth(words[address - b.start]));
            BitPolled(v.point, old(v.raw), memory, b);
          } else {
            NoGuardSkips(v.point, v.raw, memory, b);
            v.UpdateFromRegisters(words, address - b.start, b.count);
          }
        }
      }
      i := i + 1;
    }
  }

  lemma BitPolled(p: Point, raw: nat, memory: Memory, b: Block)
    requires Holds(b, RangeOf(p)) && IsBits(p.kind)
    ensures Store(raw, 1, Truth(Answer(memory, b)[AddressOf(p) - b.start])) == Polled(p, raw, memory)
  {
  }

  /** The variables belong to the devices the plan was made for. */
  ghost predicate BelongTo(vars: seq<Variable>, devices: seq<seq<Point>>)
  {
    forall v | v in vars :: exists d :: d in devices && v.point in d
  }

  /**
   The reading part of a polling round. `succeeds` says which requests the device
   answers; the round stops at the first it does not answer. When all are answered
   every variable that can be read has its own words, and no other changed; if not,
   exactly those have their words that a request before the first failure reads.
   */
  method PollPlan(vars: seq<Variable>, plan: seq<Block>, devices: seq<seq<Point>>, memory: Memory, succeeds: nat -> bool)
    returns (ok: bool)
    requires NoSharing(vars) && BelongTo(vars, devices) && plan == PlanFor(devices)
    modifies set v | v in vars
    ensures ok <==> forall i :: 0 <= i < |plan| ==> succeeds(i)
    ensures ok ==> forall v | v in vars ::
      if Wanted(v.point) then Reflects(v.point, v.raw, old(v.raw), memory) else v.raw == old(v.raw)
    ensures !ok ==> exists n: nat ::
      && n < |plan| && !succeeds(n) && (forall i: nat :: i < n ==> succeeds(i))
      && forall v | v in vars ::
           if v.point.hasValue && IsRead(v.point, plan[..n]) then Reflects(v.point, v.raw, old(v.raw), memory)
           else v.raw == old(v.raw)
  {
    hide Polled, PlanFor, Updated, Planned, Wanted, UpdatedByAll, Reflects, IsRead;
    PlanForDevices(devices, []);
    var i := 0;
    NoBlocks(memory);
    assert plan[..0] == [];
    while i < |plan|
      invariant 0 <= i <= |plan|
      invariant forall k :: 0 <= k < i ==> succeeds(k)
      invariant forall v | v in vars :: v.raw == UpdatedByAll(v.point, old(v.raw), plan[..i], memory)
    {
      if !succeeds(i) {
        forall v | v in vars
          ensures if v.point.hasValue && IsRead(v.point, plan[..i]) then Reflects(v.point, v.raw, old(v.raw), memory)
                  else v.raw == old(v.raw)
        {
          BegunMeans(devices, v.point, old(v.raw), i, memory);
        }
        return false;
      }
      assert plan[i] in plan;
      assert plan[..i + 1] == plan[..i] + [plan[i]];
      UpdateFromBlock(vars, plan[i], memory, Answer(memory, plan[i]));
      forall v | v in vars ensures v.raw == UpdatedByAll(v.point, old(v.raw), plan[..i + 1], memory) {
        UpdatedByMore(v.point, old(v.raw), plan[..i], plan[i], memory);
      }
      i := i + 1;
    }
    assert plan[..i] == plan;
    forall v | v in vars
      ensures if Wanted(v.point) then Reflects(v.point, v.raw, old(v.raw), memory) else v.raw == old(v.raw)
    {
      var d :| d in devices && v.point in d;
      BatchedIsSeparate(devices, d, v.point, old(v.raw), memory);
    }
    return true;
  }

  lemma NoBlocks(memory: Memory)
    ensures forall p, raw :: UpdatedByAll(p, raw, [], memory) == raw
  {
  }

  /** The first requests of a plan give exactly the variables they read their words. */
  lemma BegunMeans(devices: seq<seq<Point>>, p: Point, raw: nat, n: nat, memory: Memory)
    requires n <= |PlanFor(devices)|
    ensures var bs := PlanFor(devices)[..n];
      var v := UpdatedByAll(p, raw, bs, memory);
      if p.hasValue && IsRead(p, bs) then Reflects(p, v, raw, memory) else v == raw
  {
    hide PlanFor, Polled, Reflects, UpdatedByAll, Planned, Wanted, Reads, Holds;
    var bs := PlanFor(devices)[..n];
    Scattered(p, raw, bs, memory);
    PolledReflects(p, raw, memory);
    if Planned(p) {
      DeliveredIsRead(p, bs);
    } else if p.hasValue {
      NotPlannedNotDelivered(devices, p);
      forall i | 0 <= i < n ensures !Holds(bs[i], RangeOf(p)) {
        assert bs[i] == PlanFor(devices)[i];
      }
      NotWantedNotRead(p, bs);
    }
  }

  lemma NotWantedNotRead(p: Point, bs: seq<Block>)
    requires p.hasValue && !Planned(p)
    ensures !IsRead(p, bs)
  {
    hide Denotes, Planned;
    PlannedMeans(p, Block(p.kind, 0, 0));
    forall i | 0 <= i < |bs| ensures !Reads(bs[i], p) {
    }
  }
}
