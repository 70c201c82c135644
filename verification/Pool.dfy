/**
 The address pool: one locked section generates an address from a counter, others
 take addresses off the list of allocated ones. Any number of threads interleave
 these sections; no address is ever handed out twice.
 */
module Pool {
  import opened Bytes
  import opened Address

  const COUNTERS: nat := 0x1_0000_0000

  /** The range of the pool, as numbers. */
  datatype Config = Config(start: nat, end: nat)

  ghost predicate IsConfig(c: Config)
  {
    c.start <= 0xFFFF_FFFF_FFFF_FFFF_FFFF_FFFF_FFFF_FFFF && c.end <= 0xFFFF_FFFF_FFFF_FFFF_FFFF_FFFF_FFFF_FFFF
  }

  function Size(c: Config): nat
  {
    if c.end < c.start then 0 else c.end - c.start + 1
  }

  /** Pools for which neither the 32-bit counter nor the address can wrap around. */
  ghost predicate Small(c: Config)
  {
    && c.start <= 0xFFFF_FFFF_FFFF_FFFF_FFFF_FFFF_FFFF_FFFF && c.end < 0xFFFF_FFFF_FFFF_FFFF_FFFF_FFFF_FFFF_FFFF
    && (c.start <= c.end ==> c.end - c.start + 1 < 0x1_0000_0000)
  }

  // --- The generating section ---------------------------------------------------------

  /** The start address, counted up. */
  function NextNumber(c: Config, counter: nat): nat
  {
    (c.start + counter) % ADDRESSES
  }

  datatype Outcome = Exhausted | Taken | Fresh(number: nat)

  /** What the locked section of `generate_ipv6_address` finds. */
  function Find(c: Config, counter: nat, inUse: seq<string>): Outcome
  {
    var n := NextNumber(c, counter);
    if n > c.end then Exhausted
    else if TextOf(n) in inUse then Taken
    else Fresh(n)
  }

  function CounterAfter(counter: nat, o: Outcome): nat
  {
    if o == Exhausted then counter else (counter + 1) % COUNTERS
  }

  function AllocatedAfter(inUse: seq<string>, o: Outcome): seq<string>
  {
    if o.Fresh? then [TextOf(o.number)] + inUse else inUse
  }

  /** `addr_list_remove`: the first entry of that text. */
  function Remove(list: seq<string>, text: string): seq<string>
  {
    if list == [] then []
    else if list[0] == text then list[1..]
    else [list[0]] + Remove(list[1..], text)
  }

  /** `addr_list_add_unique`. */
  function AddUnique(list: seq<string>, text: string): seq<string>
  {
    if text == "" || text in list then list else [text] + list
  }

  /** One entry of the text goes, if there is one. */
  lemma {:induction false} RemoveOne(list: seq<string>, text: string)
    ensures multiset(Remove(list, text)) == multiset(list) - multiset{text}
  {
    if list != [] {
      var rest := list[1..];
      RemoveOne(rest, text);
      assert list == [list[0]] + rest;
      WithoutOne(list[0], multiset(rest), text);
    }
  }

  lemma WithoutOne(head: string, rest: multiset<string>, text: string)
    ensures multiset{head} + rest - multiset{text} == if head == text then rest else multiset{head} + (rest - multiset{text})
  {
  }

  lemma {:induction false} RemoveKeeps(list: seq<string>, text: string)
    ensures forall t | t in Remove(list, text) :: t in list
    ensures forall t | t in list && t != text :: t in Remove(list, text)
  {
    if list != [] {
      RemoveKeeps(list[1..], text);
    }
  }

  /** The text of an address of the pool. */
  function Nth(c: Config, i: nat): string
  {
    TextOf(c.start + i)
  }

  /** Every listed text is that of one of the addresses counted so far. */
  ghost predicate OnlyCounted(c: Config, counter: nat, inUse: seq<string>)
  {
    forall t | t in inUse :: exists i :: 0 <= i < counter && t == Nth(c, i)
  }

  /** As long as that holds, the address the counter stands at is not on the list: the retry is never taken. */
  lemma NeverTaken(c: Config, counter: nat, inUse: seq<string>)
    requires Small(c) && counter <= Size(c) && OnlyCounted(c, counter, inUse)
    ensures Find(c, counter, inUse) == if counter == Size(c) then Exhausted else Fresh(c.start + counter)
  {
    hide TextOf;
    if counter < Size(c) {
      assert NextNumber(c, counter) == c.start + counter;
      if TextOf(c.start + counter) in inUse {
        var i :| 0 <= i < counter && TextOf(c.start + counter) == Nth(c, i);
        TextInjective(c.start + i, c.start + counter);
      }
    }
  }

  /** A pool of addresses that reaches the last of all starts over at zero; only then. */
  lemma AddressWraps(c: Config)
    requires IsConfig(c) && c.start <= c.end
    ensures NextNumber(c, Size(c)) > c.end <==> c.end < ADDRESSES - 1
    ensures c.end == ADDRESSES - 1 ==> NextNumber(c, Size(c)) == 0
  {
  }

  /** In a pool with as many addresses as the counter has values, the first address comes up again. */
  lemma CounterWraps(c: Config, inUse: seq<string>)
    requires IsConfig(c) && Size(c) >= COUNTERS
    ensures CounterAfter(COUNTERS - 1, Fresh(c.start + COUNTERS - 1)) == 0
    ensures TextOf(c.start) !in inUse ==> Find(c, 0, inUse) == Fresh(c.start)
  {
    hide TextOf;
  }

  lemma NextStep(c: Config, i: nat)
    ensures NextNumber(c, i + 1) == (NextNumber(c, i) + 1) % ADDRESSES
    ensures c.start < ADDRESSES ==> NextNumber(c, 0) == c.start
  {
    var n := c.start + i;
    assert n == n / ADDRESSES * ADDRESSES + n % ADDRESSES;
  }

  // --- The section as the source runs it --------------------------------------------------

  class AddressPool {
    const start: seq<Octet>
    const end: seq<Octet>
    var counter: nat
    var inUse: seq<string>
    var interfaceAddrs: seq<string>

    constructor (start: seq<Octet>, end: seq<Octet>)
      requires |start| == |end| == 16
      ensures Valid() && this.start == start && this.end == end
      ensures counter == 0 && inUse == [] && interfaceAddrs == []
    {
      this.start, this.end := start, end;
      counter, inUse, interfaceAddrs := 0, [], [];
    }

    ghost predicate Valid()
      reads this
    {
      |start| == |end| == 16 && counter < COUNTERS
    }

    ghost function Range(): Config
      reads this
      requires Valid()
    {
      Config(Value(start), Value(end))
    }

    /** Counts up from the start address. */
    method CountUp() returns (next: array<Octet>)
      requires Valid()
      ensures fresh(next) && next.Length == 16 && Value(next[..]) == NextNumber(Range(), counter)
    {
      next := new Octet[16](i requires 0 <= i < |start| => start[i]);
      assert next[..] == start;
      ValueBounds(start);
      Pow256Sixteen();
      hide Value;
      var i := 0;
      NextStep(Range(), 0);
      while i < counter
        invariant 0 <= i <= counter
        invariant Value(next[..]) == NextNumber(Range(), i)
      {
        NextStep(Range(), i);
        hide NextNumber;
        Increment(next);
        i := i + 1;
      }
    }

    /** The locked section of `generate_ipv6_address`. */
    method Generate() returns (o: Outcome)
      requires Valid()
      modifies `counter, `inUse
      ensures Valid()
      ensures o == Find(Range(), old(counter), old(inUse))
      ensures counter == CounterAfter(old(counter), o) && inUse == AllocatedAfter(old(inUse), o)
      ensures counter == if o == Exhausted then old(counter) else (old(counter) + 1) % 0x1_0000_0000
      ensures inUse == if o.Fresh? then [TextOf(o.number)] + old(inUse) else old(inUse)
    {
      hide TextOf, Format, Value;
      var next := CountUp();
      var last := new Octet[16](i requires 0 <= i < |end| => end[i]);
      assert last[..] == end;
      var order := CompareAddresses(next, last);
      if order > 0 {
        return Exhausted;
      }
      ghost var n := NextNumber(Range(), counter);
      FormatIsText(next[..]);
      var text := Format(next[..]);
      var taken := false;
      var i := 0;
      while i < |inUse| && !taken
        invariant 0 <= i <= |inUse|
        invariant taken ==> text in inUse
        invariant !taken ==> text !in inUse[..i]
      {
        if inUse[i] == text {
          taken := true;
        }
        i := i + 1;
      }
      assert !taken ==> inUse[..i] == inUse;
      counter := (counter + 1) % COUNTERS;
      if taken {
        return Taken;
      }
      inUse := [text] + inUse;
      return Fresh(NumberOfOctets(next[..]));
    }

    /** `generate_ipv6_address`, which starts over when the address is taken. */
    method GenerateAddress() returns (address: Option<nat>)
      requires Valid() && Small(Range()) && counter <= Size(Range()) && OnlyCounted(Range(), counter, inUse)
      modifies `counter, `inUse
      ensures Valid() && counter <= Size(Range()) && OnlyCounted(Range(), counter, inUse)
      ensures Value(start) + old(counter) > Value(end) ==>
        address == None && counter == old(counter) && inUse == old(inUse)
      ensures Value(start) + old(counter) <= Value(end) ==>
        && address == Some(Value(start) + old(counter)) && counter == old(counter) + 1
        && inUse == [TextOf(Value(start) + old(counter))] + old(inUse)
      decreases Size(Range()) - counter
    {
      hide TextOf, Value;
      NeverTaken(Range(), counter, inUse);
      var o := Generate();
      if o == Exhausted {
        return None;
      }
      StillCounted(Range(), old(counter), old(inUse));
      return Some(o.number);
    }

    /** `remove_address_from_allocated`. */
    method Forget(text: string)
      modifies `inUse
      ensures inUse == Remove(old(inUse), text)
    {
      var i := 0;
      assert inUse[0..] == inUse;
      while i < |inUse|
        invariant 0 <= i <= |inUse|
        invariant Remove(inUse, text) == inUse[..i] + Remove(inUse[i..], text)
      {
        assert inUse[i..][1..] == inUse[i + 1..];
        if inUse[i] == text {
          inUse := inUse[..i] + inUse[i + 1..];
          return;
        }
        assert inUse[..i + 1] == inUse[..i] + [inUse[i]];
        i := i + 1;
      }
      assert inUse[..i] == inUse;
    }
  }

  function NumberOfOctets(b: seq<Octet>): nat
  {
    Value(b)
  }

  lemma FormatIsText(b: seq<Octet>)
    requires |b| == 16
    ensures Format(b) == TextOf(Value(b))
  {
    ValueBounds(b);
    OctetsValue(Value(b), 16);
    ValueInjective(b, Octets(Value(b), 16));
  }

  lemma StillCounted(c: Config, counter: nat, inUse: seq<string>)
    requires OnlyCounted(c, counter, inUse)
    ensures OnlyCounted(c, counter + 1, [TextOf(c.start + counter)] + inUse)
    ensures OnlyCounted(c, counter + 1, inUse)
  {
    hide TextOf;
    var list := [TextOf(c.start + counter)] + inUse;
    forall t | t in list
      ensures exists i :: 0 <= i < counter + 1 && t == Nth(c, i)
    {
      if t in inUse {
        var i :| 0 <= i < counter && t == Nth(c, i);
        assert 0 <= i < counter + 1 && t == Nth(c, i);
      } else {
        assert t == Nth(c, counter);
      }
    }
  }
}
