/**
 Devices that come online and go offline: the management pass of the polling
 thread creates and deletes their nodes, and keeps the addresses they once got.
 */
module Lifecycle {
  import opened Bytes
  import Pool

  /** A variable of a device; its address is none until one has been allocated. */
  datatype Variable = Variable(name: string, address: Option<nat>, node: bool)

  datatype Device = Device(name: string, address: Option<nat>, node: bool, variables: seq<Variable>)

  /** Whether the system accepts an address on the network interface. */
  type Interface = nat -> bool

  // --- Allocation ------------------------------------------------------------------

  /** What `ipv6_allocate_address` writes for its caller, before it asks the interface. */
  function Drawn(c: Pool.Config, counter: nat): Option<nat>
  {
    if counter >= Pool.Size(c) then None else Some(c.start + counter)
  }

  /** The address `ipv6_allocate_address` is successful with: one that the interface accepts. */
  function Take(c: Pool.Config, counter: nat, accepts: Interface): Option<nat>
  {
    var a := Drawn(c, counter);
    if a.Some? && accepts(a.value) then a else None
  }

  function CounterAfterTake(c: Pool.Config, counter: nat): nat
  {
    if counter >= Pool.Size(c) then counter else counter + 1
  }

  // --- Adding and deleting nodes -----------------------------------------------------

  /** The address of a variable when its node is made: the old one, or a new one. */
  function Addressed(c: Pool.Config, counter: nat, v: Variable, accepts: Interface): Variable
  {
    Variable(v.name, if v.address.Some? then v.address else Take(c, counter, accepts), true)
  }

  function CounterAfterAdd(c: Pool.Config, counter: nat, v: Variable): nat
  {
    if v.address.Some? then counter else CounterAfterTake(c, counter)
  }

  /** The loop of `addDeviceNodes` over the variables. */
  function AddVariables(c: Pool.Config, counter: nat, vs: seq<Variable>, accepts: Interface): (r: seq<Variable>)
    ensures |r| == |vs|
    decreases |vs|
  {
    if vs == [] then []
    else [Addressed(c, counter, vs[0], accepts)]
         + AddVariables(c, CounterAfterAdd(c, counter, vs[0]), vs[1..], accepts)
  }

  function CounterAfterVariables(c: Pool.Config, counter: nat, vs: seq<Variable>): nat
    decreases |vs|
  {
    if vs == [] then counter else CounterAfterVariables(c, CounterAfterAdd(c, counter, vs[0]), vs[1..])
  }

  function Deleted(vs: seq<Variable>): (r: seq<Variable>)
    ensures |r| == |vs|
    ensures forall i :: 0 <= i < |vs| ==> r[i] == Variable(vs[i].name, vs[i].address, false)
  {
    seq(|vs|, i requires 0 <= i < |vs| => Variable(vs[i].name, vs[i].address, false))
  }

  /** A device and the counter behind it. */
  datatype Managed = Managed(device: Device, counter: nat)

  /** The nodes of a device that has an address. */
  function WithNodes(c: Pool.Config, counter: nat, d: Device, accepts: Interface): Managed
  {
    Managed(Device(d.name, d.address, true, AddVariables(c, counter, d.variables, accepts)),
            CounterAfterVariables(c, counter, d.variables))
  }

  /**
   What the pass does with one device. An address that is refused stays in the
   device, which gets its nodes under it when it is found online again.
   */
  function Manage(c: Pool.Config, counter: nat, d: Device, online: bool, accepts: Interface): Managed
  {
    if d.name == "" then Managed(d, counter)
    else if online && !d.node then
      if d.address.Some? then WithNodes(c, counter, d, accepts)
      else
        var next, e := CounterAfterTake(c, counter), d.(address := Drawn(c, counter));
        if Take(c, counter, accepts).Some? then WithNodes(c, next, e, accepts) else Managed(e, next)
    else if !online && d.node then Managed(Device(d.name, d.address, false, Deleted(d.variables)), counter)
    else Managed(d, counter)
  }

  /** The devices and the counter after a pass. */
  datatype Fleet = Fleet(devices: seq<Device>, counter: nat)

  function Pass(c: Pool.Config, f: Fleet, online: seq<bool>, accepts: Interface): (r: Fleet)
    requires |online| == |f.devices|
    ensures |r.devices| == |f.devices|
    decreases |f.devices|
  {
    if f.devices == [] then f
    else
      var m := Manage(c, f.counter, f.devices[0], online[0], accepts);
      var rest := Pass(c, Fleet(f.devices[1..], m.counter), online[1..], accepts);
      Fleet([m.device] + rest.devices, rest.counter)
  }

  // --- Addresses stay ------------------------------------------------------------------

  ghost predicate KeepsAddress(a: Option<nat>, b: Option<nat>)
  {
    a.Some? ==> b == a
  }

  /** The same device, with every address it had. */
  ghost predicate Continues(d: Device, e: Device)
  {
    && d.name == e.name && KeepsAddress(d.address, e.address) && |d.variables| == |e.variables|
    && forall i :: 0 <= i < |d.variables| ==>
         d.variables[i].name == e.variables[i].name && KeepsAddress(d.variables[i].address, e.variables[i].address)
  }

  lemma {:induction false} AddVariablesKeeps(c: Pool.Config, counter: nat, vs: seq<Variable>, accepts: Interface)
    ensures var r := AddVariables(c, counter, vs, accepts);
      forall i :: 0 <= i < |vs| ==>
        r[i].name == vs[i].name && KeepsAddress(vs[i].address, r[i].address) && r[i].node
    decreases |vs|
  {
    if vs != [] {
      AddVariablesKeeps(c, CounterAfterAdd(c, counter, vs[0]), vs[1..], accepts);
    }
  }

  /** How many variables have no address. */
  function Missing(vs: seq<Variable>): nat
  {
    if vs == [] then 0 else (if vs[0].address.None? then 1 else 0) + Missing(vs[1..])
  }

  /**
   Every variable gets its node; one without an address is given the next of the
   pool, if there is one and the interface accepts it.
   */
  lemma {:induction false} VariablesGet(c: Pool.Config, counter: nat, vs: seq<Variable>, accepts: Interface, i: nat)
    requires i < |vs|
    ensures var v, n := vs[i], c.start + counter + Missing(vs[..i]);
      AddVariables(c, counter, vs, accepts)[i]
        == Variable(v.name, if v.address.Some? then v.address else if n <= c.end && accepts(n) then Some(n) else None, true)
    decreases i
  {
    if i > 0 {
      VariablesGet(c, CounterAfterAdd(c, counter, vs[0]), vs[1..], accepts, i - 1);
      assert vs[..i][1..] == vs[1..][..i - 1];
    }
  }

  /** All nodes of a device exist, or none. */
  ghost predicate Whole(d: Device)
  {
    && (d.node ==> d.address.Some? && d.name != "")
    && forall i :: 0 <= i < |d.variables| ==> d.variables[i].node == d.node
  }

  /** Whether a device is found with an address, or can be given the next one of the pool. */
  predicate Addressable(c: Pool.Config, counter: nat, d: Device, accepts: Interface)
  {
    d.address.Some? || (c.start + counter <= c.end && accepts(c.start + counter))
  }

  /**
   One device in one pass: its addresses stay; its nodes exist afterwards exactly
   when it is online and had an address before or was allocated one; it has an
   address exactly when it had one, or was online before the pool was exhausted.
   */
  lemma ManageMeans(c: Pool.Config, counter: nat, d: Device, online: bool, accepts: Interface)
    requires Whole(d)
    ensures var e := Manage(c, counter, d, online, accepts).device;
      && Continues(d, e) && Whole(e)
      && (d.name != "" ==>
            && (e.node <==> online && Addressable(c, counter, d, accepts))
            && (e.address.Some? <==> d.address.Some? || (online && c.start + counter <= c.end)))
  {
    AddVariablesKeeps(c, counter, d.variables, accepts);
    AddVariablesKeeps(c, CounterAfterTake(c, counter), d.variables, accepts);
  }

  /** The counter when the pass comes to device `i`. */
  function CounterAt(c: Pool.Config, f: Fleet, online: seq<bool>, accepts: Interface, i: nat): nat
    requires i < |online| == |f.devices|
    decreases i
  {
    if i == 0 then f.counter
    else
      var m := Manage(c, f.counter, f.devices[0], online[0], accepts);
      CounterAt(c, Fleet(f.devices[1..], m.counter), online[1..], accepts, i - 1)
  }

  lemma {:induction false} PassMeans(c: Pool.Config, f: Fleet, online: seq<bool>, accepts: Interface)
    requires |online| == |f.devices| && forall i :: 0 <= i < |f.devices| ==> Whole(f.devices[i])
    ensures var r := Pass(c, f, online, accepts);
      forall i :: 0 <= i < |f.devices| ==>
        && Continues(f.devices[i], r.devices[i]) && Whole(r.devices[i])
        && (f.devices[i].name != "" ==>
              (r.devices[i].node <==>
                 online[i] && Addressable(c, CounterAt(c, f, online, accepts, i), f.devices[i], accepts)))
    decreases |f.devices|
  {
    if f.devices != [] {
      hide Manage, Continues, Whole, Addressable;
      var m := Manage(c, f.counter, f.devices[0], online[0], accepts);
      var g := Fleet(f.devices[1..], m.counter);
      ManageMeans(c, f.counter, f.devices[0], online[0], accepts);
      PassMeans(c, g, online[1..], accepts);
      forall i | 0 < i < |f.devices|
        ensures CounterAt(c, f, online, accepts, i) == CounterAt(c, g, online[1..], accepts, i - 1)
      {
      }
    }
  }

  /**
   A device whose address is refused keeps it without having nodes; when it is
   found online again it gets them, under the address that was refused, whatever
   the interface says then.
   */
  lemma RefusedThenUsed(c: Pool.Config, counter: nat, d: Device, accepts: Interface, later: nat, laterAccepts: Interface)
    requires d.name != "" && Untouched(d) && c.start + counter <= c.end && !accepts(c.start + counter)
    ensures var m := Manage(c, counter, d, true, accepts);
      && m == Managed(d.(address := Some(c.start + counter)), counter + 1) && !m.device.node
      && var e := Manage(c, later, m.device, true, laterAccepts).device;
         e.node && e.address == Some(c.start + counter)
  {
  }

  // --- Addresses are distinct ------------------------------------------------------------

  function One(a: Option<nat>): multiset<nat>
  {
    match a case None => multiset{} case Some(n) => multiset{n}
  }

  /** The addresses of variables. */
  function OwnedBy(vs: seq<Variable>): multiset<nat>
  {
    if vs == [] then multiset{} else One(vs[0].address) + OwnedBy(vs[1..])
  }

  function OwnedByDevice(d: Device): multiset<nat>
  {
    One(d.address) + OwnedBy(d.variables)
  }

  /** The addresses of all devices and their variables, with multiplicity. */
  function Owned(ds: seq<Device>): multiset<nat>
  {
    if ds == [] then multiset{} else OwnedByDevice(ds[0]) + Owned(ds[1..])
  }

  /** Between two states only addresses from `lo` up to `hi` have been added, each at most once. */
  ghost predicate Grown(a: multiset<nat>, b: multiset<nat>, lo: nat, hi: nat)
  {
    lo <= hi && forall n :: a[n] <= b[n] <= if lo <= n < hi then a[n] + 1 else a[n]
  }

  lemma GrownTwice(a: multiset<nat>, b: multiset<nat>, x: multiset<nat>, y: multiset<nat>, lo: nat, mid: nat, hi: nat)
    requires Grown(a, b, lo, mid) && Grown(x, y, mid, hi)
    ensures Grown(a + x, b + y, lo, hi)
  {
  }

  lemma GrownNot(a: multiset<nat>, lo: nat)
    ensures Grown(a, a, lo, lo)
  {
  }

  lemma AddressedGrows(c: Pool.Config, counter: nat, v: Variable, accepts: Interface)
    ensures Grown(One(v.address), One(Addressed(c, counter, v, accepts).address),
                  c.start + counter, c.start + CounterAfterAdd(c, counter, v))
  {
    GrownNot(One(v.address), c.start + counter);
    hide Grown, Take, CounterAfterTake;
  }

  lemma OwnedHead(vs: seq<Variable>)
    ensures vs == [] ==> OwnedBy(vs) == multiset{}
    ensures vs != [] ==> OwnedBy(vs) == One(vs[0].address) + OwnedBy(vs[1..])
  {
  }

  lemma AddVariablesHead(c: Pool.Config, counter: nat, vs: seq<Variable>, accepts: Interface)
    ensures var r := AddVariables(c, counter, vs, accepts);
      if vs == [] then r == [] && CounterAfterVariables(c, counter, vs) == counter
      else
        var next := CounterAfterAdd(c, counter, vs[0]);
        && r[0] == Addressed(c, counter, vs[0], accepts) && r[1..] == AddVariables(c, next, vs[1..], accepts)
        && CounterAfterVariables(c, counter, vs) == CounterAfterVariables(c, next, vs[1..])
  {
  }

  lemma {:induction false} AddVariablesGrows(c: Pool.Config, counter: nat, vs: seq<Variable>, accepts: Interface)
    ensures Grown(OwnedBy(vs), OwnedBy(AddVariables(c, counter, vs, accepts)),
                  c.start + counter, c.start + CounterAfterVariables(c, counter, vs))
    decreases |vs|
  {
    hide Grown, One, Addressed, CounterAfterAdd, OwnedBy, AddVariables, CounterAfterVariables;
    var lo, r := c.start + counter, AddVariables(c, counter, vs, accepts);
    AddVariablesHead(c, counter, vs, accepts);
    OwnedHead(vs);
    OwnedHead(r);
    if vs == [] {
      GrownNot(multiset{}, lo);
    } else {
      var next := CounterAfterAdd(c, counter, vs[0]);
      AddVariablesGrows(c, next, vs[1..], accepts);
      AddressedGrows(c, counter, vs[0], accepts);
      GrownTwice(One(vs[0].address), One(r[0].address), OwnedBy(vs[1..]), OwnedBy(r[1..]),
                 lo, c.start + next, c.start + CounterAfterVariables(c, counter, vs));
    }
  }

  lemma {:induction false} OwnedByDeleted(vs: seq<Variable>)
    ensures OwnedBy(Deleted(vs)) == OwnedBy(vs)
  {
    if vs != [] {
      OwnedByDeleted(vs[1..]);
      assert Deleted(vs)[1..] == Deleted(vs[1..]);
    }
  }

  lemma WithNodesGrows(c: Pool.Config, counter: nat, d: Device, accepts: Interface)
    ensures var m := WithNodes(c, counter, d, accepts);
      Grown(OwnedByDevice(d), OwnedByDevice(m.device), c.start + counter, c.start + m.counter)
  {
    hide Grown, OwnedBy, AddVariables, One, CounterAfterVariables;
    AddVariablesGrows(c, counter, d.variables, accepts);
    GrownNot(One(d.address), c.start + counter);
    GrownTwice(One(d.address), One(d.address), OwnedBy(d.variables), OwnedBy(AddVariables(c, counter, d.variables, accepts)),
               c.start + counter, c.start + counter, c.start + CounterAfterVariables(c, counter, d.variables));
  }

  lemma DeletedOwns(d: Device)
    ensures OwnedByDevice(Device(d.name, d.address, false, Deleted(d.variables))) == OwnedByDevice(d)
  {
    OwnedByDeleted(d.variables);
    hide OwnedBy, One;
  }

  lemma ManageGrows(c: Pool.Config, counter: nat, d: Device, online: bool, accepts: Interface)
    ensures var m := Manage(c, counter, d, online, accepts);
      Grown(OwnedByDevice(d), OwnedByDevice(m.device), c.start + counter, c.start + m.counter)
  {
    hide Grown, OwnedByDevice, WithNodes;
    GrownNot(OwnedByDevice(d), c.start + counter);
    DeletedOwns(d);
    WithNodesGrows(c, counter, d, accepts);
    if d.address.None? {
      RefusedGrows(c, counter, d);
      NewDeviceGrows(c, counter, d, accepts);
    }
  }

  lemma DrawnGrows(c: Pool.Config, counter: nat)
    ensures Grown(multiset{}, One(Drawn(c, counter)), c.start + counter, c.start + CounterAfterTake(c, counter))
  {
  }

  /** An address that is refused is owned all the same. */
  lemma RefusedGrows(c: Pool.Config, counter: nat, d: Device)
    requires d.address.None?
    ensures Grown(OwnedByDevice(d), OwnedByDevice(d.(address := Drawn(c, counter))),
                  c.start + counter, c.start + CounterAfterTake(c, counter))
  {
    hide Grown, OwnedBy, Drawn, CounterAfterTake;
    var next := c.start + CounterAfterTake(c, counter);
    DrawnGrows(c, counter);
    GrownNot(OwnedBy(d.variables), next);
    assert OwnedByDevice(d) == multiset{} + OwnedBy(d.variables);
    hide One;
    GrownTwice(multiset{}, One(Drawn(c, counter)), OwnedBy(d.variables), OwnedBy(d.variables), c.start + counter, next, next);
  }

  lemma NewDeviceGrows(c: Pool.Config, counter: nat, d: Device, accepts: Interface)
    requires d.address.None?
    ensures var next := CounterAfterTake(c, counter);
      var m := WithNodes(c, next, d.(address := Drawn(c, counter)), accepts);
      Grown(OwnedByDevice(d), OwnedByDevice(m.device), c.start + counter, c.start + m.counter)
  {
    hide Grown, OwnedBy, AddVariables, Drawn, CounterAfterTake, CounterAfterVariables;
    var a, next := Drawn(c, counter), CounterAfterTake(c, counter);
    DrawnGrows(c, counter);
    AddVariablesGrows(c, next, d.variables, accepts);
    assert OwnedByDevice(d) == multiset{} + OwnedBy(d.variables);
    hide One;
    GrownTwice(multiset{}, One(a), OwnedBy(d.variables), OwnedBy(AddVariables(c, next, d.variables, accepts)),
               c.start + counter, c.start + next, c.start + CounterAfterVariables(c, next, d.variables));
  }

  lemma {:induction false} PassGrows(c: Pool.Config, f: Fleet, online: seq<bool>, accepts: Interface)
    requires |online| == |f.devices|
    ensures var r := Pass(c, f, online, accepts);
      Grown(Owned(f.devices), Owned(r.devices), c.start + f.counter, c.start + r.counter)
    decreases |f.devices|
  {
    hide Grown, Manage, OwnedByDevice;
    if f.devices == [] {
      GrownNot(multiset{}, c.start + f.counter);
    } else {
      var m := Manage(c, f.counter, f.devices[0], online[0], accepts);
      var rest := Pass(c, Fleet(f.devices[1..], m.counter), online[1..], accepts);
      ManageGrows(c, f.counter, f.devices[0], online[0], accepts);
      PassGrows(c, Fleet(f.devices[1..], m.counter), online[1..], accepts);
      assert Pass(c, f, online, accepts).devices[1..] == rest.devices;
      GrownTwice(OwnedByDevice(f.devices[0]), OwnedByDevice(m.device), Owned(f.devices[1..]), Owned(rest.devices),
                 c.start + f.counter, c.start + m.counter, c.start + rest.counter);
    }
  }

  // --- Runs --------------------------------------------------------------------------------

  /** One poll: which devices are online, and what the interface accepts. */
  datatype Poll = Poll(online: seq<bool>, accepts: Interface)

  function Polls(c: Pool.Config, f: Fleet, polls: seq<Poll>): (r: Fleet)
    requires forall p | p in polls :: |p.online| == |f.devices|
    ensures |r.devices| == |f.devices|
    decreases |polls|
  {
    if polls == [] then f
    else
      assert polls[0] in polls;
      Polls(c, Pass(c, f, polls[0].online, polls[0].accepts), polls[1..])
  }

  /** Every address belongs to one owner, and all have been counted since the counter stood at `lo`. */
  ghost predicate Distinct(c: Pool.Config, lo: nat, f: Fleet)
  {
    lo <= f.counter && forall n :: Owned(f.devices)[n] <= if c.start + lo <= n < c.start + f.counter then 1 else 0
  }

  ghost predicate Good(c: Pool.Config, lo: nat, f: Fleet)
  {
    Distinct(c, lo, f) && f.counter <= Pool.Size(c) && forall i :: 0 <= i < |f.devices| ==> Whole(f.devices[i])
  }

  lemma {:induction false} VariablesWithin(c: Pool.Config, counter: nat, vs: seq<Variable>)
    requires counter <= Pool.Size(c)
    ensures CounterAfterVariables(c, counter, vs) <= Pool.Size(c)
    decreases |vs|
  {
    if vs != [] {
      VariablesWithin(c, CounterAfterAdd(c, counter, vs[0]), vs[1..]);
    }
  }

  /** The counter stays within the pool. */
  lemma {:induction false} PassWithin(c: Pool.Config, f: Fleet, online: seq<bool>, accepts: Interface)
    requires |online| == |f.devices| && f.counter <= Pool.Size(c)
    ensures Pass(c, f, online, accepts).counter <= Pool.Size(c)
    decreases |f.devices|
  {
    if f.devices != [] {
      var d, m := f.devices[0], Manage(c, f.counter, f.devices[0], online[0], accepts);
      VariablesWithin(c, f.counter, d.variables);
      VariablesWithin(c, CounterAfterTake(c, f.counter), d.variables);
      PassWithin(c, Fleet(f.devices[1..], m.counter), online[1..], accepts);
    }
  }

  lemma PassGood(c: Pool.Config, lo: nat, f: Fleet, online: seq<bool>, accepts: Interface)
    requires |online| == |f.devices| && Good(c, lo, f)
    ensures Good(c, lo, Pass(c, f, online, accepts))
  {
    hide Owned, Pass, Whole, Grown, Continues;
    PassMeans(c, f, online, accepts);
    PassGrows(c, f, online, accepts);
    PassWithin(c, f, online, accepts);
    DistinctGrown(Owned(f.devices), Owned(Pass(c, f, online, accepts).devices), c.start + lo, c.start + f.counter,
                  c.start + Pass(c, f, online, accepts).counter);
  }

  lemma DistinctGrown(a: multiset<nat>, b: multiset<nat>, start: nat, lo: nat, hi: nat)
    requires start <= lo && Grown(a, b, lo, hi)
    requires forall n :: a[n] <= if start <= n < lo then 1 else 0
    ensures lo <= hi
    ensures forall n :: b[n] <= if start <= n < hi then 1 else 0
  {
  }

  lemma ContinuesOn(d: Device, e: Device, g: Device)
    requires Continues(d, e) && Continues(e, g)
    ensures Continues(d, g)
  {
  }

  lemma ContinuesSame(d: Device)
    ensures Continues(d, d)
  {
  }

  /** What every run of polls keeps. */
  lemma {:induction false} PollsKeep(c: Pool.Config, lo: nat, f: Fleet, polls: seq<Poll>)
    requires Good(c, lo, f) && forall p | p in polls :: |p.online| == |f.devices|
    ensures Good(c, lo, Polls(c, f, polls))
    ensures forall i :: 0 <= i < |f.devices| ==> Continues(f.devices[i], Polls(c, f, polls).devices[i])
    decreases |polls|
  {
    hide Good, Continues, Pass;
    if polls == [] {
      forall i | 0 <= i < |f.devices| ensures Continues(f.devices[i], f.devices[i]) {
        ContinuesSame(f.devices[i]);
      }
    } else {
      var p := polls[0];
      assert p in polls;
      var g := Pass(c, f, p.online, p.accepts);
      GoodMeans(c, lo, f);
      PassMeans(c, f, p.online, p.accepts);
      PassGood(c, lo, f, p.online, p.accepts);
      PollsKeep(c, lo, g, polls[1..]);
      forall i | 0 <= i < |f.devices| ensures Continues(f.devices[i], Polls(c, f, polls).devices[i]) {
        ContinuesOn(f.devices[i], g.devices[i], Polls(c, f, polls).devices[i]);
      }
    }
  }

  lemma GoodMeans(c: Pool.Config, lo: nat, f: Fleet)
    requires Good(c, lo, f)
    ensures forall i :: 0 <= i < |f.devices| ==> Whole(f.devices[i])
    ensures forall n :: Owned(f.devices)[n] <= 1
    ensures forall n :: n in Owned(f.devices) ==> c.start + lo <= n <= c.end
  {
    hide Owned;
    forall n | n in Owned(f.devices) ensures c.start + lo <= n <= c.end {
      assert Owned(f.devices)[n] > 0;
    }
  }

  /** A fleet before the first poll: no device or variable has an address or a node. */
  ghost predicate Untouched(d: Device)
  {
    d.address == None && !d.node && forall i :: 0 <= i < |d.variables| ==> d.variables[i].address == None && !d.variables[i].node
  }

  lemma {:induction false} NothingOwned(vs: seq<Variable>)
    requires forall i :: 0 <= i < |vs| ==> vs[i].address == None
    ensures OwnedBy(vs) == multiset{}
  {
    if vs != [] {
      NothingOwned(vs[1..]);
    }
  }

  lemma {:induction false} UntouchedOwnsNothing(ds: seq<Device>)
    requires forall i :: 0 <= i < |ds| ==> Untouched(ds[i])
    ensures Owned(ds) == multiset{}
  {
    if ds != [] {
      NothingOwned(ds[0].variables);
      UntouchedOwnsNothing(ds[1..]);
    }
  }

  /**
   After any run of polls that begins with untouched devices, and one poll more:
   no two owners have the same address; all addresses are of the pool, and none is
   one that was handed out before; every address a device or a variable had is
   still its address; and the nodes of a device and of all its variables exist
   exactly when its status says online and it had an address before the last poll
   or was allocated one in it.
   */
  lemma EveryRun(c: Pool.Config, devices: seq<Device>, counter: nat, polls: seq<Poll>, last: Poll)
    requires counter <= Pool.Size(c) && forall i :: 0 <= i < |devices| ==> Untouched(devices[i])
    requires (forall p | p in polls :: |p.online| == |devices|) && |last.online| == |devices|
    ensures var before := Polls(c, Fleet(devices, counter), polls);
      var after := Pass(c, before, last.online, last.accepts);
      && (forall n :: Owned(after.devices)[n] <= 1)
      && (forall n :: n in Owned(after.devices) ==> c.start + counter <= n <= c.end)
      && (forall i :: 0 <= i < |devices| ==> Continues(before.devices[i], after.devices[i]))
      && (forall i :: 0 <= i < |devices| && devices[i].name != "" ==>
            (after.devices[i].node <==>
               last.online[i]
               && Addressable(c, CounterAt(c, before, last.online, last.accepts, i), before.devices[i], last.accepts)))
      && (forall i, j :: 0 <= i < |devices| && 0 <= j < |after.devices[i].variables| ==>
            after.devices[i].variables[j].node == after.devices[i].node)
  {
    var f := Fleet(devices, counter);
    UntouchedOwnsNothing(devices);
    assert Good(c, counter, f);
    PollsKeep(c, counter, f, polls);
    var before := Polls(c, f, polls);
    GoodMeans(c, counter, before);
    PassMeans(c, before, last.online, last.accepts);
    PassGood(c, counter, before, last.online, last.accepts);
    GoodMeans(c, counter, Pass(c, before, last.online, last.accepts));
    hide Pass, Polls, Owned, Good;
    forall i | 0 <= i < |devices| ensures before.devices[i].name == devices[i].name {
      assert Continues(devices[i], before.devices[i]);
    }
  }
}
