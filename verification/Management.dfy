/**
 The management pass as the polling thread runs it: loops over devices and their
 variables, and the allocator behind them.
 */
module Management {
  import opened Bytes
  import Address
  import opened Pool
  import opened Lifecycle

  /** The value of the first variable of that name, if it has one. */
  function StatusOf(name: string, vs: seq<Variable>, values: seq<Option<nat>>): Option<nat>
    requires |values| == |vs|
  {
    if vs == [] then None
    else if vs[0].name == name then values[0]
    else StatusOf(name, vs[1..], values[1..])
  }

  /** A device is online when the 16 bits of its status variable are 0. */
  predicate IsOnline(d: Device, values: seq<Option<nat>>)
    requires |values| == |d.variables|
  {
    var status := StatusOf(d.name + "_status", d.variables, values);
    status.Some? && status.value % 0x1_0000 == 0
  }

  function OnlineOf(ds: seq<Device>, values: seq<seq<Option<nat>>>): (r: seq<bool>)
    requires |values| == |ds| && forall i :: 0 <= i < |ds| ==> |values[i]| == |ds[i].variables|
    ensures |r| == |ds| && forall i :: 0 <= i < |ds| ==> r[i] == IsOnline(ds[i], values[i])
  {
    seq(|ds|, i requires 0 <= i < |ds| => IsOnline(ds[i], values[i]))
  }

  /** The first status variable decides: offline without one, without a value, or when it is not 0. */
  lemma {:induction false} StatusIsFirst(name: string, vs: seq<Variable>, values: seq<Option<nat>>)
    requires |values| == |vs|
    ensures (forall j :: 0 <= j < |vs| ==> vs[j].name != name) ==> StatusOf(name, vs, values) == None
    ensures forall j :: 0 <= j < |vs| && vs[j].name == name && (forall k :: 0 <= k < j ==> vs[k].name != name) ==>
              StatusOf(name, vs, values) == values[j]
  {
    if vs != [] && vs[0].name != name {
      StatusIsFirst(name, vs[1..], values[1..]);
      forall j | 0 <= j < |vs| && vs[j].name == name && forall k :: 0 <= k < j ==> vs[k].name != name
        ensures StatusOf(name, vs, values) == values[j]
      {
        assert forall k :: 0 <= k < j - 1 ==> vs[1..][k].name == vs[k + 1].name;
        assert vs[1..][j - 1] == vs[j] && values[1..][j - 1] == values[j];
      }
    }
  }

  /** The least index of a variable of that name, if there is one. */
  lemma {:induction false} FirstNamed(name: string, vs: seq<Variable>) returns (j: nat)
    ensures j <= |vs| && (forall k :: 0 <= k < j ==> vs[k].name != name) && (j < |vs| ==> vs[j].name == name)
  {
    if vs == [] || vs[0].name == name {
      j := 0;
    } else {
      var i := FirstNamed(name, vs[1..]);
      j := i + 1;
      assert forall k :: 0 < k < j ==> vs[k] == vs[1..][k - 1];
    }
  }

  lemma OnlineMeans(d: Device, values: seq<Option<nat>>)
    requires |values| == |d.variables|
    ensures IsOnline(d, values) <==>
              exists j :: 0 <= j < |d.variables| && d.variables[j].name == d.name + "_status"
                && (forall k :: 0 <= k < j ==> d.variables[k].name != d.name + "_status")
                && values[j].Some? && values[j].value % 0x1_0000 == 0
  {
    var name := d.name + "_status";
    StatusIsFirst(name, d.variables, values);
    var j := FirstNamed(name, d.variables);
    hide StatusOf;
    if j < |d.variables| {
      assert StatusOf(name, d.variables, values) == values[j];
    }
  }

  /**
   One pass over devices with the values read before it: the nodes of a device with
   a name exist afterwards exactly when its first variable called like the device
   and "_status" has a value of which the low 16 bits are 0, and the device had an
   address or was given one that the interface accepts.
   */
  lemma PassFollowsStatus(c: Config, f: Fleet, values: seq<seq<Option<nat>>>, accepts: Interface)
    requires |values| == |f.devices|
    requires forall i :: 0 <= i < |f.devices| ==> Whole(f.devices[i]) && |values[i]| == |f.devices[i].variables|
    ensures var online := OnlineOf(f.devices, values);
      var r := Pass(c, f, online, accepts);
      forall i :: 0 <= i < |f.devices| && f.devices[i].name != "" ==>
        var d := f.devices[i];
        (r.devices[i].node <==>
           && (exists j :: 0 <= j < |d.variables| && d.variables[j].name == d.name + "_status"
                 && (forall k :: 0 <= k < j ==> d.variables[k].name != d.name + "_status")
                 && values[i][j].Some? && values[i][j].value % 0x1_0000 == 0)
           && Addressable(c, CounterAt(c, f, online, accepts, i), d, accepts))
  {
    hide IsOnline, Pass, Addressable, CounterAt, Whole;
    var online := OnlineOf(f.devices, values);
    PassMeans(c, f, online, accepts);
    forall i | 0 <= i < |f.devices|
      ensures online[i] <==>
        exists j :: 0 <= j < |f.devices[i].variables| && f.devices[i].variables[j].name == f.devices[i].name + "_status"
          && (forall k :: 0 <= k < j ==> f.devices[i].variables[k].name != f.devices[i].name + "_status")
          && values[i][j].Some? && values[i][j].value % 0x1_0000 == 0
    {
      OnlineMeans(f.devices[i], values[i]);
    }
  }

  class DeviceManager {
    const pool: AddressPool
    var devices: seq<Device>

    constructor (pool: AddressPool, devices: seq<Device>)
      ensures this.pool == pool && this.devices == devices
    {
      this.pool, this.devices := pool, devices;
    }

    ghost predicate Valid()
      reads this, pool
    {
      && pool.Valid() && Small(pool.Range()) && pool.counter <= Size(pool.Range())
      && OnlyCounted(pool.Range(), pool.counter, pool.inUse)
    }

    ghost function Range(): Config
      reads this, pool
      requires Valid()
    {
      pool.Range()
    }

    ghost function State(): Fleet
      reads this, pool
    {
      Fleet(devices, pool.counter)
    }

    /**
     `ipv6_allocate_address`: `written` is what it has written into the buffer of
     the caller. A refused address leaves the list of the pool, but not the buffer.
     */
    method Allocate(accepts: Interface) returns (ok: bool, written: Option<nat>)
      requires Valid()
      modifies pool
      ensures Valid() && Range() == old(Range())
      ensures written == Drawn(Range(), old(pool.counter))
      ensures ok <==> Take(Range(), old(pool.counter), accepts).Some?
      ensures ok ==> written.Some? && Take(Range(), old(pool.counter), accepts) == written
      ensures pool.counter == CounterAfterTake(Range(), old(pool.counter))
    {
      hide Address.TextOf, Address.Value;
      written := pool.GenerateAddress();
      ok := written.Some? && accepts(written.value);
      if written.Some? && !ok {
        RemoveKeeps(pool.inUse, Address.TextOf(written.value));
        pool.Forget(Address.TextOf(written.value));
      }
    }

    /** The loop of `addDeviceNodes`: every variable keeps its address or gets one, and a node. */
    method AddVariableNodes(vs: seq<Variable>, accepts: Interface) returns (added: seq<Variable>)
      requires Valid()
      modifies pool
      ensures Valid() && Range() == old(Range())
      ensures added == AddVariables(Range(), old(pool.counter), vs, accepts)
      ensures pool.counter == CounterAfterVariables(Range(), old(pool.counter), vs)
    {
      hide Take, CounterAfterTake, Valid, OnlyCounted, AddVariables, CounterAfterVariables;
      added := [];
      var i := 0;
      ghost var c, k := Range(), pool.counter;
      assert vs[0..] == vs;
      while i < |vs|
        invariant 0 <= i <= |vs| && Valid() && Range() == c
        invariant AddVariables(c, k, vs, accepts) == added + AddVariables(c, pool.counter, vs[i..], accepts)
        invariant CounterAfterVariables(c, k, vs) == CounterAfterVariables(c, pool.counter, vs[i..])
      {
        AddedStep(added, c, pool.counter, vs, i, accepts);
        var v := vs[i];
        var address := v.address;
        if address.None? {
          var ok, written := Allocate(accepts);
          address := if ok then written else None;
        }
        added := added + [Variable(v.name, address, true)];
        i := i + 1;
      }
      AddVariablesHead(c, pool.counter, vs[i..], accepts);
    }

    /** `addDeviceNodes` for a device that has an address and no node yet. */
    method AddDeviceNodes(i: nat, accepts: Interface)
      requires Valid() && i < |devices| && devices[i].address.Some?
      modifies this, pool
      ensures Valid() && Range() == old(Range())
      ensures var m := WithNodes(Range(), old(pool.counter), old(devices)[i], accepts);
        devices == old(devices)[i := m.device] && pool.counter == m.counter
    {
      var d := devices[i];
      var added := AddVariableNodes(d.variables, accepts);
      devices := devices[i := Device(d.name, d.address, true, added)];
    }

    /** `deleteDeviceNodes`: the nodes go, the addresses stay. */
    method DeleteDeviceNodes(i: nat)
      requires i < |devices|
      modifies this
      ensures var d := old(devices)[i];
        devices == old(devices)[i := Device(d.name, d.address, false, Deleted(d.variables))]
    {
      var d := devices[i];
      var vs, j := d.variables, 0;
      while j < |vs|
        invariant 0 <= j <= |vs| == |d.variables|
        invariant forall k :: 0 <= k < j ==> vs[k] == Variable(d.variables[k].name, d.variables[k].address, false)
        invariant forall k :: j <= k < |vs| ==> vs[k] == d.variables[k]
      {
        vs := vs[j := Variable(vs[j].name, vs[j].address, false)];
        j := j + 1;
      }
      assert vs == Deleted(d.variables);
      devices := devices[i := Device(d.name, d.address, false, vs)];
    }

    /** The loop that looks for the status variable of a device. */
    method ReadStatus(d: Device, values: seq<Option<nat>>) returns (online: bool)
      requires |values| == |d.variables|
      ensures online <==>
                exists j :: 0 <= j < |d.variables| && d.variables[j].name == d.name + "_status"
                  && (forall k :: 0 <= k < j ==> d.variables[k].name != d.name + "_status")
                  && values[j].Some? && values[j].value % 0x1_0000 == 0
    {
      online := false;
      var name := d.name + "_status";
      var j := 0;
      while j < |d.variables|
        invariant 0 <= j <= |d.variables| && !online
        invariant forall k :: 0 <= k < j ==> d.variables[k].name != name
      {
        if d.variables[j].name == name {
          if values[j].Some? {
            online := values[j].value % 0x1_0000 == 0;
          }
          return;
        }
        j := j + 1;
      }
    }

    /** What the management pass does with one device. */
    method ManageDevice(i: nat, online: bool, accepts: Interface)
      requires Valid() && i < |devices|
      modifies this, pool
      ensures Valid() && Range() == old(Range())
      ensures var m := Manage(Range(), old(pool.counter), old(devices)[i], online, accepts);
        devices == old(devices)[i := m.device] && pool.counter == m.counter
    {
      hide WithNodes, Take, CounterAfterTake, OnlyCounted;
      var d := devices[i];
      assert devices[i := d] == devices;
      if d.name == "" {
        return;
      }
      if online {
        if !d.node {
          if d.address.Some? {
            AddDeviceNodes(i, accepts);
          } else {
            var ok, written := Allocate(accepts);
            devices := devices[i := d.(address := written)];
            if ok {
              AddDeviceNodes(i, accepts);
            }
          }
        }
      } else if d.node {
        DeleteDeviceNodes(i);
      }
    }

    /** The management part of a polling round. */
    method ManagementPass(values: seq<seq<Option<nat>>>, accepts: Interface)
      requires Valid() && |values| == |devices| && forall i :: 0 <= i < |devices| ==> |values[i]| == |devices[i].variables|
      modifies this, pool
      ensures Valid() && Range() == old(Range())
      ensures State() == Pass(Range(), old(State()), OnlineOf(old(devices), values), accepts)
    {
      hide Manage, IsOnline, Valid;
      ghost var c, before := Range(), devices;
      ghost var online := OnlineOf(devices, values);
      ghost var goal := Pass(c, State(), online, accepts);
      var i := 0;
      while i < |devices|
        invariant 0 <= i <= |devices| == |before| && Valid() && Range() == c
        invariant devices[i..] == before[i..]
        invariant goal == Continued(c, devices, pool.counter, online, accepts, i)
      {
        assert devices[i] == devices[i..][0] == before[i];
        PassStep(c, devices, pool.counter, online, accepts, i);
        var isOnline := ReadStatus(devices[i], values[i]);
        OnlineMeans(devices[i], values[i]);
        ManageDevice(i, isOnline, accepts);
        i := i + 1;
      }
    }
  }

  lemma AddedStep(added: seq<Variable>, c: Config, counter: nat, vs: seq<Variable>, i: nat, accepts: Interface)
    requires i < |vs|
    ensures var next := CounterAfterAdd(c, counter, vs[i]);
      && added + AddVariables(c, counter, vs[i..], accepts)
         == (added + [Addressed(c, counter, vs[i], accepts)]) + AddVariables(c, next, vs[i + 1..], accepts)
      && CounterAfterVariables(c, counter, vs[i..]) == CounterAfterVariables(c, next, vs[i + 1..])
  {
    AddVariablesHead(c, counter, vs[i..], accepts);
    assert vs[i..][1..] == vs[i + 1..];
    var r := AddVariables(c, counter, vs[i..], accepts);
    hide AddVariables;
    assert r == [r[0]] + r[1..];
  }

  /** The outcome of the pass when the devices before `i` have been dealt with. */
  function Continued(c: Config, ds: seq<Device>, counter: nat, online: seq<bool>, accepts: Interface, i: nat): Fleet
    requires i <= |ds| == |online|
  {
    var rest := Pass(c, Fleet(ds[i..], counter), online[i..], accepts);
    Fleet(ds[..i] + rest.devices, rest.counter)
  }

  lemma PassStep(c: Config, ds: seq<Device>, counter: nat, online: seq<bool>, accepts: Interface, i: nat)
    requires i < |ds| == |online|
    ensures var m := Manage(c, counter, ds[i], online[i], accepts);
      Continued(c, ds, counter, online, accepts, i) == Continued(c, ds[i := m.device], m.counter, online, accepts, i + 1)
  {
    hide Manage;
    var m := Manage(c, counter, ds[i], online[i], accepts);
    var es := ds[i := m.device];
    assert ds[i..][1..] == ds[i + 1..] == es[i + 1..] && online[i..][1..] == online[i + 1..];
    assert es[..i + 1] == ds[..i] + [m.device];
    var rest := Pass(c, Fleet(ds[i + 1..], m.counter), online[i + 1..], accepts);
    hide Pass;
    assert ds[..i] + ([m.device] + rest.devices) == (ds[..i] + [m.device]) + rest.devices;
  }
}
