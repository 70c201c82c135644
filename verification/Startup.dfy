/**
 The tables of devices and variables that the server makes of the records of its
 configuration before the first poll.
 */
module Startup {
  import opened Bytes
  import opened Sequences
  import Lifecycle

  /** A record: the name of a device, and that of one of its variables. */
  datatype Record = Record(device: string, node: string)

  // --- The names of the devices --------------------------------------------------------

  /** How often the name changes from record to record, `current` being the name before the first. */
  function Changes(rs: seq<Record>, current: string): nat
  {
    if rs == [] then 0
    else if rs[0].device == current then Changes(rs[1..], current)
    else 1 + Changes(rs[1..], rs[0].device)
  }

  /** The names that differ from the last one entered in the table; records without a name do not count. */
  function Entered(rs: seq<Record>, last: string): seq<string>
  {
    if rs == [] then []
    else if rs[0].device == "" || rs[0].device == last then Entered(rs[1..], last)
    else [rs[0].device] + Entered(rs[1..], rs[0].device)
  }

  /** The table has room for all names that are entered. */
  lemma {:induction false} EnteredFit(rs: seq<Record>, current: string, last: string)
    requires current == "" || current == last
    ensures |Entered(rs, last)| <= Changes(rs, current)
    decreases |rs|
  {
    if rs != [] {
      var name := rs[0].device;
      EnteredFit(rs[1..], name, if name == "" then last else name);
      if name == current {
        EnteredFit(rs[1..], current, last);
      }
    }
  }

  function Blank(n: nat): (r: seq<string>)
    ensures |r| == n && forall i :: 0 <= i < n ==> r[i] == ""
  {
    if n == 0 then [] else [""] + Blank(n - 1)
  }

  /** The names in the table; places that are left over stay empty. */
  function DeviceNames(rs: seq<Record>): seq<string>
  {
    EnteredFit(rs, "", "");
    Entered(rs, "") + Blank(Changes(rs, "") - |Entered(rs, "")|)
  }

  /** The first loop of `createDeviceNodes`. */
  method CountDevices(rs: seq<Record>) returns (count: nat)
    ensures count == Changes(rs, "")
  {
    count := 0;
    var current, i := "", 0;
    while i < |rs|
      invariant 0 <= i <= |rs|
      invariant count + Changes(rs[i..], current) == Changes(rs, "")
    {
      assert rs[i..][1..] == rs[i + 1..];
      if rs[i].device != current {
        count := count + 1;
        current := rs[i].device;
      }
      i := i + 1;
    }
  }

  function Last(s: seq<string>): string
  {
    if s == [] then "" else s[|s| - 1]
  }

  lemma EnterStep(before: seq<string>, rs: seq<Record>, i: nat)
    requires i < |rs|
    ensures var name := rs[i].device;
      before + Entered(rs[i..], Last(before))
        == if name == "" || name == Last(before) then before + Entered(rs[i + 1..], Last(before))
           else (before + [name]) + Entered(rs[i + 1..], Last(before + [name]))
  {
    var name := rs[i].device;
    assert rs[i..][1..] == rs[i + 1..];
    assert before + ([name] + Entered(rs[i + 1..], name)) == (before + [name]) + Entered(rs[i + 1..], name);
  }

  /** The second loop: the names go into a table that has just been cleared. */
  method EnterDevices(rs: seq<Record>, count: nat) returns (names: array<string>)
    requires count == Changes(rs, "")
    ensures fresh(names) && names[..] == DeviceNames(rs)
  {
    hide Entered, Changes, DeviceNames, Blank, Last;
    EnteredFit(rs, "", "");
    names := new string[count](_ => "");
    var index, i := 0, 0;
    LastIs(names[..index]);
    while i < |rs|
      invariant 0 <= i <= |rs| && index <= count
      invariant names[..index] + Entered(rs[i..], Last(names[..index])) == Entered(rs, "")
      invariant forall k :: index <= k < count ==> names[k] == ""
    {
      ghost var before := names[..index];
      EnterStep(before, rs, i);
      LastIs(before);
      if rs[i].device != "" && (index == 0 || rs[i].device != names[index - 1]) {
        names[index] := rs[i].device;
        index := index + 1;
        assert names[..index] == before + [rs[i].device];
      }
      i := i + 1;
    }
    Filled(names[..], rs, index);
  }

  lemma LastIs(s: seq<string>)
    ensures Last(s) == if s == [] then "" else s[|s| - 1]
  {
  }

  /** When no record is left the table is complete. */
  lemma Filled(names: seq<string>, rs: seq<Record>, index: nat)
    requires |names| == Changes(rs, "") && index <= |names|
    requires names[..index] + Entered(rs[|rs|..], Last(names[..index])) == Entered(rs, "")
    requires forall k :: index <= k < |names| ==> names[k] == ""
    ensures names == DeviceNames(rs)
  {
    EnteredFit(rs, "", "");
    assert Entered(rs[|rs|..], Last(names[..index])) == [];
    hide Entered, Changes;
    assert names[..index] == Entered(rs, "");
    assert names == names[..index] + names[index..];
    assert names[index..] == Blank(|names| - index);
  }

  // --- The variables of a device -----------------------------------------------------------

  /** The variables in the records of a device, without addresses and nodes. */
  function VariablesOf(rs: seq<Record>, name: string): seq<Lifecycle.Variable>
  {
    if rs == [] then []
    else (if rs[0].device == name then [Lifecycle.Variable(rs[0].node, None, false)] else []) + VariablesOf(rs[1..], name)
  }

  /** The loops of `createDeviceNodes` that count and then enter the variables of a device. */
  method EnterVariables(rs: seq<Record>, name: string) returns (vars: array<Lifecycle.Variable>)
    ensures fresh(vars) && vars[..] == VariablesOf(rs, name)
  {
    var count, j := 0, 0;
    while j < |rs|
      invariant 0 <= j <= |rs|
      invariant count + |VariablesOf(rs[j..], name)| == |VariablesOf(rs, name)|
    {
      assert rs[j..][1..] == rs[j + 1..];
      if rs[j].device == name {
        count := count + 1;
      }
      j := j + 1;
    }
    vars := new Lifecycle.Variable[count](_ => Lifecycle.Variable("", None, false));
    var index := 0;
    j := 0;
    while j < |rs|
      invariant 0 <= j <= |rs| && index + |VariablesOf(rs[j..], name)| == count
      invariant vars[..index] + VariablesOf(rs[j..], name) == VariablesOf(rs, name)
    {
      assert rs[j..][1..] == rs[j + 1..];
      if rs[j].device == name {
        var v, rest := Lifecycle.Variable(rs[j].node, None, false), VariablesOf(rs[j + 1..], name);
        assert vars[..index] + ([v] + rest) == (vars[..index] + [v]) + rest;
        vars[index] := v;
        index := index + 1;
        assert vars[..index - 1] + [v] == vars[..index];
      }
      j := j + 1;
    }
    assert vars[..index] == vars[..];
  }

  lemma {:induction false} VariablesUntouched(rs: seq<Record>, name: string)
    ensures forall v | v in VariablesOf(rs, name) :: v.address == None && !v.node
  {
    if rs != [] {
      VariablesUntouched(rs[1..], name);
    }
  }

  function DevicesFrom(rs: seq<Record>, names: seq<string>): (ds: seq<Lifecycle.Device>)
    ensures |ds| == |names|
    ensures forall i :: 0 <= i < |ds| ==> ds[i] == Lifecycle.Device(names[i], None, false, VariablesOf(rs, names[i]))
  {
    if names == [] then []
    else [Lifecycle.Device(names[0], None, false, VariablesOf(rs, names[0]))] + DevicesFrom(rs, names[1..])
  }

  /** `createDeviceNodes`: the fleet before the first poll. */
  method CreateDeviceNodes(rs: seq<Record>) returns (devices: seq<Lifecycle.Device>)
    ensures devices == DevicesFrom(rs, DeviceNames(rs))
    ensures forall d | d in devices :: Lifecycle.Untouched(d)
  {
    hide DeviceNames, VariablesOf, DevicesFrom;
    var count := CountDevices(rs);
    var table := EnterDevices(rs, count);
    ghost var names := DeviceNames(rs);
    devices := [];
    var i := 0;
    while i < table.Length
      invariant 0 <= i <= table.Length && table[..] == names
      invariant devices == DevicesFrom(rs, names)[..i]
    {
      var vars := EnterVariables(rs, table[i]);
      assert table[..][i] == names[i];
      devices := devices + [Lifecycle.Device(table[i], None, false, vars[..])];
      i := i + 1;
    }
    AllUntouched(rs, names);
  }

  lemma AllUntouched(rs: seq<Record>, names: seq<string>)
    ensures forall d | d in DevicesFrom(rs, names) :: Lifecycle.Untouched(d)
  {
    forall d | d in DevicesFrom(rs, names) ensures Lifecycle.Untouched(d) {
      VariablesUntouched(rs, d.name);
      assert forall k :: 0 <= k < |d.variables| ==> d.variables[k] in VariablesOf(rs, d.name);
    }
  }

  // --- Each record once --------------------------------------------------------------------

  /** The records of a device are together, but for records without a name. */
  ghost predicate Together(rs: seq<Record>)
  {
    forall i, j, k :: !Interrupted(rs, i, j, k)
  }

  /** Between two records of a device there is one of another. */
  predicate Interrupted(rs: seq<Record>, i: int, j: int, k: int)
  {
    && 0 <= i < j < k < |rs|
    && rs[i].device == rs[k].device && rs[i].device != ""
    && rs[j].device != "" && rs[j].device != rs[i].device
  }

  /** Exactly the names of the records are entered. */
  lemma {:induction false} EnteredNames(rs: seq<Record>, last: string)
    ensures forall name | name in Entered(rs, last) :: name != "" && exists k :: 0 <= k < |rs| && rs[k].device == name
    ensures forall k :: 0 <= k < |rs| && rs[k].device != "" ==> rs[k].device in [last] + Entered(rs, last)
    decreases |rs|
  {
    if rs != [] {
      var name := rs[0].device;
      var next := if name == "" then last else name;
      EnteredNames(rs[1..], next);
      forall n | n in Entered(rs, last) ensures n != "" && exists k :: 0 <= k < |rs| && rs[k].device == n {
        if n in Entered(rs[1..], next) {
          var k :| 0 <= k < |rs[1..]| && rs[1..][k].device == n;
          assert rs[k + 1].device == n;
        } else {
          assert rs[0].device == n;
        }
      }
      forall k | 0 <= k < |rs| && rs[k].device != "" ensures rs[k].device in [last] + Entered(rs, last) {
        assert k > 0 ==> rs[k] == rs[1..][k - 1];
      }
    }
  }

  lemma DropSecond(rs: seq<Record>)
    requires |rs| > 1 && rs[0].device != "" && (rs[1].device == "" || rs[1].device == rs[0].device)
    ensures Together(rs) <==> Together([rs[0]] + rs[2..])
  {
    var ss := [rs[0]] + rs[2..];
    if Together(rs) {
      forall i, j, k ensures !Interrupted(ss, i, j, k) {
        if Interrupted(ss, i, j, k) {
          assert Interrupted(rs, if i == 0 then 0 else i + 1, j + 1, k + 1);
        }
      }
    }
    if Together(ss) {
      forall i, j, k ensures !Interrupted(rs, i, j, k) {
        if Interrupted(rs, i, j, k) {
          assert j > 1;
          assert Interrupted(ss, if i <= 1 then 0 else i - 1, j - 1, k - 1);
        }
      }
    }
  }

  lemma TailTogether(rs: seq<Record>)
    requires rs != []
    ensures Together(rs) <==> Together(rs[1..]) && forall j, k :: !Interrupted(rs, 0, j, k)
  {
    if Together(rs) {
      forall i, j, k ensures !Interrupted(rs[1..], i, j, k) {
        if i >= 0 {
          assert Interrupted(rs[1..], i, j, k) <==> Interrupted(rs, i + 1, j + 1, k + 1);
        }
      }
    }
    if Together(rs[1..]) && forall j, k :: !Interrupted(rs, 0, j, k) {
      forall i, j, k ensures !Interrupted(rs, i, j, k) {
        if i > 0 {
          assert Interrupted(rs[1..], (i - 1), (j - 1), (k - 1)) <==> Interrupted(rs, (i - 1) + 1, (j - 1) + 1, (k - 1) + 1);
        }
      }
    }
  }

  lemma DropFirst(rs: seq<Record>)
    requires |rs| > 1 && rs[0].device != "" && rs[1].device != "" && rs[1].device != rs[0].device
    ensures Together(rs) <==> Together(rs[1..]) && forall k :: 1 <= k < |rs| ==> rs[k].device != rs[0].device
  {
    TailTogether(rs);
    hide Together;
    if forall j, k :: !Interrupted(rs, 0, j, k) {
      forall k | 1 <= k < |rs| ensures rs[k].device != rs[0].device {
        assert !Interrupted(rs, 0, 1, k);
      }
    }
  }

  lemma {:induction false} EnteredOnce(rs: seq<Record>)
    requires rs != [] && rs[0].device != ""
    ensures NoDuplicates(Entered(rs, "")) <==> Together(rs)
    decreases |rs|
  {
    var name := rs[0].device;
    assert Entered(rs, "") == [name] + Entered(rs[1..], name);
    if |rs| == 1 {
      assert Entered(rs[1..], name) == [];
    } else if rs[1].device == "" || rs[1].device == name {
      var ss := [rs[0]] + rs[2..];
      assert rs[1..][1..] == rs[2..] && ss[1..] == rs[2..];
      DropSecond(rs);
      EnteredOnce(ss);
    } else {
      DropFirst(rs);
      EnteredOnce(rs[1..]);
      FirstOnce(rs);
    }
  }

  lemma FirstOnce(rs: seq<Record>)
    requires |rs| > 1 && rs[0].device != "" && rs[1].device != "" && rs[1].device != rs[0].device
    ensures var name := rs[0].device;
      NoDuplicates(Entered(rs, "")) <==> NoDuplicates(Entered(rs[1..], "")) && forall k :: 1 <= k < |rs| ==> rs[k].device != name
  {
    var name, more := rs[0].device, Entered(rs[1..], "");
    assert Entered(rs[1..], name) == more;
    assert Entered(rs, "") == [name] + more;
    EnteredNames(rs[1..], "");
    assert name in more <==> exists k :: 1 <= k < |rs| && rs[k].device == name by {
      if name in more {
        var k :| 0 <= k < |rs[1..]| && rs[1..][k].device == name;
        assert rs[k + 1].device == name;
      }
      if k :| 1 <= k < |rs| && rs[k].device == name {
        assert rs[1..][k - 1].device == name;
      }
    }
    ConsOnce(name, more);
  }

  lemma ConsOnce(x: string, s: seq<string>)
    ensures NoDuplicates([x] + s) <==> x !in s && NoDuplicates(s)
  {
    var t := [x] + s;
    assert forall i :: 0 <= i < |s| ==> t[i + 1] == s[i];
    if NoDuplicates(t) {
      forall i, j | 0 <= i < j < |s| ensures s[i] != s[j] {
        assert t[i + 1] != t[j + 1];
      }
      forall i | 0 <= i < |s| ensures s[i] != x {
        assert t[0] != t[i + 1];
      }
    }
  }

  lemma {:induction false} SkipNameless(rs: seq<Record>)
    ensures NoDuplicates(Entered(rs, "")) <==> Together(rs)
    decreases |rs|
  {
    if rs != [] {
      if rs[0].device == "" {
        SkipNameless(rs[1..]);
        NamelessFirst(rs);
      } else {
        EnteredOnce(rs);
      }
    }
  }

  lemma NamelessFirst(rs: seq<Record>)
    requires rs != [] && rs[0].device == ""
    ensures Together(rs) <==> Together(rs[1..])
  {
    TailTogether(rs);
    hide Together;
  }

  /** The record is one of the variables of a device of its name. */
  predicate Belongs(r: Record, d: Lifecycle.Device)
  {
    d.name == r.device && Lifecycle.Variable(r.node, None, false) in d.variables
  }

  ghost predicate NamesOnce(ds: seq<Lifecycle.Device>)
  {
    forall i, j :: 0 <= i < j < |ds| && ds[i].name != "" ==> ds[i].name != ds[j].name
  }

  /** A device has a variable for each record with its name, as often as it occurs, and no other. */
  ghost predicate HasItsRecords(d: Lifecycle.Device, rs: seq<Record>)
  {
    && (forall v | v in d.variables :: v.address == None && !v.node)
    && (forall node :: multiset(d.variables)[Lifecycle.Variable(node, None, false)] == multiset(rs)[Record(d.name, node)])
  }

  lemma {:induction false} VariablesCount(rs: seq<Record>, d: Lifecycle.Device)
    requires d.variables == VariablesOf(rs, d.name)
    ensures HasItsRecords(d, rs)
  {
    if rs != [] {
      VariablesCount(rs[1..], d.(variables := VariablesOf(rs[1..], d.name)));
      MultisetHead(rs);
    }
  }

  /**
   Every record with the name of a device is among the variables of an entry of
   that name, and an entry has the variables of its records only. No device has two entries, so that no record becomes two
   variables, exactly when the records of each device are together.
   */
  lemma EachRecordOnce(rs: seq<Record>)
    ensures var ds := DevicesFrom(rs, DeviceNames(rs));
      && (forall r | r in rs && r.device != "" :: exists d | d in ds :: Belongs(r, d))
      && (forall d | d in ds :: HasItsRecords(d, rs))
      && (NamesOnce(ds) <==> Together(rs))
  {
    hide Together, VariablesOf, Entered, Changes, NamesOnce, NoDuplicates, Belongs, DeviceNames, HasItsRecords;
    forall d | d in DevicesFrom(rs, DeviceNames(rs)) ensures HasItsRecords(d, rs) {
      VariablesCount(rs, d);
    }
    forall r | r in rs && r.device != "" ensures exists d | d in DevicesFrom(rs, DeviceNames(rs)) :: Belongs(r, d) {
      var d := RecordEntered(rs, r);
    }
    NamesTable(rs);
    EnteredNames(rs, "");
    SkipNameless(rs);
    SameOnce(Entered(rs, ""), DevicesFrom(rs, DeviceNames(rs)));
  }

  lemma NamesTable(rs: seq<Record>)
    ensures var entered, ds := Entered(rs, ""), DevicesFrom(rs, DeviceNames(rs));
      && |entered| <= |ds|
      && forall i :: 0 <= i < |ds| ==> ds[i].name == if i < |entered| then entered[i] else ""
  {
    hide VariablesOf, Entered, Changes;
    EnteredFit(rs, "", "");
  }

  lemma RecordEntered(rs: seq<Record>, r: Record) returns (d: Lifecycle.Device)
    requires r in rs && r.device != ""
    ensures d in DevicesFrom(rs, DeviceNames(rs)) && Belongs(r, d)
  {
    hide VariablesOf, Entered, DeviceNames;
    var ds := DevicesFrom(rs, DeviceNames(rs));
    var k :| 0 <= k < |rs| && rs[k] == r;
    EnteredNames(rs, "");
    var entered := Entered(rs, "");
    var i :| 0 <= i < |entered| && entered[i] == r.device;
    NamesTable(rs);
    RecordAmong(rs, k);
    d := ds[i];
  }

  lemma SameOnce(entered: seq<string>, ds: seq<Lifecycle.Device>)
    requires |entered| <= |ds| && forall i :: 0 <= i < |ds| ==> ds[i].name == if i < |entered| then entered[i] else ""
    requires forall name | name in entered :: name != ""
    ensures NamesOnce(ds) <==> NoDuplicates(entered)
  {
    if NamesOnce(ds) {
      forall i, j | 0 <= i < j < |entered| ensures entered[i] != entered[j] {
        assert entered[i] in entered && ds[i].name == entered[i] && ds[j].name == entered[j];
      }
    }
  }

  lemma {:induction false} RecordAmong(rs: seq<Record>, k: nat)
    requires k < |rs|
    ensures Lifecycle.Variable(rs[k].node, None, false) in VariablesOf(rs, rs[k].device)
  {
    if k > 0 {
      assert rs[1..][k - 1] == rs[k];
      RecordAmong(rs[1..], k - 1);
    }
  }
}
