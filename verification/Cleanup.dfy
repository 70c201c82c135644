/**
 Taking all addresses of the pool off the network interface when the program
 ends: those it remembers, and those of the pool's range that the system reports.
 */
module Cleanup {
  import opened Bytes
  import opened Sequences
  import opened Address
  import opened Pool
  import opened Threads

  /** The network interface. Deleting an address it does not have succeeds, too. */
  class Interface {
    var addresses: set<string>

    constructor (addresses: set<string>)
      ensures this.addresses == addresses
    {
      this.addresses := addresses;
    }

    /** `delete_unicast_ipv6_address`. */
    method Delete(text: string, refused: bool) returns (ok: bool)
      modifies this
      ensures ok == !refused
      ensures addresses == if ok then old(addresses) - {text} else old(addresses)
    {
      ok := !refused;
      if ok {
        addresses := addresses - {text};
      }
    }
  }

  function Texts(list: seq<string>): set<string>
  {
    set t | t in list
  }

  /** `ipv6_address_in_range` for addresses written in full. */
  predicate InRange(c: Config, text: string)
  {
    var n := NumberOf(text);
    n.Some? && c.start <= n.value <= c.end
  }

  lemma InRangeIff(c: Config, n: nat)
    requires n < ADDRESSES
    ensures InRange(c, TextOf(n)) <==> c.start <= n <= c.end
  {
    TextRoundTrip(n);
  }

  function InRangeOf(c: Config, list: seq<string>): set<string>
  {
    set t | t in list && InRange(c, t)
  }

  /** `addr_list_add_unique`, with the search of `addr_list_contains`. */
  method AddUniqueTo(list: seq<string>, text: string) returns (extended: seq<string>)
    ensures extended == AddUnique(list, text) == if text == "" || text in list then list else [text] + list
  {
    if text == "" {
      return list;
    }
    var i := 0;
    while i < |list|
      invariant 0 <= i <= |list| && text !in list[..i]
    {
      if list[i] == text {
        return list;
      }
      i := i + 1;
    }
    assert list[..i] == list;
    return [text] + list;
  }

  lemma AddUniqueTexts(list: seq<string>, text: string)
    requires text != ""
    ensures Texts(AddUnique(list, text)) == Texts(list) + {text}
    ensures NoDuplicates(list) ==> NoDuplicates(AddUnique(list, text))
  {
  }

  /** The loop that copies one list to another. */
  method CopyUnique(cleanup: seq<string>, list: seq<string>) returns (extended: seq<string>)
    requires "" !in list
    ensures Texts(extended) == Texts(cleanup) + Texts(list)
    ensures NoDuplicates(cleanup) ==> NoDuplicates(extended)
  {
    hide AddUnique, NoDuplicates;
    extended := cleanup;
    var i := 0;
    while i < |list|
      invariant 0 <= i <= |list| && Texts(extended) == Texts(cleanup) + Texts(list[..i])
      invariant NoDuplicates(cleanup) ==> NoDuplicates(extended)
    {
      AddUniqueTexts(extended, list[i]);
      assert list[i] in list;
      extended := AddUniqueTo(extended, list[i]);
      assert list[..i + 1] == list[..i] + [list[i]];
      i := i + 1;
    }
    assert list[..i] == list;
  }

  /** The loop over the addresses that the system reports. */
  method CopyInRange(cleanup: seq<string>, c: Config, system: seq<string>) returns (extended: seq<string>)
    ensures Texts(extended) == Texts(cleanup) + InRangeOf(c, system)
    ensures NoDuplicates(cleanup) ==> NoDuplicates(extended)
  {
    hide AddUnique, NumberOf, NoDuplicates;
    extended := cleanup;
    var i := 0;
    while i < |system|
      invariant 0 <= i <= |system| && Texts(extended) == Texts(cleanup) + InRangeOf(c, system[..i])
      invariant NoDuplicates(cleanup) ==> NoDuplicates(extended)
    {
      assert system[..i + 1] == system[..i] + [system[i]];
      if InRange(c, system[i]) {
        NotEmpty(c, system[i]);
        AddUniqueTexts(extended, system[i]);
        extended := AddUniqueTo(extended, system[i]);
      }
      i := i + 1;
    }
    assert system[..i] == system;
  }

  lemma NotEmpty(c: Config, text: string)
    requires InRange(c, text)
    ensures text != ""
  {
    assert Scan("", 8) == None;
  }

  /** What is to be deleted. */
  function Targets(c: Config, tracked: seq<string>, inUse: seq<string>, system: Option<seq<string>>): set<string>
  {
    Texts(tracked) + Texts(inUse) + match system case None => {} case Some(list) => InRangeOf(c, list)
  }

  /**
   `ipv6_remove_all_allocated_addresses`; `system` is what the interface reports, or
   none if that failed, and `refused` are the addresses the system does not delete.
   Exactly the targets that are not refused are gone: the addresses tracked, those in
   use and the reported ones of the pool. Both lists are empty.
   */
  method RemoveAll(pool: AddressPool, c: Config, nic: Interface, index: int, system: Option<seq<string>>, refused: set<string>)
    requires "" !in pool.inUse && "" !in pool.interfaceAddrs
    modifies pool, nic
    ensures index <= 0 ==>
      nic.addresses == old(nic.addresses) && pool.inUse == old(pool.inUse) && pool.interfaceAddrs == old(pool.interfaceAddrs)
    ensures index > 0 ==> pool.inUse == [] && pool.interfaceAddrs == []
    ensures index > 0 ==>
      nic.addresses == old(nic.addresses) - (Targets(c, old(pool.interfaceAddrs), old(pool.inUse), system) - refused)
    ensures index > 0 ==> forall t :: t in nic.addresses <==>
      && t in old(nic.addresses)
      && (t in refused
          || (&& t !in old(pool.interfaceAddrs) && t !in old(pool.inUse)
              && (system.None? || t !in system.value || !InRange(c, t))))
  {
    if index <= 0 {
      return;
    }
    hide InRange, Remove;
    var cleanup := CopyUnique([], pool.interfaceAddrs);
    cleanup := CopyUnique(cleanup, pool.inUse);
    match system {
      case None =>
      case Some(list) => cleanup := CopyInRange(cleanup, c, list);
    }
    assert Texts(cleanup) == Targets(c, pool.interfaceAddrs, pool.inUse, system);
    var i := 0;
    while i < |cleanup|
      invariant 0 <= i <= |cleanup|
      invariant nic.addresses == old(nic.addresses) - (Texts(cleanup[..i]) - refused)
      modifies nic, pool`interfaceAddrs
    {
      var ok := nic.Delete(cleanup[i], cleanup[i] in refused);
      if ok {
        pool.interfaceAddrs := Remove(pool.interfaceAddrs, cleanup[i]);
      }
      assert cleanup[..i + 1] == cleanup[..i] + [cleanup[i]];
      i := i + 1;
    }
    assert cleanup[..i] == cleanup;
    pool.inUse := [];
    pool.interfaceAddrs := [];
  }

  /**
   If the program only ever tracked addresses of the pool, the interface could be
   read and nothing was refused, then no address of the pool remains on the
   interface and every other address is still there.
   */
  lemma CleanupIsExact(c: Config, counter: nat, tracked: seq<string>, inUse: seq<string>, before: set<string>,
                       system: seq<string>)
    requires Small(c) && counter <= Size(c) && OnlyCounted(c, counter, inUse) && OnlyCounted(c, counter, tracked)
    requires Texts(system) == before
    ensures before - (Targets(c, tracked, inUse, Some(system)) - {}) == set t | t in before && !InRange(c, t)
    ensures "" !in inUse && "" !in tracked
  {
    hide InRange, TextOf;
    forall t | t in inUse || t in tracked ensures InRange(c, t) && t != "" {
      var i :| 0 <= i < counter && t == Nth(c, i);
      InRangeIff(c, c.start + i);
      NotEmpty(c, t);
    }
  }

  /** So it is after every run of any number of threads, whatever addresses the interface had before. */
  lemma CleanupAfterRun(c: Config, threads: nat, present: set<string>, events: seq<Event>, system: seq<string>)
    requires Small(c) && Texts(system) == Run(c, Initial(threads, present), events).onInterface
    ensures var s := Run(c, Initial(threads, present), events);
      s.onInterface - (Targets(c, s.tracked, s.inUse, Some(system)) - {}) == set t | t in s.onInterface && !InRange(c, t)
  {
    hide Inv;
    var s := Run(c, Initial(threads, present), events);
    InitialInv(c, threads, present);
    RunKeeps(c, Initial(threads, present), events);
    InvLists(c, s);
    CleanupIsExact(c, s.counter, s.tracked, s.inUse, s.onInterface, system);
  }
}
