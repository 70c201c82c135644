/**
 Which pools are safe: exactly those in which neither the counter nor the address
 can wrap around. For every other pool a run of a single thread is given.
 */
module PoolLimits {
  import opened Sequences
  import opened Address
  import opened Pool
  import opened Threads
  import opened Calls

  /** Every address returned is of the pool, and none is returned twice. */
  ghost predicate Safe(c: Config, s: State)
  {
    && (forall i :: 0 <= i < |s.returned| ==> c.start <= s.returned[i] <= c.end)
    && (forall i, j :: 0 <= i < j < |s.returned| ==> s.returned[i] != s.returned[j])
  }

  // --- Runs of one thread ------------------------------------------------------------

  lemma {:induction false} RunAppend(c: Config, s: State, a: seq<Event>, b: seq<Event>)
    ensures Run(c, s, a + b) == Run(c, Run(c, s, a), b)
    decreases |a|
  {
    if a == [] {
      assert a + b == b;
    } else {
      assert (a + b)[0] == a[0] && (a + b)[1..] == a[1..] + b;
      RunAppend(c, Step(c, s, a[0]), a[1..], b);
    }
  }

  /** An allocation of the thread, of an address that is on the interface already. */
  function Allocation(): seq<Event>
  {
    Call(Allocate(0, "owner"), Existed)
  }

  /** A release that succeeds. */
  function Releasing(text: string): seq<Event>
  {
    Call(Release(0, "owner", text), Done)
  }

  ghost predicate Resting(s: State)
  {
    s.threads == [Idle]
  }

  // --- Many allocations -----------------------------------------------------------------

  function Allocations(n: nat): seq<Event>
  {
    if n == 0 then [] else Allocations(n - 1) + Allocation()
  }

  /** The texts of the first addresses of the pool, the last one first. */
  function Listed(c: Config, n: nat): seq<string>
  {
    if n == 0 then [] else [Nth(c, n - 1)] + Listed(c, n - 1)
  }

  lemma {:induction false} NotListed(c: Config, n: nat, m: nat)
    requires m < ADDRESSES && c.start + n <= ADDRESSES
    requires m < c.start || c.start + n <= m
    ensures TextOf(m) !in Listed(c, n)
  {
    hide TextOf;
    if n > 0 {
      NotListed(c, n - 1, m);
      TextInjective(m, c.start + n - 1);
    }
  }

  /** The first address is on the list only once. */
  lemma {:induction false} FirstRemoved(c: Config, n: nat)
    requires 0 < n && c.start + n <= ADDRESSES
    ensures TextOf(c.start) !in Remove(Listed(c, n), TextOf(c.start))
  {
    hide TextOf;
    if n > 1 {
      TextInjective(c.start, c.start + n - 1);
      FirstRemoved(c, n - 1);
    } else {
      assert Listed(c, 0) == [];
    }
  }

  /** The pool in order: what the first allocations leave. */
  ghost predicate Handed(c: Config, s: State, n: nat)
  {
    Resting(s) && s.counter == n % COUNTERS && s.inUse == Listed(c, n) && s.returned == Counted(c, n)
  }

  lemma NextHanded(c: Config, s: State, n: nat)
    requires IsConfig(c) && n < COUNTERS && n < Size(c) && Handed(c, s, n)
    ensures Handed(c, Run(c, s, Allocation()), n + 1)
  {
    hide TextOf, Run, Call, Listed;
    NotListed(c, n, c.start + n);
    assert Find(c, s.counter, s.inUse) == Fresh(c.start + n);
    AllocateAlone(c, s, 0, "owner", Existed);
    ListedMore(c, n + 1);
    assert Counted(c, n + 1) == Counted(c, n) + [c.start + n];
  }

  /** Allocations one after the other return the pool in order. */
  lemma {:induction false} AllocationsDo(c: Config, n: nat, present: set<string>)
    requires IsConfig(c) && n <= COUNTERS && n <= Size(c)
    ensures Handed(c, Run(c, Initial(1, present), Allocations(n)), n)
  {
    hide TextOf, Run, Call, Listed;
    if n > 0 {
      hide Handed;
      AllocationsDo(c, n - 1, present);
      RunAppend(c, Initial(1, present), Allocations(n - 1), Allocation());
      NextHanded(c, Run(c, Initial(1, present), Allocations(n - 1)), n - 1);
    } else {
      NoEvents(c, Initial(1, present));
      ListedMore(c, 0);
      assert seq(1, _ => Idle) == [Idle];
    }
  }

  lemma ListedMore(c: Config, n: nat)
    ensures Listed(c, n) == if n == 0 then [] else [TextOf(c.start + n - 1)] + Listed(c, n - 1)
  {
    hide TextOf;
  }

  // --- Pools that are not small ------------------------------------------------------------

  /** The pool reaches the last address of all: behind it comes zero, which is not of the pool. */
  lemma WrapsToZero(c: Config, present: set<string>) returns (events: seq<Event>)
    requires IsConfig(c) && c.end == ADDRESSES - 1 && Size(c) < COUNTERS
    ensures !Safe(c, Run(c, Initial(1, present), events))
    ensures 0 in Run(c, Initial(1, present), events).returned && 0 < c.start
  {
    hide TextOf, Run, Call, Listed;
    var n := Size(c);
    events := Allocations(n) + Allocation();
    AllocationsDo(c, n, present);
    var s := Run(c, Initial(1, present), Allocations(n));
    NotListed(c, n, 0);
    assert Find(c, s.counter, s.inUse) == Fresh(0);
    AllocateAlone(c, s, 0, "owner", Existed);
    RunAppend(c, Initial(1, present), Allocations(n), Allocation());
    assert Run(c, Initial(1, present), events).returned[n] == 0;
  }

  /** The pool has as many addresses as the counter has values: once released, the first is returned again. */
  lemma ReturnsTwice(c: Config, present: set<string>) returns (events: seq<Event>)
    requires IsConfig(c) && Size(c) >= COUNTERS
    ensures !Safe(c, Run(c, Initial(1, present), events))
    ensures var r := Run(c, Initial(1, present), events).returned; |r| == COUNTERS + 1 && r[0] == c.start == r[COUNTERS]
  {
    hide TextOf, Run, Call, Listed, Allocations;
    var first := TextOf(c.start);
    events := Allocations(COUNTERS) + Releasing(first) + Allocation();
    AllocationsDo(c, COUNTERS, present);
    var s := Run(c, Initial(1, present), Allocations(COUNTERS));
    ReleaseAlone(c, s, 0, "owner", first, Done);
    RunAppend(c, Initial(1, present), Allocations(COUNTERS), Releasing(first));
    var t := Run(c, s, Releasing(first));
    FirstRemoved(c, COUNTERS);
    CounterWraps(c, t.inUse);
    AllocateAlone(c, t, 0, "owner", Existed);
    RunAppend(c, Initial(1, present), Allocations(COUNTERS) + Releasing(first), Allocation());
    var r := Run(c, Initial(1, present), events).returned;
    assert r[0] == Counted(c, COUNTERS)[0] && r[COUNTERS] == c.start;
  }

  lemma SmallIsSafe(c: Config, threads: nat, present: set<string>, events: seq<Event>)
    requires Small(c)
    ensures Safe(c, Run(c, Initial(threads, present), events))
  {
    hide Held, HeldBy, Find, Run;
    NeverTwice(c, threads, present, events);
    var s := Run(c, Initial(threads, present), events);
    forall i, j | 0 <= i < j < |s.returned| ensures s.returned[i] != s.returned[j] {
      if s.returned[i] == s.returned[j] {
        TwiceCounts(s.returned, i, j);
      }
    }
    forall i | 0 <= i < |s.returned| ensures c.start <= s.returned[i] <= c.end {
      assert s.returned[i] in s.returned;
    }
  }

  /**
   The pools that are safe in every run of any number of threads are exactly those
   in which neither the 32-bit counter nor the address can wrap around.
   */
  lemma SmallIsExact(c: Config)
    requires IsConfig(c)
    ensures Small(c) <==>
      forall threads: nat, present: set<string>, events: seq<Event> :: Safe(c, Run(c, Initial(threads, present), events))
  {
    hide Safe, Run;
    if Small(c) {
      forall threads: nat, present: set<string>, events: seq<Event>
        ensures Safe(c, Run(c, Initial(threads, present), events))
      {
        SmallIsSafe(c, threads, present, events);
      }
    } else if Size(c) >= COUNTERS {
      var events := ReturnsTwice(c, {});
    } else {
      var events := WrapsToZero(c, {});
    }
  }
}
