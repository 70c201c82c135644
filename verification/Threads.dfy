/**
 Threads that allocate and release addresses, as steps: each locked section and
 each call into the system is one step, and steps of all threads interleave in any
 order, with any outcome of the system calls.
 */
module Threads {
  import Address
  import opened Pool

  /** Where a thread is in `ipv6_allocate_address` or `ipv6_release_address`. */
  datatype Thread =
    | Idle
    | Generating(owner: string)
    | Adding(owner: string, number: nat)
    | Remembering(owner: string, number: nat)
    | Recording(owner: string, number: nat)
    | Undoing(number: nat)
    | Deleting(owner: string, text: string)
    | Untracking(owner: string, text: string)
    | Forgetting(owner: string, text: string)
    | Unmapping(owner: string)

  /** What the system answers when a thread adds or deletes an address. */
  datatype Answer = Done | Existed | Refused

  datatype Event =
    | Allocate(thread: nat, owner: string)
    | Release(thread: nat, owner: string, text: string)
    | Proceed(thread: nat, answer: Answer)

  /**
   The shared state, the threads, and three histories: the addresses generated,
   those returned to a caller, and those dropped because the system refused them.
   */
  datatype State = State(
    counter: nat,
    inUse: seq<string>,
    tracked: seq<string>,
    onInterface: set<string>,
    owners: map<string, string>,
    threads: seq<Thread>,
    generated: seq<nat>,
    returned: seq<nat>,
    dropped: seq<nat>)

  /** Before a run: `present` are the addresses the interface has already. */
  function Initial(threads: nat, present: set<string>): State
  {
    State(0, [], [], present, map[], seq(threads, _ => Idle), [], [], [])
  }

  function SetThread(s: State, i: nat, t: Thread): State
    requires i < |s.threads|
  {
    s.(threads := s.threads[i := t])
  }

  /** The generating section of thread `i`. */
  function Generated(c: Config, s: State, i: nat, owner: string): State
    requires i < |s.threads|
  {
    var o := Find(c, s.counter, s.inUse);
    var t := s.(counter := CounterAfter(s.counter, o), inUse := AllocatedAfter(s.inUse, o));
    match o
    case Exhausted => SetThread(t, i, Idle)
    case Taken => t
    case Fresh(n) => SetThread(t, i, Adding(owner, n)).(generated := s.generated + [n])
  }

  /** The next step of thread `i`. */
  function Proceeded(c: Config, s: State, i: nat, answer: Answer): State
    requires i < |s.threads|
  {
    match s.threads[i]
    case Idle => s
    case Generating(owner) => Generated(c, s, i, owner)
    case Adding(owner, n) =>
      (match answer
       case Refused => SetThread(s, i, Undoing(n))
       case Existed => SetThread(s, i, Recording(owner, n))
       case Done => SetThread(s, i, Remembering(owner, n)).(onInterface := s.onInterface + {Address.TextOf(n)}))
    case Remembering(owner, n) =>
      SetThread(s, i, Recording(owner, n)).(tracked := AddUnique(s.tracked, Address.TextOf(n)))
    case Recording(owner, n) =>
      SetThread(s, i, Idle).(owners := s.owners[owner := Address.TextOf(n)], returned := s.returned + [n])
    case Undoing(n) => SetThread(s, i, Idle).(inUse := Remove(s.inUse, Address.TextOf(n)), dropped := s.dropped + [n])
    case Deleting(owner, text) =>
      if answer == Refused then SetThread(s, i, Idle)
      else SetThread(s, i, Untracking(owner, text)).(onInterface := s.onInterface - {text})
    case Untracking(owner, text) =>
      SetThread(s, i, Forgetting(owner, text)).(tracked := Remove(s.tracked, text))
    case Forgetting(owner, text) => SetThread(s, i, Unmapping(owner)).(inUse := Remove(s.inUse, text))
    case Unmapping(owner) => SetThread(s, i, Idle).(owners := s.owners - {owner})
  }

  /** One step; a call is made only by a thread that is not in one. */
  function Step(c: Config, s: State, e: Event): State
  {
    if e.thread >= |s.threads| then s
    else
      match e
      case Allocate(i, owner) => if s.threads[i].Idle? then SetThread(s, i, Generating(owner)) else s
      case Release(i, owner, text) => if s.threads[i].Idle? then SetThread(s, i, Deleting(owner, text)) else s
      case Proceed(i, answer) => Proceeded(c, s, i, answer)
  }

  function Run(c: Config, s: State, events: seq<Event>): State
    decreases |events|
  {
    if events == [] then s else Run(c, Step(c, s, events[0]), events[1..])
  }

  // --- Where the generated addresses are -------------------------------------------------

  /** The address a thread has generated and neither returned nor dropped. */
  function HeldBy(t: Thread): multiset<nat>
  {
    match t
    case Adding(_, n) => multiset{n}
    case Remembering(_, n) => multiset{n}
    case Recording(_, n) => multiset{n}
    case Undoing(n) => multiset{n}
    case _ => multiset{}
  }

  function Held(threads: seq<Thread>): multiset<nat>
  {
    if threads == [] then multiset{} else HeldBy(threads[0]) + Held(threads[1..])
  }

  lemma {:induction false} HeldUpdate(threads: seq<Thread>, i: nat, t: Thread)
    requires i < |threads|
    ensures HeldBy(threads[i]) <= Held(threads)
    ensures Held(threads[i := t]) == Held(threads) - HeldBy(threads[i]) + HeldBy(t)
  {
    hide HeldBy;
    if i == 0 {
      assert threads[0 := t][1..] == threads[1..];
    } else {
      HeldUpdate(threads[1..], i - 1, t);
      assert threads[i := t][1..] == threads[1..][i - 1 := t];
    }
  }

  /** The addresses from the start of the pool on. */
  function Counted(c: Config, counter: nat): (s: seq<nat>)
    ensures |s| == counter && forall i :: 0 <= i < counter ==> s[i] == c.start + i
  {
    seq(counter, i => c.start + i)
  }

  /** Every address generated is with one thread, returned or dropped. */
  ghost predicate Conserved(s: State)
  {
    multiset(s.generated) == Held(s.threads) + multiset(s.returned) + multiset(s.dropped)
  }

  /**
   What every step keeps: the counter is within the pool, the addresses generated
   are exactly the first ones of the pool in order, none of them is lost or
   doubled, and the lists hold texts of such addresses only.
   */
  ghost predicate Inv(c: Config, s: State)
  {
    && s.counter <= Size(c)
    && s.generated == Counted(c, s.counter)
    && Conserved(s)
    && OnlyCounted(c, s.counter, s.inUse)
    && OnlyCounted(c, s.counter, s.tracked)
  }

  lemma InvLists(c: Config, s: State)
    requires Inv(c, s)
    ensures s.counter <= Size(c) && OnlyCounted(c, s.counter, s.inUse) && OnlyCounted(c, s.counter, s.tracked)
  {
  }

  lemma {:induction false} HeldIdle(n: nat)
    ensures Held(seq(n, _ => Idle)) == multiset{}
  {
    if n > 0 {
      HeldIdle(n - 1);
      assert seq(n, _ => Idle)[1..] == seq(n - 1, _ => Idle);
    }
  }

  lemma InitialInv(c: Config, n: nat, present: set<string>)
    ensures Inv(c, Initial(n, present))
  {
    HeldIdle(n);
  }

  lemma RemoveCounted(c: Config, counter: nat, inUse: seq<string>, text: string)
    requires OnlyCounted(c, counter, inUse)
    ensures OnlyCounted(c, counter, Remove(inUse, text))
  {
    RemoveKeeps(inUse, text);
  }

  /** A thread moves on without taking or giving up an address. */
  lemma ConservedMove(s: State, s': State, i: nat)
    requires Conserved(s) && i < |s.threads| == |s'.threads| && s'.threads == s.threads[i := s'.threads[i]]
    requires HeldBy(s.threads[i]) == HeldBy(s'.threads[i])
    requires s'.generated == s.generated && s'.returned == s.returned && s'.dropped == s.dropped
    ensures Conserved(s')
  {
    HeldUpdate(s.threads, i, s'.threads[i]);
    hide HeldBy, Held;
  }

  lemma ConservedGenerate(s: State, s': State, i: nat, n: nat)
    requires Conserved(s) && i < |s.threads| == |s'.threads| && s'.threads == s.threads[i := s'.threads[i]]
    requires HeldBy(s.threads[i]) == multiset{} && HeldBy(s'.threads[i]) == multiset{n}
    requires s'.generated == s.generated + [n] && s'.returned == s.returned && s'.dropped == s.dropped
    ensures Conserved(s')
  {
    HeldUpdate(s.threads, i, s'.threads[i]);
    hide HeldBy, Held;
  }

  lemma ConservedReturn(s: State, s': State, i: nat, n: nat)
    requires Conserved(s) && i < |s.threads| == |s'.threads| && s'.threads == s.threads[i := s'.threads[i]]
    requires HeldBy(s.threads[i]) == multiset{n} && HeldBy(s'.threads[i]) == multiset{}
    requires s'.generated == s.generated
    requires (s'.returned == s.returned + [n] && s'.dropped == s.dropped)
          || (s'.returned == s.returned && s'.dropped == s.dropped + [n])
    ensures Conserved(s')
  {
    HeldUpdate(s.threads, i, s'.threads[i]);
    hide HeldBy, Held;
  }

  lemma GeneratedKeeps(c: Config, s: State, i: nat, owner: string)
    requires Small(c) && Inv(c, s) && i < |s.threads| && HeldBy(s.threads[i]) == multiset{}
    ensures Inv(c, Generated(c, s, i, owner))
  {
    hide OnlyCounted, Address.TextOf, Find, Conserved;
    NeverTaken(c, s.counter, s.inUse);
    StillCounted(c, s.counter, s.inUse);
    StillCounted(c, s.counter, s.tracked);
    var s' := Generated(c, s, i, owner);
    if s.counter < Size(c) {
      var n := c.start + s.counter;
      assert Counted(c, s.counter) + [n] == Counted(c, s.counter + 1);
      ConservedGenerate(s, s', i, n);
    } else {
      ConservedMove(s, s', i);
    }
  }

  lemma ReturnedKeeps(c: Config, s: State, i: nat, answer: Answer)
    requires Inv(c, s) && i < |s.threads| && (s.threads[i].Recording? || s.threads[i].Undoing?)
    ensures Inv(c, Proceeded(c, s, i, answer))
  {
    hide OnlyCounted, Address.TextOf, Conserved, Remove, Counted;
    var s', n := Proceeded(c, s, i, answer), s.threads[i].number;
    RemoveCounted(c, s.counter, s.inUse, Address.TextOf(n));
    ConservedReturn(s, s', i, n);
  }

  lemma AddingKeeps(c: Config, s: State, i: nat, answer: Answer)
    requires Inv(c, s) && i < |s.threads| && s.threads[i].Adding?
    ensures Inv(c, Proceeded(c, s, i, answer))
  {
    hide OnlyCounted, Address.TextOf, Conserved, Counted, AddUnique;
    ConservedMove(s, Proceeded(c, s, i, answer), i);
  }

  /** The address a thread holds is one of those counted. */
  lemma HeldIsCounted(c: Config, s: State, i: nat, n: nat)
    requires Inv(c, s) && i < |s.threads| && HeldBy(s.threads[i]) == multiset{n}
    ensures c.start <= n < c.start + s.counter
  {
    HeldUpdate(s.threads, i, Idle);
    assert n in multiset(s.generated);
    hide HeldBy, Held, OnlyCounted;
  }

  lemma RememberingKeeps(c: Config, s: State, i: nat, answer: Answer)
    requires Inv(c, s) && i < |s.threads| && s.threads[i].Remembering?
    ensures Inv(c, Proceeded(c, s, i, answer))
  {
    var n := s.threads[i].number;
    HeldIsCounted(c, s, i, n);
    AddCounted(c, s.counter, s.tracked, n);
    hide OnlyCounted, Address.TextOf, Conserved, Counted, AddUnique;
    ConservedMove(s, Proceeded(c, s, i, answer), i);
  }

  lemma AddCounted(c: Config, counter: nat, list: seq<string>, n: nat)
    requires OnlyCounted(c, counter, list) && c.start <= n < c.start + counter
    ensures OnlyCounted(c, counter, AddUnique(list, Address.TextOf(n)))
  {
    hide Address.TextOf;
    assert Address.TextOf(n) == Nth(c, n - c.start);
  }

  lemma ForgettingKeeps(c: Config, s: State, i: nat, answer: Answer)
    requires Inv(c, s) && i < |s.threads| && s.threads[i].Forgetting?
    ensures Inv(c, Proceeded(c, s, i, answer))
  {
    hide OnlyCounted, Conserved, Remove, Counted, Address.TextOf;
    RemoveCounted(c, s.counter, s.inUse, s.threads[i].text);
    ConservedMove(s, Proceeded(c, s, i, answer), i);
  }

  lemma UntrackingKeeps(c: Config, s: State, i: nat, answer: Answer)
    requires Inv(c, s) && i < |s.threads| && s.threads[i].Untracking?
    ensures Inv(c, Proceeded(c, s, i, answer))
  {
    hide OnlyCounted, Conserved, Remove, Counted, Address.TextOf;
    RemoveCounted(c, s.counter, s.tracked, s.threads[i].text);
    ConservedMove(s, Proceeded(c, s, i, answer), i);
  }

  lemma DeletingKeeps(c: Config, s: State, i: nat, answer: Answer)
    requires Inv(c, s) && i < |s.threads| && s.threads[i].Deleting?
    ensures Inv(c, Proceeded(c, s, i, answer))
  {
    hide OnlyCounted, Conserved, Remove, Counted, Address.TextOf;
    ConservedMove(s, Proceeded(c, s, i, answer), i);
  }

  lemma UnmappingKeeps(c: Config, s: State, i: nat, answer: Answer)
    requires Inv(c, s) && i < |s.threads| && s.threads[i].Unmapping?
    ensures Inv(c, Proceeded(c, s, i, answer))
  {
    hide OnlyCounted, Conserved, Remove, Counted, Address.TextOf;
    ConservedMove(s, Proceeded(c, s, i, answer), i);
  }

  lemma ProceededKeeps(c: Config, s: State, i: nat, answer: Answer)
    requires Small(c) && Inv(c, s) && i < |s.threads|
    ensures Inv(c, Proceeded(c, s, i, answer))
  {
    hide Inv;
    if s.threads[i].Generating? {
      hide Generated;
      GeneratedKeeps(c, s, i, s.threads[i].owner);
    } else if s.threads[i].Recording? || s.threads[i].Undoing? {
      hide Proceeded;
      ReturnedKeeps(c, s, i, answer);
    } else if s.threads[i].Adding? {
      hide Proceeded;
      AddingKeeps(c, s, i, answer);
    } else if s.threads[i].Remembering? {
      hide Proceeded;
      RememberingKeeps(c, s, i, answer);
    } else if s.threads[i].Forgetting? {
      hide Proceeded;
      ForgettingKeeps(c, s, i, answer);
    } else if s.threads[i].Untracking? {
      hide Proceeded;
      UntrackingKeeps(c, s, i, answer);
    } else if s.threads[i].Deleting? {
      hide Proceeded;
      DeletingKeeps(c, s, i, answer);
    } else if s.threads[i].Unmapping? {
      hide Proceeded;
      UnmappingKeeps(c, s, i, answer);
    }
  }

  /** Every step keeps the invariant. */
  lemma StepKeeps(c: Config, s: State, e: Event)
    requires Small(c) && Inv(c, s)
    ensures Inv(c, Step(c, s, e))
  {
    hide OnlyCounted, Counted, Conserved, Proceeded;
    if e.thread < |s.threads| {
      if e.Proceed? {
        hide Inv;
        ProceededKeeps(c, s, e.thread, e.answer);
      } else if s.threads[e.thread].Idle? {
        ConservedMove(s, Step(c, s, e), e.thread);
      }
    }
  }

  lemma {:induction false} RunKeeps(c: Config, s: State, events: seq<Event>)
    requires Small(c) && Inv(c, s)
    ensures Inv(c, Run(c, s, events))
    decreases |events|
  {
    hide Inv, Step;
    if events != [] {
      StepKeeps(c, s, events[0]);
      RunKeeps(c, Step(c, s, events[0]), events[1..]);
    }
  }

  // --- What follows ----------------------------------------------------------------------------

  lemma {:induction false} CountedOnce(c: Config, counter: nat, n: nat)
    ensures multiset(Counted(c, counter))[n] == if c.start <= n < c.start + counter then 1 else 0
  {
    if counter > 0 {
      CountedOnce(c, counter - 1, n);
      assert Counted(c, counter) == Counted(c, counter - 1) + [c.start + counter - 1];
    } else {
      assert Counted(c, 0) == [];
    }
  }

  /** What two threads hold is part of what all hold. */
  lemma ThreadHolds(threads: seq<Thread>, i: nat, j: nat)
    requires i < j < |threads|
    ensures HeldBy(threads[i]) + HeldBy(threads[j]) <= Held(threads)
  {
    HeldUpdate(threads, i, Idle);
    HeldUpdate(threads[i := Idle], j, Idle);
    hide HeldBy, Held;
  }

  /**
   In every run of any number of threads: addresses are generated in strictly
   increasing order and lie in the pool; the counter never exceeds the size of the
   pool and the retry is never due; no address is returned twice, or held by two
   threads, or held or dropped and also returned, whatever has been released.
   */
  lemma NeverTwice(c: Config, threads: nat, present: set<string>, events: seq<Event>)
    requires Small(c)
    ensures var s := Run(c, Initial(threads, present), events);
      && s.counter <= Size(c)
      && (forall i, j :: 0 <= i < j < |s.generated| ==> s.generated[i] < s.generated[j])
      && (forall i :: 0 <= i < |s.generated| ==> c.start <= s.generated[i] <= c.end)
      && Find(c, s.counter, s.inUse) != Taken
      && (forall n :: n in s.returned ==> c.start <= n <= c.end)
      && (forall n :: multiset(s.returned)[n] + multiset(s.dropped)[n] + Held(s.threads)[n] <= 1)
      && (forall i, j :: 0 <= i < j < |s.threads| ==> HeldBy(s.threads[i]) !! HeldBy(s.threads[j]))
  {
    hide Inv, Step, HeldBy, Held;
    InitialInv(c, threads, present);
    RunKeeps(c, Initial(threads, present), events);
    var s := Run(c, Initial(threads, present), events);
    InvMeans(c, s);
    forall i, j | 0 <= i < j < |s.threads| ensures HeldBy(s.threads[i]) !! HeldBy(s.threads[j]) {
      HeldApart(s.threads, i, j);
    }
  }

  lemma HeldApart(threads: seq<Thread>, i: nat, j: nat)
    requires i < j < |threads| && forall n :: Held(threads)[n] <= 1
    ensures HeldBy(threads[i]) !! HeldBy(threads[j])
  {
    hide HeldBy, Held;
    ThreadHolds(threads, i, j);
    forall n ensures HeldBy(threads[i])[n] == 0 || HeldBy(threads[j])[n] == 0 {
      assert (HeldBy(threads[i]) + HeldBy(threads[j]))[n] <= Held(threads)[n];
    }
  }

  lemma InvMeans(c: Config, s: State)
    requires Small(c) && Inv(c, s)
    ensures s.counter <= Size(c) && |s.generated| == s.counter
    ensures forall i, j :: 0 <= i < j < |s.generated| ==> s.generated[i] < s.generated[j]
    ensures forall i :: 0 <= i < |s.generated| ==> c.start <= s.generated[i] <= c.end
    ensures Find(c, s.counter, s.inUse) != Taken
    ensures forall n :: n in s.returned ==> c.start <= n <= c.end
    ensures forall n :: multiset(s.returned)[n] + multiset(s.dropped)[n] + Held(s.threads)[n] <= 1
  {
    NeverTaken(c, s.counter, s.inUse);
    hide Held, Find, Address.TextOf, OnlyCounted;
    assert multiset(s.generated) == Held(s.threads) + multiset(s.returned) + multiset(s.dropped);
    forall n ensures multiset(s.returned)[n] + multiset(s.dropped)[n] + Held(s.threads)[n] <= 1 {
      CountedOnce(c, s.counter, n);
    }
    forall n | n in s.returned ensures c.start <= n <= c.end {
      CountedOnce(c, s.counter, n);
      assert n in multiset(s.returned);
      assert multiset(s.generated)[n] > 0;
    }
  }
}
