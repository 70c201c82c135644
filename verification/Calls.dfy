/**
 Calls that no other thread interrupts, what a release undoes, and what no thread
 can bring back.
 */
module Calls {
  import opened Address
  import opened Pool
  import opened Threads

  lemma RunStep(c: Config, s: State, e: Event, rest: seq<Event>)
    ensures Run(c, s, [e] + rest) == Run(c, Step(c, s, e), rest)
  {
    assert ([e] + rest)[1..] == rest;
  }

  lemma NoEvents(c: Config, s: State)
    ensures Run(c, s, []) == s
  {
  }

  /** A thread makes a call and runs through it; the system gives one answer. */
  function Call(e: Event, answer: Answer): seq<Event>
  {
    var p := Proceed(e.thread, answer);
    [e] + ([p] + ([p] + ([p] + ([p] + []))))
  }

  /** The state after the call and each section of it. */
  lemma CallSteps(c: Config, s: State, e: Event, answer: Answer)
    ensures var p := Proceed(e.thread, answer);
      Run(c, s, Call(e, answer)) == Step(c, Step(c, Step(c, Step(c, Step(c, s, e), p), p), p), p)
  {
    hide Run, Step;
    var p := Proceed(e.thread, answer);
    var s1 := Step(c, s, e);
    var s2 := Step(c, s1, p);
    var s3 := Step(c, s2, p);
    var s4 := Step(c, s3, p);
    RunStep(c, s, e, [p] + ([p] + ([p] + ([p] + []))));
    RunStep(c, s1, p, [p] + ([p] + ([p] + [])));
    RunStep(c, s2, p, [p] + ([p] + []));
    RunStep(c, s3, p, [p] + []);
    RunStep(c, s4, p, []);
    NoEvents(c, Step(c, s4, p));
  }

  /**
   An allocation that finds the pool exhausted changes nothing. A refused one drops
   the address, which is on no list. Every other returns the address to its owner,
   and tracks it when it was not on the interface before.
   */
  lemma AllocateAlone(c: Config, s: State, i: nat, owner: string, answer: Answer)
    requires i < |s.threads| && s.threads[i] == Idle && Find(c, s.counter, s.inUse) != Taken
    ensures var t := Run(c, s, Call(Allocate(i, owner), answer));
      var o := Find(c, s.counter, s.inUse);
      && (o == Exhausted ==> t == s)
      && (o.Fresh? && answer == Refused ==>
            t == s.(counter := (s.counter + 1) % COUNTERS, generated := s.generated + [o.number], dropped := s.dropped + [o.number]))
      && (o.Fresh? && answer != Refused ==>
            var text := TextOf(o.number);
            t == s.(counter := (s.counter + 1) % COUNTERS, inUse := [text] + s.inUse,
                    tracked := if answer == Done then AddUnique(s.tracked, text) else s.tracked,
                    onInterface := if answer == Done then s.onInterface + {text} else s.onInterface,
                    owners := s.owners[owner := text],
                    generated := s.generated + [o.number], returned := s.returned + [o.number]))
  {
    hide Find, TextOf, Run, AddUnique;
    CallSteps(c, s, Allocate(i, owner), answer);
    var s1 := SetThread(s, i, Generating(owner));
    var s2 := Step(c, s1, Proceed(i, answer));
    assert s1 == Step(c, s, Allocate(i, owner)) && s1.threads[i] == Generating(owner);
    var s3 := Step(c, s2, Proceed(i, answer));
    var s4 := Step(c, s3, Proceed(i, answer));
    var s5 := Step(c, s4, Proceed(i, answer));
    assert s5.threads == s.threads;
  }

  /**
   A refused release changes nothing. After any other the address is not on the
   interface, the owner has none, and the lists have lost one entry of it.
   */
  lemma ReleaseAlone(c: Config, s: State, i: nat, owner: string, text: string, answer: Answer)
    requires i < |s.threads| && s.threads[i] == Idle
    ensures var t := Run(c, s, Call(Release(i, owner, text), answer));
      t == if answer == Refused then s
           else s.(onInterface := s.onInterface - {text}, owners := s.owners - {owner},
                   tracked := Remove(s.tracked, text), inUse := Remove(s.inUse, text))
  {
    hide TextOf, Run, Remove, Generated;
    CallSteps(c, s, Release(i, owner, text), answer);
    var s1 := SetThread(s, i, Deleting(owner, text));
    assert s1 == Step(c, s, Release(i, owner, text)) && s1.threads[i] == Deleting(owner, text);
    var s2 := Step(c, s1, Proceed(i, answer));
    var s3 := Step(c, s2, Proceed(i, answer));
    var s4 := Step(c, s3, Proceed(i, answer));
    var s5 := Step(c, s4, Proceed(i, answer));
    assert s5.threads == s.threads;
  }

  lemma TextNotEmpty(n: nat)
    ensures TextOf(n) != ""
  {
    FormatLayout(Octets(n, 16), 0);
  }

  /**
   A release undoes the allocation before it: what is left is that the counter has
   moved on, so that the address will not come again.
   */
  lemma ReleaseUndoes(c: Config, s: State, i: nat, owner: string, n: nat, answer: Answer)
    requires i < |s.threads| && s.threads[i] == Idle && Find(c, s.counter, s.inUse) == Fresh(n)
    requires owner !in s.owners && TextOf(n) !in s.onInterface && TextOf(n) !in s.tracked
    requires answer != Refused
    ensures var t := Run(c, s, Call(Allocate(i, owner), Done));
      && TextOf(n) in t.onInterface && TextOf(n) in t.tracked && TextOf(n) in t.inUse
      && owner in t.owners && t.owners[owner] == TextOf(n)
      && var u := Run(c, t, Call(Release(i, owner, TextOf(n)), answer));
         u == s.(counter := (s.counter + 1) % COUNTERS, generated := s.generated + [n], returned := s.returned + [n])
  {
    hide Find, TextOf, Run;
    TextNotEmpty(n);
    AllocateAlone(c, s, i, owner, Done);
    var t := Run(c, s, Call(Allocate(i, owner), Done));
    ReleaseAlone(c, t, i, owner, TextOf(n), answer);
    assert t.onInterface - {TextOf(n)} == s.onInterface;
    assert t.owners - {owner} == s.owners;
  }

  // --- Gone for good -----------------------------------------------------------------

  /** The address has been counted, no thread is about to add it, and the interface does not have it. */
  ghost predicate Gone(c: Config, s: State, n: nat)
  {
    && c.start <= n < c.start + s.counter && TextOf(n) !in s.onInterface
    && forall i :: 0 <= i < |s.threads| && s.threads[i].Adding? ==> s.threads[i].number != n
  }

  lemma StepStaysGone(c: Config, s: State, e: Event, n: nat)
    requires Small(c) && Inv(c, s) && Gone(c, s, n)
    ensures Gone(c, Step(c, s, e), n)
  {
    hide TextOf, Find, OnlyCounted, Counted, Conserved, Remove, AddUnique;
    NeverTaken(c, s.counter, s.inUse);
    if e.thread < |s.threads| && s.threads[e.thread].Adding? {
      var m := s.threads[e.thread].number;
      HeldIsCounted(c, s, e.thread, m);
      TextInjective(m, n);
    }
  }

  /** An address that is gone does not come back on the interface, whatever the threads do. */
  lemma {:induction false} StaysGone(c: Config, s: State, events: seq<Event>, n: nat)
    requires Small(c) && Inv(c, s) && Gone(c, s, n)
    ensures TextOf(n) !in Run(c, s, events).onInterface
    decreases |events|
  {
    if events != [] {
      hide Inv, Gone, Step, TextOf;
      StepStaysGone(c, s, events[0], n);
      StepKeeps(c, s, events[0]);
      StaysGone(c, Step(c, s, events[0]), events[1..], n);
    }
  }

  /**
   Any run, in which an address is returned; any thread then deletes it from the
   interface, and the system does not refuse. In every continuation, of any number of
   threads, the address is never on the interface again.
   */
  lemma GoneForGood(c: Config, threads: nat, present: set<string>, before: seq<Event>, i: nat, n: nat, answer: Answer,
                    after: seq<Event>)
    requires Small(c)
    requires var s := Run(c, Initial(threads, present), before);
      && n in s.returned && i < |s.threads| && s.threads[i].Deleting? && s.threads[i].text == TextOf(n)
    requires answer != Refused
    ensures var s := Run(c, Initial(threads, present), before);
      TextOf(n) !in Run(c, Step(c, s, Proceed(i, answer)), after).onInterface
  {
    hide TextOf, Run, Inv, Held, HeldBy;
    InitialInv(c, threads, present);
    RunKeeps(c, Initial(threads, present), before);
    var s := Run(c, Initial(threads, present), before);
    ReturnedNotHeld(c, s, n);
    StepKeeps(c, s, Proceed(i, answer));
    StaysGone(c, Step(c, s, Proceed(i, answer)), after, n);
  }

  /** An address that has been returned is counted, and no thread is adding it. */
  lemma ReturnedNotHeld(c: Config, s: State, n: nat)
    requires Small(c) && Inv(c, s) && n in s.returned
    ensures c.start <= n < c.start + s.counter
    ensures forall i :: 0 <= i < |s.threads| && s.threads[i].Adding? ==> s.threads[i].number != n
  {
    hide TextOf, Held, Find, OnlyCounted;
    InvMeans(c, s);
    assert n in multiset(s.returned);
    assert multiset(s.generated) == Held(s.threads) + multiset(s.returned) + multiset(s.dropped);
    CountedOnce(c, s.counter, n);
    forall i | 0 <= i < |s.threads| && s.threads[i].Adding? ensures s.threads[i].number != n {
      HeldUpdate(s.threads, i, Idle);
      assert multiset{s.threads[i].number} <= Held(s.threads);
    }
  }
}
