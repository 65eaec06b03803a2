/** The sleeping mutex of mutex.c: a counter, an owner and a queue of waiters, with the lock handed to the next waiter.
    Each section under the guard is one step; a thread sleeping in the queue runs again only after it is woken. */
module Mutex {
  import opened Common
  import opened Queue

  type Tid = nat

  /** How a call ends: holding the mutex, asleep in its queue, done, or in a panic. */
  datatype Outcome = Acquired | Slept | Released | Panicked

  /** The value of a 32-bit word as a signed number. */
  function Signed(x: nat): int {
    var w := x % WORD;
    if w < WORD / 2 then w else w - WORD
  }

  /** No more elements than the set they come from. */
  lemma {:induction false} NoDupBounded(s: seq<Tid>, ts: set<Tid>)
    requires NoDup(s) && forall t :: t in s ==> t in ts
    ensures |s| <= |ts|
  {
    if s == [] {
    } else {
      var last, front := s[|s| - 1], s[..|s| - 1];
      assert forall t :: t in front ==> t in s && t in ts - {last};
      NoDupBounded(front, ts - {last});
    }
  }

  class Mutex {
    var lock: nat
    var waiters: seq<Tid>
    var thread: Option<Tid>
    /** Threads taken from the queue that have not run yet. */
    var woken: set<Tid>

    const threads: set<Tid>
    /** Threads that have returned from locking and not yet called unlock. */
    ghost var holders: set<Tid>
    /** Threads in the order they went to sleep, and in the order they were woken. */
    ghost var slept: seq<Tid>
    ghost var awoken: seq<Tid>

    ghost predicate Valid()
      reads this
    {
      // every thread is in at most one place
      && NoDup(waiters) && (forall t :: t in waiters ==> t in threads)
      && holders <= threads && woken <= threads && holders !! woken
      && (forall t :: t in waiters ==> t !in holders && t !in woken)
      && |threads| < WORD / 2
      // the counter counts holder, woken and waiting threads
      && lock == |holders| + |woken| + |waiters|
      // mutual exclusion, also with the thread the mutex is on its way to
      && |holders| + |woken| <= 1
      && holders == (if thread.Some? then {thread.value} else {})
      // no waiter is forgotten
      && (waiters != [] ==> |holders| + |woken| == 1)
      // first come, first served
      && slept == awoken + waiters
    }

    constructor (threads: set<Tid>)
      requires |threads| < WORD / 2
      ensures Valid() && this.threads == threads && holders == {} && woken == {} && waiters == []
    {
      lock, waiters, thread, woken := 0, [], None, {};
      this.threads, holders, slept, awoken := threads, {}, [], [];
    }

    /** A thread that is running, and not on its way out of the queue. */
    ghost predicate Running(t: Tid)
      reads this
    {
      t in threads && t !in waiters && t !in woken
    }

    method Lock(t: Tid) returns (r: Outcome)
      requires Valid() && Running(t)
      modifies this
      ensures Valid()
      ensures r == if t in old(holders) then Panicked
                   else if old(|holders| + |woken| == 0) then Acquired else Slept
      ensures holders == if r == Acquired then {t} else old(holders)
      ensures waiters == if r == Slept then old(waiters) + [t] else old(waiters)
      ensures woken == old(woken) && awoken == old(awoken)
    {
      if thread == Some(t) {
        return Panicked;
      }
      Room(t);
      var before := lock;
      lock := (lock + 1) % WORD;
      if Signed(before) > 0 {
        waiters := waiters + [t];
        slept := slept + [t];
        return Slept;
      }
      thread := Some(t);
      holders := holders + {t};
      r := Acquired;
    }

    /** A woken thread runs again behind its sleep and takes the mutex. */
    method Resume(t: Tid)
      requires Valid() && t in woken
      modifies this
      ensures Valid() && holders == {t} && woken == {} && waiters == old(waiters) && awoken == old(awoken)
    {
      woken := woken - {t};
      thread := Some(t);
      holders := holders + {t};
    }

    method Unlock(t: Tid) returns (r: Outcome)
      requires Valid() && Running(t)
      modifies this
      ensures Valid()
      ensures r == if t in old(holders) then Released else Panicked
      ensures r == Panicked ==>
                && holders == old(holders) && woken == old(woken) && waiters == old(waiters)
                && awoken == old(awoken)
      ensures r == Released ==>
                && holders == {}
                && woken == (if old(waiters) == [] then {} else {old(waiters)[0]})
                && waiters == (if old(waiters) == [] then [] else old(waiters)[1..])
                && awoken == old(awoken) + old(waiters)[..|old(waiters)| - |waiters|]
    {
      if thread != Some(t) {
        return Panicked;
      }
      Bounded();
      thread := None;
      holders := holders - {t};
      var before := lock;
      lock := (lock + WORD - 1) % WORD;
      if Signed(before) <= 0 {
        return Panicked;
      }
      if waiters != [] {
        woken := woken + {waiters[0]};
        awoken := awoken + [waiters[0]];
        waiters := waiters[1..];
      }
      r := Released;
    }

    /** The counter never gets near the sign bit. */
    lemma Bounded()
      requires Valid()
      ensures lock < WORD / 2
    {
      NoDupBounded(waiters, threads - holders - woken);
      assert (threads - holders) * woken == woken && threads * holders == holders;
    }

    /** A thread outside the mutex leaves room for itself. */
    lemma Room(t: Tid)
      requires Valid() && Running(t) && t !in holders
      ensures lock + 1 < WORD / 2
    {
      NoDupBounded(waiters, threads - holders - woken - {t});
      assert (threads - holders) * woken == woken && threads * holders == holders;
    }
  }

  datatype Event = LockBy(t: Tid) | ResumeBy(t: Tid) | UnlockBy(t: Tid)

  /** The waiters at one moment have been woken from the front, one for each unlock since. */
  ghost predicate ServedInOrder(waiters0: seq<Tid>, awoken0: seq<Tid>, unlocks: nat,
      waiters: seq<Tid>, awoken: seq<Tid>) {
    if unlocks <= |waiters0| then waiters0[unlocks..] <= waiters && awoken == awoken0 + waiters0[..unlocks]
    else awoken0 + waiters0 <= awoken
  }

  lemma ServedNext(waiters0: seq<Tid>, awoken0: seq<Tid>, unlocks: nat, waiters: seq<Tid>, awoken: seq<Tid>)
    requires ServedInOrder(waiters0, awoken0, unlocks, waiters, awoken)
    ensures waiters == [] ==> ServedInOrder(waiters0, awoken0, unlocks + 1, [], awoken)
    ensures waiters != [] ==> ServedInOrder(waiters0, awoken0, unlocks + 1, waiters[1..], awoken + [waiters[0]])
  {
  }

  /** Any run, by any threads in any order; an event a thread cannot take then is passed over, and a panic stops it. */
  method Interleave(m: Mutex, events: seq<Event>) returns (unlocks: nat, panicked: bool)
    requires m.Valid()
    modifies m
    ensures m.Valid()
    ensures ServedInOrder(old(m.waiters), old(m.awoken), unlocks, m.waiters, m.awoken)
  {
    unlocks, panicked := 0, false;
    assert m.waiters[0..] == m.waiters && m.waiters[..0] == [];
    for i := 0 to |events|
      invariant m.Valid()
      invariant ServedInOrder(old(m.waiters), old(m.awoken), unlocks, m.waiters, m.awoken)
    {
      var t := events[i].t;
      if t !in m.threads || t in m.waiters {
        continue;
      }
      ServedNext(old(m.waiters), old(m.awoken), unlocks, m.waiters, m.awoken);
      var r := Released;
      match events[i]
      case LockBy(_) =>
        if t !in m.woken {
          r := m.Lock(t);
        }
      case ResumeBy(_) =>
        if t in m.woken {
          m.Resume(t);
        }
      case UnlockBy(_) =>
        if t !in m.woken {
          r := m.Unlock(t);
          unlocks := if r == Released then unlocks + 1 else unlocks;
        }
      if r == Panicked {
        return unlocks, true;
      }
    }
  }
}
