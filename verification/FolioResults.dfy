/** What waiting on a folio comes to: who gets the lock, what a wait returns, and what a walk over the queue
    leaves behind (filemap.c). */
module FolioResults {
  import opened FolioLock
  import opened FolioRuns
  import opened FolioSteps

  // ----- who gets the lock

  ghost predicate Owned(s: State) {
    exists t :: 0 <= t < |s.threads| && Owns(s, t)
  }

  /** A thread that tries for the lock, on its own, as it comes to queue or after it was woken, owns it
      afterwards exactly if nobody did. */
  lemma TryGets(s: State, e: Event, limit: int)
    requires Inv(s, limit) && (e.TryLock? || e.Enqueue? || e.Try?) && e.t < |s.threads|
    requires e.TryLock? ==> s.threads[e.t].pc.Out?
    requires e.Enqueue? ==> s.threads[e.t].pc.Arming? && s.threads[e.t].exclusive && s.waker.NoWaker?
    requires e.Try? ==> s.threads[e.t].pc.Trying?
    ensures Owns(Step(s, e, limit), e.t) <==> !Owned(s)
  {
  }

  /** After a release nobody owns it. */
  lemma ReleaseFrees(s: State, t: nat, limit: int)
    requires Inv(s, limit) && t < |s.threads| && s.threads[t].pc.Holding?
    ensures var s' := Step(s, Release(t), limit); s'.threads[t].pc.Out? && !Owned(s')
  {
    StepInv(s, Release(t), limit);
  }

  /** A walk hands the lock to an entry marked for it exactly if nobody owns it. */
  lemma WalkHandsOver(s: State, limit: int)
    requires Inv(s, limit) && s.waker.Tested? && s.threads[s.queue[s.waker.at]].custom
    ensures Owns(Step(s, WakeTake, limit), s.queue[s.waker.at]) <==> !Owned(s)
  {
  }

  // ----- what a wait returns

  /** Thread t begins to wait. */
  predicate Begins(s: State, e: Event, t: nat) {
    e.Wait? && e.t == t && t < |s.threads| && s.threads[t].pc.Out?
  }

  /** A walk comes to the entry of t, or t finds the bit clear when it comes to queue. */
  predicate Tells(s: State, e: Event, t: nat) {
    || (e.WakeVisit? && s.waker.Walking? && s.waker.at < |s.queue| && s.queue[s.waker.at] == t)
    || (e == Enqueue(t) && t < |s.threads| && s.threads[t].pc.Arming? && s.waker.NoWaker? && !s.bit)
  }

  /** Thread t sees a signal before it sees that it was woken. */
  predicate Interrupts(s: State, e: Event, t: nat) {
    e == Signal(t) && t < |s.threads| && s.threads[t].pc.Looping? && !s.threads[t].woken
  }

  /** Since t last began to wait, it was told. */
  ghost predicate Told(n: nat, es: seq<Event>, limit: int, t: nat) {
    es != [] &&
    var s, e := Run(Init(n), es[..|es| - 1], limit), es[|es| - 1];
    !Begins(s, e, t) && (Tells(s, e, t) || Told(n, es[..|es| - 1], limit, t))
  }

  /** Since t last began to wait, it was interrupted. */
  ghost predicate Interrupted(n: nat, es: seq<Event>, limit: int, t: nat) {
    es != [] &&
    var s, e := Run(Init(n), es[..|es| - 1], limit), es[|es| - 1];
    !Begins(s, e, t) && (Interrupts(s, e, t) || Interrupted(n, es[..|es| - 1], limit, t))
  }

  /** A waiting thread's flags are its history. */
  ghost predicate Remembers(th: Thread, told: bool, interrupted: bool) {
    !th.pc.Out? && !th.pc.Holding? ==>
      && (!th.exclusive ==> (th.woken <==> told))
      && (th.pc.Finishing? && !interrupted ==> if th.exclusive then th.done else th.woken)
  }

  lemma RemembersStep(s: State, e: Event, limit: int, t: nat, told: bool, interrupted: bool)
    requires Inv(s, limit) && t < |s.threads| && Remembers(s.threads[t], told, interrupted)
    ensures |Step(s, e, limit).threads| == |s.threads|
    ensures Remembers(Step(s, e, limit).threads[t], !Begins(s, e, t) && (Tells(s, e, t) || told),
                      !Begins(s, e, t) && (Interrupts(s, e, t) || interrupted))
  {
    if e.WakeStart? || e.WakeVisit? || e.WakeTake? || e.WakeStore? || e.WakeUnlink? {
      RemembersWake(s, e, limit, t, told, interrupted);
    }
  }

  lemma RemembersWake(s: State, e: Event, limit: int, t: nat, told: bool, interrupted: bool)
    requires Inv(s, limit) && t < |s.threads| && Remembers(s.threads[t], told, interrupted)
    requires e.WakeStart? || e.WakeVisit? || e.WakeTake? || e.WakeStore? || e.WakeUnlink?
    ensures |Step(s, e, limit).threads| == |s.threads|
    ensures Remembers(Step(s, e, limit).threads[t], Tells(s, e, t) || told, interrupted)
  {
  }

  lemma {:induction false} RemembersRun(n: nat, es: seq<Event>, limit: int, t: nat)
    requires t < n
    ensures var s := Run(Init(n), es, limit);
            && Inv(s, limit) && |s.threads| == n
            && Remembers(s.threads[t], Told(n, es, limit, t), Interrupted(n, es, limit, t))
  {
    EveryRun(n, es, limit);
    if es != [] {
      var k := |es| - 1;
      RemembersRun(n, es[..k], limit, t);
      RemembersStep(Run(Init(n), es[..k], limit), es[k], limit, t, Told(n, es[..k], limit, t),
                    Interrupted(n, es[..k], limit, t));
    }
  }

  /** The result of a wait, in every run: a shared waiter returns 0 exactly if, since it began, a walk came to
      its entry or it found the bit clear; and nobody returns -EINTR without having been interrupted. */
  lemma WaitResult(n: nat, es: seq<Event>, limit: int, t: nat)
    requires t < n
    ensures var s := Run(Init(n), es, limit);
            var s' := Step(s, Finish(t), limit);
            && |s.threads| == |s'.threads| == n
            && (s.threads[t].pc.Finishing? && (t !in s.queue || s.waker.NoWaker?) ==>
                  && !s'.threads[t].pc.Finishing?
                  && (!s.threads[t].exclusive ==> (s'.threads[t].eintr <==> !Told(n, es, limit, t)))
                  && (s'.threads[t].eintr ==> Interrupted(n, es, limit, t)))
  {
    RemembersRun(n, es, limit, t);
  }

  /** A wait is of the kind it was begun with. */
  lemma KindKept(s: State, e: Event, limit: int, t: nat)
    requires Inv(s, limit) && t < |s.threads|
    ensures var s' := Step(s, e, limit);
            && |s'.threads| == |s.threads|
            && s'.threads[t].exclusive == if Begins(s, e, t) then e.exclusive else s.threads[t].exclusive
  {
  }

  /** A signal gets a waiter that was not woken out of the queue, with -EINTR and without the lock. */
  lemma SignalLeaves(s: State, t: nat, limit: int)
    requires Inv(s, limit) && s.waker.NoWaker? && t < |s.threads|
    requires s.threads[t].pc.Looping? && !s.threads[t].woken
    ensures var s' := Step(Step(s, Signal(t), limit), Finish(t), limit);
            && |s'.threads| == |s.threads| && s'.threads[t].pc.Out? && s'.threads[t].eintr
            && t !in s'.queue && s'.bit == s.bit
  {
    WithoutOthers(s.queue, t);
  }

  // ----- walks over the queue

  /** The queue is served in order: a new waiter goes to its end, and nobody changes places. */
  lemma QueueInOrder(s: State, e: Event, limit: int)
    requires Inv(s, limit)
    ensures var q := Step(s, e, limit).queue;
            || q == s.queue
            || (e.Enqueue? && q == s.queue + [e.t])
            || (e.Finish? && q == Without(s.queue, e.t))
            || (e.WakeUnlink? && s.waker.Marked? && q == s.queue[..s.waker.at] + s.queue[s.waker.at + 1..])
  {
  }

  /** Walks are always at the front of the queue. */
  lemma {:induction false} AtFront(n: nat, es: seq<Event>, limit: int)
    ensures var s := Run(Init(n), es, limit); s.waker.NoWaker? || s.waker.at == 0
  {
    if es != [] {
      AtFront(n, es[..|es| - 1], limit);
    }
  }

  /** The step a walk makes next. */
  function NextOf(w: Waker): Event
    requires !w.NoWaker?
  {
    match w
    case Walking(_) => WakeVisit
    case Tested(_) => WakeTake
    case Taken(_) => WakeStore
    case Marked(_) => WakeUnlink
  }

  function Left(s: State): nat {
    5 * |s.queue| + match s.waker
                    case NoWaker => 0
                    case Marked(_) => 1
                    case Taken(_) => 2
                    case Tested(_) => 3
                    case Walking(_) => 4
  }

  /** A walk goes on until it ends, and it ends: only because the queue is empty, because somebody owns the
      lock, or behind an exclusive waiter that it has woken.  So no walk leaves a free lock with waiters none
      of whom was woken. */
  lemma WalkEnds(s: State, limit: int)
    requires Inv(s, limit) && !s.waker.NoWaker? && s.waker.at == 0
    ensures var s' := Step(s, NextOf(s.waker), limit);
            && Left(s') < Left(s)
            && (s'.waker.NoWaker? ==>
                  || s.queue == []
                  || Owned(s)
                  || (s.waker.Marked? && s.threads[s.queue[0]].exclusive && s'.queue == s.queue[1..]))
  {
  }

  /** An entry is marked by being woken; one that gets the lock is told so. */
  lemma MarkedIsWoken(s: State, e: Event, limit: int)
    requires Inv(s, limit) && !s.waker.Marked? && Step(s, e, limit).waker.Marked?
    ensures var s' := Step(s, e, limit);
            && s'.waker.at < |s.queue| && s'.queue == s.queue && s'.threads[s.queue[s'.waker.at]].woken
            && (Owns(s, s.queue[s'.waker.at]) ==> s'.threads[s.queue[s'.waker.at]].done)
  {
  }

  /** A shared waiter at the front is woken and leaves the queue, and the walk goes on behind it. */
  lemma WalkPassesShared(s: State, limit: int)
    requires Inv(s, limit) && s.waker == Walking(0) && s.queue != [] && !s.threads[s.queue[0]].exclusive
    ensures var s' := Step(Step(s, WakeVisit, limit), WakeUnlink, limit);
            s'.threads[s.queue[0]].woken && s'.queue == s.queue[1..] && s'.waker == Walking(0)
  {
  }

  /** The steps a walk makes for an exclusive waiter at the front. */
  function Served(s: State, custom: bool, limit: int): State {
    var s1 := Step(Step(s, WakeVisit, limit), WakeTake, limit);
    Step(if custom then Step(s1, WakeStore, limit) else s1, WakeUnlink, limit)
  }

  /** If somebody owns the lock, an exclusive waiter at the front ends the walk at once; otherwise it is woken
      and leaves the queue, with the lock exactly if it asked for a handoff, and the walk ends behind it. */
  lemma WalkServesExclusive(s: State, limit: int)
    requires Inv(s, limit) && s.waker == Walking(0) && s.queue != [] && s.threads[s.queue[0]].exclusive
    ensures Owned(s) ==> Step(s, WakeVisit, limit) == s.(waker := NoWaker)
    ensures var t := s.queue[0];
            var custom := s.threads[t].custom;
            var s' := Served(s, custom, limit);
            !Owned(s) ==>
              && |s'.threads| == |s.threads| && s'.threads[t].woken && s'.queue == s.queue[1..]
              && s'.waker.NoWaker? && (Owns(s', t) <==> custom)
  {
    var t := s.queue[0];
    var custom := s.threads[t].custom;
    var s1 := Step(s, WakeVisit, limit);
    if !Owned(s) {
      assert s1 == s.(waker := Tested(0));
      var s2 := Step(s1, WakeTake, limit);
      if custom {
        assert s2 == s.(bit := true, waker := Taken(0));
      }
    }
  }
}
