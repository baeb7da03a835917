/** The folio lock and its wait queue (filemap.c: folio_wait_bit_common, folio_trylock_flag,
    wake_page_function, folio_wake_bit, folio_unlock) as interleaved atomic steps.

    Each step is one access to the lock bit, to the flags of a wait entry, or one stretch under the
    wait-queue lock.  A waker holds the queue lock while it walks, but the lock bit may change
    between any two of its steps.  PG_waiters only decides whether an unlock looks at the queue, so
    a walk may start at any time. */
module FolioLock {

  datatype Pc =
    | Out         // not waiting, not holding
    | Holding     // has the lock
    | Arming      // at `repeat`: flags are set up, the entry is not queued yet
    | Looping     // in the for (;;) loop
    | Trying      // woken without the lock, about to try for the bit
    | Finishing   // left the loop, before finish_wait()

  /** One thread and its wait entry: exclusive, custom, woken and done are the WQ_FLAG_* bits;
      repeats counts the jumps to `repeat`; eintr is the result of the last wait. */
  datatype Thread = Thread(
    pc: Pc, exclusive: bool, custom: bool, woken: bool, done: bool, unfairness: int, repeats: nat, eintr: bool)

  datatype Waker =
    | NoWaker                // queue lock free
    | Walking(at: nat)       // about to look at entry `at`
    | Tested(at: nat)        // exclusive entry, bit seen clear
    | Taken(at: nat)         // handoff entry, bit set on its behalf
    | Marked(at: nat)        // flags stored, entry not yet unlinked

  datatype State = State(bit: bool, queue: seq<nat>, waker: Waker, threads: seq<Thread>)

  datatype Event =
    | TryLock(t: nat) | Release(t: nat)
    | Wait(t: nat, exclusive: bool) | Enqueue(t: nat)
    | Observe(t: nat) | Signal(t: nat) | Try(t: nat) | Finish(t: nat)
    | WakeStart | WakeVisit | WakeTake | WakeStore | WakeUnlink

  /** The top of `repeat`. */
  function Arm(th: Thread): Thread {
    var u := if th.exclusive then th.unfairness - 1 else th.unfairness;
    th.(pc := Arming, woken := false, done := false, unfairness := u, custom := th.exclusive && u < 0)
  }

  function Set(s: State, t: nat, th: Thread): State
    requires t < |s.threads|
  {
    s.(threads := s.threads[t := th])
  }

  function Without(q: seq<nat>, t: nat): seq<nat> {
    if q == [] then [] else if q[0] == t then Without(q[1..], t) else [q[0]] + Without(q[1..], t)
  }

  /** Steps of thread t; an event that is not possible changes nothing.  `limit` is
      sysctl_page_lock_unfairness. */
  function ThreadStep(s: State, e: Event, t: nat, limit: int): State
    requires t < |s.threads|
  {
    var th := s.threads[t];
    match e
    case TryLock(_) =>
      if th.pc.Out? && !s.bit then Set(s.(bit := true), t, th.(pc := Holding)) else s
    case Release(_) =>
      if th.pc.Holding? then Set(s.(bit := false), t, th.(pc := Out)) else s
    case Wait(_, exclusive) =>
      if th.pc.Out? then Set(s, t, Arm(th.(exclusive := exclusive, unfairness := limit, repeats := 0))) else s
    case Enqueue(_) =>
      if !(th.pc.Arming? && s.waker.NoWaker?) then s
      else if s.bit then Set(s.(queue := s.queue + [t]), t, th.(pc := Looping))
      else Set(s.(bit := th.exclusive), t, th.(pc := Looping, woken := true, done := true))
    case Observe(_) =>
      if !(th.pc.Looping? && th.woken) then s
      else if !th.exclusive || th.done then Set(s, t, th.(pc := Finishing))
      else Set(s, t, th.(pc := Trying))
    case Signal(_) =>
      if th.pc.Looping? && !th.woken then Set(s, t, th.(pc := Finishing)) else s
    case Try(_) =>
      if !th.pc.Trying? then s
      else if s.bit then Set(s, t, Arm(th.(repeats := th.repeats + 1)))
      else Set(s.(bit := true), t, th.(pc := Finishing, done := true))
    case Finish(_) =>
      if !th.pc.Finishing? || (t in s.queue && !s.waker.NoWaker?) then s
      else
        var ok := if th.exclusive then th.done else th.woken;
        Set(s.(queue := Without(s.queue, t)), t,
            th.(pc := if th.exclusive && th.done then Holding else Out, woken := false, done := false, eintr := !ok))
    case _ => s
  }

  function WakerStep(s: State, e: Event): State {
    match (e, s.waker)
    case (WakeStart, NoWaker) => s.(waker := Walking(0))
    case (WakeVisit, Walking(k)) =>
      if k >= |s.queue| || s.queue[k] >= |s.threads| then s.(waker := NoWaker)
      else
        var t := s.queue[k];
        var th := s.threads[t];
        if th.exclusive then s.(waker := if s.bit then NoWaker else Tested(k))
        else Set(s.(waker := Marked(k)), t, th.(woken := true))
    case (WakeTake, Tested(k)) =>
      if k >= |s.queue| || s.queue[k] >= |s.threads| then s.(waker := NoWaker)
      else
        var t := s.queue[k];
        var th := s.threads[t];
        if !th.custom then Set(s.(waker := Marked(k)), t, th.(woken := true))
        else if s.bit then s.(waker := NoWaker)
        else s.(bit := true, waker := Taken(k))
    case (WakeStore, Taken(k)) =>
      if k >= |s.queue| || s.queue[k] >= |s.threads| then s
      else
        var t := s.queue[k];
        Set(s.(waker := Marked(k)), t, s.threads[t].(woken := true, done := true))
    case (WakeUnlink, Marked(k)) =>
      if k >= |s.queue| || s.queue[k] >= |s.threads| then s
      else
        s.(queue := s.queue[..k] + s.queue[k + 1..],
           waker := if s.threads[s.queue[k]].exclusive then NoWaker else Walking(k))
    case _ => s
  }

  function Step(s: State, e: Event, limit: int): State {
    if e.TryLock? || e.Release? || e.Wait? || e.Enqueue? || e.Observe? || e.Signal? || e.Try? || e.Finish?
    then if e.t < |s.threads| then ThreadStep(s, e, e.t, limit) else s
    else WakerStep(s, e)
  }

  // ----- what holds in every reachable state

  /** The thread has the lock, was given it, or is about to be told so. */
  ghost predicate Owns(s: State, t: nat)
    requires t < |s.threads|
  {
    var th := s.threads[t];
    || th.pc.Holding?
    || (th.exclusive && th.done && (th.pc.Looping? || th.pc.Finishing?))
    || (s.waker.Taken? && s.waker.at < |s.queue| && s.queue[s.waker.at] == t)
  }

  /** The lock bit is set if and only if there is an owner, and then exactly one. */
  ghost predicate OneOwner(s: State) {
    && (s.bit <==> exists t :: 0 <= t < |s.threads| && Owns(s, t))
    && (forall t, u :: 0 <= t < u < |s.threads| ==> !(Owns(s, t) && Owns(s, u)))
  }

  ghost predicate ThreadOk(th: Thread, limit: int) {
    && (th.pc.Out? || th.pc.Holding? || th.pc.Arming? ==> !th.woken && !th.done)
    && (th.done ==> th.woken)
    && (th.pc.Trying? ==> th.exclusive && th.woken && !th.done)
    && (th.exclusive && th.custom && th.woken ==> th.done)
    && (!th.pc.Out? && !th.pc.Holding? && th.exclusive ==>
          th.repeats + th.unfairness + 1 == limit && (th.custom <==> th.unfairness < 0))
    && th.repeats <= (if limit > 0 then limit else 0)
  }

  ghost predicate QueueOk(s: State) {
    && (forall k :: 0 <= k < |s.queue| ==> s.queue[k] < |s.threads|)
    && (forall k, l :: 0 <= k < l < |s.queue| ==> s.queue[k] != s.queue[l])
    && (forall k :: 0 <= k < |s.queue| ==> EntryOk(s.threads[s.queue[k]], s.waker == Marked(k)))
    && (match s.waker
        case NoWaker => true
        case Walking(k) => k <= |s.queue|
        case Tested(k) => k < |s.queue| && s.threads[s.queue[k]].exclusive
        case Taken(k) => k < |s.queue| && s.threads[s.queue[k]].exclusive && s.threads[s.queue[k]].custom
        case Marked(k) => k < |s.queue|)
  }

  /** A queued entry has not been woken, except the one the waker is about to unlink. */
  ghost predicate EntryOk(th: Thread, marked: bool) {
    if marked then !th.pc.Out? && !th.pc.Holding?
    else (th.pc.Looping? || th.pc.Finishing?) && !th.woken && !th.done
  }

  ghost predicate Inv(s: State, limit: int) {
    && OneOwner(s) && QueueOk(s)
    && forall t :: 0 <= t < |s.threads| ==> ThreadOk(s.threads[t], limit)
  }
}
