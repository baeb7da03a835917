/** What holds of the folio lock in every run. */
module FolioRuns {
  import opened FolioLock
  import opened FolioSteps

  lemma StepInv(s: State, e: Event, limit: int)
    requires Inv(s, limit)
    ensures Inv(Step(s, e, limit), limit)
  {
    if e.WakeUnlink? {
      UnlinkInv(s, limit);
    } else if e.WakeVisit? {
      VisitInv(s, limit);
    } else if e.WakeTake? {
      TakeInv(s, limit);
    } else if e.WakeStore? {
      StoreInv(s, limit);
    } else if e.WakeStart? {
      OwnerKept(s, Step(s, e, limit));
    } else if e.t < |s.threads| {
      if e.Enqueue? {
        EnqueueInv(s, e.t, limit);
      } else if e.Finish? {
        FinishInv(s, e.t, limit);
      } else if e.TryLock? || e.Release? {
        LockInv(s, e, limit);
      } else if e.Wait? {
        WaitInv(s, e, limit);
      } else if e.Try? {
        TryInv(s, e, limit);
      } else {
        LeaveInv(s, e, limit);
      }
    }
  }

  function Init(n: nat): State {
    State(false, [], NoWaker, seq(n, _ => Thread(Out, false, false, false, false, 0, 0, false)))
  }

  function Run(s: State, es: seq<Event>, limit: int): State {
    if es == [] then s else Step(Run(s, es[..|es| - 1], limit), es[|es| - 1], limit)
  }

  /** In every state any interleaving of any number of threads can reach: the lock bit is set
      exactly if there is an owner, there is at most one, no two threads hold the lock, and no wait
      goes back to `repeat` more often than the unfairness limit allows. */
  lemma {:induction false} EveryRun(n: nat, es: seq<Event>, limit: int)
    ensures var s := Run(Init(n), es, limit);
            && Inv(s, limit)
            && (forall t, u :: 0 <= t < u < |s.threads| ==> !(s.threads[t].pc.Holding? && s.threads[u].pc.Holding?))
            && (forall t :: 0 <= t < |s.threads| && s.threads[t].pc.Holding? ==> s.bit)
            && (forall t :: 0 <= t < |s.threads| ==> s.threads[t].repeats <= if limit > 0 then limit else 0)
  {
    if es != [] {
      EveryRun(n, es[..|es| - 1], limit);
      StepInv(Run(Init(n), es[..|es| - 1], limit), es[|es| - 1], limit);
    }
    var s := Run(Init(n), es, limit);
    forall t, u | 0 <= t < u < |s.threads| ensures !(s.threads[t].pc.Holding? && s.threads[u].pc.Holding?) {
      assert !(Owns(s, t) && Owns(s, u));
    }
    forall t | 0 <= t < |s.threads| && s.threads[t].pc.Holding? ensures s.bit {
      assert Owns(s, t);
    }
  }

  /** When an exclusive waiter gets through finish_wait(), also after it left the loop on a signal,
      it returns with the lock exactly if the lock had been handed to it, and -EINTR otherwise; and
      after -EINTR nobody can hand it the lock any more. */
  lemma NoLostHandoff(s: State, t: nat, limit: int)
    requires Inv(s, limit) && t < |s.threads| && s.threads[t].pc.Finishing? && s.threads[t].exclusive
    requires t !in s.queue || s.waker.NoWaker?
    ensures var s' := Step(s, Finish(t), limit);
            && (s'.threads[t].pc.Holding? <==> Owns(s, t)) && (s'.threads[t].eintr <==> !Owns(s, t))
            && (Owns(s', t) <==> Owns(s, t)) && s'.bit == s.bit && t !in s'.queue
  {
    WithoutOthers(s.queue, t);
  }

  /** Once a thread owns the lock, by taking it or by being handed it while it waits, only its own release
      ends that. */
  lemma OwnerStays(s: State, e: Event, limit: int, t: nat)
    requires Inv(s, limit) && t < |s.threads| && Owns(s, t) && e != Release(t)
    ensures |Step(s, e, limit).threads| == |s.threads| && Owns(Step(s, e, limit), t)
  {
    if e.WakeStart? || e.WakeVisit? || e.WakeTake? || e.WakeStore? || e.WakeUnlink? {
      OwnerStaysInWake(s, e, limit, t);
    } else if e.Finish? {
      WithoutOthers(s.queue, e.t);
    }
  }

  lemma OwnerStaysInWake(s: State, e: Event, limit: int, t: nat)
    requires Inv(s, limit) && t < |s.threads| && Owns(s, t)
    requires e.WakeStart? || e.WakeVisit? || e.WakeTake? || e.WakeStore? || e.WakeUnlink?
    ensures |Step(s, e, limit).threads| == |s.threads| && Owns(Step(s, e, limit), t)
  {
  }

  lemma {:induction false} OwnerStaysInRun(s: State, es: seq<Event>, limit: int, t: nat)
    requires Inv(s, limit) && t < |s.threads| && Owns(s, t) && Release(t) !in es
    ensures |Run(s, es, limit).threads| == |s.threads| && Inv(Run(s, es, limit), limit) && Owns(Run(s, es, limit), t)
  {
    if es != [] {
      var n := |es| - 1;
      OwnerStaysInRun(s, es[..n], limit, t);
      assert es[n] in es;
      OwnerStays(Run(s, es[..n], limit), es[n], limit, t);
      StepInv(Run(s, es[..n], limit), es[n], limit);
    }
  }
}
