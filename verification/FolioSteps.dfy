/** The folio lock's invariant, step by step. */
module FolioSteps {
  import opened FolioLock

  lemma OwnerKept(s: State, s': State)
    requires OneOwner(s) && s'.bit == s.bit && |s'.threads| == |s.threads|
    requires forall t :: 0 <= t < |s.threads| ==> (Owns(s', t) <==> Owns(s, t))
    ensures OneOwner(s')
  {
  }

  lemma OwnerGained(s: State, s': State, t: nat)
    requires OneOwner(s) && !s.bit && s'.bit && |s'.threads| == |s.threads| && t < |s.threads|
    requires forall u :: 0 <= u < |s.threads| ==> (Owns(s', u) <==> Owns(s, u) || u == t)
    ensures OneOwner(s')
  {
    assert Owns(s', t);
  }

  lemma OwnerLost(s: State, s': State, t: nat)
    requires OneOwner(s) && !s'.bit && |s'.threads| == |s.threads| && t < |s.threads| && Owns(s, t)
    requires forall u :: 0 <= u < |s.threads| ==> (Owns(s', u) <==> Owns(s, u) && u != t)
    ensures OneOwner(s')
  {
    forall u | 0 <= u < |s.threads| && Owns(s, u) ensures u == t {
      OnlyOne(s, t, u);
    }
  }

  lemma OnlyOne(s: State, t: nat, u: nat)
    requires OneOwner(s) && t < |s.threads| && u < |s.threads| && Owns(s, t) && Owns(s, u)
    ensures t == u
  {
  }

  lemma {:induction false} WithoutOthers(q: seq<nat>, t: nat)
    requires forall k, l :: 0 <= k < l < |q| ==> q[k] != q[l]
    ensures forall u :: u in Without(q, t) <==> u in q && u != t
    ensures forall k, l :: 0 <= k < l < |Without(q, t)| ==> Without(q, t)[k] != Without(q, t)[l]
    ensures t !in q ==> Without(q, t) == q
  {
    if q != [] {
      WithoutOthers(q[1..], t);
      var w := Without(q[1..], t);
      assert q == [q[0]] + q[1..];
      assert forall u :: u in q <==> u == q[0] || u in q[1..];
      assert q[0] !in q[1..];
      assert forall k :: 0 <= k < |w| ==> w[k] in q[1..];
    }
  }

  /** A change of one thread that leaves its queue entry acceptable. */
  lemma QueueKept(s: State, s': State, t: nat)
    requires QueueOk(s) && t < |s.threads| && s'.queue == s.queue && s'.waker == s.waker
    requires |s'.threads| == |s.threads| && s'.threads == s.threads[t := s'.threads[t]]
    requires || t !in s.queue || s.waker.Marked?
             || (s'.threads[t].exclusive == s.threads[t].exclusive && s'.threads[t].custom == s.threads[t].custom)
    requires forall k :: 0 <= k < |s.queue| && s.queue[k] == t ==> EntryOk(s'.threads[t], s.waker == Marked(k))
    ensures QueueOk(s')
  {
  }

  lemma LockInv(s: State, e: Event, limit: int)
    requires Inv(s, limit) && (e.TryLock? || e.Release?) && e.t < |s.threads|
    ensures Inv(Step(s, e, limit), limit)
  {
    var s', t := Step(s, e, limit), e.t;
    if s' != s {
      assert t !in s.queue;
      QueueKept(s, s', t);
      if e.TryLock? {
        OwnerGained(s, s', t);
      } else {
        OwnerLost(s, s', t);
      }
    }
  }

  lemma WaitInv(s: State, e: Event, limit: int)
    requires Inv(s, limit) && e.Wait? && e.t < |s.threads|
    ensures Inv(Step(s, e, limit), limit)
  {
    var s', t := Step(s, e, limit), e.t;
    if s' != s {
      assert t !in s.queue;
      QueueKept(s, s', t);
      OwnerKept(s, s');
    }
  }

  /** Thread t goes on; its flags, and with them what it owns, stay. */
  lemma OnlyPc(s: State, t: nat, pc: Pc, limit: int)
    requires Inv(s, limit) && t < |s.threads| && s.threads[t].pc.Looping?
    requires pc.Finishing? || (pc.Trying? && s.threads[t].exclusive && s.threads[t].woken && !s.threads[t].done)
    ensures Inv(Set(s, t, s.threads[t].(pc := pc)), limit)
  {
    var s' := Set(s, t, s.threads[t].(pc := pc));
    QueueKept(s, s', t);
    OwnerKept(s, s');
  }

  lemma LeaveInv(s: State, e: Event, limit: int)
    requires Inv(s, limit) && (e.Observe? || e.Signal?) && e.t < |s.threads|
    ensures Inv(Step(s, e, limit), limit)
  {
    var t := e.t;
    if s.threads[t].pc.Looping? {
      OnlyPc(s, t, Finishing, limit);
      if s.threads[t].exclusive && s.threads[t].woken && !s.threads[t].done {
        OnlyPc(s, t, Trying, limit);
      }
    }
  }

  lemma TryInv(s: State, e: Event, limit: int)
    requires Inv(s, limit) && e.Try? && e.t < |s.threads|
    ensures Inv(Step(s, e, limit), limit)
  {
    var s', t := Step(s, e, limit), e.t;
    if s' != s {
      QueueKept(s, s', t);
      if s.bit {
        OwnerKept(s, s');
      } else {
        OwnerGained(s, s', t);
      }
    }
  }

  lemma EnqueueInv(s: State, t: nat, limit: int)
    requires Inv(s, limit) && t < |s.threads|
    ensures Inv(Step(s, Enqueue(t), limit), limit)
  {
    var s' := Step(s, Enqueue(t), limit);
    if s' != s {
      assert t !in s.queue;
      if s'.bit && !s.bit {
        OwnerGained(s, s', t);
      } else {
        OwnerKept(s, s');
      }
    }
  }

  lemma FinishQueue(s: State, s': State, t: nat)
    requires QueueOk(s) && t < |s.threads| && (t !in s.queue || s.waker.NoWaker?)
    requires s'.queue == Without(s.queue, t) && s'.waker == s.waker && |s'.threads| == |s.threads|
    requires s'.threads == s.threads[t := s'.threads[t]]
    ensures QueueOk(s')
  {
    WithoutOthers(s.queue, t);
    forall k | 0 <= k < |s'.queue|
      ensures s'.queue[k] < |s.threads| && EntryOk(s'.threads[s'.queue[k]], s'.waker == Marked(k))
    {
      assert s'.queue[k] in s'.queue;
      if s.waker.NoWaker? {
        var l :| 0 <= l < |s.queue| && s.queue[l] == s'.queue[k];
      }
    }
  }

  lemma FinishInv(s: State, t: nat, limit: int)
    requires Inv(s, limit) && t < |s.threads|
    ensures Inv(Step(s, Finish(t), limit), limit)
  {
    var s' := Step(s, Finish(t), limit);
    if s' != s {
      FinishQueue(s, s', t);
      WithoutOthers(s.queue, t);
      OwnerKept(s, s');
    }
  }

  lemma VisitQueue(s: State, s': State)
    requires QueueOk(s) && s.waker.Walking? && s.waker.at < |s.queue| && s'.queue == s.queue
    requires var k := s.waker.at;
             var t := s.queue[k];
             if s.threads[t].exclusive then s'.threads == s.threads && s'.waker == (if s.bit then NoWaker else Tested(k))
             else s'.threads == s.threads[t := s.threads[t].(woken := true)] && s'.waker == Marked(k)
    ensures QueueOk(s')
  {
  }

  lemma VisitInv(s: State, limit: int)
    requires Inv(s, limit)
    ensures Inv(Step(s, WakeVisit, limit), limit)
  {
    var s' := Step(s, WakeVisit, limit);
    if s.waker.Walking? && s.waker.at < |s.queue| {
      VisitQueue(s, s');
    }
    OwnerKept(s, s');
  }

  lemma TakeInv(s: State, limit: int)
    requires Inv(s, limit)
    ensures Inv(Step(s, WakeTake, limit), limit)
  {
    var s' := Step(s, WakeTake, limit);
    if s'.waker.Taken? && s.waker.Tested? {
      OwnerGained(s, s', s.queue[s.waker.at]);
    } else {
      OwnerKept(s, s');
    }
  }

  lemma StoreInv(s: State, limit: int)
    requires Inv(s, limit)
    ensures Inv(Step(s, WakeStore, limit), limit)
  {
    OwnerKept(s, Step(s, WakeStore, limit));
  }

  lemma UnlinkQueue(s: State, s': State, k: nat)
    requires QueueOk(s) && s.waker == Marked(k) && s'.threads == s.threads
    requires k < |s.queue| && s'.queue == s.queue[..k] + s.queue[k + 1..] && (s'.waker.NoWaker? || s'.waker == Walking(k))
    ensures QueueOk(s')
  {
    assert forall i :: 0 <= i < |s'.queue| ==> s'.queue[i] == if i < k then s.queue[i] else s.queue[i + 1];
  }

  lemma UnlinkInv(s: State, limit: int)
    requires Inv(s, limit)
    ensures Inv(Step(s, WakeUnlink, limit), limit)
  {
    var s' := Step(s, WakeUnlink, limit);
    if s.waker.Marked? {
      UnlinkQueue(s, s', s.waker.at);
      OwnerKept(s, s');
    }
  }
}
