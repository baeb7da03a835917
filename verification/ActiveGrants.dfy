/** When a request on the active map is granted, on the threads that hold the block (corw_sparse.c:
    scorw_get_uncopied_block, scorw_put_uncopied_block, scorw_remove_uncopied_block). */
module ActiveGrants {
  import opened ActiveMap
  import opened Common

  predicate Nobody(s: State, k: Kind) {
    Holders(s, k) == {}
  }

  /** A request for k can be met: readers share with each other and with copiers, an exclusive copier is
      alone, and a copier is kept out by another one only while nobody reads. */
  predicate Meetable(s: State, k: Kind) {
    Nobody(s, CopyingExcl) &&
    match k
    case Reading => true
    case CopyingExcl => Nobody(s, Reading) && Nobody(s, Copying)
    case Copying => Nobody(s, Copying) || !Nobody(s, Reading)
  }

  lemma CompatibleExact(s: State, k: Kind)
    requires Inv(s) && CopyOk(s)
    ensures s.entry.Some? ==> (s.entry.value.Compatible(k) <==> Meetable(s, k))
    ensures s.entry.None? ==> Meetable(s, k)
  {
    StepCopyOk(s, Remove);
  }

  /** A request is granted at once if it can be met, and waits otherwise. */
  lemma GetExact(s: State, t: nat, k: Kind)
    requires Inv(s) && CopyOk(s) && t < |s.threads| && s.threads[t].Out?
    ensures var s' := Step(s, Get(t, k));
            && s'.threads == s.threads[t := s'.threads[t]] && s'.entry.Some?
            && (s'.threads[t] == Has(k) <==> Meetable(s, k))
            && (s'.threads[t] == Waits(k, s'.entry.value.id) <==> !Meetable(s, k))
  {
    CompatibleExact(s, k);
  }

  /** A waiter that wakes up is granted what it waits for if it can be met, and waits on otherwise. */
  lemma WakeExact(s: State, t: nat)
    requires Inv(s) && CopyOk(s) && t < |s.threads| && s.threads[t].Waits?
    ensures var s', k := Step(s, Wake(t)), s.threads[t].kind;
            if Meetable(s, k) then s'.threads == s.threads[t := Has(k)] else s' == s
  {
    CompatibleExact(s, s.threads[t].kind);
    assert t in Waiters(s);
  }

  /** Whoever holds the block can let go, and only for itself. */
  lemma PutExact(s: State, t: nat)
    requires t < |s.threads| && s.threads[t].Has?
    ensures Step(s, Put(t)).threads == s.threads[t := Out]
  {
  }

  /** The entry is freed exactly if nobody holds the block or waits for it. */
  lemma RemoveExact(s: State)
    requires Inv(s) && CopyOk(s) && s.entry.Some?
    ensures Step(s, Remove).entry.None? <==>
            Nobody(s, Reading) && Nobody(s, CopyingExcl) && Nobody(s, Copying) && Waiters(s) == {}
    ensures Step(s, Remove).threads == s.threads
  {
    if Waiters(s) != {} {
      var t :| t in Waiters(s);
      assert |Waiters(s)| > 0;
    }
  }

  /** Identities are never used again: a waiter can tell its entry from any later one for the block. */
  ghost predicate IdsBelow(s: State) {
    && (s.entry.Some? ==> s.entry.value.id < s.nextId)
    && forall t :: 0 <= t < |s.threads| && s.threads[t].Waits? ==> s.threads[t].on < s.nextId
  }

  lemma NewEntry(s: State, ev: Event)
    requires IdsBelow(s)
    ensures IdsBelow(Step(s, ev)) && Step(s, ev).nextId >= s.nextId
    ensures s.entry.None? && Step(s, ev).entry.Some? ==> Step(s, ev).entry.value.id == s.nextId < Step(s, ev).nextId
    ensures s.entry.Some? && Step(s, ev).entry.Some? ==> Step(s, ev).entry.value.id == s.entry.value.id
  {
  }

  lemma {:induction false} IdsInRun(n: nat, es: seq<Event>)
    ensures IdsBelow(Run(Init(n), es))
  {
    if es != [] {
      IdsInRun(n, es[..|es| - 1]);
      NewEntry(Run(Init(n), es[..|es| - 1]), es[|es| - 1]);
    }
  }
}
