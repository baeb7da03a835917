/** The per-block lock of a child file's active map (corw_sparse.c: scorw_get_uncopied_block,
    scorw_put_uncopied_block, scorw_remove_uncopied_block, scorw_is_compatible_processing_type).

    Each step is one stretch under the spinlock of the block's hash bucket; any number of threads
    interleave.  Entries carry an identity so that a waiter's pointer can be told from a later entry
    for the same block. */
module ActiveMap {
  import opened Common

  datatype Kind = Reading | CopyingExcl | Copying

  /** struct uncopied_block: the bits of processing_type, num_readers and num_waiting. */
  datatype Entry = Entry(id: nat, reading: bool, excl: bool, copying: bool, readers: int, waiting: int) {

    predicate Nop() {
      !reading && !excl && !copying
    }

    /** scorw_is_compatible_processing_type, for a request of one kind */
    predicate Compatible(k: Kind) {
      || (reading && k == Copying)
      || (copying && k == Reading)
      || (reading && k == Reading)
      || Nop()
    }

    function Add(k: Kind): Entry {
      match k
      case Reading => this.(reading := true, readers := readers + 1)
      case CopyingExcl => this.(excl := true)
      case Copying => this.(copying := true)
    }

    function Drop(k: Kind): Entry {
      match k
      case Reading => this.(readers := readers - 1, reading := reading && readers - 1 > 0)
      case CopyingExcl => this.(excl := false)
      case Copying => this.(copying := false)
    }
  }

  datatype Thread = Out | Has(kind: Kind) | Waits(kind: Kind, on: nat)

  datatype State = State(entry: Option<Entry>, nextId: nat, threads: seq<Thread>)

  datatype Event = Get(t: nat, kind: Kind) | Wake(t: nat) | Put(t: nat) | Remove

  function Grant(s: State, t: nat, e: Entry, k: Kind): State
    requires t < |s.threads|
  {
    s.(entry := Some(e.Add(k)), threads := s.threads[t := Has(k)])
  }

  function Step(s: State, ev: Event): State {
    match ev
    case Get(t, k) =>
      if t >= |s.threads| || !s.threads[t].Out? then s
      else if s.entry.None? then
        Grant(s.(nextId := s.nextId + 1), t, Entry(s.nextId, false, false, false, 0, 0), k)
      else if s.entry.value.Compatible(k) then Grant(s, t, s.entry.value, k)
      else
        s.(entry := Some(s.entry.value.(waiting := s.entry.value.waiting + 1)),
           threads := s.threads[t := Waits(k, s.entry.value.id)])
    case Wake(t) =>
      if t >= |s.threads| || !s.threads[t].Waits? || s.entry.None? then s
      else if s.entry.value.Compatible(s.threads[t].kind) then
        Grant(s, t, s.entry.value.(waiting := s.entry.value.waiting - 1), s.threads[t].kind)
      else s
    case Put(t) =>
      if t >= |s.threads| || !s.threads[t].Has? then s
      else if s.entry.None? then s.(threads := s.threads[t := Out])
      else s.(entry := Some(s.entry.value.Drop(s.threads[t].kind)), threads := s.threads[t := Out])
    case Remove =>
      if s.entry.Some? && s.entry.value.Nop() && s.entry.value.waiting == 0 then s.(entry := None) else s
  }

  function Holders(s: State, k: Kind): set<nat> {
    set t | 0 <= t < |s.threads| && s.threads[t] == Has(k)
  }

  function Waiters(s: State): set<nat> {
    set t | 0 <= t < |s.threads| && s.threads[t].Waits?
  }

  /** The reader count is exact, readers and an exclusive holder never coexist, there is at most one
      exclusive holder. */
  ghost predicate EntryOk(e: Entry, readers: set<nat>, excl: set<nat>) {
    && e.readers == |readers| && (e.reading <==> readers != {})
    && (e.excl <==> excl != {}) && |excl| <= 1
    && (e.excl ==> !e.reading && !e.copying)
  }

  /** And whoever waits waits on the live entry, which counts the waiters. */
  ghost predicate Inv(s: State) {
    var readers, excl, waiters := Holders(s, Reading), Holders(s, CopyingExcl), Waiters(s);
    && (s.entry.None? ==> readers == {} && excl == {} && waiters == {})
    && (s.entry.Some? ==>
          && EntryOk(s.entry.value, readers, excl)
          && s.entry.value.waiting == |waiters|
          && (forall t :: t in waiters ==> s.threads[t].on == s.entry.value.id))
  }

  /** One thread's change moves it from one of the sets to another. */
  lemma MovedHolder(s: State, s': State, t: nat, k: Kind)
    requires t < |s.threads| == |s'.threads| && s'.threads == s.threads[t := s'.threads[t]]
    ensures Holders(s', k) == if s'.threads[t] == Has(k) then Holders(s, k) + {t} else Holders(s, k) - {t}
  {
  }

  lemma MovedWaiter(s: State, s': State, t: nat)
    requires t < |s.threads| == |s'.threads| && s'.threads == s.threads[t := s'.threads[t]]
    ensures Waiters(s') == if s'.threads[t].Waits? then Waiters(s) + {t} else Waiters(s) - {t}
  {
  }

  /** The three sets after thread t, which held nothing, is granted k. */
  lemma Granted(s: State, s': State, t: nat, k: Kind)
    requires t < |s.threads| && !s.threads[t].Has? && s'.threads == s.threads[t := Has(k)]
    ensures Holders(s', Reading) == Holders(s, Reading) + (if k == Reading then {t} else {})
    ensures Holders(s', CopyingExcl) == Holders(s, CopyingExcl) + (if k == CopyingExcl then {t} else {})
    ensures Waiters(s') == Waiters(s) - {t}
  {
    assert s'.threads[t] == Has(k);
    MovedHolder(s, s', t, Reading);
    MovedHolder(s, s', t, CopyingExcl);
    MovedWaiter(s, s', t);
    assert t !in Holders(s, Reading) && t !in Holders(s, CopyingExcl);
  }

  /** The three sets after a holder of k lets go. */
  lemma LetGo(s: State, s': State, t: nat, k: Kind)
    requires t < |s.threads| && s.threads[t] == Has(k) && s'.threads == s.threads[t := Out]
    ensures Holders(s', Reading) == Holders(s, Reading) - (if k == Reading then {t} else {})
    ensures Holders(s', CopyingExcl) == Holders(s, CopyingExcl) - (if k == CopyingExcl then {t} else {})
    ensures Waiters(s') == Waiters(s)
    ensures k == Reading ==> t in Holders(s, Reading)
    ensures k == CopyingExcl ==> t in Holders(s, CopyingExcl)
  {
    assert s'.threads[t] == Out;
    MovedHolder(s, s', t, Reading);
    MovedHolder(s, s', t, CopyingExcl);
    MovedWaiter(s, s', t);
    assert t !in Waiters(s);
  }

  lemma AddOk(e: Entry, readers: set<nat>, excl: set<nat>, k: Kind, t: nat)
    requires EntryOk(e, readers, excl) && e.Compatible(k) && t !in readers && t !in excl
    ensures EntryOk(e.Add(k), readers + (if k == Reading then {t} else {}), excl + (if k == CopyingExcl then {t} else {}))
  {
    if k == CopyingExcl {
      assert excl == {};
    }
    assert readers + {} == readers && excl + {} == excl;
  }

  lemma DropOk(e: Entry, readers: set<nat>, excl: set<nat>, k: Kind, t: nat)
    requires EntryOk(e, readers, excl)
    requires k == Reading ==> t in readers
    requires k == CopyingExcl ==> t in excl
    ensures EntryOk(e.Drop(k), readers - (if k == Reading then {t} else {}), excl - (if k == CopyingExcl then {t} else {}))
  {
    assert readers - {} == readers && excl - {} == excl;
    if k == CopyingExcl {
      assert |excl - {t}| == 0;
    }
    if k == Reading {
      assert |readers - {t}| == |readers| - 1;
    }
  }

  lemma WaitersKept(s: State, s': State, t: nat, id: nat)
    requires t < |s.threads| == |s'.threads| && s'.threads == s.threads[t := s'.threads[t]]
    requires Waiters(s') == Waiters(s) - {t}
    requires forall u :: u in Waiters(s) - {t} ==> s.threads[u].on == id
    ensures forall u :: u in Waiters(s') ==> s'.threads[u].on == id
  {
  }

  lemma GrantInv(s: State, t: nat, e: Entry, k: Kind)
    requires t < |s.threads| && !s.threads[t].Has? && e.Compatible(k)
    requires EntryOk(e, Holders(s, Reading), Holders(s, CopyingExcl))
    requires e.waiting == |Waiters(s) - {t}|
    requires forall u :: u in Waiters(s) - {t} ==> s.threads[u].on == e.id
    ensures Inv(Grant(s, t, e, k))
  {
    var s' := Grant(s, t, e, k);
    var r, x := Holders(s, Reading), Holders(s, CopyingExcl);
    assert t !in r && t !in x;
    AddOk(e, r, x, k, t);
    Granted(s, s', t, k);
    WaitersKept(s, s', t, e.id);
    assert s'.entry.value.waiting == e.waiting && s'.entry.value.id == e.id;
  }

  lemma GetInv(s: State, ev: Event)
    requires Inv(s) && ev.Get?
    ensures Inv(Step(s, ev))
  {
    var t := ev.t;
    if t < |s.threads| && s.threads[t].Out? {
      assert Waiters(s) - {t} == Waiters(s);
      if s.entry.None? {
        FirstInv(s, t, ev.kind);
      } else if s.entry.value.Compatible(ev.kind) {
        GrantInv(s, t, s.entry.value, ev.kind);
      } else {
        QueuedInv(s, t, ev.kind);
      }
    }
  }

  lemma FirstInv(s: State, t: nat, k: Kind)
    requires Inv(s) && s.entry.None? && t < |s.threads| && s.threads[t].Out?
    ensures Inv(Step(s, Get(t, k)))
  {
    var e, s1 := Entry(s.nextId, false, false, false, 0, 0), s.(nextId := s.nextId + 1);
    assert Holders(s1, Reading) == Holders(s, Reading) == {};
    assert Holders(s1, CopyingExcl) == Holders(s, CopyingExcl) == {};
    assert Waiters(s1) == Waiters(s) == {};
    GrantInv(s1, t, e, k);
  }

  lemma QueuedInv(s: State, t: nat, k: Kind)
    requires Inv(s) && s.entry.Some? && !s.entry.value.Compatible(k) && t < |s.threads| && s.threads[t].Out?
    ensures Inv(Step(s, Get(t, k)))
  {
    var s' := Step(s, Get(t, k));
    Queued(s, s', t);
    forall u | u in Waiters(s') ensures s'.threads[u].on == s.entry.value.id {
      assert u != t ==> u in Waiters(s) && s'.threads[u] == s.threads[u];
    }
    assert s'.entry.value == s.entry.value.(waiting := s.entry.value.waiting + 1);
  }

  /** The three sets after thread t starts to wait. */
  lemma Queued(s: State, s': State, t: nat)
    requires t < |s.threads| == |s'.threads| && s'.threads == s.threads[t := s'.threads[t]]
    requires s.threads[t].Out? && s'.threads[t].Waits?
    ensures Holders(s', Reading) == Holders(s, Reading) && Holders(s', CopyingExcl) == Holders(s, CopyingExcl)
    ensures Waiters(s') == Waiters(s) + {t} && |Waiters(s')| == |Waiters(s)| + 1
  {
    MovedHolder(s, s', t, Reading);
    MovedHolder(s, s', t, CopyingExcl);
    MovedWaiter(s, s', t);
    assert t !in Waiters(s) && t !in Holders(s, Reading) && t !in Holders(s, CopyingExcl);
  }

  lemma WakeInv(s: State, ev: Event)
    requires Inv(s) && ev.Wake?
    ensures Inv(Step(s, ev))
  {
    var t := ev.t;
    if t < |s.threads| && s.threads[t].Waits? && s.entry.Some? && s.entry.value.Compatible(s.threads[t].kind) {
      assert t in Waiters(s);
      GrantInv(s, t, s.entry.value.(waiting := s.entry.value.waiting - 1), s.threads[t].kind);
    }
  }

  lemma PutInv(s: State, ev: Event)
    requires Inv(s) && ev.Put?
    ensures Inv(Step(s, ev))
  {
    var s', t := Step(s, ev), ev.t;
    if t < |s.threads| && s.threads[t].Has? {
      var k := s.threads[t].kind;
      LetGo(s, s', t, k);
      if s.entry.Some? {
        DropOk(s.entry.value, Holders(s, Reading), Holders(s, CopyingExcl), k, t);
        assert s'.entry.value.waiting == s.entry.value.waiting && s'.entry.value.id == s.entry.value.id;
      }
    }
  }

  lemma StepInv(s: State, ev: Event)
    requires Inv(s)
    ensures Inv(Step(s, ev))
  {
    match ev
    case Get(_, _) => GetInv(s, ev);
    case Wake(_) => WakeInv(s, ev);
    case Put(_) => PutInv(s, ev);
    case Remove =>
      assert forall k :: Holders(Step(s, ev), k) == Holders(s, k);
      assert Waiters(Step(s, ev)) == Waiters(s);
  }

  // ----- what it means

  function Init(n: nat): State {
    State(None, 0, seq(n, _ => Out))
  }

  function Run(s: State, es: seq<Event>): State {
    if es == [] then s else Step(Run(s, es[..|es| - 1]), es[|es| - 1])
  }

  /** In every reachable state: no reader beside an exclusive holder, at most one exclusive holder,
      num_readers is exact, every waiter's entry is the live one; and an entry is only ever freed
      when nobody reads, holds exclusively or waits. */
  lemma {:induction false} EveryRun(n: nat, es: seq<Event>)
    ensures var s := Run(Init(n), es);
            && Inv(s)
            && (Holders(s, Reading) == {} || Holders(s, CopyingExcl) == {}) && |Holders(s, CopyingExcl)| <= 1
            && (s.entry.Some? ==> s.entry.value.readers == |Holders(s, Reading)|)
            && (s.entry.Some? && Step(s, Remove).entry.None? ==>
                  Holders(s, Reading) == {} && Holders(s, CopyingExcl) == {} && Waiters(s) == {})
  {
    if es != [] {
      EveryRun(n, es[..|es| - 1]);
      StepInv(Run(Init(n), es[..|es| - 1]), es[|es| - 1]);
    }
  }

  // ----- COPYING

  /** The header comment promises a single copier that excludes COPYING_EXCL. */
  ghost predicate CopyOk(s: State) {
    && |Holders(s, Copying)| <= 1
    && (if s.entry.None? then Holders(s, Copying) == {} else s.entry.value.copying <==> Holders(s, Copying) != {})
  }

  /** A request for COPYING while another thread has it and somebody reads: it is granted. */
  predicate SecondCopier(s: State, ev: Event) {
    && Holders(s, Copying) != {} && s.entry.Some? && s.entry.value.reading
    && (|| (ev.Get? && ev.kind == Copying && ev.t < |s.threads| && s.threads[ev.t].Out?)
        || (ev.Wake? && ev.t < |s.threads| && s.threads[ev.t].Waits? && s.threads[ev.t].kind == Copying))
  }

  lemma HasMoved(s: State, s': State, t: nat)
    requires CopyOk(s) && t < |s.threads| == |s'.threads| && s'.threads == s.threads[t := s'.threads[t]]
    requires s'.threads[t] == Has(Copying) ==> Holders(s, Copying) == {}
    requires s'.entry.Some? && (s.threads[t] == Has(Copying) || s'.threads[t] == Has(Copying) ==>
                                s'.entry.value.copying == (s'.threads[t] == Has(Copying)))
    requires s.threads[t] != Has(Copying) && s'.threads[t] != Has(Copying) ==>
               s'.entry.value.copying == (s.entry.Some? && s.entry.value.copying)
    ensures CopyOk(s')
  {
    MovedHolder(s, s', t, Copying);
    if s.threads[t] == Has(Copying) {
      assert t in Holders(s, Copying);
      assert |Holders(s, Copying) - {t}| == 0;
    } else {
      assert Holders(s, Copying) - {t} == Holders(s, Copying);
    }
  }

  lemma TwoCopiers(s: State, ev: Event)
    requires Inv(s) && CopyOk(s) && SecondCopier(s, ev)
    ensures |Holders(Step(s, ev), Copying)| > 1
  {
    var s' := Step(s, ev);
    MovedHolder(s, s', ev.t, Copying);
    assert ev.t !in Holders(s, Copying);
  }

  /** A step keeps the promise exactly if it does not let in a second copier; then COPYING excludes
      COPYING_EXCL, and no entry is freed under a copier. */
  lemma StepCopyOk(s: State, ev: Event)
    requires Inv(s) && CopyOk(s)
    ensures CopyOk(Step(s, ev)) <==> !SecondCopier(s, ev)
    ensures Holders(s, Copying) == {} || Holders(s, CopyingExcl) == {}
  {
    var s' := Step(s, ev);
    if SecondCopier(s, ev) {
      TwoCopiers(s, ev);
    } else if ev.Remove? {
      assert Holders(s', Copying) == Holders(s, Copying);
    } else if s' != s {
      if s.entry.None? {
        NobodyHas(s, ev.t);
      }
      HasMoved(s, s', ev.t);
    }
  }

  lemma NobodyHas(s: State, t: nat)
    requires Inv(s) && CopyOk(s) && s.entry.None? && t < |s.threads|
    ensures !s.threads[t].Has?
  {
    assert forall k :: t in Holders(s, k) <==> s.threads[t] == Has(k);
    assert forall k :: Holders(s, k) == {} by {
      forall k ensures Holders(s, k) == {} {
        match k
        case Reading =>
        case CopyingExcl =>
        case Copying =>
      }
    }
  }

  /** With one it is not: after the first copier leaves, the bit is gone although the second still
      copies, and an exclusive holder gets in beside it. */
  lemma SecondCopierBreaksExclusion()
    ensures var both := Step(Step(Step(Init(4), Get(0, Reading)), Get(1, Copying)), Get(2, Copying));
            Step(Step(Step(both, Put(1)), Put(0)), Get(3, CopyingExcl)).threads == [Out, Out, Has(Copying), Has(CopyingExcl)]
  {
    var both := Step(Step(Step(Init(4), Get(0, Reading)), Get(1, Copying)), Get(2, Copying));
    assert both == State(Some(Entry(0, true, false, true, 1, 0)), 1, [Has(Reading), Has(Copying), Has(Copying), Out]);
    FirstCopierGone(both);
  }

  lemma FirstCopierGone(both: State)
    requires both == State(Some(Entry(0, true, false, true, 1, 0)), 1, [Has(Reading), Has(Copying), Has(Copying), Out])
    ensures Step(Step(Step(both, Put(1)), Put(0)), Get(3, CopyingExcl)).threads == [Out, Out, Has(Copying), Has(CopyingExcl)]
  {
    var one := Step(both, Put(1));
    assert one == State(Some(Entry(0, true, false, false, 1, 0)), 1, [Has(Reading), Out, Has(Copying), Out]);
    ReaderGone(one);
  }

  lemma ReaderGone(one: State)
    requires one == State(Some(Entry(0, true, false, false, 1, 0)), 1, [Has(Reading), Out, Has(Copying), Out])
    ensures Step(Step(one, Put(0)), Get(3, CopyingExcl)).threads == [Out, Out, Has(Copying), Has(CopyingExcl)]
  {
    var free := Step(one, Put(0));
    assert free == State(Some(Entry(0, false, false, false, 0, 0)), 1, [Out, Out, Has(Copying), Out]);
  }
}
