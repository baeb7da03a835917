/** What replaying an inode's records does (ext4_fc_replay_add_range and ext4_fc_replay_del_range of
    fast_commit.c). */
module FcRangeReplay {
  import opened Common
  import opened FcRanges

  /** n blocks from lblk on mapped to pblk and following. */
  function Painted(m: FileMap, lblk: nat, n: nat, pblk: nat, unwritten: bool): FileMap {
    if n == 0 then m else Painted(m, lblk, n - 1, pblk, unwritten)[lblk + n - 1 := Block(pblk + n - 1, unwritten)]
  }

  lemma {:induction false} PaintedLook(m: FileMap, lblk: nat, n: nat, pblk: nat, unwritten: bool, b: nat)
    ensures Look(Painted(m, lblk, n, pblk, unwritten), b) ==
            if lblk <= b < lblk + n then Some(Block(pblk + (b - lblk), unwritten)) else Look(m, b)
  {
    if n > 0 {
      PaintedLook(m, lblk, n - 1, pblk, unwritten, b);
    }
  }

  /** m is as m0 but for what r says of its first k blocks. */
  ghost predicate Applied(m0: FileMap, r: Range, k: nat, m: FileMap) {
    forall b: nat :: Look(m, b) == if r.lblk <= b < r.lblk + k && r.Covers(b) then r.At(b) else Look(m0, b)
  }

  lemma PaintOn(m0: FileMap, r: Range, k: nat, m: FileMap, n: nat)
    requires r.Add? && Applied(m0, r, k, m) && k + n <= r.len
    ensures Applied(m0, r, k + n, Painted(m, r.lblk + k, n, r.pblk + k, r.unwritten))
  {
    forall b: nat ensures Look(Painted(m, r.lblk + k, n, r.pblk + k, r.unwritten), b) ==
        if r.lblk <= b < r.lblk + (k + n) && r.Covers(b) then r.At(b) else Look(m0, b) {
      PaintedLook(m, r.lblk + k, n, r.pblk + k, r.unwritten, b);
    }
  }

  /** Physical blocks p to p+n-1. */
  function Extent(p: nat, n: nat): set<nat> {
    if n == 0 then {} else Extent(p, n - 1) + {p + n - 1}
  }

  lemma {:induction false} InExtent(p: nat, n: nat, x: nat)
    ensures x in Extent(p, n) <==> p <= x < p + n
  {
    if n > 0 {
      InExtent(p, n - 1, x);
    }
  }

  /** r takes block b off the physical block it had in m. */
  predicate Moves(m: FileMap, r: Range, b: nat)
    requires b in m
  {
    r.Covers(b) && Some(m[b].pblk) != (if r.Add? then Some(r.pblk + (b - r.lblk)) else None)
  }

  /** Physical blocks that r, as far as block cur, takes out of use. */
  function Dropped(m: FileMap, r: Range, cur: nat): set<nat> {
    set b | b in m && b < cur && Moves(m, r, b) :: m[b].pblk
  }

  /** Dropping a whole run at once. */
  lemma DropOn(m: FileMap, r: Range, cur: nat, n: nat)
    requires Run(m, cur, n) && n >= 1 && r.lblk <= cur && cur + n <= r.lblk + r.len
    ensures Dropped(m, r, cur + n) ==
            Dropped(m, r, cur) + if cur in m && Moves(m, r, cur) then Extent(m[cur].pblk, n) else {}
  {
    var e := if cur in m && Moves(m, r, cur) then Extent(m[cur].pblk, n) else {};
    forall x: nat ensures x in Dropped(m, r, cur + n) <==> x in Dropped(m, r, cur) + e {
      if cur in m {
        InExtent(m[cur].pblk, n, x);
      }
      if x in Dropped(m, r, cur + n) {
        var b :| b in m && b < cur + n && Moves(m, r, b) && m[b].pblk == x;
        if b < cur {
          assert x in Dropped(m, r, cur);
        }
      }
      if x in e {
        var b := cur + (x - m[cur].pblk);
        assert b in m && Moves(m, r, b) && m[b].pblk == x;
      }
    }
  }

  /** One run of an ADD_RANGE: a hole gets a new extent, stored through its on-disk form; a run that
      lies elsewhere on disk is moved and its old blocks freed; a run in place has its state set. */
  method ReplayRun(m: FileMap, r: Range, cur: nat, n: nat) returns (m': FileMap, freed: set<nat>)
    requires r.Add? && Storable(r) && n >= 1 && r.lblk <= cur && cur + n <= r.lblk + r.len
    ensures m' == Painted(m, cur, n, r.pblk + (cur - r.lblk), r.unwritten)
    ensures freed == if cur in m && Moves(m, r, cur) then Extent(m[cur].pblk, n) else {}
  {
    var pblk := r.pblk + cur - r.lblk;
    freed := {};
    if cur !in m {
      var ee := StoredLen(n, r.unwritten);
      m' := Painted(m, cur, ActualLen(ee), pblk, IsUnwritten(ee));
    } else if pblk != m[cur].pblk {
      m' := Painted(m, cur, n, pblk, r.unwritten);
      freed := Extent(m[cur].pblk, n);
    } else {
      m' := Painted(m, cur, n, m[cur].pblk, r.unwritten);
    }
  }

  /** What lies ahead of the replay has not changed yet. */
  lemma RunAhead(m0: FileMap, r: Range, k: nat, m: FileMap, n: nat)
    requires Applied(m0, r, k, m) && Run(m, r.lblk + k, n) && n >= 1
    ensures Run(m0, r.lblk + k, n) && Look(m, r.lblk + k) == Look(m0, r.lblk + k)
  {
    forall i | r.lblk + k <= i < r.lblk + k + n ensures (i in m <==> i in m0) && (i in m ==> m[i] == m0[i]) {
      assert Look(m, i) == Look(m0, i);
    }
  }

  lemma DropAhead(m0: FileMap, r: Range, k: nat, m: FileMap, n: nat)
    requires Applied(m0, r, k, m) && Run(m, r.lblk + k, n) && 1 <= n <= r.len - k
    ensures var cur := r.lblk + k;
            Dropped(m0, r, cur + n) ==
            Dropped(m0, r, cur) + if cur in m && Moves(m, r, cur) then Extent(m[cur].pblk, n) else {}
  {
    RunAhead(m0, r, k, m, n);
    DropOn(m0, r, r.lblk + k, n);
  }

  /** What lies ahead of the replay is reported as it was. */
  lemma {:induction false} SameRun(m0: FileMap, m: FileMap, lblk: nat, n: nat, limit: int)
    requires forall i: nat :: lblk <= i < lblk + limit ==> Look(m, i) == Look(m0, i)
    ensures limit >= 1 ==> RunFrom(m, lblk, n, limit) == RunFrom(m0, lblk, n, limit)
    decreases limit - n
  {
    if 1 <= limit && n < limit {
      assert Look(m, lblk) == Look(m0, lblk) && Look(m, lblk + n) == Look(m0, lblk + n);
      SameRun(m0, m, lblk, n + 1, limit);
    }
  }

  /** The record is replayed up to block cur. */
  ghost predicate AddTo(m0: FileMap, r: Range, cur: nat, m: FileMap, freed: set<nat>) {
    r.lblk <= cur <= r.lblk + r.len && Applied(m0, r, cur - r.lblk, m) && freed == Dropped(m0, r, cur)
  }

  lemma SameStride(m0: FileMap, r: Range, cur: nat, m: FileMap, freed: set<nat>, most: nat -> nat)
    requires AddTo(m0, r, cur, m, freed) && cur < r.lblk + r.len
    ensures Stride(m, cur, r.lblk + r.len, most) == StrideOf(m0, cur, r.lblk + r.len, most, false)
  {
    forall i: nat | cur <= i ensures Look(m, i) == Look(m0, i) {
    }
    SameRun(m0, m, cur, 1, Min(r.lblk + r.len - cur, most(cur)));
  }

  lemma AddOn(m0: FileMap, r: Range, cur: nat, m: FileMap, freed: set<nat>, n: nat)
    requires r.Add? && AddTo(m0, r, cur, m, freed) && Run(m, cur, n) && 1 <= n <= r.lblk + r.len - cur
    ensures AddTo(m0, r, cur + n, Painted(m, cur, n, r.pblk + (cur - r.lblk), r.unwritten),
                  freed + if cur in m && Moves(m, r, cur) then Extent(m[cur].pblk, n) else {})
  {
    var k := cur - r.lblk;
    assert r.lblk + k == cur;
    DropAhead(m0, r, k, m, n);
    PaintOn(m0, r, k, m, n);
  }

  /** One round of the loop: a lookup and the change of the run it reports. */
  method AddRound(ghost m0: FileMap, r: Range, cur: nat, m: FileMap, freed: set<nat>, most: nat -> nat)
      returns (m': FileMap, freed': set<nat>, cur': nat)
    requires r.Add? && Storable(r) && AddTo(m0, r, cur, m, freed) && cur < r.lblk + r.len
    ensures cur' == cur + StrideOf(m0, cur, r.lblk + r.len, most, false) && AddTo(m0, r, cur', m', freed')
  {
    SameStride(m0, r, cur, m, freed, most);
    var n, b := MapBlocks(m, cur, r.lblk + r.len - cur, most);
    AddOn(m0, r, cur, m, freed, n);
    var more;
    m', more := ReplayRun(m, r, cur, n);
    freed', cur' := freed + more, cur + n;
  }

  /** The blocks at which replaying a record looks. */
  ghost function Looks(m0: FileMap, r: Range, out: Outside): set<nat> {
    Visits(m0, r.lblk, r.lblk + r.len, out.most, false)
  }

  /** Nothing that replaying the record does fails. */
  ghost predicate Completes(m0: FileMap, r: Range, out: Outside) {
    if r.Add? then forall b :: b in Looks(m0, r, out) ==> !out.Fails(b)
    else !out.editFails(r.lblk) && forall b :: b in Looks(m0, r, out) ==> !out.lookupFails(b)
  }

  /** ext4_fc_replay_add_range, run by run over what is there now.  It stops at the first block where an
      operation fails, and still reports success. */
  method ReplayAdd(m0: FileMap, r: Range, out: Outside) returns (m: FileMap, freed: set<nat>, done: nat)
    requires r.Add? && Storable(r)
    ensures done <= r.len && Applied(m0, r, done, m) && freed == Dropped(m0, r, r.lblk + done)
    ensures done == r.len <==> Completes(m0, r, out)
    ensures done < r.len ==> r.lblk + done in Looks(m0, r, out) && out.Fails(r.lblk + done)
    ensures forall b :: b in Looks(m0, r, out) && b < r.lblk + done ==> !out.Fails(b)
  {
    var cur;
    m, freed, cur := AddRuns(m0, r, out);
    ComesToEnd(m0, r.lblk, cur, r.lblk + r.len, out.most, false, out.Failing());
    forall b: nat ensures out.Failing()(b) == out.Fails(b) {
    }
    done := cur - r.lblk;
  }

  method AddRuns(m0: FileMap, r: Range, out: Outside) returns (m: FileMap, freed: set<nat>, cur: nat)
    requires r.Add? && Storable(r)
    ensures AddTo(m0, r, cur, m, freed) && ComesTo(Looks(m0, r, out), cur, r.lblk + r.len, out.Failing())
    ensures cur < r.lblk + r.len ==> out.Failing()(cur)
  {
    m, freed, cur := m0, {}, r.lblk;
    var end := r.lblk + r.len;
    ghost var looks, fails := Looks(m0, r, out), out.Failing();
    ComesFirst(m0, r.lblk, end, out.most, false, fails);
    while cur < end && !out.Fails(cur)
      invariant AddTo(m0, r, cur, m, freed) && ComesTo(looks, cur, end, fails)
    {
      ComesOn(m0, r.lblk, cur, end, out.most, false, fails);
      m, freed, cur := AddRound(m0, r, cur, m, freed, out.most);
    }
  }

  /** ext4_ext_remove_space on a range. */
  function Cleared(m: FileMap, lblk: nat, n: nat): FileMap {
    map b | b in m && !(lblk <= b < lblk + n) :: m[b]
  }

  method FreeRound(m0: FileMap, r: Range, cur: nat, freed: set<nat>, most: nat -> nat) returns (freed': set<nat>, cur': nat)
    requires r.Del? && r.lblk <= cur < r.lblk + r.len && freed == Dropped(m0, r, cur)
    ensures cur' == cur + StrideOf(m0, cur, r.lblk + r.len, most, false) && freed' == Dropped(m0, r, cur')
  {
    var n, b := MapBlocks(m0, cur, r.lblk + r.len - cur, most);
    DropOn(m0, r, cur, n);
    freed', cur' := freed, cur + n;
    if b.Some? {
      freed' := freed + Extent(b.value.pblk, n);
    }
  }

  /** The loop of ext4_fc_replay_del_range: frees what the range maps, run by run, up to the first
      failing lookup. */
  method FreeRuns(m0: FileMap, r: Range, out: Outside) returns (freed: set<nat>, upto: nat)
    requires r.Del?
    ensures freed == Dropped(m0, r, upto) && r.lblk <= upto <= r.lblk + r.len
    ensures upto == r.lblk + r.len <==> forall b :: b in Looks(m0, r, out) ==> !out.lookupFails(b)
    ensures upto < r.lblk + r.len ==> upto in Looks(m0, r, out) && out.lookupFails(upto)
    ensures forall b :: b in Looks(m0, r, out) && b < upto ==> !out.lookupFails(b)
  {
    freed, upto := {}, r.lblk;
    var end := r.lblk + r.len;
    ghost var looks := Looks(m0, r, out);
    ComesFirst(m0, r.lblk, end, out.most, false, out.lookupFails);
    while upto < end && !out.lookupFails(upto)
      invariant r.lblk <= upto && freed == Dropped(m0, r, upto)
      invariant ComesTo(looks, upto, end, out.lookupFails)
    {
      ComesOn(m0, r.lblk, upto, end, out.most, false, out.lookupFails);
      freed, upto := FreeRound(m0, r, upto, freed, out.most);
    }
    ComesToEnd(m0, r.lblk, upto, end, out.most, false, out.lookupFails);
  }

  /** ext4_fc_replay_del_range: frees what the range maps, then unmaps it.  If an operation fails, the range
      stays mapped although blocks of it are free, and success is reported. */
  method ReplayDel(m0: FileMap, r: Range, out: Outside) returns (m: FileMap, freed: set<nat>, done: bool)
    requires r.Del?
    ensures done <==> Completes(m0, r, out)
    ensures if done then Applied(m0, r, r.End() - r.lblk, m) else m == m0
    ensures exists upto: nat ::
              && freed == Dropped(m0, r, upto) && r.lblk <= upto <= r.lblk + r.len
              && (upto < r.lblk + r.len ==> upto in Looks(m0, r, out) && out.lookupFails(upto))
              && forall b :: b in Looks(m0, r, out) && b < upto ==> !out.lookupFails(b)
  {
    var upto;
    freed, upto := FreeRuns(m0, r, out);
    m, done := m0, false;
    if upto == r.lblk + r.len && !out.editFails(r.lblk) {
      m, done := Cleared(m0, r.lblk, r.End() - r.lblk), true;
    }
  }

  // ----- records one after another

  function After(m: FileMap, r: Range): FileMap {
    if r.Add? then Painted(m, r.lblk, r.len, r.pblk, r.unwritten) else Cleared(m, r.lblk, r.End() - r.lblk)
  }

  function AfterAll(m: FileMap, rs: seq<Range>): FileMap {
    if rs == [] then m else After(AfterAll(m, rs[..|rs| - 1]), rs[|rs| - 1])
  }

  /** The mapping after the records is what the records mean. */
  lemma {:induction false} AfterLook(m: FileMap, rs: seq<Range>, b: nat)
    ensures Look(AfterAll(m, rs), b) == Value(rs, b, Look(m, b))
  {
    if rs != [] {
      var n := |rs| - 1;
      AfterLook(m, rs[..n], b);
      if rs[n].Add? {
        PaintedLook(AfterAll(m, rs[..n]), rs[n].lblk, rs[n].len, rs[n].pblk, rs[n].unwritten, b);
      }
    }
  }

  lemma AppliedIs(m0: FileMap, r: Range, m: FileMap)
    requires Applied(m0, r, r.End() - r.lblk, m)
    ensures m == After(m0, r)
  {
    forall b: nat ensures Look(m, b) == Look(After(m0, r), b) {
      if r.Add? {
        PaintedLook(m0, r.lblk, r.len, r.pblk, r.unwritten, b);
      }
    }
    SameLooks(After(m0, r), m);
  }

  /** Nothing that replaying the records does fails. */
  ghost predicate AllComplete(m0: FileMap, rs: seq<Range>, out: Outside) {
    if rs == [] then true
    else
      var n := |rs| - 1;
      AllComplete(m0, rs[..n], out) && Completes(AfterAll(m0, rs[..n]), rs[n], out)
  }

  ghost predicate NothingFails(out: Outside) {
    forall b: nat :: !out.lookupFails(b) && !out.editFails(b)
  }

  lemma {:induction false} NothingFailsCompletes(m0: FileMap, rs: seq<Range>, out: Outside)
    requires NothingFails(out)
    ensures AllComplete(m0, rs, out)
  {
    if rs != [] {
      NothingFailsCompletes(m0, rs[..|rs| - 1], out);
    }
  }

  method ReplayOne(m0: FileMap, r: Range, out: Outside) returns (m: FileMap, done: bool)
    requires Storable(r)
    ensures done <==> Completes(m0, r, out)
    ensures done ==> m == After(m0, r)
  {
    var freed;
    if r.Add? {
      var n;
      m, freed, n := ReplayAdd(m0, r, out);
      done := n == r.len;
    } else {
      m, freed, done := ReplayDel(m0, r, out);
    }
    if done {
      AppliedIs(m0, r, m);
    }
  }

  /** Replaying records one after another is what the records mean, unless something fails on the way. */
  method ReplayRanges(m0: FileMap, rs: seq<Range>, out: Outside) returns (m: FileMap, all: bool)
    requires forall i :: 0 <= i < |rs| ==> Storable(rs[i])
    ensures all <==> AllComplete(m0, rs, out)
    ensures all ==> forall b: nat :: Look(m, b) == Value(rs, b, Look(m0, b))
    ensures NothingFails(out) ==> all
  {
    m, all := m0, true;
    var i := 0;
    assert rs[..0] == [];
    while i < |rs|
      invariant 0 <= i <= |rs| && (all ==> m == AfterAll(m0, rs[..i]))
      invariant all <==> AllComplete(m0, rs[..i], out)
    {
      var done;
      m, done := ReplayOne(m, rs[i], out);
      all := all && done;
      assert rs[..i + 1][..i] == rs[..i];
      i := i + 1;
    }
    assert rs[..i] == rs;
    if all {
      forall b: nat ensures Look(m, b) == Value(rs, b, Look(m0, b)) {
        AfterLook(m0, rs, b);
      }
    }
    if NothingFails(out) {
      NothingFailsCompletes(m0, rs, out);
    }
  }

  /** The law of the pair: what one inode's commit logs, replayed over any mapping whatever (a second
      time as well), gives the tracked range its committed mapping, but for the skipped blocks, and
      touches nothing else. */
  method LogAndReplay(m: FileMap, start: nat, len: nat, m0: FileMap, out: Outside, out': Outside)
      returns (m1: FileMap, m2: FileMap, all: bool)
    requires Within(m) && start + len <= LBLK_LIMIT
    ensures NothingFails(out) && NothingFails(out') ==> all
    ensures all ==> forall b: nat ::
              Look(m1, b) ==
              Look(if start <= b < start + len && b !in Skipped(m, start, start + len, out.most) then m else m0, b)
    ensures all ==> m2 == m1
  {
    var ok, rs := WriteInodeData(m, start, len, out);
    var again;
    m1, all := ReplayRanges(m0, rs, out');
    m2, again := ReplayRanges(m1, rs, out');
    all := ok && all && again;
    if all {
      forall b: nat ensures Look(m2, b) == Look(m1, b) {
      }
      SameLooks(m1, m2);
    }
  }

  lemma SameLooks(m1: FileMap, m2: FileMap)
    requires forall b: nat :: Look(m2, b) == Look(m1, b)
    ensures m2 == m1
  {
    forall b: nat ensures b in m2 <==> b in m1 {
      assert Look(m2, b) == Look(m1, b);
    }
    forall b: nat | b in m1 ensures m2[b] == m1[b] {
      assert Look(m2, b) == Look(m1, b);
    }
  }

  // ----- one of each

  /** A failing change of the extent tree leaves the range unmapped. */
  method FailedAddIsSilent() returns (m: FileMap, freed: set<nat>, done: nat)
    ensures done == 0 && Look(m, 0) == None
  {
    var out, r := Outside(_ => 1, _ => false, _ => true), Add(0, 1, 5, false);
    m, freed, done := ReplayAdd(map[], r, out);
    assert 0 in Looks(map[], r, out);
  }

  /** A failing removal leaves a block mapped that has been freed. */
  method FailedDelFreesMapped() returns (m: FileMap, freed: set<nat>, done: bool)
    ensures !done && Look(m, 0) == Some(Block(5, false)) && 5 in freed
  {
    var out, r, m0 := Outside(_ => 1, _ => false, _ => true), Del(0, 1), map[0 := Block(5, false)];
    m, freed, done := ReplayDel(m0, r, out);
    assert Looks(m0, r, out) == {0} && Moves(m0, r, 0);
    assert 5 in Dropped(m0, r, 1);
  }

  /** A record of no blocks at block 0 unmaps everything and frees nothing. */
  method EmptyDelUnmapsAll() returns (m: FileMap, freed: set<nat>, done: bool)
    ensures done && Look(m, 7) == None && freed == {}
  {
    var out, r, m0 := Outside(_ => 1, _ => false, _ => false), Del(0, 0), map[7 := Block(5, false)];
    m, freed, done := ReplayDel(m0, r, out);
  }
}
