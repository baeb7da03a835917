/** Writers, transactions and readers of a parent, step by step (scorw_write_see_thru_ro,
    scorw_record_write, scorw_set_transaction, scorw_set_transaction_error of corw_sparse.c, and the
    caller scorw_generic_perform_write of file.c, which may end with any number of bytes written).

    A write holds the parent's inode lock from Start until it is Idle again, so at most one is in
    flight; lock calls of other files, and of other threads on the same open file, come in between any
    two steps. */
module Snapshots {
  import opened Common
  import opened GarbageCollection
  import opened Placement
  import opened VersionLog

  type File = nat

  /** Transaction_locks: SET_TRANSACTION or SET_NORMAL_WRITE with its owner. */
  datatype Lock = Free | Txn(owner: File) | Normal(owner: File)

  /** count bytes from offset off of block logical on, sent to len appended blocks from physical on. */
  datatype Write = Write(file: File, txn: bool, logical: nat, off: nat, count: nat, physical: nat, len: nat)

  datatype Writer =
    | Idle
    | Placed(w: Write)             // target chosen, transaction lock held
    | Bumped(w: Write)             // normal write: version already raised
    | Logged(w: Write, at: nat)    // record logged at version `at`
    | Writing(w: Write, at: nat)   // returned to the caller, which now writes the data
    | InPlace(w: Write)            // a copy failed: the caller writes at the original position

  datatype State = State(
    version: nat, log: seq<Record>, size: nat, lock: Lock, writer: Writer, disk: map<nat, int>)

  datatype Event =
    | Begin(file: File) | End(file: File) | Abort(file: File)
    | Start(file: File, pos: nat, count: nat)
    | Copy(k: nat, block: int) | CopyFails
    | Bump | Log | Unlock
    | Data(data: seq<int>, n: nat)  // n bytes reach the file, in |data| blocks; then the write is over

  function Place(s: State, f: File, txn: bool, pos: nat, count: nat): Write {
    Write(f, txn, pos / PAGE, pos % PAGE, count, AppendBlock(s.size), Touched(pos % PAGE, count))
  }

  /** The bytes of a write land on its blocks. */
  function WriteBlocks(disk: map<nat, int>, p: nat, data: seq<int>): (d: map<nat, int>)
    ensures forall x :: !(p <= x < p + |data|) ==> (x in d <==> x in disk) && (x in d ==> d[x] == disk[x])
    ensures forall x :: p <= x < p + |data| ==> x in d && d[x] == data[x - p]
  {
    if data == [] then disk
    else WriteBlocks(disk, p, data[..|data| - 1])[p + |data| - 1 := data[|data| - 1]]
  }

  /** The caller may stop early: on a signal, on a failing write_begin, on a short copy. */
  predicate Reaches(w: Write, data: seq<int>, n: nat) {
    n <= w.count && |data| == if n == 0 then 0 else Touched(w.off, n)
  }

  /** n bytes at offset off of block p. */
  function Grown(size: nat, p: nat, off: nat, n: nat): nat {
    if n == 0 then size else Max(size, p * PAGE + off + n)
  }

  function Step(s: State, e: Event): State {
    match e
    case Begin(f) =>
      if s.lock.Free? then s.(lock := Txn(f)) else s
    case End(f) =>
      if s.lock == Txn(f) then s.(version := s.version + 1, lock := Free)
      else if s.lock == Normal(f) then s.(lock := Free)
      else s
    case Abort(f) =>
      if !s.lock.Free? && s.lock.owner == f then s.(lock := Free) else s
    case Start(f, pos, count) =>
      if !s.writer.Idle? || count == 0 then s
      else if s.lock == Txn(f) then s.(writer := Placed(Place(s, f, true, pos, count)))
      else if s.lock.Free? then s.(lock := Normal(f), writer := Placed(Place(s, f, false, pos, count)))
      else s
    case Copy(k, block) =>
      if s.writer.Placed? && k < s.writer.w.len then
        var p := s.writer.w.physical + k;
        s.(disk := s.disk[p := block], size := Max(s.size, (p + 1) * PAGE))
      else s
    case CopyFails =>
      if s.writer.Placed? then s.(writer := InPlace(s.writer.w)) else s  // the lock stays taken
    case Bump =>
      if s.writer.Placed? && !s.writer.w.txn then s.(version := s.version + 1, writer := Bumped(s.writer.w)) else s
    case Log =>
      if s.writer.Bumped? then LogAt(s, s.writer.w, s.version)
      else if s.writer.Placed? && s.writer.w.txn then LogAt(s, s.writer.w, s.version + 1)
      else s
    case Unlock =>
      if s.writer.Logged? then UnlockWrite(s, s.writer.w, s.writer.at) else s
    case Data(data, n) =>
      if s.writer.Writing? && Reaches(s.writer.w, data, n) then Written(s, s.writer.w, s.writer.w.physical, data, n)
      else if s.writer.InPlace? && Reaches(s.writer.w, data, n) then Written(s, s.writer.w, s.writer.w.logical, data, n)
      else s
  }

  /** scorw_record_write; a version without a slot is refused, which the caller ignores. */
  function LogAt(s: State, w: Write, v: nat): State {
    var s' := s.(writer := Logged(w, v));
    if v <= MAX_VERSIONS then s'.(log := s.log + [Record(v, w.logical, w.physical, w.len)]) else s'
  }

  /** The end of scorw_write_see_thru_ro: a normal write gives the lock back, whatever it has become. */
  function UnlockWrite(s: State, w: Write, at: nat): State {
    if w.txn then s.(writer := Writing(w, at))
    else if s.lock == Normal(w.file) then s.(lock := Free, writer := Writing(w, at))
    else if s.lock == Txn(w.file) then s.(version := s.version + 1, lock := Free, writer := Writing(w, at))
    else s.(writer := Idle)  // -EIO: the data is never written
  }

  function Written(s: State, w: Write, p: nat, data: seq<int>, n: nat): State {
    s.(disk := WriteBlocks(s.disk, p, data), size := Grown(s.size, p, w.off, n), writer := Idle)
  }

  function Run(s: State, es: seq<Event>): State {
    if es == [] then s else Step(Run(s, es[..|es| - 1]), es[|es| - 1])
  }

  lemma RunNext(s: State, es: seq<Event>, e: Event)
    ensures Run(s, es + [e]) == Step(Run(s, es), e)
  {
    assert (es + [e])[..|es|] == es;
  }

  /** What a reader at version v finds at block b. */
  function Read(s: State, base: nat, v: nat, b: nat): Option<int> {
    var p := View(s.log, base, v, b);
    if p.Some? then Some(if p.value in s.disk then s.disk[p.value] else 0) else None
  }

  /** The last version that no write in flight can still change. */
  function Settled(s: State): int {
    match s.writer
    case Bumped(_) => if s.version <= MAX_VERSIONS then s.version - 1 else s.version
    case Logged(_, at) => if at <= s.version && at <= MAX_VERSIONS then at - 1 else s.version
    case Writing(_, at) => if at <= s.version && at <= MAX_VERSIONS then at - 1 else s.version
    case _ => s.version
  }

  // ----- what runs keep

  ghost predicate VersionsUpTo(log: seq<Record>, v: nat) {
    forall i :: 0 <= i < |log| ==> log[i].version <= v
  }

  /** Versions are in order, from 2 on, and not beyond the next one. */
  ghost predicate VersionInv(s: State) {
    && s.version >= 1 && LogOk(s.log) && VersionsUpTo(s.log, s.version + 1)
    && match s.writer
       case Bumped(w) => VersionsUpTo(s.log, s.version) && s.version >= 2
       case Logged(w, at) => InLog(s.log, w, at) && 2 <= at <= s.version + 1
       case Writing(w, at) => InLog(s.log, w, at) && 2 <= at <= s.version + 1
       case _ => true
  }

  /** The record of the write in flight is the last one, if its version has a slot. */
  ghost predicate InLog(log: seq<Record>, w: Write, at: nat) {
    at <= MAX_VERSIONS ==> log != [] && log[|log| - 1] == Record(at, w.logical, w.physical, w.len)
  }

  ghost predicate WriteOk(size: nat, base: nat, w: Write) {
    && w.len >= 1 && base <= w.physical && w.off < PAGE && w.count >= 1
    && (w.len - 1) * PAGE < w.off + w.count <= w.len * PAGE
    && w.physical <= AppendBlock(size) <= w.physical + w.len
  }

  /** Every logged range lies below block p. */
  ghost predicate Below(log: seq<Record>, p: nat) {
    forall i :: 0 <= i < |log| ==> log[i].physical + log[i].len <= p
  }

  /** The log without the record of the write in flight. */
  function Before(log: seq<Record>, at: nat): seq<Record> {
    if at <= MAX_VERSIONS && |log| > 0 then log[..|log| - 1] else log
  }

  /** Appended ranges share no block with each other, with the original file or with the next append. */
  ghost predicate RangeInv(s: State, base: nat) {
    && RangesApart(s.log, base) && base <= AppendBlock(s.size)
    && match s.writer
       case Idle => Below(s.log, AppendBlock(s.size))
       case InPlace(w) => Below(s.log, AppendBlock(s.size))
       case Placed(w) => WriteOk(s.size, base, w) && Below(s.log, w.physical)
       case Bumped(w) => WriteOk(s.size, base, w) && Below(s.log, w.physical)
       case Logged(w, at) => WriteOk(s.size, base, w) && Below(Before(s.log, at), w.physical)
       case Writing(w, at) => WriteOk(s.size, base, w) && Below(Before(s.log, at), w.physical)
  }

  ghost predicate Inv(s: State, base: nat) {
    VersionInv(s) && RangeInv(s, base)
  }

  // ----- the two ways out of it

  /** The last of n bytes is not in the last block, and no copy has made the file reach there. */
  predicate Short(s: State, w: Write, n: nat) {
    AppendBlock(s.size) < w.physical + w.len && (n == 0 || w.off + n <= (w.len - 1) * PAGE)
  }

  /** A logged write is over before its data, or a copy, reached its last block: the caller was stopped,
      or somebody else had given back the lock of the write. */
  predicate EndsShort(s: State, e: Event) {
    if e.Unlock? then
      && s.writer.Logged? && !s.writer.w.txn && (s.lock.Free? || s.lock.owner != s.writer.w.file)
      && s.writer.at <= MAX_VERSIONS && Short(s, s.writer.w, 0)
    else if e.Data? then
      && s.writer.Writing? && Reaches(s.writer.w, e.data, e.n)
      && s.writer.at <= MAX_VERSIONS && Short(s, s.writer.w, e.n)
    else false
  }

  /** A version sees block p. */
  ghost predicate Seen(s: State, base: nat, p: nat) {
    exists v: nat, b: nat :: v <= Settled(s) && View(s.log, base, v, b) == Some(p)
  }

  /** After a failed copy, bytes go to blocks that a settled version sees. */
  ghost predicate Overwrites(s: State, base: nat, e: Event) {
    && e.Data? && s.writer.InPlace? && Reaches(s.writer.w, e.data, e.n)
    && exists p :: s.writer.w.logical <= p < s.writer.w.logical + |e.data| && Seen(s, base, p)
  }
}
