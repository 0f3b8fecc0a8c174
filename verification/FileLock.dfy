/** Advisory shared and exclusive file locks (kernel/src/fs/file_lock.rs). */
module FileLocking {
  import opened Bytes

  datatype LockType = Shared | Exclusive
  datatype LockRecord = LockRecord(lockType: LockType, pid: nat)
  datatype LockState = LockState(count: nat, lockType: Option<LockType>, holders: seq<LockRecord>)

  /** A file: filesystem identifier and inode number. */
  datatype Key = Key(fs: nat, ino: nat)

  type Table = map<Key, LockState>

  /** Waiting: the caller goes on to spin on the retry functions. */
  datatype Reply = Granted | WouldBlock | Waiting | InvalidArgument

  // ---- One inode ----------------------------------------------------------

  /** The first record of `pid`, or the length. */
  function Position(h: seq<LockRecord>, pid: nat): (i: nat)
    ensures i <= |h| && (i < |h| ==> h[i].pid == pid) && forall j :: 0 <= j < i ==> h[j].pid != pid
  {
    if h == [] then 0 else if h[0].pid == pid then 0 else 1 + Position(h[1..], pid)
  }

  /** holders.retain(|r| r.pid != pid) */
  function Retain(h: seq<LockRecord>, pid: nat): seq<LockRecord> {
    if h == [] then [] else (if h[0].pid == pid then [] else [h[0]]) + Retain(h[1..], pid)
  }

  predicate DistinctPids(h: seq<LockRecord>) {
    forall i, j :: 0 <= i < j < |h| ==> h[i].pid != h[j].pid
  }

  predicate SoleIfExclusive(h: seq<LockRecord>) {
    forall i :: 0 <= i < |h| && h[i].lockType == Exclusive ==> |h| == 1
  }

  /** The type that the holders determine. */
  function TypeOf(h: seq<LockRecord>): Option<LockType> {
    if h == [] then None else Some(h[0].lockType)
  }

  /**
   * count is the number of holders, pids are distinct, an exclusive holder is alone, lock_type agrees with the
   * holders.
   */
  predicate StateOk(s: LockState) {
    s.count == |s.holders| && DistinctPids(s.holders) && SoleIfExclusive(s.holders) && s.lockType == TypeOf(s.holders)
  }

  predicate TableOk(t: Table) {
    forall k :: k in t ==> StateOk(t[k])
  }

  function Holders(t: Table, k: Key): seq<LockRecord> {
    if k in t then t[k].holders else []
  }

  /** What a task holds on a file. */
  function Mode(t: Table, k: Key, pid: nat): Option<LockType> {
    var h := Holders(t, k);
    var i := Position(h, pid);
    if i < |h| then Some(h[i].lockType) else None
  }

  // ---- Specifications of the atomic sections ------------------------------

  predicate SharedGranted(t: Table, k: Key, pid: nat) {
    Mode(t, k, pid).Some? || TypeOf(Holders(t, k)) != Some(Exclusive)
  }

  predicate ExclusiveGranted(t: Table, k: Key, pid: nat) {
    Holders(t, k) == [] || (|Holders(t, k)| == 1 && Holders(t, k)[0].pid == pid)
  }

  function AfterShared(t: Table, k: Key, pid: nat): Table {
    if !SharedGranted(t, k, pid) || Mode(t, k, pid).Some? then t
    else
      var h := Holders(t, k) + [LockRecord(Shared, pid)];
      t[k := LockState(|h|, Some(Shared), h)]
  }

  function AfterExclusive(t: Table, k: Key, pid: nat): Table {
    if !ExclusiveGranted(t, k, pid) then t else t[k := LockState(1, Some(Exclusive), [LockRecord(Exclusive, pid)])]
  }

  /** An inode's lock without the holder `pid`. */
  function Released(s: LockState, pid: nat): LockState {
    if Position(s.holders, pid) == |s.holders| then s
    else
      var h := Retain(s.holders, pid);
      LockState(|h|, TypeOf(h), h)
  }

  function AfterRelease(t: Table, k: Key, pid: nat): Table {
    if k in t then t[k := Released(t[k], pid)] else t
  }

  /** Task exit: every lock of `pid` is released. */
  function AfterExit(t: Table, pid: nat): Table {
    map k | k in t :: Released(t[k], pid)
  }

  // ---- Facts about holder lists -------------------------------------------

  lemma PositionAbsent(h: seq<LockRecord>, pid: nat)
    requires forall j :: 0 <= j < |h| ==> h[j].pid != pid
    ensures Position(h, pid) == |h|
  {
  }

  lemma {:induction false} RetainFacts(h: seq<LockRecord>, pid: nat)
    requires DistinctPids(h)
    ensures |Retain(h, pid)| == if Position(h, pid) < |h| then |h| - 1 else |h|
    ensures Position(h, pid) == |h| ==> Retain(h, pid) == h
    ensures DistinctPids(Retain(h, pid))
  {
    if h != [] {
      RetainFacts(h[1..], pid);
      RetainMembers(h[1..], pid);
      var rest := Retain(h[1..], pid);
      if h[0].pid == pid {
        PositionAbsent(h[1..], pid);
        assert Retain(h, pid) == rest;
      } else {
        assert Retain(h, pid) == [h[0]] + rest;
        forall j | 0 <= j < |rest| ensures rest[j].pid != h[0].pid {
          assert rest[j] in rest;
        }
      }
    }
  }

  lemma {:induction false} RetainMembers(h: seq<LockRecord>, pid: nat)
    ensures forall r :: r in Retain(h, pid) <==> r in h && r.pid != pid
  {
    if h != [] {
      RetainMembers(h[1..], pid);
      assert h == [h[0]] + h[1..];
    }
  }

  /** A record determines the position of its pid. */
  lemma PositionOf(h: seq<LockRecord>, i: nat)
    requires DistinctPids(h) && i < |h|
    ensures Position(h, h[i].pid) == i
  {
  }

  lemma ReleaseOk(s: LockState, pid: nat)
    requires StateOk(s)
    ensures StateOk(Released(s, pid))
  {
    RetainFacts(s.holders, pid);
    RetainMembers(s.holders, pid);
    var h' := Retain(s.holders, pid);
    forall i | 0 <= i < |h'| && h'[i].lockType == Exclusive ensures |h'| == 1 {
      assert h'[i] in s.holders;
    }
  }

  /** Removing one of several holders leaves the lock type as it was. */
  lemma ExitIsRelease(s: LockState, pid: nat)
    requires StateOk(s) && Position(s.holders, pid) < |s.holders|
    ensures var h := Retain(s.holders, pid);
            |h| == |s.holders| - 1 && Released(s, pid) == LockState(|h|, if |h| == 0 then None else s.lockType, h)
  {
    RetainFacts(s.holders, pid);
    var h := Retain(s.holders, pid);
    if h != [] { assert h[0] in h && h[0] in s.holders; }
  }

  lemma TypeRecomputed(h: seq<LockRecord>, exclusive: bool)
    requires SoleIfExclusive(h) && (exclusive <==> exists i :: 0 <= i < |h| && h[i].lockType == Exclusive)
    ensures h != [] ==> TypeOf(h) == if exclusive then Some(Exclusive) else Some(Shared)
  {
  }

  /** The files in `stale` are still to be released. */
  ghost predicate PartlyReleased(t: Table, u: Table, stale: set<Key>, pid: nat) {
    && TableOk(t) && u.Keys == t.Keys
    && (forall k :: k in t ==> u[k] == if k in stale then t[k] else Released(t[k], pid))
    && (forall k :: k in stale ==> k in t && Position(t[k].holders, pid) < |t[k].holders|)
  }

  lemma AllReleased(t: Table, u: Table, pid: nat)
    requires PartlyReleased(t, u, {}, pid)
    ensures u == AfterExit(t, pid) && TableOk(u)
  {
    forall k | k in t ensures StateOk(Released(t[k], pid)) { ReleaseOk(t[k], pid); }
  }

  // ---- The lock table -----------------------------------------------------

  class FileLocks {
    var locks: Table

    ghost predicate Valid()
      reads this
    {
      TableOk(locks)
    }

    constructor ()
      ensures Valid() && locks == map[]
    {
      locks := map[];
    }

    /** flock: LOCK_NB is bit 2 of the operation. */
    method Flock(k: Key, op: nat, nonblocking: bool, pid: nat) returns (r: Reply)
      requires Valid()
      modifies this
      ensures Valid()
      ensures op == 1 ==> locks == AfterShared(old(locks), k, pid)
      ensures op == 2 ==> locks == AfterExclusive(old(locks), k, pid)
      ensures op == 8 ==> locks == AfterRelease(old(locks), k, pid)
      ensures op !in {1, 2, 8} ==> locks == old(locks)
      ensures r == Answer(old(locks), k, op, nonblocking, pid)
    {
      if op == 1 {
        r := AcquireShared(k, pid, nonblocking);
      } else if op == 2 {
        r := AcquireExclusive(k, pid, nonblocking);
      } else if op == 8 {
        ReleaseLock(k, pid);
        r := Granted;
      } else {
        r := InvalidArgument;
      }
    }

    method AcquireShared(k: Key, pid: nat, nonblocking: bool) returns (r: Reply)
      requires Valid()
      modifies this
      ensures Valid() && locks == AfterShared(old(locks), k, pid)
      ensures r == if SharedGranted(old(locks), k, pid) then Granted else if nonblocking then WouldBlock else Waiting
    {
      var rec := LockRecord(Shared, pid);
      if k !in locks {
        assert [] + [rec] == [rec];
        locks := locks[k := LockState(1, Some(Shared), [rec])];
        return Granted;
      }
      var state := locks[k];
      if Position(state.holders, pid) < |state.holders| { return Granted; }
      match state.lockType
      case None =>
        locks := locks[k := LockState(1, Some(Shared), state.holders + [rec])];
        r := Granted;
      case Some(Shared) =>
        locks := locks[k := LockState(state.count + 1, state.lockType, state.holders + [rec])];
        r := Granted;
      case Some(Exclusive) =>
        r := if nonblocking then WouldBlock else Waiting;
    }

    /** The retry of the spin loop: the same answer and the same next state as a non-blocking acquire. */
    method TryAcquireShared(k: Key, pid: nat) returns (r: Reply)
      requires Valid()
      modifies this
      ensures Valid() && locks == AfterShared(old(locks), k, pid)
      ensures r == if SharedGranted(old(locks), k, pid) then Granted else WouldBlock
    {
      var rec := LockRecord(Shared, pid);
      if k !in locks {
        assert [] + [rec] == [rec];
        locks := locks[k := LockState(1, Some(Shared), [rec])];
        return Granted;
      }
      var state := locks[k];
      if Position(state.holders, pid) < |state.holders| { return Granted; }
      if state.lockType == Some(Exclusive) { return WouldBlock; }
      locks := locks[k := LockState(state.count + 1, Some(Shared), state.holders + [rec])];
      r := Granted;
    }

    method AcquireExclusive(k: Key, pid: nat, nonblocking: bool) returns (r: Reply)
      requires Valid()
      modifies this
      ensures Valid() && locks == AfterExclusive(old(locks), k, pid)
      ensures r == if ExclusiveGranted(old(locks), k, pid) then Granted else if nonblocking then WouldBlock else Waiting
    {
      var rec := LockRecord(Exclusive, pid);
      var blocked := if nonblocking then WouldBlock else Waiting;
      if k !in locks {
        locks := locks[k := LockState(1, Some(Exclusive), [rec])];
        return Granted;
      }
      var state := locks[k];
      var pos := Position(state.holders, pid);
      if pos < |state.holders| {
        if state.holders[pos].lockType == Exclusive {
          AlreadyExclusive(locks, k, pid);
          return Granted;
        }
        if state.count == 1 {
          assert state.holders[pos := rec] == [rec];
          locks := locks[k := LockState(state.count, Some(Exclusive), state.holders[pos := rec])];
          return Granted;
        }
        return blocked;
      }
      if state.lockType.None? {
        assert state.holders + [rec] == [rec];
        locks := locks[k := LockState(1, Some(Exclusive), state.holders + [rec])];
        return Granted;
      }
      r := blocked;
    }

    method TryAcquireExclusive(k: Key, pid: nat) returns (r: Reply)
      requires Valid()
      modifies this
      ensures Valid() && locks == AfterExclusive(old(locks), k, pid)
      ensures r == if ExclusiveGranted(old(locks), k, pid) then Granted else WouldBlock
    {
      var rec := LockRecord(Exclusive, pid);
      if k !in locks {
        locks := locks[k := LockState(1, Some(Exclusive), [rec])];
        return Granted;
      }
      var state := locks[k];
      var pos := Position(state.holders, pid);
      if pos < |state.holders| {
        if state.holders[pos].lockType == Exclusive {
          AlreadyExclusive(locks, k, pid);
          return Granted;
        }
        if state.count == 1 {
          assert state.holders[pos := rec] == [rec];
          locks := locks[k := LockState(state.count, Some(Exclusive), state.holders[pos := rec])];
          return Granted;
        }
      }
      if state.count == 0 {
        assert state.holders + [rec] == [rec];
        locks := locks[k := LockState(1, Some(Exclusive), state.holders + [rec])];
        return Granted;
      }
      r := WouldBlock;
    }

    method ReleaseLock(k: Key, pid: nat)
      requires Valid()
      modifies this
      ensures Valid() && locks == AfterRelease(old(locks), k, pid)
    {
      if k !in locks { return; }
      ReleaseOk(locks[k], pid);
      var state := RemoveHolder(locks[k], pid);
      locks := locks[k := state];
    }

    /** The body of release_lock: retain, count, and the lock type recomputed from the remaining holders. */
    static method RemoveHolder(state: LockState, pid: nat) returns (r: LockState)
      requires StateOk(state)
      ensures r == Released(state, pid)
    {
      RetainFacts(state.holders, pid);
      ReleaseOk(state, pid);
      var kept := Retain(state.holders, pid);
      var removed := |state.holders| - |kept|;
      if removed == 0 { return state.(holders := kept); }
      var count := state.count - removed;
      var exclusive := AnyExclusive(kept);
      TypeRecomputed(kept, exclusive);
      var kind := if count == 0 || kept == [] then None else if exclusive then Some(Exclusive) else Some(Shared);
      r := LockState(count, kind, kept);
    }

    /** release_all_for_task: the loop visits the files on which `pid` holds a lock, in any order. */
    method ReleaseAllForTask(pid: nat)
      requires Valid()
      modifies this
      ensures Valid() && locks == AfterExit(old(locks), pid)
    {
      var stale := set k | k in locks && Position(locks[k].holders, pid) < |locks[k].holders|;
      ghost var t := locks;
      while stale != {}
        invariant PartlyReleased(t, locks, stale, pid)
        decreases |stale|
      {
        var k :| k in stale;
        var state := StripHolder(locks[k], pid);
        locks := locks[k := state];
        stale := stale - {k};
      }
      AllReleased(t, locks, pid);
    }

    /** The loop body of release_all_for_task, which leaves the lock type of remaining holders alone. */
    static method StripHolder(state: LockState, pid: nat) returns (r: LockState)
      requires StateOk(state) && Position(state.holders, pid) < |state.holders|
      ensures r == Released(state, pid)
    {
      ExitIsRelease(state, pid);
      var kept := Retain(state.holders, pid);
      var removed := |state.holders| - |kept|;
      var count := if removed <= state.count then state.count - removed else 0;
      r := LockState(count, if count == 0 then None else state.lockType, kept);
    }

    static method AnyExclusive(h: seq<LockRecord>) returns (b: bool)
      ensures b <==> exists i :: 0 <= i < |h| && h[i].lockType == Exclusive
    {
      for i := 0 to |h|
        invariant forall j :: 0 <= j < i ==> h[j].lockType != Exclusive
      {
        if h[i].lockType == Exclusive { return true; }
      }
      b := false;
    }
  }

  function Answer(t: Table, k: Key, op: nat, nonblocking: bool, pid: nat): Reply {
    if op !in {1, 2, 8} then InvalidArgument
    else if op == 8 || (op == 1 && SharedGranted(t, k, pid)) || (op == 2 && ExclusiveGranted(t, k, pid)) then Granted
    else if nonblocking then WouldBlock
    else Waiting
  }

  /** An exclusive holder that asks again changes nothing. */
  lemma AlreadyExclusive(t: Table, k: Key, pid: nat)
    requires TableOk(t) && Mode(t, k, pid) == Some(Exclusive)
    ensures ExclusiveGranted(t, k, pid) && AfterExclusive(t, k, pid) == t
  {
    var h := t[k].holders;
    assert StateOk(t[k]) && h[Position(h, pid)] == LockRecord(Exclusive, pid) && |h| == 1;
    assert h == [LockRecord(Exclusive, pid)];
    assert t[k] == LockState(1, Some(Exclusive), h);
  }

  // ---- Runs ---------------------------------------------------------------

  /** The atomic sections: each acquire stands for a first attempt, a retry or an upgrade alike. */
  datatype Op =
    | OpShared(k: Key, pid: nat)
    | OpExclusive(k: Key, pid: nat)
    | OpRelease(k: Key, pid: nat)
    | OpExit(pid: nat)

  function Step(t: Table, op: Op): Table {
    match op
    case OpShared(k, pid) => AfterShared(t, k, pid)
    case OpExclusive(k, pid) => AfterExclusive(t, k, pid)
    case OpRelease(k, pid) => AfterRelease(t, k, pid)
    case OpExit(pid) => AfterExit(t, pid)
  }

  function Run(t: Table, ops: seq<Op>): Table {
    if ops == [] then t else Step(Run(t, ops[..|ops| - 1]), ops[|ops| - 1])
  }

  ghost predicate OthersHoldNone(t: Table, k: Key, pid: nat) {
    forall q: nat :: q != pid ==> Mode(t, k, q) == None
  }

  ghost predicate NoneExclusive(t: Table, k: Key) {
    forall q: nat :: Mode(t, k, q) != Some(Exclusive)
  }

  ghost predicate SameBut(t: Table, t': Table, k: Key, pid: nat) {
    forall j, q: nat :: !(j == k && q == pid) ==> Mode(t', j, q) == Mode(t, j, q)
  }

  /**
   * The rule of advisory locks, in terms of who holds what: shared unless someone holds it exclusively, exclusive
   * only if no other task holds any lock; a refused request changes nothing; release and exit drop the caller's
   * locks only.
   */
  ghost predicate Follows(t: Table, t': Table, op: Op) {
    match op
    case OpShared(k, pid) =>
      && SameBut(t, t', k, pid)
      && Mode(t', k, pid) == if Mode(t, k, pid).Some? || !NoneExclusive(t, k) then Mode(t, k, pid) else Some(Shared)
    case OpExclusive(k, pid) =>
      && SameBut(t, t', k, pid)
      && Mode(t', k, pid) == if OthersHoldNone(t, k, pid) then Some(Exclusive) else Mode(t, k, pid)
    case OpRelease(k, pid) => SameBut(t, t', k, pid) && Mode(t', k, pid) == None
    case OpExit(pid) => forall k, q: nat :: Mode(t', k, q) == if q == pid then None else Mode(t, k, q)
  }

  lemma SharedRule(t: Table, k: Key)
    requires TableOk(t)
    ensures TypeOf(Holders(t, k)) != Some(Exclusive) <==> NoneExclusive(t, k)
  {
    var h := Holders(t, k);
    if h != [] {
      PositionOf(h, 0);
      assert Mode(t, k, h[0].pid) == Some(h[0].lockType);
    }
  }

  lemma ExclusiveRule(t: Table, k: Key, pid: nat)
    requires TableOk(t)
    ensures ExclusiveGranted(t, k, pid) <==> OthersHoldNone(t, k, pid)
  {
    var h := Holders(t, k);
    assert |h| > 1 ==> h[0].pid != h[1].pid;
    if OthersHoldNone(t, k, pid) {
      forall i | 0 <= i < |h| ensures h[i].pid == pid {
        PositionOf(h, i);
        assert Mode(t, k, h[i].pid).Some?;
      }
    }
  }

  lemma {:induction false} PositionAppend(h: seq<LockRecord>, r: LockRecord, q: nat)
    ensures Position(h + [r], q) == if Position(h, q) < |h| then Position(h, q) else if r.pid == q then |h| else |h| + 1
  {
    if h != [] {
      PositionAppend(h[1..], r, q);
      assert (h + [r])[1..] == h[1..] + [r];
    }
  }

  lemma SharedFollows(t: Table, k: Key, pid: nat)
    requires TableOk(t)
    ensures TableOk(AfterShared(t, k, pid)) && Follows(t, AfterShared(t, k, pid), OpShared(k, pid))
  {
    SharedRule(t, k);
    if SharedGranted(t, k, pid) && Mode(t, k, pid).None? {
      SharedAdded(t, k, pid);
    }
  }

  /** A record appended to a list without exclusive holders. */
  lemma SharedAdded(t: Table, k: Key, pid: nat)
    requires TableOk(t) && Mode(t, k, pid).None? && TypeOf(Holders(t, k)) != Some(Exclusive)
    ensures var t' := AfterShared(t, k, pid);
            TableOk(t') && SameBut(t, t', k, pid) && Mode(t', k, pid) == Some(Shared)
  {
    var t' := AfterShared(t, k, pid);
    var h := Holders(t, k);
    forall q: nat ensures Mode(t', k, q) == if q == pid then Some(Shared) else Mode(t, k, q) {
      PositionAppend(h, LockRecord(Shared, pid), q);
    }
    SharedAddedOk(h, pid);
  }

  lemma SharedAddedOk(h: seq<LockRecord>, pid: nat)
    requires DistinctPids(h) && SoleIfExclusive(h) && TypeOf(h) != Some(Exclusive) && Position(h, pid) == |h|
    ensures DistinctPids(h + [LockRecord(Shared, pid)]) && SoleIfExclusive(h + [LockRecord(Shared, pid)])
    ensures TypeOf(h + [LockRecord(Shared, pid)]) == Some(Shared)
  {
    assert forall i :: 0 <= i < |h| ==> h[i].lockType == Shared;
  }

  lemma ExclusiveFollows(t: Table, k: Key, pid: nat)
    requires TableOk(t)
    ensures TableOk(AfterExclusive(t, k, pid)) && Follows(t, AfterExclusive(t, k, pid), OpExclusive(k, pid))
  {
    ExclusiveRule(t, k, pid);
  }

  lemma ReleasedMode(s: LockState, pid: nat, q: nat)
    requires StateOk(s)
    ensures var i, j := Position(s.holders, q), Position(Released(s, pid).holders, q);
            && (q == pid ==> j == |Released(s, pid).holders|)
            && (q != pid ==> (i < |s.holders| <==> j < |Released(s, pid).holders|))
            && (q != pid && i < |s.holders| ==> Released(s, pid).holders[j] == s.holders[i])
  {
    RetainFacts(s.holders, pid);
    if Position(s.holders, pid) < |s.holders| { RetainMode(s.holders, pid, q); }
  }

  lemma RetainMode(h: seq<LockRecord>, pid: nat, q: nat)
    requires DistinctPids(h)
    ensures var i, j := Position(h, q), Position(Retain(h, pid), q);
            && (q == pid ==> j == |Retain(h, pid)|)
            && (q != pid ==> (i < |h| <==> j < |Retain(h, pid)|))
            && (q != pid && i < |h| ==> Retain(h, pid)[j] == h[i])
  {
    RetainMembers(h, pid);
    var h' := Retain(h, pid);
    var i, j := Position(h, q), Position(h', q);
    if j < |h'| {
      assert h'[j] in h';
      var n :| 0 <= n < |h| && h[n] == h'[j];
      PositionOf(h, n);
    } else if i < |h| {
      assert h[i] in h;
    }
  }

  lemma ReleaseFollows(t: Table, k: Key, pid: nat)
    requires TableOk(t)
    ensures TableOk(AfterRelease(t, k, pid)) && Follows(t, AfterRelease(t, k, pid), OpRelease(k, pid))
  {
    if k in t {
      ReleaseOk(t[k], pid);
      forall q: nat
        ensures Mode(AfterRelease(t, k, pid), k, q) == if q == pid then None else Mode(t, k, q)
      {
        ReleasedMode(t[k], pid, q);
      }
    }
  }

  lemma ExitFollows(t: Table, pid: nat)
    requires TableOk(t)
    ensures TableOk(AfterExit(t, pid)) && Follows(t, AfterExit(t, pid), OpExit(pid))
  {
    var t' := AfterExit(t, pid);
    forall k | k in t' ensures StateOk(t'[k]) { ReleaseOk(t[k], pid); }
    forall k, q: nat ensures Mode(t', k, q) == if q == pid then None else Mode(t, k, q) {
      if k in t { ReleasedMode(t[k], pid, q); }
    }
  }

  lemma StepFollows(t: Table, op: Op)
    requires TableOk(t)
    ensures TableOk(Step(t, op)) && Follows(t, Step(t, op), op)
  {
    match op
    case OpShared(k, pid) => SharedFollows(t, k, pid);
    case OpExclusive(k, pid) => ExclusiveFollows(t, k, pid);
    case OpRelease(k, pid) => ReleaseFollows(t, k, pid);
    case OpExit(pid) => ExitFollows(t, pid);
  }

  /**
   * In every interleaving the table is consistent, each step follows the rule, and an exclusive holder is the only
   * holder.
   */
  lemma {:induction false} RunsFollow(ops: seq<Op>)
    ensures TableOk(Run(map[], ops))
    ensures ops != [] ==> Follows(Run(map[], ops[..|ops| - 1]), Run(map[], ops), ops[|ops| - 1])
    ensures forall k, p: nat :: Mode(Run(map[], ops), k, p) == Some(Exclusive) ==> OthersHoldNone(Run(map[], ops), k, p)
  {
    if ops != [] {
      RunsFollow(ops[..|ops| - 1]);
      StepFollows(Run(map[], ops[..|ops| - 1]), ops[|ops| - 1]);
    }
    var t := Run(map[], ops);
    forall k, p: nat | Mode(t, k, p) == Some(Exclusive) ensures OthersHoldNone(t, k, p) {
      AlreadyExclusive(t, k, p);
      ExclusiveRule(t, k, p);
    }
  }
}
