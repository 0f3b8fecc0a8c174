/**
 * The interrupt-safe spinlock IntMutex as a step system: several CPUs take and release locks one instruction at a
 * time, and interrupts push handlers that take locks themselves (kernel/src/sync.rs).
 */
module IntMutexes {
  /** Where a context stands inside lock() or unlock() of mutex `m`; `was` is the interrupt flag it read. */
  datatype Pc =
    | Idle
    | Saved(m: nat, was: bool)
    | Spinning(m: nat, was: bool)
    | Acquired(m: nat, was: bool)
    | Loaded(m: nat, was: bool)
    | Released(m: nat, was: bool)

  /**
   * A task or interrupt handler: its guards in the order taken, and `base`, the history of the flag seen by the
   * lock() that was called when it held no guard.
   */
  datatype Ctx = Ctx(pc: Pc, guards: seq<nat>, base: bool)

  /** A CPU: RFLAGS.IF, the running context and the contexts it interrupted. */
  datatype Cpu = Cpu(intr: bool, top: Ctx, below: seq<Ctx>)

  /** The mutexes whose `lock` is true and those whose `saved_if` is true. */
  datatype State = State(cpus: seq<Cpu>, locked: set<nat>, savedIf: set<nat>)

  datatype Act =
    | ReadIf(m: nat) | Cli | Cas | StoreSaved
    | LoadSaved(m: nat) | Release | Restore
    | Interrupt | Iret | SetIf(on: bool)

  predicate Enabled(s: State, c: nat, a: Act) {
    c < |s.cpus| &&
    var cpu := s.cpus[c];
    match a
    case ReadIf(_) => cpu.top.pc.Idle?
    case Cli => cpu.top.pc.Saved?
    case Cas => cpu.top.pc.Spinning?
    case StoreSaved => cpu.top.pc.Acquired?
    case LoadSaved(m) => cpu.top.pc.Idle? && m in cpu.top.guards
    case Release => cpu.top.pc.Loaded?
    case Restore => cpu.top.pc.Released?
    case Interrupt => cpu.intr
    case Iret => cpu.below != [] && cpu.top.pc.Idle? && cpu.top.guards == []
    case SetIf(_) => cpu.top.pc.Idle? && cpu.top.guards == []
  }

  /** The guard list without `m`. */
  function Without(g: seq<nat>, m: nat): seq<nat> {
    if g == [] then [] else if g[0] == m then g[1..] else [g[0]] + Without(g[1..], m)
  }

  /** What an action does to the CPU that takes it. */
  function CpuAfter(s: State, c: nat, a: Act): Cpu
    requires Enabled(s, c, a)
  {
    var cpu := s.cpus[c];
    var x := cpu.top;
    match a
    case ReadIf(m) => cpu.(top := x.(pc := Saved(m, cpu.intr), base := if x.guards == [] then cpu.intr else x.base))
    case Cli => cpu.(intr := false, top := x.(pc := Spinning(x.pc.m, x.pc.was)))
    case Cas => if x.pc.m in s.locked then cpu else cpu.(top := x.(pc := Acquired(x.pc.m, x.pc.was)))
    case StoreSaved => cpu.(top := x.(pc := Idle, guards := x.guards + [x.pc.m]))
    case LoadSaved(m) => cpu.(top := x.(pc := Loaded(m, m in s.savedIf)))
    case Release => cpu.(top := x.(pc := Released(x.pc.m, x.pc.was), guards := Without(x.guards, x.pc.m)))
    case Restore => cpu.(intr := cpu.intr || x.pc.was, top := x.(pc := Idle))
    case Interrupt => Cpu(false, Ctx(Idle, [], false), cpu.below + [x])
    case Iret => Cpu(true, cpu.below[|cpu.below| - 1], cpu.below[..|cpu.below| - 1])
    case SetIf(on) => cpu.(intr := on)
  }

  function Apply(s: State, c: nat, a: Act): State
    requires Enabled(s, c, a)
  {
    var pc := s.cpus[c].top.pc;
    State(
      s.cpus[c := CpuAfter(s, c, a)],
      if a.Cas? then s.locked + {pc.m} else if a.Release? then s.locked - {pc.m} else s.locked,
      if !a.StoreSaved? then s.savedIf else if pc.was then s.savedIf + {pc.m} else s.savedIf - {pc.m})
  }

  /** The drop of guard `m` is the last guard taken by its context. */
  predicate Lifo(s: State, c: nat, a: Act) {
    Enabled(s, c, a) && (a.LoadSaved? ==> var g := s.cpus[c].top.guards; g[|g| - 1] == a.m)
  }

  /** Weaker than Lifo: the first guard is dropped last, unless interrupts were off to begin with. */
  predicate DropOk(s: State, c: nat, a: Act) {
    Enabled(s, c, a) && (a.LoadSaved? ==> var x := s.cpus[c].top; x.guards[0] == a.m ==> |x.guards| == 1 || !x.base)
  }

  // ---- The invariant ------------------------------------------------------

  predicate Holds(x: Ctx, m: nat) {
    m in x.guards || (x.pc.Acquired? && x.pc.m == m)
  }

  predicate Distinct(g: seq<nat>) {
    forall i, j :: 0 <= i < j < |g| ==> g[i] != g[j]
  }

  /** A suspended context holds nothing; if it was inside lock(), it has read IF as on and will turn it off again. */
  predicate Calm(x: Ctx) {
    x.guards == [] && (x.pc.Idle? || (x.pc.Saved? && x.pc.was && x.base))
  }

  /** The flag that the context carries is right for the guards it holds. */
  predicate FlagOk(x: Ctx, intr: bool) {
    match x.pc
    case Idle => true
    case Saved(_, was) => was == intr && was == (x.guards == [] && x.base)
    case Loaded(m, was) =>
      && m in x.guards && was == (m == x.guards[0] && x.base)
      && (m == x.guards[0] ==> |x.guards| == 1 || !x.base)
    case _ => x.pc.was == (x.guards == [] && x.base)
  }

  predicate SavedOk(x: Ctx, savedIf: set<nat>) {
    forall i :: 0 <= i < |x.guards| ==> (x.guards[i] in savedIf <==> i == 0 && x.base)
  }

  predicate CpuOk(cpu: Cpu, savedIf: set<nat>) {
    && (forall i :: 0 <= i < |cpu.below| ==> Calm(cpu.below[i]))
    && (cpu.intr ==> cpu.top.guards == [] && (cpu.top.pc.Idle? || cpu.top.pc.Saved?))
    && FlagOk(cpu.top, cpu.intr)
    && Distinct(cpu.top.guards) && (cpu.top.pc.Acquired? ==> cpu.top.pc.m !in cpu.top.guards)
    && SavedOk(cpu.top, savedIf)
  }

  /** A mutex is locked exactly when a running context holds it, and then only one does. */
  ghost predicate LocksOk(s: State) {
    && (forall c, m :: 0 <= c < |s.cpus| && Holds(s.cpus[c].top, m) ==> m in s.locked)
    && (forall m :: m in s.locked ==> exists c :: 0 <= c < |s.cpus| && Holds(s.cpus[c].top, m))
    && (forall c, d, m ::
        0 <= c < |s.cpus| && 0 <= d < |s.cpus| && Holds(s.cpus[c].top, m) && Holds(s.cpus[d].top, m) ==> c == d)
  }

  ghost predicate Inv(s: State) {
    LocksOk(s) && forall c :: 0 <= c < |s.cpus| ==> CpuOk(s.cpus[c], s.savedIf)
  }

  // ---- Every step keeps the invariant -------------------------------------

  lemma {:induction false} WithoutMember(g: seq<nat>, m: nat)
    requires Distinct(g) && m in g
    ensures m !in Without(g, m) && Distinct(Without(g, m))
    ensures forall n :: n != m ==> (n in Without(g, m) <==> n in g)
    ensures |Without(g, m)| == |g| - 1
    ensures m == g[0] ==> Without(g, m) == g[1..]
    ensures m != g[0] ==> Without(g, m)[0] == g[0]
  {
    if g[0] != m {
      assert m in g[1..];
      WithoutMember(g[1..], m);
      var w := Without(g[1..], m);
      assert Without(g, m) == [g[0]] + w;
      assert g[0] !in w;
    }
  }

  /** The saved flags stay right when a guard other than a first one with interrupts on is dropped. */
  lemma DropKeepsSaved(x: Ctx, savedIf: set<nat>, m: nat)
    requires Distinct(x.guards) && m in x.guards && SavedOk(x, savedIf)
    requires (m == x.guards[0] ==> |x.guards| == 1 || !x.base)
    ensures SavedOk(x.(guards := Without(x.guards, m)), savedIf)
  {
    WithoutMember(x.guards, m);
    var w := Without(x.guards, m);
    forall i | 0 <= i < |w| ensures w[i] in savedIf <==> i == 0 && x.base {
      assert w[i] in x.guards;
      var k :| 0 <= k < |x.guards| && x.guards[k] == w[i];
      assert x.guards[k] in savedIf <==> k == 0 && x.base;
    }
  }

  /** The CPU that takes the step. */
  lemma CpuStep(s: State, c: nat, a: Act)
    requires Inv(s) && DropOk(s, c, a)
    ensures CpuOk(CpuAfter(s, c, a), Apply(s, c, a).savedIf)
  {
    var cpu := s.cpus[c];
    assert CpuOk(cpu, s.savedIf);
    if a.Release? {
      WithoutMember(cpu.top.guards, cpu.top.pc.m);
      DropKeepsSaved(cpu.top, s.savedIf, cpu.top.pc.m);
    } else if a.LoadSaved? {
      var k :| 0 <= k < |cpu.top.guards| && cpu.top.guards[k] == a.m;
    }
  }

  /** The other CPUs: only the flag of the mutex being locked changes, and they do not hold it. */
  lemma OtherCpu(s: State, c: nat, a: Act, d: nat)
    requires Inv(s) && Enabled(s, c, a) && d < |s.cpus| && d != c
    ensures CpuOk(s.cpus[d], Apply(s, c, a).savedIf)
  {
    assert CpuOk(s.cpus[d], s.savedIf);
    if a.StoreSaved? {
      var m := s.cpus[c].top.pc.m;
      assert Holds(s.cpus[c].top, m);
      assert !Holds(s.cpus[d].top, m);
    }
  }

  /** What the acting CPU holds before and after, against the set of locked mutexes. */
  lemma HoldsAfter(s: State, c: nat, a: Act, m: nat)
    requires Inv(s) && DropOk(s, c, a)
    ensures Holds(CpuAfter(s, c, a).top, m) ==>
      Holds(s.cpus[c].top, m) || (a.Cas? && m == s.cpus[c].top.pc.m && m !in s.locked)
    ensures Holds(s.cpus[c].top, m) && !Holds(CpuAfter(s, c, a).top, m) ==> a.Release? && m == s.cpus[c].top.pc.m
    ensures a.Release? ==> Holds(s.cpus[c].top, s.cpus[c].top.pc.m) && !Holds(CpuAfter(s, c, a).top, s.cpus[c].top.pc.m)
    ensures a.Cas? && s.cpus[c].top.pc.m !in s.locked ==> Holds(CpuAfter(s, c, a).top, s.cpus[c].top.pc.m)
  {
    var cpu := s.cpus[c];
    assert CpuOk(cpu, s.savedIf);
    if a.Release? { WithoutMember(cpu.top.guards, cpu.top.pc.m); }
    if a.Iret? { assert Calm(cpu.below[|cpu.below| - 1]); }
  }

  lemma LocksStep(s: State, c: nat, a: Act)
    requires Inv(s) && DropOk(s, c, a)
    ensures LocksOk(Apply(s, c, a))
  {
    var s' := Apply(s, c, a);
    forall d, m | 0 <= d < |s'.cpus| && Holds(s'.cpus[d].top, m) ensures m in s'.locked {
      HoldsAfter(s, c, a, m);
      if d != c { assert Holds(s.cpus[d].top, m); }
    }
    forall m | m in s'.locked ensures exists d :: 0 <= d < |s'.cpus| && Holds(s'.cpus[d].top, m) {
      HoldsAfter(s, c, a, m);
      if m in s.locked {
        var d :| 0 <= d < |s.cpus| && Holds(s.cpus[d].top, m);
        assert Holds(s'.cpus[d].top, m);
      } else {
        assert Holds(s'.cpus[c].top, m);
      }
    }
    forall d, e, m | 0 <= d < |s'.cpus| && 0 <= e < |s'.cpus| && Holds(s'.cpus[d].top, m) && Holds(s'.cpus[e].top, m)
      ensures d == e
    {
      HoldsAfter(s, c, a, m);
    }
  }

  lemma InvStep(s: State, c: nat, a: Act)
    requires Inv(s) && DropOk(s, c, a)
    ensures Inv(Apply(s, c, a))
  {
    LocksStep(s, c, a);
    CpuStep(s, c, a);
    forall d | 0 <= d < |s.cpus| && d != c ensures CpuOk(s.cpus[d], Apply(s, c, a).savedIf) { OtherCpu(s, c, a, d); }
  }

  // ---- Runs ---------------------------------------------------------------

  /** All locks free, every CPU running one context with no guard; interrupts on or off. */
  predicate Init(s: State) {
    && s.locked == {}
    && forall c :: 0 <= c < |s.cpus| ==> s.cpus[c].below == [] && s.cpus[c].top.pc.Idle? && s.cpus[c].top.guards == []
  }

  /** The interleaving `run` can happen from `s`, with every guard drop in LIFO order per context. */
  predicate LifoRun(s: State, run: seq<(nat, Act)>)
    decreases |run|
  {
    run == [] || (Lifo(s, run[0].0, run[0].1) && LifoRun(Apply(s, run[0].0, run[0].1), run[1..]))
  }

  /** The interleaving `run` can happen from `s`, with drops in any order that DropOk admits. */
  predicate OkRun(s: State, run: seq<(nat, Act)>)
    decreases |run|
  {
    run == [] || (DropOk(s, run[0].0, run[0].1) && OkRun(Apply(s, run[0].0, run[0].1), run[1..]))
  }

  function After(s: State, run: seq<(nat, Act)>): State
    requires OkRun(s, run)
    decreases |run|
  {
    if run == [] then s else After(Apply(s, run[0].0, run[0].1), run[1..])
  }

  lemma LifoIsOk(s: State, c: nat, a: Act)
    requires Inv(s) && Lifo(s, c, a)
    ensures DropOk(s, c, a)
  {
    assert CpuOk(s.cpus[c], s.savedIf);
  }

  lemma {:induction false} LifoRunIsOk(s: State, run: seq<(nat, Act)>)
    requires Inv(s) && LifoRun(s, run)
    ensures OkRun(s, run)
    decreases |run|
  {
    if run != [] {
      LifoIsOk(s, run[0].0, run[0].1);
      InvStep(s, run[0].0, run[0].1);
      LifoRunIsOk(Apply(s, run[0].0, run[0].1), run[1..]);
    }
  }

  lemma {:induction false} RunKeepsInv(s: State, run: seq<(nat, Act)>)
    requires Inv(s) && OkRun(s, run)
    ensures Inv(After(s, run))
    decreases |run|
  {
    if run != [] {
      InvStep(s, run[0].0, run[0].1);
      RunKeepsInv(Apply(s, run[0].0, run[0].1), run[1..]);
    }
  }

  /** At most one context on one CPU holds a mutex, and it holds it once. */
  ghost predicate OneHolder(s: State) {
    && (forall c, d, m ::
        0 <= c < |s.cpus| && 0 <= d < |s.cpus| && Holds(s.cpus[c].top, m) && Holds(s.cpus[d].top, m) ==> c == d)
    && (forall c, i, m :: 0 <= c < |s.cpus| && 0 <= i < |s.cpus[c].below| ==> !Holds(s.cpus[c].below[i], m))
    && (forall c :: 0 <= c < |s.cpus| ==> Distinct(s.cpus[c].top.guards))
  }

  /** A CPU with a held mutex has interrupts off, so no handler can start on it. */
  ghost predicate HoldersMasked(s: State) {
    forall c, m :: 0 <= c < |s.cpus| && Holds(s.cpus[c].top, m) ==> !s.cpus[c].intr && !Enabled(s, c, Interrupt)
  }

  /**
   * A context that waits for a mutex held on its own CPU took it itself; it never waits for a context it interrupted.
   */
  ghost predicate NoSelfDeadlock(s: State) {
    forall c :: 0 <= c < |s.cpus| && s.cpus[c].top.pc.Spinning? && s.cpus[c].top.pc.m in s.locked ==>
      || s.cpus[c].top.pc.m in s.cpus[c].top.guards
      || exists d :: 0 <= d < |s.cpus| && d != c && Holds(s.cpus[d].top, s.cpus[c].top.pc.m)
  }

  /** Releasing the last guard of a context ends with the flag that its first lock() saw. */
  ghost predicate RestoresFlag(s: State) {
    forall c :: 0 <= c < |s.cpus| && Enabled(s, c, Restore) && s.cpus[c].top.guards == [] ==>
      CpuAfter(s, c, Restore).intr == s.cpus[c].top.base
  }

  lemma InvSafe(s: State)
    requires Inv(s)
    ensures OneHolder(s) && HoldersMasked(s) && NoSelfDeadlock(s) && RestoresFlag(s)
  {
    forall c, m | 0 <= c < |s.cpus| && Holds(s.cpus[c].top, m) ensures !s.cpus[c].intr {
      assert CpuOk(s.cpus[c], s.savedIf);
    }
    forall c, i, m | 0 <= c < |s.cpus| && 0 <= i < |s.cpus[c].below| ensures !Holds(s.cpus[c].below[i], m) {
      assert CpuOk(s.cpus[c], s.savedIf);
      assert Calm(s.cpus[c].below[i]);
    }
    forall c | 0 <= c < |s.cpus| && s.cpus[c].top.pc.Released? && s.cpus[c].top.guards == []
      ensures CpuAfter(s, c, Restore).intr == s.cpus[c].top.base
    {
      assert CpuOk(s.cpus[c], s.savedIf);
    }
  }

  /** Every interleaving with LIFO drops, from any initial state: mutual exclusion, masked holders, restored flags. */
  lemma LifoRunsSafe(s: State, run: seq<(nat, Act)>)
    requires Init(s) && LifoRun(s, run)
    ensures OkRun(s, run) && OneHolder(After(s, run)) && HoldersMasked(After(s, run))
    ensures NoSelfDeadlock(After(s, run)) && RestoresFlag(After(s, run))
  {
    assert Inv(s);
    LifoRunIsOk(s, run);
    RunKeepsInv(s, run);
    InvSafe(After(s, run));
  }

  // ---- From the outermost lock to the last drop ---------------------------

  /** The context at depth `d` of a CPU; depth |below| is the running one. */
  function CtxAt(cpu: Cpu, d: nat): Ctx {
    if d < |cpu.below| then cpu.below[d] else cpu.top
  }

  predicate AtRest(x: Ctx) {
    x.pc.Idle? && x.guards == []
  }

  /** The context at depth `d` is there and is locking, unlocking or holding. */
  predicate Inside(cpu: Cpu, d: nat) {
    d <= |cpu.below| && !AtRest(CtxAt(cpu, d))
  }

  /** The context at depth `d` of CPU `c` stays inside through all of the run but its last step. */
  predicate InsideUntil(s: State, c: nat, d: nat, run: seq<(nat, Act)>)
    requires OkRun(s, run)
    decreases |run|
  {
    |run| <= 1 ||
    var s' := Apply(s, run[0].0, run[0].1);
    c < |s'.cpus| && Inside(s'.cpus[c], d) && InsideUntil(s', c, d, run[1..])
  }

  /** A step inside keeps the recorded flag; the step that comes to rest restores it. */
  lemma InsideStep(s: State, c: nat, d: nat, e: nat, a: Act)
    requires Inv(s) && DropOk(s, e, a) && c < |s.cpus| && Inside(s.cpus[c], d)
    ensures var cpu := Apply(s, e, a).cpus[c];
            && (Inside(cpu, d) ==> CtxAt(cpu, d).base == CtxAt(s.cpus[c], d).base)
            && (|cpu.below| == d && AtRest(cpu.top) ==> cpu.intr == CtxAt(s.cpus[c], d).base)
  {
    assert CpuOk(s.cpus[c], s.savedIf);
  }

  lemma {:induction false} BracketRestores(s: State, c: nat, d: nat, run: seq<(nat, Act)>)
    requires Inv(s) && OkRun(s, run) && run != [] && InsideUntil(s, c, d, run)
    requires c < |s.cpus| && Inside(s.cpus[c], d)
    ensures c < |After(s, run).cpus|
    ensures var cpu := After(s, run).cpus[c]; |cpu.below| == d && AtRest(cpu.top) ==>
      cpu.intr == CtxAt(s.cpus[c], d).base
    decreases |run|
  {
    var s' := Apply(s, run[0].0, run[0].1);
    InsideStep(s, c, d, run[0].0, run[0].1);
    InvStep(s, run[0].0, run[0].1);
    if |run| > 1 {
      BracketRestores(s', c, d, run[1..]);
    } else {
      assert After(s', run[1..]) == s';
    }
  }

  /**
   * A context without guards calls lock(); whatever it, its interrupts and the other CPUs do until it next rests
   * without guards, the interrupt flag is then what it was before that lock().
   */
  lemma OutermostRestores(s: State, c: nat, m: nat, run: seq<(nat, Act)>)
    requires Inv(s) && OkRun(s, run) && |run| > 1 && run[0] == (c, ReadIf(m)) && AtRest(s.cpus[c].top)
    requires InsideUntil(s, c, |s.cpus[c].below|, run)
    ensures c < |After(s, run).cpus|
    ensures var cpu := After(s, run).cpus[c]; |cpu.below| == |s.cpus[c].below| && AtRest(cpu.top) ==>
      cpu.intr == s.cpus[c].intr
  {
    InvStep(s, c, ReadIf(m));
    BracketRestores(Apply(s, c, ReadIf(m)), c, |s.cpus[c].below|, run[1..]);
  }

  // ---- Drops in other orders ----------------------------------------------

  function Drop(s: State, c: nat, m: nat): State
    requires Enabled(s, c, LoadSaved(m))
  {
    var s1 := Apply(s, c, LoadSaved(m));
    var s2 := Apply(s1, c, Release);
    Apply(s2, c, Restore)
  }

  /**
   * From a reachable state, dropping a guard leaves interrupts off for the guards that remain exactly when DropOk
   * holds.
   */
  lemma DropIsSafeIff(s: State, c: nat, m: nat)
    requires Inv(s) && Enabled(s, c, LoadSaved(m))
    ensures (Drop(s, c, m).cpus[c].intr ==> Drop(s, c, m).cpus[c].top.guards == []) <==> DropOk(s, c, LoadSaved(m))
  {
    assert CpuOk(s.cpus[c], s.savedIf);
    WithoutMember(s.cpus[c].top.guards, m);
    var k :| 0 <= k < |s.cpus[c].top.guards| && s.cpus[c].top.guards[k] == m;
  }

  /** lock() of a free mutex, without other steps in between. */
  function TakeLock(s: State, c: nat, m: nat): State
    requires Enabled(s, c, ReadIf(m)) && m !in s.locked
  {
    var s1 := Apply(s, c, ReadIf(m));
    var s2 := Apply(s1, c, Cli);
    var s3 := Apply(s2, c, Cas);
    Apply(s3, c, StoreSaved)
  }

  lemma Taken(s: State, c: nat, m: nat)
    requires Enabled(s, c, ReadIf(m)) && m !in s.locked
    ensures var t, x := TakeLock(s, c, m), s.cpus[c].top;
            && (var base := if x.guards == [] then s.cpus[c].intr else x.base;
                t.cpus == s.cpus[c := Cpu(false, Ctx(Idle, x.guards + [m], base), s.cpus[c].below)])
            && t.locked == s.locked + {m} && t.savedIf == if s.cpus[c].intr then s.savedIf + {m} else s.savedIf - {m}
  {
  }

  lemma Dropped(s: State, c: nat, m: nat)
    requires Enabled(s, c, LoadSaved(m))
    ensures var v, cpu := Drop(s, c, m), s.cpus[c];
            && |v.cpus| == |s.cpus| && v.cpus[c].intr == (cpu.intr || m in s.savedIf)
            && v.cpus[c].top.guards == Without(cpu.top.guards, m)
  {
  }

  lemma TakenTwo(s: State, c: nat, m: nat, n: nat)
    requires c < |s.cpus| && AtRest(s.cpus[c].top) && m != n && m !in s.locked && n !in s.locked
    ensures var t := TakeLock(s, c, m);
            Enabled(t, c, ReadIf(n)) && n !in t.locked
    ensures var u := TakeLock(TakeLock(s, c, m), c, n);
            && c < |u.cpus| && u.cpus[c].top.pc.Idle? && u.cpus[c].top.guards == [m, n]
            && (s.cpus[c].intr ==> m in u.savedIf)
  {
    Taken(s, c, m);
    Taken(TakeLock(s, c, m), c, n);
  }

  /** Two guards taken with interrupts on and dropped first-in-first-out: the CPU holds a mutex with interrupts on. */
  lemma FifoDropUnmasks(s: State, c: nat, m: nat, n: nat)
    requires c < |s.cpus| && AtRest(s.cpus[c].top) && s.cpus[c].intr && m != n && m !in s.locked && n !in s.locked
    ensures var t := TakeLock(s, c, m);
            Enabled(t, c, ReadIf(n)) && n !in t.locked
    ensures var u := TakeLock(TakeLock(s, c, m), c, n);
            Enabled(u, c, LoadSaved(m)) && !HoldersMasked(Drop(u, c, m))
  {
    TakenTwo(s, c, m, n);
    var u := TakeLock(TakeLock(s, c, m), c, n);
    Unmasked(u, c, m, n);
  }

  lemma Unmasked(u: State, c: nat, m: nat, n: nat)
    requires Enabled(u, c, LoadSaved(m)) && u.cpus[c].top.guards == [m, n] && m != n && m in u.savedIf
    ensures !HoldersMasked(Drop(u, c, m))
  {
    Dropped(u, c, m);
    WithoutMember([m, n], m);
    assert Holds(Drop(u, c, m).cpus[c].top, n);
  }
}
