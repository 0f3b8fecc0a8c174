/** Packed handles with capability rights, and the per-task handle table (kernel/src/handle.rs). */
module Handles {
  import opened Bytes

  const SLOTS: nat := 0x1000_0000
  const GENERATIONS: nat := 0x400_0000
  const DUPLICATE: Rights := 0x10

  /** A 10-bit rights mask. */
  type Rights = r: nat | r < 0x400

  // ---- Rights -------------------------------------------------------------

  /** Bitwise and. */
  function And(a: nat, b: nat): (r: nat)
    ensures r <= a && r <= b
  {
    if a == 0 || b == 0 then 0 else 2 * And(a / 2, b / 2) + (if a % 2 == 1 && b % 2 == 1 then 1 else 0)
  }

  predicate Contains(a: nat, b: nat) { And(a, b) == b }

  lemma {:induction false} ContainsSelf(a: nat)
    ensures Contains(a, a)
  {
    if a > 0 { ContainsSelf(a / 2); }
  }

  lemma {:induction false} ContainsBoth(a: nat, b: nat)
    ensures Contains(a, And(a, b)) && Contains(b, And(a, b))
  {
    if a > 0 && b > 0 {
      ContainsBoth(a / 2, b / 2);
      assert And(a, b) / 2 == And(a / 2, b / 2);
    }
  }

  lemma {:induction false} ContainsTrans(a: nat, b: nat, c: nat)
    requires Contains(a, b) && Contains(b, c)
    ensures Contains(a, c)
  {
    if a > 0 && b > 0 && c > 0 { ContainsTrans(a / 2, b / 2, c / 2); }
  }

  // ---- Packing ------------------------------------------------------------

  /** Handle::new: 28 bits of slot, 10 bits of rights, 26 bits of generation, each cut to its width. */
  function Pack(slot: nat, rights: Rights, gen: nat): nat {
    slot % SLOTS + 0x1000_0000 * rights + 0x40_0000_0000 * (gen % GENERATIONS)
  }

  function SlotId(h: nat): nat { h % 0x1000_0000 }
  function RightsOf(h: nat): Rights { h / 0x1000_0000 % 0x400 }
  function Generation(h: nat): nat { h / 0x40_0000_0000 % GENERATIONS }

  /** Each field reads back, cut to its width. */
  lemma PackUnpack(slot: nat, rights: Rights, gen: nat)
    ensures SlotId(Pack(slot, rights, gen)) == slot % SLOTS
    ensures RightsOf(Pack(slot, rights, gen)) == rights
    ensures Generation(Pack(slot, rights, gen)) == gen % GENERATIONS
  {
    Fields(slot % SLOTS, rights, gen % GENERATIONS);
  }

  lemma Fields(s: nat, r: nat, g: nat)
    requires s < 0x1000_0000 && r < 0x400 && g < 0x400_0000
    ensures var h := s + 0x1000_0000 * r + 0x40_0000_0000 * g;
            h % 0x1000_0000 == s && h / 0x1000_0000 % 0x400 == r && h / 0x40_0000_0000 == g
  {
    var h := s + 0x1000_0000 * r + 0x40_0000_0000 * g;
    assert h / 0x1000_0000 == r + 0x400 * g;
  }

  /** A 64-bit handle is its three fields. */
  lemma UnpackPack(h: nat)
    requires h < U64_LIMIT
    ensures Pack(SlotId(h), RightsOf(h), Generation(h)) == h
  {
    var q := h / 0x1000_0000;
    assert q / 0x400 == h / 0x40_0000_0000 && h / 0x40_0000_0000 < GENERATIONS;
  }

  /** Handle values repeat after 2^28 slots: insertion n + 2^28 packs to the same value as insertion n. */
  lemma HandlesRepeat(n: nat, rights: Rights)
    ensures Pack(n + SLOTS, rights, n + SLOTS) == Pack(n, rights, n)
  {
  }

  /** with_rights */
  function WithRights(h: nat, rights: Rights): nat {
    Pack(SlotId(h), And(RightsOf(h), rights), Generation(h))
  }

  // ---- The table ----------------------------------------------------------

  /** A table entry; objects are known by their identity. */
  datatype HandleEntry = HandleEntry(handle: nat, obj: nat)

  /** History of a slot: the object and rights given out with it, and the rights of the insert it derives from. */
  datatype Grant = Grant(obj: nat, rights: Rights, root: Rights)

  /** The fields of a HandleTable, with the history of all its slots. */
  datatype State = State(slots: map<nat, HandleEntry>, nextSlot: nat, generation: nat, grants: map<nat, Grant>)

  function Empty(): State { State(map[], 0, 0, map[]) }

  /** HandleTable::get */
  function Lookup(slots: map<nat, HandleEntry>, h: nat): Option<nat> {
    var s := SlotId(h);
    if s in slots && Generation(slots[s].handle) == Generation(h) then Some(slots[s].obj) else None
  }

  /** The handle that insert and duplicate give out next. */
  function NewHandle(t: State, rights: Rights): nat {
    Pack(t.nextSlot, rights, t.generation % GENERATIONS)
  }

  /** The common end of insert and duplicate; the counters are 32 bits wide. */
  function Add(t: State, obj: nat, rights: Rights, root: Rights): State {
    State(t.slots[t.nextSlot := HandleEntry(NewHandle(t, rights), obj)], t.nextSlot + 1, (t.generation + 1) % U32_LIMIT,
          t.grants[t.nextSlot := Grant(obj, rights, root)])
  }

  function AfterInsert(t: State, obj: nat, rights: Rights): State {
    Add(t, obj, rights, rights)
  }

  function AfterClose(t: State, h: nat): State {
    if Lookup(t.slots, h).Some? then t.(slots := t.slots - {SlotId(h)}) else t
  }

  predicate MayDuplicate(t: State, h: nat) {
    Contains(RightsOf(h), DUPLICATE) && Lookup(t.slots, h).Some?
  }

  function AfterDuplicate(t: State, h: nat, rights: Rights): State {
    if !MayDuplicate(t, h) then t
    else Add(t, t.slots[SlotId(h)].obj, And(RightsOf(h), rights), RootOf(t, h))
  }

  function RootOf(t: State, h: nat): Rights {
    if SlotId(h) in t.grants then t.grants[SlotId(h)].root else 0
  }

  /** The entry that slot `s` was given. */
  predicate EntryOk(s: nat, e: HandleEntry, g: Grant) {
    e == HandleEntry(Pack(s, g.rights, s), g.obj)
  }

  /** The states of a table within its first 2^28 insertions. */
  ghost predicate Ok(t: State) {
    && t.nextSlot <= SLOTS && t.generation == t.nextSlot
    && (forall s: nat :: s in t.grants <==> s < t.nextSlot)
    && (forall s :: s in t.slots ==> s in t.grants && EntryOk(s, t.slots[s], t.grants[s]))
    && (forall s :: s in t.grants ==> Contains(t.grants[s].root, t.grants[s].rights))
  }

  /** A handle that was given out by insert or duplicate, possibly narrowed by with_rights. */
  predicate Issued(t: State, h: nat) {
    && SlotId(h) in t.grants && Generation(h) == SlotId(h) % GENERATIONS
    && Contains(t.grants[SlotId(h)].rights, RightsOf(h))
  }

  lemma NarrowedFields(h: nat, rights: Rights)
    ensures var n := WithRights(h, rights);
            SlotId(n) == SlotId(h) && RightsOf(n) == And(RightsOf(h), rights) && Generation(n) == Generation(h)
  {
    PackUnpack(SlotId(h), And(RightsOf(h), rights), Generation(h));
    FieldsFit(h);
  }

  lemma FieldsFit(h: nat)
    ensures SlotId(h) % SLOTS == SlotId(h) && Generation(h) % GENERATIONS == Generation(h)
  {
  }

  lemma NarrowedIsIssued(t: State, h: nat, rights: Rights)
    requires Issued(t, h)
    ensures Issued(t, WithRights(h, rights)) && Contains(RightsOf(h), RightsOf(WithRights(h, rights)))
    ensures SlotId(WithRights(h, rights)) == SlotId(h) && Lookup(t.slots, WithRights(h, rights)) == Lookup(t.slots, h)
  {
    NarrowedFields(h, rights);
    ContainsBoth(RightsOf(h), rights);
    ContainsTrans(t.grants[SlotId(h)].rights, RightsOf(h), And(RightsOf(h), rights));
  }

  /** An issued handle resolves to its own object as long as its slot is open, and to nothing afterwards. */
  lemma OwnObject(t: State, h: nat)
    requires Ok(t) && Issued(t, h)
    ensures Lookup(t.slots, h) == if SlotId(h) in t.slots then Some(t.grants[SlotId(h)].obj) else None
  {
    var s := SlotId(h);
    if s in t.slots {
      assert EntryOk(s, t.slots[s], t.grants[s]);
      PackUnpack(s, t.grants[s].rights, s);
    }
  }

  /** Its rights are within those granted at the insert it derives from. */
  lemma RightsWithinRoot(t: State, h: nat)
    requires Ok(t) && Issued(t, h)
    ensures Contains(t.grants[SlotId(h)].root, RightsOf(h))
  {
    var g := t.grants[SlotId(h)];
    ContainsTrans(g.root, g.rights, RightsOf(h));
  }

  /** Adding an entry keeps the table consistent and gives out an open handle of its own. */
  lemma AddOk(t: State, obj: nat, rights: Rights, root: Rights)
    requires Ok(t) && t.nextSlot < SLOTS && Contains(root, rights)
    ensures Ok(Add(t, obj, rights, root)) && Issued(Add(t, obj, rights, root), NewHandle(t, rights))
    ensures Lookup(Add(t, obj, rights, root).slots, NewHandle(t, rights)) == Some(obj)
    ensures SlotId(NewHandle(t, rights)) == t.nextSlot && t.nextSlot !in t.grants
    ensures RightsOf(NewHandle(t, rights)) == rights
  {
    var s := t.nextSlot;
    PackUnpack(s, rights, s % GENERATIONS);
    PackUnpack(s, rights, s);
    assert NewHandle(t, rights) == Pack(s, rights, s);
    ContainsSelf(rights);
  }

  lemma CloseOk(t: State, h: nat)
    requires Ok(t)
    ensures Ok(AfterClose(t, h))
  {
  }

  lemma DuplicateOk(t: State, h: nat, rights: Rights)
    requires Ok(t) && t.nextSlot < SLOTS && Issued(t, h) && MayDuplicate(t, h)
    ensures Ok(AfterDuplicate(t, h, rights))
    ensures var d := NewHandle(t, And(RightsOf(h), rights));
            && Issued(AfterDuplicate(t, h, rights), d) && Contains(RightsOf(h), RightsOf(d)) && SlotId(d) == t.nextSlot
            && t.nextSlot !in t.grants
            && Lookup(AfterDuplicate(t, h, rights).slots, d) == Lookup(t.slots, h)
            && AfterDuplicate(t, h, rights).grants[t.nextSlot].root == t.grants[SlotId(h)].root
  {
    var r := And(RightsOf(h), rights);
    RightsWithinRoot(t, h);
    ContainsBoth(RightsOf(h), rights);
    ContainsTrans(t.grants[SlotId(h)].root, RightsOf(h), r);
    AddOk(t, t.slots[SlotId(h)].obj, r, RootOf(t, h));
  }

  // ---- Runs ---------------------------------------------------------------

  datatype Op = Insert(obj: nat, rights: Rights) | Close(h: nat) | Duplicate(h: nat, rights: Rights) | CloseAll

  function Step(t: State, op: Op): State {
    match op
    case Insert(obj, rights) => AfterInsert(t, obj, rights)
    case Close(h) => AfterClose(t, h)
    case Duplicate(h, rights) => AfterDuplicate(t, h, rights)
    case CloseAll => t.(slots := map[])
  }

  /** The operation uses an issued handle, and a slot is left for it. */
  predicate Allowed(t: State, op: Op) {
    && (op.Close? || op.Duplicate? ==> Issued(t, op.h))
    && (op.Insert? || op.Duplicate? ==> t.nextSlot < SLOTS)
  }

  predicate OkRun(t: State, ops: seq<Op>)
    decreases |ops|
  {
    ops == [] || (Allowed(t, ops[0]) && OkRun(Step(t, ops[0]), ops[1..]))
  }

  function Run(t: State, ops: seq<Op>): State
    decreases |ops|
  {
    if ops == [] then t else Run(Step(t, ops[0]), ops[1..])
  }

  /** Grants are never changed, and a closed slot is never opened again. */
  ghost predicate Later(t: State, t': State) {
    && (forall s :: s in t.grants ==> s in t'.grants && t'.grants[s] == t.grants[s])
    && (forall s :: s in t.grants && s !in t.slots ==> s !in t'.slots)
  }

  lemma StepOk(t: State, op: Op)
    requires Ok(t) && Allowed(t, op)
    ensures Ok(Step(t, op)) && Later(t, Step(t, op))
  {
    match op
    case Insert(obj, rights) =>
      ContainsSelf(rights);
      AddOk(t, obj, rights, rights);
    case Close(h) => CloseOk(t, h);
    case Duplicate(h, rights) => if MayDuplicate(t, h) { DuplicateOk(t, h, rights); }
    case CloseAll =>
  }

  lemma {:induction false} RunOk(t: State, ops: seq<Op>)
    requires Ok(t) && OkRun(t, ops)
    ensures Ok(Run(t, ops)) && Later(t, Run(t, ops))
    decreases |ops|
  {
    if ops != [] {
      StepOk(t, ops[0]);
      RunOk(Step(t, ops[0]), ops[1..]);
    }
  }

  /** No operation of the run closes slot `s`. */
  predicate NeverCloses(ops: seq<Op>, s: nat) {
    forall i :: 0 <= i < |ops| ==> !ops[i].CloseAll? && !(ops[i].Close? && SlotId(ops[i].h) == s)
  }

  lemma StepOpen(t: State, op: Op, s: nat)
    requires Ok(t) && Allowed(t, op) && s in t.grants
    ensures s in Step(t, op).slots <==> s in t.slots && !op.CloseAll? && !(op.Close? && SlotId(op.h) == s)
  {
    if op.Close? { OwnObject(t, op.h); }
  }

  /** A slot is open after a run exactly when it was open before and the run does not close it. */
  lemma {:induction false} RunOpen(t: State, ops: seq<Op>, s: nat)
    requires Ok(t) && OkRun(t, ops) && s in t.grants
    ensures s in Run(t, ops).slots <==> s in t.slots && NeverCloses(ops, s)
    decreases |ops|
  {
    if ops != [] {
      StepOk(t, ops[0]);
      StepOpen(t, ops[0], s);
      RunOpen(Step(t, ops[0]), ops[1..], s);
      NeverClosesTail(ops, s);
    }
  }

  lemma NeverClosesTail(ops: seq<Op>, s: nat)
    requires ops != []
    ensures NeverCloses(ops, s) <==>
      !ops[0].CloseAll? && !(ops[0].Close? && SlotId(ops[0].h) == s) && NeverCloses(ops[1..], s)
  {
    assert ops == [ops[0]] + ops[1..];
  }

  /**
   * A handle issued at any time of a run from the empty table: after any further run it resolves to its own object if
   * it was open and the run does not close it, and to nothing otherwise; and its rights stay within those granted at
   * the original insert.
   */
  lemma HandleForLife(before: seq<Op>, h: nat, ops: seq<Op>)
    requires OkRun(Empty(), before) && Issued(Run(Empty(), before), h) && OkRun(Run(Empty(), before), ops)
    ensures var t, t' := Run(Empty(), before), Run(Run(Empty(), before), ops);
            && Issued(t', h) && Contains(t.grants[SlotId(h)].root, RightsOf(h))
            && (Lookup(t.slots, h) == if SlotId(h) in t.slots then Some(t.grants[SlotId(h)].obj) else None)
            && (Lookup(t'.slots, h) == if NeverCloses(ops, SlotId(h)) then Lookup(t.slots, h) else None)
  {
    RunOk(Empty(), before);
    var t := Run(Empty(), before);
    RunOk(t, ops);
    RunOpen(t, ops, SlotId(h));
    OwnObject(t, h);
    OwnObject(Run(t, ops), h);
    RightsWithinRoot(t, h);
  }

  /** Closing takes effect: the handle is open before and rejected after. */
  lemma CloseRejects(t: State, h: nat)
    requires Ok(t) && Issued(t, h)
    ensures Lookup(AfterClose(t, h).slots, h) == None
    ensures forall g: nat :: Issued(t, g) && SlotId(g) != SlotId(h) ==>
      Lookup(AfterClose(t, h).slots, g) == Lookup(t.slots, g)
  {
  }

  // ---- Past 2^28 insertions -----------------------------------------------

  /** The states of a table within 2^32 insertions: every entry carries the generation of its slot. */
  ghost predicate Counted(t: State) {
    && t.nextSlot <= U32_LIMIT && t.generation == t.nextSlot % U32_LIMIT
    && forall s :: s in t.slots ==> s < t.nextSlot && Generation(t.slots[s].handle) == s % GENERATIONS
  }

  /** A run of any operations on any handles with fewer than 2^32 insertions. */
  predicate CountedRun(t: State, ops: seq<Op>)
    decreases |ops|
  {
    ops == []
    || ((ops[0].Insert? || ops[0].Duplicate? ==> t.nextSlot < U32_LIMIT) && CountedRun(Step(t, ops[0]), ops[1..]))
  }

  lemma AddCounted(t: State, obj: nat, rights: Rights, root: Rights)
    requires Counted(t) && t.nextSlot < U32_LIMIT
    ensures Counted(Add(t, obj, rights, root))
  {
    PackUnpack(t.nextSlot, rights, t.generation % GENERATIONS);
  }

  lemma {:induction false} RunCounted(t: State, ops: seq<Op>)
    requires Counted(t) && CountedRun(t, ops)
    ensures Counted(Run(t, ops))
    decreases |ops|
  {
    if ops != [] {
      match ops[0] {
        case Insert(obj, rights) => AddCounted(t, obj, rights, rights);
        case Duplicate(h, rights) =>
          if MayDuplicate(t, h) {
            AddCounted(t, t.slots[SlotId(h)].obj, And(RightsOf(h), rights), RootOf(t, h));
          }
        case Close(_) =>
        case CloseAll =>
      }
      RunCounted(Step(t, ops[0]), ops[1..]);
    }
  }

  lemma SlotGeneration(n: nat)
    ensures n % SLOTS % GENERATIONS == n % GENERATIONS
  {
    assert n == GENERATIONS * (4 * (n / SLOTS)) + n % SLOTS;
  }

  lemma NewHandleFields(t: State, rights: Rights)
    requires Counted(t) && t.nextSlot < U32_LIMIT
    ensures SlotId(NewHandle(t, rights)) == t.nextSlot % SLOTS
    ensures Generation(NewHandle(t, rights)) == t.nextSlot % SLOTS % GENERATIONS
  {
    PackUnpack(t.nextSlot, rights, t.generation % GENERATIONS);
    SlotGeneration(t.nextSlot);
  }

  /** What the handle of insertion number n resolves to: the object in slot n % 2^28. */
  lemma NewHandleResolves(t: State, obj: nat, rights: Rights)
    requires Counted(t) && t.nextSlot < U32_LIMIT
    ensures var s, slots := t.nextSlot % SLOTS, AfterInsert(t, obj, rights).slots;
            Lookup(slots, NewHandle(t, rights)) == if s in slots then Some(slots[s].obj) else None
  {
    NewHandleFields(t, rights);
    AddCounted(t, obj, rights, rights);
  }

  /**
   * After any run, for insertion number n below 2^32: the handle leads to slot n, and so to the object inserted,
   * exactly when n is below 2^28; otherwise it resolves to whatever slot n % 2^28 holds.
   */
  lemma FullTableAliases(ops: seq<Op>, obj: nat, rights: Rights)
    requires CountedRun(Empty(), ops) && Run(Empty(), ops).nextSlot < U32_LIMIT
    ensures var t := Run(Empty(), ops);
            var n, h, slots := t.nextSlot, NewHandle(t, rights), AfterInsert(t, obj, rights).slots;
            && SlotId(h) == n % SLOTS && (SlotId(h) == n <==> n < SLOTS)
            && (n < SLOTS ==> Lookup(slots, h) == Some(obj))
            && (n >= SLOTS ==> Lookup(slots, h) == if n % SLOTS in t.slots then Some(t.slots[n % SLOTS].obj) else None)
  {
    RunCounted(Empty(), ops);
    NewHandleFields(Run(Empty(), ops), rights);
    NewHandleResolves(Run(Empty(), ops), obj, rights);
  }

  class HandleTable {
    var slots: map<nat, HandleEntry>
    var nextSlot: nat
    var generation: nat
    ghost var grants: map<nat, Grant>

    ghost function Abs(): State
      reads this
    {
      State(slots, nextSlot, generation, grants)
    }

    constructor ()
      ensures Abs() == Empty() && Ok(Abs())
    {
      slots, nextSlot, generation, grants := map[], 0, 0, map[];
    }

    method InsertObject(obj: nat, rights: Rights) returns (h: nat)
      modifies this
      ensures Abs() == AfterInsert(old(Abs()), obj, rights) && h == NewHandle(old(Abs()), rights)
    {
      h := AddEntry(obj, rights, rights);
    }

    method AddEntry(obj: nat, rights: Rights, ghost root: Rights) returns (h: nat)
      modifies this
      ensures Abs() == Add(old(Abs()), obj, rights, root) && h == NewHandle(old(Abs()), rights)
    {
      var slot := nextSlot;
      nextSlot := nextSlot + 1;
      var gen := generation % GENERATIONS;
      generation := (generation + 1) % U32_LIMIT;
      h := Pack(slot, rights, gen);
      slots := slots[slot := HandleEntry(h, obj)];
      grants := grants[slot := Grant(obj, rights, root)];
    }

    method Get(h: nat) returns (r: Option<nat>)
      ensures r == Lookup(slots, h)
    {
      var s := SlotId(h);
      if s in slots && Generation(slots[s].handle) == Generation(h) { return Some(slots[s].obj); }
      return None;
    }

    method CloseHandle(h: nat) returns (closed: bool)
      modifies this
      ensures Abs() == AfterClose(old(Abs()), h) && (closed <==> Lookup(old(slots), h).Some?)
    {
      var gen := Generation(h);
      if SlotId(h) in slots && Generation(slots[SlotId(h)].handle) == gen {
        slots := slots - {SlotId(h)};
        return true;
      }
      return false;
    }

    method DuplicateHandle(h: nat, rights: Rights) returns (r: Option<nat>)
      modifies this
      ensures Abs() == AfterDuplicate(old(Abs()), h, rights)
      ensures r == if MayDuplicate(old(Abs()), h) then Some(NewHandle(old(Abs()), And(RightsOf(h), rights))) else None
    {
      if !Contains(RightsOf(h), DUPLICATE) { return None; }
      if SlotId(h) !in slots { return None; }
      var entry := slots[SlotId(h)];
      if Generation(entry.handle) != Generation(h) { return None; }
      var d := AddEntry(entry.obj, And(RightsOf(h), rights), RootOf(Abs(), h));
      return Some(d);
    }
  }
}
