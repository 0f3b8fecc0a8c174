/**
 * The 4-level page table as a tree of tables (kernel/src/memory/pagetable.rs; section 4.5 of the Intel SDM, volume
 * 3A).
 */
module PageTree {
  import opened Bytes

  const PT_ENTRIES: nat := 512

  /** A page table entry: frame address, the PRESENT and HUGE_PAGE bits, and the remaining flag bits. */
  datatype Entry = Entry(addr: nat, present: bool, huge: bool, bits: nat)

  const EMPTY: Entry := Entry(0, false, false, 0)

  type Table = s: seq<Entry> | |s| == 512 witness seq(512, i => EMPTY)

  /** The tables in physical memory, by frame address. */
  type Tables = map<nat, Table>

  function EmptyTable(): Table {
    seq(512, i => EMPTY)
  }

  /** Top is the P4 table; Sub(p, i) is what entry `i` of the table at `p` leads to. */
  datatype Path = Top | Sub(parent: Path, idx: nat)

  /** 4 for the P4 table down to 1 for P1 tables; pages are at level 0. */
  function Level(p: Path): int {
    match p
    case Top => 4
    case Sub(q, _) => Level(q) - 1
  }

  predicate Valid(p: Path) {
    match p
    case Top => true
    case Sub(q, i) => Valid(q) && Level(q) >= 1 && i < PT_ENTRIES
  }

  predicate IsTable(p: Path) {
    Valid(p) && Level(p) >= 1
  }

  /** The table frame at a path, if the walk reaches one. */
  function TableAt(t: Tables, root: nat, p: Path): Option<nat>
    decreases p, 0
  {
    match p
    case Top => Some(root)
    case Sub(q, i) =>
      var e := EntryAt(t, root, q, i);
      if e.present && !e.huge then Some(e.addr) else None
  }

  /** Entry `i` of the table at path `q`; empty if there is no table. */
  function EntryAt(t: Tables, root: nat, q: Path, i: nat): Entry
    decreases q, 1
  {
    var f := TableAt(t, root, q);
    if f.Some? && f.value in t && i < PT_ENTRIES then t[f.value][i] else EMPTY
  }

  /** No table is shared, and every table of the tree is in memory. */
  ghost predicate TreeOk(t: Tables, root: nat) {
    && (forall p :: IsTable(p) && TableAt(t, root, p).Some? ==> TableAt(t, root, p).value in t)
    && (forall p, q ::
        IsTable(p) && IsTable(q) && TableAt(t, root, p).Some? && TableAt(t, root, p) == TableAt(t, root, q) ==> p == q)
  }

  ghost predicate InTree(t: Tables, root: nat, f: nat) {
    exists p :: IsTable(p) && TableAt(t, root, p) == Some(f)
  }

  function WithEntry(t: Tables, f: nat, i: nat, e: Entry): Tables
    requires f in t && i < PT_ENTRIES
  {
    t[f := t[f][i := e]]
  }

  /** A walk entry leads to the same table as before, except at one place. */
  ghost predicate SameTablesBut(t: Tables, t': Tables, root: nat, c: Path) {
    forall p :: IsTable(p) && p != c ==> TableAt(t', root, p) == TableAt(t, root, p)
  }

  ghost predicate SameEntriesBut(t: Tables, t': Tables, root: nat, q: Path, i: nat) {
    forall p, j: nat :: IsTable(p) && j < PT_ENTRIES && !(p == q && j == i) ==>
      EntryAt(t', root, p, j) == EntryAt(t, root, p, j)
  }

  /** Writing an entry of a P1 table changes no table. */
  lemma {:induction false} PageEntryTables(t: Tables, root: nat, q: Path, i: nat, e: Entry, p: Path)
    requires TreeOk(t, root) && IsTable(q) && Level(q) == 1 && i < PT_ENTRIES && IsTable(p)
    requires TableAt(t, root, q).Some?
    ensures TableAt(WithEntry(t, TableAt(t, root, q).value, i, e), root, p) == TableAt(t, root, p)
  {
    if p.Sub? { PageEntryTables(t, root, q, i, e, p.parent); }
  }

  /** Writing an entry of a P1 table: one page entry changes. */
  lemma SetPageEntry(t: Tables, root: nat, q: Path, i: nat, e: Entry)
    requires TreeOk(t, root) && IsTable(q) && Level(q) == 1 && i < PT_ENTRIES && TableAt(t, root, q).Some?
    ensures var t' := WithEntry(t, TableAt(t, root, q).value, i, e);
            && (forall p :: IsTable(p) ==> TableAt(t', root, p) == TableAt(t, root, p))
            && TreeOk(t', root) && EntryAt(t', root, q, i) == e && SameEntriesBut(t, t', root, q, i)
  {
    var t' := WithEntry(t, TableAt(t, root, q).value, i, e);
    forall p | IsTable(p) ensures TableAt(t', root, p) == TableAt(t, root, p) {
      PageEntryTables(t, root, q, i, e, p);
    }
  }

  /** Linking an empty table where no table was: the tree gains just that table. */
  lemma {:induction false} LinkTables(t: Tables, root: nat, q: Path, i: nat, e: Entry, p: Path)
    requires TreeOk(t, root) && IsTable(q) && Level(q) >= 2 && i < PT_ENTRIES && IsTable(p)
    requires TableAt(t, root, q).Some? && TableAt(t, root, Sub(q, i)) == None
    requires e.present && !e.huge && !InTree(t, root, e.addr)
    ensures var t' := WithEntry(t, TableAt(t, root, q).value, i, e)[e.addr := EmptyTable()];
            TableAt(t', root, p) == if p == Sub(q, i) then Some(e.addr) else TableAt(t, root, p)
  {
    if p.Sub? {
      LinkTables(t, root, q, i, e, p.parent);
      var f := TableAt(t, root, p.parent);
      assert f.Some? ==> InTree(t, root, f.value);
    }
  }

  lemma LinkTable(t: Tables, root: nat, q: Path, i: nat, e: Entry)
    requires TreeOk(t, root) && IsTable(q) && Level(q) >= 2 && i < PT_ENTRIES
    requires TableAt(t, root, q).Some? && !EntryAt(t, root, q, i).present
    requires e.present && !e.huge && !InTree(t, root, e.addr)
    ensures var t' := WithEntry(t, TableAt(t, root, q).value, i, e)[e.addr := EmptyTable()];
            && SameTablesBut(t, t', root, Sub(q, i)) && TableAt(t', root, Sub(q, i)) == Some(e.addr)
            && TreeOk(t', root) && EntryAt(t', root, q, i) == e && SameEntriesBut(t, t', root, q, i)
  {
    var t' := WithEntry(t, TableAt(t, root, q).value, i, e)[e.addr := EmptyTable()];
    forall p | IsTable(p) ensures TableAt(t', root, p) == if p == Sub(q, i) then Some(e.addr) else TableAt(t, root, p) {
      LinkTables(t, root, q, i, e, p);
    }
    LinkEntries(t, root, q, i, e);
  }

  lemma LinkEntries(t: Tables, root: nat, q: Path, i: nat, e: Entry)
    requires TreeOk(t, root) && IsTable(q) && Level(q) >= 2 && i < PT_ENTRIES
    requires TableAt(t, root, q).Some? && TableAt(t, root, Sub(q, i)) == None
    requires e.present && !e.huge && !InTree(t, root, e.addr)
    requires var t' := WithEntry(t, TableAt(t, root, q).value, i, e)[e.addr := EmptyTable()];
             SameTablesBut(t, t', root, Sub(q, i)) && TableAt(t', root, Sub(q, i)) == Some(e.addr)
    ensures var t' := WithEntry(t, TableAt(t, root, q).value, i, e)[e.addr := EmptyTable()];
            EntryAt(t', root, q, i) == e && SameEntriesBut(t, t', root, q, i)
  {
    var t' := WithEntry(t, TableAt(t, root, q).value, i, e)[e.addr := EmptyTable()];
    assert InTree(t, root, TableAt(t, root, q).value);
    assert q != Sub(q, i) && TableAt(t', root, q) == TableAt(t, root, q);
    forall p, j: nat | IsTable(p) && j < PT_ENTRIES && !(p == q && j == i)
      ensures EntryAt(t', root, p, j) == EntryAt(t, root, p, j)
    {
      var f := TableAt(t, root, p);
      assert f.Some? ==> InTree(t, root, f.value);
    }
  }

  /** Clearing the entry of a table that has no present entries: the tree loses just that table. */
  lemma {:induction false} UnlinkTables(t: Tables, root: nat, q: Path, i: nat, p: Path)
    requires TreeOk(t, root) && IsTable(q) && Level(q) >= 2 && i < PT_ENTRIES && IsTable(p)
    requires TableAt(t, root, q).Some? && TableAt(t, root, Sub(q, i)).Some?
    requires forall j: nat :: j < PT_ENTRIES ==> !EntryAt(t, root, Sub(q, i), j).present
    ensures TableAt(WithEntry(t, TableAt(t, root, q).value, i, EMPTY), root, p) ==
      if p == Sub(q, i) then None else TableAt(t, root, p)
  {
    if p.Sub? { UnlinkTables(t, root, q, i, p.parent); }
  }

  /** Two entries that mean the same: equal, or both absent. */
  predicate Same(e: Entry, e': Entry) {
    e == e' || (!e.present && !e'.present)
  }

  ghost predicate SameMeaningBut(t: Tables, t': Tables, root: nat, q: Path, i: nat) {
    forall p, j: nat :: IsTable(p) && j < PT_ENTRIES && !(p == q && j == i) ==>
      Same(EntryAt(t, root, p, j), EntryAt(t', root, p, j))
  }

  lemma UnlinkTable(t: Tables, root: nat, q: Path, i: nat)
    requires TreeOk(t, root) && IsTable(q) && Level(q) >= 2 && i < PT_ENTRIES
    requires TableAt(t, root, q).Some? && TableAt(t, root, Sub(q, i)).Some?
    requires forall j: nat :: j < PT_ENTRIES ==> !EntryAt(t, root, Sub(q, i), j).present
    ensures var t' := WithEntry(t, TableAt(t, root, q).value, i, EMPTY);
            && SameTablesBut(t, t', root, Sub(q, i)) && TableAt(t', root, Sub(q, i)) == None
            && TreeOk(t', root) && EntryAt(t', root, q, i) == EMPTY && SameMeaningBut(t, t', root, q, i)
  {
    var t' := WithEntry(t, TableAt(t, root, q).value, i, EMPTY);
    forall p | IsTable(p) ensures TableAt(t', root, p) == if p == Sub(q, i) then None else TableAt(t, root, p) {
      UnlinkTables(t, root, q, i, p);
    }
    UnlinkEntries(t, root, q, i);
  }

  lemma UnlinkEntries(t: Tables, root: nat, q: Path, i: nat)
    requires TreeOk(t, root) && IsTable(q) && Level(q) >= 2 && i < PT_ENTRIES
    requires TableAt(t, root, q).Some?
    requires forall j: nat :: j < PT_ENTRIES ==> !EntryAt(t, root, Sub(q, i), j).present
    requires var t' := WithEntry(t, TableAt(t, root, q).value, i, EMPTY);
             SameTablesBut(t, t', root, Sub(q, i)) && TableAt(t', root, Sub(q, i)) == None
    ensures var t' := WithEntry(t, TableAt(t, root, q).value, i, EMPTY);
            EntryAt(t', root, q, i) == EMPTY && SameMeaningBut(t, t', root, q, i)
  {
    var t' := WithEntry(t, TableAt(t, root, q).value, i, EMPTY);
    assert q != Sub(q, i) && TableAt(t', root, q) == TableAt(t, root, q);
    forall p, j: nat | IsTable(p) && j < PT_ENTRIES && !(p == q && j == i)
      ensures Same(EntryAt(t, root, p, j), EntryAt(t', root, p, j))
    {
      var f := TableAt(t, root, p);
      assert f.Some? && p != q ==> f != TableAt(t, root, q);
    }
  }

  // ---- Translation --------------------------------------------------------

  function I4(v: nat): nat { v / 0x80_0000_0000 % 512 }
  function I3(v: nat): nat { v / 0x4000_0000 % 512 }
  function I2(v: nat): nat { v / 0x20_0000 % 512 }
  function I1(v: nat): nat { v / 0x1000 % 512 }

  /** The paths of the P3, P2 and P1 tables on the way to an address. */
  function P3(v: nat): Path { Sub(Top, I4(v)) }
  function P2(v: nat): Path { Sub(P3(v), I3(v)) }
  function P1(v: nat): Path { Sub(P2(v), I2(v)) }

  lemma PathsValid(v: nat)
    ensures IsTable(P3(v)) && Level(P3(v)) == 3 && IsTable(P2(v)) && Level(P2(v)) == 2 && IsTable(P1(v))
    ensures Level(P1(v)) == 1
  {
    assert Level(Top) == 4 && Valid(Top);
    assert Level(P3(v)) == Level(Top) - 1 && Valid(P3(v));
    assert Level(P2(v)) == Level(P3(v)) - 1 && Valid(P2(v));
    assert Level(P1(v)) == Level(P2(v)) - 1 && Valid(P1(v));
  }

  /** The two addresses have the same 36-bit page number (bits 12 to 47). */
  predicate SamePage(v: nat, w: nat) {
    v / 0x1000 % 0x10_0000_0000 == w / 0x1000 % 0x10_0000_0000
  }

  lemma Digits(n: nat)
    ensures n % 0x10_0000_0000 ==
      0x800_0000 * (n / 512 / 512 / 512 % 512) + 0x4_0000 * (n / 512 / 512 % 512) + 0x200 * (n / 512 % 512) + n % 512
  {
    var a := n / 512;
    var b := a / 512;
    var c := b / 512;
    assert n == 512 * a + n % 512 && a == 512 * b + a % 512 && b == 512 * c + b % 512 && c == 512 * (c / 512) + c % 512;
    var rest := 0x800_0000 * (c % 512) + 0x4_0000 * (b % 512) + 0x200 * (a % 512) + n % 512;
    assert n == 0x10_0000_0000 * (c / 512) + rest && rest < 0x10_0000_0000;
  }

  lemma Shifts(v: nat)
    ensures v / 0x20_0000 == v / 0x1000 / 512
    ensures v / 0x4000_0000 == v / 0x20_0000 / 512
    ensures v / 0x80_0000_0000 == v / 0x4000_0000 / 512
  {
  }

  lemma PageNumber(v: nat)
    ensures v / 0x1000 % 0x10_0000_0000 == 0x800_0000 * I4(v) + 0x4_0000 * I3(v) + 0x200 * I2(v) + I1(v)
  {
    Shifts(v);
    Digits(v / 0x1000);
  }

  /** Addresses walk to the same P1 entry exactly when they are in the same page. */
  lemma SamePageSameWalk(v: nat, w: nat)
    ensures SamePage(v, w) <==> P1(v) == P1(w) && I1(v) == I1(w)
  {
    PageNumber(v);
    PageNumber(w);
    if SamePage(v, w) { DigitsUnique(I4(v), I3(v), I2(v), I1(v), I4(w), I3(w), I2(w), I1(w)); }
  }

  lemma DigitsUnique(a4: nat, a3: nat, a2: nat, a1: nat, b4: nat, b3: nat, b2: nat, b1: nat)
    requires a4 < 512 && a3 < 512 && a2 < 512 && a1 < 512 && b4 < 512 && b3 < 512 && b2 < 512 && b1 < 512
    requires 0x800_0000 * a4 + 0x4_0000 * a3 + 0x200 * a2 + a1 == 0x800_0000 * b4 + 0x4_0000 * b3 + 0x200 * b2 + b1
    ensures a4 == b4 && a3 == b3 && a2 == b2 && a1 == b1
  {
  }

  /** translate: huge entries at P3 and P2 end the walk. */
  function Translate(t: Tables, root: nat, v: nat): Option<nat> {
    var e3 := EntryAt(t, root, P3(v), I3(v));
    if e3.present && e3.huge then Some(e3.addr + v % 0x4000_0000)
    else
      var e2 := EntryAt(t, root, P2(v), I2(v));
      if e2.present && e2.huge then Some(e2.addr + v % 0x20_0000)
      else
        var e1 := EntryAt(t, root, P1(v), I1(v));
        if e1.present then Some(e1.addr + v % 0x1000) else None
  }

  /** Entries above the pages agree on huge mappings, entries of pages agree. */
  predicate SameMapping(level: int, e: Entry, e': Entry) {
    if level == 1 then Same(e, e')
    else ((e.present && e.huge) <==> (e'.present && e'.huge)) && (e.present && e.huge ==> e == e')
  }

  /** Both trees map all pages alike, except possibly page entry `i` of the table at `q`. */
  ghost predicate MapsAlikeBut(t: Tables, t': Tables, root: nat, q: Path, i: nat) {
    forall p, j: nat :: IsTable(p) && j < PT_ENTRIES && !(p == q && j == i) ==>
      SameMapping(Level(p), EntryAt(t, root, p, j), EntryAt(t', root, p, j))
  }

  ghost predicate MapsAlike(t: Tables, t': Tables, root: nat) {
    forall p, j: nat :: IsTable(p) && j < PT_ENTRIES ==>
      SameMapping(Level(p), EntryAt(t, root, p, j), EntryAt(t', root, p, j))
  }

  lemma AlikeTranslate(t: Tables, t': Tables, root: nat, v: nat)
    requires MapsAlike(t, t', root)
    ensures Translate(t', root, v) == Translate(t, root, v)
  {
    PathsValid(v);
    assert SameMapping(Level(P3(v)), EntryAt(t, root, P3(v), I3(v)), EntryAt(t', root, P3(v), I3(v)));
    assert SameMapping(Level(P2(v)), EntryAt(t, root, P2(v), I2(v)), EntryAt(t', root, P2(v), I2(v)));
    assert SameMapping(Level(P1(v)), EntryAt(t, root, P1(v), I1(v)), EntryAt(t', root, P1(v), I1(v)));
  }

  /** Changing one page entry changes the translation of that page only. */
  lemma OnePageTranslate(t: Tables, t': Tables, root: nat, v: nat, w: nat)
    requires MapsAlikeBut(t, t', root, P1(v), I1(v)) && !SamePage(v, w)
    ensures Translate(t', root, w) == Translate(t, root, w)
  {
    PathsValid(v);
    PathsValid(w);
    SamePageSameWalk(v, w);
    assert SameMapping(Level(P3(w)), EntryAt(t, root, P3(w), I3(w)), EntryAt(t', root, P3(w), I3(w)));
    assert SameMapping(Level(P2(w)), EntryAt(t, root, P2(w), I2(w)), EntryAt(t', root, P2(w), I2(w)));
    assert SameMapping(Level(P1(w)), EntryAt(t, root, P1(w), I1(w)), EntryAt(t', root, P1(w), I1(w)));
  }

  /** Addresses of one page are translated through the same entry. */
  lemma PageTranslate(t: Tables, root: nat, v: nat, w: nat)
    requires SamePage(v, w) && TableAt(t, root, P1(v)).Some?
    ensures Translate(t, root, w) ==
      var e := EntryAt(t, root, P1(v), I1(v)); if e.present then Some(e.addr + w % 0x1000) else None
  {
    SamePageSameWalk(v, w);
    assert TableAt(t, root, P2(v)).Some?;
  }

  // ---- Empty tables -------------------------------------------------------

  ghost predicate NonEmpty(t: Tables, root: nat, p: Path) {
    exists j: nat :: j < PT_ENTRIES && EntryAt(t, root, p, j).present
  }

  /** Every table below the root, except possibly the one at `c`, has a present entry. */
  ghost predicate NoEmptyBut(t: Tables, root: nat, c: Path) {
    forall p :: IsTable(p) && p != Top && p != c && TableAt(t, root, p).Some? ==> NonEmpty(t, root, p)
  }

  /** No table below the root is empty. */
  ghost predicate NoEmpty(t: Tables, root: nat) {
    NoEmptyBut(t, root, Top)
  }

  ghost predicate KeepsTables(t: Tables, t': Tables, root: nat) {
    forall p :: IsTable(p) && TableAt(t, root, p).Some? ==> TableAt(t', root, p) == TableAt(t, root, p)
  }

  /** Every present entry of `t` is in `t'` unchanged. */
  ghost predicate KeepsEntries(t: Tables, t': Tables, root: nat) {
    forall p, j: nat :: IsTable(p) && j < PT_ENTRIES && EntryAt(t, root, p, j).present ==>
      EntryAt(t', root, p, j) == EntryAt(t, root, p, j)
  }

  lemma EntriesKeepTables(t: Tables, t': Tables, root: nat)
    requires KeepsEntries(t, t', root)
    ensures KeepsTables(t, t', root)
  {
    forall p | IsTable(p) && TableAt(t, root, p).Some? ensures TableAt(t', root, p) == TableAt(t, root, p) {
      if p.Sub? { assert EntryAt(t, root, p.parent, p.idx).present; }
    }
  }

  /** Changing just an absent entry keeps the others. */
  lemma KeptByStep(t: Tables, t': Tables, root: nat, q: Path, i: nat)
    requires SameMeaningBut(t, t', root, q, i) && !EntryAt(t, root, q, i).present
    ensures KeepsEntries(t, t', root)
  {
    forall p, j: nat | IsTable(p) && j < PT_ENTRIES && EntryAt(t, root, p, j).present
      ensures EntryAt(t', root, p, j) == EntryAt(t, root, p, j)
    {
      assert Same(EntryAt(t, root, p, j), EntryAt(t', root, p, j));
    }
  }

  lemma KeptTrans(t: Tables, t1: Tables, t2: Tables, root: nat)
    requires KeepsEntries(t, t1, root) && KeepsEntries(t1, t2, root)
    ensures KeepsEntries(t, t2, root)
  {
    forall p, j: nat | IsTable(p) && j < PT_ENTRIES && EntryAt(t, root, p, j).present
      ensures EntryAt(t2, root, p, j) == EntryAt(t, root, p, j)
    {
      assert EntryAt(t1, root, p, j) == EntryAt(t, root, p, j);
    }
  }

  /**
   * Trees without empty tables that map the same pages, and whose entries come from a common tree, are the same:
   * every entry is equal or absent in both.
   */
  lemma SameEntries(t: Tables, t': Tables, all: Tables, root: nat)
    requires NoEmpty(t, root) && NoEmpty(t', root) && MapsAlike(t, t', root)
    requires KeepsEntries(t, all, root) && KeepsEntries(t', all, root)
    ensures forall p, j: nat :: IsTable(p) && j < PT_ENTRIES ==> Same(EntryAt(t, root, p, j), EntryAt(t', root, p, j))
    ensures forall p :: IsTable(p) ==> TableAt(t', root, p) == TableAt(t, root, p)
  {
    AlikeSym(t, t', root);
    forall p, j: nat | IsTable(p) && j < PT_ENTRIES ensures Same(EntryAt(t, root, p, j), EntryAt(t', root, p, j)) {
      if EntryAt(t, root, p, j).present { StillPresent(t, t', root, p, j); }
      if EntryAt(t', root, p, j).present { StillPresent(t', t, root, p, j); }
    }
    forall p | IsTable(p) ensures TableAt(t', root, p) == TableAt(t, root, p) {
      if p.Sub? { assert Same(EntryAt(t, root, p.parent, p.idx), EntryAt(t', root, p.parent, p.idx)); }
    }
  }

  lemma AlikeSym(t: Tables, t': Tables, root: nat)
    requires MapsAlike(t, t', root)
    ensures MapsAlike(t', t, root)
  {
    forall p, j: nat | IsTable(p) && j < PT_ENTRIES
      ensures SameMapping(Level(p), EntryAt(t', root, p, j), EntryAt(t, root, p, j))
    {
      assert SameMapping(Level(p), EntryAt(t, root, p, j), EntryAt(t', root, p, j));
    }
  }

  lemma StillPresent(t: Tables, t': Tables, root: nat, p: Path, j: nat)
    requires NoEmpty(t, root) && MapsAlike(t, t', root) && IsTable(p) && j < PT_ENTRIES
    requires EntryAt(t, root, p, j).present
    ensures EntryAt(t', root, p, j).present
  {
    assert SameMapping(Level(p), EntryAt(t, root, p, j), EntryAt(t', root, p, j));
    if Level(p) > 1 && !EntryAt(t, root, p, j).huge { SameTree(t, t', root, Sub(p, j)); }
  }

  /**
   * Trees without empty tables that map the same pages, and agree on the frames of common tables, have the same
   * tables.
   */
  lemma {:induction false} SameTree(t: Tables, t': Tables, root: nat, p: Path)
    requires NoEmpty(t, root) && MapsAlike(t, t', root) && IsTable(p) && TableAt(t, root, p).Some?
    ensures TableAt(t', root, p).Some?
    decreases Level(p)
  {
    if p != Top {
      assert NonEmpty(t, root, p);
      var j: nat :| j < PT_ENTRIES && EntryAt(t, root, p, j).present;
      assert SameMapping(Level(p), EntryAt(t, root, p, j), EntryAt(t', root, p, j));
      if Level(p) > 1 && !EntryAt(t, root, p, j).huge {
        SameTree(t, t', root, Sub(p, j));
      }
    }
  }

  lemma LinkKeepsFull(t: Tables, t': Tables, root: nat, q: Path, i: nat)
    requires NoEmptyBut(t, root, q) && IsTable(q) && i < PT_ENTRIES
    requires SameTablesBut(t, t', root, Sub(q, i)) && SameEntriesBut(t, t', root, q, i)
    requires EntryAt(t', root, q, i).present
    ensures NoEmptyBut(t', root, Sub(q, i))
  {
    forall p | IsTable(p) && p != Top && p != Sub(q, i) && TableAt(t', root, p).Some? ensures NonEmpty(t', root, p) {
      if p != q {
        var j: nat :| j < PT_ENTRIES && EntryAt(t, root, p, j).present;
        assert EntryAt(t', root, p, j).present;
      }
    }
  }

  /** Removing an entry of the table at `q` can leave at most that table empty. */
  lemma ClearLeavesOne(t: Tables, t': Tables, root: nat, c: Path, q: Path, i: nat)
    requires NoEmptyBut(t, root, c) && IsTable(q) && i < PT_ENTRIES && SameMeaningBut(t, t', root, q, i)
    requires forall p :: IsTable(p) && TableAt(t', root, p).Some? ==> p != c && TableAt(t, root, p).Some?
    ensures NoEmptyBut(t', root, q)
  {
    forall p | IsTable(p) && p != Top && p != q && TableAt(t', root, p).Some? ensures NonEmpty(t', root, p) {
      var j: nat :| j < PT_ENTRIES && EntryAt(t, root, p, j).present;
      assert Same(EntryAt(t, root, p, j), EntryAt(t', root, p, j));
    }
  }

  /** Steps that change table entries without touching huge mappings map alike. */
  lemma StepAlike(t: Tables, t': Tables, root: nat, q: Path, i: nat)
    requires SameMeaningBut(t, t', root, q, i) && IsTable(q) && Level(q) >= 2
    requires !(EntryAt(t, root, q, i).present && EntryAt(t, root, q, i).huge)
    requires !(EntryAt(t', root, q, i).present && EntryAt(t', root, q, i).huge)
    ensures MapsAlike(t, t', root)
  {
    forall p, j: nat | IsTable(p) && j < PT_ENTRIES
      ensures SameMapping(Level(p), EntryAt(t, root, p, j), EntryAt(t', root, p, j))
    {
      if !(p == q && j == i) { assert Same(EntryAt(t, root, p, j), EntryAt(t', root, p, j)); }
    }
  }

  lemma AlikeTrans(t: Tables, t1: Tables, t2: Tables, root: nat)
    requires MapsAlike(t, t1, root) && MapsAlike(t1, t2, root)
    ensures MapsAlike(t, t2, root)
  {
    forall p, j: nat | IsTable(p) && j < PT_ENTRIES
      ensures SameMapping(Level(p), EntryAt(t, root, p, j), EntryAt(t2, root, p, j))
    {
      assert SameMapping(Level(p), EntryAt(t, root, p, j), EntryAt(t1, root, p, j));
      assert SameMapping(Level(p), EntryAt(t1, root, p, j), EntryAt(t2, root, p, j));
    }
  }

  lemma AlikeButTrans(t: Tables, t1: Tables, t2: Tables, root: nat, q: Path, i: nat)
    requires
      || (MapsAlike(t, t1, root) && MapsAlikeBut(t1, t2, root, q, i))
      || (MapsAlikeBut(t, t1, root, q, i) && MapsAlike(t1, t2, root))
    ensures MapsAlikeBut(t, t2, root, q, i)
  {
    forall p, j: nat | IsTable(p) && j < PT_ENTRIES && !(p == q && j == i)
      ensures SameMapping(Level(p), EntryAt(t, root, p, j), EntryAt(t2, root, p, j))
    {
      assert SameMapping(Level(p), EntryAt(t, root, p, j), EntryAt(t1, root, p, j));
      assert SameMapping(Level(p), EntryAt(t1, root, p, j), EntryAt(t2, root, p, j));
    }
  }
}
