/**
 * Two-level 32-bit paging over physical memory, as values: the hardware walk of section 4.3 of
 * Intel SDM Vol. 3A and the entries that kern/mm/vmm.c edits. cr3 is the physical address of pgd_kern.
 */
module Paging {
  import opened Words

  const PAGE_OFFSET := 0xC000_0000   // start of the kernel's direct map
  const HEAP_START := 0xE000_0000    // its end
  const RAM_SIZE := 0x2000_0000      // 512 MB
  const PTE_COUNT := 128             // tables of the direct map
  const ENTRIES := 1024              // entries in a directory or table
  const PRESENT_WRITE := 3           // PAGE_PRESENT | PAGE_WRITE

  type Ram = seq<Byte>

  /** Element k of the array of words at physical address base. */
  function Entry(m: Ram, base: int, k: int): Word
    requires 0 <= base && 0 <= k && base + 4 * k + 4 <= |m|
  {
    WordAt(m, base + 4 * k)
  }

  /** Directory entry d. */
  function Pde(m: Ram, cr3: Word, d: int): Word
    requires 0 <= d < ENTRIES && cr3 + PAGE_SIZE <= |m|
  {
    WordAt(m, cr3 + 4 * d)
  }

  /** The page table of directory entry d; 0 when there is none. */
  function TableOf(m: Ram, cr3: Word, d: int): int
    requires 0 <= d < ENTRIES && cr3 + PAGE_SIZE <= |m|
  {
    RoundDown(Pde(m, cr3, d))
  }

  /** The table entry of virtual page pg, reading 0 where no table exists. */
  function Pte(m: Ram, cr3: Word, pg: int): Word
    requires 0 <= pg < ENTRIES * ENTRIES && cr3 + PAGE_SIZE <= |m|
  {
    var t := TableOf(m, cr3, pg / ENTRIES);
    if t == 0 || t + PAGE_SIZE > |m| then 0 else WordAt(m, t + 4 * (pg % ENTRIES))
  }

  /** The hardware's translation of a virtual address; None is a page fault. */
  function Walk(m: Ram, cr3: Word, va: Word): Option<int>
    requires cr3 + PAGE_SIZE <= |m|
  {
    var pde := WordAt(m, cr3 + 4 * (va / 0x40_0000));
    var t := RoundDown(pde);
    if pde % 2 == 0 || t + PAGE_SIZE > |m| then None
    else
      var pte := WordAt(m, t + 4 * (va / 0x1000 % 0x400));
      if pte % 2 == 0 then None else Some(RoundDown(pte) + va % 0x1000)
  }

  /**
   * The translation of an access that needs a bit of both entries, by section 4.6 of Intel SDM Vol. 3A: bit 1 (value 2)
   * for a write with CR0.WP set, bit 2 (value 4) for any access from user mode.
   */
  function RightsWalk(m: Ram, cr3: Word, va: Word, bit: int): Option<int>
    requires cr3 + PAGE_SIZE <= |m| && bit > 0
  {
    var pde := WordAt(m, cr3 + 4 * (va / 0x40_0000));
    var t := RoundDown(pde);
    if pde / bit % 2 == 0 || t + PAGE_SIZE > |m| then None
    else if WordAt(m, t + 4 * (va / 0x1000 % 0x400)) / bit % 2 == 0 then None
    else Walk(m, cr3, va)
  }

  function StoreWalk(m: Ram, cr3: Word, va: Word): Option<int>
    requires cr3 + PAGE_SIZE <= |m|
  {
    RightsWalk(m, cr3, va, 2)
  }

  function UserWalk(m: Ram, cr3: Word, va: Word): Option<int>
    requires cr3 + PAGE_SIZE <= |m|
  {
    RightsWalk(m, cr3, va, 4)
  }

  /** Directory entries name pairwise distinct tables in memory, none of them the directory itself. */
  ghost predicate Tables(m: Ram, cr3: Word) {
    && |m| == RAM_SIZE
    && cr3 % PAGE_SIZE == 0 && 0 < cr3 < RAM_SIZE
    && (forall d | 0 <= d < ENTRIES :: Pde(m, cr3, d) == 0 ||
         (Pde(m, cr3, d) % PAGE_SIZE == PRESENT_WRITE && 0 < TableOf(m, cr3, d) < RAM_SIZE &&
          TableOf(m, cr3, d) != cr3))
    && (forall d, e | 0 <= d < e < ENTRIES && Pde(m, cr3, d) != 0 && Pde(m, cr3, e) != 0 ::
         TableOf(m, cr3, d) != TableOf(m, cr3, e))
  }

  predicate InWindow(pg: int) {
    PAGE_OFFSET / PAGE_SIZE < pg < HEAP_START / PAGE_SIZE
  }

  /** The entry of page pg in the direct map. */
  function DirectEntry(pg: int): int {
    (pg - PAGE_OFFSET / PAGE_SIZE) * PAGE_SIZE + PRESENT_WRITE
  }

  /** The direct map: every page of the window but the first leads to the frame PAGE_OFFSET below it. */
  ghost predicate DirectMap(m: Ram, cr3: Word)
    requires cr3 + PAGE_SIZE <= |m|
  {
    forall pg | InWindow(pg) :: Pte(m, cr3, pg) == DirectEntry(pg)
  }

  ghost predicate Valid(m: Ram, cr3: Word) {
    Tables(m, cr3) && DirectMap(m, cr3)
  }

  /** f may become a page table: it is a frame that is neither the directory nor a table. */
  ghost predicate Fresh(m: Ram, cr3: Word, f: int)
    requires cr3 + PAGE_SIZE <= |m|
  {
    && f % PAGE_SIZE == 0 && 0 < f < RAM_SIZE && f != cr3
    && forall d | 0 <= d < ENTRIES && Pde(m, cr3, d) != 0 :: TableOf(m, cr3, d) != f
  }

  ghost predicate SameExcept(m: Ram, m': Ram, lo: int, n: int) {
    |m'| == |m| && forall k | 0 <= k < |m| && !(lo <= k < lo + n) :: m'[k] == m[k]
  }

  /**
   * Where the hardware walk and the entries agree: on every table the kernel builds. Whether a page can be written is
   * in its table entry, and no page at all is open to user mode.
   */
  lemma WalkIsPte(m: Ram, cr3: Word, va: Word)
    requires Tables(m, cr3)
    ensures var e := Pte(m, cr3, va / PAGE_SIZE);
            && Walk(m, cr3, va) == (if e % 2 == 0 then None else Some(RoundDown(e) + va % PAGE_SIZE))
            && StoreWalk(m, cr3, va) == (if e / 2 % 2 == 0 then None else Walk(m, cr3, va))
    ensures UserWalk(m, cr3, va) == None
  {
    var d := va / 0x40_0000;
    Indices(va);
    TableBounds(m, cr3, d);
    TablePresent(m, cr3, d);
    hide WordAt, Tables, RoundDown;
  }

  lemma TablePresent(m: Ram, cr3: Word, d: int)
    requires Tables(m, cr3) && 0 <= d < ENTRIES
    ensures var e, bit := Pde(m, cr3, d), if TableOf(m, cr3, d) == 0 then 0 else 1;
            e % 2 == bit && e / 2 % 2 == bit && e / 4 % 2 == 0
  {
    hide WordAt, Pde, RoundDown;
    RoundZero();
    EntryRights(Pde(m, cr3, d));
  }

  lemma EntryRights(e: int)
    ensures e % PAGE_SIZE == PRESENT_WRITE ==> e % 2 == 1 && e / 2 % 2 == 1 && e / 4 % 2 == 0
  {
    if e % PAGE_SIZE == PRESENT_WRITE {
      var q := e / PAGE_SIZE;
      assert e == 0x1000 * q + 3;
      assert e / 2 == 0x800 * q + 1 && e / 4 == 0x400 * q;
    }
  }

  lemma WindowPage(p: int)
    requires PAGE_SIZE <= p < RAM_SIZE
    ensures (PAGE_OFFSET + p) / PAGE_SIZE == PAGE_OFFSET / PAGE_SIZE + p / PAGE_SIZE
    ensures InWindow((PAGE_OFFSET + p) / PAGE_SIZE)
    ensures var e := p / PAGE_SIZE * PAGE_SIZE + PRESENT_WRITE;
            e % 2 == 1 && e / 2 % 2 == 1 && RoundDown(e) + (PAGE_OFFSET + p) % PAGE_SIZE == p
  {
    EntryRights(p / PAGE_SIZE * PAGE_SIZE + PRESENT_WRITE);
  }

  lemma DirectWalk(m: Ram, cr3: Word, p: int)
    requires Valid(m, cr3) && PAGE_SIZE <= p < RAM_SIZE
    ensures Walk(m, cr3, PAGE_OFFSET + p) == Some(p) == StoreWalk(m, cr3, PAGE_OFFSET + p)
  {
    TableBounds(m, cr3, 0);
    hide WordAt, Walk, StoreWalk, Pte, Tables, RoundDown;
    var pg := (PAGE_OFFSET + p) / PAGE_SIZE;
    WindowPage(p);
    assert Pte(m, cr3, pg) == p / PAGE_SIZE * PAGE_SIZE + PRESENT_WRITE;
    WalkIsPte(m, cr3, PAGE_OFFSET + p);
  }

  /** Bytes outside the directory and the table of directory entry d do not matter to d's pages. */
  lemma PteFrame(m: Ram, m': Ram, cr3: Word, pg: int)
    requires cr3 + PAGE_SIZE <= |m| == |m'| && 0 <= pg < ENTRIES * ENTRIES
    requires Pde(m', cr3, pg / ENTRIES) == Pde(m, cr3, pg / ENTRIES)
    requires var t := TableOf(m, cr3, pg / ENTRIES);
             0 < t <= |m| - PAGE_SIZE ==> forall k | t <= k < t + PAGE_SIZE :: m'[k] == m[k]
    ensures Pte(m', cr3, pg) == Pte(m, cr3, pg)
  {
  }

  /** Writing inside one frame that is not the directory leaves every directory entry alone. */
  lemma PdeFrame(m: Ram, m': Ram, cr3: Word, f: int, d: int)
    requires cr3 + PAGE_SIZE <= |m| && cr3 % PAGE_SIZE == 0 && f % PAGE_SIZE == 0 && f != cr3 && 0 <= d < ENTRIES
    requires SameExcept(m, m', f, PAGE_SIZE)
    ensures Pde(m', cr3, d) == Pde(m, cr3, d)
  {
  }

  /** Storing a table entry changes exactly one page's entry. */
  lemma SetPte(m: Ram, m': Ram, cr3: Word, pg: int, w: Word)
    requires Tables(m, cr3) && 0 <= pg < ENTRIES * ENTRIES
    requires 0 < TableOf(m, cr3, pg / ENTRIES) <= |m| - PAGE_SIZE
    requires Stored(m, m', TableOf(m, cr3, pg / ENTRIES) + 4 * (pg % ENTRIES), w)
    ensures Tables(m', cr3)
    ensures forall d | 0 <= d < ENTRIES :: Pde(m', cr3, d) == Pde(m, cr3, d)
    ensures forall p | 0 <= p < ENTRIES * ENTRIES :: Pte(m', cr3, p) == if p == pg then w else Pte(m, cr3, p)
  {
    var c := pg / ENTRIES;
    var t := TableOf(m, cr3, c);
    assert Pde(m, cr3, c) != 0;
    forall d | 0 <= d < ENTRIES
      ensures Pde(m', cr3, d) == Pde(m, cr3, d)
    {
      PdeFrame(m, m', cr3, t, d);
    }
    forall p | 0 <= p < ENTRIES * ENTRIES
      ensures Pte(m', cr3, p) == if p == pg then w else Pte(m, cr3, p)
    {
      SetPteOne(m, m', cr3, pg, w, p);
    }
  }

  lemma SetPteOne(m: Ram, m': Ram, cr3: Word, pg: int, w: Word, p: int)
    requires cr3 + PAGE_SIZE <= |m| && 0 <= pg < ENTRIES * ENTRIES && 0 <= p < ENTRIES * ENTRIES
    requires var t := TableOf(m, cr3, pg / ENTRIES);
             0 < t <= |m| - PAGE_SIZE && Stored(m, m', t + 4 * (pg % ENTRIES), w)
    requires pg / ENTRIES != p / ENTRIES ==> TableOf(m, cr3, p / ENTRIES) != TableOf(m, cr3, pg / ENTRIES)
    requires Pde(m', cr3, p / ENTRIES) == Pde(m, cr3, p / ENTRIES)
    ensures Pte(m', cr3, p) == if p == pg then w else Pte(m, cr3, p)
  {
    var t, u := TableOf(m, cr3, pg / ENTRIES), TableOf(m, cr3, p / ENTRIES);
    if t != u {
      Apart(t, u);
      PteFrame(m, m', cr3, p);
    } else {
      SlotsApart(pg, p);
    }
  }

  lemma Apart(t: int, u: int)
    requires t % PAGE_SIZE == 0 && u % PAGE_SIZE == 0 && t != u
    ensures t + PAGE_SIZE <= u || u + PAGE_SIZE <= t
  {
  }

  lemma SlotsApart(pg: int, p: int)
    requires 0 <= pg && 0 <= p && pg / ENTRIES == p / ENTRIES
    ensures p == pg || 4 * (pg % ENTRIES) + 4 <= 4 * (p % ENTRIES) || 4 * (p % ENTRIES) + 4 <= 4 * (pg % ENTRIES)
  {
  }

  /** m' is m with the fresh frame f hung in the empty directory slot d; f's own bytes may be anything. */
  ghost predicate Hung(m: Ram, m': Ram, cr3: Word, d: int, f: Word) {
    && Tables(m, cr3) && 0 <= d < ENTRIES && Pde(m, cr3, d) == 0 && Fresh(m, cr3, f)
    && |m'| == |m| && Pde(m', cr3, d) == f + PRESENT_WRITE
    && (forall e | 0 <= e < ENTRIES && e != d :: Pde(m', cr3, e) == Pde(m, cr3, e))
    && (forall k | 0 <= k < |m| && !(cr3 <= k < cr3 + PAGE_SIZE) && !(f <= k < f + PAGE_SIZE) :: m'[k] == m[k])
  }

  /** Pages of other directory slots do not notice a new table. */
  lemma HungPages(m: Ram, m': Ram, cr3: Word, d: int, f: Word)
    requires Hung(m, m', cr3, d, f)
    ensures Tables(m', cr3) && TableOf(m', cr3, d) == f
    ensures forall p | 0 <= p < ENTRIES * ENTRIES && p / ENTRIES != d :: Pte(m', cr3, p) == Pte(m, cr3, p)
    ensures DirectMap(m, cr3) ==> DirectMap(m', cr3)
  {
    HungTables(m, m', cr3, d, f);
    hide WordAt, Pte, DirectMap;
    forall p | 0 <= p < ENTRIES * ENTRIES && p / ENTRIES != d
      ensures Pte(m', cr3, p) == Pte(m, cr3, p)
    {
      HungPte(m, m', cr3, p, f);
    }
    if DirectMap(m, cr3) {
      DirectMapKept(m, m', cr3, d);
    }
  }

  lemma HungTables(m: Ram, m': Ram, cr3: Word, d: int, f: Word)
    requires Hung(m, m', cr3, d, f)
    ensures Tables(m', cr3) && TableOf(m', cr3, d) == f
  {
    hide WordAt, Pde;
    RoundEntry(f);
  }

  /** A new table is hung by one directory store ... */
  lemma HangTable(m: Ram, m': Ram, cr3: Word, d: int, f: Word)
    requires Tables(m, cr3) && 0 <= d < ENTRIES && Pde(m, cr3, d) == 0 && Fresh(m, cr3, f)
    requires Stored(m, m', cr3 + 4 * d, f + PRESENT_WRITE)
    ensures Hung(m, m', cr3, d, f)
  {
    assert |m| == RAM_SIZE;
    hide Tables, Fresh;
  }

  /** ... and then filled without being missed by anyone. */
  lemma FillTable(m: Ram, m': Ram, m'': Ram, cr3: Word, d: int, f: Word)
    requires Hung(m, m', cr3, d, f) && SameExcept(m', m'', f, PAGE_SIZE)
    ensures Hung(m, m'', cr3, d, f)
  {
    HungTables(m, m', cr3, d, f);
    HungFrame(m, m', cr3, d, f);
    hide Tables, Fresh, WordAt;
    forall e | 0 <= e < ENTRIES
      ensures Pde(m'', cr3, e) == Pde(m', cr3, e)
    {
      PdeFrame(m', m'', cr3, f, e);
    }
  }

  ghost predicate Zeroed(m: Ram, f: int) {
    forall k | 0 <= k < |m| && f <= k < f + PAGE_SIZE :: m[k] == 0
  }

  /** A zeroed table maps nothing. */
  lemma ZeroTable(m: Ram, cr3: Word, pg: int)
    requires 0 <= pg < ENTRIES * ENTRIES && cr3 + PAGE_SIZE <= |m|
    requires Zeroed(m, TableOf(m, cr3, pg / ENTRIES))
    ensures Pte(m, cr3, pg) == 0
  {
  }

  lemma HungFrame(m: Ram, m': Ram, cr3: Word, d: int, f: Word)
    requires Hung(m, m', cr3, d, f)
    ensures f % PAGE_SIZE == 0 && 0 < f < RAM_SIZE && |m'| == RAM_SIZE == |m| && cr3 + PAGE_SIZE <= RAM_SIZE
    ensures 0 <= d < ENTRIES && TableOf(m, cr3, d) == 0
  {
    RoundZero();
    hide WordAt;
  }

  lemma RoundEntry(f: int)
    requires 0 <= f && f % PAGE_SIZE == 0
    ensures RoundDown(f + PRESENT_WRITE) == f && (f + PRESENT_WRITE) % PAGE_SIZE == PRESENT_WRITE
  {
  }

  lemma HungPte(m: Ram, m': Ram, cr3: Word, p: int, f: Word)
    requires cr3 + PAGE_SIZE <= |m| == |m'| && 0 <= p < ENTRIES * ENTRIES
    requires cr3 % PAGE_SIZE == 0 && f % PAGE_SIZE == 0
    requires Pde(m', cr3, p / ENTRIES) == Pde(m, cr3, p / ENTRIES)
    requires TableOf(m, cr3, p / ENTRIES) != f && TableOf(m, cr3, p / ENTRIES) != cr3
    requires forall k | 0 <= k < |m| && !(cr3 <= k < cr3 + PAGE_SIZE) && !(f <= k < f + PAGE_SIZE) :: m'[k] == m[k]
    ensures Pte(m', cr3, p) == Pte(m, cr3, p)
  {
    var t := TableOf(m, cr3, p / ENTRIES);
    Apart(t, f);
    Apart(t, cr3);
    PteFrame(m, m', cr3, p);
  }

  lemma NoTableNoEntry(m: Ram, cr3: Word, pg: int)
    requires 0 <= pg < ENTRIES * ENTRIES && cr3 + PAGE_SIZE <= |m| && TableOf(m, cr3, pg / ENTRIES) == 0
    ensures Pte(m, cr3, pg) == 0
  {
  }

  lemma NotInWindow(m: Ram, cr3: Word, pg: int)
    requires Valid(m, cr3) && 0 <= pg < ENTRIES * ENTRIES && cr3 + PAGE_SIZE <= |m| && Pte(m, cr3, pg) == 0
    ensures !InWindow(pg)
  {
    hide Pte, Tables, DirectEntry;
    WindowEntry(pg);
  }

  lemma WindowEntry(pg: int)
    ensures InWindow(pg) ==> DirectEntry(pg) > 0
  {
  }

  /** The direct map only depends on the directory slots of its window, and those are never empty. */
  lemma DirectMapKept(m: Ram, m': Ram, cr3: Word, d: int)
    requires cr3 + PAGE_SIZE <= |m| == |m'| && DirectMap(m, cr3) && 0 <= d < ENTRIES && TableOf(m, cr3, d) == 0
    requires forall p | 0 <= p < ENTRIES * ENTRIES && p / ENTRIES != d :: Pte(m', cr3, p) == Pte(m, cr3, p)
    ensures DirectMap(m', cr3)
  {
    hide Pte, TableOf;
    forall pg | InWindow(pg)
      ensures Pte(m', cr3, pg) == DirectEntry(pg)
    {
      if pg / ENTRIES == d {
        NoTableNoEntry(m, cr3, pg);
      }
    }
  }

  /** Only the directory and the table t differ. */
  ghost predicate OnlyTables(m: Ram, m': Ram, cr3: Word, t: int) {
    && |m'| == |m|
    && forall k | 0 <= k < |m| && !(cr3 <= k < cr3 + PAGE_SIZE) && !(t <= k < t + PAGE_SIZE) :: m'[k] == m[k]
  }

  lemma TableBounds(m: Ram, cr3: Word, d: int)
    requires Tables(m, cr3) && 0 <= d < ENTRIES
    ensures |m| == RAM_SIZE && cr3 % PAGE_SIZE == 0 && PAGE_SIZE <= cr3 <= RAM_SIZE - PAGE_SIZE
    ensures var t := TableOf(m, cr3, d);
            && t % PAGE_SIZE == 0 && (Pde(m, cr3, d) == 0 <==> t == 0)
            && (t != 0 ==> PAGE_SIZE <= t <= RAM_SIZE - PAGE_SIZE)
  {
    hide WordAt, Pde;
  }

  lemma Indices(va: Word)
    ensures va / PAGE_SIZE / ENTRIES == va / 0x40_0000 && va / PAGE_SIZE % ENTRIES == va / 0x1000 % 0x400
    ensures 0 <= va / 0x40_0000 < ENTRIES && 0 <= va / PAGE_SIZE < ENTRIES * ENTRIES
  {
  }

  /** A hung and cleared table leaves every page's entry as it was. */
  lemma ClearedTable(m: Ram, m': Ram, cr3: Word, d: int, f: Word)
    requires Valid(m, cr3) && Hung(m, m', cr3, d, f) && Zeroed(m', f) && cr3 + PAGE_SIZE <= |m| == |m'| && d < ENTRIES
    ensures Valid(m', cr3) && TableOf(m', cr3, d) == f
    ensures forall p | 0 <= p < ENTRIES * ENTRIES :: Pte(m', cr3, p) == Pte(m, cr3, p)
  {
    hide WordAt, Pte, Pde, Tables, DirectMap, TableOf, Hung;
    HungPages(m, m', cr3, d, f);
    HungFrame(m, m', cr3, d, f);
    forall p | 0 <= p < ENTRIES * ENTRIES
      ensures Pte(m', cr3, p) == Pte(m, cr3, p)
    {
      if p / ENTRIES == d {
        NoTableNoEntry(m, cr3, p);
        ZeroTable(m', cr3, p);
      }
    }
  }

  /**
   * One store into a table keeps the direct map if and only if it is away from the window, or changes nothing there.
   */
  lemma SetPteValid(m: Ram, m': Ram, cr3: Word, pg: int, w: Word)
    requires Valid(m, cr3) && 0 <= pg < ENTRIES * ENTRIES
    requires 0 < TableOf(m, cr3, pg / ENTRIES) <= |m| - PAGE_SIZE
    requires Stored(m, m', TableOf(m, cr3, pg / ENTRIES) + 4 * (pg % ENTRIES), w)
    ensures Tables(m', cr3) && (Valid(m', cr3) <==> (InWindow(pg) ==> w == DirectEntry(pg)))
    ensures forall d | 0 <= d < ENTRIES :: Pde(m', cr3, d) == Pde(m, cr3, d)
    ensures forall p | 0 <= p < ENTRIES * ENTRIES :: Pte(m', cr3, p) == if p == pg then w else Pte(m, cr3, p)
  {
    hide WordAt, Pte, Pde, Tables, TableOf, DirectEntry;
    SetPte(m, m', cr3, pg, w);
  }

  /**
   * get_mapping looks for a nonzero entry, the hardware for the present bit. After map has stored
   * pa and flags for va, the two agree on whether va is mapped if and only if PAGE_PRESENT is among
   * the flags, or the stored entry is 0. Flags below a page leave the frame alone.
   */
  lemma LookupAgreesIff(m: Ram, cr3: Word, va: Word, pa: Word, flags: Word)
    requires Tables(m, cr3) && Pte(m, cr3, va / PAGE_SIZE) == BitOr(RoundDown(pa), flags)
    ensures (Pte(m, cr3, va / PAGE_SIZE) != 0 <==> Walk(m, cr3, va).Some?)
       <==> flags % 2 == 1 || (pa < PAGE_SIZE && flags == 0)
    ensures flags % 2 == 1 && flags < PAGE_SIZE ==> Walk(m, cr3, va) == Some(RoundDown(pa) + va % PAGE_SIZE)
    ensures StoreWalk(m, cr3, va) == if flags / 2 % 2 == 1 then Walk(m, cr3, va) else None
  {
    hide WordAt, Walk, StoreWalk, UserWalk, Pte, Tables, RoundDown, BitOr;
    WalkIsPte(m, cr3, va);
    EntryParts(pa, flags);
  }

  /** PAGE_WRITE alone: get_mapping finds the page, the hardware does not. */
  lemma WriteAloneFaults(m: Ram, cr3: Word, va: Word, pa: Word)
    requires Tables(m, cr3) && Pte(m, cr3, va / PAGE_SIZE) == BitOr(RoundDown(pa), 2)
    ensures Pte(m, cr3, va / PAGE_SIZE) != 0 && Walk(m, cr3, va) == None
  {
    hide Tables, Walk, StoreWalk, UserWalk, Pte, BitOr;
    LookupAgreesIff(m, cr3, va, pa, 2);
    OrZero(RoundDown(pa), 2);
  }

  /** Mapping the window page 0xC0001000 to frame 0x5000 takes frame 0x1000 out of the direct map. */
  lemma WindowPageLost(m: Ram, m': Ram, cr3: Word)
    requires Valid(m, cr3) && 0 < TableOf(m, cr3, 0xC_0001 / ENTRIES) <= |m| - PAGE_SIZE
    requires Stored(m, m', TableOf(m, cr3, 0xC_0001 / ENTRIES) + 4 * (0xC_0001 % ENTRIES), 0x5003)
    ensures !Valid(m', cr3) && cr3 + PAGE_SIZE <= |m'| && Walk(m', cr3, 0xC000_1000) == Some(0x5000)
  {
    hide Tables, Walk, Pte, WordAt, TableOf;
    TableBounds(m, cr3, 0);
    SetPteValid(m, m', cr3, 0xC_0001, 0x5003);
    TableBounds(m', cr3, 0);
    WalkTo(m', cr3, 0xC000_1000, 0xC_0001, 0x5000);
  }

  lemma EntryParts(pa: Word, flags: Word)
    ensures var e := BitOr(RoundDown(pa), flags);
            && e % 2 == flags % 2 && e / 2 % 2 == flags / 2 % 2 && (e == 0 <==> pa < PAGE_SIZE && flags == 0)
            && (flags < PAGE_SIZE ==> RoundDown(e) == RoundDown(pa))
  {
    OrFlags(pa, flags);
    OrZero(RoundDown(pa), flags);
    var a := RoundDown(pa);
    hide BitOr, RoundDown;
    PageIsEven(a);
    LowBits(a, flags);
    if flags < PAGE_SIZE {
      RoundSum(a, flags);
    }
  }

  lemma LowBits(a: nat, flags: nat)
    requires a % 2 == 0 && a / 2 % 2 == 0
    ensures BitOr(a, flags) % 2 == flags % 2 && BitOr(a, flags) / 2 % 2 == flags / 2 % 2
  {
    hide BitOr;
    OrParity(a, flags);
    OrStep(a, flags);
    OrParity(a / 2, flags / 2);
    Halved(BitOr(a / 2, flags / 2), BitOr(a, flags), flags % 2);
  }

  lemma Halved(x: nat, y: nat, b: nat)
    requires y == 2 * x + b && b < 2
    ensures y / 2 == x
  {
  }

  lemma PageIsEven(a: int)
    requires a % PAGE_SIZE == 0
    ensures a % 2 == 0 && a / 2 % 2 == 0
  {
  }

  lemma RoundSum(a: int, f: int)
    requires 0 <= a && a % PAGE_SIZE == 0 && 0 <= f < PAGE_SIZE
    ensures RoundDown(a + f) == a
  {
  }

  lemma WalkTo(m: Ram, cr3: Word, va: Word, pg: int, f: Word)
    requires Tables(m, cr3) && f % PAGE_SIZE == 0 && va / PAGE_SIZE == pg && Pte(m, cr3, pg) == f + PRESENT_WRITE
    ensures Walk(m, cr3, va) == Some(f + va % PAGE_SIZE) == StoreWalk(m, cr3, va)
  {
    hide WordAt, Walk, StoreWalk, Pte, Tables, RoundDown;
    WalkIsPte(m, cr3, va);
    RoundEntry(f);
    EntryRights(f + PRESENT_WRITE);
  }

  /** Writing inside a frame that is neither the directory nor a table changes no entry. */
  lemma FrameWrite(m: Ram, m': Ram, cr3: Word, f: int)
    requires Valid(m, cr3) && f % PAGE_SIZE == 0 && f != cr3 && SameExcept(m, m', f, PAGE_SIZE)
    requires forall d | 0 <= d < ENTRIES :: TableOf(m, cr3, d) != f
    ensures Valid(m', cr3)
    ensures forall d | 0 <= d < ENTRIES :: Pde(m', cr3, d) == Pde(m, cr3, d)
    ensures forall p | 0 <= p < ENTRIES * ENTRIES :: Pte(m', cr3, p) == Pte(m, cr3, p)
  {
    TableBounds(m, cr3, 0);
    forall d | 0 <= d < ENTRIES
      ensures Pde(m', cr3, d) == Pde(m, cr3, d)
    {
      hide WordAt, Pde, Pte, TableOf, Tables, DirectMap, SameExcept;
      PdeFrame(m, m', cr3, f, d);
    }
    forall p | 0 <= p < ENTRIES * ENTRIES
      ensures Pte(m', cr3, p) == Pte(m, cr3, p)
    {
      hide WordAt, Pde, Pte, Tables, DirectMap;
      var t := TableOf(m, cr3, p / ENTRIES);
      Apart(t, f);
      PteFrame(m, m', cr3, p);
    }
    hide WordAt, Pde, Pte;
  }

  // ----- What init_vmm builds -----

  /** pgd_kern and pte_kern as init_vmm leaves them; t is the physical address of pte_kern. */
  ghost predicate Boot(m: Ram, cr3: Word, t: Word) {
    && |m| == RAM_SIZE && BootLayout(cr3, t)
    && (forall d | 0 <= d < ENTRIES :: Pde(m, cr3, d) == BootPde(t, d))
    && (forall k | 0 <= k < PTE_COUNT * ENTRIES ::
          Entry(m, t, k) == if k == 0 then 0 else k * PAGE_SIZE + PRESENT_WRITE)
  }

  ghost predicate BootLayout(cr3: Word, t: Word) {
    && cr3 % PAGE_SIZE == 0 && t % PAGE_SIZE == 0 && 0 < cr3 < RAM_SIZE && 0 < t <= RAM_SIZE - PTE_COUNT * PAGE_SIZE
    && !(t <= cr3 < t + PTE_COUNT * PAGE_SIZE)
  }

  ghost function BootPde(t: int, d: int): int {
    var j := d - PAGE_OFFSET / 0x40_0000;
    if 0 <= j < PTE_COUNT then t + j * PAGE_SIZE + PRESENT_WRITE else 0
  }

  /**
   * The direct map and nothing else: the hardware sends va to va - PAGE_OFFSET inside the window and faults
   * elsewhere.
   */
  lemma BootWalk(m: Ram, cr3: Word, t: Word, va: Word)
    requires Boot(m, cr3, t)
    ensures Walk(m, cr3, va) == if 0xC000_1000 <= va < 0xE000_0000 then Some(va - 0xC000_0000) else None
    ensures StoreWalk(m, cr3, va) == Walk(m, cr3, va) && UserWalk(m, cr3, va) == None
  {
    BootTables(m, cr3, t);
    BootPte(m, cr3, t, va / PAGE_SIZE);
    WalkIsPte(m, cr3, va);
    hide WordAt, Walk, StoreWalk, UserWalk, Pte, Tables, Boot, BootPde, RoundDown;
    BootEntry(va);
  }

  /** The words themselves: present and writable, page 0 left out. */
  lemma BootWords(m: Ram, cr3: Word, t: Word)
    requires Boot(m, cr3, t)
    ensures forall j | 0 <= j < 128 :: Entry(m, cr3, 768 + j) == t + j * 0x1000 + 3
    ensures forall k | 1 <= k < 128 * 1024 :: Entry(m, t, k) == k * 0x1000 + 3
    ensures Entry(m, t, 0) == 0
  {
    hide WordAt;
    forall j | 0 <= j < 128
      ensures Entry(m, cr3, 768 + j) == t + j * 0x1000 + 3
    {
      assert Entry(m, cr3, 768 + j) == Pde(m, cr3, 768 + j) == BootPde(t, 768 + j);
    }
  }

  lemma BootEntry(va: Word)
    ensures InWindow(va / PAGE_SIZE) <==> PAGE_OFFSET + PAGE_SIZE <= va < HEAP_START
    ensures var e := (va / PAGE_SIZE - PAGE_OFFSET / PAGE_SIZE) * PAGE_SIZE + PRESENT_WRITE;
            InWindow(va / PAGE_SIZE) ==>
              e % 2 == 1 && e / 2 % 2 == 1 && RoundDown(e) + va % PAGE_SIZE == va - PAGE_OFFSET
  {
    EntryRights((va / PAGE_SIZE - PAGE_OFFSET / PAGE_SIZE) * PAGE_SIZE + PRESENT_WRITE);
  }

  lemma BootValid(m: Ram, cr3: Word, t: Word)
    requires Boot(m, cr3, t)
    ensures Valid(m, cr3)
    ensures forall p | 0 <= p < ENTRIES * ENTRIES ::
              Pte(m, cr3, p) == if InWindow(p) then (p - PAGE_OFFSET / PAGE_SIZE) * PAGE_SIZE + PRESENT_WRITE else 0
  {
    BootTables(m, cr3, t);
    hide WordAt, Pte, Tables, Boot, BootPde;
    forall p | 0 <= p < ENTRIES * ENTRIES
      ensures Pte(m, cr3, p) == if InWindow(p) then (p - PAGE_OFFSET / PAGE_SIZE) * PAGE_SIZE + PRESENT_WRITE else 0
    {
      BootPte(m, cr3, t, p);
    }
  }

  lemma BootTables(m: Ram, cr3: Word, t: Word)
    requires Boot(m, cr3, t)
    ensures Tables(m, cr3)
    ensures forall d | 0 <= d < ENTRIES ::
              TableOf(m, cr3, d) == if BootPde(t, d) == 0 then 0 else BootPde(t, d) - PRESENT_WRITE
  {
    hide WordAt, Pde, RoundDown;
    forall d | 0 <= d < ENTRIES
      ensures TableOf(m, cr3, d) == if BootPde(t, d) == 0 then 0 else BootPde(t, d) - PRESENT_WRITE
      ensures BootPde(t, d) % PAGE_SIZE == if BootPde(t, d) == 0 then 0 else PRESENT_WRITE
    {
      var j := d - PAGE_OFFSET / 0x40_0000;
      if 0 <= j < PTE_COUNT {
        RoundEntry(t + j * PAGE_SIZE);
      } else {
        RoundZero();
      }
    }
  }

  lemma RoundZero()
    ensures RoundDown(0) == 0
  {
  }

  lemma BootPte(m: Ram, cr3: Word, t: Word, p: int)
    requires Boot(m, cr3, t) && 0 <= p < ENTRIES * ENTRIES
    ensures Pte(m, cr3, p) == if InWindow(p) then (p - PAGE_OFFSET / PAGE_SIZE) * PAGE_SIZE + PRESENT_WRITE else 0
  {
    BootTables(m, cr3, t);
    var d, k := p / ENTRIES, p - PAGE_OFFSET / PAGE_SIZE;
    assert |m| == RAM_SIZE && BootLayout(cr3, t);
    if 0 <= k < PTE_COUNT * ENTRIES {
      assert Entry(m, t, k) == if k == 0 then 0 else k * PAGE_SIZE + PRESENT_WRITE;
      hide WordAt, Pde, Tables, RoundDown, TableOf, Boot;
      BootSlot(t, p);
    } else {
      hide WordAt, Pde, Tables, RoundDown, TableOf, Boot;
    }
  }

  lemma BootSlot(t: Word, p: int)
    requires 0 <= p - PAGE_OFFSET / PAGE_SIZE < PTE_COUNT * ENTRIES
    ensures BootPde(t, p / ENTRIES) != 0
    ensures BootPde(t, p / ENTRIES) - PRESENT_WRITE + 4 * (p % ENTRIES) == t + 4 * (p - PAGE_OFFSET / PAGE_SIZE)
    ensures BootPde(t, p / ENTRIES) - PRESENT_WRITE <= t + (PTE_COUNT - 1) * PAGE_SIZE
  {
  }
}
