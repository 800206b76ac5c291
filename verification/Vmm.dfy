/** kern/mm/vmm.c: editing the page tables through the kernel's own direct map. */
module Vmm {
  import opened Words
  import opened Paging
  import opened Pmm

  /** The MMU sends va to physical address p, where there is memory. */
  ghost predicate At(m: Ram, cr3: Word, va: int, p: int) {
    cr3 + PAGE_SIZE <= |m| && 0 <= va < TWO32 && Walk(m, cr3, va) == Some(p) && 0 <= p < |m|
  }

  /** ... and lets the kernel write there. */
  ghost predicate Writable(m: Ram, cr3: Word, va: int, p: int) {
    At(m, cr3, va, p) && StoreWalk(m, cr3, va) == Some(p)
  }

  function Put4(m: Ram, p0: int, p1: int, p2: int, p3: int, w: Word): Ram
    requires 0 <= p0 < |m| && 0 <= p1 < |m| && 0 <= p2 < |m| && 0 <= p3 < |m|
  {
    m[p0 := ByteOf(w, 0)][p1 := ByteOf(w, 1)][p2 := ByteOf(w, 2)][p3 := ByteOf(w, 3)]
  }

  lemma Put4Stored(m: Ram, p: int, w: Word)
    requires 0 <= p && p + 4 <= |m|
    ensures Stored(m, Put4(m, p, p + 1, p + 2, p + 3, w), p, w)
  {
    BytesOfWord(w);
  }

  class Vmm {
    const pmm: Pmm
    const cr3: Word            // physical address of pgd_kern
    var ram: Ram               // physical memory

    ghost predicate Valid()
      reads this, pmm
    {
      pmm.Valid() && Paging.Valid(ram, cr3)
    }

    constructor (pmm: Pmm, cr3: Word, ram: Ram)
      ensures this.pmm == pmm && this.cr3 == cr3 && this.ram == ram
    {
      this.pmm, this.cr3, this.ram := pmm, cr3, ram;
    }

    // ----- Memory accesses as the processor makes them -----

    /** A byte store to a virtual address that the MMU sends to p. */
    method StoreByte(va: Word, b: Byte, ghost p: int)
      requires Writable(ram, cr3, va, p)
      modifies this`ram
      ensures ram == old(ram)[p := b]
    {
      var t := StoreWalk(ram, cr3, va);
      ram := ram[t.value := b];
    }

    /** A word load; the four bytes may lie on two pages. */
    method LoadWord(va: Word, ghost p0: int, ghost p1: int, ghost p2: int, ghost p3: int) returns (w: Word)
      requires At(ram, cr3, va, p0) && At(ram, cr3, va + 1, p1) && At(ram, cr3, va + 2, p2) && At(ram, cr3, va + 3, p3)
      ensures w == WordAt([ram[p0], ram[p1], ram[p2], ram[p3]], 0)
    {
      var t0, t1, t2, t3 := Walk(ram, cr3, va), Walk(ram, cr3, va + 1), Walk(ram, cr3, va + 2), Walk(ram, cr3, va + 3);
      w := WordAt([ram[t0.value], ram[t1.value], ram[t2.value], ram[t3.value]], 0);
    }

    /** A word store: all four bytes are translated before any is written. */
    method StoreWord(va: Word, w: Word, ghost p0: int, ghost p1: int, ghost p2: int, ghost p3: int)
      requires Writable(ram, cr3, va, p0) && Writable(ram, cr3, va + 1, p1)
      requires Writable(ram, cr3, va + 2, p2) && Writable(ram, cr3, va + 3, p3)
      modifies this`ram
      ensures ram == Put4(old(ram), p0, p1, p2, p3, w)
    {
      var t0, t1 := StoreWalk(ram, cr3, va), StoreWalk(ram, cr3, va + 1);
      var t2, t3 := StoreWalk(ram, cr3, va + 2), StoreWalk(ram, cr3, va + 3);
      ram := Put4(ram, t0.value, t1.value, t2.value, t3.value, w);
    }

    /** Reads the word at physical address p through the direct map. */
    method LoadDirect(p: Word) returns (w: Word)
      requires Paging.Valid(ram, cr3) && PAGE_SIZE <= p <= RAM_SIZE - 4
      ensures w == WordAt(ram, p)
    {
      hide Walk, StoreWalk;
      DirectWalk(ram, cr3, p);
      DirectWalk(ram, cr3, p + 1);
      DirectWalk(ram, cr3, p + 2);
      DirectWalk(ram, cr3, p + 3);
      w := LoadWord(PAGE_OFFSET + p, p, p + 1, p + 2, p + 3);
    }

    /** Writes the word at physical address p through the direct map. */
    method StoreDirect(p: Word, w: Word)
      requires Paging.Valid(ram, cr3) && PAGE_SIZE <= p <= RAM_SIZE - 4
      modifies this`ram
      ensures Stored(old(ram), ram, p, w)
    {
      hide Walk, StoreWalk, WordAt, Put4, Stored;
      DirectWalk(ram, cr3, p);
      DirectWalk(ram, cr3, p + 1);
      DirectWalk(ram, cr3, p + 2);
      DirectWalk(ram, cr3, p + 3);
      Put4Stored(ram, p, w);
      StoreWord(PAGE_OFFSET + p, w, p, p + 1, p + 2, p + 3);
    }

    /**
     * bzero of a page table reached through the direct map. m is the memory before the frame f was hung
     * in the directory: the table is live, and garbage, while it is being cleared.
     */
    method BzeroTable(f: Word, ghost m: Ram, ghost d: int)
      requires Paging.Valid(m, cr3) && Hung(m, ram, cr3, d, f)
      modifies this`ram
      ensures Hung(m, ram, cr3, d, f)
      ensures Zeroed(ram, f)
      ensures SameExcept(old(ram), ram, f, PAGE_SIZE)
    {
      hide Walk, StoreWalk, Hung, Tables, DirectMap, Fresh;
      ghost var m' := ram;
      HungFrame(m, ram, cr3, d, f);
      var k := 0;
      while k < PAGE_SIZE
        invariant 0 <= k <= PAGE_SIZE
        invariant f % PAGE_SIZE == 0 && 0 < f < RAM_SIZE && |ram| == RAM_SIZE
        invariant SameExcept(m', ram, f, PAGE_SIZE)
        invariant forall i | f <= i < f + k :: ram[i] == 0
      {
        FillTable(m, m', ram, cr3, d, f);
        HungPages(m, ram, cr3, d, f);
        DirectWalk(ram, cr3, f + k);
        StoreByte(PAGE_OFFSET + f + k, 0, f + k);
        k := k + 1;
      }
      FillTable(m, m', ram, cr3, d, f);
    }

    /** The branch of map that hangs a fresh page table in the directory and clears it. */
    method NewTable(f: Word, d: int)
      requires Paging.Valid(ram, cr3) && 0 <= d < ENTRIES && Pde(ram, cr3, d) == 0 && Fresh(ram, cr3, f)
      modifies this`ram
      ensures Paging.Valid(ram, cr3) && TableOf(ram, cr3, d) == f
      ensures forall p | 0 <= p < ENTRIES * ENTRIES :: Pte(ram, cr3, p) == Pte(old(ram), cr3, p)
      ensures forall e | 0 <= e < ENTRIES ::
                Pde(ram, cr3, e) == if e == d then f + PRESENT_WRITE else Pde(old(ram), cr3, e)
      ensures OnlyTables(old(ram), ram, cr3, f)
    {
      TableBounds(ram, cr3, d);
      assert 0 < f < RAM_SIZE;
      hide Walk, StoreWalk, Pte, Tables, DirectMap, Fresh, WordAt, Stored, Pde;
      ghost var m := ram;
      StoreDirect(cr3 + 4 * d, f + PRESENT_WRITE);
      HangTable(m, ram, cr3, d, f);
      BzeroTable(f, m, d);
      ClearedTable(m, ram, cr3, d, f);
    }

    /**
     * map; false is the out-of-memory panic. The entries become a finite map updated at one page, also
     * when a fresh table has to be hung and cleared first. The direct map survives if and only if the page
     * is not one of its own, or is mapped to where it already was.
     */
    method Map(va: Word, pa: Word, flags: Word) returns (ok: bool)
      requires Valid()
      requires TableOf(ram, cr3, va / 0x40_0000) == 0 && pmm.top > 0 ==> Fresh(ram, cr3, pmm.stack[pmm.top])
      modifies this`ram, pmm`top
      ensures pmm.Valid()
      ensures ok <==> TableOf(old(ram), cr3, va / 0x40_0000) != 0 || old(pmm.top) > 0
      ensures pmm.top == if ok && TableOf(old(ram), cr3, va / 0x40_0000) == 0 then old(pmm.top) - 1 else old(pmm.top)
      ensures ok ==> cr3 + PAGE_SIZE <= |ram| == |old(ram)| && Tables(ram, cr3)
      ensures ok ==>
                (Valid() <==> (InWindow(va / PAGE_SIZE) ==> BitOr(RoundDown(pa), flags) == DirectEntry(va / PAGE_SIZE)))
      ensures ok ==> forall p | 0 <= p < ENTRIES * ENTRIES ::
                Pte(ram, cr3, p) == if p == va / PAGE_SIZE then BitOr(RoundDown(pa), flags) else Pte(old(ram), cr3, p)
      ensures ok ==> forall d | 0 <= d < ENTRIES ::
                Pde(ram, cr3, d) == if d == va / 0x40_0000 && TableOf(old(ram), cr3, d) == 0
                                    then pmm.stack[old(pmm.top)] + PRESENT_WRITE else Pde(old(ram), cr3, d)
      ensures ok ==> OnlyTables(old(ram), ram, cr3, TableOf(ram, cr3, va / 0x40_0000))
    {
      hide Walk, StoreWalk, Pte, Tables, DirectMap, Fresh, WordAt, BitOr, DirectEntry;
      var pgdIdx, pteIdx := va / 0x40_0000, va / 0x1000 % 0x400;
      Indices(va);
      TableBounds(ram, cr3, pgdIdx);
      var pde := LoadDirect(cr3 + 4 * pgdIdx);
      var pte := RoundDown(pde);
      if pte == 0 {
        var page := pmm.AllocPage();
        if page.None? {
          return false;
        }
        pte := page.value;
        NewTable(pte, pgdIdx);
      }
      ghost var m := ram;
      TableBounds(ram, cr3, pgdIdx);
      OrFlags(pa, flags);
      StoreDirect(pte + 4 * pteIdx, BitOr(RoundDown(pa), flags));
      SetPteValid(m, ram, cr3, va / PAGE_SIZE, BitOr(RoundDown(pa), flags));
      ok := true;
    }

    /**
     * unmap: the entry is cleared, the table is kept. The direct map loses a page if and only if it is one of its
     * own.
     */
    method Unmap(va: Word)
      requires Valid()
      modifies this`ram
      ensures cr3 + PAGE_SIZE <= |ram| == |old(ram)|
      ensures Tables(ram, cr3) && (Valid() <==> !InWindow(va / PAGE_SIZE))
      ensures forall p | 0 <= p < ENTRIES * ENTRIES ::
                Pte(ram, cr3, p) == if p == va / PAGE_SIZE then 0 else Pte(old(ram), cr3, p)
      ensures forall d | 0 <= d < ENTRIES :: Pde(ram, cr3, d) == Pde(old(ram), cr3, d)
      ensures OnlyTables(old(ram), ram, cr3, TableOf(ram, cr3, va / 0x40_0000))
    {
      hide Walk, StoreWalk, Pte, Tables, DirectMap, WordAt, DirectEntry;
      var pgdIdx, pteIdx := va / 0x40_0000, va / 0x1000 % 0x400;
      Indices(va);
      WindowEntry(va / PAGE_SIZE);
      TableBounds(ram, cr3, pgdIdx);
      var pde := LoadDirect(cr3 + 4 * pgdIdx);
      var pte := RoundDown(pde);
      if pte == 0 {
        NoTableNoEntry(ram, cr3, va / PAGE_SIZE);
        NotInWindow(ram, cr3, va / PAGE_SIZE);
        return;
      }
      ghost var m := ram;
      StoreDirect(pte + 4 * pteIdx, 0);
      SetPteValid(m, ram, cr3, va / PAGE_SIZE, 0);
    }

    /** get_mapping; None where the C function returns 0. */
    method GetMapping(va: Word) returns (r: Option<Word>)
      requires Valid()
      ensures var e := Pte(ram, cr3, va / PAGE_SIZE); r == if e == 0 then None else Some(RoundDown(e))
    {
      hide Walk, StoreWalk, Tables, DirectMap, WordAt;
      var pgdIdx, pteIdx := va / 0x40_0000, va / 0x1000 % 0x400;
      Indices(va);
      TableBounds(ram, cr3, pgdIdx);
      var pde := LoadDirect(cr3 + 4 * pgdIdx);
      var pte := RoundDown(pde);
      if pte == 0 {
        return None;
      }
      var entry := LoadDirect(pte + 4 * pteIdx);
      r := if entry != 0 then Some(RoundDown(entry)) else None;
    }

    /** A store at boot, before this directory is in force. */
    method StorePhysical(p: int, w: Word)
      requires 0 <= p && p + 4 <= |ram|
      modifies this`ram
      ensures Stored(old(ram), ram, p, w)
    {
      Put4Stored(ram, p, w);
      ram := Put4(ram, p, p + 1, p + 2, p + 3, w);
    }

    /** The first loop of init_vmm: the directory entries of the direct map. */
    method FillDirectory(t: Word)
      requires |ram| == RAM_SIZE && BootLayout(cr3, t)
      requires forall d | 0 <= d < ENTRIES :: Entry(ram, cr3, d) == 0
      modifies this`ram
      ensures SameExcept(old(ram), ram, cr3, PAGE_SIZE)
      ensures forall d | 0 <= d < ENTRIES :: Entry(ram, cr3, d) == BootPde(t, d)
    {
      hide WordAt, BootPde, Stored;
      BootPdes(t);
      ghost var m := ram;
      var i, j := PAGE_OFFSET / 0x40_0000, 0;
      while j < PTE_COUNT
        invariant 0 <= j <= PTE_COUNT && i == PAGE_OFFSET / 0x40_0000 + j
        invariant SameExcept(m, ram, cr3, PAGE_SIZE)
        invariant forall d | 0 <= d < ENTRIES :: Entry(ram, cr3, d) == if d < i then BootPde(t, d) else 0
      {
        ghost var m' := ram;
        BootPdeAt(t, j);
        StorePhysical(cr3 + 4 * i, t + j * PAGE_SIZE + PRESENT_WRITE);
        OneWord(m', ram, cr3, i, ENTRIES, t + j * PAGE_SIZE + PRESENT_WRITE);
        i, j := i + 1, j + 1;
      }
    }

    /** The second loop of init_vmm: the entries of the direct map; entry 0 stays invalid. */
    method FillTables(t: Word)
      requires |ram| == RAM_SIZE && BootLayout(cr3, t)
      requires forall k | 0 <= k < PTE_COUNT * ENTRIES :: Entry(ram, t, k) == 0
      modifies this`ram
      ensures SameExcept(old(ram), ram, t, PTE_COUNT * PAGE_SIZE)
      ensures forall k | 0 <= k < PTE_COUNT * ENTRIES ::
                Entry(ram, t, k) == if k == 0 then 0 else k * PAGE_SIZE + PRESENT_WRITE
    {
      hide WordAt, Stored;
      ghost var m := ram;
      var i := 1;
      while i < PTE_COUNT * ENTRIES
        invariant 1 <= i <= PTE_COUNT * ENTRIES
        invariant SameExcept(m, ram, t, PTE_COUNT * PAGE_SIZE)
        invariant forall k | 0 <= k < PTE_COUNT * ENTRIES ::
                    Entry(ram, t, k) == if 0 < k < i then k * PAGE_SIZE + PRESENT_WRITE else 0
      {
        ghost var m' := ram;
        StorePhysical(t + 4 * i, i * PAGE_SIZE + PRESENT_WRITE);
        OneWord(m', ram, t, i, PTE_COUNT * ENTRIES, i * PAGE_SIZE + PRESENT_WRITE);
        i := i + 1;
      }
    }

    /** init_vmm; t is the physical address of pte_kern, and both static arrays start out zeroed. */
    method InitVmm(t: Word)
      requires |ram| == RAM_SIZE && BootLayout(cr3, t)
      requires forall k | cr3 <= k < cr3 + PAGE_SIZE || t <= k < t + PTE_COUNT * PAGE_SIZE :: ram[k] == 0
      modifies this`ram
      ensures Boot(ram, cr3, t)
      ensures forall k | 0 <= k < RAM_SIZE && !(cr3 <= k < cr3 + PAGE_SIZE) && !(t <= k < t + PTE_COUNT * PAGE_SIZE) ::
                ram[k] == old(ram)[k]
    {
      ZeroWords(ram, cr3, ENTRIES);
      ZeroWords(ram, t, PTE_COUNT * ENTRIES);
      hide WordAt, BootPde;
      FillDirectory(t);
      SameWords(old(ram), ram, t, PTE_COUNT * ENTRIES);
      ghost var m := ram;
      FillTables(t);
      SameWords(m, ram, cr3, ENTRIES);
    }
  }

  lemma BootPdes(t: Word)
    ensures forall d | 0 <= d < PAGE_OFFSET / 0x40_0000 || PAGE_OFFSET / 0x40_0000 + PTE_COUNT <= d ::
            BootPde(t, d) == 0
  {
  }

  lemma BootPdeAt(t: Word, j: int)
    requires 0 <= j < PTE_COUNT
    ensures BootPde(t, PAGE_OFFSET / 0x40_0000 + j) == t + j * PAGE_SIZE + PRESENT_WRITE
  {
  }

  /** Storing element i of an array of words changes that element and no byte outside the array. */
  lemma OneWord(m: Ram, m': Ram, base: int, i: int, n: int, w: Word)
    requires 0 <= base && base + 4 * n <= |m| && 0 <= i < n && Stored(m, m', base + 4 * i, w)
    ensures |m'| == |m| && forall k | 0 <= k < n :: Entry(m', base, k) == if k == i then w else Entry(m, base, k)
    ensures SameExcept(m, m', base, 4 * n)
  {
    OtherWords(m, m', base, i, n);
  }

  lemma OtherWords(m: Ram, m': Ram, base: int, i: int, n: int)
    requires 0 <= base && base + 4 * n <= |m| == |m'| && 0 <= i < n
    requires forall k | 0 <= k < |m| && !(base + 4 * i <= k < base + 4 * i + 4) :: m'[k] == m[k]
    ensures forall k | 0 <= k < n && k != i :: Entry(m', base, k) == Entry(m, base, k)
  {
  }

  lemma SameWords(m: Ram, m': Ram, base: int, n: int)
    requires 0 <= base && base + 4 * n <= |m| == |m'|
    requires forall k | base <= k < base + 4 * n :: m'[k] == m[k]
    ensures forall k | 0 <= k < n :: Entry(m', base, k) == Entry(m, base, k)
  {
  }

  lemma ZeroWords(m: Ram, base: int, n: int)
    requires 0 <= base && base + 4 * n <= |m|
    requires forall k | base <= k < base + 4 * n :: m[k] == 0
    ensures forall k | 0 <= k < n :: Entry(m, base, k) == 0
  {
  }
}
