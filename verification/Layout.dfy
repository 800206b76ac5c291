/**
 * Who owns which frame. A frame that init_pmm pushed is at every moment exactly one of: free (on the stack),
 * a page of the heap, or a page table of the heap. The heap's pages read as one flat byte array.
 */
module Layout {
  import opened Words
  import opened Paging
  import opened Vmm
  import Pmm

  const HEAP_PAGE := 0xE_0000   // HEAP_START / PAGE_SIZE
  const HEAP_DIR := 896         // directory index of HEAP_START
  const MAX_FRAMES := 0x1_FFFF  // frames of 512 MB of memory, page 0 excluded

  datatype Use = Free(slot: int) | Table(index: int) | Data(page: int)

  /**
   * pages: the frame of each heap page in address order; tables: the page-table frame of each 4 MB heap region;
   * own: every frame's use; peak: the largest number of heap pages so far; kernEnd and total never change.
   */
  datatype Layout = Layout(pages: seq<Word>, tables: seq<Word>, own: map<Word, Use>, peak: nat, kernEnd: Word,
                           total: nat)

  /** What no step changes: which frames the heap has, free or not. */
  ghost predicate SameFrames(l: Layout, l': Layout) {
    l'.own.Keys == l.own.Keys && l'.kernEnd == l.kernEnd && l'.total == l.total
  }

  /** own is a bijection between the frames and their uses. */
  ghost predicate Owned(l: Layout, stack: seq<Word>, top: int) {
    && 0 <= top < |stack|
    && (forall f | f in l.own :: l.kernEnd <= f <= RAM_SIZE - PAGE_SIZE && f % PAGE_SIZE == 0)
    && (forall j | 0 <= j < |l.pages| :: l.pages[j] in l.own && l.own[l.pages[j]] == Data(j))
    && (forall j | 0 <= j < |l.tables| :: l.tables[j] in l.own && l.own[l.tables[j]] == Table(j))
    && (forall i | 1 <= i <= top :: stack[i] in l.own && l.own[stack[i]] == Free(i))
    && (forall f | f in l.own :: match l.own[f]
          case Free(i) => 1 <= i <= top && stack[i] == f
          case Table(j) => 0 <= j < |l.tables| && l.tables[j] == f
          case Data(j) => 0 <= j < |l.pages| && l.pages[j] == f)
  }

  /** Page tables are never given back, so there is one per 4 MB region ever reached. */
  ghost predicate Counted(l: Layout, top: int) {
    && top + |l.pages| + |l.tables| == l.total <= MAX_FRAMES
    && |l.tables| == (l.peak + ENTRIES - 1) / ENTRIES
    && |l.pages| <= l.peak <= MAX_FRAMES
  }

  /** The entries of the heap's part of the address space, and where the other tables lie. */
  ghost predicate Wired(m: Ram, cr3: Word, l: Layout)
    requires cr3 + PAGE_SIZE <= |m|
  {
    && PAGE_SIZE <= l.kernEnd && cr3 < l.kernEnd
    && (forall p | HEAP_PAGE <= p < ENTRIES * ENTRIES ::
          Pte(m, cr3, p) == if p - HEAP_PAGE < |l.pages| then l.pages[p - HEAP_PAGE] + PRESENT_WRITE else 0)
    && (forall d | HEAP_DIR <= d < ENTRIES ::
          Pde(m, cr3, d) == if d - HEAP_DIR < |l.tables| then l.tables[d - HEAP_DIR] + PRESENT_WRITE else 0)
    && (forall d | 0 <= d < HEAP_DIR :: TableOf(m, cr3, d) < l.kernEnd)
  }

  ghost predicate Laid(m: Ram, cr3: Word, stack: seq<Word>, top: int, l: Layout) {
    && Valid(m, cr3) && Owned(l, stack, top) && Counted(l, top) && Wired(m, cr3, l)
  }

  // ----- The flat view -----

  /** Physical address of byte k of the heap. */
  function Translate(l: Layout, k: int): int
    requires 0 <= k < PAGE_SIZE * |l.pages|
  {
    l.pages[k / PAGE_SIZE] + k % PAGE_SIZE
  }

  ghost function View(m: Ram, l: Layout): (v: seq<Byte>)
    requires forall j | 0 <= j < |l.pages| :: l.pages[j] + PAGE_SIZE <= |m|
    ensures |v| == PAGE_SIZE * |l.pages|
  {
    seq(PAGE_SIZE * |l.pages|, k requires 0 <= k < PAGE_SIZE * |l.pages| => m[Translate(l, k)])
  }

  /** Page j of the heap: its entry and its frame. */
  lemma HeapPage(m: Ram, cr3: Word, stack: seq<Word>, top: int, l: Layout, j: int)
    requires Laid(m, cr3, stack, top, l) && 0 <= j < |l.pages|
    ensures |m| == RAM_SIZE && PAGE_SIZE <= cr3 <= RAM_SIZE - PAGE_SIZE && |l.pages| <= MAX_FRAMES
    ensures PAGE_SIZE <= l.kernEnd <= l.pages[j] <= RAM_SIZE - PAGE_SIZE && l.pages[j] % PAGE_SIZE == 0
    ensures HEAP_PAGE + j < ENTRIES * ENTRIES && Pte(m, cr3, HEAP_PAGE + j) == l.pages[j] + PRESENT_WRITE
    ensures Tables(m, cr3)
  {
    assert l.pages[j] in l.own;
    TableBounds(m, cr3, 0);
    hide WordAt, Pte, Pde, Tables, DirectMap;
  }

  /** Every heap byte is mapped: the hardware finds it where the layout says. */
  lemma HeapWalk(m: Ram, cr3: Word, stack: seq<Word>, top: int, l: Layout, k: int)
    requires Laid(m, cr3, stack, top, l) && 0 <= k < PAGE_SIZE * |l.pages|
    ensures HEAP_START + k < TWO32 && Writable(m, cr3, HEAP_START + k, Translate(l, k))
  {
    hide WordAt, Pte, Pde, TableOf, Walk, StoreWalk, RoundDown, Laid, Tables;
    var j := k / PAGE_SIZE;
    HeapPage(m, cr3, stack, top, l, j);
    HeapVa(k);
    WalkTo(m, cr3, HEAP_START + k, HEAP_PAGE + j, l.pages[j]);
  }

  lemma HeapVa(k: int)
    requires 0 <= k < PAGE_SIZE * MAX_FRAMES
    ensures HEAP_START + k < TWO32 && (HEAP_START + k) / PAGE_SIZE == HEAP_PAGE + k / PAGE_SIZE
    ensures (HEAP_START + k) % PAGE_SIZE == k % PAGE_SIZE
  {
  }

  /** A heap page is not a table, nor the directory. */
  lemma DataNotTable(m: Ram, cr3: Word, stack: seq<Word>, top: int, l: Layout, j: int, d: int)
    requires Laid(m, cr3, stack, top, l) && 0 <= j < |l.pages| && 0 <= d < ENTRIES
    ensures TableOf(m, cr3, d) != l.pages[j] && cr3 < l.kernEnd <= l.pages[j]
  {
    hide WordAt, Pte, DirectMap, Tables, RoundDown;
    assert l.own[l.pages[j]] == Data(j);
    if HEAP_DIR <= d {
      HeapTable(m, cr3, stack, top, l, d);
    }
  }

  /** The table of a heap directory slot. */
  lemma HeapTable(m: Ram, cr3: Word, stack: seq<Word>, top: int, l: Layout, d: int)
    requires Laid(m, cr3, stack, top, l) && HEAP_DIR <= d < ENTRIES
    ensures TableOf(m, cr3, d) == if d - HEAP_DIR < |l.tables| then l.tables[d - HEAP_DIR] else 0
  {
    hide WordAt, Pte, Pde, DirectMap, Tables, RoundDown;
    if d - HEAP_DIR < |l.tables| {
      assert l.tables[d - HEAP_DIR] in l.own;
      RoundEntry(l.tables[d - HEAP_DIR]);
    } else {
      RoundZero();
    }
  }

  lemma Injective(l: Layout, stack: seq<Word>, top: int, k: int, k': int)
    requires Owned(l, stack, top) && 0 <= k < PAGE_SIZE * |l.pages| && 0 <= k' < PAGE_SIZE * |l.pages|
    ensures Translate(l, k) == Translate(l, k') ==> k == k'
  {
    var j, j' := k / PAGE_SIZE, k' / PAGE_SIZE;
    assert l.own[l.pages[j]] == Data(j) && l.own[l.pages[j']] == Data(j');
    SamePage(l.pages[j], l.pages[j'], k, k');
  }

  lemma SamePage(f: int, f': int, k: int, k': int)
    requires f % PAGE_SIZE == 0 && f' % PAGE_SIZE == 0
    ensures f + k % PAGE_SIZE == f' + k' % PAGE_SIZE ==> f == f' && k % PAGE_SIZE == k' % PAGE_SIZE
  {
  }

  /** Storing to a heap byte is storing to one element of the flat view, and to nothing else. */
  lemma StoreKeeps(m: Ram, cr3: Word, stack: seq<Word>, top: int, l: Layout, k: int, b: Byte)
    requires Laid(m, cr3, stack, top, l) && 0 <= k < PAGE_SIZE * |l.pages|
    ensures InRam(m, l) && 0 <= Translate(l, k) < |m|
    ensures var m' := m[Translate(l, k) := b]; Laid(m', cr3, stack, top, l) && View(m', l) == View(m, l)[k := b]
  {
    hide Laid, Valid, WordAt, Pte, Pde, TableOf;
    var j := k / PAGE_SIZE;
    HeapPage(m, cr3, stack, top, l, j);
    LaidInRam(m, cr3, stack, top, l);
    var m' := m[Translate(l, k) := b];
    forall d | 0 <= d < ENTRIES
      ensures TableOf(m, cr3, d) != l.pages[j] && l.pages[j] != cr3
    {
      DataNotTable(m, cr3, stack, top, l, j, d);
    }
    DataNotTable(m, cr3, stack, top, l, j, 0);
    LaidKept(m, m', cr3, stack, top, l, l.pages[j]);
    forall i | 0 <= i < PAGE_SIZE * |l.pages|
      ensures View(m', l)[i] == View(m, l)[k := b][i]
    {
      Injective(l, stack, top, i, k);
    }
  }

  ghost predicate InRam(m: Ram, l: Layout) {
    forall j | 0 <= j < |l.pages| :: l.pages[j] + PAGE_SIZE <= |m|
  }

  lemma LaidInRam(m: Ram, cr3: Word, stack: seq<Word>, top: int, l: Layout)
    requires Laid(m, cr3, stack, top, l)
    ensures InRam(m, l) && Owned(l, stack, top) && Valid(m, cr3)
  {
  }

  lemma LaidKept(m: Ram, m': Ram, cr3: Word, stack: seq<Word>, top: int, l: Layout, f: int)
    requires Laid(m, cr3, stack, top, l) && f % PAGE_SIZE == 0 && f != cr3 && SameExcept(m, m', f, PAGE_SIZE)
    requires forall d | 0 <= d < ENTRIES :: TableOf(m, cr3, d) != f
    ensures Laid(m', cr3, stack, top, l)
  {
    FrameWrite(m, m', cr3, f);
    hide Valid, WordAt, Pte, Pde, Owned, Counted;
  }

  /** m' differs from m at most in the page directory and in the frames that the heap owns. */
  ghost predicate Untouched(m: Ram, m': Ram, cr3: Word, l: Layout) {
    && |m'| == |m|
    && forall k | 0 <= k < |m| && !(cr3 <= k < cr3 + PAGE_SIZE) && RoundDown(k) !in l.own :: m'[k] == m[k]
  }

  /** A heap store stays inside the heap's frames ... */
  lemma StoreInside(b: Ram, m: Ram, cr3: Word, stack: seq<Word>, top: int, l: Layout, k: int, x: Byte)
    requires Owned(l, stack, top) && 0 <= k < PAGE_SIZE * |l.pages| && Untouched(b, m, cr3, l) &&
             0 <= Translate(l, k) < |m|
    ensures Untouched(b, m[Translate(l, k) := x], cr3, l)
  {
    var f := l.pages[k / PAGE_SIZE];
    assert f in l.own;
    PageOf(f, k);
  }

  lemma PageOf(f: int, k: int)
    requires 0 <= f && f % PAGE_SIZE == 0 && 0 <= k
    ensures RoundDown(f + k % PAGE_SIZE) == f
  {
  }

  lemma WordInside(b: Ram, m: Ram, cr3: Word, stack: seq<Word>, top: int, l: Layout, k: int, w: Word)
    requires Laid(m, cr3, stack, top, l) && 0 <= k && k + 4 <= PAGE_SIZE * |l.pages| && Untouched(b, m, cr3, l) &&
             InRam(m, l)
    ensures forall i | k <= i < k + 4 :: 0 <= Translate(l, i) < |m|
    ensures var m' := Put4(m, Translate(l, k), Translate(l, k + 1), Translate(l, k + 2), Translate(l, k + 3), w);
            Untouched(b, m', cr3, l)
  {
    hide Untouched, ByteOf, Owned, Laid;
    LaidParts(m, cr3, stack, top, l);
    InBounds(m, cr3, stack, top, l, k);
    hide Translate;
    StoreInside(b, m, cr3, stack, top, l, k, ByteOf(w, 0));
    var m1 := m[Translate(l, k) := ByteOf(w, 0)];
    StoreInside(b, m1, cr3, stack, top, l, k + 1, ByteOf(w, 1));
    var m2 := m1[Translate(l, k + 1) := ByteOf(w, 1)];
    StoreInside(b, m2, cr3, stack, top, l, k + 2, ByteOf(w, 2));
    StoreInside(b, m2[Translate(l, k + 2) := ByteOf(w, 2)], cr3, stack, top, l, k + 3, ByteOf(w, 3));
  }

  lemma InBounds(m: Ram, cr3: Word, stack: seq<Word>, top: int, l: Layout, k: int)
    requires Laid(m, cr3, stack, top, l) && InRam(m, l) && 0 <= k && k + 4 <= PAGE_SIZE * |l.pages|
    ensures forall i | k <= i < k + 4 :: 0 <= Translate(l, i) < |m|
  {
    hide Laid;
    forall i | k <= i < k + 4
      ensures 0 <= Translate(l, i) < |m|
    {
      HeapPage(m, cr3, stack, top, l, i / PAGE_SIZE);
    }
  }

  /** ... and so does an edit of the heap's page tables. */
  lemma TableInside(b: Ram, m: Ram, m': Ram, cr3: Word, l: Layout, l': Layout, t: int)
    requires Untouched(b, m, cr3, l) && OnlyTables(m, m', cr3, t) && t in l.own && t % PAGE_SIZE == 0 &&
             SameFrames(l, l')
    ensures Untouched(b, m', cr3, l')
  {
    forall k | 0 <= k < |m| && RoundDown(k) !in l.own
      ensures !(t <= k < t + PAGE_SIZE)
    {
      if t <= k < t + PAGE_SIZE {
        PageOf(t, k - t);
      }
    }
  }

  /** Two states that agree with a third agree with each other. */
  lemma UntouchedBetween(b: Ram, m: Ram, m': Ram, cr3: Word, l: Layout, l': Layout)
    requires Untouched(b, m, cr3, l) && Untouched(b, m', cr3, l') && SameFrames(l, l')
    ensures Untouched(m, m', cr3, l')
  {
  }

  // ----- Growing by one page -----

  /** The next page of the heap lies in a 4 MB region that has no page table yet. */
  predicate NeedsTable(l: Layout) {
    |l.pages| >= ENTRIES * |l.tables|
  }

  /** The top frame of the stack becomes the next heap page. */
  ghost function AddPage(l: Layout, stack: seq<Word>, top: int): Layout
    requires 0 < top < |stack|
  {
    l.(pages := l.pages + [stack[top]], own := l.own[stack[top] := Data(|l.pages|)],
       peak := if l.peak < |l.pages| + 1 then |l.pages| + 1 else l.peak)
  }

  /** The top frame of the stack becomes the next page table. */
  ghost function AddTable(l: Layout, stack: seq<Word>, top: int): Layout
    requires 0 < top < |stack|
  {
    l.(tables := l.tables + [stack[top]], own := l.own[stack[top] := Table(|l.tables|)])
  }

  /** alloc_chunk's step: a frame for the page and, at a new region, the next frame for its table. */
  ghost function Grow(l: Layout, stack: seq<Word>, top: int): Layout
    requires 0 < top < |stack| && (NeedsTable(l) ==> 1 < top)
  {
    var l' := AddPage(l, stack, top);
    if NeedsTable(l) then AddTable(l', stack, top - 1) else l'
  }

  function GrowTop(l: Layout, top: int): int {
    if NeedsTable(l) then top - 2 else top - 1
  }

  lemma FreeIsFresh(m: Ram, cr3: Word, stack: seq<Word>, top: int, l: Layout, i: int)
    requires Laid(m, cr3, stack, top, l) && 1 <= i <= top
    ensures Fresh(m, cr3, stack[i]) && stack[i] in l.own && PAGE_SIZE <= stack[i] <= RAM_SIZE - PAGE_SIZE
  {
    assert l.own[stack[i]] == Free(i);
    assert cr3 < l.kernEnd <= stack[i];
    forall d | 0 <= d < ENTRIES && Pde(m, cr3, d) != 0
      ensures TableOf(m, cr3, d) != stack[i]
    {
      hide WordAt, Pte, Pde, DirectMap, Tables, RoundDown;
      if HEAP_DIR <= d {
        HeapTable(m, cr3, stack, top, l, d);
      }
    }
    hide WordAt, Pte, Pde, DirectMap, Tables, RoundDown, TableOf;
  }

  lemma NextRegion(l: Layout, top: int)
    requires Counted(l, top) && 0 < top
    ensures |l.pages| < MAX_FRAMES
    ensures NeedsTable(l) <==> |l.pages| / ENTRIES >= |l.tables|
    ensures NeedsTable(l) ==> |l.pages| == ENTRIES * |l.tables| == l.peak
    ensures !NeedsTable(l) && l.peak < |l.pages| + 1 ==> (|l.pages| + ENTRIES) / ENTRIES == |l.tables|
    ensures var va := HEAP_START + PAGE_SIZE * |l.pages|;
            && va < TWO32 && va / 0x40_0000 == HEAP_DIR + |l.pages| / ENTRIES < ENTRIES
            && va / PAGE_SIZE == HEAP_PAGE + |l.pages|
  {
  }

  lemma AddPageOwned(l: Layout, stack: seq<Word>, top: int)
    requires Owned(l, stack, top) && 0 < top
    ensures Owned(AddPage(l, stack, top), stack, top - 1) && SameFrames(l, AddPage(l, stack, top))
  {
    assert l.own[stack[top]] == Free(top);
  }

  lemma AddTableOwned(l: Layout, stack: seq<Word>, top: int)
    requires Owned(l, stack, top) && 0 < top
    ensures Owned(AddTable(l, stack, top), stack, top - 1) && SameFrames(l, AddTable(l, stack, top))
  {
    assert l.own[stack[top]] == Free(top);
  }

  lemma GrowOwned(l: Layout, stack: seq<Word>, top: int)
    requires Owned(l, stack, top) && Counted(l, top) && 0 < top && (NeedsTable(l) ==> 1 < top)
    ensures Owned(Grow(l, stack, top), stack, GrowTop(l, top)) && Counted(Grow(l, stack, top), GrowTop(l, top))
    ensures SameFrames(l, Grow(l, stack, top))
  {
    InStack(l, stack, top);
    hide Owned, Counted, AddPage, AddTable;
    GrowCounted(l, stack, top);
    AddPageOwned(l, stack, top);
    if NeedsTable(l) {
      AddTableOwned(AddPage(l, stack, top), stack, top - 1);
    }
  }

  lemma InStack(l: Layout, stack: seq<Word>, top: int)
    requires Owned(l, stack, top)
    ensures 0 <= top < |stack|
  {
  }

  lemma GrowCounted(l: Layout, stack: seq<Word>, top: int)
    requires Counted(l, top) && 0 < top < |stack| && (NeedsTable(l) ==> 1 < top)
    ensures Counted(Grow(l, stack, top), GrowTop(l, top))
  {
    NextRegion(l, top);
  }

  /** What map promises is what the grown layout asks for. */
  lemma GrowWired(m: Ram, m': Ram, cr3: Word, stack: seq<Word>, top: int, l: Layout)
    requires cr3 + PAGE_SIZE <= |m| == |m'| && Wired(m, cr3, l) && 0 < top < |stack| && (NeedsTable(l) ==> 1 < top)
    requires forall p | 0 <= p < ENTRIES * ENTRIES ::
               Pte(m', cr3, p) == if p == HEAP_PAGE + |l.pages| then stack[top] + PRESENT_WRITE else Pte(m, cr3, p)
    requires forall d | 0 <= d < ENTRIES ::
               Pde(m', cr3, d) == if NeedsTable(l) && d == HEAP_DIR + |l.tables| then stack[top - 1] + PRESENT_WRITE
                                  else Pde(m, cr3, d)
    ensures Wired(m', cr3, Grow(l, stack, top))
  {
    hide WordAt, Pte, Pde, RoundDown;
    assert forall d | 0 <= d < HEAP_DIR :: TableOf(m', cr3, d) == TableOf(m, cr3, d);
  }

  /** The old bytes stay where they were. */
  lemma GrowView(m: Ram, m': Ram, cr3: Word, stack: seq<Word>, top: int, l: Layout, t: int)
    requires Laid(m, cr3, stack, top, l) && 0 < top < |stack| && (NeedsTable(l) ==> 1 < top)
    requires OnlyTables(m, m', cr3, t) && InRam(m, l) && InRam(m', Grow(l, stack, top))
    requires t % PAGE_SIZE == 0 && t !in l.pages
    ensures View(m', Grow(l, stack, top))[..PAGE_SIZE * |l.pages|] == View(m, l)
  {
    hide Laid, WordAt, Pte, Pde, TableOf, Valid;
    forall k | 0 <= k < PAGE_SIZE * |l.pages|
      ensures View(m', Grow(l, stack, top))[k] == View(m, l)[k]
    {
      var j := k / PAGE_SIZE;
      HeapPage(m, cr3, stack, top, l, j);
      DataNotTable(m, cr3, stack, top, l, j, 0);
      assert Grow(l, stack, top).pages[j] == l.pages[j];
      OffPage(cr3, l.pages[j], k);
      OffPage(t, l.pages[j], k);
    }
  }

  lemma OffPage(t: int, f: int, k: int)
    requires t % PAGE_SIZE == 0 && f % PAGE_SIZE == 0 && t != f
    ensures !(t <= f + k % PAGE_SIZE < t + PAGE_SIZE)
  {
  }

  /** All of it together: what map has done to memory is a heap one page longer. */
  lemma GrowLaid(m: Ram, m': Ram, cr3: Word, stack: seq<Word>, top: int, l: Layout)
    requires Laid(m, cr3, stack, top, l) && 0 < top < |stack| && (NeedsTable(l) ==> 1 < top) && InRam(m, l)
    requires Valid(m', cr3) && cr3 + PAGE_SIZE <= |m| == |m'|
    requires forall p | 0 <= p < ENTRIES * ENTRIES ::
               Pte(m', cr3, p) == if p == HEAP_PAGE + |l.pages| then stack[top] + PRESENT_WRITE else Pte(m, cr3, p)
    requires forall d | 0 <= d < ENTRIES ::
               Pde(m', cr3, d) == if NeedsTable(l) && d == HEAP_DIR + |l.tables| then stack[top - 1] + PRESENT_WRITE
                                  else Pde(m, cr3, d)
    requires OnlyTables(m, m', cr3, TableOf(m', cr3, HEAP_DIR + |l.pages| / ENTRIES))
    ensures var l' := Grow(l, stack, top);
            && Laid(m', cr3, stack, GrowTop(l, top), l') && InRam(m', l') && SameFrames(l, l')
            && View(m, l) <= View(m', l') && |l'.pages| == |l.pages| + 1
    ensures forall b | Untouched(b, m, cr3, l) :: Untouched(b, m', cr3, Grow(l, stack, top))
  {
    LaidParts(m, cr3, stack, top, l);
    hide Laid, WordAt, Pte, Pde, TableOf, Valid, Wired, Owned, Counted, View, Grow, InRam, Untouched;
    GrowOwned(l, stack, top);
    GrowWired(m, m', cr3, stack, top, l);
    GrowInRam(m', l, stack, top);
    var t := TableOf(m', cr3, HEAP_DIR + |l.pages| / ENTRIES);
    GrowTable(m, m', cr3, stack, top, l);
    GrowView(m, m', cr3, stack, top, l, t);
    LaidFrom(m', cr3, stack, GrowTop(l, top), Grow(l, stack, top));
    forall b | Untouched(b, m, cr3, l)
      ensures Untouched(b, m', cr3, Grow(l, stack, top))
    {
      TableInside(b, m, m', cr3, l, Grow(l, stack, top), t);
    }
  }

  lemma LaidParts(m: Ram, cr3: Word, stack: seq<Word>, top: int, l: Layout)
    requires Laid(m, cr3, stack, top, l)
    ensures Valid(m, cr3) && Owned(l, stack, top) && Counted(l, top) && cr3 + PAGE_SIZE <= |m| && Wired(m, cr3, l)
    ensures |m| == RAM_SIZE
  {
    TableBounds(m, cr3, 0);
  }

  lemma LaidFrom(m: Ram, cr3: Word, stack: seq<Word>, top: int, l: Layout)
    requires Valid(m, cr3) && Owned(l, stack, top) && Counted(l, top) && cr3 + PAGE_SIZE <= |m| && Wired(m, cr3, l)
    ensures Laid(m, cr3, stack, top, l)
  {
  }

  lemma GrowInRam(m': Ram, l: Layout, stack: seq<Word>, top: int)
    requires 0 < top < |stack| && (NeedsTable(l) ==> 1 < top)
    requires Owned(Grow(l, stack, top), stack, GrowTop(l, top)) && |m'| == RAM_SIZE
    ensures InRam(m', Grow(l, stack, top)) && |Grow(l, stack, top).pages| == |l.pages| + 1
  {
    var l' := Grow(l, stack, top);
    assert forall j | 0 <= j < |l'.pages| :: l'.pages[j] in l'.own;
  }

  /** The table that map writes to is not one of the heap's pages. */
  lemma GrowTable(m: Ram, m': Ram, cr3: Word, stack: seq<Word>, top: int, l: Layout)
    requires Laid(m, cr3, stack, top, l) && 0 < top && (NeedsTable(l) ==> 1 < top)
    requires Tables(m', cr3)
    requires forall d | 0 <= d < ENTRIES ::
               Pde(m', cr3, d) == if NeedsTable(l) && d == HEAP_DIR + |l.tables| then stack[top - 1] + PRESENT_WRITE
                                  else Pde(m, cr3, d)
    ensures var d := HEAP_DIR + |l.pages| / ENTRIES;
            && d < ENTRIES && TableOf(m', cr3, d) % PAGE_SIZE == 0
            && TableOf(m', cr3, d) !in l.pages && TableOf(m', cr3, d) in l.own
  {
    NextRegion(l, top);
    var d := HEAP_DIR + |l.pages| / ENTRIES;
    if NeedsTable(l) {
      FreeIsFresh(m, cr3, stack, top, l, top - 1);
      RoundEntry(stack[top - 1]);
      assert l.own[stack[top - 1]] == Free(top - 1);
    } else {
      HeapTable(m, cr3, stack, top, l, d);
      assert l.own[l.tables[d - HEAP_DIR]] == Table(d - HEAP_DIR);
    }
    hide WordAt, Pte, Pde, Tables, DirectMap, RoundDown;
  }

  // ----- What growth costs -----

  /** Pages needed for the heap to reach the address target. */
  function PagesFor(target: int): int {
    (target - HEAP_START + PAGE_SIZE - 1) / PAGE_SIZE
  }

  /**
   * Frames that alloc_chunk takes to reach target: the missing pages, and a table for each region not reached before.
   */
  function Cost(l: Layout, target: int): int {
    var pages := PagesFor(target);
    if pages <= |l.pages| then 0
    else
      var tables := if pages > ENTRIES * |l.tables| then (pages + ENTRIES - 1) / ENTRIES - |l.tables| else 0;
      pages - |l.pages| + tables
  }

  lemma CostStep(l: Layout, stack: seq<Word>, top: int, target: int)
    requires Counted(l, top) && |l.pages| < PagesFor(target) && 0 < top < |stack|
    ensures Cost(l, target) >= (if NeedsTable(l) then 2 else 1)
    ensures NeedsTable(l) ==> 1 < top ==> Cost(Grow(l, stack, top), target) == Cost(l, target) - 2
    ensures !NeedsTable(l) ==> Cost(Grow(l, stack, top), target) == Cost(l, target) - 1
  {
    NextRegion(l, top);
  }

  // ----- Giving the last page back -----

  ghost function Shrink(l: Layout, top: int): Layout
    requires l.pages != []
  {
    var n := |l.pages| - 1;
    l.(pages := l.pages[..n], own := l.own[l.pages[n] := Free(top + 1)])
  }

  lemma ShrinkOwned(l: Layout, stack: seq<Word>, stack': seq<Word>, top: int)
    requires Owned(l, stack, top) && Counted(l, top) && l.pages != [] && top + 1 < |stack'| == |stack|
    requires stack' == stack[top + 1 := l.pages[|l.pages| - 1]]
    ensures Owned(Shrink(l, top), stack', top + 1) && Counted(Shrink(l, top), top + 1)
    ensures SameFrames(l, Shrink(l, top))
  {
    var n := |l.pages| - 1;
    assert l.own[l.pages[n]] == Data(n);
  }

  lemma ShrinkWired(m: Ram, m': Ram, cr3: Word, l: Layout, top: int)
    requires cr3 + PAGE_SIZE <= |m| == |m'| && Wired(m, cr3, l) && l.pages != []
    requires forall p | 0 <= p < ENTRIES * ENTRIES ::
               Pte(m', cr3, p) == if p == HEAP_PAGE + |l.pages| - 1 then 0 else Pte(m, cr3, p)
    requires forall d | 0 <= d < ENTRIES :: Pde(m', cr3, d) == Pde(m, cr3, d)
    ensures Wired(m', cr3, Shrink(l, top))
  {
    hide WordAt, Pte, Pde, RoundDown;
    assert forall d | 0 <= d < HEAP_DIR :: TableOf(m', cr3, d) == TableOf(m, cr3, d);
  }

  lemma ShrinkView(m: Ram, m': Ram, cr3: Word, stack: seq<Word>, top: int, l: Layout, t: int)
    requires Laid(m, cr3, stack, top, l) && l.pages != []
    requires OnlyTables(m, m', cr3, t) && InRam(m, l) && InRam(m', Shrink(l, top))
    requires t % PAGE_SIZE == 0 && t !in l.pages
    ensures View(m', Shrink(l, top)) == View(m, l)[..PAGE_SIZE * (|l.pages| - 1)]
  {
    hide Laid, WordAt, Pte, Pde, TableOf, Valid;
    forall k | 0 <= k < PAGE_SIZE * (|l.pages| - 1)
      ensures View(m', Shrink(l, top))[k] == View(m, l)[k]
    {
      var j := k / PAGE_SIZE;
      HeapPage(m, cr3, stack, top, l, j);
      DataNotTable(m, cr3, stack, top, l, j, 0);
      assert Shrink(l, top).pages[j] == l.pages[j];
      OffPage(cr3, l.pages[j], k);
      OffPage(t, l.pages[j], k);
    }
  }

  // ----- The first layout -----

  /** What init_pmm and init_vmm leave behind: distinct free frames above the kernel and nothing mapped in the heap. */
  ghost predicate Booted(m: Ram, cr3: Word, stack: seq<Word>, top: int, kernEnd: Word) {
    && Valid(m, cr3) && cr3 < kernEnd && FreshFrames(stack, top, kernEnd)
    && (forall p | HEAP_PAGE <= p < ENTRIES * ENTRIES :: Pte(m, cr3, p) == 0)
    && (forall d | HEAP_DIR <= d < ENTRIES :: Pde(m, cr3, d) == 0)
    && (forall d | 0 <= d < HEAP_DIR :: TableOf(m, cr3, d) < kernEnd)
  }

  ghost function FirstLayout(stack: seq<Word>, top: int, kernEnd: Word): Layout
    requires 0 <= top < |stack| && forall i, j | 1 <= i < j <= top :: stack[i] != stack[j]
  {
    Layout([], [], map i | 1 <= i <= top :: stack[i] := Free(i), 0, kernEnd, top)
  }

  lemma BootedFrames(m: Ram, cr3: Word, stack: seq<Word>, top: int, kernEnd: Word)
    requires Booted(m, cr3, stack, top, kernEnd)
    ensures 0 <= top < |stack| && forall i, j | 1 <= i < j <= top :: stack[i] != stack[j]
    ensures var l, s := FirstLayout(stack, top, kernEnd), stack[1..top + 1];
            && l.pages == [] && l.peak == 0 && l.kernEnd == kernEnd && l.total == top
            && l.own.Keys == set f | f in s
  {
    hide Valid, Pte, Pde, TableOf;
    var l, s := FirstLayout(stack, top, kernEnd), stack[1..top + 1];
    forall f
      ensures f in l.own.Keys <==> f in s
    {
      if f in l.own.Keys {
        var i :| 1 <= i <= top && stack[i] == f;
        assert s[i - 1] == f;
      }
    }
  }

  lemma UntouchedSelf(m: Ram, cr3: Word, l: Layout)
    ensures Untouched(m, m, cr3, l) && SameFrames(l, l)
  {
  }

  lemma FirstLaid(m: Ram, cr3: Word, stack: seq<Word>, top: int, kernEnd: Word)
    requires Booted(m, cr3, stack, top, kernEnd)
    ensures Laid(m, cr3, stack, top, FirstLayout(stack, top, kernEnd))
  {
    hide WordAt, Pte, Pde, Tables, DirectMap, TableOf, Owned, Counted;
    FirstOwned(stack, top, kernEnd);
    FirstCounted(stack, top, kernEnd);
  }

  ghost predicate FreshFrames(stack: seq<Word>, top: int, kernEnd: Word) {
    && PAGE_SIZE <= kernEnd && 0 <= top < |stack|
    && (forall i, j | 1 <= i < j <= top :: stack[i] != stack[j])
    && (forall i | 1 <= i <= top :: kernEnd <= stack[i] <= RAM_SIZE - PAGE_SIZE && stack[i] % PAGE_SIZE == 0)
  }

  lemma FirstOwned(stack: seq<Word>, top: int, kernEnd: Word)
    requires FreshFrames(stack, top, kernEnd)
    ensures Owned(FirstLayout(stack, top, kernEnd), stack, top)
  {
  }

  lemma FirstCounted(stack: seq<Word>, top: int, kernEnd: Word)
    requires FreshFrames(stack, top, kernEnd)
    ensures Counted(FirstLayout(stack, top, kernEnd), top)
  {
    var s := stack[1..top + 1];
    assert forall i | 0 <= i < top :: s[i] == stack[i + 1];
    Pmm.FrameCount(s);
  }

  /** init_vmm leaves the heap's part of the address space empty. */
  lemma BootedVmm(m: Ram, cr3: Word, t: Word, kernEnd: Word)
    requires cr3 + PAGE_SIZE <= |m| && Boot(m, cr3, t) && cr3 < kernEnd && t + PTE_COUNT * PAGE_SIZE <= kernEnd
    ensures Valid(m, cr3)
    ensures forall p | HEAP_PAGE <= p < ENTRIES * ENTRIES :: Pte(m, cr3, p) == 0
    ensures forall d | HEAP_DIR <= d < ENTRIES :: Pde(m, cr3, d) == 0
    ensures forall d | 0 <= d < HEAP_DIR :: TableOf(m, cr3, d) < kernEnd
  {
    BootTables(m, cr3, t);
    BootValid(m, cr3, t);
    hide WordAt, Pte, Tables, DirectMap, TableOf;
  }

  /** All frames by use: first the free ones, then the heap's pages, then its page tables. */
  function AllFrames(l: Layout, stack: seq<Word>, top: int): seq<Word>
    requires 0 <= top < |stack|
  {
    stack[1..top + 1] + l.pages + l.tables
  }

  /**
   * Frame conservation: the free stack, the heap's pages and its page tables are duplicate-free and pairwise
   * disjoint, and together are exactly the frames owned, which are the same in every state (SameFrames).
   */
  lemma FramesPartition(l: Layout, stack: seq<Word>, top: int)
    requires Owned(l, stack, top)
    ensures Pmm.NoDup(AllFrames(l, stack, top))
    ensures forall f :: f in AllFrames(l, stack, top) <==> f in l.own
  {
    var all := AllFrames(l, stack, top);
    forall s | 0 <= s < |all|
      ensures all[s] in l.own && UseIndex(l, top, l.own[all[s]]) == s
    {
      FrameUse(l, stack, top, s);
    }
    forall f | f in l.own
      ensures f in all
    {
      FrameListed(l, stack, top, f);
    }
    hide Owned, AllFrames, UseIndex;
  }

  function UseIndex(l: Layout, top: int, u: Use): int {
    match u
    case Free(s) => s - 1
    case Data(s) => top + s
    case Table(s) => top + |l.pages| + s
  }

  lemma FrameUse(l: Layout, stack: seq<Word>, top: int, s: int)
    requires Owned(l, stack, top) && 0 <= s < |AllFrames(l, stack, top)|
    ensures var f := AllFrames(l, stack, top)[s]; f in l.own && UseIndex(l, top, l.own[f]) == s
  {
  }

  lemma FrameListed(l: Layout, stack: seq<Word>, top: int, f: Word)
    requires Owned(l, stack, top) && f in l.own
    ensures f in AllFrames(l, stack, top)
  {
    var s := UseIndex(l, top, l.own[f]);
    assert AllFrames(l, stack, top)[s] == f;
  }

  /** All of it together: what unmap and pmm_free_page have done is a heap one page shorter. */
  lemma ShrinkLaid(m: Ram, m': Ram, cr3: Word, stack: seq<Word>, stack': seq<Word>, top: int, l: Layout)
    requires Laid(m, cr3, stack, top, l) && l.pages != [] && InRam(m, l) && top + 1 < |stack| == |stack'|
    requires stack' == stack[top + 1 := l.pages[|l.pages| - 1]]
    requires Valid(m', cr3) && cr3 + PAGE_SIZE <= |m| == |m'|
    requires forall p | 0 <= p < ENTRIES * ENTRIES ::
               Pte(m', cr3, p) == if p == HEAP_PAGE + |l.pages| - 1 then 0 else Pte(m, cr3, p)
    requires forall d | 0 <= d < ENTRIES :: Pde(m', cr3, d) == Pde(m, cr3, d)
    requires OnlyTables(m, m', cr3, TableOf(m', cr3, HEAP_DIR + (|l.pages| - 1) / ENTRIES))
    ensures var l' := Shrink(l, top);
            && Laid(m', cr3, stack', top + 1, l') && InRam(m', l') && SameFrames(l, l')
            && View(m', l') == View(m, l)[..PAGE_SIZE * |l'.pages|] && |l'.pages| == |l.pages| - 1
    ensures forall b | Untouched(b, m, cr3, l) :: Untouched(b, m', cr3, Shrink(l, top))
  {
    LaidParts(m, cr3, stack, top, l);
    hide Laid, WordAt, Pte, Pde, TableOf, Valid, Wired, Owned, Counted, View, Untouched;
    ShrinkOwned(l, stack, stack', top);
    ShrinkWired(m, m', cr3, l, top);
    var t := TableOf(m', cr3, HEAP_DIR + (|l.pages| - 1) / ENTRIES);
    ShrinkTable(m, m', cr3, stack, top, l);
    ShrinkView(m, m', cr3, stack, top, l, t);
    LaidFrom(m', cr3, stack', top + 1, Shrink(l, top));
    forall b | Untouched(b, m, cr3, l)
      ensures Untouched(b, m', cr3, Shrink(l, top))
    {
      TableInside(b, m, m', cr3, l, Shrink(l, top), t);
    }
  }

  lemma ShrinkTable(m: Ram, m': Ram, cr3: Word, stack: seq<Word>, top: int, l: Layout)
    requires Laid(m, cr3, stack, top, l) && l.pages != [] && cr3 + PAGE_SIZE <= |m'|
    requires forall d | 0 <= d < ENTRIES :: Pde(m', cr3, d) == Pde(m, cr3, d)
    ensures var d := HEAP_DIR + (|l.pages| - 1) / ENTRIES;
            && d < ENTRIES && TableOf(m', cr3, d) % PAGE_SIZE == 0
            && TableOf(m', cr3, d) !in l.pages && TableOf(m', cr3, d) in l.own
  {
    assert |l.pages| <= MAX_FRAMES && |l.pages| <= ENTRIES * |l.tables|;
    var d := HEAP_DIR + (|l.pages| - 1) / ENTRIES;
    HeapTable(m, cr3, stack, top, l, d);
    assert l.own[l.tables[d - HEAP_DIR]] == Table(d - HEAP_DIR);
    hide WordAt, Pte, Pde, Tables, DirectMap, RoundDown;
  }

  /** The last page of the heap, where free_chunk is about to look. */
  lemma ShrinkReady(m: Ram, cr3: Word, stack: seq<Word>, top: int, l: Layout)
    requires Laid(m, cr3, stack, top, l) && l.pages != []
    ensures var va := HEAP_START + PAGE_SIZE * (|l.pages| - 1); var f := l.pages[|l.pages| - 1];
            && va < TWO32 && va / PAGE_SIZE == HEAP_PAGE + |l.pages| - 1 < ENTRIES * ENTRIES &&
               !InWindow(va / PAGE_SIZE)
            && va / 0x40_0000 == HEAP_DIR + (|l.pages| - 1) / ENTRIES < ENTRIES && cr3 + PAGE_SIZE <= |m| &&
               Valid(m, cr3)
            && Pte(m, cr3, va / PAGE_SIZE) == f + PRESENT_WRITE && RoundDown(f + PRESENT_WRITE) == f
            && top < MAX_FRAMES
  {
    hide Laid, WordAt, Pte, Pde, TableOf, Valid, Tables, RoundDown, Owned, Wired;
    var n := |l.pages| - 1;
    HeapPage(m, cr3, stack, top, l, n);
    HeapVa(PAGE_SIZE * n);
    RoundEntry(l.pages[n]);
    LaidParts(m, cr3, stack, top, l);
  }
}
