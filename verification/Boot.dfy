/** The order of kern/init/entry.c: init_pmm, init_vmm, init_heap. */
module Boot {
  import opened Words
  import opened Paging
  import opened Chunks
  import opened Layout
  import opened Heap
  import opened Vmm
  import opened HeapRuns
  import Switch
  import Threads
  import ThreadRuns
  import P = Pmm

  /** The frames that init_pmm pushes all lie below 512 MB, where the direct map reaches them. */
  ghost predicate Reached(mmap: seq<P.MmapEntry>) {
    forall i | 0 <= i < |mmap| :: P.Reachable(mmap[i]) && (mmap[i].kind == 1 ==> P.Limit(mmap[i]) <= RAM_SIZE)
  }

  lemma PushedFrames(mmap: seq<P.MmapEntry>, kernEnd: Word, stack: seq<Word>, top: int)
    requires Reached(mmap) && P.Disjoint(mmap) && PAGE_SIZE <= kernEnd <= RAM_SIZE && 0 <= top < |stack|
    requires stack[1..top + 1] == P.MapPages(mmap, kernEnd)
    ensures forall i, j | 1 <= i < j <= top :: stack[i] != stack[j]
    ensures forall i | 1 <= i <= top :: kernEnd <= stack[i] <= RAM_SIZE - PAGE_SIZE && stack[i] % PAGE_SIZE == 0
  {
    P.MapNoDup(mmap, kernEnd);
    var s := stack[1..top + 1];
    assert forall i | 1 <= i <= top :: stack[i] == s[i - 1];
    forall i | 1 <= i <= top
      ensures kernEnd <= stack[i] <= RAM_SIZE - PAGE_SIZE && stack[i] % PAGE_SIZE == 0
    {
      assert s[i - 1] in s;
      P.MapExact(mmap, kernEnd, stack[i]);
      var e :| 0 <= e < |mmap| && P.Usable(mmap[e], kernEnd, stack[i]);
    }
  }

  /** A map of distinct pages below 512 MB never overflows the frame stack. */
  lemma StackSuffices(mmap: seq<P.MmapEntry>, kernEnd: Word)
    requires Reached(mmap) && P.Disjoint(mmap) && PAGE_SIZE <= kernEnd <= RAM_SIZE
    ensures |P.MapPages(mmap, kernEnd)| <= MAX_FRAMES < P.PAGE_MAX_SIZE
  {
    var s := P.MapPages(mmap, kernEnd);
    P.MapNoDup(mmap, kernEnd);
    forall i | 0 <= i < |s|
      ensures PAGE_SIZE <= s[i] < RAM_SIZE && s[i] % PAGE_SIZE == 0
    {
      assert s[i] in s;
      P.MapExact(mmap, kernEnd, s[i]);
      var e :| 0 <= e < |mmap| && P.Usable(mmap[e], kernEnd, s[i]);
    }
    P.FrameCount(s);
  }

  lemma BootBounds(m: Ram, cr3: Word, t: Word)
    requires Boot(m, cr3, t)
    ensures cr3 + PAGE_SIZE <= |m|
  {
    hide Entry, Pde;
  }

  /**
   * From a zeroed kernel image to a running heap. ram is physical memory as the loader left it; cr3 and
   * pteKern are the addresses of pgd_kern and pte_kern inside the kernel image. init_pmm's panic cannot happen:
   * the pages are distinct and below 512 MB, so the stack has a slot for each.
   */
  method Start(mmap: seq<P.MmapEntry>, kernEnd: Word, cr3: Word, pteKern: Word, ram: Ram) returns (h: Heap)
    requires Reached(mmap) && P.Disjoint(mmap) && kernEnd <= RAM_SIZE
    requires |ram| == RAM_SIZE && BootLayout(cr3, pteKern) && cr3 < kernEnd &&
             pteKern + PTE_COUNT * PAGE_SIZE <= kernEnd
    requires forall k | cr3 <= k < cr3 + PAGE_SIZE || pteKern <= k < pteKern + PTE_COUNT * PAGE_SIZE :: ram[k] == 0
    ensures fresh(h) && fresh(h.vmm) && fresh(h.vmm.pmm) && fresh(h.vmm.pmm.stack)
    ensures h.Valid() && h.chunks == [] && h.lay.pages == [] && h.lay.peak == 0
    ensures h.lay.kernEnd == kernEnd && h.lay.total == |P.MapPages(mmap, kernEnd)|
    ensures forall f :: f in h.lay.own <==> P.UsableIn(mmap, kernEnd, f)
  {
    hide P.MapPages, BootLayout, Paging.Valid, WordAt, Laid, Boot;
    var pmm := new P.Pmm();
    StackSuffices(mmap, kernEnd);
    var ok := pmm.InitPmm(mmap, kernEnd);
    var vmm := new Vmm(pmm, cr3, ram);
    vmm.InitVmm(pteKern);
    PushedFrames(mmap, kernEnd, pmm.stack[..], pmm.top);
    BootBounds(vmm.ram, cr3, pteKern);
    BootedVmm(vmm.ram, cr3, pteKern, kernEnd);
    h := new Heap(vmm, kernEnd);
    forall f
      ensures f in h.lay.own <==> P.UsableIn(mmap, kernEnd, f)
    {
      P.MapExact(mmap, kernEnd, f);
    }
  }

  /**
   * From the memory map to any run of requests: the heap behaves as the machine on values that starts empty and has as
   * many frames as the map has usable pages, and it panics exactly where that machine runs out of them.
   */
  method StartAndRun(mmap: seq<P.MmapEntry>, kernEnd: Word, cr3: Word, pteKern: Word, ram: Ram, script: seq<Op>)
    returns (h: Heap, ok: bool, s: State)
    requires Reached(mmap) && P.Disjoint(mmap) && kernEnd <= RAM_SIZE
    requires |ram| == RAM_SIZE && BootLayout(cr3, pteKern) && cr3 < kernEnd &&
             pteKern + PTE_COUNT * PAGE_SIZE <= kernEnd
    requires forall k | cr3 <= k < cr3 + PAGE_SIZE || pteKern <= k < pteKern + PTE_COUNT * PAGE_SIZE :: ram[k] == 0
    ensures ok <==> forall k | 0 <= k <= |script| :: Enough(Play(NOTHING, script[..k]), |P.MapPages(mmap, kernEnd)|)
    ensures ok ==> s == Play(NOTHING, script) && InState(h, s) && NeverTwice(s.log) && AllAnswered(NOTHING, script)
    ensures ok && HeldBy(s.log).Keys == {} ==> h.chunks == [] && h.heapFirst == 0 && |h.lay.pages| <= 1
    ensures ok ==> forall f :: f in h.lay.own <==> P.UsableIn(mmap, kernEnd, f)
  {
    hide P.MapPages, BootLayout, Paging.Valid, WordAt, Laid, Boot, Reached, P.Disjoint, P.UsableIn, Play, Enough,
         InState, Heap.Valid, Untouched;
    h := Start(mmap, kernEnd, cr3, pteKern, ram);
    FirstState(h);
    ok, s := HeapRuns.Run(h, script, NOTHING);
  }

  /**
   * Where kernel_thread's blocks come from: whatever the history of the heap, the blocks that callers hold for thread
   * stacks, and the boot stack in the kernel image, lie apart, as a run of threads asks.
   */
  lemma ThreadBlocksApart(h: Heap, s: State, idle: Word, ps: seq<Word>)
    requires InState(h, s) && 0 < idle && idle + Threads.STACK_SIZE <= HEAP_START
    requires forall i, j | 0 <= i < j < |ps| :: ps[i] != ps[j]
    requires forall i | 0 <= i < |ps| :: ps[i] in HeldBy(s.log) && HeldBy(s.log)[ps[i]] >= Threads.STACK_SIZE
    ensures ThreadRuns.BlocksClear([idle] + ps)
  {
    hide HeldBy, InState, Threads.STACK_SIZE;
    var all := [idle] + ps;
    forall i | 0 <= i < |ps|
      ensures HEAP_START < ps[i] && ps[i] + Threads.STACK_SIZE < TWO32
    {
      HeldInHeap(h, s, ps[i]);
    }
    forall i, j | 0 <= i < j < |all|
      ensures Switch.Clear(all[i], Threads.STACK_SIZE, all[j], Threads.STACK_SIZE)
    {
      if 0 < i {
        HeldApart(h, s, all[i], all[j]);
      }
    }
  }

  /** The block of a pointer held, with all the bytes asked for. */
  lemma HeldInHeap(h: Heap, s: State, p: Word)
    requires InState(h, s) && p in HeldBy(s.log)
    ensures exists i :: 0 <= i < |h.chunks| && h.chunks[i].addr + HEADER == p
                     && HeldBy(s.log)[p] + HEADER <= h.chunks[i].len
    ensures HEAP_START < p && p + HeldBy(s.log)[p] < TWO32
  {
    hide Laid, View, Encodes, HeldBy, Written, Payload, Untouched;
    HeldIsLive(h.bytes, h.chunks, s.log, p);
    var i :| 0 <= i < |h.chunks| && h.chunks[i].used && h.chunks[i].addr + HEADER == p;
    assert Intact(h.bytes, h.chunks[i], s.log);
    Within(h.chunks, HEAP_START, i);
  }

  lemma HeldApart(h: Heap, s: State, p: Word, q: Word)
    requires InState(h, s) && p in HeldBy(s.log) && q in HeldBy(s.log) && p != q
    ensures Switch.Clear(p, HeldBy(s.log)[p], q, HeldBy(s.log)[q])
  {
    hide HeldBy, Heap.Mapped, Encodes, Explains;
    HeldInHeap(h, s, p);
    HeldInHeap(h, s, q);
    var i :| 0 <= i < |h.chunks| && h.chunks[i].addr + HEADER == p && HeldBy(s.log)[p] + HEADER <= h.chunks[i].len;
    var j :| 0 <= j < |h.chunks| && h.chunks[j].addr + HEADER == q && HeldBy(s.log)[q] + HEADER <= h.chunks[j].len;
    ChunksApart(h.chunks, i, j);
  }
}
