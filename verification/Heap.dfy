/** kern/mm/heap.c: kmalloc and kfree over a list whose headers lie in the paged memory they manage. */
module Heap {
  import opened Words
  import opened Paging
  import opened Pmm
  import opened Vmm
  import opened Chunks
  import opened Layout

  // ----- Headers in the flat view v of the heap; offset 0 is HEAP_START -----

  function PrevAddr(cs: seq<Chunk>, i: int): int
    requires 0 <= i < |cs|
  {
    if i == 0 then 0 else cs[i - 1].addr
  }

  function NextAddr(cs: seq<Chunk>, i: int): int
    requires 0 <= i < |cs|
  {
    if i == |cs| - 1 then 0 else cs[i + 1].addr
  }

  /** The bit-field word: allocated in bit 0, length above it. */
  function Info(c: Chunk): int {
    2 * c.len + if c.used then 1 else 0
  }

  /** Header word f of chunk j: 0 is prev, 1 is next, 2 the bit fields. */
  ghost function Field(v: seq<Byte>, cs: seq<Chunk>, j: int, f: int): int
    requires 0 <= j < |cs|
  {
    var o := cs[j].addr - HEAP_START + 4 * f;
    if 0 <= o && o + 4 <= |v| then WordAt(v, o) else 0
  }

  ghost predicate HeaderAt(v: seq<Byte>, cs: seq<Chunk>, i: int)
    requires 0 <= i < |cs|
  {
    Field(v, cs, i, 0) == PrevAddr(cs, i) && Field(v, cs, i, 1) == NextAddr(cs, i) && Field(v, cs, i, 2) == Info(cs[i])
  }

  /** The bytes hold the list. */
  ghost predicate Encodes(v: seq<Byte>, cs: seq<Chunk>) {
    forall i | 0 <= i < |cs| :: HeaderAt(v, cs, i)
  }

  /** v' is v with header word f of chunk j set to w: no other header word and no payload differs. */
  ghost predicate FieldSet(v: seq<Byte>, v': seq<Byte>, cs: seq<Chunk>, j: int, f: int, w: int)
    requires 0 <= j < |cs|
  {
    && |v'| == |v|
    && Field(v', cs, j, f) == w
    && (forall i, g | 0 <= i < |cs| && 0 <= g < 3 && !(i == j && g == f) :: Field(v', cs, i, g) == Field(v, cs, i, g))
    && Kept(v, v', Live(cs))
  }

  /** The caller's bytes of the live block x = (chunk address, chunk length). */
  ghost function Payload(v: seq<Byte>, x: (int, int)): seq<Byte> {
    var o := x.0 - HEAP_START;
    if 0 <= o && HEADER <= x.1 && o + x.1 <= |v| then v[o + HEADER..o + x.1] else []
  }

  function Updated(s: seq<Byte>, k: int, b: Byte): seq<Byte> {
    if 0 <= k < |s| then s[k := b] else s
  }

  ghost predicate Kept(v: seq<Byte>, v': seq<Byte>, live: set<(int, int)>) {
    forall x | x in live :: Payload(v', x) == Payload(v, x)
  }

  /** Writing a header touches no payload ... */
  lemma HeaderStoreKeeps(v: seq<Byte>, v': seq<Byte>, cs: seq<Chunk>, j: int, a: int, w: Word)
    requires 0 <= a && a + 4 <= |v| && Stored(v, v', a, w) && Tiled(cs, HEAP_START) && 0 <= j < |cs|
    requires cs[j].addr - HEAP_START <= a && a + 4 <= cs[j].addr - HEAP_START + HEADER
    ensures Kept(v, v', Live(cs))
  {
    hide WordAt, Tiled, Payload, Stored;
    forall x | x in Live(cs)
      ensures Payload(v', x) == Payload(v, x)
    {
      var i :| 0 <= i < |cs| && cs[i].used && x == (cs[i].addr, cs[i].len);
      ChunksApart(cs, i, j);
      PayloadClear(v, v', cs[i], cs[j], a, w);
    }
  }

  lemma PayloadClear(v: seq<Byte>, v': seq<Byte>, c: Chunk, d: Chunk, a: int, w: Word)
    requires 0 <= a && a + 4 <= |v| && Stored(v, v', a, w)
    requires d.addr - HEAP_START <= a && a + 4 <= d.addr - HEAP_START + HEADER
    requires c.len >= HEADER && d.len >= HEADER
    requires c == d || c.addr + c.len <= d.addr || d.addr + d.len <= c.addr
    ensures Payload(v', (c.addr, c.len)) == Payload(v, (c.addr, c.len))
  {
    hide WordAt;
  }

  /** ... and no other header word. */
  lemma FieldStore(v: seq<Byte>, v': seq<Byte>, cs: seq<Chunk>, j: int, f: int, w: Word)
    requires Tiled(cs, HEAP_START) && End(cs, HEAP_START) <= HEAP_START + |v| && 0 <= j < |cs| && 0 <= f < 3
    ensures var a := cs[j].addr - HEAP_START + 4 * f;
            0 <= a && a + 4 <= |v| && (Stored(v, v', a, w) ==> FieldSet(v, v', cs, j, f, w))
  {
    Within(cs, HEAP_START, j);
    var a := cs[j].addr - HEAP_START + 4 * f;
    if Stored(v, v', a, w) {
      HeaderStoreKeeps(v, v', cs, j, a, w);
      forall i, g | 0 <= i < |cs| && 0 <= g < 3 && !(i == j && g == f)
        ensures Field(v', cs, i, g) == Field(v, cs, i, g)
      {
        ChunksApart(cs, i, j);
      }
    }
  }

  lemma ChunksApart(cs: seq<Chunk>, i: int, j: int)
    requires Tiled(cs, HEAP_START) && 0 <= i < |cs| && 0 <= j < |cs|
    ensures i == j || cs[i].addr + cs[i].len <= cs[j].addr || cs[j].addr + cs[j].len <= cs[i].addr
    ensures cs[i].len >= HEADER && cs[j].len >= HEADER
  {
    if i < j {
      Ordered(cs, HEAP_START, i, j);
    } else if j < i {
      Ordered(cs, HEAP_START, j, i);
    }
  }

  class Heap {
    const vmm: Vmm
    ghost const image: Ram         // physical memory when the heap was set up
    var heapMax: Word
    var heapFirst: Word
    ghost var lay: Layout          // who owns which frame
    ghost var bytes: seq<Byte>     // the mapped heap as the kernel sees it, from HEAP_START to heapMax
    ghost var chunks: seq<Chunk>   // the list from heapFirst

    /** Frames and page tables are in order and the heap pages are exactly those below heapMax. */
    ghost predicate Mapped()
      reads `heapMax, `lay, `bytes, vmm, vmm.pmm, vmm.pmm.stack
    {
      && vmm.pmm.Valid()
      && Laid(vmm.ram, vmm.cr3, vmm.pmm.stack[..], vmm.pmm.top, lay)
      && InRam(vmm.ram, lay)
      && bytes == View(vmm.ram, lay)
      && heapMax == HEAP_START + PAGE_SIZE * |lay.pages|
      && Untouched(image, vmm.ram, vmm.cr3, lay)
    }

    /** The bytes hold the list. */
    ghost predicate Linked()
      reads this
    {
      && Tiled(chunks, HEAP_START)
      && End(chunks, HEAP_START) <= HEAP_START + |bytes| < TWO32
      && Encodes(bytes, chunks)
      && heapFirst == if chunks == [] then 0 else HEAP_START
    }

    ghost predicate Valid()
      reads this, vmm, vmm.pmm, vmm.pmm.stack
    {
      Mapped() && Linked() && Canonical(chunks) && heapMax <= End(chunks, HEAP_START) + PAGE_SIZE
    }

    /** init_heap, after init_pmm and init_vmm. */
    constructor (vmm: Vmm, ghost kernEnd: Word)
      requires vmm.pmm.Valid() && Booted(vmm.ram, vmm.cr3, vmm.pmm.stack[..], vmm.pmm.top, kernEnd)
      ensures this.vmm == vmm && image == vmm.ram && Valid() && chunks == []
      ensures lay.kernEnd == kernEnd && lay.total == vmm.pmm.top && lay.peak == 0 && lay.pages == [] &&
              lay.own.Keys == set f | f in vmm.pmm.Free()
    {
      hide Laid, Booted, FirstLayout, Untouched, FreshFrames;
      BootedFrames(vmm.ram, vmm.cr3, vmm.pmm.stack[..], vmm.pmm.top, kernEnd);
      this.vmm := vmm;
      image := vmm.ram;
      heapMax := HEAP_START;
      heapFirst := 0;
      lay := FirstLayout(vmm.pmm.stack[..], vmm.pmm.top, kernEnd);
      bytes := [];
      chunks := [];
      new;
      FirstLaid(vmm.ram, vmm.cr3, vmm.pmm.stack[..], vmm.pmm.top, kernEnd);
      UntouchedSelf(vmm.ram, vmm.cr3, lay);
    }

    /** Reads the word at a heap address. */
    method Load(va: Word) returns (w: Word)
      requires Mapped() && HEAP_START <= va && va - HEAP_START + 4 <= |bytes|
      ensures w == WordAt(bytes, va - HEAP_START)
    {
      hide Laid, WordAt, Walk, StoreWalk, Untouched;
      var k := va - HEAP_START;
      forall i | k <= i < k + 4
        ensures At(vmm.ram, vmm.cr3, HEAP_START + i, Translate(lay, i)) && bytes[i] == vmm.ram[Translate(lay, i)]
      {
        HeapWalk(vmm.ram, vmm.cr3, vmm.pmm.stack[..], vmm.pmm.top, lay, i);
      }
      w := vmm.LoadWord(va, Translate(lay, k), Translate(lay, k + 1), Translate(lay, k + 2), Translate(lay, k + 3));
      SameWord(bytes, k, [vmm.ram[Translate(lay, k)], vmm.ram[Translate(lay, k + 1)],
                          vmm.ram[Translate(lay, k + 2)], vmm.ram[Translate(lay, k + 3)]]);
    }

    /** Writes the word at a heap address. */
    method Store(va: Word, w: Word)
      requires Mapped() && HEAP_START <= va && va - HEAP_START + 4 <= |bytes|
      modifies vmm`ram, this`bytes
      ensures Mapped() && Stored(old(bytes), bytes, va - HEAP_START, w)
    {
      hide Laid, WordAt, Walk, StoreWalk, View, Translate, Untouched;
      var k := va - HEAP_START;
      forall i | k <= i < k + 4
        ensures Writable(vmm.ram, vmm.cr3, HEAP_START + i, Translate(lay, i))
      {
        HeapWalk(vmm.ram, vmm.cr3, vmm.pmm.stack[..], vmm.pmm.top, lay, i);
      }
      ghost var m := vmm.ram;
      vmm.StoreWord(va, w, Translate(lay, k), Translate(lay, k + 1), Translate(lay, k + 2), Translate(lay, k + 3));
      WordStoreKeeps(m, vmm.cr3, vmm.pmm.stack[..], vmm.pmm.top, lay, k, w);
      WordInside(image, m, vmm.cr3, vmm.pmm.stack[..], vmm.pmm.top, lay, k, w);
      bytes := View(vmm.ram, lay);
    }

    /** Structure that every step keeps, also while links are being changed. */
    ghost predicate Ready()
      reads this, vmm, vmm.pmm, vmm.pmm.stack
    {
      Mapped() && Tiled(chunks, HEAP_START) && End(chunks, HEAP_START) <= HEAP_START + |bytes| < TWO32
    }

    /** Reads header word f of chunk j, which is at h. */
    method LoadField(h: Word, f: Word, ghost j: int) returns (w: Word)
      requires Ready() && 0 <= j < |chunks| && chunks[j].addr == h && f < 3
      ensures w == Field(bytes, chunks, j, f)
    {
      hide Mapped, Tiled, WordAt;
      Within(chunks, HEAP_START, j);
      ChunksApart(chunks, j, j);
      w := Load(h + 4 * f);
    }

    /** Writes header word f of chunk j, which is at h. */
    method StoreField(h: Word, f: Word, w: Word, ghost j: int)
      requires Ready() && 0 <= j < |chunks| && chunks[j].addr == h && f < 3
      modifies vmm`ram, this`bytes
      ensures Ready() && FieldSet(old(bytes), bytes, chunks, j, f, w)
    {
      hide Mapped, Tiled, WordAt, Stored, FieldSet;
      Within(chunks, HEAP_START, j);
      ChunksApart(chunks, j, j);
      ghost var v := bytes;
      Store(h + 4 * f, w);
      FieldStore(v, bytes, chunks, j, f, w);
    }

    /** Assignment to the bit field allocated. */
    method SetAllocated(h: Word, used: bool, ghost j: int)
      requires Ready() && 0 <= j < |chunks| && chunks[j].addr == h
      modifies vmm`ram, this`bytes
      ensures Ready()
      ensures FieldSet(old(bytes), bytes, chunks, j, 2, Field(old(bytes), chunks, j, 2) / 2 * 2 + if used then 1 else 0)
    {
      hide Ready, FieldSet, Field;
      var info := LoadField(h, 2, j);
      StoreField(h, 2, info / 2 * 2 + if used then 1 else 0, j);
    }

    /** Assignment to the 31-bit field length. */
    method SetLength(h: Word, len: Word, ghost j: int)
      requires Ready() && 0 <= j < |chunks| && chunks[j].addr == h
      modifies vmm`ram, this`bytes
      ensures Ready()
      ensures FieldSet(old(bytes), bytes, chunks, j, 2, 2 * (len % TWO31) + Field(old(bytes), chunks, j, 2) % 2)
    {
      hide Ready, FieldSet, Field;
      var info := LoadField(h, 2, j);
      StoreField(h, 2, 2 * (len % TWO31) + info % 2, j);
    }

    /** The linking half of split_chunk; the list already counts the new chunk, at index i + 1. */
    method LinkAfter(chunk: Word, newChunk: Word, ghost i: int)
      requires Ready() && 0 <= i < |chunks| - 1 && chunks[i].addr == chunk && chunks[i + 1].addr == newChunk
      requires Field(bytes, chunks, i, 1) == if i + 2 < |chunks| then chunks[i + 2].addr else 0
      requires i + 2 < |chunks| ==> 0 < chunks[i + 2].addr
      modifies vmm`ram, this`bytes
      ensures Ready() && Kept(old(bytes), bytes, Live(chunks)) && |bytes| == |old(bytes)|
      ensures Field(bytes, chunks, i, 1) == newChunk && Field(bytes, chunks, i + 1, 0) == chunk
      ensures Field(bytes, chunks, i + 1, 1) == Field(old(bytes), chunks, i, 1)
      ensures i + 2 < |chunks| ==> Field(bytes, chunks, i + 2, 0) == newChunk
      ensures forall j, f | 0 <= j < |chunks| && 0 <= f < 3 && !(j == i && f == 1) && !(j == i + 1 && f < 2) &&
              !(j == i + 2 && f == 0) ::
                Field(bytes, chunks, j, f) == Field(old(bytes), chunks, j, f)
    {
      hide WordAt, Mapped, Tiled, Live, Field, Payload;
      StoreField(newChunk, 0, chunk, i + 1);
      var next := LoadField(chunk, 1, i);
      StoreField(newChunk, 1, next, i + 1);
      if next != 0 {
        StoreField(next, 0, newChunk, i + 2);
      }
      StoreField(chunk, 1, newChunk, i);
    }

    /** The other half: the new chunk is free and takes the rest of chunk i. */
    method SplitLengths(chunk: Word, newChunk: Word, len: Word, ghost i: int)
      requires Ready() && 0 <= i < |chunks| - 1 && chunks[i].addr == chunk && chunks[i + 1].addr == newChunk
      requires len <= Field(bytes, chunks, i, 2) / 2 < TWO31
      modifies vmm`ram, this`bytes
      ensures Ready() && Kept(old(bytes), bytes, Live(chunks)) && |bytes| == |old(bytes)|
      ensures Field(bytes, chunks, i, 2) == 2 * len + Field(old(bytes), chunks, i, 2) % 2
      ensures Field(bytes, chunks, i + 1, 2) == 2 * (Field(old(bytes), chunks, i, 2) / 2 - len)
      ensures forall j, f | 0 <= j < |chunks| && 0 <= f < 3 && !((j == i || j == i + 1) && f == 2) ::
                Field(bytes, chunks, j, f) == Field(old(bytes), chunks, j, f)
    {
      hide WordAt, Mapped, Tiled, Live, Field, Payload;
      SetAllocated(newChunk, false, i + 1);
      var length := LoadField(chunk, 2, i);
      SetLength(newChunk, length / 2 - len, i + 1);
      SetLength(chunk, len, i);
    }

    /** split_chunk on the free chunk i. */
    method SplitChunk(chunk: Word, len: Word, ghost i: int)
      requires Mapped() && Linked() && 0 <= i < |chunks| && chunks[i].addr == chunk
      requires !chunks[i].used && HEADER <= len <= chunks[i].len
      modifies vmm`ram, this`bytes, this`chunks
      ensures Mapped() && Linked() && chunks == Split(old(chunks), i, len)
      ensures Live(chunks) == Live(old(chunks)) && Kept(old(bytes), bytes, Live(chunks)) && |bytes| == |old(bytes)|
    {
      hide WordAt, Mapped, Tiled, Live, Encodes, Field, Info, Split, Payload;
      SplitReady(bytes, chunks, i, len);
      var info := LoadField(chunk, 2, i);
      ghost var cs, v := chunks, bytes;
      if info / 2 - len > HEADER {
        chunks := Split(cs, i, len);
        var newChunk := chunk + len;
        LinkAfter(chunk, newChunk, i);
        SplitLengths(chunk, newChunk, len, i);
        SplitEncodes(v, bytes, cs, i, len);
      }
    }

    /** The first half of glue_chunk: the free chunk i swallows a free successor. */
    method GlueNext(chunk: Word, ghost i: int)
      requires Mapped() && Linked() && 0 <= i < |chunks| && chunks[i].addr == chunk && !chunks[i].used
      modifies vmm`ram, this`bytes, this`chunks
      ensures Mapped() && Linked() && chunks == MergeNext(old(chunks), i) &&
              End(chunks, HEAP_START) == End(old(chunks), HEAP_START)
      ensures Live(chunks) == Live(old(chunks)) && Kept(old(bytes), bytes, Live(chunks)) && |bytes| == |old(bytes)|
    {
      hide WordAt, Mapped, Tiled, Live, Encodes, Field, Info, Merge, Payload;
      ghost var cs, v := chunks, bytes;
      NextReady(v, cs, i);
      var next := LoadField(chunk, 1, i);
      if next != 0 {
        var nextInfo := LoadField(next, 2, i + 1);
        if nextInfo % 2 == 0 {
          MergeReady(v, cs, i);
          var info := LoadField(chunk, 2, i);
          SetLength(chunk, info / 2 + nextInfo / 2, i);
          next := LoadField(chunk, 1, i);
          var nextNext := LoadField(next, 1, i + 1);
          StoreField(chunk, 1, nextNext, i);
          next := LoadField(chunk, 1, i);
          if next != 0 {
            StoreField(next, 0, chunk, i + 2);
          }
          MergeEncodes(v, bytes, cs, i);
          chunks := Merge(cs, i);
        }
      }
    }

    /** The second half: a free predecessor swallows the free chunk i; returns the chunk that remains. */
    method GluePrev(chunk: Word, ghost i: int) returns (glued: Word)
      requires Mapped() && Linked() && 0 <= i < |chunks| && chunks[i].addr == chunk && !chunks[i].used
      modifies vmm`ram, this`bytes, this`chunks
      ensures Mapped() && Linked() && chunks == MergePrev(old(chunks), i) &&
              End(chunks, HEAP_START) == End(old(chunks), HEAP_START)
      ensures var k := GluedIndex(old(chunks), i); 0 <= k < |chunks| && chunks[k].addr == glued
      ensures Live(chunks) == Live(old(chunks)) && Kept(old(bytes), bytes, Live(chunks)) && |bytes| == |old(bytes)|
    {
      hide WordAt, Mapped, Tiled, Live, Encodes, Field, Info, Merge, Payload;
      ghost var cs, v := chunks, bytes;
      glued := chunk;
      PrevReady(v, cs, i);
      var prev := LoadField(chunk, 0, i);
      if prev != 0 {
        var prevInfo := LoadField(prev, 2, i - 1);
        if prevInfo % 2 == 0 {
          MergeReady(v, cs, i - 1);
          var info := LoadField(chunk, 2, i);
          SetLength(prev, prevInfo / 2 + info / 2, i - 1);
          var next := LoadField(chunk, 1, i);
          StoreField(prev, 1, next, i - 1);
          if next != 0 {
            StoreField(next, 0, prev, i + 1);
          }
          MergeEncodes(v, bytes, cs, i - 1);
          chunks := Merge(cs, i - 1);
          glued := prev;
        }
      }
    }

    /** One turn of alloc_chunk's loop; false is the out-of-memory panic. */
    method GrowPage() returns (ok: bool)
      requires Mapped()
      modifies vmm`ram, vmm.pmm`top, this`heapMax, this`lay, this`bytes
      ensures ok <==> old(vmm.pmm.top) >= (if NeedsTable(old(lay)) then 2 else 1)
      ensures ok ==> Mapped() && lay == Grow(old(lay), vmm.pmm.stack[..], old(vmm.pmm.top))
      ensures ok ==> vmm.pmm.top == GrowTop(old(lay), old(vmm.pmm.top)) && SameFrames(old(lay), lay)
      ensures ok ==> old(bytes) <= bytes && heapMax == old(heapMax) + PAGE_SIZE
      ensures ok ==> lay.peak == Peak(old(lay).peak, |lay.pages|)
    {
      hide Laid, WordAt, Walk, StoreWalk, View, Pte, Pde, TableOf, Grow, NeedsTable, InWindow, Untouched, BitOr, Tables;
      ghost var m, top, l := vmm.ram, vmm.pmm.top, lay;
      ghost var stack := vmm.pmm.stack[..];
      var page := vmm.pmm.AllocPage();
      if page.None? {
        return false;
      }
      GrowReady(m, vmm.cr3, stack, top, l);
      OrFlags(page.value, PRESENT_WRITE);
      ok := vmm.Map(heapMax, page.value, PRESENT_WRITE);
      if !ok {
        return;
      }
      GrowLaid(m, vmm.ram, vmm.cr3, stack, top, l);
      GrowPeak(l, stack, top);
      lay := Grow(l, stack, top);
      bytes := View(vmm.ram, lay);
      heapMax := heapMax + PAGE_SIZE;
    }

    /**
     * alloc_chunk; false is the out-of-memory panic, raised exactly when the free frames do not suffice. The
     * loop's guard adds in 32 bits: the block is mapped when it ends if and only if that sum does not wrap.
     */
    method AllocChunk(start: Word, len: Word) returns (ok: bool)
      requires Mapped()
      modifies vmm`ram, vmm.pmm`top, this`heapMax, this`lay, this`bytes
      ensures ok <==> Cost(old(lay), Target(start, len)) <= old(vmm.pmm.top)
      ensures ok ==> Mapped() && SameFrames(old(lay), lay)
      ensures ok ==> (start + len <= heapMax <==> start + len < TWO32)
      ensures ok ==> heapMax == old(heapMax) || old(heapMax) < heapMax < Target(start, len) + PAGE_SIZE
      ensures ok ==> lay.peak == Peak(old(lay).peak, |lay.pages|)
      ensures ok ==> old(bytes) <= bytes
    {
      hide Laid, WordAt, Walk, StoreWalk, View, Grow, NeedsTable, Cost, Untouched;
      ghost var target := Target(start, len);
      MappedCount();
      while (start + len) % TWO32 > heapMax
        invariant Mapped() && SameFrames(old(lay), lay)
        invariant Counted(lay, vmm.pmm.top)
        invariant vmm.pmm.top - Cost(lay, target) == old(vmm.pmm.top) - Cost(old(lay), target)
        invariant heapMax == old(heapMax) || old(heapMax) < heapMax < target + PAGE_SIZE
        invariant lay.peak == Peak(old(lay).peak, |lay.pages|)
        invariant old(bytes) <= bytes
        decreases target - heapMax
      {
        ghost var l, top := lay, vmm.pmm.top;
        BelowTarget(l, heapMax, target);
        if top == 0 {
          CostPositive(l, target);
        } else {
          CostStep(l, vmm.pmm.stack[..], top, target);
        }
        ok := GrowPage();
        if !ok {
          return;
        }
        MappedCount();
      }
      CostNone(lay, heapMax, target);
      ok := true;
    }

    lemma MappedCount()
      requires Mapped()
      ensures Counted(lay, vmm.pmm.top) && heapMax == HEAP_START + PAGE_SIZE * |lay.pages| &&
              |bytes| == PAGE_SIZE * |lay.pages|
    {
    }

    /** One turn of free_chunk's loop: the last page goes back to the stack. */
    method ShrinkPage()
      requires Mapped() && bytes != []
      modifies vmm`ram, vmm.pmm`top, vmm.pmm.stack, this`heapMax, this`lay, this`bytes
      ensures Mapped() && lay == Shrink(old(lay), old(vmm.pmm.top)) && SameFrames(old(lay), lay)
      ensures heapMax == old(heapMax) - PAGE_SIZE && lay.peak == old(lay).peak
      ensures bytes == old(bytes)[..|old(bytes)| - PAGE_SIZE]
    {
      hide Laid, WordAt, Walk, StoreWalk, View, Pte, Pde, TableOf, InWindow, RoundDown, Shrink, Untouched;
      ghost var m, top, l := vmm.ram, vmm.pmm.top, lay;
      ghost var stack := vmm.pmm.stack[..];
      ShrinkReady(m, vmm.cr3, stack, top, l);
      heapMax := heapMax - PAGE_SIZE;
      var page := vmm.GetMapping(heapMax);
      vmm.Unmap(heapMax);
      var pushed := vmm.pmm.FreePage(page.value);
      ShrinkLaid(m, vmm.ram, vmm.cr3, stack, vmm.pmm.stack[..], top, l);
      ShrinkPeak(l, top);
      lay := Shrink(l, top);
      bytes := View(vmm.ram, lay);
    }

    /** free_chunk on the free last chunk: the list forgets it and whole pages above it are given back. */
    method FreeChunk(chunk: Word, ghost k: int)
      requires Mapped() && Linked() && k == |chunks| - 1 && 0 <= k && chunks[k].addr == chunk && !chunks[k].used
      modifies vmm`ram, vmm.pmm`top, vmm.pmm.stack, this
      ensures Mapped() && Linked() && chunks == old(chunks)[..k] && SameFrames(old(lay), lay) &&
              lay.peak == old(lay).peak
      ensures Live(chunks) == Live(old(chunks)) && Kept(old(bytes), bytes, Live(chunks))
      ensures chunk < heapMax <= old(heapMax) && heapMax <= chunk + PAGE_SIZE
    {
      hide WordAt, Laid, View, Tiled, Live, Encodes, Field, Info, Payload, Shrink, Untouched;
      ghost var cs, v := chunks, bytes;
      DropReady(v, cs);
      PrevReady(v, cs, k);
      var prev := LoadField(chunk, 0, k);
      if prev == 0 {
        heapFirst := 0;
      } else {
        StoreField(prev, 1, 0, k - 1);
      }
      ghost var w := bytes;
      DropEncodes(v, w, cs);
      chunks := cs[..k];
      while heapMax - PAGE_SIZE > chunk
        invariant Mapped() && SameFrames(old(lay), lay) && lay.peak == old(lay).peak
        invariant chunk < heapMax <= old(heapMax)
        invariant chunks == cs[..k] && heapFirst == if chunks == [] then 0 else HEAP_START
        invariant |bytes| == heapMax - HEAP_START && bytes <= w
        decreases heapMax
      {
        ShrinkPage();
      }
      Truncated(w, bytes, chunks);
    }

    /** glue_chunk on the free chunk i. */
    method GlueChunk(chunk: Word, ghost i: int)
      requires Mapped() && Linked() && 0 <= i < |chunks| && chunks[i].addr == chunk && !chunks[i].used
      modifies vmm`ram, vmm.pmm`top, vmm.pmm.stack, this
      ensures Mapped() && Linked() && SameFrames(old(lay), lay) && lay.peak == old(lay).peak
      ensures var c := MergeNext(old(chunks), i); chunks == Trim(MergePrev(c, i), GluedIndex(c, i))
      ensures Live(chunks) == Live(old(chunks)) && Kept(old(bytes), bytes, Live(chunks))
      ensures (End(chunks, HEAP_START) < heapMax <= End(chunks, HEAP_START) + PAGE_SIZE && heapMax <= old(heapMax)) ||
              (heapMax == old(heapMax) && End(chunks, HEAP_START) == End(old(chunks), HEAP_START))
    {
      hide WordAt, Mapped, Tiled, Encodes, Field, Info, Payload, Merge, Live;
      GlueNext(chunk, i);
      ghost var c, w := chunks, bytes;
      GlueShape(old(chunks), i);
      var glued := GluePrev(chunk, i);
      ghost var k, d, x := GluedIndex(c, i), chunks, bytes;
      assert d == MergePrev(c, i);
      NextReady(bytes, chunks, k);
      var next := LoadField(glued, 1, k);
      if next == 0 {
        FreeChunk(glued, k);
        DropLast(d, k);
      }
    }

    /** p is a pointer that kmalloc returned and that has not been freed since. */
    ghost predicate IsLive(p: int)
      reads `chunks
    {
      exists i :: 0 <= i < |chunks| && chunks[i].used && chunks[i].addr + HEADER == p
    }

    /** Chunk i is marked free; gluing and unlinking are still to come. */
    method MarkFree(header: Word, ghost i: int)
      requires Mapped() && Linked() && 0 <= i < |chunks| && chunks[i].addr == header && chunks[i].used
      modifies vmm`ram, this`bytes, this`chunks
      ensures Mapped() && Linked() && chunks == Mark(old(chunks), i, false)
      ensures |chunks| == |old(chunks)| && chunks[i] == old(chunks)[i].(used := false)
      ensures End(chunks, HEAP_START) == End(old(chunks), HEAP_START) && Kept(old(bytes), bytes, Live(old(chunks)))
      ensures Live(chunks) == Live(old(chunks)) - {(old(chunks)[i].addr, old(chunks)[i].len)}
    {
      hide WordAt, Mapped, Tiled, Encodes, Field, Payload, Live, Mark, Info;
      ghost var cs, v := chunks, bytes;
      FreeReady(v, cs, i);
      SetAllocated(header, false, i);
      MarkEncodes(v, bytes, cs, i, false);
      chunks := Mark(cs, i, false);
    }

    /** kfree of a live pointer: its block and nothing else leaves the live set, and the list is canonical again. */
    method Kfree(p: Word)
      requires Valid() && IsLive(p)
      modifies vmm`ram, vmm.pmm`top, vmm.pmm.stack, this
      ensures Valid() && SameFrames(old(lay), lay)
      ensures Live(chunks) == set x | x in Live(old(chunks)) && x.0 + HEADER != p
      ensures forall i | 0 <= i < |old(chunks)| && old(chunks)[i].addr + HEADER == p ::
              chunks == Release(old(chunks), i)
      ensures heapMax == if End(chunks, HEAP_START) == End(old(chunks), HEAP_START) then old(heapMax)
                         else PageAbove(End(chunks, HEAP_START))
      ensures lay.peak == old(lay).peak
      ensures Kept(old(bytes), bytes, Live(chunks))
      ensures Untouched(old(vmm.ram), vmm.ram, vmm.cr3, lay)
    {
      hide WordAt, Mapped, Tiled, Encodes, Field, Payload, Live, Canonical, Release, Untouched, PageAbove, Mark,
           MergeNext, MergePrev, Trim, GluedIndex, SameFrames, Info;
      ghost var i :| 0 <= i < |chunks| && chunks[i].used && chunks[i].addr + HEADER == p;
      ghost var cs, v, m, l := chunks, bytes, vmm.ram, lay;
      var header := p - HEADER;
      FreeReady(v, cs, i);
      MappedCount();
      MappedOutside();
      MarkFree(header, i);
      GlueChunk(header, i);
      FreeDone(cs, i);
      FreedList(cs, i);
      AddressOnce(cs, i);
      SameOutside(m, l);
      MappedCount();
      ShrunkTo(old(heapMax), heapMax, End(cs, HEAP_START), End(chunks, HEAP_START));
    }

    lemma MappedOutside()
      requires Mapped()
      ensures Untouched(image, vmm.ram, vmm.cr3, lay)
    {
    }

    lemma SameOutside(m: Ram, l: Layout)
      requires Mapped() && Untouched(image, m, vmm.cr3, l) && SameFrames(l, lay)
      ensures Untouched(m, vmm.ram, vmm.cr3, lay)
    {
      UntouchedBetween(image, m, vmm.ram, vmm.cr3, l, lay);
    }

    /** The caller stores a byte at offset k of its own live block i. */
    method Poke(p: Word, k: Word, b: Byte, ghost i: int)
      requires Valid() && 0 <= i < |chunks| && chunks[i].used && chunks[i].addr + HEADER == p &&
               HEADER + k < chunks[i].len
      modifies vmm`ram, this`bytes
      ensures Valid()
      ensures forall x | x in Live(chunks) :: Payload(bytes, x) ==
                if x == (chunks[i].addr, chunks[i].len) then Updated(Payload(old(bytes), x), k, b)
                else Payload(old(bytes), x)
      ensures Untouched(old(vmm.ram), vmm.ram, vmm.cr3, lay)
    {
      hide WordAt, Laid, View, Translate, Encodes, Field, Payload, Live, Canonical, Walk, StoreWalk, Untouched;
      Within(chunks, HEAP_START, i);
      ghost var o, v := p + k - HEAP_START, bytes;
      HeapWalk(vmm.ram, vmm.cr3, vmm.pmm.stack[..], vmm.pmm.top, lay, o);
      ghost var m := vmm.ram;
      StoreKeeps(m, vmm.cr3, vmm.pmm.stack[..], vmm.pmm.top, lay, o, b);
      LaidInRam(m, vmm.cr3, vmm.pmm.stack[..], vmm.pmm.top, lay);
      StoreInside(image, m, vmm.cr3, vmm.pmm.stack[..], vmm.pmm.top, lay, o, b);
      vmm.StoreByte(p + k, b, Translate(lay, o));
      bytes := View(vmm.ram, lay);
      PokeKeeps(v, chunks, i, k, b);
      UntouchedBetween(image, m, vmm.ram, vmm.cr3, lay, lay);
    }

    /** No hole is large enough, so kmalloc will have to grow the heap. */
    ghost predicate Full(need: int)
      reads `chunks
    {
      forall j | 0 <= j < |chunks| :: !Fits(chunks[j], need)
    }

    /**
     * kmalloc; None is the out-of-memory panic, raised exactly when no hole fits and the free frames do not
     * suffice. Otherwise first fit is followed, the list stays canonical, the block is a new one of len to
     * len + 12 bytes, and no other block's bytes have changed.
     */
    method Kmalloc(len: Word) returns (r: Option<Word>, ghost i: int)
      requires Valid()
      requires len + HEADER < TWO32 && (Full(len + HEADER) ==> End(chunks, HEAP_START) + len + HEADER < TWO32)
      modifies vmm`ram, vmm.pmm`top, this
      ensures FirstFit(old(chunks), len + HEADER, i)
      ensures r.None? <==>
              i == |old(chunks)| && Cost(old(lay), End(old(chunks), HEAP_START) + len + HEADER) > old(vmm.pmm.top)
      ensures r.Some? ==> Valid() && SameFrames(old(lay), lay)
      ensures r.Some? ==> heapMax == old(heapMax) || old(heapMax) < heapMax < End(chunks, HEAP_START) + PAGE_SIZE
      ensures r.Some? ==> lay.peak == Peak(old(lay).peak, |lay.pages|)
      ensures r.Some? ==> chunks == Allocate(old(chunks), HEAP_START, len + HEADER, i)
      ensures r.Some? ==> i < |chunks| && r.value == chunks[i].addr + HEADER && chunks[i].used
      ensures r.Some? ==> len + HEADER <= chunks[i].len <= len + 2 * HEADER
      ensures r.Some? && i < |old(chunks)| && old(chunks)[i].len <= len + 2 * HEADER ==>
                chunks[i].len == old(chunks)[i].len
      ensures r.Some? && !(i < |old(chunks)| && old(chunks)[i].len <= len + 2 * HEADER) ==>
                chunks[i].len == len + HEADER
      ensures r.Some? ==> Live(chunks) == Live(old(chunks)) + {(chunks[i].addr, chunks[i].len)}
      ensures r.Some? ==> forall n :: (chunks[i].addr, n) !in Live(old(chunks))
      ensures r.Some? ==> Kept(old(bytes), bytes, Live(old(chunks)))
      ensures r.Some? ==> Untouched(old(vmm.ram), vmm.ram, vmm.cr3, lay)
    {
      hide WordAt, Mapped, Tiled, Encodes, Field, Payload, Live, Canonical, Cost, Info, Take, Append, Untouched;
      var need := (len + HEADER) % TWO32;
      var cur: Word := heapFirst;
      var prev: Word := 0;
      ghost var cs, v := chunks, bytes;
      FirstLink(cs);
      MappedCount();
      i := 0;
      while cur != 0
        invariant 0 <= i <= |cs| && cur == LinkAt(cs, i) && prev == (if i == 0 then 0 else cs[i - 1].addr)
        invariant Valid() && chunks == cs && bytes == v && vmm.ram == old(vmm.ram) && lay == old(lay) &&
                  heapMax == old(heapMax) && vmm.pmm.top == old(vmm.pmm.top)
        invariant forall j | 0 <= j < i :: !Fits(cs[j], need)
        decreases |cs| - i
      {
        WalkStep(v, cs, i);
        var info := LoadField(cur, 2, i);
        if info % 2 == 0 && info / 2 >= need {
          AllocateKeeps(cs, HEAP_START, need, i);
          MappedOutside();
          TakeChunk(cur, need, i);
          SameOutside(old(vmm.ram), lay);
          return Some(cur + HEADER), i;
        }
        prev := cur;
        cur := LoadField(cur, 1, i);
        i := i + 1;
      }
      NoLink(cs, i);
      AllocateKeeps(cs, HEAP_START, need, i);
      MappedOutside();
      r := GrowHeap(prev, need);
      if r.Some? {
        SameOutside(old(vmm.ram), old(lay));
      }
    }

    /** kmalloc's hit: chunk i is split and allocated. */
    method TakeChunk(cur: Word, need: Word, ghost i: int)
      requires Mapped() && Linked() && 0 <= i < |chunks| && chunks[i].addr == cur
      requires !chunks[i].used && HEADER <= need <= chunks[i].len
      modifies vmm`ram, this`bytes, this`chunks
      ensures Mapped() && Linked() && chunks == Take(old(chunks), i, need)
      ensures Kept(old(bytes), bytes, Live(old(chunks)))
    {
      hide WordAt, Mapped, Tiled, Encodes, Field, Payload, Live, Split;
      ghost var cs := chunks;
      SplitStep(cs, HEAP_START, i, need);
      SplitChunk(cur, need, i);
      ghost var s, v := chunks, bytes;
      FreeReady(v, s, i);
      SetAllocated(cur, true, i);
      MarkEncodes(v, bytes, s, i, true);
      chunks := Mark(s, i, true);
    }

    /** kmalloc's miss: a new chunk after the last one, which is at prev. */
    method GrowHeap(prev: Word, need: Word) returns (r: Option<Word>)
      requires Valid() && prev == (if chunks == [] then 0 else chunks[|chunks| - 1].addr)
      requires HEADER <= need && End(chunks, HEAP_START) + need < TWO32
      modifies vmm`ram, vmm.pmm`top, this
      ensures r.None? <==> Cost(old(lay), End(old(chunks), HEAP_START) + need) > old(vmm.pmm.top)
      ensures r.Some? ==> Mapped() && Linked() && SameFrames(old(lay), lay)
      ensures r.Some? ==> chunks == Append(old(chunks), HEAP_START, need)
      ensures r.Some? ==> r.value == End(old(chunks), HEAP_START) + HEADER
      ensures r.Some? ==> heapMax <= End(chunks, HEAP_START) + PAGE_SIZE
      ensures r.Some? ==> heapMax == old(heapMax) || old(heapMax) < heapMax < End(chunks, HEAP_START) + PAGE_SIZE
      ensures r.Some? ==> lay.peak == Peak(old(lay).peak, |lay.pages|)
      ensures r.Some? ==> Kept(old(bytes), bytes, Live(old(chunks)))
    {
      hide WordAt, Mapped, Tiled, Encodes, Field, Payload, Live, Canonical, Cost, Info;
      ghost var cs, v := chunks, bytes;
      LastReady(v, cs);
      var chunkStart: Word;
      if prev != 0 {
        var info := LoadField(prev, 2, |cs| - 1);
        chunkStart := prev + info / 2;
      } else {
        chunkStart := HEAP_START;
        heapFirst := chunkStart;
      }
      var ok := AllocChunk(chunkStart, need);
      if !ok {
        return None;
      }
      MappedCount();
      ghost var w := bytes;
      Extended(v, w, cs);
      AppendReady(w, cs, need);
      chunks := Append(cs, HEAP_START, need);
      WriteLast(chunkStart, prev, need);
      AppendEncodes(w, bytes, cs, need);
      r := Some(chunkStart + HEADER);
    }

    /** The header of the chunk just appended, and the link to it. */
    method WriteLast(chunkStart: Word, prev: Word, need: Word)
      requires Ready() && chunks != [] && chunks[|chunks| - 1].addr == chunkStart && need < TWO31
      requires prev == PrevAddr(chunks, |chunks| - 1) && (1 < |chunks| ==> 0 < prev)
      modifies vmm`ram, this`bytes
      ensures Ready() && |bytes| == |old(bytes)| && Kept(old(bytes), bytes, Live(chunks))
      ensures var k := |chunks| - 1;
              && Field(bytes, chunks, k, 0) == prev && Field(bytes, chunks, k, 1) == 0 &&
                 Field(bytes, chunks, k, 2) == 2 * need + 1
              && (0 < k ==> Field(bytes, chunks, k - 1, 1) == chunkStart)
              && forall j, f | 0 <= j < k && 0 <= f < 3 && !(j == k - 1 && f == 1) ::
                 Field(bytes, chunks, j, f) == Field(old(bytes), chunks, j, f)
    {
      hide WordAt, Mapped, Tiled, Field, Payload, Live;
      ghost var k := |chunks| - 1;
      SetAllocated(chunkStart, true, k);
      SetLength(chunkStart, need, k);
      if prev != 0 {
        StoreField(prev, 1, chunkStart, k - 1);
      }
      StoreField(chunkStart, 0, prev, k);
      StoreField(chunkStart, 1, 0, k);
    }
  }

  /** A byte of one payload is in no header and in no other payload. */
  lemma PokeKeeps(v: seq<Byte>, cs: seq<Chunk>, i: int, k: int, b: Byte)
    requires Tiled(cs, HEAP_START) && Encodes(v, cs) && End(cs, HEAP_START) <= HEAP_START + |v|
    requires 0 <= i < |cs| && cs[i].used && 0 <= k && HEADER + k < cs[i].len
    ensures 0 <= cs[i].addr + HEADER + k - HEAP_START < |v|
    ensures var v' := v[cs[i].addr + HEADER + k - HEAP_START := b];
            && Encodes(v', cs)
            && forall x | x in Live(cs) :: |Payload(v, x)| == x.1 - HEADER && Payload(v', x) ==
                 if x == (cs[i].addr, cs[i].len) then Updated(Payload(v, x), k, b) else Payload(v, x)
  {
    hide WordAt, Live, Payload, Encodes;
    Within(cs, HEAP_START, i);
    PokeHeaders(v, cs, i, k, b);
    forall x | x in Live(cs)
      ensures |Payload(v, x)| == x.1 - HEADER
      ensures Payload(v[cs[i].addr + HEADER + k - HEAP_START := b], x) ==
                if x == (cs[i].addr, cs[i].len) then Updated(Payload(v, x), k, b) else Payload(v, x)
    {
      PokePayload(v, cs, i, k, b, x);
    }
  }

  lemma PokeHeaders(v: seq<Byte>, cs: seq<Chunk>, i: int, k: int, b: Byte)
    requires Tiled(cs, HEAP_START) && Encodes(v, cs) && 0 <= i < |cs| && 0 <= k && HEADER + k < cs[i].len
    requires 0 <= cs[i].addr + HEADER + k - HEAP_START < |v|
    ensures Encodes(v[cs[i].addr + HEADER + k - HEAP_START := b], cs)
  {
    var v' := v[cs[i].addr + HEADER + k - HEAP_START := b];
    forall j | 0 <= j < |cs|
      ensures HeaderAt(v', cs, j)
    {
      assert HeaderAt(v, cs, j);
      ChunksApart(cs, i, j);
    }
  }

  lemma PokePayload(v: seq<Byte>, cs: seq<Chunk>, i: int, k: int, b: Byte, x: (int, int))
    requires Tiled(cs, HEAP_START) && End(cs, HEAP_START) <= HEAP_START + |v| && x in Live(cs)
    requires 0 <= i < |cs| && cs[i].used && 0 <= k && HEADER + k < cs[i].len
    requires 0 <= cs[i].addr + HEADER + k - HEAP_START < |v|
    ensures |Payload(v, x)| == x.1 - HEADER
    ensures Payload(v[cs[i].addr + HEADER + k - HEAP_START := b], x) ==
              if x == (cs[i].addr, cs[i].len) then Updated(Payload(v, x), k, b) else Payload(v, x)
  {
    var j :| 0 <= j < |cs| && cs[j].used && x == (cs[j].addr, cs[j].len);
    Within(cs, HEAP_START, j);
    ChunksApart(cs, i, j);
  }

  /** The link that leads to chunk i; 0 past the end. */
  function LinkAt(cs: seq<Chunk>, i: int): int
    requires 0 <= i <= |cs|
  {
    if i < |cs| then cs[i].addr else 0
  }

  lemma FirstLink(cs: seq<Chunk>)
    requires Tiled(cs, HEAP_START)
    ensures LinkAt(cs, 0) == if cs == [] then 0 else HEAP_START
  {
  }

  lemma WalkStep(v: seq<Byte>, cs: seq<Chunk>, i: int)
    requires Tiled(cs, HEAP_START) && Encodes(v, cs) && 0 <= i <= |cs| && LinkAt(cs, i) != 0
    ensures i < |cs| && Field(v, cs, i, 2) == Info(cs[i]) && Field(v, cs, i, 1) == LinkAt(cs, i + 1)
    ensures Info(cs[i]) / 2 == cs[i].len && (Info(cs[i]) % 2 == 0 <==> !cs[i].used)
    ensures 0 < cs[i].addr && cs[i].addr + HEADER <= End(cs, HEAP_START)
  {
    assert HeaderAt(v, cs, i);
    Within(cs, HEAP_START, i);
  }

  lemma NoLink(cs: seq<Chunk>, i: int)
    requires Tiled(cs, HEAP_START) && 0 <= i <= |cs| && LinkAt(cs, i) == 0
    ensures i == |cs|
  {
    if i < |cs| {
      Within(cs, HEAP_START, i);
    }
  }

  lemma LastReady(v: seq<Byte>, cs: seq<Chunk>)
    requires Tiled(cs, HEAP_START) && Encodes(v, cs)
    ensures cs != [] ==> var k := |cs| - 1; 0 < cs[k].addr && Field(v, cs, k, 2) / 2 == cs[k].len
    ensures HEAP_START <= End(cs, HEAP_START)
  {
    if cs != [] {
      Within(cs, HEAP_START, |cs| - 1);
      WalkStep(v, cs, |cs| - 1);
    }
  }

  lemma FreeReady(v: seq<Byte>, cs: seq<Chunk>, i: int)
    requires Tiled(cs, HEAP_START) && Encodes(v, cs) && 0 <= i < |cs|
    ensures HEAP_START <= cs[i].addr && Field(v, cs, i, 2) / 2 == cs[i].len && Field(v, cs, i, 2) == Info(cs[i])
  {
    assert HeaderAt(v, cs, i);
    Within(cs, HEAP_START, i);
  }

  /** Changing the allocated bit in memory is changing it in the list. */
  lemma MarkEncodes(v: seq<Byte>, v': seq<Byte>, cs: seq<Chunk>, i: int, used: bool)
    requires Tiled(cs, HEAP_START) && Encodes(v, cs) && 0 <= i < |cs| && cs[i].used != used
    requires FieldSet(v, v', cs, i, 2, Field(v, cs, i, 2) / 2 * 2 + if used then 1 else 0)
    ensures var r := Mark(cs, i, used);
            && Encodes(v', r) && Tiled(r, HEAP_START) && End(r, HEAP_START) == End(cs, HEAP_START) && r != [] &&
               |r| == |cs|
            && r[i] == cs[i].(used := used)
            && (if used then Live(r) == Live(cs) + {(cs[i].addr, cs[i].len)}
                else Live(r) == Live(cs) - {(cs[i].addr, cs[i].len)})
  {
    hide WordAt, Tiled, Live, Payload, Encodes, FieldSet, Info, Field;
    MarkStep(cs, HEAP_START, i, used);
    MarkHeaders(v, v', cs, i, used);
  }

  lemma MarkHeaders(v: seq<Byte>, v': seq<Byte>, cs: seq<Chunk>, i: int, used: bool)
    requires Encodes(v, cs) && 0 <= i < |cs| && cs[i].used != used
    requires FieldSet(v, v', cs, i, 2, Field(v, cs, i, 2) / 2 * 2 + if used then 1 else 0)
    ensures Encodes(v', Mark(cs, i, used))
  {
    hide WordAt, Live, Payload;
    var r := Mark(cs, i, used);
    forall j | 0 <= j < |r|
      ensures HeaderAt(v', r, j)
    {
      assert HeaderAt(v, cs, j);
      assert Field(v', r, j, 0) == Field(v', cs, j, 0) && Field(v', r, j, 1) == Field(v', cs, j, 1) &&
             Field(v', r, j, 2) == Field(v', cs, j, 2);
    }
  }

  /** A longer view holds the same list. */
  lemma Extended(v: seq<Byte>, v': seq<Byte>, cs: seq<Chunk>)
    requires v <= v' && Tiled(cs, HEAP_START) && End(cs, HEAP_START) <= HEAP_START + |v| && Encodes(v, cs)
    ensures Encodes(v', cs) && Kept(v, v', Live(cs))
  {
    forall j | 0 <= j < |cs|
      ensures HeaderAt(v', cs, j)
    {
      assert HeaderAt(v, cs, j);
      Within(cs, HEAP_START, j);
      TruncatedField(v', v, cs, j, 0);
      TruncatedField(v', v, cs, j, 1);
      TruncatedField(v', v, cs, j, 2);
    }
    forall x | x in Live(cs)
      ensures Payload(v', x) == Payload(v, x)
    {
      var j :| 0 <= j < |cs| && cs[j].used && x == (cs[j].addr, cs[j].len);
      Within(cs, HEAP_START, j);
    }
  }

  lemma AppendReady(v: seq<Byte>, cs: seq<Chunk>, need: int)
    requires Tiled(cs, HEAP_START) && HEADER <= need && End(cs, HEAP_START) + need <= HEAP_START + |v| < TWO32
    ensures need < TWO31
    ensures var r := Append(cs, HEAP_START, need);
            && Tiled(r, HEAP_START) && End(r, HEAP_START) == End(cs, HEAP_START) + need && r != [] &&
               Live(cs) <= Live(r)
            && r[|r| - 1] == Chunk(End(cs, HEAP_START), need, true) && |r| == |cs| + 1
            && PrevAddr(r, |cs|) == if cs == [] then 0 else cs[|cs| - 1].addr
  {
    LiveConcat(cs, [Chunk(End(cs, HEAP_START), need, true)]);
    if cs != [] {
      Within(cs, HEAP_START, |cs| - 1);
    }
  }

  lemma AppendEncodes(v: seq<Byte>, v': seq<Byte>, cs: seq<Chunk>, need: int)
    requires Encodes(v, cs) && |v'| == |v|
    requires var r, k := Append(cs, HEAP_START, need), |cs|;
             && Field(v', r, k, 0) == PrevAddr(r, k) && Field(v', r, k, 1) == 0 && Field(v', r, k, 2) == 2 * need + 1
             && (0 < k ==> Field(v', r, k - 1, 1) == r[k].addr)
             && forall j, f | 0 <= j < k && 0 <= f < 3 && !(j == k - 1 && f == 1) ::
                Field(v', r, j, f) == Field(v, r, j, f)
    ensures Encodes(v', Append(cs, HEAP_START, need))
  {
    hide WordAt;
    var r := Append(cs, HEAP_START, need);
    forall j | 0 <= j < |r|
      ensures HeaderAt(v', r, j)
    {
      if j < |cs| {
        assert HeaderAt(v, cs, j) && r[j] == cs[j];
      }
    }
  }

  /** The first page boundary above an address. */
  function PageAbove(a: int): int {
    a - a % PAGE_SIZE + PAGE_SIZE
  }

  lemma ShrunkTo(before: int, after: int, end: int, end': int)
    requires before % PAGE_SIZE == 0 && after % PAGE_SIZE == 0 && end <= before <= end + PAGE_SIZE
    requires (end' < after <= end' + PAGE_SIZE && after <= before) || (after == before && end' == end)
    ensures after == if end' == end then before else PageAbove(end')
  {
  }

  lemma AddressOnce(cs: seq<Chunk>, i: int)
    requires Tiled(cs, HEAP_START) && 0 <= i < |cs|
    ensures forall j | 0 <= j < |cs| && cs[j].addr == cs[i].addr :: j == i
  {
    forall j | 0 <= j < |cs| && cs[j].addr == cs[i].addr
      ensures j == i
    {
      ChunksApart(cs, i, j);
    }
  }

  lemma FreedList(cs: seq<Chunk>, i: int)
    requires 0 <= i < |cs|
    ensures var c := MergeNext(Mark(cs, i, false), i);
            i < |c| && Release(cs, i) == Trim(MergePrev(c, i), GluedIndex(c, i))
  {
  }

  /** The end of a block, as the 32-bit sum in alloc_chunk's guard. */
  function Target(start: Word, len: Word): Word {
    (start + len) % TWO32
  }

  /** The live set after kfree, by address. */
  lemma FreeDone(cs: seq<Chunk>, i: int)
    requires WellFormed(cs, HEAP_START) && 0 <= i < |cs| && cs[i].used
    ensures WellFormed(Release(cs, i), HEAP_START)
    ensures Live(Release(cs, i)) == set x | x in Live(cs) && x.0 != cs[i].addr
  {
    hide WellFormed;
    ReleaseKeeps(cs, HEAP_START, i);
    forall x | x in Live(cs) && x.0 == cs[i].addr
      ensures x.1 == cs[i].len
    {
      LiveUnique(cs, i, x.1);
    }
  }

  lemma LiveUnique(cs: seq<Chunk>, i: int, n: int)
    requires WellFormed(cs, HEAP_START) && 0 <= i < |cs| && (cs[i].addr, n) in Live(cs)
    ensures n == cs[i].len
  {
    var j :| 0 <= j < |cs| && cs[j].used && cs[j].addr == cs[i].addr && cs[j].len == n;
    ChunksApart(cs, i, j);
  }

  /** The largest heap so far. */
  function Peak(before: int, pages: int): int {
    if before < pages then pages else before
  }

  lemma GrowPeak(l: Layout, stack: seq<Word>, top: int)
    requires 0 < top < |stack| && (NeedsTable(l) ==> 1 < top)
    ensures |Grow(l, stack, top).pages| == |l.pages| + 1
    ensures Grow(l, stack, top).peak == Peak(l.peak, |l.pages| + 1)
  {
  }

  lemma ShrinkPeak(l: Layout, top: int)
    requires l.pages != []
    ensures Shrink(l, top).peak == l.peak
  {
  }

  lemma BelowTarget(l: Layout, heapMax: int, target: int)
    requires heapMax == HEAP_START + PAGE_SIZE * |l.pages| < target
    ensures |l.pages| < PagesFor(target)
  {
  }

  lemma CostPositive(l: Layout, target: int)
    requires |l.pages| < PagesFor(target)
    ensures Cost(l, target) > 0
  {
  }

  lemma CostNone(l: Layout, heapMax: int, target: int)
    requires heapMax == HEAP_START + PAGE_SIZE * |l.pages| >= target
    ensures Cost(l, target) == 0
  {
  }

  /** Before the page is mapped: what map asks for holds, and it needs a table exactly at a new region. */
  lemma GrowReady(m: Ram, cr3: Word, stack: seq<Word>, top: int, l: Layout)
    requires Laid(m, cr3, stack, top, l) && 0 < top
    ensures var va := HEAP_START + PAGE_SIZE * |l.pages|;
            && va + PAGE_SIZE < TWO32 && va / PAGE_SIZE == HEAP_PAGE + |l.pages| && !InWindow(va / PAGE_SIZE)
            && va / 0x40_0000 < ENTRIES && cr3 + PAGE_SIZE <= |m| && Valid(m, cr3)
            && (TableOf(m, cr3, va / 0x40_0000) == 0 <==> NeedsTable(l))
            && (NeedsTable(l) ==> va / 0x40_0000 == HEAP_DIR + |l.tables|)
            && (1 < top ==> Fresh(m, cr3, stack[top - 1]))
            && RoundDown(stack[top]) == stack[top]
  {
    NextRegion(l, top);
    TableBounds(m, cr3, 0);
    FreeIsFresh(m, cr3, stack, top, l, top);
    if 1 < top {
      FreeIsFresh(m, cr3, stack, top, l, top - 1);
    }
    var d := HEAP_DIR + |l.pages| / ENTRIES;
    HeapTable(m, cr3, stack, top, l, d);
    if d - HEAP_DIR < |l.tables| {
      assert l.tables[d - HEAP_DIR] in l.own;
    }
    hide WordAt, Pte, Pde, TableOf, Tables, DirectMap;
  }

  /** A word store, possibly across two pages, is a word store into the flat view. */
  lemma WordStoreKeeps(m: Ram, cr3: Word, stack: seq<Word>, top: int, l: Layout, k: int, w: Word)
    requires Laid(m, cr3, stack, top, l) && InRam(m, l) && 0 <= k && k + 4 <= PAGE_SIZE * |l.pages|
    ensures forall i | k <= i < k + 4 :: 0 <= Translate(l, i) < |m|
    ensures var m' := Put4(m, Translate(l, k), Translate(l, k + 1), Translate(l, k + 2), Translate(l, k + 3), w);
            Laid(m', cr3, stack, top, l) && InRam(m', l) && Stored(View(m, l), View(m', l), k, w)
  {
    hide Laid, WordAt, View, Translate, ByteOf;
    StoreKeeps(m, cr3, stack, top, l, k, ByteOf(w, 0));
    var m1 := m[Translate(l, k) := ByteOf(w, 0)];
    StoreKeeps(m1, cr3, stack, top, l, k + 1, ByteOf(w, 1));
    var m2 := m1[Translate(l, k + 1) := ByteOf(w, 1)];
    StoreKeeps(m2, cr3, stack, top, l, k + 2, ByteOf(w, 2));
    var m3 := m2[Translate(l, k + 2) := ByteOf(w, 2)];
    StoreKeeps(m3, cr3, stack, top, l, k + 3, ByteOf(w, 3));
    Put4Stored(View(m, l), k, w);
  }

  /** What split_chunk reads before it writes. */
  lemma SplitReady(v: seq<Byte>, cs: seq<Chunk>, i: int, len: int)
    requires Tiled(cs, HEAP_START) && Encodes(v, cs) && End(cs, HEAP_START) <= HEAP_START + |v| < TWO32
    requires 0 <= i < |cs| && !cs[i].used && HEADER <= len <= cs[i].len
    ensures Field(v, cs, i, 2) == 2 * cs[i].len == Info(cs[i]) && cs[i].len < TWO31
    ensures if cs[i].len - len > HEADER then
              var r := Split(cs, i, len);
              && Tiled(r, HEAP_START) && End(r, HEAP_START) == End(cs, HEAP_START) && Live(r) == Live(cs)
              && |r| == |cs| + 1 && r[i].addr == cs[i].addr && r[i + 1].addr == cs[i].addr + len < TWO32
              && Info(r[i]) == 2 * len && Info(r[i + 1]) == 2 * (cs[i].len - len)
              && Field(v, cs, i, 1) == (if i + 2 < |r| then r[i + 2].addr else 0)
              && (i + 2 < |r| ==> 0 < r[i + 2].addr)
              && (forall f :: Field(v, r, i, f) == Field(v, cs, i, f))
              && r != []
            else Split(cs, i, len) == cs
  {
    hide WordAt, Live;
    SplitStep(cs, HEAP_START, i, len);
    assert HeaderAt(v, cs, i);
    Within(cs, HEAP_START, i);
    if i + 1 < |cs| {
      Within(cs, HEAP_START, i + 1);
    }
  }

  /** The links and lengths that split_chunk writes. */
  lemma SplitEncodes(v: seq<Byte>, v': seq<Byte>, cs: seq<Chunk>, i: int, len: int)
    requires Encodes(v, cs) && 0 <= i < |cs| && cs[i].len - len > HEADER && |v'| == |v|
    requires var r := Split(cs, i, len);
      && Field(v', r, i, 0) == Field(v, cs, i, 0) && Field(v', r, i, 1) == r[i + 1].addr &&
         Field(v', r, i, 2) == Info(r[i])
      && Field(v', r, i + 1, 0) == r[i].addr && Field(v', r, i + 1, 1) == Field(v, cs, i, 1) &&
         Field(v', r, i + 1, 2) == Info(r[i + 1])
      && (i + 2 < |r| ==> Field(v', r, i + 2, 0) == r[i + 1].addr)
      && forall j, f | 0 <= j < |r| && 0 <= f < 3 && j != i && j != i + 1 && !(j == i + 2 && f == 0) ::
         Field(v', r, j, f) == Field(v, r, j, f)
    ensures Encodes(v', Split(cs, i, len))
  {
    hide WordAt, Split;
    SplitAt(cs, i, len);
    var r := Split(cs, i, len);
    forall j | 0 <= j < |r|
      ensures HeaderAt(v', r, j)
    {
      if j < i {
        assert HeaderAt(v, cs, j) && r[j] == cs[j];
      } else if j > i + 1 {
        assert HeaderAt(v, cs, j - 1) && r[j] == cs[j - 1];
      } else {
        assert HeaderAt(v, cs, i);
      }
    }
  }

  /** A link read from a valid list is 0 exactly at the end of the list. */
  lemma NextReady(v: seq<Byte>, cs: seq<Chunk>, i: int)
    requires Tiled(cs, HEAP_START) && Encodes(v, cs) && 0 <= i < |cs|
    ensures if i + 1 < |cs| then 0 < Field(v, cs, i, 1) == cs[i + 1].addr && Field(v, cs, i + 1, 2) == Info(cs[i + 1])
            else Field(v, cs, i, 1) == 0
    ensures i + 1 < |cs| ==> (Info(cs[i + 1]) % 2 == 0 <==> !cs[i + 1].used)
  {
    hide WordAt, Field;
    assert HeaderAt(v, cs, i);
    if i + 1 < |cs| {
      assert HeaderAt(v, cs, i + 1);
      Within(cs, HEAP_START, i + 1);
    }
  }

  lemma PrevReady(v: seq<Byte>, cs: seq<Chunk>, i: int)
    requires Tiled(cs, HEAP_START) && Encodes(v, cs) && 0 <= i < |cs|
    ensures if 0 < i then 0 < Field(v, cs, i, 0) == cs[i - 1].addr && Field(v, cs, i - 1, 2) == Info(cs[i - 1])
            else Field(v, cs, i, 0) == 0
    ensures 0 < i ==> (Info(cs[i - 1]) % 2 == 0 <==> !cs[i - 1].used)
  {
    hide WordAt, Field;
    assert HeaderAt(v, cs, i);
    if 0 < i {
      assert HeaderAt(v, cs, i - 1);
      Within(cs, HEAP_START, i - 1);
    }
  }

  /** What a merge of the free chunks i and i + 1 reads before it writes. */
  lemma MergeReady(v: seq<Byte>, cs: seq<Chunk>, i: int)
    requires Tiled(cs, HEAP_START) && Encodes(v, cs) && End(cs, HEAP_START) <= HEAP_START + |v| < TWO32
    requires 0 <= i < |cs| - 1 && !cs[i].used && !cs[i + 1].used
    ensures Field(v, cs, i, 2) == 2 * cs[i].len && Field(v, cs, i + 1, 2) == 2 * cs[i + 1].len
    ensures Field(v, cs, i, 1) == cs[i + 1].addr > 0 && Field(v, cs, i + 1, 0) == cs[i].addr > 0
    ensures Field(v, cs, i + 1, 1) == if i + 2 < |cs| then cs[i + 2].addr else 0
    ensures i + 2 < |cs| ==> 0 < cs[i + 2].addr
    ensures cs[i].len > 0 && cs[i + 1].len > 0 && cs[i].len + cs[i + 1].len < TWO31
    ensures var r := Merge(cs, i);
            && Tiled(r, HEAP_START) && End(r, HEAP_START) == End(cs, HEAP_START) && Live(r) == Live(cs)
            && r != [] && |r| == |cs| - 1 && r[i].addr == cs[i].addr && Info(r[i]) == 2 * (cs[i].len + cs[i + 1].len)
  {
    hide WordAt, Live;
    MergeStep(cs, HEAP_START, i);
    assert HeaderAt(v, cs, i) && HeaderAt(v, cs, i + 1);
    Within(cs, HEAP_START, i);
    Within(cs, HEAP_START, i + 1);
    if i + 2 < |cs| {
      Within(cs, HEAP_START, i + 2);
    }
  }

  /** The links and the length that a merge writes. */
  lemma MergeEncodes(v: seq<Byte>, v': seq<Byte>, cs: seq<Chunk>, i: int)
    requires Encodes(v, cs) && 0 <= i < |cs| - 1 && |v'| == |v|
    requires Field(v', cs, i, 2) == Info(Merge(cs, i)[i]) && Field(v', cs, i, 1) == Field(v, cs, i + 1, 1)
    requires i + 2 < |cs| ==> Field(v', cs, i + 2, 0) == cs[i].addr
    requires forall j, f | 0 <= j < |cs| && 0 <= f < 3 && !(j == i && f != 0) && !(j == i + 2 && f == 0) ::
               Field(v', cs, j, f) == Field(v, cs, j, f)
    ensures Encodes(v', Merge(cs, i))
  {
    hide WordAt;
    var r := Merge(cs, i);
    forall j | 0 <= j < |r|
      ensures HeaderAt(v', r, j)
    {
      if j < i {
        assert HeaderAt(v, cs, j) && r[j] == cs[j];
      } else if j > i {
        assert HeaderAt(v, cs, j + 1) && r[j] == cs[j + 1];
      } else {
        assert HeaderAt(v, cs, i) && HeaderAt(v, cs, i + 1);
      }
    }
  }

  lemma GlueShape(cs: seq<Chunk>, i: int)
    requires 0 <= i < |cs| && !cs[i].used
    ensures var c := MergeNext(cs, i);
            && i < |c| && !c[i].used && c[i].addr == cs[i].addr
            && var k := GluedIndex(c, i); k < |MergePrev(c, i)| && !MergePrev(c, i)[k].used
  {
  }

  lemma DropLast(cs: seq<Chunk>, k: int)
    requires Tiled(cs, HEAP_START) && 0 <= k == |cs| - 1 && !cs[k].used
    ensures Tiled(cs[..k], HEAP_START) && End(cs[..k], HEAP_START) == cs[k].addr && Live(cs[..k]) == Live(cs)
  {
    hide Live;
    LiveInit(cs);
  }

  lemma DropReady(v: seq<Byte>, cs: seq<Chunk>)
    requires Tiled(cs, HEAP_START) && cs != [] && !cs[|cs| - 1].used
    requires End(cs, HEAP_START) <= HEAP_START + |v| < TWO32
    ensures var k := |cs| - 1;
            && Tiled(cs[..k], HEAP_START) && End(cs[..k], HEAP_START) == cs[k].addr && Live(cs[..k]) == Live(cs)
            && HEAP_START <= cs[k].addr < HEAP_START + |v|
            && (0 < k ==> cs[..k] != [])
  {
    DropLast(cs, |cs| - 1);
    Within(cs, HEAP_START, |cs| - 1);
  }

  lemma DropEncodes(v: seq<Byte>, v': seq<Byte>, cs: seq<Chunk>)
    requires Encodes(v, cs) && cs != []
    requires if |cs| == 1 then v' == v else FieldSet(v, v', cs, |cs| - 2, 1, 0)
    ensures Encodes(v', cs[..|cs| - 1]) && Kept(v, v', Live(cs))
  {
    hide WordAt, Live, Payload;
    var k := |cs| - 1;
    forall j | 0 <= j < k
      ensures HeaderAt(v', cs[..k], j)
    {
      assert HeaderAt(v, cs, j);
      assert Field(v', cs[..k], j, 0) == Field(v', cs, j, 0) && Field(v', cs[..k], j, 1) == Field(v', cs, j, 1) &&
             Field(v', cs[..k], j, 2) == Field(v', cs, j, 2);
    }
  }

  /** Cutting the view off above the list loses neither a header nor a payload. */
  lemma Truncated(v: seq<Byte>, v': seq<Byte>, cs: seq<Chunk>)
    requires v' <= v && Tiled(cs, HEAP_START) && End(cs, HEAP_START) <= HEAP_START + |v'| && Encodes(v, cs)
    ensures Encodes(v', cs) && Kept(v, v', Live(cs))
  {
    forall j | 0 <= j < |cs|
      ensures HeaderAt(v', cs, j)
    {
      assert HeaderAt(v, cs, j);
      Within(cs, HEAP_START, j);
      TruncatedField(v, v', cs, j, 0);
      TruncatedField(v, v', cs, j, 1);
      TruncatedField(v, v', cs, j, 2);
    }
    forall x | x in Live(cs)
      ensures Payload(v', x) == Payload(v, x)
    {
      var j :| 0 <= j < |cs| && cs[j].used && x == (cs[j].addr, cs[j].len);
      Within(cs, HEAP_START, j);
    }
  }

  lemma TruncatedField(v: seq<Byte>, v': seq<Byte>, cs: seq<Chunk>, j: int, f: int)
    requires v' <= v && 0 <= j < |cs| && HEAP_START <= cs[j].addr && cs[j].addr + HEADER <= HEAP_START + |v'| &&
             0 <= f < 3
    ensures Field(v', cs, j, f) == Field(v, cs, j, f)
  {
  }

  lemma SameWord(v: seq<Byte>, a: int, u: seq<Byte>)
    requires 0 <= a && a + 4 <= |v| && |u| == 4 && u[0] == v[a] && u[1] == v[a + 1] && u[2] == v[a + 2] &&
             u[3] == v[a + 3]
    ensures WordAt(u, 0) == WordAt(v, a)
  {
  }
}
